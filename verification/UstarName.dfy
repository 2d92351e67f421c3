/** Names and octal fields of the "ustar Interchange Format" of the pax utility in SUSv3
    (src/lib/ustar.c:56-73, 120-173). Bytes are characters below 256. */
module UstarName {
  import opened Format
  import opened Sequences
  import opened Numerals

  // ----- antisocial prefixes -----

  predicate StartsWith(s: string, p: string)
  {
    p <= s
  }

  /** How many characters the loop drops from the front in its next round; 0 ends it. */
  function Dropped(s: string): (n: nat)
    ensures n <= |s|
  {
    if StartsWith(s, "/") then 1 else if StartsWith(s, "./") then 2 else if StartsWith(s, "../") then 3 else 0
  }

  function Trimmed(s: string): (t: string)
    ensures Dropped(t) == 0
    ensures |t| <= |s| && t == s[|s| - |t|..]
    decreases |s|
  {
    if Dropped(s) == 0 then s
    else
      var rest := s[Dropped(s)..];
      var t := Trimmed(rest);
      TailOfTail(s, Dropped(s), |t|);
      t
  }

  lemma TailOfTail(s: string, n: nat, k: nat)
    requires n + k <= |s|
    ensures s[n..][|s| - n - k..] == s[|s| - k..]
  {
  }

  function Stripped(s: string): (t: string)
  {
    if Trimmed(s) == "" || Trimmed(s) == ".." then "." else Trimmed(s)
  }

  /** A string made of the components "/", "./" and "../" only. */
  predicate Climbs(p: string)
  {
    || p == ""
    || (p[0] == '/' && Climbs(p[1..]))
    || (|p| >= 2 && p[0] == '.' && p[1] == '/' && Climbs(p[2..]))
    || (|p| >= 3 && p[0] == '.' && p[1] == '.' && p[2] == '/' && Climbs(p[3..]))
  }

  /** What stripping does: the longest front part made of "/", "./" and "../" goes, and what is left is the name unless
      it is empty or the parent. */
  lemma StrippedMeaning(s: string) returns (i: nat)
    ensures i <= |s| && Climbs(s[..i]) && forall j: nat | j <= |s| && Climbs(s[..j]) :: j <= i
    ensures Stripped(s) == if s[i..] == "" || s[i..] == ".." then "." else s[i..]
  {
    i := Front(s);
  }

  lemma {:induction false} Front(s: string) returns (i: nat)
    ensures i <= |s| && Climbs(s[..i]) && s[i..] == Trimmed(s)
    ensures forall j: nat | j <= |s| && Climbs(s[..j]) :: j <= i
    decreases |s|
  {
    hide Climbs, Dropped, Trimmed;
    var n := Dropped(s);
    TrimmedStep(s);
    FrontPart(s, 0);
    if n == 0 {
      i := 0;
      forall j: nat | j <= |s| && Climbs(s[..j]) ensures j == 0 {
        FrontPart(s, j);
      }
    } else {
      var t := s[n..];
      var k := Front(t);
      i := k + n;
      FrontPart(s, i);
      assert s[n..i] == t[..k] && s[i..] == t[k..];
      forall j: nat | j <= |s| && Climbs(s[..j]) ensures j <= i {
        FrontPart(s, j);
        assert j >= n ==> s[n..j] == t[..j - n];
      }
    }
  }

  lemma TrimmedStep(s: string)
    ensures Trimmed(s) == if Dropped(s) == 0 then s else Trimmed(s[Dropped(s)..])
  {
  }

  /** A front part climbs exactly if it is empty, or its first component is the one that is dropped and the rest climbs. */
  lemma FrontPart(s: string, j: nat)
    requires j <= |s|
    ensures var n := Dropped(s); Climbs(s[..j]) <==> j == 0 || (0 < n <= j && Climbs(s[n..j]))
  {
    var p := s[..j];
    StartsAt(s);
    assert forall i | 0 <= i < j :: p[i] == s[i];
    assert j >= 1 ==> p[1..] == s[1..j];
    assert j >= 2 ==> p[2..] == s[2..j];
    assert j >= 3 ==> p[3..] == s[3..j];
  }

  lemma StartsAt(s: string)
    ensures StartsWith(s, "/") <==> |s| >= 1 && s[0] == '/'
    ensures StartsWith(s, "./") <==> |s| >= 2 && s[0] == '.' && s[1] == '/'
    ensures StartsWith(s, "../") <==> |s| >= 3 && s[0] == '.' && s[1] == '.' && s[2] == '/'
  {
    assert |s| >= 1 ==> s[..1] == [s[0]];
    assert |s| >= 2 ==> s[..2] == [s[0], s[1]];
    assert |s| >= 3 ==> s[..3] == [s[0], s[1], s[2]];
  }

  /** A name that a naive extractor can use: not empty, not the parent, and not reached through
      the root, "." or "..". */
  predicate Sociable(s: string)
  {
    s != "" && s != ".." && !StartsWith(s, "/") && !StartsWith(s, "./") && !StartsWith(s, "../")
  }

  /** Stripping always gives a sociable name, leaves sociable names alone, and keeps a suffix of
      the name unless it has to fall back to ".". */
  lemma StrippedSociable(s: string)
    ensures Sociable(Stripped(s))
    ensures Stripped(s) == s <==> Sociable(s)
    ensures Stripped(s) == "." || (|Stripped(s)| <= |s| && Stripped(s) == s[|s| - |Stripped(s)|..])
  {
    var t := Trimmed(s);
    assert !StartsWith(t, "/") && !StartsWith(t, "./") && !StartsWith(t, "../");
    assert "."[0] == '.' && "/"[0] == '/';
  }

  /** strchr (s, '/') for a string that has a slash. */
  method FindSlash(s: string, start: nat) returns (i: nat)
    requires start <= |s| && exists k :: start <= k < |s| && s[k] == '/'
    ensures start <= i < |s| && s[i] == '/' && '/' !in s[start..i]
  {
    i := start;
    while s[i] != '/'
      invariant start <= i < |s| && '/' !in s[start..i]
      invariant exists k :: i <= k < |s| && s[k] == '/'
      decreases |s| - i
    {
      assert s[start..i + 1] == s[start..i] + [s[i]];
      i := i + 1;
    }
  }

  /** strip_antisocial_prefixes. */
  method StripPrefixes(s: string) returns (t: string)
    ensures t == Stripped(s)
  {
    t := s;
    while StartsWith(t, "/") || StartsWith(t, "./") || StartsWith(t, "../")
      invariant Trimmed(t) == Trimmed(s)
      decreases |t|
    {
      SlashAt(t);
      var i := FindSlash(t, 0);
      SlashIsFirst(t, i);
      t := t[i + 1..];
    }
    if t == "" || t == ".." {
      t := ".";
    }
  }

  lemma SlashAt(t: string)
    requires Dropped(t) > 0
    ensures t[Dropped(t) - 1] == '/'
  {
  }

  lemma SlashIsFirst(t: string, i: nat)
    requires Dropped(t) > 0 && i < |t| && t[i] == '/' && '/' !in t[0..i]
    ensures i + 1 == Dropped(t)
  {
    var d := Dropped(t);
    SlashAt(t);
    forall k | 0 <= k < i ensures t[k] != '/' {
      assert t[k] == t[0..i][k];
    }
    assert d == 2 ==> t[0] == '.' by { assert "./"[0] == '.'; }
    assert d == 3 ==> t[0] == '.' && t[1] == '.' by { assert "../"[0] == '.' && "../"[1] == '.'; }
  }

  // ----- octal fields -----

  datatype Number = NotANumber | Number(value: int)

  const ULONG_MAX := 0xffff_ffff

  predicate IsOctal(ch: char)
  {
    '0' <= ch <= '7'
  }

  /** The value of a field, given what its first characters amounted to: octal digits up to the
      first blank or null, at least one digit, and no overflow. */
  function OctalFrom(s: string, i: nat, value: int): (r: Number)
    requires i <= |s|
    decreases |s| - i
  {
    if i == |s| then NotANumber
    else if IsOctal(s[i]) then
      if value > ULONG_MAX / 8 then NotANumber
      else OctalFrom(s, i + 1, value * 8 + (s[i] as int - '0' as int))
    else if (s[i] == ' ' || s[i] == '\0') && i > 0 then Number(value)
    else NotANumber
  }

  /** parse_octal_field: it accepts exactly the fields that denote a number, and returns that number. */
  method ParseOctalField(s: string) returns (ok: bool, value: int)
    ensures ok == OctalFrom(s, 0, 0).Number?
    ensures ok ==> value == OctalFrom(s, 0, 0).value
    ensures ok ==> exists k: nat :: Denotes(s, k, value)
    ensures !ok ==> forall k: nat, v :: !Denotes(s, k, v)
  {
    Meaning(s);
    value := 0;
    for ofs := 0 to |s|
      invariant OctalFrom(s, 0, 0) == OctalFrom(s, ofs, value)
    {
      var c := s[ofs];
      if '0' <= c <= '7' {
        if value > ULONG_MAX / 8 {
          return false, value;
        }
        value := (c as int - '0' as int) + value * 8;
      } else if c == ' ' || c == '\0' {
        return ofs > 0, value;
      } else {
        return false, value;
      }
    }
    return false, value;
  }

  ghost predicate OctalDigits(d: string)
  {
    forall i | 0 <= i < |d| :: IsOctal(d[i])
  }

  lemma {:induction false} PrefixSmaller(d: string, i: nat)
    requires OctalDigits(d) && i <= |d|
    ensures 0 <= Numeral(8, d[..i]) <= Numeral(8, d)
    decreases |d|
  {
    if i == |d| {
      assert d[..i] == d;
      if d != "" {
        PrefixSmaller(d[..|d| - 1], |d| - 1);
      }
    } else {
      PrefixSmaller(d[..|d| - 1], i);
      assert d[..|d| - 1][..i] == d[..i];
    }
  }

  /** The first k characters of a field are octal digits denoting v, a blank or a null ends them, and v
      fits an unsigned long. */
  ghost predicate Denotes(s: string, k: nat, v: int)
  {
    && 0 < k < |s| && OctalDigits(s[..k]) && (s[k] == ' ' || s[k] == '\0')
    && Numeral(8, s[..k]) == v <= ULONG_MAX
  }

  /** What a field means: it has a value exactly when it is a nonempty run of octal digits ended by a
      blank or a null, and the value is then the number those digits denote. */
  lemma OctalMeaning(s: string, v: int)
    ensures OctalFrom(s, 0, 0) == Number(v) <==> exists k: nat :: Denotes(s, k, v)
  {
    assert s[..0] == "";
    if OctalFrom(s, 0, 0) == Number(v) {
      var k := ReadsDigits(s, 0, 0);
    }
    if k: nat :| Denotes(s, k, v) {
      DigitsRead(s, k, 0);
    }
  }

  lemma Meaning(s: string)
    ensures OctalFrom(s, 0, 0).Number? ==> exists k: nat :: Denotes(s, k, OctalFrom(s, 0, 0).value)
    ensures OctalFrom(s, 0, 0).NotANumber? ==> forall k: nat, v :: !Denotes(s, k, v)
  {
    if OctalFrom(s, 0, 0).Number? {
      OctalMeaning(s, OctalFrom(s, 0, 0).value);
    } else {
      forall k: nat, v | Denotes(s, k, v) ensures false {
        OctalMeaning(s, v);
      }
    }
  }

  lemma {:induction false} ReadsDigits(s: string, i: nat, value: int) returns (k: nat)
    requires i <= |s| && OctalDigits(s[..i]) && value == Numeral(8, s[..i]) <= ULONG_MAX
    requires OctalFrom(s, i, value).Number?
    ensures Denotes(s, k, OctalFrom(s, i, value).value)
    decreases |s| - i
  {
    if IsOctal(s[i]) {
      NumeralStep(8, s, i);
      assert s[..i + 1] == s[..i] + [s[i]];
      k := ReadsDigits(s, i + 1, value * 8 + (s[i] as int - '0' as int));
    } else {
      k := i;
    }
  }

  lemma {:induction false} DigitsRead(s: string, k: nat, i: nat)
    requires 0 < k < |s| && OctalDigits(s[..k]) && (s[k] == ' ' || s[k] == '\0')
    requires Numeral(8, s[..k]) <= ULONG_MAX && i <= k
    ensures OctalFrom(s, i, Numeral(8, s[..i])) == Number(Numeral(8, s[..k]))
    decreases k - i
  {
    hide Numeral;
    var d := s[..k];
    if i < k {
      PrefixSmaller(d, i + 1);
      NumeralStep(8, d, i);
      assert d[..i + 1] == s[..i + 1] && d[..i] == s[..i] && d[i] == s[i];
      DigitsRead(s, k, i + 1);
    }
  }

  /** The text that "%0<width>o" produces. */
  function OctalText(v: nat, width: nat): (s: string)
  {
    Rendered(Octal, v, false, false, Conversion(false, false, false, false, true, false, width, -1))
  }

  lemma {:induction false} FewDigits(v: nat, k: nat, n: nat)
    requires v < Pow8(n)
    ensures |Accumulated(Octal, v, false, k)| <= n
    decreases n
  {
    if v > 0 {
      FewDigits(v / 8, k + 1, n - 1);
    }
  }

  /** A number that fits the field is written with exactly `width` octal digits denoting it. */
  lemma OctalTextDenotes(v: nat, width: nat)
    requires 1 <= width && v < Pow8(width)
    ensures var s := OctalText(v, width);
      |s| == width && OctalDigits(s) && Numeral(8, s) == v
  {
    hide Buffer, Numeral, Pow8, Reversed, Accumulated, Repeat;
    var c := Conversion(false, false, false, false, true, false, width, -1);
    var b := Buffer(Octal, v, c);
    BufferDenotes(Octal, v, c);
    UngroupedBuffer(Octal, v, c);
    ReversedDenotes(Octal, b);
    FewDigits(v, 0, width);
    BufferLength(v, c);
    var z := width - |b|;
    LeadingZeros(8, z, Reversed(b));
    ZerosThenOctal(z, Reversed(b));
    assert OctalText(v, width) == Repeat('0', z) + Reversed(b);
  }

  lemma BufferLength(v: nat, c: Conversion)
    requires !c.group && !c.pound && c.precision == -1
    ensures |Buffer(Octal, v, c)| == Max(1, |Accumulated(Octal, v, false, 0)|)
  {
  }

  lemma ZerosThenOctal(n: nat, d: string)
    requires DigitsBelow(8, d)
    ensures OctalDigits(Repeat('0', n) + d)
  {
  }

  /** Written by "%0<width>o" and terminated, the field parses back to the number. */
  lemma OctalRoundTrip(v: nat, width: nat, rest: string)
    requires 1 <= width && v < Pow8(width) && v <= ULONG_MAX
    requires rest != "" && rest[0] == '\0'
    ensures OctalFrom(OctalText(v, width) + rest, 0, 0) == Number(v)
  {
    hide OctalText, OctalFrom, Pow8;
    OctalTextDenotes(v, width);
    var s := OctalText(v, width);
    assert (s + rest)[..0] == "" && (s + rest)[..width] == s;
    DigitsRead(s + rest, width, 0);
  }
}
