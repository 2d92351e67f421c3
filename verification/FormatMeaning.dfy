/** What the output of an integer conversion says, for every base and every set of flags, read without reference to
    how it was produced (src/lib/stdio.c:462-547; section 7.19.6.1 of ISO C99). */
module FormatMeaning {
  import opened Format
  import opened Numerals
  import opened Sequences

  // ----- reading digits -----

  predicate IsDigitOf(r: Radix, ch: char)
  {
    match r
    case Decimal => '0' <= ch <= '9'
    case Octal => '0' <= ch <= '7'
    case LowerHex => '0' <= ch <= '9' || 'a' <= ch <= 'f'
    case UpperHex => '0' <= ch <= '9' || 'A' <= ch <= 'F'
  }

  function DigitOf(ch: char): (d: int)
  {
    if 'a' <= ch then ch as int - 'a' as int + 10 else if 'A' <= ch then ch as int - 'A' as int + 10 else ch as int - '0' as int
  }

  /** The number that digits in the given base denote, most significant first. */
  function ValueOf(base: nat, d: string): (v: int)
  {
    if d == "" then 0 else base * ValueOf(base, d[..|d| - 1]) + DigitOf(d[|d| - 1])
  }

  ghost predicate DigitsOf(r: Radix, d: string)
  {
    forall i | 0 <= i < |d| :: IsDigitOf(r, d[i])
  }

  lemma DigitMeaning(r: Radix, ch: char)
    requires DigitValue(r, ch) >= 0
    ensures IsDigitOf(r, ch) && DigitOf(ch) == DigitValue(r, ch)
  {
    hide IsDigitOf, DigitOf, IndexOf;
    DigitAt(r, DigitValue(r, ch));
  }

  lemma DigitAt(r: Radix, d: nat)
    requires d < r.Base()
    ensures IsDigitOf(r, r.Digits()[d]) && DigitOf(r.Digits()[d]) == d
  {
    if r.LowerHex? {
      LowerAt(d);
    } else if r.UpperHex? {
      UpperAt(d);
    } else {
      assert d < 10 ==> "0123456789"[d] as int == '0' as int + d;
      assert d < 8 ==> "01234567"[d] as int == '0' as int + d;
    }
  }

  lemma LowerAt(d: nat)
    requires d < 16
    ensures "0123456789abcdef"[d] as int == if d < 10 then '0' as int + d else 'a' as int + d - 10
  {
  }

  lemma UpperAt(d: nat)
    requires d < 16
    ensures "0123456789ABCDEF"[d] as int == if d < 10 then '0' as int + d else 'A' as int + d - 10
  {
  }

  lemma {:induction false} ReversedValue(r: Radix, s: string)
    requires AllDigits(r, s)
    ensures ValueOf(r.Base(), Reversed(s)) == Denoted(r, s) && DigitsOf(r, Reversed(s))
  {
    hide DigitValue, DigitOf, IsDigitOf, ValueOf;
    if s != "" {
      ReversedValue(r, s[1..]);
      DigitMeaning(r, s[0]);
      OneMore(r.Base(), Reversed(s[1..]), s[0]);
    } else {
      NoValue(r.Base());
    }
  }

  lemma OneMore(base: nat, d: string, ch: char)
    ensures ValueOf(base, d + [ch]) == base * ValueOf(base, d) + DigitOf(ch)
  {
    assert (d + [ch])[..|d|] == d;
  }

  lemma NoValue(base: nat)
    ensures ValueOf(base, "") == 0
  {
  }

  lemma {:induction false} LeadingZerosMean(r: Radix, n: nat, d: string)
    ensures ValueOf(r.Base(), Repeat('0', n) + d) == ValueOf(r.Base(), d)
    decreases |d|, n
  {
    var s := Repeat('0', n) + d;
    if d != "" {
      assert s[..|s| - 1] == Repeat('0', n) + d[..|d| - 1];
      LeadingZerosMean(r, n, d[..|d| - 1]);
    } else if n > 0 {
      assert s[..|s| - 1] == Repeat('0', n - 1) + d;
      LeadingZerosMean(r, n - 1, d);
    } else {
      assert s == "";
    }
  }

  lemma {:induction false} UngroupedReversed(s: string)
    ensures Ungrouped(Reversed(s)) == Reversed(Ungrouped(s))
  {
    if s != "" {
      var t := Reversed(s[1..]);
      UngroupedReversed(s[1..]);
      UngroupedConcat(t, [s[0]]);
      assert [s[0]][1..] == "";
      assert Ungrouped([s[0]]) == if s[0] == ',' then "" else [s[0]];
      if s[0] != ',' {
        assert ([s[0]] + Ungrouped(s[1..]))[1..] == Ungrouped(s[1..]);
      }
    }
  }

  // ----- where the commas are -----

  /** How many characters the first k digits take, with the commas between them. */
  function Taken(r: Radix, k: nat): (n: nat)
  {
    k + GroupEnds(r, k)
  }

  /** Counted from the least significant end, every group of digits is followed by a comma. */
  lemma {:induction false} CommasFrom(r: Radix, v: nat, k: nat, i: nat)
    requires i < |Accumulated(r, v, true, k)|
    ensures Accumulated(r, v, true, k)[i] == ',' <==> (Taken(r, k) + i) % (r.Group() + 1) == r.Group()
    decreases v
  {
    hide Accumulated, Taken;
    AccumulatedUnfold(r, v, true, k);
    ChunkCommas(r, v, k);
    var c := Chunk(r, v, true, k);
    if i >= |c| {
      CommasFrom(r, v / r.Base(), k + 1, i - |c|);
    }
  }

  lemma AccumulatedUnfold(r: Radix, v: nat, group: bool, k: nat)
    ensures v > 0 ==> v / r.Base() < v && Accumulated(r, v, group, k) == Chunk(r, v, group, k) + Accumulated(r, v / r.Base(), group, k + 1)
    ensures v == 0 ==> Accumulated(r, v, group, k) == ""
  {
  }

  lemma ChunkCommas(r: Radix, v: nat, k: nat)
    ensures var c := Chunk(r, v, true, k);
      && Taken(r, k + 1) == Taken(r, k) + |c|
      && forall i | 0 <= i < |c| :: c[i] == ',' <==> (Taken(r, k) + i) % (r.Group() + 1) == r.Group()
  {
    assert r.Digits()[v % r.Base()] in r.Digits();
    TakenRemainder(r, k);
  }

  lemma TakenRemainder(r: Radix, k: nat)
    ensures var g := r.Group(); var last := k > 0 && k % g == 0;
      && Taken(r, k + 1) == Taken(r, k) + (if last then 2 else 1)
      && Taken(r, k) % (g + 1) == (if last then g else k % g)
      && (last ==> (Taken(r, k) + 1) % (g + 1) == 0)
  {
    if r.Group() == 3 {
      ByThrees(k, k / 3, k % 3);
    } else {
      ByFours(k, k / 4, k % 4);
    }
  }

  lemma ByThrees(k: nat, q: nat, m: nat)
    requires k == 3 * q + m && m < 3
    ensures k > 0 ==> (k - 1) / 3 == if m == 0 then q - 1 else q
    ensures k / 3 == q && k % 3 == m && (4 * q + m) % 4 == m && (q > 0 ==> (4 * q - 1) % 4 == 3)
  {
    assert k > 0 && m == 0 ==> k - 1 == 3 * (q - 1) + 2;
    assert q > 0 ==> 4 * q - 1 == 4 * (q - 1) + 3;
  }

  lemma ByFours(k: nat, q: nat, m: nat)
    requires k == 4 * q + m && m < 4
    ensures k > 0 ==> (k - 1) / 4 == if m == 0 then q - 1 else q
    ensures k / 4 == q && k % 4 == m && (5 * q + m) % 5 == m && (q > 0 ==> (5 * q - 1) % 5 == 4)
  {
    assert k > 0 && m == 0 ==> k - 1 == 4 * (q - 1) + 3;
    assert q > 0 ==> 5 * q - 1 == 5 * (q - 1) + 4;
  }

  // ----- the whole output -----

  /** The sign: a minus for a negative number, otherwise what the flags ask for; none without a signed conversion. */
  predicate SignIs(sign: string, isSigned: bool, negative: bool, c: Conversion)
  {
    && (sign == "-" <==> isSigned && negative)
    && (sign == "+" <==> isSigned && !negative && c.plus)
    && (sign == " " <==> isSigned && !negative && !c.plus && c.space)
    && (sign == "" <==> !isSigned || (!negative && !c.plus && !c.space))
  }

  /** The prefix: only for a hexadecimal conversion of a nonzero value with `#`. */
  predicate PrefixIs(x: string, r: Radix, v: nat, c: Conversion)
  {
    && (x == "0x" <==> c.pound && v != 0 && r.LowerHex?)
    && (x == "0X" <==> c.pound && v != 0 && r.UpperHex?)
    && (x == "" <==> !(c.pound && v != 0 && (r.LowerHex? || r.UpperHex?)))
  }

  /** The digits: those of the base, denoting the value, with commas only when grouping is asked for and, counted from
      the right, after every group of the value's own digits; `#` makes an octal number start with a zero. */
  ghost predicate DigitsAre(d: string, r: Radix, v: nat, c: Conversion)
  {
    && DigitsOf(r, Ungrouped(d)) && ValueOf(r.Base(), Ungrouped(d)) == v
    && (forall i | 0 <= i < |d| ::
          d[i] == ',' <==> c.group && |d| - 1 - i < DigitCount(r, v) + CommaCount(r, v, c) && (|d| - 1 - i) % (r.Group() + 1) == r.Group())
    && (c.pound && r.Octal? ==> d != "" && d[0] == '0')
    && (!c.zero ==>
          var p := Min(if c.precision < 0 then 1 else c.precision, BUF_SIZE - 1);
          |Ungrouped(d)| == DigitCount(r, v) + Max(0, p - DigitCount(r, v) - CommaCount(r, v, c)) + if AddsZero(r, v, c) then 1 else 0)
  }

  /** Blanks, sign, prefix, digits, blanks. The blanks are in front unless `-` or `0` is in force, and behind exactly
      with `-`. */
  ghost predicate Says(out: string, n: nat, sign: string, x: string, d: string, m: nat,
                       r: Radix, v: nat, isSigned: bool, negative: bool, c: Conversion)
  {
    && out == Repeat(' ', n) + sign + x + d + Repeat(' ', m)
    && SignIs(sign, isSigned, negative, c) && PrefixIs(x, r, v, c) && DigitsAre(d, r, v, c)
    && (n > 0 ==> !c.minus && !c.zero) && (m > 0 ==> c.minus)
  }

  /** For every value, base and set of flags, width and precision, the output reads back to what was asked for. */
  lemma OutputSays(r: Radix, v: nat, isSigned: bool, negative: bool, c: Conversion)
    returns (n: nat, sign: string, x: string, d: string, m: nat)
    ensures Says(Rendered(r, v, isSigned, negative, c), n, sign, x, d, m, r, v, isSigned, negative, c)
  {
    hide Buffer, Reversed, Repeat, DigitsAre, SignIs, PrefixIs, Sign, HexPrefix;
    SignSays(isSigned, negative, c);
    PrefixSays(r, v, c);
    var b := Buffer(r, v, c);
    sign, x := Sign(isSigned, negative, c), HexPrefix(r, v, c);
    var pad := Max(0, c.width - |b| - |x| - |sign|);
    n, m := if !c.minus && !c.zero then pad else 0, if c.minus then pad else 0;
    var z := if c.zero then pad else 0;
    d := Repeat('0', z) + Reversed(b);
    BufferSays(r, v, c, z);
    Regroup(Repeat(' ', n), sign, x, Repeat('0', z), Reversed(b), Repeat(' ', m));
  }

  lemma SignSays(isSigned: bool, negative: bool, c: Conversion)
    ensures SignIs(Sign(isSigned, negative, c), isSigned, negative, c)
  {
  }

  lemma PrefixSays(r: Radix, v: nat, c: Conversion)
    ensures PrefixIs(HexPrefix(r, v, c), r, v, c)
  {
    assert "0x"[1] == 'x' && "0X"[1] == 'X';
  }

  lemma Regroup(a: string, b: string, c: string, d: string, e: string, f: string)
    ensures a + ((b + c) + (d + e + f)) == a + b + c + (d + e) + f
  {
  }

  lemma BufferSays(r: Radix, v: nat, c: Conversion, z: nat)
    requires z > 0 ==> c.zero
    ensures DigitsAre(Repeat('0', z) + Reversed(Buffer(r, v, c)), r, v, c)
  {
    hide Buffer, Ungrouped, Accumulated, DigitCount, CommaCount, DigitsOf, ValueOf, Repeat, Reversed, AddsZero;
    BufferValue(r, v, c, z);
    BufferCommas(r, v, c, z);
    BufferLeads(r, v, c, z);
    BufferCounts(r, v, c, z);
  }

  lemma BufferLeads(r: Radix, v: nat, c: Conversion, z: nat)
    ensures c.pound && r.Octal? ==> var d := Repeat('0', z) + Reversed(Buffer(r, v, c)); d != "" && d[0] == '0'
  {
    hide Buffer;
    OctalLeads(r, v, c);
  }

  lemma BufferCounts(r: Radix, v: nat, c: Conversion, z: nat)
    requires z > 0 ==> c.zero
    ensures !c.zero ==>
      var p := Min(if c.precision < 0 then 1 else c.precision, BUF_SIZE - 1);
      |Ungrouped(Repeat('0', z) + Reversed(Buffer(r, v, c)))| ==
        DigitCount(r, v) + Max(0, p - DigitCount(r, v) - CommaCount(r, v, c)) + if AddsZero(r, v, c) then 1 else 0
  {
    hide Buffer, Ungrouped, Accumulated, DigitCount, CommaCount, AddsZero;
    var b := Buffer(r, v, c);
    if !c.zero {
      assert Repeat('0', z) + Reversed(b) == Reversed(b);
      EmittedDigits(r, v, c);
      UngroupedReversed(b);
    }
  }

  lemma BufferValue(r: Radix, v: nat, c: Conversion, z: nat)
    ensures var d := Repeat('0', z) + Reversed(Buffer(r, v, c));
      DigitsOf(r, Ungrouped(d)) && ValueOf(r.Base(), Ungrouped(d)) == v
  {
    hide Buffer, Denoted, DigitsOf, ValueOf;
    var b := Buffer(r, v, c);
    BufferDenotes(r, v, c);
    ReversedValue(r, Ungrouped(b));
    UngroupedReversed(b);
    UngroupedConcat(Repeat('0', z), Reversed(b));
    NoCommas(Repeat('0', z));
    LeadingZerosMean(r, z, Ungrouped(Reversed(b)));
    ZerosDigits(r, z, Ungrouped(Reversed(b)));
  }

  lemma ZerosDigits(r: Radix, n: nat, d: string)
    requires DigitsOf(r, d)
    ensures DigitsOf(r, Repeat('0', n) + d)
  {
  }

  lemma BufferCommas(r: Radix, v: nat, c: Conversion, z: nat)
    ensures var d := Repeat('0', z) + Reversed(Buffer(r, v, c));
      forall i | 0 <= i < |d| ::
        d[i] == ',' <==> c.group && |d| - 1 - i < DigitCount(r, v) + CommaCount(r, v, c) && (|d| - 1 - i) % (r.Group() + 1) == r.Group()
  {
    hide Buffer, Accumulated, DigitCount, CommaCount;
    var a, b := Accumulated(r, v, c.group, 0), Buffer(r, v, c);
    var k := BufferShape(r, v, c);
    AccumulatedSize(r, v, c);
    var d := Repeat('0', z) + Reversed(b);
    forall i | 0 <= i < |d| ensures d[i] == ',' <==>
        c.group && |d| - 1 - i < DigitCount(r, v) + CommaCount(r, v, c) && (|d| - 1 - i) % (r.Group() + 1) == r.Group() {
      var j := |d| - 1 - i;
      if j < |a| {
        assert d[i] == b[j] == a[j];
        if c.group {
          CommasFrom(r, v, 0, j);
          NoEnds(r);
        } else {
          NoGroupNoCommas(r, v, 0);
        }
      } else if j < |b| {
        assert d[i] == b[j] == '0';
      }
    }
  }

  lemma OctalLeads(r: Radix, v: nat, c: Conversion)
    ensures c.pound && r.Octal? ==> var b := Buffer(r, v, c); b != "" && Reversed(b)[0] == '0'
  {
    hide Accumulated;
  }
}
