/** What the output of an integer conversion means, and reading it back with atoi
    (src/lib/stdio.c:469-547, src/lib/stdlib.c:9-41). */
module Numerals {
  import opened Format
  import opened Sequences

  // ----- the digits denote the value -----

  function DigitValue(r: Radix, ch: char): (d: int)
    ensures -1 <= d < r.Base()
    ensures d >= 0 ==> r.Digits()[d] == ch
  {
    IndexOf(r.Digits(), ch)
  }

  function IndexOf(s: string, ch: char): (i: int)
    ensures -1 <= i < |s|
    ensures i >= 0 ==> s[i] == ch
    ensures i == -1 ==> ch !in s
  {
    if s == "" then -1
    else if s[0] == ch then 0
    else
      var i := IndexOf(s[1..], ch);
      if i == -1 then -1 else i + 1
  }

  lemma DigitsDistinct(r: Radix, i: nat, j: nat)
    requires i < r.Base() && j < r.Base() && r.Digits()[i] == r.Digits()[j]
    ensures i == j
  {
  }

  lemma DigitRoundTrip(r: Radix, d: nat)
    requires d < r.Base()
    ensures DigitValue(r, r.Digits()[d]) == d
  {
    assert r.Digits()[d] in r.Digits();
    DigitsDistinct(r, d, DigitValue(r, r.Digits()[d]));
  }

  /** The number denoted by a digit string, least significant digit first. */
  function Denoted(r: Radix, s: string): (v: int)
  {
    if s == "" then 0 else DigitValue(r, s[0]) + r.Base() * Denoted(r, s[1..])
  }

  function Ungrouped(s: string): (t: string)
  {
    if s == "" then "" else if s[0] == ',' then Ungrouped(s[1..]) else [s[0]] + Ungrouped(s[1..])
  }

  ghost predicate AllDigits(r: Radix, s: string)
  {
    forall i | 0 <= i < |s| :: DigitValue(r, s[i]) >= 0
  }

  lemma {:induction false} UngroupedConcat(s: string, t: string)
    ensures Ungrouped(s + t) == Ungrouped(s) + Ungrouped(t)
  {
    if s == "" {
      assert s + t == t;
    } else {
      assert (s + t)[1..] == s[1..] + t;
      UngroupedConcat(s[1..], t);
    }
  }

  lemma UngroupedChunk(r: Radix, v: nat, group: bool, k: nat)
    ensures Ungrouped(Chunk(r, v, group, k)) == [r.Digits()[v % r.Base()]]
  {
    var d := r.Digits()[v % r.Base()];
    assert d in r.Digits();
    assert d != ',';
    assert [d][1..] == "" && [',', d][1..] == [d];
    assert Ungrouped([d]) == [d];
  }

  /** Once the commas are taken out, the accumulated digits denote the value. */
  lemma {:induction false} AccumulatedDenotes(r: Radix, v: nat, group: bool, k: nat)
    ensures Denoted(r, Ungrouped(Accumulated(r, v, group, k))) == v
    ensures AllDigits(r, Ungrouped(Accumulated(r, v, group, k)))
    decreases v
  {
    hide Chunk;
    if v > 0 {
      var rest := Accumulated(r, v / r.Base(), group, k + 1);
      var d := r.Digits()[v % r.Base()];
      AccumulatedDenotes(r, v / r.Base(), group, k + 1);
      UngroupedConcat(Chunk(r, v, group, k), rest);
      UngroupedChunk(r, v, group, k);
      DigitRoundTrip(r, v % r.Base());
      assert ([d] + Ungrouped(rest))[1..] == Ungrouped(rest);
    }
  }

  lemma {:induction false} ZerosDenote(r: Radix, n: nat)
    ensures Denoted(r, Repeat('0', n)) == 0 && AllDigits(r, Repeat('0', n))
  {
    DigitRoundTrip(r, 0);
    if n > 0 {
      assert Repeat('0', n)[1..] == Repeat('0', n - 1);
      ZerosDenote(r, n - 1);
    }
  }

  lemma {:induction false} TrailingZeros(r: Radix, s: string, n: nat)
    ensures Denoted(r, s + Repeat('0', n)) == Denoted(r, s)
  {
    hide DigitValue, Repeat;
    if s == "" {
      assert s + Repeat('0', n) == Repeat('0', n);
      ZerosDenote(r, n);
    } else {
      assert (s + Repeat('0', n))[1..] == s[1..] + Repeat('0', n);
      TrailingZeros(r, s[1..], n);
    }
  }

  lemma {:induction false} NoCommas(s: string)
    requires ',' !in s
    ensures Ungrouped(s) == s
  {
    if s != "" {
      NoCommas(s[1..]);
    }
  }

  /** The buffer is the accumulated digits with zeros put in front of the most significant one. */
  lemma BufferShape(r: Radix, v: nat, c: Conversion) returns (n: nat)
    ensures Buffer(r, v, c) == Accumulated(r, v, c.group, 0) + Repeat('0', n)
  {
    var a := Accumulated(r, v, c.group, 0);
    var t := ToPrecision(a, c.precision);
    n := |t| - |a|;
    assert t == a + Repeat('0', n);
    if Buffer(r, v, c) != t {
      assert t + "0" == a + Repeat('0', n + 1);
      n := n + 1;
    }
  }

  /** Whatever the flags, the digits that format_integer emits denote the value it was given. */
  lemma BufferDenotes(r: Radix, v: nat, c: Conversion)
    ensures Denoted(r, Ungrouped(Buffer(r, v, c))) == v
    ensures AllDigits(r, Ungrouped(Buffer(r, v, c)))
  {
    hide Accumulated, Buffer;
    var n := BufferShape(r, v, c);
    var a := Accumulated(r, v, c.group, 0);
    AccumulatedDenotes(r, v, c.group, 0);
    UngroupedConcat(a, Repeat('0', n));
    NoCommas(Repeat('0', n));
    TrailingZeros(r, Ungrouped(a), n);
    ZerosDenote(r, n);
  }

  // ----- lengths -----

  lemma {:induction false} AccumulatedLength(r: Radix, v: nat, group: bool, k: nat, n: nat)
    requires v < Pow8(n)
    ensures |Accumulated(r, v, group, k)| <= 2 * n
    decreases n
  {
    hide Chunk;
    if v > 0 {
      assert n > 0;
      AccumulatedLength(r, v / r.Base(), group, k + 1, n - 1);
    }
  }

  lemma {:induction false} NoGroupNoCommas(r: Radix, v: nat, k: nat)
    ensures ',' !in Accumulated(r, v, false, k)
    decreases v
  {
    if v > 0 {
      NoGroupNoCommas(r, v / r.Base(), k + 1);
      assert r.Digits()[v % r.Base()] in r.Digits();
    }
  }

  /** How many digits v has; zero has none. */
  function DigitCount(r: Radix, v: nat): (d: nat)
    ensures d > 0 <==> v > 0
    decreases v
  {
    if v == 0 then 0 else 1 + DigitCount(r, v / r.Base())
  }

  /** How many of the positions 1, ..., m - 1 end a group. */
  function GroupEnds(r: Radix, m: nat): (k: nat)
  {
    if m == 0 then 0 else (m - 1) / r.Group()
  }

  /** How many commas a conversion emits. */
  function CommaCount(r: Radix, v: nat, c: Conversion): (k: nat)
  {
    if c.group then GroupEnds(r, DigitCount(r, v)) else 0
  }

  lemma {:induction false} UngroupedLength(s: string)
    ensures |Ungrouped(s)| <= |s|
    ensures |Ungrouped(s)| == |s| <==> ',' !in s
  {
    if s != "" {
      UngroupedLength(s[1..]);
      assert s == [s[0]] + s[1..];
    }
  }

  lemma ChunkLength(r: Radix, v: nat, group: bool, k: nat)
    ensures |Chunk(r, v, group, k)| == 1 + if group then GroupEnds(r, k + 1) - GroupEnds(r, k) else 0
  {
  }

  lemma {:induction false} AccumulatedCounts(r: Radix, v: nat, group: bool, k: nat)
    ensures var a := Accumulated(r, v, group, k); var d := DigitCount(r, v);
      |Ungrouped(a)| == d && |a| == d + (if group then GroupEnds(r, k + d) - GroupEnds(r, k) else 0)
    decreases v
  {
    hide Chunk, GroupEnds;
    if v > 0 {
      ChunkLength(r, v, group, k);
      AccumulatedCounts(r, v / r.Base(), group, k + 1);
      UngroupedConcat(Chunk(r, v, group, k), Accumulated(r, v / r.Base(), group, k + 1));
      UngroupedChunk(r, v, group, k);
    }
  }

  lemma {:induction false} LeadsNonzero(r: Radix, v: nat, group: bool, k: nat)
    requires v > 0
    ensures var a := Accumulated(r, v, group, k); a != "" && a[|a| - 1] != '0'
    decreases v
  {
    hide Chunk;
    if v / r.Base() > 0 {
      LeadsNonzero(r, v / r.Base(), group, k + 1);
    } else {
      assert Accumulated(r, 0, group, k + 1) == "";
      ChunkNonzero(r, v, group, k);
    }
  }

  lemma ChunkNonzero(r: Radix, v: nat, group: bool, k: nat)
    requires v % r.Base() != 0
    ensures var s := Chunk(r, v, group, k); s[|s| - 1] != '0'
  {
    if r.Digits()[v % r.Base()] == r.Digits()[0] {
      DigitsDistinct(r, v % r.Base(), 0);
    }
  }

  /** Whether `#` adds a leading zero to the digits of an octal conversion: when no zero that the
      precision asks for is there already. */
  predicate AddsZero(r: Radix, v: nat, c: Conversion)
  {
    c.pound && r.Octal? &&
    Min(if c.precision < 0 then 1 else c.precision, BUF_SIZE - 1) <= DigitCount(r, v) + CommaCount(r, v, c)
  }

  lemma EmittedDigits(r: Radix, v: nat, c: Conversion)
    ensures var p := Min(if c.precision < 0 then 1 else c.precision, BUF_SIZE - 1);
      |Ungrouped(Buffer(r, v, c))| == DigitCount(r, v) + Max(0, p - DigitCount(r, v) - CommaCount(r, v, c))
                                      + (if AddsZero(r, v, c) then 1 else 0)
  {
    hide Accumulated, DigitCount, CommaCount, Buffer, Ungrouped, AddsZero;
    var a := Accumulated(r, v, c.group, 0);
    AccumulatedSize(r, v, c);
    BufferSize(r, v, c);
    var n := BufferShape(r, v, c);
    UngroupedConcat(a, Repeat('0', n));
    NoCommas(Repeat('0', n));
  }

  lemma AccumulatedSize(r: Radix, v: nat, c: Conversion)
    ensures var a := Accumulated(r, v, c.group, 0);
      |Ungrouped(a)| == DigitCount(r, v) && |a| == DigitCount(r, v) + CommaCount(r, v, c)
  {
    hide Accumulated, DigitCount, GroupEnds, Ungrouped;
    AccumulatedCounts(r, v, c.group, 0);
    NoEnds(r);
  }

  lemma BufferSize(r: Radix, v: nat, c: Conversion)
    ensures |Buffer(r, v, c)| == |ToPrecision(Accumulated(r, v, c.group, 0), c.precision)| + if AddsZero(r, v, c) then 1 else 0
  {
    hide Accumulated, DigitCount, CommaCount, Ungrouped, Repeat;
    AccumulatedSize(r, v, c);
    if v > 0 {
      LeadsNonzero(r, v, c.group, 0);
    } else {
      NoChunk("", r, c.group, 0);
    }
  }

  lemma NoEnds(r: Radix)
    ensures GroupEnds(r, 0) == 0
  {
  }

  /** The 64-byte buffer always suffices. The conversion emits at least `precision` digits, as section
      7.19.6.1 of ISO C99 asks, exactly when the value has that many digits itself, or no comma is
      emitted and the precision is at most 63: commas are counted toward the precision. */
  lemma PrecisionKept(r: Radix, v: nat, c: Conversion)
    requires v < 0x1_0000_0000_0000_0000
    ensures |Buffer(r, v, c)| <= BUF_SIZE
    ensures |Ungrouped(Buffer(r, v, c))| >= c.precision <==>
      || c.precision <= DigitCount(r, v) + (if AddsZero(r, v, c) then 1 else 0)
      || (CommaCount(r, v, c) == 0 && c.precision <= BUF_SIZE - 1)
    ensures !c.group ==> (|Ungrouped(Buffer(r, v, c))| >= c.precision <==> c.precision <= BUF_SIZE - 1)
  {
    hide Accumulated, Pow8, Ungrouped, DigitCount, GroupEnds;
    Pow8At22();
    AccumulatedLength(r, v, c.group, 0, 22);
    AccumulatedCounts(r, v, c.group, 0);
    EmittedDigits(r, v, c);
    if !c.group {
      NoGroupNoCommas(r, v, 0);
      var n := BufferShape(r, v, c);
      NoCommas(Buffer(r, v, c));
    }
  }

  /** With grouping the commas are counted toward the precision: five digits are asked for here and
      four are emitted. */
  lemma GroupingCountsCommas()
    ensures var c := Conversion(false, false, false, false, false, true, 0, 5);
      Buffer(Decimal, 1234, c) == "432,1" && |Ungrouped(Buffer(Decimal, 1234, c))| == 4
  {
    hide Accumulated, Ungrouped;
    GroupedThousand();
    UngroupedThousand();
    assert ToPrecision("432,1", 5) == "432,1";
  }

  lemma GroupedThousand()
    ensures Accumulated(Decimal, 1234, true, 0) == "432,1"
  {
    hide Accumulated;
    AccumulatedStep(123, 4, 0);
    AccumulatedStep(12, 3, 1);
    AccumulatedStep(1, 2, 2);
    AccumulatedStep(0, 1, 3);
    NoChunk("", Decimal, true, 4);
  }

  lemma AccumulatedStep(q: nat, d: nat, k: nat)
    requires d < 10 && 10 * q + d > 0
    ensures Accumulated(Decimal, 10 * q + d, true, k) ==
      (if k > 0 && k % 3 == 0 then "," else "") + ["0123456789"[d]] + Accumulated(Decimal, q, true, k + 1)
  {
    assert (10 * q + d) / 10 == q && (10 * q + d) % 10 == d;
  }

  lemma UngroupedThousand()
    ensures Ungrouped("432,1") == "4321"
  {
    NoCommas("432");
    NoCommas("1");
    UngroupedConcat("432", ",1");
    assert "432" + ",1" == "432,1" && ",1"[1..] == "1" && "432" + "1" == "4321";
  }

  /** The output is never narrower than the field. It is exactly as wide as the field or the
      number unless both `-` and `0` are in force, when the padding is emitted twice. */
  lemma WidthKept(r: Radix, v: nat, isSigned: bool, negative: bool, c: Conversion)
    ensures |Rendered(r, v, isSigned, negative, c)| >= c.width
    ensures var n := Unpadded(r, v, isSigned, negative, c);
      |Rendered(r, v, isSigned, negative, c)| == Max(c.width, n) <==> !(c.minus && c.zero && c.width > n)
  {
    hide Buffer;
  }

  // ----- atoi -----

  /** Two's complement wrap-around of `int`. */
  function Wrap32(x: int): (r: int)
    ensures -0x8000_0000 <= r < 0x8000_0000
    ensures (r - x) % 0x1_0000_0000 == 0
  {
    (x + 0x8000_0000) % 0x1_0000_0000 - 0x8000_0000
  }

  predicate IsSpace(ch: char)
  {
    ch == ' ' || ch == 12 as char || ch == '\n' || ch == '\r' || ch == '\t' || ch == 11 as char
  }

  predicate IsDigit(ch: char)
  {
    '0' <= ch <= '9'
  }

  function SkipSpaces(s: string): (t: string)
    ensures |t| <= |s| && t == s[|s| - |t|..]
  {
    if s != "" && IsSpace(s[0]) then SkipSpaces(s[1..]) else s
  }

  /** The longest prefix that consists of decimal digits. */
  function DigitRun(s: string): (d: string)
    ensures d <= s
  {
    if s != "" && IsDigit(s[0]) then [s[0]] + DigitRun(s[1..]) else ""
  }

  /** The number denoted by digits in a base up to ten, most significant first. */
  function Numeral(base: nat, d: string): (v: int)
  {
    if d == "" then 0 else base * Numeral(base, d[..|d| - 1]) + (d[|d| - 1] as int - '0' as int)
  }

  /** What a string starts with, read as a signed decimal number and wrapped to 32 bits. */
  function Parsed(s: string): (v: int)
  {
    ParsedTrimmed(SkipSpaces(s))
  }

  function ParsedTrimmed(t: string): (v: int)
  {
    var u := if t != "" && (t[0] == '+' || t[0] == '-') then t[1..] else t;
    var n := Numeral(10, DigitRun(u));
    Wrap32(if t != "" && t[0] == '-' then -n else n)
  }

  /** atoi: digits are accumulated as a negative number; every step wraps. */
  method Atoi(s: string) returns (value: int)
    ensures value == Parsed(s)
  {
    hide Wrap32, Numeral, DigitRun, SkipSpaces, IsSpace;
    var i := SpacePrefix(s);
    ghost var t := s[i..];
    var negative := false;
    if i < |s| && s[i] == '+' {
      i := i + 1;
    } else if i < |s| && s[i] == '-' {
      negative := true;
      i := i + 1;
    }
    ghost var u := if t != "" && (t[0] == '+' || t[0] == '-') then t[1..] else t;
    assert s[i..] == u;
    value := ReadDigits(s, i);
    if !negative {
      NegateWrapped(Numeral(10, DigitRun(u)));
      value := Wrap32(-value);
    }
  }

  method SpacePrefix(s: string) returns (i: nat)
    ensures i <= |s| && SkipSpaces(s) == s[i..]
  {
    i := 0;
    while i < |s| && IsSpace(s[i])
      invariant i <= |s| && SkipSpaces(s) == SkipSpaces(s[i..])
    {
      assert s[i..][1..] == s[i + 1..];
      i := i + 1;
    }
  }

  lemma NumeralStep(base: nat, d: string, k: nat)
    requires k < |d|
    ensures Numeral(base, d[..k + 1]) == base * Numeral(base, d[..k]) + (d[k] as int - '0' as int)
  {
    assert d[..k + 1][..k] == d[..k];
  }

  lemma DigitRunStep(s: string, i: nat)
    requires i <= |s|
    ensures DigitRun(s[i..]) == if i < |s| && IsDigit(s[i]) then [s[i]] + DigitRun(s[i + 1..]) else ""
  {
    assert i < |s| ==> s[i..][1..] == s[i + 1..];
  }

  /** The digit loop of atoi. */
  method ReadDigits(s: string, start: nat) returns (value: int)
    requires start <= |s|
    ensures value == Wrap32(-Numeral(10, DigitRun(s[start..])))
  {
    hide Wrap32, Numeral, DigitRun, IsDigit;
    ghost var d := DigitRun(s[start..]);
    var i := start;
    value := 0;
    ZeroRead();
    DigitRunStep(s, i);
    while i < |s| && IsDigit(s[i])
      invariant start <= i <= |s| && i - start <= |d|
      invariant d[i - start..] == DigitRun(s[i..])
      invariant value == Wrap32(-Numeral(10, d[..i - start]))
    {
      ghost var k := i - start;
      DigitRunStep(s, i);
      assert d[k..] == [s[i]] + DigitRun(s[i + 1..]);
      assert d[k] == d[k..][0] == s[i];
      assert d[k + 1..] == d[k..][1..];
      NumeralStep(10, d, k);
      WrapStep(-Numeral(10, d[..k]), s[i] as int - '0' as int);
      value := Wrap32(value * 10 - (s[i] as int - '0' as int));
      i := i + 1;
    }
    DigitRunStep(s, i);
    assert d == d[..i - start];
  }

  lemma ZeroRead()
    ensures Wrap32(-Numeral(10, "")) == 0
  {
  }

  lemma WrapStep(x: int, d: int)
    ensures Wrap32(Wrap32(x) * 10 - d) == Wrap32(x * 10 - d)
  {
    var k := (Wrap32(x) - x) / 0x1_0000_0000;
    assert Wrap32(x) == x + k * 0x1_0000_0000;
    WrapPeriodic(x * 10 - d, k * 10);
  }

  lemma WrapPeriodic(x: int, k: int)
    ensures Wrap32(x + k * 0x1_0000_0000) == Wrap32(x)
  {
  }

  lemma NegateWrapped(n: int)
    ensures Wrap32(-Wrap32(-n)) == Wrap32(n)
  {
    var k := (Wrap32(-n) + n) / 0x1_0000_0000;
    assert Wrap32(-n) == -n + k * 0x1_0000_0000;
    WrapPeriodic(n, -k);
  }

  // ----- atoi undoes %d -----

  ghost predicate DecimalDigits(s: string)
  {
    forall i | 0 <= i < |s| :: IsDigit(s[i])
  }

  lemma {:induction false} SkipsLeading(n: nat, t: string)
    ensures SkipSpaces(Repeat(' ', n) + t) == SkipSpaces(t)
  {
    var s := Repeat(' ', n) + t;
    if n == 0 {
      assert s == t;
    } else {
      assert s[1..] == Repeat(' ', n - 1) + t;
      SkipsLeading(n - 1, t);
    }
  }

  /** What can follow the digits that atoi reads: blanks up to the end, or a comma. */
  ghost predicate Ends(t: string)
  {
    t == Repeat(' ', |t|) || t[0] == ','
  }

  lemma {:induction false} RunStops(d: string, t: string)
    requires DecimalDigits(d) && Ends(t)
    ensures DigitRun(d + t) == d
  {
    var s := d + t;
    if d != "" {
      assert s[1..] == d[1..] + t;
      RunStops(d[1..], t);
    } else {
      assert s == t;
    }
  }

  lemma ParsedSkips(n: nat, t: string)
    ensures Parsed(Repeat(' ', n) + t) == Parsed(t)
  {
    hide ParsedTrimmed, SkipSpaces;
    SkipsLeading(n, t);
  }

  lemma ParsedUnsigned(d: string, t: string)
    requires DecimalDigits(d) && Ends(t)
    ensures Parsed(d + t) == Wrap32(Numeral(10, d))
  {
    hide Wrap32, Numeral, DigitRun;
    RunStops(d, t);
    if d == "" {
      assert d + t == t;
      if t == Repeat(' ', |t|) {
        assert t == Repeat(' ', |t|) + "";
        SkipsLeading(|t|, "");
        assert Ends("") && "" + "" == "";
        RunStops("", "");
      }
    } else {
      assert (d + t)[0] == d[0] && IsDigit(d[0]);
    }
  }

  lemma ParsedSigned(sign: char, d: string, t: string)
    requires sign == '+' || sign == '-'
    requires DecimalDigits(d) && Ends(t)
    ensures Parsed([sign] + (d + t)) == Wrap32(if sign == '-' then -Numeral(10, d) else Numeral(10, d))
  {
    hide Parsed, Wrap32, Numeral, DigitRun, DecimalDigits, Repeat, Ends;
    RunStops(d, t);
    SignedTail(sign, d + t);
  }

  lemma SignedTail(sign: char, u: string)
    requires sign == '+' || sign == '-'
    ensures Parsed([sign] + u) == Wrap32(if sign == '-' then -Numeral(10, DigitRun(u)) else Numeral(10, DigitRun(u)))
  {
    hide Wrap32, Numeral, DigitRun, SkipSpaces;
    NothingToSkip([sign] + u);
    assert ([sign] + u)[1..] == u;
  }

  lemma NothingToSkip(s: string)
    requires s != "" && !IsSpace(s[0])
    ensures SkipSpaces(s) == s
  {
  }

  /** Blanks, at most one sign, digits, and blanks or a comma: atoi reads the signed number. */
  lemma ParsedField(n: nat, sign: string, d: string, t: string)
    requires sign in {"", " ", "+", "-"} && DecimalDigits(d) && Ends(t)
    ensures Parsed(Repeat(' ', n) + (sign + (d + t))) ==
      Wrap32(if sign == "-" then -Numeral(10, d) else Numeral(10, d))
  {
    hide Parsed, Numeral, Wrap32, DecimalDigits, Ends;
    var tail := d + t;
    ParsedSkips(n, sign + tail);
    if sign == "" || sign == " " {
      assert sign == Repeat(' ', |sign|);
      ParsedSkips(|sign|, tail);
      ParsedUnsigned(d, t);
    } else {
      assert sign == [sign[0]];
      ParsedSigned(sign[0], d, t);
    }
  }

  lemma {:induction false} LeadingZeros(base: nat, n: nat, d: string)
    ensures Numeral(base, Repeat('0', n) + d) == Numeral(base, d)
    decreases |d|, n
  {
    var s := Repeat('0', n) + d;
    if d != "" {
      assert s[..|s| - 1] == Repeat('0', n) + d[..|d| - 1];
      LeadingZeros(base, n, d[..|d| - 1]);
    } else if n > 0 {
      assert s[..|s| - 1] == Repeat('0', n - 1) + d;
      LeadingZeros(base, n - 1, d);
    } else {
      assert s == "";
    }
  }

  ghost predicate DigitsBelow(base: nat, s: string)
  {
    forall i | 0 <= i < |s| :: 0 <= s[i] as int - '0' as int < base
  }

  /** Reading the reversed buffer most significant digit first gives the number it denotes. */
  lemma {:induction false} ReversedDenotes(r: Radix, s: string)
    requires (r.Decimal? || r.Octal?) && AllDigits(r, s)
    ensures Numeral(r.Base(), Reversed(s)) == Denoted(r, s) && DigitsBelow(r.Base(), Reversed(s))
  {
    if s != "" {
      ReversedDenotes(r, s[1..]);
      LowDigitValue(r, s[0]);
      var t := Reversed(s[1..]);
      assert (t + [s[0]])[..|t|] == t;
    }
  }

  lemma LowDigitValue(r: Radix, ch: char)
    requires (r.Decimal? || r.Octal?) && DigitValue(r, ch) >= 0
    ensures DigitValue(r, ch) == ch as int - '0' as int
  {
    var d := DigitValue(r, ch);
    assert r.Digits()[d] == ch;
  }

  /** For every `int`, every field width, precision and flag, atoi reads back the number that the %d
      conversion wrote exactly when no comma is emitted: without the grouping flag, or for a value of
      at most three digits. */
  lemma AtoiInvertsFormat(v: int, c: Conversion)
    requires -0x8000_0000 <= v < 0x8000_0000
    ensures Parsed(Rendered(Decimal, if v < 0 then -v else v, true, v < 0, c)) == v <==> !c.group || -1000 < v < 1000
  {
    hide Parsed, Rendered, CommaCount;
    var a := if v < 0 then -v else v;
    ThreeDigits(a, c);
    if CommaCount(Decimal, a, c) == 0 {
      ReadsBack(v, c);
    } else {
      ReadsLess(v, c);
    }
  }

  lemma ThreeDigits(v: nat, c: Conversion)
    ensures CommaCount(Decimal, v, c) == 0 <==> !c.group || v < 1000
  {
    var q := v / 10;
    assert DigitCount(Decimal, v) == if v == 0 then 0 else 1 + DigitCount(Decimal, q);
    assert DigitCount(Decimal, q) == if q == 0 then 0 else 1 + DigitCount(Decimal, q / 10);
    assert DigitCount(Decimal, q / 10) == if q / 10 == 0 then 0 else 1 + DigitCount(Decimal, q / 10 / 10);
  }

  /** What the output is made of: blanks, a sign, zeros and digits, blanks. */
  lemma RenderedShape(v: int, c: Conversion) returns (n: nat, z: nat, m: nat)
    requires -0x8000_0000 <= v < 0x8000_0000
    ensures var a := if v < 0 then -v else v; var sign := Sign(true, v < 0, c);
      Rendered(Decimal, a, true, v < 0, c) ==
        Repeat(' ', n) + (sign + (Repeat('0', z) + Reversed(Buffer(Decimal, a, c)) + Repeat(' ', m)))
  {
    hide Buffer, Repeat, Reversed;
    var a := if v < 0 then -v else v;
    var b, sign := Buffer(Decimal, a, c), Sign(true, v < 0, c);
    var pad := Max(0, c.width - |b| - |sign|);
    n, z, m := if !c.minus && !c.zero then pad else 0, if c.zero then pad else 0, if c.minus then pad else 0;
    assert sign + "" == sign;
  }

  lemma ReadsBack(v: int, c: Conversion)
    requires -0x8000_0000 <= v < 0x8000_0000 && CommaCount(Decimal, if v < 0 then -v else v, c) == 0
    ensures Parsed(Rendered(Decimal, if v < 0 then -v else v, true, v < 0, c)) == v
  {
    hide Buffer, Rendered, CommaCount, Parsed, Numeral, Reversed, Wrap32, Denoted, DecimalDigits, DigitsBelow, Repeat,
      AllDigits, Ungrouped, Ends;
    var a := if v < 0 then -v else v;
    var b, sign := Buffer(Decimal, a, c), Sign(true, v < 0, c);
    BufferDenotes(Decimal, a, c);
    UngroupedBuffer(Decimal, a, c);
    ReversedDenotes(Decimal, b);
    var n, z, m := RenderedShape(v, c);
    LeadingZeros(10, z, Reversed(b));
    ZerosThenDigits(z, Reversed(b));
    BlanksEnd(m);
    ParsedField(n, sign, Repeat('0', z) + Reversed(b), Repeat(' ', m));
    WrapSmall(v);
  }

  lemma ZerosThenDigits(n: nat, d: string)
    requires DigitsBelow(10, d)
    ensures DecimalDigits(Repeat('0', n) + d)
  {
  }

  lemma WrapSmall(v: int)
    requires -0x8000_0000 <= v < 0x8000_0000
    ensures Wrap32(v) == v
  {
  }

  lemma BlanksEnd(n: nat)
    ensures Ends(Repeat(' ', n))
  {
  }

  lemma UngroupedBuffer(r: Radix, v: nat, c: Conversion)
    requires CommaCount(r, v, c) == 0
    ensures Ungrouped(Buffer(r, v, c)) == Buffer(r, v, c)
  {
    hide Buffer, DigitCount, GroupEnds, Accumulated;
    NoEnds(r);
    AccumulatedCounts(r, v, c.group, 0);
    UngroupedLength(Accumulated(r, v, c.group, 0));
    var n := BufferShape(r, v, c);
    NoCommas(Buffer(r, v, c));
  }

  // ----- a grouped number is read only up to its first comma -----

  lemma DenotedStep(r: Radix, s: string)
    requires s != "" && AllDigits(r, s) && Denoted(r, s[1..]) >= 0
    ensures Denoted(r, s) >= Denoted(r, s[1..])
    ensures Denoted(r, s[1..]) > 0 ==> Denoted(r, s) > Denoted(r, s[1..])
  {
  }

  lemma {:induction false} DenotedAbove(r: Radix, s: string, t: string)
    requires AllDigits(r, s + t)
    ensures AllDigits(r, t) && Denoted(r, s + t) >= Denoted(r, t) >= 0
    ensures s != "" && Denoted(r, t) > 0 ==> Denoted(r, s + t) > Denoted(r, t)
  {
    hide DigitValue, Denoted;
    var u := s + t;
    if s != "" {
      assert u[1..] == s[1..] + t;
      DenotedAbove(r, s[1..], t);
      DenotedStep(r, u);
    } else {
      assert u == t;
      DenotedNonnegative(r, t);
    }
  }

  lemma {:induction false} DenotedNonnegative(r: Radix, s: string)
    requires AllDigits(r, s)
    ensures Denoted(r, s) >= 0
  {
    hide DigitValue;
    if s != "" {
      DenotedNonnegative(r, s[1..]);
    }
  }

  lemma {:induction false} LastComma(s: string) returns (j: nat)
    requires ',' in s
    ensures j < |s| && s[j] == ',' && ',' !in s[j + 1..]
  {
    j := |s| - 1;
    if s[j] != ',' {
      j := LastComma(s[..j]);
      assert s[j + 1..] == s[..|s| - 1][j + 1..] + [s[|s| - 1]];
    }
  }

  lemma CommaInBuffer(r: Radix, v: nat, c: Conversion)
    requires CommaCount(r, v, c) > 0
    ensures v > 0 && ',' in Buffer(r, v, c) && Buffer(r, v, c)[0] != ','
  {
    hide Buffer, Ungrouped;
    AccumulatedCounts(r, v, c.group, 0);
    UngroupedLength(Accumulated(r, v, c.group, 0));
    var n := BufferShape(r, v, c);
    assert r.Digits()[v % r.Base()] in r.Digits();
  }

  lemma ReversedAround(low: string, high: string)
    ensures Reversed(low + [','] + high) == Reversed(high) + ([','] + Reversed(low))
  {
  }

  /** The buffer of a number with commas: its leading group denotes less than the number. */
  lemma LeadingGroup(v: nat, c: Conversion) returns (low: string, high: string)
    requires CommaCount(Decimal, v, c) > 0
    ensures Buffer(Decimal, v, c) == low + [','] + high
    ensures AllDigits(Decimal, high) && 0 <= Denoted(Decimal, high) < v
  {
    hide Buffer, CommaCount, Denoted, AllDigits;
    var b := Buffer(Decimal, v, c);
    CommaInBuffer(Decimal, v, c);
    var j := LastComma(b);
    low, high := b[..j], b[j + 1..];
    assert b == low + [','] + high;
    UngroupedConcat(low + [','], high);
    UngroupedConcat(low, [',']);
    assert Ungrouped([',']) == "";
    NoCommas(high);
    BufferDenotes(Decimal, v, c);
    assert low[0] == b[0];
    assert Ungrouped(low) != "";
    assert Ungrouped(low) + "" == Ungrouped(low);
    DenotedAbove(Decimal, Ungrouped(low), high);
  }

  lemma ReadsLess(v: int, c: Conversion)
    requires -0x8000_0000 <= v < 0x8000_0000 && CommaCount(Decimal, if v < 0 then -v else v, c) > 0
    ensures Parsed(Rendered(Decimal, if v < 0 then -v else v, true, v < 0, c)) != v
  {
    hide Buffer, Rendered, CommaCount, Parsed, Numeral, Reversed, Wrap32, Denoted, DecimalDigits, DigitsBelow, Repeat,
      AllDigits, Ends;
    var a := if v < 0 then -v else v;
    var sign := Sign(true, v < 0, c);
    var low, high := LeadingGroup(a, c);
    ReversedDenotes(Decimal, high);
    ReversedAround(low, high);
    var n, z, m := RenderedShape(v, c);
    var d := Repeat('0', z) + Reversed(high);
    var t := [','] + Reversed(low) + Repeat(' ', m);
    LeadingZeros(10, z, Reversed(high));
    ZerosThenDigits(z, Reversed(high));
    CommaEnds(t);
    assert Repeat('0', z) + Reversed(Buffer(Decimal, a, c)) + Repeat(' ', m) == d + t;
    ParsedField(n, sign, d, t);
    var x := Denoted(Decimal, high);
    WrapSmall(if v < 0 then -x else x);
  }

  lemma CommaEnds(t: string)
    requires t != "" && t[0] == ','
    ensures Ends(t)
  {
  }
}
