/** Parsing a printf conversion specification (src/lib/stdio.c:335-460). */
module ConversionSpec {
  import opened Format
  import opened Sequences
  import opened Numerals

  datatype ArgType = CharArg | ShortArg | IntArg | IntMaxArg | LongArg | LongLongArg | PtrDiffArg | SizeArg

  /** A C string: reading just past the end gives the terminator. */
  function At(f: string, i: nat): (ch: char)
  {
    if i < |f| then f[i] else '\0'
  }

  function Suffix(f: string, i: nat): (s: string)
  {
    if i < |f| then f[i..] else ""
  }

  predicate IsFlag(ch: char)
  {
    ch == '-' || ch == '+' || ch == ' ' || ch == '#' || ch == '0' || ch == '\''
  }

  /** The end of the run of flag characters that starts at i. */
  function FlagEnd(f: string, i: nat): (j: nat)
    requires i <= |f|
    ensures i <= j <= |f|
    ensures forall k | i <= k < j :: IsFlag(f[k])
    ensures j < |f| ==> !IsFlag(f[j])
    decreases |f| - i
  {
    if i < |f| && IsFlag(f[i]) then FlagEnd(f, i + 1) else i
  }

  predicate Has(f: string, i: nat, j: nat, ch: char)
    requires i <= j <= |f|
  {
    ch in f[i..j]
  }

  lemma FlagEndUnique(f: string, i: nat, j: nat)
    requires i <= j <= |f| && (forall k | i <= k < j :: IsFlag(f[k])) && !(j < |f| && IsFlag(f[j]))
    ensures j == FlagEnd(f, i)
  {
  }

  lemma HasNone(f: string, i: nat)
    requires i <= |f|
    ensures !Has(f, i, i, '-') && !Has(f, i, i, '+') && !Has(f, i, i, ' ')
    ensures !Has(f, i, i, '#') && !Has(f, i, i, '0') && !Has(f, i, i, '\'')
  {
  }

  lemma HasStep(f: string, i: nat, j: nat)
    requires i <= j < |f|
    ensures Has(f, i, j + 1, '-') == (Has(f, i, j, '-') || f[j] == '-')
    ensures Has(f, i, j + 1, '+') == (Has(f, i, j, '+') || f[j] == '+')
    ensures Has(f, i, j + 1, ' ') == (Has(f, i, j, ' ') || f[j] == ' ')
    ensures Has(f, i, j + 1, '#') == (Has(f, i, j, '#') || f[j] == '#')
    ensures Has(f, i, j + 1, '0') == (Has(f, i, j, '0') || f[j] == '0')
    ensures Has(f, i, j + 1, '\'') == (Has(f, i, j, '\'') || f[j] == '\'')
  {
    assert f[i..j + 1] == f[i..j] + [f[j]];
  }

  /** The flag loop. */
  method ParseFlags(f: string, start: nat) returns (c: Conversion, pos: nat)
    requires start <= |f|
    ensures pos == FlagEnd(f, start) && c.width == 0 && c.precision == -1
    ensures c.minus == Has(f, start, pos, '-') && c.plus == Has(f, start, pos, '+')
    ensures c.space == Has(f, start, pos, ' ') && c.pound == Has(f, start, pos, '#')
    ensures c.zero == Has(f, start, pos, '0') && c.group == Has(f, start, pos, '\'')
  {
    hide Has;
    c := Conversion(false, false, false, false, false, false, 0, -1);
    pos := start;
    HasNone(f, start);
    while pos < |f| && IsFlag(f[pos])
      invariant start <= pos <= |f| && c.width == 0 && c.precision == -1
      invariant forall k | start <= k < pos :: IsFlag(f[k])
      invariant c.minus == Has(f, start, pos, '-') && c.plus == Has(f, start, pos, '+')
      invariant c.space == Has(f, start, pos, ' ') && c.pound == Has(f, start, pos, '#')
      invariant c.zero == Has(f, start, pos, '0') && c.group == Has(f, start, pos, '\'')
    {
      HasStep(f, start, pos);
      match f[pos] {
        case '-' => c := c.(minus := true);
        case '+' => c := c.(plus := true);
        case ' ' => c := c.(space := true);
        case '#' => c := c.(pound := true);
        case '0' => c := c.(zero := true);
        case _ => c := c.(group := true);
      }
      pos := pos + 1;
    }
    FlagEndUnique(f, start, pos);
  }

  /** `for (; isdigit (*format); format++) n = n * 10 + *format - '0'`. */
  method ParseNumber(f: string, start: nat) returns (n: nat, pos: nat)
    ensures pos == start + |DigitRun(Suffix(f, start))|
    ensures n == Numeral(10, DigitRun(Suffix(f, start)))
  {
    hide DigitRun, Numeral, IsDigit, At, Suffix;
    ghost var d := DigitRun(Suffix(f, start));
    NumberStart();
    n, pos := 0, start;
    while IsDigit(At(f, pos))
      invariant start <= pos && pos - start <= |d|
      invariant d[pos - start..] == DigitRun(Suffix(f, pos))
      invariant n == Numeral(10, d[..pos - start])
      decreases |f| - pos
    {
      NumberStep(f, pos);
      ghost var k := pos - start;
      assert d[k] == d[k..][0] == f[pos];
      assert d[k + 1..] == d[k..][1..];
      NumeralStep(10, d, k);
      n := n * 10 + (f[pos] as int - '0' as int);
      pos := pos + 1;
    }
    NumberStop(f, pos);
    assert d == d[..pos - start];
  }

  lemma NumberStart()
    ensures Numeral(10, "") == 0
  {
  }

  lemma NumberStep(f: string, i: nat)
    requires IsDigit(At(f, i))
    ensures i < |f| && '0' <= f[i] <= '9' && DigitRun(Suffix(f, i)) == [f[i]] + DigitRun(Suffix(f, i + 1))
  {
    assert i + 1 < |f| ==> f[i..][1..] == f[i + 1..];
    assert i + 1 >= |f| ==> f[i..][1..] == "";
  }

  lemma NumberStop(f: string, i: nat)
    requires !IsDigit(At(f, i))
    ensures DigitRun(Suffix(f, i)) == ""
  {
  }

  // ----- what the rest of the specification means -----

  /** A `*` at i has an argument to take. */
  predicate Supplied(f: string, i: nat, args: seq<int>)
  {
    At(f, i) == '*' ==> args != []
  }

  /** A number or `*` at i: its value, where it ends, and the arguments left. */
  function Field(f: string, i: nat, args: seq<int>): (r: (int, nat, seq<int>))
    requires Supplied(f, i, args)
  {
    if At(f, i) == '*' then (args[0], i + 1, args[1..])
    else (Numeral(10, DigitRun(Suffix(f, i))), i + |DigitRun(Suffix(f, i))|, args)
  }

  /** An optional `.` followed by such a field. */
  function Precision(f: string, i: nat, args: seq<int>): (r: (int, nat, seq<int>))
    requires At(f, i) == '.' ==> Supplied(f, i + 1, args)
  {
    if At(f, i) != '.' then (-1, i, args)
    else
      var (p, k, rest) := Field(f, i + 1, args);
      (Max(-1, p), k, rest)
  }

  function TypeAt(f: string, k: nat): (r: (ArgType, nat))
  {
    match At(f, k)
    case 'h' => if At(f, k + 1) == 'h' then (CharArg, k + 2) else (ShortArg, k + 1)
    case 'j' => (IntMaxArg, k + 1)
    case 'l' => if At(f, k + 1) == 'l' then (LongLongArg, k + 2) else (LongArg, k + 1)
    case 't' => (PtrDiffArg, k + 1)
    case 'z' => (SizeArg, k + 1)
    case _ => (IntArg, k)
  }

  /** The length modifiers and the types of the arguments they announce. */
  ghost predicate Announces(m: string, t: ArgType)
  {
    || (m == "" && t == IntArg) || (m == "hh" && t == CharArg) || (m == "h" && t == ShortArg) || (m == "j" && t == IntMaxArg)
    || (m == "l" && t == LongArg) || (m == "ll" && t == LongLongArg) || (m == "t" && t == PtrDiffArg) || (m == "z" && t == SizeArg)
  }

  /** The type comes from the longest length modifier that the format has at that place, and just that is consumed. */
  lemma TypeMeaning(f: string, k: nat)
    requires k <= |f|
    ensures var (t, e) := TypeAt(f, k);
      && k <= e <= |f| && Announces(f[k..e], t)
      && forall m, u | Announces(m, u) && k + |m| <= |f| && f[k..k + |m|] == m :: |m| <= e - k
  {
    var (t, e) := TypeAt(f, k);
    var text := f[k..e];
    assert |text| >= 1 ==> text[0] == f[k];
    assert |text| == 2 ==> text[1] == f[k + 1];
    assert text == "" || text == [f[k]] || text == [f[k], f[k + 1]];
    forall m, u | Announces(m, u) && k + |m| <= |f| && f[k..k + |m|] == m ensures |m| <= e - k {
      assert |m| >= 1 ==> m[0] == f[k];
      assert |m| == 2 ==> m[1] == f[k + 1];
    }
  }

  /** The caller passed an int for every `*` of the specification. */
  predicate AllSupplied(f: string, start: nat, args: seq<int>)
    requires start <= |f|
  {
    var j := FlagEnd(f, start);
    && Supplied(f, j, args)
    && var (_, k, rest) := Field(f, j, args);
    At(f, k) == '.' ==> Supplied(f, k + 1, rest)
  }

  /** The specification taken apart: where its flags end, its width and precision, where they end, and the
      arguments they leave. */
  datatype Parts = Parts(flags: nat, width: int, precision: int, end: nat, rest: seq<int>)

  function PartsOf(f: string, start: nat, args: seq<int>): (p: Parts)
    requires start <= |f| && AllSupplied(f, start, args)
    ensures p.flags == FlagEnd(f, start)
  {
    var j := FlagEnd(f, start);
    var (w, k, args1) := Field(f, j, args);
    var (p, m, args2) := Precision(f, k, args1);
    Parts(j, w, p, m, args2)
  }

  /** parse_conversion. The contract says what each flag finally depends on; its last clause is the
      exact class of specifications that leave both `-` and `0` in force. */
  method ParseConversion(f: string, start: nat, args: seq<int>)
    returns (c: Conversion, argType: ArgType, pos: nat, rest: seq<int>)
    requires start <= |f| && AllSupplied(f, start, args)
    ensures var s := PartsOf(f, start, args);
      && c.width == (if s.width < 0 then -s.width else s.width) && c.precision == s.precision
      && (argType, pos) == TypeAt(f, s.end) && rest == s.rest
      && c.minus == (Has(f, start, s.flags, '-') || s.width < 0)
      && c.plus == Has(f, start, s.flags, '+')
      && c.space == (Has(f, start, s.flags, ' ') && !Has(f, start, s.flags, '+'))
      && c.pound == Has(f, start, s.flags, '#') && c.group == Has(f, start, s.flags, '\'')
      && c.zero == (Has(f, start, s.flags, '0') && !Has(f, start, s.flags, '-') && s.precision < 0)
      && (c.minus && c.zero <==>
            Has(f, start, s.flags, '0') && !Has(f, start, s.flags, '-') && s.precision < 0 && s.width < 0)
      && (s.width < 0 ==> At(f, s.flags) == '*')
  {
    hide FlagEnd, Has, TypeAt, At, Supplied, AllSupplied, PartsOf;
    c, pos := ParseFlags(f, start);
    var width, precision;
    width, precision, pos, rest := ParseNumbers(f, start, pos, args);
    if c.minus {
      c := c.(zero := false);
    }
    if c.plus {
      c := c.(space := false);
    }
    if width < 0 {
      width := -width;
      c := c.(minus := true);
    }
    c := c.(width := width, precision := precision);
    if precision >= 0 {
      c := c.(zero := false);
    }
    argType, pos := ParseType(f, pos);
  }

  /** Width and precision, in that order. */
  method ParseNumbers(f: string, start: nat, from: nat, args: seq<int>) returns (w: int, p: int, pos: nat, rest: seq<int>)
    requires start <= |f| && AllSupplied(f, start, args) && from == FlagEnd(f, start)
    ensures var s := PartsOf(f, start, args); w == s.width && p == s.precision && pos == s.end && rest == s.rest
    ensures p >= -1 && (w < 0 ==> At(f, from) == '*')
  {
    hide Field, Precision, FlagEnd, At, Supplied, AllSupplied;
    SuppliedParts(f, start, args);
    FieldFacts(f, from, args);
    w, pos, rest := ParseField(f, from, args);
    PrecisionFacts(f, pos, rest);
    p, pos, rest := ParsePrecision(f, pos, rest);
  }

  lemma SuppliedParts(f: string, start: nat, args: seq<int>)
    requires start <= |f| && AllSupplied(f, start, args)
    ensures Supplied(f, FlagEnd(f, start), args)
    ensures var t := Field(f, FlagEnd(f, start), args); At(f, t.1) == '.' ==> Supplied(f, t.1 + 1, t.2)
  {
  }

  lemma FieldFacts(f: string, i: nat, args: seq<int>)
    requires Supplied(f, i, args)
    ensures Field(f, i, args).0 < 0 ==> At(f, i) == '*'
  {
    if At(f, i) != '*' {
      RunNotNegative(Suffix(f, i));
    }
  }

  lemma PrecisionFacts(f: string, i: nat, args: seq<int>)
    requires At(f, i) == '.' ==> Supplied(f, i + 1, args)
    ensures Precision(f, i, args).0 >= -1
  {
  }

  lemma {:induction false} RunNotNegative(s: string)
    ensures Numeral(10, DigitRun(s)) >= 0
  {
    var d := DigitRun(s);
    RunIsDigits(s);
    DigitsNotNegative(d);
  }

  lemma {:induction false} RunIsDigits(s: string)
    ensures DecimalDigits(DigitRun(s))
  {
    if s != "" && IsDigit(s[0]) {
      RunIsDigits(s[1..]);
    }
  }

  lemma {:induction false} DigitsNotNegative(d: string)
    requires DecimalDigits(d)
    ensures Numeral(10, d) >= 0
  {
    if d != "" {
      DigitsNotNegative(d[..|d| - 1]);
    }
  }

  method ParseField(f: string, start: nat, args: seq<int>) returns (v: int, pos: nat, rest: seq<int>)
    requires Supplied(f, start, args)
    ensures (v, pos, rest) == Field(f, start, args)
  {
    hide At, Suffix, DigitRun, Numeral;
    if At(f, start) == '*' {
      v, pos, rest := args[0], start + 1, args[1..];
    } else {
      v, pos := ParseNumber(f, start);
      rest := args;
    }
  }

  method ParsePrecision(f: string, start: nat, args: seq<int>) returns (p: int, pos: nat, rest: seq<int>)
    requires At(f, start) == '.' ==> Supplied(f, start + 1, args)
    ensures (p, pos, rest) == Precision(f, start, args)
  {
    hide At, Field;
    p, pos, rest := -1, start, args;
    if At(f, pos) == '.' {
      p, pos, rest := ParseField(f, pos + 1, args);
      if p < 0 {
        p := -1;
      }
    }
  }

  method ParseType(f: string, start: nat) returns (argType: ArgType, pos: nat)
    ensures (argType, pos) == TypeAt(f, start)
  {
    pos := start + 1;
    match At(f, start) {
      case 'h' =>
        if At(f, pos) == 'h' {
          pos, argType := pos + 1, CharArg;
        } else {
          argType := ShortArg;
        }
      case 'j' => argType := IntMaxArg;
      case 'l' =>
        if At(f, pos) == 'l' {
          pos, argType := pos + 1, LongLongArg;
        } else {
          argType := LongArg;
        }
      case 't' => argType := PtrDiffArg;
      case 'z' => argType := SizeArg;
      case _ =>
        pos, argType := pos - 1, IntArg;
    }
  }

  /** Such a specification: "%0*d" with a field width of -5. Padding a 1 to five columns then takes
      nine characters. */
  lemma PaddedTwice()
    ensures Rendered(Decimal, 1, true, false, Conversion(true, false, false, false, true, false, 5, -1)) == "00001    "
  {
    AccumulatedOne();
    hide Accumulated;
    assert ToPrecision("1", -1) == "1";
    assert Reversed("1") == "1";
    assert Repeat('0', 4) == "0000" && Repeat(' ', 4) == "    " && Repeat(' ', 0) == "";
  }

  lemma AccumulatedOne()
    ensures Accumulated(Decimal, 1, false, 0) == "1"
  {
    assert 1 / 10 == 0;
  }

  // ----- reading a specification that was written -----

  /** A number in decimal, without leading zeros; zero is no digits. */
  function Text(n: nat): (s: string)
  {
    Reversed(Accumulated(Decimal, n, false, 0))
  }

  lemma TextFacts(n: nat)
    ensures DecimalDigits(Text(n)) && Numeral(10, Text(n)) == n && (n > 0 ==> Text(n) != "" && Text(n)[0] != '0')
  {
    hide Numeral, Denoted, Ungrouped;
    var a := Accumulated(Decimal, n, false, 0);
    AccumulatedDenotes(Decimal, n, false, 0);
    NoGroupNoCommas(Decimal, n, 0);
    NoCommas(a);
    ReversedDenotes(Decimal, a);
    if n > 0 {
      LeadsNonzero(Decimal, n, false, 0);
    }
  }

  lemma {:induction false} RunOf(d: string, t: string)
    requires DecimalDigits(d) && (t == "" || !IsDigit(t[0]))
    ensures DigitRun(d + t) == d
  {
    if d == "" {
      assert d + t == t;
    } else {
      assert (d + t)[1..] == d[1..] + t;
      RunOf(d[1..], t);
    }
  }

  /** A number that stands at i and is followed by something else. */
  lemma NumberAt(f: string, i: nat, d: string, t: string, args: seq<int>)
    requires i <= |f| && f[i..] == d + t && DecimalDigits(d) && (t == "" || (!IsDigit(t[0]) && t[0] != '*'))
    ensures Supplied(f, i, args) && Field(f, i, args) == (Numeral(10, d), i + |d|, args)
  {
    hide Numeral, At, Suffix, DigitRun, DecimalDigits;
    RunOf(d, t);
    HeadOf(f, i, d + t);
    NotStar(d, t);
  }

  lemma HeadOf(f: string, i: nat, x: string)
    requires i <= |f| && f[i..] == x
    ensures At(f, i) == (if x == "" then '\0' else x[0]) && Suffix(f, i) == x
  {
  }

  lemma NotStar(d: string, t: string)
    requires DecimalDigits(d) && (t == "" || t[0] != '*')
    ensures d + t == "" || (d + t)[0] != '*'
  {
    assert d != "" ==> IsDigit(d[0]);
  }

  /** Flags end where something else starts. */
  lemma FlagsAt(fl: string, t: string)
    requires (forall i | 0 <= i < |fl| :: IsFlag(fl[i])) && (t == "" || !IsFlag(t[0]))
    ensures FlagEnd(fl + t, 0) == |fl|
  {
    FlagEndUnique(fl + t, 0, |fl|);
  }

  /** Flags, a width, a point and a precision, in decimal, are read back. */
  lemma SpecReadBack(fl: string, w: nat, p: nat, t: string, args: seq<int>)
    requires (forall i | 0 <= i < |fl| :: IsFlag(fl[i])) && w > 0 && (t == "" || (!IsDigit(t[0]) && t[0] != '*'))
    ensures var f := fl + (Text(w) + ("." + (Text(p) + t)));
      AllSupplied(f, 0, args) && PartsOf(f, 0, args) == Parts(|fl|, w, p, |f| - |t|, args)
  {
    hide Numeral, Text, FlagEnd, Field, DigitRun;
    TextFacts(w);
    TextFacts(p);
    var tail := Text(p) + t;
    var rest := "." + tail;
    var f := fl + (Text(w) + rest);
    assert IsDigit(Text(w)[0]);
    FlagsAt(fl, Text(w) + rest);
    NumberAt(f, |fl|, Text(w), rest, args);
    var k := |fl| + |Text(w)|;
    assert f[k..] == rest && f[k] == '.';
    assert f[k + 1..] == tail;
    NumberAt(f, k + 1, Text(p), t, args);
  }

  /** Stars take the width and the precision from the arguments; a negative precision counts as none. */
  lemma StarsReadBack(fl: string, t: string, a: int, b: int, args: seq<int>)
    requires forall i | 0 <= i < |fl| :: IsFlag(fl[i])
    ensures var f := fl + ("*.*" + t);
      AllSupplied(f, 0, [a, b] + args) && PartsOf(f, 0, [a, b] + args) == Parts(|fl|, a, if b < 0 then -1 else b, |fl| + 3, args)
  {
    hide Numeral, FlagEnd, DigitRun;
    var f := fl + ("*.*" + t);
    assert ("*.*" + t)[0] == '*';
    FlagsAt(fl, "*.*" + t);
    var k := |fl|;
    assert f[k] == '*' && f[k + 1] == '.' && f[k + 2] == '*';
    assert ([a, b] + args)[1..] == [b] + args && ([b] + args)[1..] == args;
  }

  /** Without either, the width is 0 and there is no precision. */
  lemma NothingReadBack(fl: string, t: string, args: seq<int>)
    requires (forall i | 0 <= i < |fl| :: IsFlag(fl[i]))
    requires t == "" || (!IsFlag(t[0]) && !IsDigit(t[0]) && t[0] != '*' && t[0] != '.')
    ensures var f := fl + t; AllSupplied(f, 0, args) && PartsOf(f, 0, args) == Parts(|fl|, 0, -1, |fl|, args)
  {
    hide FlagEnd, DigitRun;
    var f := fl + t;
    FlagsAt(fl, t);
    assert f[|fl|..] == "" + t;
    NumberAt(f, |fl|, "", t, args);
    assert t != "" ==> f[|fl|] == t[0];
  }
}
