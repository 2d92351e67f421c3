/** Integer output conversions (src/lib/stdio.c:94-141, 462-555). The output callback is modelled
    by the string it accumulates; the digit buffer is a real 64-byte array, so that no access can
    fall outside it is part of what is verified. */
module Format {
  import opened Sequences

  /** The four `struct integer_base` constants. */
  datatype Radix = Decimal | Octal | LowerHex | UpperHex {
    function Base(): (b: nat)
      ensures 8 <= b <= 16
    {
      match this case Decimal => 10 case Octal => 8 case _ => 16
    }

    function Digits(): (s: string)
      ensures |s| == Base()
      ensures s[0] == '0' && ',' !in s
    {
      match this
      case Decimal => "0123456789"
      case Octal => "01234567"
      case LowerHex => "0123456789abcdef"
      case UpperHex => "0123456789ABCDEF"
    }

    function Prefix(): (s: string)
    {
      match this case LowerHex => "0x" case UpperHex => "0X" case _ => ""
    }

    function Group(): (g: nat)
      ensures g > 0
    {
      match this case Decimal => 3 case Octal => 3 case _ => 4
    }
  }

  /** `struct printf_conversion`; a negative precision means none was given. */
  datatype Conversion = Conversion(minus: bool, plus: bool, space: bool, pound: bool, zero: bool,
                                   group: bool, width: nat, precision: int)

  const BUF_SIZE := 64

  function Repeat(ch: char, n: nat): (s: string)
    ensures |s| == n
    ensures forall i | 0 <= i < n :: s[i] == ch
  {
    seq(n, _ => ch)
  }

  function Max(a: int, b: int): (r: int) { if a < b then b else a }
  function Min(a: int, b: int): (r: int) { if a < b then a else b }

  /** What one round of the digit loop stores: a comma where a group ends, and the next digit. */
  function Chunk(r: Radix, v: nat, group: bool, k: nat): (s: string)
    ensures 1 <= |s| <= 2
  {
    (if group && k > 0 && k % r.Group() == 0 then "," else "") + [r.Digits()[v % r.Base()]]
  }

  /** The digits of v from the least significant up, with commas between groups when asked for;
      k digits have been produced before. */
  function Accumulated(r: Radix, v: nat, group: bool, k: nat): (s: string)
    decreases v
  {
    if v == 0 then "" else Chunk(r, v, group, k) + Accumulated(r, v / r.Base(), group, k + 1)
  }

  /** The buffer after zeros have been appended up to the precision, capped by the buffer. */
  function ToPrecision(s: string, precision: int): (t: string)
    ensures s <= t
    ensures |t| == Max(|s|, Min(if precision < 0 then 1 else precision, BUF_SIZE - 1))
    ensures forall i | |s| <= i < |t| :: t[i] == '0'
  {
    s + Repeat('0', Max(0, Min(if precision < 0 then 1 else precision, BUF_SIZE - 1) - |s|))
  }

  /** The finished buffer, least significant character first. */
  function Buffer(r: Radix, v: nat, c: Conversion): (s: string)
  {
    var t := ToPrecision(Accumulated(r, v, c.group, 0), c.precision);
    if c.pound && r.Octal? && (t == "" || t[|t| - 1] != '0') then t + "0" else t
  }

  function Sign(isSigned: bool, negative: bool, c: Conversion): (s: string)
    ensures |s| <= 1
  {
    if !isSigned then ""
    else if c.plus then if negative then "-" else "+"
    else if c.space then if negative then "-" else " "
    else if negative then "-" else ""
  }

  function HexPrefix(r: Radix, v: nat, c: Conversion): (s: string)
  {
    if c.pound && v != 0 then r.Prefix() else ""
  }

  /** The number's own characters: sign, prefix and digits, without padding. */
  function Unpadded(r: Radix, v: nat, isSigned: bool, negative: bool, c: Conversion): (n: nat)
  {
    |Sign(isSigned, negative, c)| + |HexPrefix(r, v, c)| + |Buffer(r, v, c)|
  }

  /** The output for a given sign, prefix and buffer: padding goes left, between or right. */
  function Assembled(sign: string, x: string, b: string, c: Conversion): (s: string)
  {
    var pad := Max(0, c.width - |b| - |x| - |sign|);
    Repeat(' ', if !c.minus && !c.zero then pad else 0)
    + ((sign + x)
       + (Repeat('0', if c.zero then pad else 0) + Reversed(b) + Repeat(' ', if c.minus then pad else 0)))
  }

  /** Everything format_integer outputs. */
  function Rendered(r: Radix, v: nat, isSigned: bool, negative: bool, c: Conversion): (s: string)
  {
    Assembled(Sign(isSigned, negative, c), HexPrefix(r, v, c), Buffer(r, v, c), c)
  }

  // ----- the implementation -----

  function Pow8(k: nat): (p: nat)
    ensures p > 0
  {
    if k == 0 then 1 else 8 * Pow8(k - 1)
  }

  lemma {:induction false} Pow8Monotone(a: nat, b: nat)
    requires a <= b
    ensures Pow8(a) <= Pow8(b)
  {
    if a < b {
      Pow8Monotone(a, b - 1);
    }
  }

  /** A 64-bit value has at most 22 digits in any of the bases. */
  lemma DigitLimit(value: nat, v: nat, k: nat)
    requires value < 0x1_0000_0000_0000_0000 && v > 0 && v * Pow8(k) <= value
    ensures k <= 21
  {
    hide Pow8;
    assert v * Pow8(k) >= Pow8(k);
    if k >= 22 {
      Pow8Monotone(22, k);
      Pow8At22();
    }
  }

  lemma Pow8At22()
    ensures Pow8(22) == 0x4_0000_0000_0000_0000
  {
    assert Pow8(8) == 0x100_0000;
    assert Pow8(15) == 0x2000_0000_0000;
  }

  lemma ShrinkingValue(r: Radix, v: nat, k: nat)
    ensures v / r.Base() * Pow8(k + 1) <= v * Pow8(k)
  {
    var q := v / r.Base();
    assert q * 8 <= v;
    assert q * Pow8(k + 1) == q * 8 * Pow8(k);
  }

  /** The digit loop. The buffer holds the digits still to come plus the ones stored, and 22 digits
      with a comma each fit with room to spare. */
  method AccumulateDigits(buf: array<char>, value: nat, r: Radix, group: bool) returns (cp: nat)
    requires buf.Length == BUF_SIZE && value < 0x1_0000_0000_0000_0000
    modifies buf
    ensures cp <= 44 && buf[..cp] == Accumulated(r, value, group, 0)
  {
    hide Pow8, Accumulated, Chunk;
    cp := 0;
    var digitCnt: nat := 0;
    var v: nat := value;
    PowZero(value);
    while v > 0
      invariant digitCnt <= 22 && cp <= 2 * digitCnt && v * Pow8(digitCnt) <= value
      invariant buf[..cp] + Accumulated(r, v, group, digitCnt) == Accumulated(r, value, group, 0)
    {
      DigitLimit(value, v, digitCnt);
      ShrinkingValue(r, v, digitCnt);
      NextChunk(buf[..cp], r, v, group, digitCnt);
      cp := StoreDigit(buf, cp, r, v, group, digitCnt);
      v := v / r.Base();
      digitCnt := digitCnt + 1;
    }
    NoChunk(buf[..cp], r, group, digitCnt);
  }

  lemma NextChunk(done: string, r: Radix, v: nat, group: bool, k: nat)
    requires v > 0
    ensures done + Accumulated(r, v, group, k) == done + Chunk(r, v, group, k) + Accumulated(r, v / r.Base(), group, k + 1)
  {
  }

  lemma NoChunk(done: string, r: Radix, group: bool, k: nat)
    ensures done + Accumulated(r, 0, group, k) == done
  {
  }

  /** The body of the digit loop. */
  method StoreDigit(buf: array<char>, start: nat, r: Radix, v: nat, group: bool, k: nat) returns (cp: nat)
    requires start + 2 <= buf.Length
    modifies buf
    ensures start < cp <= start + 2
    ensures buf[..cp] == old(buf[..start]) + Chunk(r, v, group, k)
  {
    cp := start;
    if group && k > 0 && k % r.Group() == 0 {
      buf[cp] := ',';
      cp := cp + 1;
    }
    buf[cp] := r.Digits()[v % r.Base()];
    cp := cp + 1;
  }

  lemma PowZero(v: nat)
    ensures v * Pow8(0) == v
  {
  }

  /** The zeros for precision and for `#` with base 8. */
  method AppendZeros(buf: array<char>, start: nat, r: Radix, c: Conversion) returns (cp: nat)
    requires buf.Length == BUF_SIZE && start <= 44
    modifies buf
    ensures cp <= BUF_SIZE
    ensures var t := ToPrecision(old(buf[..start]), c.precision);
      buf[..cp] == if c.pound && r.Octal? && (t == "" || t[|t| - 1] != '0') then t + "0" else t
  {
    var precision := if c.precision < 0 then 1 else c.precision;
    cp := start;
    while cp < precision && cp < BUF_SIZE - 1
      invariant start <= cp < BUF_SIZE && cp <= Max(start, Min(precision, BUF_SIZE - 1))
      invariant buf[..start] == old(buf[..start])
      invariant forall i | start <= i < cp :: buf[i] == '0'
    {
      buf[cp] := '0';
      cp := cp + 1;
    }
    assert buf[..cp] == ToPrecision(old(buf[..start]), c.precision);
    if c.pound && r.Octal? && (cp == 0 || buf[cp - 1] != '0') {
      buf[cp] := '0';
      cp := cp + 1;
    }
  }

  /** output_dup. */
  method OutputDup(out: string, ch: char, cnt: nat) returns (out': string)
    ensures out' == out + Repeat(ch, cnt)
  {
    out' := out;
    var n: nat := cnt;
    while n > 0
      invariant n <= cnt && out' == out + Repeat(ch, cnt - n)
    {
      out' := out' + [ch];
      n := n - 1;
    }
  }

  /** `while (cp > buf) output (*--cp, aux)`. */
  method OutputBackward(out: string, buf: array<char>, cp: nat) returns (out': string)
    requires cp <= buf.Length
    ensures out' == out + Reversed(buf[..cp])
  {
    out' := out;
    var n: nat := cp;
    ghost var rev := Reversed(buf[..cp]);
    while n > 0
      invariant n <= cp && out' == out + rev[..cp - n]
    {
      n := n - 1;
      out' := out' + [buf[n]];
      assert rev[..cp - n] == rev[..cp - n - 1] + [buf[n]];
    }
    assert rev[..cp] == rev;
  }

  /** format_integer. */
  method FormatInteger(value: nat, isSigned: bool, negative: bool, r: Radix, c: Conversion) returns (out: string)
    requires value < 0x1_0000_0000_0000_0000
    ensures out == Rendered(r, value, isSigned, negative, c)
  {
    hide Assembled, Accumulated, ToPrecision;
    var buf := new char[BUF_SIZE];
    var sign := "";
    if isSigned {
      if c.plus {
        sign := if negative then "-" else "+";
      } else if c.space {
        sign := if negative then "-" else " ";
      } else if negative {
        sign := "-";
      }
    }
    var x := if c.pound && value != 0 then r.Prefix() else "";
    var cp := AccumulateDigits(buf, value, r, c.group);
    cp := AppendZeros(buf, cp, r, c);
    out := Emit(sign, x, buf, cp, c);
  }

  /** The second half of format_integer: padding and output. */
  method Emit(sign: string, x: string, buf: array<char>, cp: nat, c: Conversion) returns (out: string)
    requires cp <= buf.Length
    ensures out == Assembled(sign, x, buf[..cp], c)
  {
    hide Reversed, Repeat;
    var padCnt := c.width - cp - |x| - |sign|;
    if padCnt < 0 {
      padCnt := 0;
    }
    out := "";
    if !c.minus && !c.zero {
      out := OutputDup(out, ' ', padCnt);
    }
    ghost var left := out;
    out := out + sign + x;
    if c.zero {
      out := OutputDup(out, '0', padCnt);
    }
    out := OutputBackward(out, buf, cp);
    if c.minus {
      out := OutputDup(out, ' ', padCnt);
    }
    ghost var z, t := Repeat('0', if c.zero then padCnt else 0), Repeat(' ', if c.minus then padCnt else 0);
    ghost var d := Reversed(buf[..cp]);
    assert out == left + sign + x + z + d + t;
    Nested(left, sign, x, z, d, t);
  }

  lemma Nested(a: string, b: string, c: string, d: string, e: string, f: string)
    ensures a + b + c + d + e + f == a + ((b + c) + (d + e + f))
  {
  }
}
