/** 64-bit division on a 32-bit machine (src/lib/arithmetic.c).

    Machine words are integers with their range spelled out in the type, and every
    operation that can wrap in the source is written with an explicit `% TWO64`.
    A divide error (#DE) is a value of its own, so "does not trap" is something
    that is proved, not something that is assumed. */
module Division {
  import opened Arithmetic

  const TWO32: int := 0x1_0000_0000
  const TWO64: int := 0x1_0000_0000_0000_0000

  type uint32 = x: int | 0 <= x < 0x1_0000_0000
  type uint64 = x: int | 0 <= x < 0x1_0000_0000_0000_0000
  type int64 = x: int | -0x8000_0000_0000_0000 <= x < 0x8000_0000_0000_0000

  const INT64_MIN: int64 := -0x8000_0000_0000_0000

  datatype Outcome = Value(value: int) | DivideError

  /** The number of leading zero bits of a nonzero 32-bit word, counted one at a time. */
  function LeadingZeros(x: uint32): (n: nat)
    requires x != 0
    ensures n <= 31
    ensures 0x8000_0000 <= x * Pow2(n) < TWO32
    decreases TWO32 - x
  {
    if x >= 0x8000_0000 then 0
    else
      assert x * Pow2(1 + LeadingZeros(2 * x)) == 2 * x * Pow2(LeadingZeros(2 * x));
      LeadingZerosSmall(x, LeadingZeros(2 * x));
      1 + LeadingZeros(2 * x)
  }

  lemma LeadingZerosSmall(x: uint32, n: nat)
    requires 0 < x < 0x8000_0000
    requires n <= 31 && 2 * x * Pow2(n) < TWO32
    ensures n < 31
  {
    if n == 31 {
      assert Pow2(31) == 0x8000_0000 by { PowersOfTwo(); }
    }
  }

  lemma PowersOfTwo()
    ensures Pow2(1) == 2 && Pow2(2) == 4 && Pow2(4) == 16 && Pow2(8) == 256
    ensures Pow2(16) == 0x1_0000 && Pow2(31) == 0x8000_0000 && Pow2(32) == TWO32
  {
    assert Pow2(8) == 256;
    Pow2Add(8, 8);
    Pow2Add(16, 8);
    Pow2Add(24, 7);
    Pow2Add(31, 1);
  }

  /** Only one shift count brings a word's top bit to position 31. */
  lemma NormalizingShiftUnique(x: uint32, m: nat, n: nat)
    requires x != 0
    requires 0x8000_0000 <= x * Pow2(m) < TWO32
    requires 0x8000_0000 <= x * Pow2(n) < TWO32
    ensures m == n
  {
    if m < n {
      NoSecondShift(x, m, n);
    } else if n < m {
      NoSecondShift(x, n, m);
    }
  }

  lemma NoSecondShift(x: uint32, m: nat, n: nat)
    requires m < n
    requires 0x8000_0000 <= x * Pow2(m)
    ensures TWO32 <= x * Pow2(n)
  {
    Pow2Monotone(m + 1, n);
    calc {
      x * Pow2(n);
    >= { MulMonotone(x, Pow2(m + 1), Pow2(n)); }
      x * Pow2(m + 1);
    ==
      2 * (x * Pow2(m));
    }
  }

  /** w is x shifted left n places with no bit lost. */
  ghost predicate Shifted(x: int, n: nat, w: int)
  {
    w == x * Pow2(n)
  }

  lemma ShiftNone(x: int)
    ensures Shifted(x, 0, x)
  {
  }

  lemma ShiftMore(x: int, n: nat, w: int, k: nat, f: int)
    requires Shifted(x, n, w) && f == Pow2(k)
    ensures Shifted(x, n + k, w * f)
  {
    hide Pow2;
    Pow2Add(n, k);
    Regrouped(x, Pow2(n), f);
  }

  lemma Regrouped(x: int, p: int, f: int)
    ensures x * (p * f) == (x * p) * f
  {
  }

  /** nlz: the binary search for the top bit. The shifts never lose a bit, because each is
      guarded by a comparison against the largest word that can take it. */
  method Nlz(x: uint32) returns (n: nat)
    requires x != 0
    ensures n == LeadingZeros(x)
  {
    hide Pow2, LeadingZeros, Shifted;
    PowersOfTwo();
    var w := x;
    n := 0;
    ShiftNone(x);
    if w <= 0x0000_FFFF {
      ShiftMore(x, n, w, 16, 0x1_0000);
      n := n + 16;
      w := w * 0x1_0000;
    }
    if w <= 0x00FF_FFFF {
      ShiftMore(x, n, w, 8, 256);
      n := n + 8;
      w := w * 256;
    }
    if w <= 0x0FFF_FFFF {
      ShiftMore(x, n, w, 4, 16);
      n := n + 4;
      w := w * 16;
    }
    if w <= 0x3FFF_FFFF {
      ShiftMore(x, n, w, 2, 4);
      n := n + 2;
      w := w * 4;
    }
    if w <= 0x7FFF_FFFF {
      ShiftMore(x, n, w, 1, 2);
      n := n + 1;
      w := w * 2;
    }
    NormalizedShift(x, n, w);
  }

  lemma NormalizedShift(x: uint32, n: nat, w: uint32)
    requires x != 0 && Shifted(x, n, w) && w >= 0x8000_0000
    ensures n == LeadingZeros(x)
  {
    NormalizingShiftUnique(x, n, LeadingZeros(x));
  }

  /** The DIVL instruction: a 64-bit dividend, a 32-bit divisor, and a divide error when the
      divisor is zero or the quotient needs more than 32 bits. */
  function Divl(n: uint64, d: uint32): (r: Outcome)
  {
    if d == 0 || n / d >= TWO32 then DivideError else Value(n / d)
  }

  /** udiv64. */
  function UDiv64(n: uint64, d: uint64): (r: Outcome)
  {
    if d / TWO32 == 0 then ShortQuotient(n, d) else if n < d then Value(0) else LongQuotient(n, d)
  }

  /** The branch for divisors of at most 32 bits. */
  function ShortQuotient(n: uint64, d: uint32): (r: Outcome)
  {
    if d == 0 then DivideError
    else
      var n1 := n / TWO32;
      var n0 := n % TWO32;
      match Divl((TWO32 * (n1 % d) + n0) % TWO64, d)
      case DivideError => DivideError
      case Value(q) => Value((q + TWO32 * (n1 / d)) % TWO64)
  }

  /** The branch that estimates the quotient from the top 32 bits of the divisor. */
  function LongQuotient(n: uint64, d: uint64): (r: Outcome)
    requires d / TWO32 != 0
  {
    match Estimate(n, d)
    case DivideError => DivideError
    case Value(q) => if (n - (q - 1) * d) % TWO64 < d then Value((q - 1) % TWO64) else Value(q)
  }

  /** `divl (n >> 1, (d << s) >> 32) >> (31 - s)`, where s normalizes d. */
  function Estimate(n: uint64, d: uint64): (r: Outcome)
    requires d / TWO32 != 0
  {
    var s := LeadingZeros(d / TWO32);
    match Divl(n / 2, d * Pow2(s) % TWO64 / TWO32)
    case DivideError => DivideError
    case Value(e) => Value(Shr(e, 31 - s))
  }

  /** `x >> k`. */
  function Shr(x: int, k: nat): (r: int)
  {
    x / Pow2(k)
  }

  // ----- the short-divisor branch -----

  /** Long division with two base-b digits: dividing the high digit first and carrying its
      remainder gives the whole quotient, and the low quotient is a single digit. */
  lemma TwoDigitDivision(b: int, n0: int, d: int, hi: int, rem: int, q: int)
    requires 0 <= rem < d && 0 <= n0 < b
    requires q * d <= b * rem + n0 < (q + 1) * d
    ensures q < b
    ensures (q + b * hi) * d <= b * (hi * d + rem) + n0 < (q + b * hi + 1) * d
  {
    MulMonotone(b, rem, d - 1);
    if b <= q {
      MulMonotone(d, b, q);
    }
    assert (q + b * hi) * d == q * d + b * (hi * d);
    assert (q + b * hi + 1) * d == (q + 1) * d + b * (hi * d);
  }

  lemma ShortParts(n: uint64, d: uint32)
    requires d != 0
    ensures var m := TWO32 * (n / TWO32 % d) + n % TWO32;
      && 0 <= m < TWO64 && 0 <= m / d < TWO32
      && n / d == m / d + TWO32 * (n / TWO32 / d)
  {
    var n1, n0 := n / TWO32, n % TWO32;
    var m := TWO32 * (n1 % d) + n0;
    DivModFacts(n1, d);
    assert 0 <= m < TWO64 by { MulMonotone(TWO32, n1 % d, TWO32 - 2); }
    DivModFacts(m, d);
    TwoDigitDivision(TWO32, n0, d, n1 / d, n1 % d, m / d);
    assert n == TWO32 * n1 + n0;
    DivUnique(n, d, m / d + TWO32 * (n1 / d));
  }

  lemma ShortDivisor(n: uint64, d: uint32)
    requires d != 0
    ensures ShortQuotient(n, d) == Value(n / d)
  {
    ShortParts(n, d);
    DivModFacts(n, d);
    SmallModulus(TWO32 * (n / TWO32 % d) + n % TWO32, TWO64);
    SmallModulus(n / d, TWO64);
  }

  // ----- the long-divisor branch -----

  /** The truncated divisor: v is the top 32 bits of the normalized d, so v scaled back is the
      largest multiple of 2^(32-s) not above d. */
  lemma NormalizedDivisor(d: uint64, s: nat)
    requires d / TWO32 != 0 && s == LeadingZeros(d / TWO32)
    ensures d * Pow2(s) < TWO64
    ensures 0x8000_0000 <= d * Pow2(s) / TWO32 < TWO32
    ensures d * Pow2(s) / TWO32 * Pow2(32 - s) <= d < (d * Pow2(s) / TWO32 + 1) * Pow2(32 - s)
  {
    var d1, p, w := d / TWO32, Pow2(s), Pow2(32 - s);
    assert w * p == TWO32 by { Pow2Add(32 - s, s); PowersOfTwo(); }
    NormalizedRange(TWO32, d1, d, p, w);
    var v := d * p / TWO32;
    assert v * TWO32 <= d * p < (v + 1) * TWO32 by { DivModFacts(d * p, TWO32); }
    TruncatedRange(TWO32, v, d, p, w);
  }

  lemma NormalizedRange(b: int, d1: int, d: int, p: int, w: int)
    requires p > 0 && w > 0 && w * p == b
    requires 0 <= d1 && d1 * p < b && d1 * b <= d < (d1 + 1) * b
    ensures (d1 * p) * b <= d * p < b * b
  {
    TopMultiple(d1 * p, p, w, d1);
    ScaledBelow(d, (d1 + 1) * b, p);
    SwapFactors(d1 + 1, b, p);
    ScaledAtMost((d1 + 1) * p, b, b);
    ScaledAtMost(d1 * b, d, p);
    SwapFactors(d1, b, p);
  }

  lemma SwapFactors(x: int, b: int, p: int)
    ensures x * b * p == x * p * b
  {
  }

  lemma TruncatedRange(b: int, v: int, d: int, p: int, w: int)
    requires p > 0 && w > 0 && w * p == b
    requires v * b <= d * p < (v + 1) * b
    ensures v * w <= d < (v + 1) * w
  {
    assert v * b == (v * w) * p;
    assert (v + 1) * b == ((v + 1) * w) * p;
    CancelAtMost(v * w, d, p);
    CancelBelow(d, (v + 1) * w, p);
  }

  lemma TopMultiple(x: int, p: int, w: int, k: int)
    requires p > 0 && x == k * p && x < w * p
    ensures (k + 1) * p <= w * p
  {
    if k + 1 > w {
      MulMonotone(p, w, k);
    }
    MulMonotone(p, k + 1, w);
  }

  /** Three floors in a row are one floor of the product. */
  lemma NestedFloor(n: nat, a: int, b: int)
    requires a > 0 && b > 0
    ensures a * b > 0
    ensures n / a / b == n / (a * b)
  {
    assert a * b > 0 by { ScaledBelow(0, a, b); }
    DivModFacts(n, a);
    DivModFacts(n / a, b);
    NestedBounds(n, n / a, n / a / b, a, b);
    DivUnique(n, a * b, n / a / b);
  }

  lemma NestedBounds(n: int, x: int, y: int, a: int, b: int)
    requires a > 0 && b > 0
    requires x * a <= n < (x + 1) * a && y * b <= x < (y + 1) * b
    ensures y * (a * b) <= n < (y + 1) * (a * b)
  {
    ScaledAtMost(y * b, x, a);
    ScaledAtMost(x + 1, (y + 1) * b, a);
    assert y * b * a == y * (a * b);
    assert (y + 1) * b * a == (y + 1) * (a * b);
  }

  /** Dividing by a slightly smaller divisor overestimates the quotient by at most one,
      provided the defect is small: n * (d - c) <= d * c. */
  lemma EstimateWithinOne(n: nat, d: int, c: int)
    requires 0 < c <= d
    requires n * (d - c) <= d * c
    ensures n / d <= n / c <= n / d + 1
  {
    DivModFacts(n, d);
    DivModFacts(n, c);
    EstimateNotBelow(n, d, c, n / d, n / c);
    EstimateNotFarAbove(n, d, c, n / d, n / c);
  }

  lemma EstimateNotBelow(n: nat, d: int, c: int, q: int, e: int)
    requires 0 < c <= d && 0 <= q && q * d <= n < (e + 1) * c
    ensures q <= e
  {
    if e < q {
      MulMonotone(c, e + 1, q);
      MulMonotone(q, c, d);
    }
  }

  lemma EstimateNotFarAbove(n: nat, d: int, c: int, q: int, e: int)
    requires 0 < c <= d && n * (d - c) <= d * c
    requires e * c <= n < (q + 1) * d
    ensures e <= q + 1
  {
    assert e * (d - c) <= d by {
      ScaledOrZero(e * c, n, d - c);
      SwapFactors(e, c, d - c);
      CancelAtMost(e * (d - c), d, c);
    }
    assert (e - 1) * d == e * c + e * (d - c) - d;
    if e > q + 1 {
      MulMonotone(d, q + 1, e - 1);
    }
  }

  /** The truncation defect is small enough: at s = 31 it is at most 1, below that the divisor is
      large compared with it. */
  lemma TruncationSmall(n: uint64, d: uint64, v: int, s: nat)
    requires s <= 31 && d >= TWO32
    requires 0x8000_0000 <= v
    requires v * Pow2(32 - s) <= d < (v + 1) * Pow2(32 - s)
    ensures n * (d - v * Pow2(32 - s)) <= d * (v * Pow2(32 - s))
  {
    var w := Pow2(32 - s);
    assert (v + 1) * w == v * w + w;
    ScaledAtMost(0x8000_0000, v, w);
    if s == 31 {
      assert w == 2 by { PowersOfTwo(); }
      DefectOfOne(TWO32, n, d, v * w);
    } else {
      assert w >= 4 by { Pow2Monotone(2, 32 - s); PowersOfTwo(); }
      DefectSmall(0x8000_0000, n, d, v * w, w);
    }
  }

  lemma DefectOfOne(b: int, n: int, d: int, c: int)
    requires 0 <= n < b * b && c <= d <= c + 1 && b <= c && 0 < b
    ensures n * (d - c) <= d * c
  {
    ProductAtLeast(d, c, b, b);
    if d == c {
      assert n * (d - c) == 0;
    } else {
      assert n * (d - c) == n;
    }
  }

  lemma DefectSmall(h: int, n: int, d: int, c: int, w: int)
    requires h > 0 && w >= 4 && 0 <= n < 4 * (h * h) && c <= d < c + w && h * w <= c
    ensures n * (d - c) <= d * c
  {
    ProductAtLeast(4 * (h * h), w, n, d - c);
    assert h * w >= 0;
    ProductAtLeast(d, c, h * w, h * w);
    assert h * w * (h * w) == (h * h) * (w * w);
    ScaledAtMost(4, w, w);
    assert h * h > 0;
    MulMonotone(h * h, 4 * w, w * w);
    assert (h * h) * (4 * w) == 4 * (h * h) * w;
  }

  /** The estimate before correction: DIVL does not trap, and the shifted quotient is the true
      quotient or one more. */
  lemma EstimateBound(n: uint64, d: uint64)
    requires d / TWO32 != 0
    ensures Estimate(n, d).Value? && n / d <= Estimate(n, d).value <= n / d + 1
  {
    var s := LeadingZeros(d / TWO32);
    NormalizedDivisor(d, s);
    var v := d * Pow2(s) / TWO32;
    assert d * Pow2(s) % TWO64 == d * Pow2(s);
    QuotientFits(n / 2, v);
    assert Divl(n / 2, v) == Value(n / 2 / v);
    EstimateIsOneFloor(n, v, 31 - s);
    TruncationSmall(n, d, v, s);
    assert v * Pow2(32 - s) > 0 by { ScaledBelow(0, v, Pow2(32 - s)); }
    EstimateWithinOne(n, d, v * Pow2(32 - s));
  }

  lemma QuotientFits(u: int, v: int)
    requires 0 <= u < 0x8000_0000_0000_0000 && 0x8000_0000 <= v
    ensures 0 <= u / v < TWO32
  {
    DivModFacts(u, v);
    if u / v >= TWO32 {
      ProductAtLeast(u / v, v, TWO32, 0x8000_0000);
    }
  }

  lemma EstimateIsOneFloor(n: nat, v: int, k: nat)
    requires v > 0
    ensures v * Pow2(k + 1) > 0 && Shr(n / 2 / v, k) == n / (v * Pow2(k + 1))
  {
    NestedFloor(n, 2, v);
    NestedFloor(n, 2 * v, Pow2(k));
    assert 2 * v * Pow2(k) == v * Pow2(k + 1);
  }

  /** The final comparison `n - (q - 1) * d < d` tells the exact estimate from the one that is
      one too large, and it does so without wrapping. */
  lemma CorrectionStep(n: int, d: int, q: int)
    requires 0 < d <= n && n / d <= q <= n / d + 1
    ensures q >= 1 && 0 <= n - (q - 1) * d <= n
    ensures (if n - (q - 1) * d < d then q - 1 else q) == n / d
  {
    var t := n / d;
    DivModFacts(n, d);
    if t < 1 { MulMonotone(d, t + 1, 1); }
    assert (t - 1) * d == t * d - d;
    ScaledAtMost(0, q - 1, d);
  }

  lemma LongDivisor(n: uint64, d: uint64)
    requires d / TWO32 != 0 && d <= n
    ensures LongQuotient(n, d) == Value(n / d)
  {
    hide Estimate;
    EstimateBound(n, d);
    var q := Estimate(n, d).value;
    CorrectionStep(n, d, q);
    DivModFacts(n, d);
    SmallModulus(n - (q - 1) * d, TWO64);
    SmallModulus(q - 1, TWO64);
  }

  /** udiv64 is floor division for every 64-bit pair, and a zero divisor is the only trap. */
  lemma UDiv64Correct(n: uint64, d: uint64)
    ensures d == 0 ==> UDiv64(n, d) == DivideError
    ensures d != 0 ==> UDiv64(n, d) == Value(n / d)
  {
    hide LongQuotient;
    if d != 0 {
      if d / TWO32 == 0 {
        ShortDivisor(n, d);
      } else if n < d {
        DivUnique(n, d, 0);
      } else {
        LongDivisor(n, d);
      }
    }
  }

  // ----- what is built on it -----

  /** umod64: the remainder, cut to 32 bits by the return type. */
  function UMod64(n: uint64, d: uint64): (r: Outcome)
  {
    match UDiv64(n, d)
    case DivideError => DivideError
    case Value(q) => Value((n - d * q) % TWO64 % TWO32)
  }

  /** Two's complement reading of a word of 2*half values. */
  function Signed(x: int, half: int): (r: int)
    requires half > 0
  {
    if x % (2 * half) < half then x % (2 * half) else x % (2 * half) - 2 * half
  }

  function AsInt64(x: int): (r: int) { Signed(x, 0x8000_0000_0000_0000) }
  function AsInt32(x: int): (r: int) { Signed(x, 0x8000_0000) }

  function Magnitude(x: int64): (r: uint64) { Abs(x) }

  /** sdiv64: divide the magnitudes, then put the sign back; both conversions wrap. */
  function SDiv64(n: int64, d: int64): (r: Outcome)
  {
    match UDiv64(Magnitude(n), Magnitude(d))
    case DivideError => DivideError
    case Value(q) => Value(WithSign(q, (n < 0) == (d < 0)))
  }

  function WithSign(q: int, same: bool): (r: int)
  {
    if same then AsInt64(q) else AsInt64(-AsInt64(q))
  }

  /** smod64: cut to a signed 32-bit result by the return type. */
  function SMod64(n: int64, d: int64): (r: Outcome)
  {
    match SDiv64(n, d)
    case DivideError => DivideError
    case Value(q) => Value(AsInt32(n - d * q))
  }

  /** Division that truncates toward zero, as ISO C99 section 6.5.5 defines `/` on integers. */
  function TruncDiv(n: int, d: int): (q: int)
    requires d != 0
  {
    var m := Abs(n) / Abs(d);
    if (n < 0) == (d < 0) then m else -m
  }

  function Abs(x: int): (r: nat) { if x < 0 then -x else x }

  /** The C remainder, characterized without division by TruncDiv's defining law. */
  lemma TruncDivLaw(n: int, d: int)
    requires d != 0
    ensures Abs(n - d * TruncDiv(n, d)) == Abs(n) % Abs(d) < Abs(d)
    ensures n > 0 ==> n - d * TruncDiv(n, d) >= 0
    ensures n < 0 ==> n - d * TruncDiv(n, d) <= 0
  {
    DivModFacts(Abs(n), Abs(d));
    SignedProduct(n, d, Abs(n) / Abs(d));
  }

  lemma SignedProduct(n: int, d: int, m: int)
    ensures d * (if (n < 0) == (d < 0) then m else -m) == if n < 0 then -(m * Abs(d)) else m * Abs(d)
  {
    assert d * -m == -(d * m);
    assert -d * m == -(d * m);
  }

  /** sdiv64 truncates toward zero on every pair of 64-bit numbers with a nonzero divisor except
      the one whose quotient does not exist in 64 bits. */
  lemma SDiv64Correct(n: int64, d: int64)
    requires d != 0
    ensures SDiv64(n, d) == Value(TruncDiv(n, d)) <==> !(n == INT64_MIN && d == -1)
  {
    hide UDiv64, WithSign;
    UDiv64Correct(Magnitude(n), Magnitude(d));
    DivModFacts(Abs(n), Abs(d));
    if Abs(d) != 1 {
      HalfAtMost(Abs(n), Abs(d));
    }
    SignRestored(Abs(n) / Abs(d), (n < 0) == (d < 0));
  }

  lemma HalfAtMost(n: nat, d: nat)
    requires d > 1
    ensures 2 * (n / d) <= n
  {
    DivModFacts(n, d);
    MulMonotone(n / d, 2, d);
  }

  lemma SignRestored(m: int, same: bool)
    requires 0 <= m <= 0x8000_0000_0000_0000
    ensures WithSign(m, same) == (if same then m else -m) <==> !(same && m == 0x8000_0000_0000_0000)
  {
  }

  /** The 32-bit result of umod64 is the true remainder exactly when that remainder fits, hence
      for all dividends exactly when the divisor is at most 2^32. */
  lemma UMod64Exact(n: uint64, d: uint64)
    requires d != 0
    ensures UMod64(n, d) == Value(n % d % TWO32)
  {
    hide UDiv64;
    UDiv64Correct(n, d);
    DivModFacts(n, d);
    ProductCommutes(d, n / d);
    SmallModulus(n - n / d * d, TWO64);
  }

  lemma UMod64ExactForAll(d: uint64)
    requires d != 0
    ensures (forall n: uint64 :: UMod64(n, d) == Value(n % d)) <==> d <= TWO32
  {
    hide UMod64;
    forall n: uint64 ensures UMod64(n, d) == Value(n % d % TWO32) && 0 <= n % d < d {
      UMod64Exact(n, d);
    }
    if d > TWO32 {
      var n: uint64 := TWO32;
      DivUnique(n, d, 0);
      DivModFacts(n, d);
      assert UMod64(n, d) == Value(0);
    }
  }

  /** Likewise for smod64 and the signed 32-bit range. */
  lemma SMod64Exact(n: int64, d: int64)
    requires d != 0 && !(n == INT64_MIN && d == -1)
    ensures SMod64(n, d) == Value(AsInt32(n - d * TruncDiv(n, d)))
  {
    SDiv64Correct(n, d);
  }

  lemma SMod64Fits(n: int64, d: int64)
    requires d != 0 && Abs(d) <= 0x8000_0000
    ensures SMod64(n, d) == Value(n - d * TruncDiv(n, d))
  {
    hide SMod64, TruncDiv;
    if n == INT64_MIN && d == -1 {
      OverflowingRemainder();
    } else {
      SMod64Exact(n, d);
      TruncDivLaw(n, d);
    }
  }

  lemma SMod64ExactForAll(d: int64)
    requires d != 0
    ensures (forall n: int64 :: SMod64(n, d) == Value(n - d * TruncDiv(n, d))) <==> Abs(d) <= 0x8000_0000
  {
    hide SMod64, TruncDiv;
    if Abs(d) <= 0x8000_0000 {
      forall n: int64 ensures SMod64(n, d) == Value(n - d * TruncDiv(n, d)) {
        SMod64Fits(n, d);
      }
    } else {
      SMod64TooBig(d);
    }
  }

  lemma SMod64TooBig(d: int64)
    requires Abs(d) > 0x8000_0000
    ensures SMod64(0x8000_0000, d) == Value(-0x8000_0000)
    ensures 0x8000_0000 - d * TruncDiv(0x8000_0000, d) == 0x8000_0000
  {
    hide SMod64;
    DivUnique(0x8000_0000, Abs(d), 0);
    SMod64Exact(0x8000_0000, d);
  }

  /** At the pair where the quotient overflows, the remainder is nevertheless right: the error
      in the quotient is a multiple of 2^64. */
  lemma OverflowingRemainder()
    ensures SDiv64(INT64_MIN, -1) == Value(INT64_MIN)
    ensures SMod64(INT64_MIN, -1) == Value(0) == Value(INT64_MIN - -1 * TruncDiv(INT64_MIN, -1))
  {
    UDiv64Correct(0x8000_0000_0000_0000, 1);
    DivUnique(0x8000_0000_0000_0000, 1, 0x8000_0000_0000_0000);
  }
}
