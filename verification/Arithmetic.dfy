/** Facts about powers of two, products and floor division that several modules need. */
module Arithmetic {

  function Pow2(k: nat): (p: nat)
    ensures p >= 1
  {
    if k == 0 then 1 else 2 * Pow2(k - 1)
  }

  lemma {:induction false} Pow2Add(a: nat, b: nat)
    ensures Pow2(a + b) == Pow2(a) * Pow2(b)
  {
    if b != 0 {
      Pow2Add(a, b - 1);
    }
  }

  lemma {:induction false} Pow2Monotone(a: nat, b: nat)
    requires a <= b
    ensures Pow2(a) <= Pow2(b)
  {
    if a < b {
      Pow2Monotone(a, b - 1);
    }
  }

  lemma MulMonotone(x: int, a: int, b: int)
    requires 0 <= x && a <= b
    ensures x * a <= x * b
  {
  }

  lemma DivUnique(n: int, d: int, q: int)
    requires d > 0 && q * d <= n < (q + 1) * d
    ensures n / d == q
  {
    var q' := n / d;
    assert q' * d <= n < (q' + 1) * d;
    if q' < q {
      MulMonotone(d, q' + 1, q);
    } else if q < q' {
      MulMonotone(d, q + 1, q');
    }
  }

  lemma DivModFacts(n: int, d: int)
    requires d > 0
    ensures n / d * d <= n < (n / d + 1) * d
    ensures n - n / d * d == n % d
    ensures n >= 0 ==> 0 <= n / d <= n && n % d <= n
  {
    if n >= 0 {
      MulMonotone(n / d, 1, d);
    }
  }

  lemma SmallModulus(x: int, m: int)
    requires 0 <= x < m
    ensures x % m == x
  {
  }

  lemma ScaledBelow(a: int, b: int, p: int)
    requires a < b && p > 0
    ensures a * p < b * p
  {
  }

  lemma ScaledAtMost(a: int, b: int, p: int)
    requires a <= b && p > 0
    ensures a * p <= b * p
  {
  }

  lemma CancelAtMost(a: int, b: int, p: int)
    requires a * p <= b * p && p > 0
    ensures a <= b
  {
    if b < a { ScaledBelow(b, a, p); }
  }

  lemma CancelBelow(a: int, b: int, p: int)
    requires a * p < b * p && p > 0
    ensures a < b
  {
    if b <= a { ScaledAtMost(b, a, p); }
  }

  lemma ScaledOrZero(a: int, b: int, p: int)
    requires a <= b && p >= 0
    ensures a * p <= b * p
  {
  }

  lemma ProductAtLeast(a: int, b: int, x: int, y: int)
    requires a >= x >= 0 && b >= y >= 0
    ensures a * b >= x * y
  {
    ScaledOrZero(x, a, b);
    MulMonotone(x, y, b);
  }

  lemma ProductCommutes(a: int, b: int)
    ensures a * b == b * a
  {
  }
}
