/** The bit tricks behind the hash table's bucket count (src/lib/kernel/hash.c:304-340, 364-372).
    `&` is modelled bit by bit on natural numbers. */
module BitTricks {
  import opened Arithmetic

  function And(x: nat, y: nat): (r: nat)
  {
    if x == 0 || y == 0 then 0
    else (if x % 2 == 1 && y % 2 == 1 then 1 else 0) + 2 * And(x / 2, y / 2)
  }

  ghost predicate IsPow2(x: nat)
  {
    exists k: nat :: x == Pow2(k)
  }

  /** The largest power of two not above x. */
  function HighBit(x: nat): (p: nat)
    requires x > 0
    ensures p <= x < 2 * p
    ensures IsPow2(p)
  {
    if x == 1 then
      assert 1 == Pow2(0);
      1
    else
      var h := HighBit(x / 2);
      assert IsPow2(2 * h) by {
        var k: nat :| h == Pow2(k);
        assert 2 * h == Pow2(k + 1);
      }
      2 * h
  }

  lemma {:induction false} AndSelf(x: nat)
    ensures And(x, x) == x
  {
    if x > 0 {
      AndSelf(x / 2);
    }
  }

  /** turn_off_least_1bit. */
  function TurnOffLeast1Bit(x: nat): (r: nat)
    requires x > 0
  {
    And(x, x - 1)
  }

  /** Clearing the least bit: the odd case and the even case. */
  lemma TurnOffCases(x: nat)
    requires x > 0
    ensures x % 2 == 1 ==> TurnOffLeast1Bit(x) == x - 1
    ensures x % 2 == 0 ==> TurnOffLeast1Bit(x) == 2 * TurnOffLeast1Bit(x / 2)
  {
    if x % 2 == 1 {
      AndSelf(x / 2);
    } else {
      assert (x - 1) / 2 == x / 2 - 1;
    }
  }

  /** is_power_of_2. */
  predicate IsPowerOf2(x: nat)
  {
    x != 0 && TurnOffLeast1Bit(x) == 0
  }

  /** The bit trick recognizes exactly the powers of two. */
  lemma {:induction false} PowerTrick(x: nat)
    requires x > 0
    ensures IsPowerOf2(x) <==> x == HighBit(x)
    ensures IsPowerOf2(x) <==> IsPow2(x)
    ensures !IsPowerOf2(x) ==> 0 < TurnOffLeast1Bit(x) < x && HighBit(TurnOffLeast1Bit(x)) == HighBit(x)
  {
    TurnOffCases(x);
    if x == 1 {
      assert 1 == Pow2(0);
    } else {
      PowerTrick(x / 2);
      if x % 2 == 1 {
        HighBitEven(x);
        OddNotPow2(x);
      } else {
        HalfPow2(x);
      }
    }
  }

  lemma HighBitEven(x: nat)
    requires x > 1 && x % 2 == 1
    ensures HighBit(x - 1) == HighBit(x)
  {
    assert (x - 1) / 2 == x / 2;
  }

  lemma OddNotPow2(x: nat)
    requires x > 1 && x % 2 == 1
    ensures !IsPow2(x)
  {
    hide Pow2;
    forall k: nat ensures x != Pow2(k) {
      Pow2Parity(k);
    }
  }

  lemma Pow2Parity(k: nat)
    ensures if k == 0 then Pow2(k) == 1 else Pow2(k) % 2 == 0
  {
    if k > 0 {
      DoubleIsEven(Pow2(k - 1));
    }
  }

  lemma DoubleIsEven(p: nat)
    ensures 2 * p % 2 == 0
  {
  }

  lemma HalfPow2(x: nat)
    requires x > 1 && x % 2 == 0
    ensures IsPow2(x) <==> IsPow2(x / 2)
  {
    if IsPow2(x) {
      var k: nat :| x == Pow2(k);
      assert x / 2 == Pow2(k - 1);
    }
    if IsPow2(x / 2) {
      var k: nat :| x / 2 == Pow2(k);
      assert x == Pow2(k + 1);
    }
  }

  /** Masking with one less than a power of two is the remainder. */
  lemma {:induction false} MaskIsRemainder(h: nat, k: nat)
    ensures And(h, Pow2(k) - 1) == h % Pow2(k)
  {
    hide And;
    AndZero(h, Pow2(k) - 1);
    if h == 0 {
      SmallModulus(0, Pow2(k));
    } else if k > 0 {
      var p := Pow2(k - 1);
      MaskIsRemainder(h / 2, k - 1);
      MaskHalves(h, p);
      HalvedRemainder(h, p);
    }
  }

  lemma AndZero(x: nat, y: nat)
    ensures And(0, y) == And(x, 0) == 0
  {
  }

  lemma MaskHalves(h: nat, p: nat)
    requires p > 0
    ensures And(h, 2 * p - 1) == h % 2 + 2 * And(h / 2, p - 1)
  {
    assert (2 * p - 1) / 2 == p - 1 && (2 * p - 1) % 2 == 1;
  }

  lemma HalvedQuotient(h: nat, p: nat)
    requires p > 0
    ensures h / (2 * p) == h / 2 / p
  {
    var q := h / 2 / p;
    DivModFacts(h / 2, p);
    assert q * (2 * p) == 2 * (q * p);
    assert (q + 1) * (2 * p) == 2 * (q * p) + 2 * p;
    DivUnique(h, 2 * p, q);
  }

  lemma HalvedRemainder(h: nat, p: nat)
    requires p > 0
    ensures h % (2 * p) == h % 2 + 2 * (h / 2 % p)
  {
    var q := h / 2 / p;
    HalvedQuotient(h, p);
    DivModFacts(h / 2, p);
    assert q * (2 * p) == 2 * (q * p);
    DivModFacts(h, 2 * p);
  }
}
