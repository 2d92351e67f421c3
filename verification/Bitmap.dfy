/** Packed bitmaps (src/lib/kernel/bitmap.c): an array of 32-bit words that stands for a sequence
    of bools. The bitwise operators are modelled bit by bit on natural numbers. */
module Bitmap {
  import opened Arithmetic
  import opened BitTricks
  import opened Options

  const ELEM_BITS: nat := 32
  const WORD: nat := 0x1_0000_0000

  // ----- bits of a word -----

  predicate Bit(w: nat, k: nat)
  {
    if k == 0 then w % 2 == 1 else Bit(w / 2, k - 1)
  }

  function Or(x: nat, y: nat): (r: nat)
  {
    if x == 0 then y else if y == 0 then x
    else (if x % 2 == 1 || y % 2 == 1 then 1 else 0) + 2 * Or(x / 2, y / 2)
  }

  /** x & ~y. */
  function AndNot(x: nat, y: nat): (r: nat)
  {
    if x == 0 then 0 else if y == 0 then x
    else (if x % 2 == 1 && y % 2 == 0 then 1 else 0) + 2 * AndNot(x / 2, y / 2)
  }

  function Xor(x: nat, y: nat): (r: nat)
  {
    if x == 0 then y else if y == 0 then x
    else (if x % 2 != y % 2 then 1 else 0) + 2 * Xor(x / 2, y / 2)
  }

  lemma {:induction false} ZeroBits(k: nat)
    ensures !Bit(0, k)
  {
    if k > 0 {
      ZeroBits(k - 1);
    }
  }

  lemma {:induction false} MaskBits(k: nat, j: nat)
    ensures Bit(Pow2(k), j) <==> j == k
  {
    if k == 0 {
      if j > 0 {
        ZeroBits(j - 1);
      }
    } else {
      assert Pow2(k) / 2 == Pow2(k - 1) && Pow2(k) % 2 == 0;
      if j > 0 {
        MaskBits(k - 1, j - 1);
      }
    }
  }

  lemma HalfAndBit(b: nat, n: nat)
    requires b <= 1
    ensures (b + 2 * n) / 2 == n && (b + 2 * n) % 2 == b
  {
  }

  lemma {:induction false} OrBits(x: nat, y: nat, k: nat)
    ensures Bit(Or(x, y), k) <==> Bit(x, k) || Bit(y, k)
  {
    ZeroBits(k);
    if x > 0 && y > 0 {
      HalfAndBit(if x % 2 == 1 || y % 2 == 1 then 1 else 0, Or(x / 2, y / 2));
      if k > 0 {
        OrBits(x / 2, y / 2, k - 1);
      }
    }
  }

  lemma {:induction false} AndNotBits(x: nat, y: nat, k: nat)
    ensures Bit(AndNot(x, y), k) <==> Bit(x, k) && !Bit(y, k)
  {
    ZeroBits(k);
    if x > 0 && y > 0 {
      HalfAndBit(if x % 2 == 1 && y % 2 == 0 then 1 else 0, AndNot(x / 2, y / 2));
      if k > 0 {
        AndNotBits(x / 2, y / 2, k - 1);
      }
    }
  }

  lemma {:induction false} XorBits(x: nat, y: nat, k: nat)
    ensures Bit(Xor(x, y), k) <==> Bit(x, k) != Bit(y, k)
  {
    ZeroBits(k);
    if x > 0 && y > 0 {
      HalfAndBit(if x % 2 != y % 2 then 1 else 0, Xor(x / 2, y / 2));
      if k > 0 {
        XorBits(x / 2, y / 2, k - 1);
      }
    }
  }

  lemma {:induction false} AndMask(w: nat, k: nat)
    ensures And(w, Pow2(k)) != 0 <==> Bit(w, k)
  {
    ZeroBits(k);
    if w > 0 {
      if k > 0 {
        assert Pow2(k) / 2 == Pow2(k - 1) && Pow2(k) % 2 == 0;
        AndMask(w / 2, k - 1);
      } else {
        assert Pow2(0) == 1;
      }
    }
  }

  /** The operators stay within the word. */
  lemma {:induction false} WordRange(x: nat, y: nat, n: nat)
    requires x < Pow2(n) && y < Pow2(n)
    ensures Or(x, y) < Pow2(n) && AndNot(x, y) < Pow2(n) && Xor(x, y) < Pow2(n)
    decreases n
  {
    if x > 0 && y > 0 {
      WordRange(x / 2, y / 2, n - 1);
    }
  }

  // ----- words as bits -----

  function ElemIdx(bit: nat): (i: nat) { bit / ELEM_BITS }
  function BitMask(bit: nat): (m: nat) { Pow2(bit % ELEM_BITS) }
  function ElemCnt(bits: nat): (n: nat) { (bits + ELEM_BITS - 1) / ELEM_BITS }
  function ByteCnt(bits: nat): (n: nat) { 4 * ElemCnt(bits) }

  /** The sequence of bools that the words stand for. */
  ghost function Unpacked(ws: seq<nat>, n: nat): (m: seq<bool>)
    requires |ws| == ElemCnt(n)
  {
    seq(n, i requires 0 <= i < n => Bit(ws[i / ELEM_BITS], i % ELEM_BITS))
  }

  /** w is ws's word for bit idx with just that bit made v. */
  ghost predicate OneBitChanged(w: nat, u: nat, k: nat, v: bool)
  {
    forall j | 0 <= j < ELEM_BITS :: Bit(u, j) == if j == k then v else Bit(w, j)
  }

  lemma UnpackedUpdate(ws: seq<nat>, n: nat, idx: nat, u: nat, v: bool)
    requires |ws| == ElemCnt(n) && idx < n && OneBitChanged(ws[idx / ELEM_BITS], u, idx % ELEM_BITS, v)
    ensures Unpacked(ws[idx / ELEM_BITS := u], n) == Unpacked(ws, n)[idx := v]
  {
    hide Bit;
    var us := ws[idx / ELEM_BITS := u];
    forall i | 0 <= i < n ensures Unpacked(us, n)[i] == Unpacked(ws, n)[idx := v][i] {
      if i / ELEM_BITS == idx / ELEM_BITS {
        assert i % ELEM_BITS == idx % ELEM_BITS <==> i == idx;
      }
    }
  }

  lemma MarkChanges(w: nat, k: nat)
    requires w < WORD && k < ELEM_BITS
    ensures OneBitChanged(w, Or(w, Pow2(k)), k, true) && Or(w, Pow2(k)) < WORD
    ensures OneBitChanged(w, AndNot(w, Pow2(k)), k, false) && AndNot(w, Pow2(k)) < WORD
    ensures OneBitChanged(w, Xor(w, Pow2(k)), k, !Bit(w, k)) && Xor(w, Pow2(k)) < WORD
  {
    hide Bit, Or, AndNot, Xor, Pow2;
    forall j | 0 <= j < ELEM_BITS
      ensures Bit(Or(w, Pow2(k)), j) == if j == k then true else Bit(w, j)
      ensures Bit(AndNot(w, Pow2(k)), j) == if j == k then false else Bit(w, j)
      ensures Bit(Xor(w, Pow2(k)), j) == if j == k then !Bit(w, k) else Bit(w, j)
    {
      MaskBits(k, j);
      OrBits(w, Pow2(k), j);
      AndNotBits(w, Pow2(k), j);
      XorBits(w, Pow2(k), j);
    }
    WordBits(k);
    WordRange(w, Pow2(k), ELEM_BITS);
  }

  lemma WordBits(k: nat)
    requires k < ELEM_BITS
    ensures Pow2(ELEM_BITS) == WORD && Pow2(k) < WORD
  {
    Pow2Monotone(k, 31);
    assert Pow2(8) == 256;
    Pow2Add(8, 8);
    Pow2Add(16, 8);
    Pow2Add(24, 7);
  }

  // ----- runs -----

  ghost predicate RunAt(m: seq<bool>, i: nat, cnt: nat, v: bool)
  {
    i + cnt <= |m| && forall k | i <= k < i + cnt :: m[k] == v
  }

  /** r is the first position at or after start where cnt consecutive bits are all v. */
  ghost predicate IsFirstRun(m: seq<bool>, start: nat, cnt: nat, v: bool, r: Option<nat>)
  {
    match r
    case Some(i) => start <= i && RunAt(m, i, cnt, v) && forall j | start <= j < i :: !RunAt(m, j, cnt, v)
    case None => forall j | start <= j :: !RunAt(m, j, cnt, v)
  }

  ghost function Filled(m: seq<bool>, start: nat, cnt: nat, v: bool): (r: seq<bool>)
    requires start + cnt <= |m|
  {
    seq(|m|, i requires 0 <= i < |m| => if start <= i < start + cnt then v else m[i])
  }

  class PackedBitmap {
    const bitCnt: nat
    const bits: array<nat>

    ghost predicate Valid()
      reads bits
    {
      bits.Length == ElemCnt(bitCnt) && forall i | 0 <= i < bits.Length :: bits[i] < WORD
    }

    ghost function Model(): (m: seq<bool>)
      reads bits
      requires Valid()
      ensures |m| == bitCnt
    {
      Unpacked(bits[..], bitCnt)
    }

    /** bitmap_create, bitmap_create_in_buf: all bits false. */
    constructor (bitCnt: nat)
      ensures Valid() && fresh(bits) && this.bitCnt == bitCnt
      ensures Model() == seq(bitCnt, _ => false)
    {
      this.bitCnt := bitCnt;
      this.bits := new nat[ElemCnt(bitCnt)](_ => 0);
      new;
      SetAll(false);
    }

    /** bitmap_mark. */
    method Mark(idx: nat)
      requires Valid() && idx < bitCnt
      modifies bits
      ensures Valid() && Model() == old(Model())[idx := true]
    {
      hide Unpacked, OneBitChanged, Pow2;
      ghost var ws := bits[..];
      MarkChanges(bits[idx / ELEM_BITS], idx % ELEM_BITS);
      UnpackedUpdate(ws, bitCnt, idx, Or(ws[idx / ELEM_BITS], BitMask(idx)), true);
      bits[ElemIdx(idx)] := Or(bits[ElemIdx(idx)], BitMask(idx));
      assert bits[..] == ws[idx / ELEM_BITS := Or(ws[idx / ELEM_BITS], BitMask(idx))];
    }

    /** bitmap_reset. */
    method Reset(idx: nat)
      requires Valid() && idx < bitCnt
      modifies bits
      ensures Valid() && Model() == old(Model())[idx := false]
    {
      hide Unpacked, OneBitChanged, Pow2;
      ghost var ws := bits[..];
      MarkChanges(bits[idx / ELEM_BITS], idx % ELEM_BITS);
      UnpackedUpdate(ws, bitCnt, idx, AndNot(ws[idx / ELEM_BITS], BitMask(idx)), false);
      bits[ElemIdx(idx)] := AndNot(bits[ElemIdx(idx)], BitMask(idx));
      assert bits[..] == ws[idx / ELEM_BITS := AndNot(ws[idx / ELEM_BITS], BitMask(idx))];
    }

    /** bitmap_flip. */
    method Flip(idx: nat)
      requires Valid() && idx < bitCnt
      modifies bits
      ensures Valid() && Model() == old(Model())[idx := !old(Model())[idx]]
    {
      hide OneBitChanged, Pow2;
      ghost var ws := bits[..];
      MarkChanges(bits[idx / ELEM_BITS], idx % ELEM_BITS);
      UnpackedUpdate(ws, bitCnt, idx, Xor(ws[idx / ELEM_BITS], BitMask(idx)), !Bit(ws[idx / ELEM_BITS], idx % ELEM_BITS));
      bits[ElemIdx(idx)] := Xor(bits[ElemIdx(idx)], BitMask(idx));
      assert bits[..] == ws[idx / ELEM_BITS := Xor(ws[idx / ELEM_BITS], BitMask(idx))];
    }

    /** bitmap_set. */
    method Set(idx: nat, value: bool)
      requires Valid() && idx < bitCnt
      modifies bits
      ensures Valid() && Model() == old(Model())[idx := value]
    {
      if value {
        Mark(idx);
      } else {
        Reset(idx);
      }
    }

    /** bitmap_test. */
    method Test(idx: nat) returns (r: bool)
      requires Valid() && idx < bitCnt
      ensures r == Model()[idx]
    {
      AndMask(bits[idx / ELEM_BITS], idx % ELEM_BITS);
      r := And(bits[ElemIdx(idx)], BitMask(idx)) != 0;
    }

    /** bitmap_set_multiple. */
    method SetMultiple(start: nat, cnt: nat, value: bool)
      requires Valid() && start + cnt <= bitCnt
      modifies bits
      ensures Valid() && Model() == Filled(old(Model()), start, cnt, value)
    {
      hide Unpacked;
      ghost var m := Model();
      for i := 0 to cnt
        invariant Valid() && Model() == Filled(m, start, i, value)
      {
        Set(start + i, value);
      }
    }

    /** bitmap_set_all. */
    method SetAll(value: bool)
      requires Valid()
      modifies bits
      ensures Valid() && Model() == seq(bitCnt, _ => value)
    {
      SetMultiple(0, bitCnt, value);
    }

    /** bitmap_contains. */
    method Contains(start: nat, cnt: nat, value: bool) returns (r: bool)
      requires Valid() && start + cnt <= bitCnt
      ensures r <==> !RunAt(Model(), start, cnt, !value)
    {
      for i := 0 to cnt
        invariant forall k | start <= k < start + i :: Model()[k] != value
      {
        var b := Test(start + i);
        if b == value {
          return true;
        }
      }
      return false;
    }

    /** bitmap_scan. */
    method Scan(start: nat, cnt: nat, value: bool) returns (r: Option<nat>)
      requires Valid() && start <= bitCnt
      ensures IsFirstRun(Model(), start, cnt, value, r)
    {
      hide Unpacked;
      if cnt <= bitCnt {
        var last := bitCnt - cnt;
        var i := start;
        while i <= last
          invariant start <= i && forall j | start <= j < i :: !RunAt(Model(), j, cnt, value)
        {
          var other := Contains(i, cnt, !value);
          if !other {
            return Some(i);
          }
          i := i + 1;
        }
      }
      return None;
    }

    /** bitmap_scan_and_flip: takes the first fitting run and changes nothing else. */
    method ScanAndFlip(start: nat, cnt: nat, value: bool) returns (r: Option<nat>)
      requires Valid() && start <= bitCnt
      modifies bits
      ensures Valid() && IsFirstRun(old(Model()), start, cnt, value, r)
      ensures Model() == if r.Some? then Filled(old(Model()), r.value, cnt, !value) else old(Model())
    {
      hide Unpacked;
      r := Scan(start, cnt, value);
      if r.Some? {
        SetMultiple(r.value, cnt, !value);
      }
    }
  }
}
