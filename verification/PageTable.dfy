/** Virtual addresses and page table entries (src/threads/pte.h:32-104; section 3.7.6 of the IA-32 Intel
    Architecture Software Developer's Manual, volume 3A). Words are natural numbers; `|`, `&` and `& ~` are
    the bitwise operators on them. */
module PageTable {
  import opened Arithmetic
  import opened BitTricks
  import opened Bitmap

  const PGSIZE: nat := 4096
  const PHYS_BASE: nat := 0xc000_0000
  const ENTRIES: nat := 1024
  /** Page directory entries below PHYS_BASE. */
  const USER_ENTRIES: nat := 768
  const PTE_ADDR: nat := 0xffff_f000
  const PTE_P: nat := 0x1
  const PTE_W: nat := 0x2
  const PTE_U: nat := 0x4
  const PTE_A: nat := 0x20
  const PTE_D: nat := 0x40

  /** pd_no. */
  function PdNo(va: nat): (i: nat)
    requires va < 0x1_0000_0000
    ensures i < ENTRIES && (va < PHYS_BASE ==> i < USER_ENTRIES)
  {
    va / 0x40_0000
  }

  /** pt_no. */
  function PtNo(va: nat): (i: nat)
    ensures i < ENTRIES
  {
    MaskedBits(va, 10);
    And(va, 0x3f_f000) / PGSIZE
  }

  // ----- shifts -----

  function ShiftLeft(x: nat, n: nat): (r: nat)
  {
    if n == 0 then x else 2 * ShiftLeft(x, n - 1)
  }

  function ShiftRight(x: nat, n: nat): (r: nat)
  {
    if n == 0 then x else ShiftRight(x / 2, n - 1)
  }

  lemma PageShift(x: nat)
    ensures ShiftLeft(x, 12) == x * PGSIZE && ShiftRight(x, 12) == x / PGSIZE
  {
    ShiftThree(x, 12);
    ShiftThree(x, 9);
    ShiftThree(x, 6);
    ShiftThree(x, 3);
    ShiftThree(x / 8, 9);
    ShiftThree(x / 8 / 8, 6);
    ShiftThree(x / 8 / 8 / 8, 3);
  }

  lemma ShiftThree(x: nat, n: nat)
    requires n >= 3
    ensures ShiftLeft(x, n) == 8 * ShiftLeft(x, n - 3) && ShiftRight(x, n) == ShiftRight(x / 8, n - 3)
  {
    assert ShiftLeft(x, n - 1) == 2 * ShiftLeft(x, n - 2);
    assert ShiftLeft(x, n - 2) == 2 * ShiftLeft(x, n - 3);
    assert ShiftRight(x / 2, n - 1) == ShiftRight(x / 2 / 2, n - 2);
    assert ShiftRight(x / 2 / 2, n - 2) == ShiftRight(x / 2 / 2 / 2, n - 3);
  }

  lemma {:induction false} ShiftZero(n: nat)
    ensures ShiftRight(0, n) == 0
  {
    if n > 0 {
      ShiftZero(n - 1);
    }
  }

  /** A field of the bits from 12 up, extracted by its mask. */
  lemma MaskedBits(x: nat, n: nat)
    ensures n == 10 ==> And(x, 0x3f_f000) == x / PGSIZE % ENTRIES * PGSIZE
    ensures n == 20 ==> And(x, PTE_ADDR) == x / PGSIZE % 0x10_0000 * PGSIZE
  {
    hide And;
    assert Pow2(10) == ENTRIES && Pow2(20) == 0x10_0000;
    hide Pow2, ShiftLeft, ShiftRight;
    AndShifted(x, Pow2(n) - 1, 12);
    PageShift(x);
    PageShift(Pow2(n) - 1);
    PageShift(And(x / PGSIZE, Pow2(n) - 1));
    MaskIsRemainder(x / PGSIZE, n);
  }

  lemma TableIndex(va: nat)
    ensures PtNo(va) == va / PGSIZE % ENTRIES
  {
    hide And;
    MaskedBits(va, 10);
  }

  lemma {:induction false} AndShifted(x: nat, m: nat, n: nat)
    ensures And(x, ShiftLeft(m, n)) == ShiftLeft(And(ShiftRight(x, n), m), n)
  {
    hide And;
    if n > 0 {
      AndShifted(x / 2, m, n - 1);
      AndEven(x, ShiftLeft(m, n - 1));
    }
  }

  lemma AndEven(x: nat, y: nat)
    ensures And(x, 2 * y) == 2 * And(x / 2, y)
  {
    AndZero(x / 2, y);
    assert 2 * y / 2 == y && 2 * y % 2 == 0;
  }

  /** Directory and table index together name the page, and nothing less does. */
  lemma SamePage(a: nat, b: nat)
    requires a < 0x1_0000_0000 && b < 0x1_0000_0000
    ensures PdNo(a) == PdNo(b) && PtNo(a) == PtNo(b) <==> a / PGSIZE == b / PGSIZE
  {
    hide And;
    TableIndex(a);
    TableIndex(b);
    assert a / 0x40_0000 == a / PGSIZE / ENTRIES && b / 0x40_0000 == b / PGSIZE / ENTRIES;
  }

  // ----- entries -----

  /** A kernel virtual address of a whole page. */
  predicate IsPage(page: nat)
  {
    page % PGSIZE == 0 && PHYS_BASE <= page < 0x1_0000_0000
  }

  function Vtop(page: nat): (p: nat)
    requires page >= PHYS_BASE
  {
    page - PHYS_BASE
  }

  function Ptov(p: nat): (page: nat)
  {
    p + PHYS_BASE
  }

  predicate Present(e: nat) { And(e, PTE_P) != 0 }
  predicate Writable(e: nat) { And(e, PTE_W) != 0 }
  predicate User(e: nat) { And(e, PTE_U) != 0 }
  predicate Accessed(e: nat) { And(e, PTE_A) != 0 }
  predicate Dirty(e: nat) { And(e, PTE_D) != 0 }

  /** The page an entry points to (pde_get_pt, pte_get_page). */
  function PageOf(e: nat): (page: nat)
  {
    Ptov(And(e, PTE_ADDR))
  }

  /** pde_create. */
  function PdeCreate(pt: nat): (e: nat)
    requires IsPage(pt)
  {
    Or(Or(Or(Vtop(pt), PTE_U), PTE_P), PTE_W)
  }

  /** pte_create_kernel and pte_create_user. */
  function PteCreateUser(page: nat, writable: bool): (e: nat)
    requires IsPage(page)
  {
    Or(Or(Or(Vtop(page), PTE_P), if writable then PTE_W else 0), PTE_U)
  }

  // ----- single bits -----

  /** The flags of an entry are its bits. */
  lemma Flags(e: nat)
    ensures (Present(e) <==> Bit(e, 0)) && (Writable(e) <==> Bit(e, 1)) && (User(e) <==> Bit(e, 2))
    ensures (Accessed(e) <==> Bit(e, 5)) && (Dirty(e) <==> Bit(e, 6))
  {
    Masks();
    hide And, Bit, Pow2;
    AndMask(e, 0);
    AndMask(e, 1);
    AndMask(e, 2);
    AndMask(e, 5);
    AndMask(e, 6);
  }

  lemma Masks()
    ensures Pow2(0) == PTE_P && Pow2(1) == PTE_W && Pow2(2) == PTE_U && Pow2(5) == PTE_A && Pow2(6) == PTE_D
  {
  }

  /** Setting and clearing the low n bits leaves the others alone. */
  lemma {:induction false} LowBitsOnly(e: nat, l: nat, n: nat)
    requires ShiftRight(l, n) == 0
    ensures ShiftRight(Or(e, l), n) == ShiftRight(e, n) == ShiftRight(AndNot(e, l), n)
    decreases n
  {
    if n == 0 {
      assert Or(e, 0) == e == AndNot(e, 0);
    } else if e > 0 && l > 0 {
      HalvedOr(e, l);
      LowBitsOnly(e / 2, l / 2, n - 1);
    } else {
      ShiftZero(n);
    }
  }

  lemma HalvedOr(x: nat, y: nat)
    requires x > 0 && y > 0
    ensures Or(x, y) / 2 == Or(x / 2, y / 2) && AndNot(x, y) / 2 == AndNot(x / 2, y / 2)
  {
    HalfAndBit(if x % 2 == 1 || y % 2 == 1 then 1 else 0, Or(x / 2, y / 2));
    HalfAndBit(if x % 2 == 1 && y % 2 == 0 then 1 else 0, AndNot(x / 2, y / 2));
  }

  lemma PageKept(e: nat, l: nat)
    requires l < PGSIZE
    ensures PageOf(Or(e, l)) == PageOf(e) == PageOf(AndNot(e, l))
  {
    hide ShiftRight, Or, AndNot, And;
    PageShift(l);
    LowBitsOnly(e, l, 12);
    PageShift(e);
    PageShift(Or(e, l));
    PageShift(AndNot(e, l));
    MaskedBits(e, 20);
    MaskedBits(Or(e, l), 20);
    MaskedBits(AndNot(e, l), 20);
  }

  /** Setting bit k. */
  lemma SetBit(e: nat, k: nat, f: nat)
    requires k < 12 && f == Or(e, Pow2(k))
    ensures PageOf(f) == PageOf(e) && forall j: nat :: Bit(f, j) <==> j == k || Bit(e, j)
  {
    hide Bit, Or, AndNot, PageOf;
    Pow2Monotone(k, 11);
    assert Pow2(11) == 0x800;
    PageKept(e, Pow2(k));
    forall j: nat ensures Bit(f, j) <==> j == k || Bit(e, j) {
      OrBits(e, Pow2(k), j);
      MaskBits(k, j);
    }
  }

  /** Clearing bit k. */
  lemma ClearBit(e: nat, k: nat, f: nat)
    requires k < 12 && f == AndNot(e, Pow2(k))
    ensures PageOf(f) == PageOf(e) && forall j: nat :: Bit(f, j) <==> j != k && Bit(e, j)
  {
    hide Bit, Or, AndNot, PageOf;
    Pow2Monotone(k, 11);
    assert Pow2(11) == 0x800;
    PageKept(e, Pow2(k));
    forall j: nat ensures Bit(f, j) <==> j != k && Bit(e, j) {
      AndNotBits(e, Pow2(k), j);
      MaskBits(k, j);
    }
  }

  /** A bare page address: no flag is set and the address bits are all of it. */
  lemma Unflagged(page: nat)
    requires IsPage(page)
    ensures PageOf(Vtop(page)) == page && forall j: nat | j < 12 :: !Bit(Vtop(page), j)
  {
    var p := Vtop(page);
    hide And, Bit, ShiftLeft;
    MaskedBits(p, 20);
    WholePage(page);
    PageShift(p / PGSIZE);
    forall j: nat | j < 12 ensures !Bit(p, j) {
      LowClear(p / PGSIZE, 12, j);
    }
  }

  lemma WholePage(page: nat)
    requires IsPage(page)
    ensures var p := Vtop(page); p / PGSIZE % 0x10_0000 == p / PGSIZE && p / PGSIZE * PGSIZE == p
  {
  }

  lemma {:induction false} LowClear(m: nat, n: nat, j: nat)
    requires j < n
    ensures !Bit(ShiftLeft(m, n), j)
  {
    var x := ShiftLeft(m, n - 1);
    assert 2 * x % 2 == 0 && 2 * x / 2 == x;
    if j > 0 {
      LowClear(m, n - 1, j - 1);
    }
  }

  // ----- what the operations keep -----

  lemma PdeRoundTrip(pt: nat)
    requires IsPage(pt)
    ensures var e := PdeCreate(pt); PageOf(e) == pt && Present(e) && Writable(e) && User(e) && e != 0
  {
    hide Bit, Or, PageOf, And;
    Masks();
    Unflagged(pt);
    var a := Or(Vtop(pt), PTE_U);
    var b := Or(a, PTE_P);
    SetBit(Vtop(pt), 2, a);
    SetBit(a, 0, b);
    SetBit(b, 1, PdeCreate(pt));
    Flags(PdeCreate(pt));
    AndZero(0, PTE_P);
  }

  /** An entry points back to the page it was made for, with the flags asked for. */
  lemma PteRoundTrip(page: nat, writable: bool)
    requires IsPage(page)
    ensures var e := PteCreateUser(page, writable);
      PageOf(e) == page && Present(e) && User(e) && (Writable(e) <==> writable) && !Accessed(e) && !Dirty(e)
  {
    hide Bit, Or, PageOf, And;
    Masks();
    Unflagged(page);
    var a := Or(Vtop(page), PTE_P);
    var b := Or(a, if writable then PTE_W else 0);
    SetBit(Vtop(page), 0, a);
    if writable {
      SetBit(a, 1, b);
    } else {
      OrZero(a);
    }
    SetBit(b, 2, PteCreateUser(page, writable));
    Flags(PteCreateUser(page, writable));
  }

  lemma OrZero(x: nat)
    ensures Or(x, 0) == x
  {
  }

  /** Same page and same protection: what address translation looks at. */
  predicate SameTranslation(e: nat, f: nat)
  {
    PageOf(e) == PageOf(f) && (Present(e) <==> Present(f)) && (Writable(e) <==> Writable(f)) && (User(e) <==> User(f))
  }

  function WithDirty(e: nat, dirty: bool): (f: nat)
  {
    if dirty then Or(e, PTE_D) else AndNot(e, PTE_D)
  }

  function WithAccessed(e: nat, accessed: bool): (f: nat)
  {
    if accessed then Or(e, PTE_A) else AndNot(e, PTE_A)
  }

  function NotPresent(e: nat): (f: nat)
  {
    AndNot(e, PTE_P)
  }

  /** Setting or clearing the dirty bit changes that bit only. */
  lemma DirtyOnly(e: nat, dirty: bool)
    ensures var f := WithDirty(e, dirty);
      && SameTranslation(f, e) && (Dirty(f) <==> dirty) && (forall j: nat | j != 6 :: Bit(f, j) <==> Bit(e, j))
  {
    hide Bit, Or, AndNot, PageOf, And;
    Masks();
    var f := WithDirty(e, dirty);
    if dirty {
      SetBit(e, 6, f);
    } else {
      ClearBit(e, 6, f);
    }
    Flags(e);
    Flags(f);
  }

  lemma AccessedOnly(e: nat, accessed: bool)
    ensures var f := WithAccessed(e, accessed);
      && SameTranslation(f, e) && (Accessed(f) <==> accessed) && (forall j: nat | j != 5 :: Bit(f, j) <==> Bit(e, j))
  {
    hide Bit, Or, AndNot, PageOf, And;
    Masks();
    var f := WithAccessed(e, accessed);
    if accessed {
      SetBit(e, 5, f);
    } else {
      ClearBit(e, 5, f);
    }
    Flags(e);
    Flags(f);
  }

  /** Clearing the present bit keeps all others. */
  lemma PresentOnly(e: nat)
    ensures var f := NotPresent(e);
      && !Present(f) && PageOf(f) == PageOf(e) && (forall j: nat | j != 0 :: Bit(f, j) <==> Bit(e, j))
  {
    hide Bit, Or, AndNot, PageOf, And;
    Masks();
    ClearBit(e, 0, NotPresent(e));
    Flags(NotPresent(e));
  }

  /** An entry that is not present stays as it is. */
  lemma AlreadyAbsent(e: nat)
    requires !Present(e)
    ensures NotPresent(e) == e
  {
    Flags(e);
    assert AndNot(e / 2, 0) == e / 2;
  }
}
