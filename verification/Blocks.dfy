/** Where malloc's blocks lie: size classes, arenas and the arithmetic that leads from a block to its
    arena and back (src/threads/malloc.c:37-85, 266-294). */
module Blocks {
  import opened Arithmetic
  import opened PageAllocator

  const HEADER: nat := 12
  const CLASSES: nat := 7

  /** The block size of descriptor d. */
  function BlockSize(d: nat): (n: nat)
    requires d < CLASSES
    ensures 16 <= n <= 1024
  {
    match d case 0 => 16 case 1 => 32 case 2 => 64 case 3 => 128 case 4 => 256 case 5 => 512 case _ => 1024
  }

  function BlocksPerArena(d: nat): (n: nat)
    requires d < CLASSES
    ensures n >= 3
  {
    (PGSIZE - HEADER) / BlockSize(d)
  }

  datatype Desc = Desc(blockSize: nat, blocksPerArena: nat)

  /** malloc_init: seven descriptors, of which the largest serves 1 kB. */
  method MallocInit() returns (descs: seq<Desc>)
    ensures |descs| == CLASSES <= 10
    ensures forall d | 0 <= d < CLASSES :: descs[d] == Desc(BlockSize(d), BlocksPerArena(d))
  {
    descs := [];
    var blockSize := 16;
    while blockSize < PGSIZE / 2
      invariant |descs| <= CLASSES
      invariant |descs| < CLASSES ==> blockSize == BlockSize(|descs|)
      invariant |descs| == CLASSES ==> blockSize == 2048
      invariant forall d | 0 <= d < |descs| :: descs[d] == Desc(BlockSize(d), BlocksPerArena(d))
      decreases PGSIZE - blockSize
    {
      descs := descs + [Desc(blockSize, (PGSIZE - HEADER) / blockSize)];
      blockSize := blockSize * 2;
    }
  }

  /** The smallest descriptor whose blocks hold size bytes, or CLASSES. */
  function ClassFor(size: nat): (d: nat)
    ensures d <= CLASSES
    ensures d < CLASSES ==> size <= BlockSize(d)
    ensures forall e | 0 <= e < d :: BlockSize(e) < size
  {
    if size <= 16 then 0 else if size <= 32 then 1 else if size <= 64 then 2 else if size <= 128 then 3
    else if size <= 256 then 4 else if size <= 512 then 5 else if size <= 1024 then 6 else 7
  }

  /** The descriptor search loop of malloc. */
  method FindClass(size: nat) returns (d: nat)
    ensures d == ClassFor(size)
  {
    d := 0;
    while d < CLASSES
      invariant d <= ClassFor(size)
    {
      if BlockSize(d) >= size {
        break;
      }
      d := d + 1;
    }
  }

  /** Pages for a block too big for any descriptor, header included. */
  function BigPages(size: nat): (n: nat)
    ensures n > 0 && size + HEADER <= n * PGSIZE
  {
    (size + HEADER + PGSIZE - 1) / PGSIZE
  }

  /** The number of pages for a big block as the source computes it, in 32 bits. */
  function BigPages32(size: nat): (n: nat)
  {
    (size + HEADER + PGSIZE - 1) % 0x1_0000_0000 / PGSIZE
  }

  /** For which sizes that is enough: exactly those for which the sum does not wrap around. For the others the source
      asks for no page, which it does not get, or, for the last eleven sizes, for one. */
  lemma BigPagesExactly(size: nat)
    requires ClassFor(size) == CLASSES && size < 0x1_0000_0000
    ensures BigPages32(size) == BigPages(size) <==> size + HEADER + PGSIZE - 1 < 0x1_0000_0000
    ensures BigPages32(size) * PGSIZE >= size + HEADER <==> size + HEADER + PGSIZE - 1 < 0x1_0000_0000
    ensures size + HEADER + PGSIZE - 1 >= 0x1_0000_0000 ==> BigPages32(size) == if size <= 0x1_0000_0000 - HEADER then 0 else 1
  {
    var x := size + HEADER + PGSIZE - 1;
    assert x >= 0x1_0000_0000 ==> x % 0x1_0000_0000 == x - 0x1_0000_0000;
  }

  /** arena_to_block: the address of block i in the arena on page p. */
  function Addr(p: nat, d: nat, i: nat): (b: nat)
    requires d < CLASSES
  {
    p * PGSIZE + HEADER + i * BlockSize(d)
  }

  /** The arena page of an address (pg_round_down). */
  function PageOf(b: nat): (p: nat)
  {
    b / PGSIZE
  }

  /** block_to_arena's alignment check, plus being inside the arena. */
  predicate IsSlot(b: nat, d: nat)
    requires d < CLASSES
  {
    && b % PGSIZE >= HEADER && (b % PGSIZE - HEADER) % BlockSize(d) == 0
    && (b % PGSIZE - HEADER) / BlockSize(d) < BlocksPerArena(d)
  }

  function IndexOf(b: nat, d: nat): (i: int)
    requires d < CLASSES
  {
    (b % PGSIZE - HEADER) / BlockSize(d)
  }

  lemma BlockFits(d: nat, i: nat)
    requires d < CLASSES && i < BlocksPerArena(d)
    ensures i * BlockSize(d) + BlockSize(d) <= PGSIZE - HEADER
  {
    match d {
      case 0 =>
      case 1 =>
      case 2 =>
      case 3 =>
      case 4 =>
      case 5 =>
      case _ =>
    }
  }

  lemma MultipleFacts(i: nat, n: nat)
    requires n > 0
    ensures i * n / n == i && i * n % n == 0
  {
    assert (i + 1) * n == i * n + n;
    DivUnique(i * n, n, i);
    DivModFacts(i * n, n);
  }

  /** A block lies inside its arena's page, clear of the header, and can be traced back. */
  lemma AddrFacts(p: nat, d: nat, i: nat)
    requires d < CLASSES && i < BlocksPerArena(d)
    ensures PageOf(Addr(p, d, i)) == p && IsSlot(Addr(p, d, i), d) && IndexOf(Addr(p, d, i), d) == i
    ensures p * PGSIZE + HEADER <= Addr(p, d, i)
    ensures Addr(p, d, i) + BlockSize(d) <= (p + 1) * PGSIZE
  {
    hide BlockSize, BlocksPerArena;
    BlockFits(d, i);
    MultipleFacts(i, BlockSize(d));
    var offset := i * BlockSize(d);
    assert (p * PGSIZE + HEADER + offset) % PGSIZE == HEADER + offset;
  }

  /** Conversely, every slot is the block its index names. */
  lemma SlotAddr(b: nat, d: nat)
    requires d < CLASSES && IsSlot(b, d)
    ensures 0 <= IndexOf(b, d) < BlocksPerArena(d) && b == Addr(PageOf(b), d, IndexOf(b, d))
  {
    hide BlockSize, BlocksPerArena;
    var n := b % PGSIZE - HEADER;
    DivModFacts(n, BlockSize(d));
  }

  /** Two blocks of one arena do not overlap. */
  lemma BlocksApart(p: nat, d: nat, i: nat, j: nat)
    requires d < CLASSES && i < j
    ensures Addr(p, d, i) + BlockSize(d) <= Addr(p, d, j)
  {
    assert j * BlockSize(d) == i * BlockSize(d) + (j - i) * BlockSize(d);
    assert (j - i) * BlockSize(d) >= BlockSize(d);
  }
}
