/** malloc, free and realloc over the page allocator (src/threads/malloc.c:87-264). The bytes of
    memory are modelled as callers see them: arena headers and free-list links are kept apart in
    `arenas` and `freeLists`. */
module Malloc {
  import opened Options
  import opened PageAllocator
  import opened Blocks
  import opened Arenas
  import opened Sequences

  // ----- unlinking the blocks of an arena -----

  /** The list without blocks of page p whose index is below n. */
  function Purged(l: seq<nat>, p: nat, d: nat, n: nat): (m: seq<nat>)
    requires d < CLASSES
    ensures forall x :: x in m <==> x in l && !(PageOf(x) == p && IndexOf(x, d) < n)
  {
    if l == [] then [] else
    if PageOf(l[0]) == p && IndexOf(l[0], d) < n then Purged(l[1..], p, d, n) else [l[0]] + Purged(l[1..], p, d, n)
  }

  /** list_remove of an element known to be linked. */
  function Unlinked(l: seq<nat>, x: nat): (m: seq<nat>)
    requires x in l
  {
    if l[0] == x then l[1..] else [l[0]] + Unlinked(l[1..], x)
  }

  ghost predicate SlotsOn(l: seq<nat>, p: nat, d: nat)
    requires d < CLASSES
  {
    forall x | x in l && PageOf(x) == p :: IsSlot(x, d)
  }

  lemma {:induction false} PurgedNone(l: seq<nat>, p: nat, d: nat)
    requires d < CLASSES && SlotsOn(l, p, d)
    ensures Purged(l, p, d, 0) == l
  {
    if l != [] {
      hide IndexOf, IsSlot, PageOf;
      assert IsSlot(l[0], d) ==> IndexOf(l[0], d) >= 0 by {
        if IsSlot(l[0], d) {
          SlotAddr(l[0], d);
        }
      }
      PurgedNone(l[1..], p, d);
    }
  }

  lemma {:induction false} PurgedAll(l: seq<nat>, p: nat, d: nat)
    requires d < CLASSES && SlotsOn(l, p, d)
    ensures Purged(l, p, d, BlocksPerArena(d)) == OffPage(l, p)
  {
    if l != [] {
      hide IndexOf, IsSlot, PageOf, BlocksPerArena;
      if IsSlot(l[0], d) {
        SlotAddr(l[0], d);
      }
      PurgedAll(l[1..], p, d);
    }
  }

  lemma {:induction false} PurgedSame(l: seq<nat>, p: nat, d: nat, i: nat)
    requires d < CLASSES && i < BlocksPerArena(d) && SlotsOn(l, p, d) && Addr(p, d, i) !in l
    ensures Purged(l, p, d, i + 1) == Purged(l, p, d, i)
  {
    if l != [] {
      hide IndexOf, IsSlot, PageOf, BlocksPerArena, Addr;
      if IsSlot(l[0], d) {
        SlotAddr(l[0], d);
      }
      PurgedSame(l[1..], p, d, i);
    }
  }

  /** Unlinking block i takes the list from i purged blocks to i + 1. */
  lemma {:induction false} PurgedStep(l: seq<nat>, p: nat, d: nat, i: nat)
    requires d < CLASSES && i < BlocksPerArena(d) && SlotsOn(l, p, d) && Distinct(l) && Addr(p, d, i) in l
    ensures Addr(p, d, i) in Purged(l, p, d, i)
    ensures Unlinked(Purged(l, p, d, i), Addr(p, d, i)) == Purged(l, p, d, i + 1)
  {
    AddrFacts(p, d, i);
    hide IndexOf, IsSlot, PageOf, BlocksPerArena, Addr;
    var b := Addr(p, d, i);
    if l[0] == b {
      assert b !in l[1..];
      PurgedSame(l[1..], p, d, i);
    } else {
      assert b in l[1..];
      if IsSlot(l[0], d) {
        SlotAddr(l[0], d);
      }
      PurgedStep(l[1..], p, d, i);
    }
  }

  /** The loop of free that takes every block of an unused arena off the free list: each list_remove
      finds its block linked, and none of the arena's blocks is left. */
  method UnlinkArena(l: seq<nat>, p: nat, d: nat) returns (m: seq<nat>)
    requires d < CLASSES && SlotsOn(l, p, d) && Distinct(l)
    requires forall i: nat | i < BlocksPerArena(d) :: Addr(p, d, i) in l
    ensures m == OffPage(l, p)
  {
    hide *;
    m := l;
    PurgedNone(l, p, d);
    var i: nat := 0;
    while i < BlocksPerArena(d)
      invariant i <= BlocksPerArena(d) && m == Purged(l, p, d, i)
    {
      PurgedStep(l, p, d, i);
      m := Unlinked(m, Addr(p, d, i));
      i := i + 1;
    }
    PurgedAll(l, p, d);
  }

  /** The loop of malloc that fills the empty free list with the blocks of a new arena. */
  method CarveArena(p: nat, d: nat) returns (l: seq<nat>)
    requires d < CLASSES
    ensures l == BlocksOf(p, d, BlocksPerArena(d))
  {
    l := [];
    var i: nat := 0;
    while i < BlocksPerArena(d)
      invariant i <= BlocksPerArena(d) && l == BlocksOf(p, d, i)
    {
      hide Addr, BlocksPerArena;
      l := l + [Addr(p, d, i)];
      assert l == BlocksOf(p, d, i + 1);
      i := i + 1;
    }
  }

  // ----- memory contents -----

  /** memset with 0xcc, which marks freed memory. */
  function Scrubbed(mem: nat -> nat, a: nat, n: nat): (now: nat -> nat)
  {
    (x: nat) => if a <= x < a + n then 0xcc else mem(x)
  }

  /** memcpy. */
  function Copied(mem: nat -> nat, to: nat, from: nat, n: nat): (now: nat -> nat)
  {
    (x: nat) => if to <= x < to + n then mem(x - to + from) else mem(x)
  }

  function Bytes(mem: nat -> nat, a: nat, n: nat): (s: seq<nat>)
  {
    seq(n, i requires i >= 0 => mem(a + i))
  }

  /** The bytes of every held block are the same in both memories. */
  ghost predicate ContentsKept(mem: nat -> nat, now: nat -> nat, ar: Headers, held: Held)
  {
    forall b, x: nat | b in held && InBlock(ar, b, x) :: now(x) == mem(x)
  }

  function Least(a: nat, b: nat): (n: nat)
  {
    if a < b then a else b
  }

  ghost predicate InBlock(ar: Headers, b: nat, x: nat)
  {
    b <= x < b + Capacity(ar, b)
  }

  ghost predicate SameKind(a: Arena, b: Arena)
  {
    match a
    case Small(d, _) => b.Small? && b.desc == d
    case Big(_) => a == b
  }

  /** Arenas that are still there serve the same blocks. */
  ghost predicate KindsKept(ar: Headers, br: Headers)
  {
    forall p | p in ar && p in br :: SameKind(ar[p], br[p])
  }

  class Heap {
    const pages: Allocator
    var freeLists: seq<seq<nat>>
    var arenas: Headers
    var memory: nat -> nat
    ghost var held: Held

    ghost predicate Valid()
      reads this, pages, pages.kernel.usedMap.bits, pages.user.usedMap.bits
    {
      pages.Valid() && Consistent(freeLists, arenas, held) && Backed(arenas, pages.live) && NoneIdle(arenas)
    }

    /** malloc_init over a page allocator that is already set up. */
    constructor (pages: Allocator, memory: nat -> nat)
      requires pages.Valid()
      ensures Valid() && this.pages == pages && held == map[] && pages.live == old(pages.live)
      ensures this.memory == memory
    {
      this.pages := pages;
      freeLists := seq(CLASSES, _ => []);
      arenas := map[];
      this.memory := memory;
      held := map[];
    }

    /** A new block for a size no descriptor serves. */
    method MallocBig(size: nat) returns (r: Option<nat>)
      requires Valid()
      modifies this`arenas, this`held, pages`live, pages.kernel.usedMap.bits, pages.user.usedMap.bits
      ensures Valid() && KindsKept(old(arenas), arenas)
      ensures r.Some? ==> r.value !in old(held) && held == old(held)[r.value := size] && old(arenas).Keys <= arenas.Keys
      ensures r.None? ==> held == old(held) && arenas == old(arenas) && pages.live == old(pages.live)
      ensures r.None? <==> NoRun(old(pages.live), pages.kernel, BigPages(size))
      ensures r.Some? ==> var p := PageOf(r.value);
        arenas == old(arenas)[p := Big(BigPages(size))] && p !in old(pages.live) && pages.live == old(pages.live)[p := BigPages(size)]
    {
      hide Consistent, PageOf, BigPages, FreeRange, Apart, Tracks;
      var n := BigPages(size);
      var a := pages.GetMultiple(false, n);
      if a.None? {
        return None;
      }
      var p := a.value;
      BigAdded(freeLists, arenas, held, p, n, size);
      arenas := arenas[p := Big(n)];
      held := held[p * PGSIZE + HEADER := size];
      FirstByte(p);
      r := Some(p * PGSIZE + HEADER);
    }

    /** Makes sure that a descriptor's free list has a block, with a new arena if need be. */
    method Refill(d: nat) returns (ok: bool)
      requires Valid() && d < CLASSES
      modifies this`arenas, this`freeLists, pages`live, pages.kernel.usedMap.bits, pages.user.usedMap.bits
      ensures pages.Valid() && Consistent(freeLists, arenas, held) && Backed(arenas, pages.live)
      ensures KindsKept(old(arenas), arenas) && old(arenas).Keys <= arenas.Keys
      ensures ok ==> freeLists[d] != [] && NoneIdleBut(arenas, PageOf(freeLists[d][0]))
      ensures !ok ==> NoneIdle(arenas) && arenas == old(arenas) && freeLists == old(freeLists) && pages.live == old(pages.live)
      ensures !ok <==> old(freeLists)[d] == [] && NoRun(old(pages.live), pages.kernel, 1)
      ensures ok && old(freeLists)[d] != [] ==> arenas == old(arenas) && freeLists == old(freeLists) && pages.live == old(pages.live)
      ensures ok && old(freeLists)[d] == [] ==> var p := PageOf(freeLists[d][0]);
        && p !in old(arenas) && arenas == old(arenas)[p := Small(d, BlocksPerArena(d))]
        && p !in old(pages.live) && pages.live == old(pages.live)[p := 1]
    {
      hide OwnedList, Counted, Accounted, HeldAt, PageOf, FreeRange, Apart, Tracks, BlocksPerArena, Addr;
      if freeLists[d] != [] {
        return true;
      }
      var a := pages.GetMultiple(false, 1);
      if a.None? {
        return false;
      }
      var p := a.value;
      ArenaAdded(freeLists, arenas, held, p, d);
      var l := CarveArena(p, d);
      AddrFacts(p, d, 0);
      arenas := arenas[p := Small(d, BlocksPerArena(d))];
      freeLists := freeLists[d := l];
      ok := true;
    }

    /** A block from a descriptor's free list. */
    method MallocSmall(size: nat, d: nat) returns (r: Option<nat>)
      requires Valid() && d < CLASSES && size <= BlockSize(d)
      modifies this`arenas, this`held, this`freeLists, pages`live, pages.kernel.usedMap.bits, pages.user.usedMap.bits
      ensures Valid() && KindsKept(old(arenas), arenas)
      ensures r.Some? ==> r.value !in old(held) && held == old(held)[r.value := size] && old(arenas).Keys <= arenas.Keys
      ensures r.None? ==> held == old(held) && arenas == old(arenas) && freeLists == old(freeLists) && pages.live == old(pages.live)
      ensures r.None? <==> old(freeLists)[d] == [] && NoRun(old(pages.live), pages.kernel, 1)
      ensures r.Some? ==> var p := PageOf(r.value);
        && p in arenas && arenas[p].Small? && arenas[p].desc == d
        && (if old(freeLists)[d] != [] then p in old(arenas) && arenas.Keys == old(arenas).Keys && pages.live == old(pages.live)
            else p !in old(pages.live) && arenas.Keys == old(arenas).Keys + {p} && pages.live == old(pages.live)[p := 1])
    {
      hide Consistent, Backed, NoneIdle, NoneIdleBut, KindsKept, PageOf, BlocksPerArena, BlockSize, NoRun, Apart, Tracks;
      ghost var ar := arenas;
      ListsShape(freeLists, arenas, held);
      var ok := Refill(d);
      if !ok {
        return None;
      }
      ListsShape(freeLists, arenas, held);
      Popped(freeLists, arenas, held, pages.live, d, size);
      var b := freeLists[d][0];
      var p := PageOf(b);
      ghost var br := arenas;
      freeLists := freeLists[d := freeLists[d][1..]];
      arenas := arenas[p := Small(d, arenas[p].freeCnt - 1)];
      KindsChainUp(ar, br, arenas);
      held := held[b := size];
      r := Some(b);
    }

    /** malloc. It fails exactly on a request for nothing and when the class of the size has no free block, or the size
        no class, and the pool has no run of pages for it. A block comes from the class of its size, or from pages of
        its own; the page allocator is asked exactly if there is no free block. */
    method Malloc(size: nat) returns (r: Option<nat>)
      requires Valid()
      modifies this`arenas, this`held, this`freeLists, pages`live, pages.kernel.usedMap.bits, pages.user.usedMap.bits
      ensures Valid() && KindsKept(old(arenas), arenas)
      ensures r.Some? ==>
        size > 0 && r.value !in old(held) && held == old(held)[r.value := size] && old(arenas).Keys <= arenas.Keys
      ensures r.None? ==> held == old(held) && arenas == old(arenas) && freeLists == old(freeLists) && pages.live == old(pages.live)
      ensures r.None? <==>
        size == 0 || (!old(HasFreeBlock(size)) && NoRun(old(pages.live), pages.kernel, PagesNeeded(size)))
      ensures r.Some? ==> PageOf(r.value) in arenas && Serves(arenas[PageOf(r.value)], size)
      ensures r.Some? ==> var p := PageOf(r.value);
        if old(HasFreeBlock(size)) then pages.live == old(pages.live)
        else p !in old(pages.live) && pages.live == old(pages.live)[p := PagesNeeded(size)]
      ensures Others(pages.live, arenas) == old(Others(pages.live, arenas))
    {
      hide Consistent, Backed, NoneIdle, NoRun, KindsKept, PageOf;
      ghost var runs, ar := pages.live, arenas;
      if size == 0 {
        KindsSame(arenas);
        return None;
      }
      ListsShape(freeLists, arenas, held);
      var d := FindClass(size);
      if d == CLASSES {
        r := MallocBig(size);
      } else {
        r := MallocSmall(size, d);
      }
      if r.Some? && pages.live != runs {
        OthersGrown(runs, ar, PageOf(r.value), PagesNeeded(size), arenas);
      }
    }

    /** The class of this size, if it has one, has a block on its free list. */
    ghost predicate HasFreeBlock(size: nat)
      reads this
    {
      |freeLists| == CLASSES && ClassFor(size) < CLASSES && freeLists[ClassFor(size)] != []
    }

    /** Returns a big block's pages. */
    method FreeBig(b: nat)
      requires Valid() && b in held && PageOf(b) in arenas && arenas[PageOf(b)].Big?
      modifies this`arenas, this`held, this`memory, pages`live, pages.kernel.usedMap.bits, pages.user.usedMap.bits
      ensures Valid() && held == old(held) - {b} && KindsKept(old(arenas), arenas)
      ensures ContentsKept(old(memory), memory, arenas, held)
      ensures arenas == old(arenas) - {PageOf(b)} && pages.live == old(pages.live) - {PageOf(b)}
    {
      hide Consistent, PageOf, Apart, Tracks, ContentsKept, Scrubbed;
      var p := PageOf(b);
      BigDropped(freeLists, arenas, held, b);
      ReleasedRun(freeLists, arenas - {p}, held - {b}, pages.live, p, memory);
      memory := Scrubbed(memory, p * PGSIZE, arenas[p].pageCnt * PGSIZE);
      pages.FreeMultiple(Some(p), arenas[p].pageCnt);
      arenas := arenas - {p};
      held := held - {b};
    }

    /** Clears a descriptor's block and puts it on the free list. */
    method PushBlock(b: nat)
      requires Valid() && b in held && PageOf(b) in arenas && arenas[PageOf(b)].Small?
      modifies this`arenas, this`held, this`memory, this`freeLists
      ensures pages.Valid() && Consistent(freeLists, arenas, held) && Backed(arenas, pages.live)
      ensures held == old(held) - {b} && arenas.Keys == old(arenas).Keys && KindsKept(old(arenas), arenas)
      ensures NoneIdleBut(arenas, PageOf(b)) && arenas[PageOf(b)].Small?
      ensures ContentsKept(old(memory), memory, arenas, held)
    {
      hide Consistent, Backed, NoneIdle, NoneIdleBut, PageOf, Apart, Tracks, BlockSize, ContentsKept, Scrubbed, KindsKept;
      Pushed(freeLists, arenas, held, pages.live, b, memory);
      var p := PageOf(b);
      var d := arenas[p].desc;
      memory := Scrubbed(memory, b, BlockSize(d));
      freeLists := freeLists[d := [b] + freeLists[d]];
      arenas := arenas[p := Small(d, arenas[p].freeCnt + 1)];
      held := held - {b};
    }

    /** Gives the page of an arena back if all its blocks are free. */
    method ReleaseIfIdle(p: nat)
      requires pages.Valid() && Consistent(freeLists, arenas, held) && Backed(arenas, pages.live)
      requires p in arenas && arenas[p].Small? && NoneIdleBut(arenas, p)
      modifies this`arenas, this`freeLists, this`memory, pages`live, pages.kernel.usedMap.bits, pages.user.usedMap.bits
      ensures Valid() && KindsKept(old(arenas), arenas) && arenas.Keys <= old(arenas).Keys
      ensures ContentsKept(old(memory), memory, arenas, held)
      ensures if NoneHeldOn(held, p) then arenas == old(arenas) - {p} && pages.live == old(pages.live) - {p}
              else arenas == old(arenas) && pages.live == old(pages.live)
    {
      hide Consistent, Backed, NoneIdle, NoneIdleBut, PageOf, Apart, Tracks, BlocksPerArena, ContentsKept, Scrubbed, KindsKept,
           SlotsOn, Distinct, NoneHeldOn;
      Idle(freeLists, arenas, held, p);
      IdleExactly(freeLists, arenas, held, p);
      var d := arenas[p].desc;
      if arenas[p].freeCnt < BlocksPerArena(d) {
        ContentsSame(memory, arenas, held);
        KindsSame(arenas);
        return;
      }
      var l := UnlinkArena(freeLists[d], p, d);
      Released(freeLists, arenas, held, pages.live, p, memory);
      freeLists := freeLists[d := l];
      memory := Scrubbed(memory, p * PGSIZE, PGSIZE);
      pages.FreeMultiple(Some(p), 1);
      arenas := arenas - {p};
    }

    /** No other block is held in the arena of b. */
    ghost predicate LastOn(b: nat)
      reads this
    {
      NoneHeldOn(held - {b}, PageOf(b))
    }

    /** free. The page allocator gets the pages of the block's arena back exactly if it is the last block held there. */
    method Free(block: Option<nat>)
      requires Valid() && (block.Some? ==> block.value in held)
      modifies this`arenas, this`held, this`freeLists, this`memory, pages`live, pages.kernel.usedMap.bits, pages.user.usedMap.bits
      ensures Valid() && KindsKept(old(arenas), arenas)
      ensures held == if block.Some? then old(held) - {block.value} else old(held)
      ensures ContentsKept(old(memory), memory, arenas, held)
      ensures block.None? ==> arenas == old(arenas) && pages.live == old(pages.live)
      ensures block.Some? ==> var p := PageOf(block.value);
        if old(LastOn(block.value))
        then p in old(pages.live) && arenas.Keys == old(arenas).Keys - {p} && pages.live == old(pages.live) - {p}
        else arenas.Keys == old(arenas).Keys && pages.live == old(pages.live)
      ensures Others(pages.live, arenas) == old(Others(pages.live, arenas))
    {
      hide Lists, Counted, Accounted, PageOf, Backed, ContentsKept, NoneIdle, NoneIdleBut, NoneHeldOn;
      ghost var runs, headers := pages.live, arenas;
      if block.None? {
        ContentsSame(memory, arenas, held);
        return;
      }
      var b := block.value;
      var p := BlockToArena(b);
      BackedAt(headers, runs, p);
      OthersShrunk(runs, headers, p);
      OnlyOnPage(freeLists, arenas, held, b);
      if arenas[p].Big? {
        FreeBig(b);
      } else {
        ghost var ar, mem := arenas, memory;
        PushBlock(b);
        ghost var br, mid := arenas, memory;
        ReleaseIfIdle(p);
        KindsChain(ar, br, arenas);
        ContentsChain(mem, mid, memory, br, arenas, freeLists, held);
      }
    }

    /** realloc. On success the bytes that fit in both blocks are the same, and every other block keeps
        its contents; on failure nothing changes. */
    method Realloc(block: Option<nat>, newSize: nat) returns (r: Option<nat>)
      requires Valid() && (block.Some? ==> block.value in held)
      modifies this`arenas, this`held, this`freeLists, this`memory, pages`live, pages.kernel.usedMap.bits, pages.user.usedMap.bits
      ensures Valid() && KindsKept(old(arenas), arenas)
      ensures newSize == 0 ==> r.None?
      ensures newSize > 0 && r.None? ==> held == old(held) && memory == old(memory)
      ensures r.Some? || newSize == 0 ==>
        var kept := if block.Some? then old(held) - {block.value} else old(held);
        && held == (if r.Some? then kept[r.value := newSize] else kept)
        && ContentsKept(old(memory), memory, arenas, kept)
      ensures r.Some? ==> r.value !in old(held)
      ensures r.Some? && block.Some? ==>
        var n := Least(newSize, Capacity(old(arenas), block.value));
        Bytes(memory, r.value, n) == Bytes(old(memory), block.value, n)
      ensures Others(pages.live, arenas) == old(Others(pages.live, arenas))
    {
      hide Consistent, PageOf, Backed, ContentsKept, NoneIdle, KindsKept, Capacity, Apart, Tracks, Bytes, Others, NoRun, NoneHeldOn;
      if newSize == 0 {
        Free(block);
        return None;
      }
      AllHeld(freeLists, arenas, held);
      r := Malloc(newSize);
      if r.Some? && block.Some? {
        ghost var br := arenas;
        SameCapacity(old(arenas), br, block.value);
        Move(block.value, r.value, newSize);
        KindsChainUp(old(arenas), br, arenas);
        assert held - {r.value} == old(held) - {block.value};
        assert held == (old(held) - {block.value})[r.value := newSize];
      } else if r.Some? {
        ContentsSame(memory, arenas, old(held));
      }
    }

    /** The second half of realloc: copies block b to the new block c and frees b. */
    method Move(b: nat, c: nat, newSize: nat)
      requires Valid() && b in held && c in held && b != c && held[c] == newSize
      modifies this`arenas, this`held, this`freeLists, this`memory, pages`live, pages.kernel.usedMap.bits, pages.user.usedMap.bits
      ensures Valid() && KindsKept(old(arenas), arenas) && held == old(held) - {b}
      ensures ContentsKept(old(memory), memory, arenas, held - {c})
      ensures var n := Least(newSize, Capacity(old(arenas), b)); Bytes(memory, c, n) == Bytes(old(memory), b, n)
      ensures Others(pages.live, arenas) == old(Others(pages.live, arenas))
    {
      hide Others, NoneHeldOn;
      hide OwnedList, Counted, Accounted, PageOf, Backed, ContentsKept, NoneIdle, KindsKept, Copied, Capacity, Apart, Tracks, Bytes;
      assert HeldAt(freeLists, arenas, c, held[c]);
      HeldInside(freeLists, arenas, c, newSize);
      hide HeldAt;
      ghost var fl, br, h, runs, mem := freeLists, arenas, held, pages.live, memory;
      var minSize := Least(newSize, Capacity(arenas, b));
      memory := Copied(memory, c, b, minSize);
      Free(Some(b));
      OthersAfterCopy(fl, br, h, runs, b, c, minSize, mem, freeLists, arenas, memory);
      BytesAfterCopy(fl, br, h, b, c, minSize, mem, freeLists, arenas, memory);
    }

    /** block_to_arena, whose assertions hold of every block in a caller's hands. */
    method BlockToArena(b: nat) returns (p: nat)
      requires Valid() && b in held
      ensures p == PageOf(b) && p in arenas
      ensures arenas[p].Small? ==> arenas[p].desc < CLASSES && b % PGSIZE >= HEADER
                                   && (b % PGSIZE - HEADER) % BlockSize(arenas[p].desc) == 0
      ensures arenas[p].Big? ==> b % PGSIZE == HEADER
    {
      assert HeldAt(freeLists, arenas, b, held[b]);
      p := PageOf(b);
    }
  }

  /** malloc and then free of what it gave: the page allocator has what it had. */
  method MallocAndFree(heap: Heap, size: nat)
    requires heap.Valid()
    modifies heap, heap.pages`live, heap.pages.kernel.usedMap.bits, heap.pages.user.usedMap.bits
    ensures heap.Valid() && heap.held == old(heap.held) && heap.pages.live == old(heap.pages.live)
  {
    hide Consistent, Backed, NoneIdle, KindsKept, PageOf, Others, NoRun, NoneHeldOn, ContentsKept, Serves;
    ghost var runs, ar := heap.pages.live, heap.arenas;
    NoneIdleHeld(heap.freeLists, heap.arenas, heap.held);
    var r := heap.Malloc(size);
    if r.Some? {
      ghost var br := heap.arenas;
      heap.Free(r);
      assert heap.held == old(heap.held);
      NoneIdleHeld(heap.freeLists, heap.arenas, heap.held);
      KindsChainUp(ar, br, heap.arenas);
      RunsDetermined(runs, ar, heap.pages.live, heap.arenas);
    }
  }

  // ----- which pages malloc has -----

  /** The runs that the page allocator has handed out to others. */
  ghost function Others(runs: Runs, ar: Headers): (r: Runs)
  {
    runs - ar.Keys
  }

  ghost predicate NoneHeldOn(held: Held, p: nat)
  {
    forall b | b in held :: PageOf(b) != p
  }

  /** The arena has blocks of the class of this size, or is one block of as many pages as this size takes. */
  predicate Serves(a: Arena, size: nat)
  {
    if ClassFor(size) < CLASSES then a.Small? && a.desc == ClassFor(size) else a == Big(BigPages(size))
  }

  lemma ListsShape(fl: seq<seq<nat>>, ar: Headers, held: Held)
    requires Consistent(fl, ar, held)
    ensures |fl| == CLASSES
  {
  }

  lemma FirstByte(p: nat)
    ensures PageOf(p * PGSIZE + HEADER) == p
  {
  }

  lemma BackedAt(ar: Headers, runs: Runs, p: nat)
    requires Backed(ar, runs) && p in ar
    ensures p in runs && runs[p] == ar[p].Pages()
  {
  }

  lemma OthersGrown(runs: Runs, ar: Headers, p: nat, n: nat, br: Headers)
    requires p !in runs && br.Keys == ar.Keys + {p}
    ensures Others(runs[p := n], br) == Others(runs, ar)
  {
  }

  lemma OthersShrunk(runs: Runs, ar: Headers, p: nat)
    requires p in ar
    ensures forall br: Headers | br.Keys == ar.Keys - {p} :: Others(runs - {p}, br) == Others(runs, ar)
    ensures forall br: Headers | br.Keys == ar.Keys :: Others(runs, br) == Others(runs, ar)
  {
  }

  /** The block of a big arena is the only one on its page. */
  lemma OnlyOnPage(fl: seq<seq<nat>>, ar: Headers, held: Held, b: nat)
    requires Consistent(fl, ar, held) && b in held && PageOf(b) in ar
    ensures ar[PageOf(b)].Big? ==> NoneHeldOn(held - {b}, PageOf(b))
  {
    hide OwnedList, Counted, Accounted, PageOf;
    assert HeldAt(fl, ar, b, held[b]);
    forall c | c in held - {b} && ar[PageOf(b)].Big? ensures PageOf(c) != PageOf(b) {
      assert HeldAt(fl, ar, c, held[c]);
    }
  }

  /** An arena is entirely free exactly if no block of it is held. */
  lemma IdleExactly(fl: seq<seq<nat>>, ar: Headers, held: Held, p: nat)
    requires Consistent(fl, ar, held) && p in ar && ar[p].Small?
    ensures ar[p].desc < CLASSES && (ar[p].freeCnt >= BlocksPerArena(ar[p].desc) <==> NoneHeldOn(held, p))
  {
    assert Counted(fl, p, ar[p]) && Accounted(fl, held, p, ar[p]);
    var d := ar[p].desc;
    hide OwnedList, BlocksPerArena, Addr, PageOf, IsSlot;
    if ar[p].freeCnt >= BlocksPerArena(d) {
      CountBound(fl, ar, held, p);
      FullArena(fl, p, ar[p]);
      forall b | b in held ensures PageOf(b) != p {
        NotFree(fl, ar, b, held[b]);
      }
    }
    if NoneHeldOn(held, p) {
      forall i: nat | i < BlocksPerArena(d) ensures Addr(p, d, i) in fl[d] {
        AddrFacts(p, d, i);
      }
      CardinalityBelow(FreeIndexes(fl[d], p, d), BlocksPerArena(d));
    }
  }

  lemma NotFree(fl: seq<seq<nat>>, ar: Headers, b: nat, size: nat)
    requires |fl| == CLASSES && HeldAt(fl, ar, b, size)
    ensures var p := PageOf(b); ar[p].Small? ==>
      var d := ar[p].desc; d < CLASSES && exists i: nat :: i < BlocksPerArena(d) && b == Addr(p, d, i) && Addr(p, d, i) !in fl[d]
  {
    var p := PageOf(b);
    if ar[p].Small? {
      SlotAddr(b, ar[p].desc);
    }
  }

  /** Arenas are exactly the pages of held blocks. */
  lemma NoneIdleHeld(fl: seq<seq<nat>>, ar: Headers, held: Held)
    requires Consistent(fl, ar, held) && NoneIdle(ar)
    ensures forall p: nat :: p in ar <==> !NoneHeldOn(held, p)
  {
    hide OwnedList, Counted, PageOf, BlocksPerArena;
    AllHeld(fl, ar, held);
    forall p: nat | p in ar ensures !NoneHeldOn(held, p) {
      if ar[p].Small? {
        IdleExactly(fl, ar, held, p);
      } else {
        assert Accounted(fl, held, p, ar[p]);
        FirstByte(p);
      }
    }
  }

  /** What others have and the kinds of the arenas say what the page allocator has handed out. */
  lemma RunsDetermined(runs: Runs, ar: Headers, now: Runs, br: Headers)
    requires Backed(ar, runs) && Backed(br, now) && KindsKept(ar, br) && Others(runs, ar) == Others(now, br)
    requires forall p: nat :: p in ar <==> p in br
    ensures now == runs
  {
    forall p: nat ensures (p in now <==> p in runs) && (p in runs ==> now[p] == runs[p]) {
      if p in ar {
        assert SameKind(ar[p], br[p]);
      } else {
        assert p in Others(runs, ar) <==> p in runs;
        assert p in Others(now, br) <==> p in now;
      }
    }
  }

  // ----- lemmas about contents -----

  lemma ContentsSame(mem: nat -> nat, ar: Headers, held: Held)
    ensures ContentsKept(mem, mem, ar, held)
  {
  }

  lemma KindsChain(ar: Headers, br: Headers, cr: Headers)
    requires KindsKept(ar, br) && KindsKept(br, cr) && cr.Keys <= br.Keys
    ensures KindsKept(ar, cr)
  {
  }

  lemma AllHeld(fl: seq<seq<nat>>, ar: Headers, held: Held)
    requires Consistent(fl, ar, held)
    ensures forall b | b in held :: PageOf(b) in ar
  {
    forall b | b in held ensures PageOf(b) in ar {
      assert HeldAt(fl, ar, b, held[b]);
    }
  }

  lemma KindsChainUp(ar: Headers, br: Headers, cr: Headers)
    requires KindsKept(ar, br) && KindsKept(br, cr) && ar.Keys <= br.Keys
    ensures KindsKept(ar, cr)
  {
  }

  lemma SameCapacity(ar: Headers, br: Headers, b: nat)
    requires KindsKept(ar, br) && PageOf(b) in ar && PageOf(b) in br
    ensures Capacity(ar, b) == Capacity(br, b)
  {
    hide PageOf;
    assert SameKind(ar[PageOf(b)], br[PageOf(b)]);
  }

  lemma CapacityKept(ar: Headers, br: Headers, b: nat, x: nat)
    requires KindsKept(ar, br) && PageOf(b) in ar && PageOf(b) in br
    ensures InBlock(ar, b, x) <==> InBlock(br, b, x)
  {
    hide PageOf;
    assert SameKind(ar[PageOf(b)], br[PageOf(b)]);
  }

  lemma ContentsChain(mem: nat -> nat, mid: nat -> nat, now: nat -> nat, br: Headers, cr: Headers,
                      fl: seq<seq<nat>>, held: Held)
    requires ContentsKept(mem, mid, br, held) && ContentsKept(mid, now, cr, held)
    requires KindsKept(br, cr) && cr.Keys <= br.Keys && Consistent(fl, cr, held)
    ensures ContentsKept(mem, now, cr, held)
  {
    hide OwnedList, Counted, Accounted, PageOf, InBlock, KindsKept;
    forall b, x: nat | b in held && InBlock(cr, b, x) ensures now(x) == mem(x) {
      assert HeldAt(fl, cr, b, held[b]);
      CapacityKept(br, cr, b, x);
    }
  }

  /** The copy and the free that end realloc leave the other blocks alone. */
  lemma OthersAfterCopy(fl: seq<seq<nat>>, br: Headers, h: Held, runs: Runs, b: nat, c: nat, n: nat, mem: nat -> nat,
                        gl: seq<seq<nat>>, cr: Headers, now: nat -> nat)
    requires Consistent(fl, br, h) && Backed(br, runs) && Apart(runs) && c in h && n <= Capacity(br, c)
    requires Consistent(gl, cr, h - {b}) && KindsKept(br, cr) && ContentsKept(Copied(mem, c, b, n), now, cr, h - {b})
    ensures ContentsKept(mem, now, cr, h - {b} - {c})
  {
    hide OwnedList, Counted, Accounted, PageOf, InBlock, KindsKept, Backed, Apart, Capacity;
    forall e, x: nat | e in h - {b} - {c} && InBlock(cr, e, x) ensures now(x) == mem(x) {
      assert now(x) == Copied(mem, c, b, n)(x);
      assert HeldAt(gl, cr, e, h[e]) && HeldAt(fl, br, e, h[e]);
      CapacityKept(br, cr, e, x);
      NotInOther(fl, br, h, runs, e, c, x);
    }
  }

  /** The bytes copied are there afterwards. */
  lemma BytesAfterCopy(fl: seq<seq<nat>>, br: Headers, h: Held, b: nat, c: nat, n: nat, mem: nat -> nat,
                       gl: seq<seq<nat>>, cr: Headers, now: nat -> nat)
    requires Consistent(fl, br, h) && c in h && b != c && n <= Capacity(br, c)
    requires Consistent(gl, cr, h - {b}) && KindsKept(br, cr) && ContentsKept(Copied(mem, c, b, n), now, cr, h - {b})
    ensures Bytes(now, c, n) == Bytes(mem, b, n)
  {
    hide Consistent, PageOf, KindsKept, Capacity;
    AllHeld(fl, br, h);
    AllHeld(gl, cr, h - {b});
    forall k: nat | k < n ensures Bytes(now, c, n)[k] == Bytes(mem, b, n)[k] {
      CapacityKept(br, cr, c, c + k);
      assert InBlock(cr, c, c + k);
      assert now(c + k) == Copied(mem, c, b, n)(c + k) == mem(b + k);
    }
  }

  lemma NotInOther(fl: seq<seq<nat>>, ar: Headers, held: Held, runs: Runs, b: nat, c: nat, x: nat)
    requires Consistent(fl, ar, held) && Backed(ar, runs) && Apart(runs) && b in held && c in held && b != c
    requires InBlock(ar, b, x)
    ensures !(c <= x < c + Capacity(ar, c))
  {
    hide Consistent, Backed, Apart, PageOf;
    HeldBlocksApart(fl, ar, held, runs, b, c);
  }

  lemma IdleSlots(fl: seq<seq<nat>>, ar: Headers, p: nat, d: nat)
    requires Lists(fl, ar) && d < CLASSES
    ensures Distinct(fl[d]) && SlotsOn(fl[d], p, d)
  {
    hide IsSlot;
    assert OwnedList(ar, fl[d], d);
    forall x | x in fl[d] ensures IsSlot(x, d) {
      assert Owned(ar, x, d);
    }
  }

  lemma OffRun(fl: seq<seq<nat>>, ar: Headers, held: Held, runs: Runs, p: nat, b: nat, x: nat)
    requires Consistent(fl, ar, held) && Backed(ar, runs) && Apart(runs) && p in runs && p !in ar
    requires b in held && InBlock(ar, b, x)
    ensures !(p * PGSIZE <= x < p * PGSIZE + runs[p] * PGSIZE)
  {
    hide OwnedList, Counted, Accounted, PageOf, Capacity;
    assert HeldAt(fl, ar, b, held[b]);
    HeldInside(fl, ar, b, held[b]);
    var q: nat := PageOf(b);
    assert p + runs[p] <= q || q + runs[q] <= p;
  }

  /** Overwriting pages that hold no arena leaves the contents of every block alone. */
  lemma ReleasedRun(fl: seq<seq<nat>>, ar: Headers, held: Held, runs: Runs, p: nat, mem: nat -> nat)
    requires Consistent(fl, ar, held) && Backed(ar, runs) && Apart(runs) && p in runs && p !in ar
    ensures ContentsKept(mem, Scrubbed(mem, p * PGSIZE, runs[p] * PGSIZE), ar, held)
  {
    hide OwnedList, Counted, Accounted, PageOf, Capacity, HeldAt, InBlock, Apart, Backed;
    forall b, x: nat | b in held && InBlock(ar, b, x) ensures !(p * PGSIZE <= x < p * PGSIZE + runs[p] * PGSIZE) {
      OffRun(fl, ar, held, runs, p, b, x);
    }
  }

  /** What free knows of an arena after putting a block back. */
  lemma Idle(fl: seq<seq<nat>>, ar: Headers, held: Held, p: nat)
    requires Consistent(fl, ar, held) && p in ar && ar[p].Small? && NoneIdleBut(ar, p)
    ensures var d := ar[p].desc;
      && d < CLASSES && |fl| == CLASSES
      && (ar[p].freeCnt < BlocksPerArena(d) ==> NoneIdle(ar))
      && (ar[p].freeCnt >= BlocksPerArena(d) ==>
            && ar[p].freeCnt == BlocksPerArena(d) && Distinct(fl[d]) && SlotsOn(fl[d], p, d)
            && forall i: nat | i < BlocksPerArena(d) :: Addr(p, d, i) in fl[d])
  {
    hide OwnedList, BlocksPerArena, Addr, Distinct, SlotsOn;
    assert Counted(fl, p, ar[p]);
    if ar[p].freeCnt >= BlocksPerArena(ar[p].desc) {
      FullArena(fl, p, ar[p]);
      IdleSlots(fl, ar, p, ar[p].desc);
    }
  }

  /** Freeing the page of an arena with no held blocks. */
  lemma Released(fl: seq<seq<nat>>, ar: Headers, held: Held, runs: Runs, p: nat, mem: nat -> nat)
    requires Consistent(fl, ar, held) && Backed(ar, runs) && Apart(runs) && NoneIdleBut(ar, p)
    requires p in ar && ar[p].Small? && ar[p].desc < CLASSES && ar[p].freeCnt >= BlocksPerArena(ar[p].desc)
    ensures var d := ar[p].desc; var gl := fl[d := OffPage(fl[d], p)];
      && p in runs && runs[p] == 1
      && Consistent(gl, ar - {p}, held) && Backed(ar - {p}, runs - {p}) && NoneIdle(ar - {p}) && KindsKept(ar, ar - {p})
      && ContentsKept(mem, Scrubbed(mem, p * PGSIZE, PGSIZE), ar - {p}, held)
  {
    hide OwnedList, Counted, Accounted, HeldAt, PageOf, Apart, ContentsKept, Scrubbed, OffPage, BlocksPerArena;
    ArenaDropped(fl, ar, held, p);
    var d := ar[p].desc;
    ReleasedRun(fl[d := OffPage(fl[d], p)], ar - {p}, held, runs, p, mem);
  }

  /** Taking the first block of a free list. */
  lemma Popped(fl: seq<seq<nat>>, ar: Headers, held: Held, runs: Runs, d: nat, size: nat)
    requires Consistent(fl, ar, held) && Backed(ar, runs) && d < CLASSES && |fl| == CLASSES && fl[d] != []
    requires NoneIdleBut(ar, PageOf(fl[d][0])) && size <= BlockSize(d)
    ensures var b := fl[d][0]; var p := PageOf(b);
      && b !in held && p in ar && ar[p].Small? && ar[p].desc == d && ar[p].freeCnt > 0
      && var br := ar[p := Small(d, ar[p].freeCnt - 1)];
      && Consistent(fl[d := fl[d][1..]], br, held[b := size]) && Backed(br, runs) && NoneIdle(br) && KindsKept(ar, br)
  {
    hide OwnedList, Counted, Accounted, HeldAt, PageOf, BlocksPerArena, Addr, BlockSize, IsSlot;
    BlockTaken(fl, ar, held, d, size);
    CountBound(fl, ar, held, PageOf(fl[d][0]));
  }

  /** Putting a held block back on its free list. */
  lemma Pushed(fl: seq<seq<nat>>, ar: Headers, held: Held, runs: Runs, b: nat, mem: nat -> nat)
    requires Consistent(fl, ar, held) && Backed(ar, runs) && Apart(runs) && NoneIdle(ar)
    requires b in held && PageOf(b) in ar && ar[PageOf(b)].Small?
    ensures var p := PageOf(b); var d := ar[p].desc;
      && d < CLASSES && |fl| == CLASSES
      && var br := ar[p := Small(d, ar[p].freeCnt + 1)];
      && Consistent(fl[d := [b] + fl[d]], br, held - {b}) && Backed(br, runs) && NoneIdleBut(br, p)
      && br.Keys == ar.Keys && KindsKept(ar, br)
      && ContentsKept(mem, Scrubbed(mem, b, BlockSize(d)), br, held - {b})
  {
    hide OwnedList, Counted, Accounted, HeldAt, PageOf, Apart, ContentsKept, Scrubbed, BlocksPerArena, BlockSize;
    var p := PageOf(b);
    BlockReturned(fl, ar, held, b);
    var d := ar[p].desc;
    ClearedBlock(fl, ar, held, runs, b, mem, ar[p := Small(d, ar[p].freeCnt + 1)]);
  }

  /** Overwriting one block leaves the contents of the others alone. */
  lemma ClearedBlock(fl: seq<seq<nat>>, ar: Headers, held: Held, runs: Runs, b: nat, mem: nat -> nat, br: Headers)
    requires Consistent(fl, ar, held) && Backed(ar, runs) && Apart(runs) && b in held && PageOf(b) in ar
    requires ar[PageOf(b)].Small? && ar[PageOf(b)].desc < CLASSES && ar.Keys == br.Keys && KindsKept(ar, br)
    ensures ContentsKept(mem, Scrubbed(mem, b, BlockSize(ar[PageOf(b)].desc)), br, held - {b})
  {
    hide OwnedList, Counted, Accounted, PageOf, KindsKept, HeldAt, Backed, Apart;
    forall c, x: nat | c in held - {b} && InBlock(br, c, x) ensures !(b <= x < b + Capacity(ar, b)) {
      HeldBlocksApart(fl, ar, held, runs, b, c);
      CapacityKept(ar, br, c, x);
    }
  }

  lemma KindsSame(ar: Headers)
    ensures KindsKept(ar, ar)
  {
  }

  function PagesNeeded(size: nat): (n: nat)
  {
    if ClassFor(size) < CLASSES then 1 else BigPages(size)
  }

  /** The pool has no run of n free pages. */
  ghost predicate NoRun(live: Runs, pool: Pool, n: nat)
  {
    forall s: nat | pool.Has(s, n) :: !FreeRange(live, s, n)
  }

  ghost predicate NoneIdleBut(ar: Headers, p: nat)
  {
    forall q | q in ar && q != p && ar[q].Small? :: ar[q].desc < CLASSES && ar[q].freeCnt < BlocksPerArena(ar[q].desc)
  }

  lemma CountBound(fl: seq<seq<nat>>, ar: Headers, held: Held, p: nat)
    requires Consistent(fl, ar, held) && p in ar && ar[p].Small?
    ensures ar[p].desc < CLASSES && ar[p].freeCnt <= BlocksPerArena(ar[p].desc)
  {
    assert Counted(fl, p, ar[p]);
    BelowCardinality(FreeIndexes(fl[ar[p].desc], p, ar[p].desc), BlocksPerArena(ar[p].desc));
  }
}
