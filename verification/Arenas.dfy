/** The state of malloc as values: free lists, arena headers and the blocks callers hold, the invariant
    that ties them together, and how each step of malloc and free keeps it (src/threads/malloc.c). */
module Arenas {
  import opened PageAllocator
  import opened Blocks
  import opened Sequences

  /** An arena header: the owning descriptor and its free blocks, or the pages of one big block. */
  datatype Arena = Small(desc: nat, freeCnt: nat) | Big(pageCnt: nat) {
    function Pages(): (n: nat)
    {
      if Small? then 1 else pageCnt
    }
  }

  /** Arena headers by page, and blocks in callers' hands with the size asked for. */
  type Headers = map<nat, Arena>
  type Held = map<nat, nat>

  /** Indexes of the blocks of page p that are on list l. */
  ghost function FreeIndexes(l: seq<nat>, p: nat, d: nat): (s: set<nat>)
    requires d < CLASSES
  {
    set i: nat | i < BlocksPerArena(d) && Addr(p, d, i) in l
  }

  ghost predicate Owned(ar: Headers, b: nat, d: nat)
    requires d < CLASSES
  {
    PageOf(b) in ar && ar[PageOf(b)].Small? && ar[PageOf(b)].desc == d && IsSlot(b, d)
  }

  ghost predicate OwnedList(ar: Headers, l: seq<nat>, d: nat)
    requires d < CLASSES
  {
    Distinct(l) && forall b | b in l :: Owned(ar, b, d)
  }

  ghost predicate Lists(fl: seq<seq<nat>>, ar: Headers)
  {
    |fl| == CLASSES && forall d | 0 <= d < CLASSES :: OwnedList(ar, fl[d], d)
  }

  ghost predicate Counted(fl: seq<seq<nat>>, p: nat, a: Arena)
    requires |fl| == CLASSES
  {
    a.Small? ==> a.desc < CLASSES && a.freeCnt == |FreeIndexes(fl[a.desc], p, a.desc)|
  }

  /** Every block of an arena is free or held. */
  ghost predicate Accounted(fl: seq<seq<nat>>, held: Held, p: nat, a: Arena)
    requires |fl| == CLASSES
  {
    match a
    case Small(d, _) => d < CLASSES && forall i: nat | i < BlocksPerArena(d) :: Addr(p, d, i) in fl[d] || Addr(p, d, i) in held
    case Big(_) => p * PGSIZE + HEADER in held
  }

  /** A held block is big enough, properly placed in its arena and not free. */
  ghost predicate HeldAt(fl: seq<seq<nat>>, ar: Headers, b: nat, size: nat)
    requires |fl| == CLASSES
  {
    && PageOf(b) in ar
    && match ar[PageOf(b)]
       case Small(d, _) => d < CLASSES && IsSlot(b, d) && b !in fl[d] && size <= BlockSize(d)
       case Big(n) => b == PageOf(b) * PGSIZE + HEADER && size + HEADER <= n * PGSIZE
  }

  ghost predicate Backed(ar: Headers, runs: Runs)
  {
    forall p | p in ar :: p in runs && runs[p] == ar[p].Pages()
  }

  ghost predicate Consistent(fl: seq<seq<nat>>, ar: Headers, held: Held)
  {
    && Lists(fl, ar)
    && (forall p | p in ar :: Counted(fl, p, ar[p]) && Accounted(fl, held, p, ar[p]))
    && (forall b | b in held :: HeldAt(fl, ar, b, held[b]))
  }

  /** No arena is entirely unused. */
  ghost predicate NoneIdle(ar: Headers)
  {
    forall p | p in ar && ar[p].Small? :: ar[p].desc < CLASSES && ar[p].freeCnt < BlocksPerArena(ar[p].desc)
  }

  // ----- capacity and disjointness -----

  /** block_size: the bytes available in a held block. */
  function Capacity(ar: Headers, b: nat): (n: nat)
  {
    if PageOf(b) !in ar then 0 else
    match ar[PageOf(b)]
    case Small(d, _) => if d < CLASSES then BlockSize(d) else 0
    case Big(n) => if n * PGSIZE >= b % PGSIZE then n * PGSIZE - b % PGSIZE else 0
  }

  /** A held block can take what was asked for and lies within the pages of its arena, past the header. */
  lemma HeldInside(fl: seq<seq<nat>>, ar: Headers, b: nat, size: nat)
    requires |fl| == CLASSES && HeldAt(fl, ar, b, size)
    ensures size <= Capacity(ar, b)
    ensures PageOf(b) * PGSIZE + HEADER <= b && b + Capacity(ar, b) <= (PageOf(b) + ar[PageOf(b)].Pages()) * PGSIZE
  {
    match ar[PageOf(b)] {
      case Small(d, _) =>
        SlotAddr(b, d);
        AddrFacts(PageOf(b), d, IndexOf(b, d));
      case Big(n) =>
        assert b % PGSIZE == HEADER;
    }
  }

  lemma SamePageApart(fl: seq<seq<nat>>, ar: Headers, held: Held, b: nat, c: nat)
    requires Consistent(fl, ar, held) && b in held && c in held && b < c && PageOf(b) == PageOf(c)
    ensures b + Capacity(ar, b) <= c
  {
    hide IsSlot, OwnedList, Counted, Accounted;
    assert HeldAt(fl, ar, b, held[b]) && HeldAt(fl, ar, c, held[c]);
    var p := PageOf(b);
    match ar[p] {
      case Small(d, _) =>
        hide BlocksPerArena, BlockSize;
        SlotAddr(b, d);
        SlotAddr(c, d);
        var i, j := IndexOf(b, d), IndexOf(c, d);
        if j < i {
          BlocksApart(p, d, j, i);
        } else {
          hide Addr;
          assert i != j;
          BlocksApart(p, d, i, j);
        }
      case Big(_) =>
    }
  }

  /** Blocks in callers' hands never overlap, counting all the bytes block_size grants them. */
  lemma HeldBlocksApart(fl: seq<seq<nat>>, ar: Headers, held: Held, runs: Runs, b: nat, c: nat)
    requires Consistent(fl, ar, held) && Backed(ar, runs) && Apart(runs)
    requires b in held && c in held && b != c
    ensures HeldAt(fl, ar, b, held[b]) && HeldAt(fl, ar, c, held[c])
    ensures b + Capacity(ar, b) <= c || c + Capacity(ar, c) <= b
  {
    assert HeldAt(fl, ar, b, held[b]) && HeldAt(fl, ar, c, held[c]);
    if PageOf(b) == PageOf(c) {
      if b < c {
        SamePageApart(fl, ar, held, b, c);
      } else {
        SamePageApart(fl, ar, held, c, b);
      }
    } else {
      hide Capacity, HeldAt, Consistent;
      HeldInside(fl, ar, b, held[b]);
      HeldInside(fl, ar, c, held[c]);
      var p, q := PageOf(b), PageOf(c);
      assert p + ar[p].Pages() <= q || q + ar[q].Pages() <= p;
    }
  }

  // ----- lists -----

  lemma SameIndexes(l: seq<nat>, m: seq<nat>, p: nat, d: nat)
    requires d < CLASSES
    requires forall i: nat | i < BlocksPerArena(d) :: Addr(p, d, i) in l <==> Addr(p, d, i) in m
    ensures FreeIndexes(l, p, d) == FreeIndexes(m, p, d)
  {
  }

  lemma IndexesGain(l: seq<nat>, m: seq<nat>, p: nat, d: nat, i: nat)
    requires d < CLASSES && i < BlocksPerArena(d) && Addr(p, d, i) !in l && Addr(p, d, i) in m
    requires forall x | x != Addr(p, d, i) :: x in l <==> x in m
    ensures FreeIndexes(m, p, d) == FreeIndexes(l, p, d) + {i} && i !in FreeIndexes(l, p, d)
  {
    forall j: nat | j < BlocksPerArena(d) && j != i ensures Addr(p, d, j) != Addr(p, d, i) {
      AddrFacts(p, d, i);
      AddrFacts(p, d, j);
    }
  }

  lemma BelowCardinality(s: set<nat>, n: nat)
    requires forall i | i in s :: i < n
    ensures |s| <= n && (|s| == n ==> forall i: nat | i < n :: i in s)
    decreases n
  {
    if n == 0 {
      assert s == {};
    } else {
      var t := s - {n - 1};
      BelowCardinality(t, n - 1);
      if n - 1 in s {
        assert s == t + {n - 1};
      } else {
        assert s == t;
      }
    }
  }

  /** An arena whose count reaches the number of its blocks has them all on the free list. */
  lemma FullArena(fl: seq<seq<nat>>, p: nat, a: Arena)
    requires |fl| == CLASSES && a.Small? && Counted(fl, p, a) && a.freeCnt >= BlocksPerArena(a.desc)
    ensures a.freeCnt == BlocksPerArena(a.desc)
    ensures forall i: nat | i < BlocksPerArena(a.desc) :: Addr(p, a.desc, i) in fl[a.desc]
  {
    BelowCardinality(FreeIndexes(fl[a.desc], p, a.desc), BlocksPerArena(a.desc));
    forall i: nat | i < BlocksPerArena(a.desc) ensures Addr(p, a.desc, i) in fl[a.desc] {
      assert i in FreeIndexes(fl[a.desc], p, a.desc);
    }
  }

  // ----- steps that touch one page -----

  ghost predicate SameOffPage(l: seq<nat>, m: seq<nat>, p: nat)
  {
    forall x | PageOf(x) != p :: x in l <==> x in m
  }

  ghost predicate HeadersOffPage(ar: Headers, br: Headers, p: nat)
  {
    forall q | q != p :: (q in ar <==> q in br) && (q in ar ==> ar[q] == br[q])
  }

  ghost predicate HeldOffPage(held: Held, now: Held, p: nat)
  {
    forall x | PageOf(x) != p :: (x in held <==> x in now) && (x in held ==> held[x] == now[x])
  }

  lemma OtherPage(fl: seq<seq<nat>>, d: nat, m: seq<nat>, held: Held, now: Held, p: nat, q: nat, a: Arena)
    requires |fl| == CLASSES && d < CLASSES && q != p
    requires SameOffPage(fl[d], m, p) && HeldOffPage(held, now, p)
    requires Counted(fl, q, a) && Accounted(fl, held, q, a)
    ensures Counted(fl[d := m], q, a) && Accounted(fl[d := m], now, q, a)
  {
    hide Addr, BlocksPerArena, IsSlot;
    match a {
      case Small(e, _) =>
        forall i: nat | i < BlocksPerArena(e) ensures PageOf(Addr(q, e, i)) != p {
          AddrFacts(q, e, i);
        }
        SameIndexes(fl[e], fl[d := m][e], q, e);
      case Big(_) =>
        assert PageOf(q * PGSIZE + HEADER) == q;
    }
  }

  lemma OtherList(fl: seq<seq<nat>>, ar: Headers, br: Headers, p: nat, d: nat, e: nat)
    requires Lists(fl, ar) && HeadersOffPage(ar, br, p) && d < CLASSES && e < CLASSES && e != d
    requires p in ar && ar[p].Small? ==> ar[p].desc == d
    ensures OwnedList(br, fl[e], e)
  {
    hide IsSlot, PageOf, BlocksPerArena;
    assert OwnedList(ar, fl[e], e);
    forall b | b in fl[e] ensures Owned(br, b, e) {
      assert Owned(ar, b, e);
    }
  }

  /** A step keeps the invariant if it touches the blocks of one page and leaves that page in order. */
  lemma PageStep(fl: seq<seq<nat>>, ar: Headers, held: Held, p: nat, d: nat, m: seq<nat>, br: Headers, now: Held)
    requires Consistent(fl, ar, held) && d < CLASSES
    requires SameOffPage(fl[d], m, p) && HeadersOffPage(ar, br, p) && HeldOffPage(held, now, p)
    requires p in ar && ar[p].Small? ==> ar[p].desc == d
    requires OwnedList(br, m, d)
    requires p in br ==> Counted(fl[d := m], p, br[p]) && Accounted(fl[d := m], now, p, br[p])
    requires forall b | b in now && PageOf(b) == p :: HeldAt(fl[d := m], br, b, now[b])
    ensures Consistent(fl[d := m], br, now)
  {
    var gl := fl[d := m];
    assert Lists(gl, br) by {
      hide OwnedList, IsSlot;
      forall e | 0 <= e < CLASSES ensures OwnedList(br, gl[e], e) {
        if e != d {
          OtherList(fl, ar, br, p, d, e);
        }
      }
    }
    forall q | q in br ensures Counted(gl, q, br[q]) && Accounted(gl, now, q, br[q]) {
      if q != p {
        hide Counted, Accounted, SameOffPage, HeldOffPage;
        OtherPage(fl, d, m, held, now, p, q, ar[q]);
      }
    }
    forall b | b in now ensures HeldAt(gl, br, b, now[b]) {
      hide Counted, Accounted, IsSlot, PageOf;
      if PageOf(b) != p {
        assert HeldAt(fl, ar, b, held[b]);
      }
    }
  }

  // ----- the steps of malloc and free -----

  /** The blocks of a new arena, in the order they join the free list. */
  function BlocksOf(p: nat, d: nat, n: nat): (l: seq<nat>)
    requires d < CLASSES
    ensures |l| == n && forall i: nat | i < n :: l[i] == Addr(p, d, i)
  {
    seq(n, i requires 0 <= i < n => Addr(p, d, i))
  }

  lemma NewBlocks(p: nat, d: nat)
    requires d < CLASSES
    ensures var l := BlocksOf(p, d, BlocksPerArena(d));
      Distinct(l) && (forall b | b in l :: PageOf(b) == p && IsSlot(b, d)) && |FreeIndexes(l, p, d)| == BlocksPerArena(d)
  {
    var n := BlocksPerArena(d);
    var l := BlocksOf(p, d, n);
    hide Addr, BlocksPerArena, IsSlot, PageOf, BlocksOf;
    forall i: nat | i < n ensures PageOf(l[i]) == p && IsSlot(l[i], d) && IndexOf(l[i], d) == i {
      AddrFacts(p, d, i);
    }
    forall i: nat | i < n ensures i in FreeIndexes(l, p, d) {
      assert l[i] == Addr(p, d, i);
    }
    CardinalityBelow(FreeIndexes(l, p, d), n);
  }

  lemma {:induction false} CardinalityBelow(s: set<nat>, n: nat)
    requires forall i | i in s :: i < n
    requires forall i: nat | i < n :: i in s
    ensures |s| == n
  {
    if n > 0 {
      CardinalityBelow(s - {n - 1}, n - 1);
    }
  }

  /** A fresh page becomes an arena of free blocks. */
  lemma ArenaAdded(fl: seq<seq<nat>>, ar: Headers, held: Held, p: nat, d: nat)
    requires Consistent(fl, ar, held) && p !in ar && d < CLASSES && fl[d] == []
    ensures Consistent(fl[d := BlocksOf(p, d, BlocksPerArena(d))], ar[p := Small(d, BlocksPerArena(d))], held)
  {
    var m := BlocksOf(p, d, BlocksPerArena(d));
    var br := ar[p := Small(d, BlocksPerArena(d))];
    NewBlocks(p, d);
    hide Addr, BlocksPerArena, IsSlot, PageOf, BlocksOf;
    assert Accounted(fl[d := m], held, p, br[p]) by {
      forall i: nat | i < BlocksPerArena(d) ensures Addr(p, d, i) in m {
        assert m[i] == Addr(p, d, i);
      }
    }
    NothingHeld(fl, ar, held, p);
    PageStep(fl, ar, held, p, d, m, br, held);
  }

  lemma NothingHeld(fl: seq<seq<nat>>, ar: Headers, held: Held, p: nat)
    requires Consistent(fl, ar, held) && p !in ar
    ensures forall b | b in held :: PageOf(b) != p
  {
    forall b | b in held ensures PageOf(b) != p {
      assert HeldAt(fl, ar, b, held[b]);
    }
  }

  /** The first block of a free list passes to a caller. */
  lemma BlockTaken(fl: seq<seq<nat>>, ar: Headers, held: Held, d: nat, size: nat)
    requires Consistent(fl, ar, held) && d < CLASSES && fl[d] != [] && size <= BlockSize(d)
    ensures var b := fl[d][0]; var p := PageOf(b);
      && Owned(ar, b, d) && ar[p].freeCnt > 0 && b !in held
      && Consistent(fl[d := fl[d][1..]], ar[p := Small(d, ar[p].freeCnt - 1)], held[b := size])
  {
    var b, m := fl[d][0], fl[d][1..];
    var p := PageOf(b);
    assert OwnedList(ar, fl[d], d) && Owned(ar, b, d);
    hide Addr, BlocksPerArena, IsSlot, PageOf, BlockSize, IndexOf, FreeIndexes;
    assert b !in held by {
      assert b in held ==> HeldAt(fl, ar, b, held[b]);
    }
    assert fl[d] == [b] + m;
    TakenCount(fl, ar, held, d, size);
    var br := ar[p := Small(d, ar[p].freeCnt - 1)];
    ListKept(ar, br, fl[d], m, d, p);
    TakenHeld(fl, ar, held, d, size);
    hide Accounted, Counted, OwnedList, HeldAt;
    PageStep(fl, ar, held, p, d, m, br, held[b := size]);
  }

  lemma TakenCount(fl: seq<seq<nat>>, ar: Headers, held: Held, d: nat, size: nat)
    requires Consistent(fl, ar, held) && d < CLASSES && fl[d] != [] && Owned(ar, fl[d][0], d)
    ensures var b := fl[d][0]; var p := PageOf(b); var gl := fl[d := fl[d][1..]];
      && ar[p].freeCnt > 0 && Counted(gl, p, Small(d, ar[p].freeCnt - 1))
      && Accounted(gl, held[b := size], p, Small(d, ar[p].freeCnt - 1))
  {
    var l, m := fl[d], fl[d][1..];
    var b := l[0];
    var p := PageOf(b);
    assert OwnedList(ar, l, d);
    SlotAddr(b, d);
    hide Addr, BlocksPerArena, IsSlot, PageOf, IndexOf, Owned;
    assert l == [b] + m && b !in m;
    IndexesGain(m, l, p, d, IndexOf(b, d));
    assert Counted(fl, p, ar[p]) && Accounted(fl, held, p, ar[p]);
    assert |FreeIndexes(l, p, d)| == |FreeIndexes(m, p, d)| + 1;
  }

  /** Part of a list stays in order while only its page's count changes. */
  lemma ListKept(ar: Headers, br: Headers, l: seq<nat>, m: seq<nat>, d: nat, p: nat)
    requires d < CLASSES && OwnedList(ar, l, d) && Distinct(m) && forall b | b in m :: b in l
    requires HeadersOffPage(ar, br, p) && p in br && br[p].Small? && br[p].desc == d
    ensures OwnedList(br, m, d)
  {
    hide IsSlot, PageOf;
    forall b | b in m ensures Owned(br, b, d) {
      assert Owned(ar, b, d);
    }
  }

  lemma TakenHeld(fl: seq<seq<nat>>, ar: Headers, held: Held, d: nat, size: nat)
    requires Consistent(fl, ar, held) && d < CLASSES && fl[d] != [] && size <= BlockSize(d)
    requires var b := fl[d][0]; Owned(ar, b, d) && ar[PageOf(b)].freeCnt > 0
    ensures var b := fl[d][0]; var p := PageOf(b); var now := held[b := size]; var gl := fl[d := fl[d][1..]];
      forall x | x in now && PageOf(x) == p :: HeldAt(gl, ar[p := Small(d, ar[p].freeCnt - 1)], x, now[x])
  {
    hide BlocksPerArena, IsSlot, PageOf, BlockSize;
    var b := fl[d][0];
    var now := held[b := size];
    var m := fl[d][1..];
    assert fl[d] == [b] + m;
    assert OwnedList(ar, fl[d], d);
    assert b !in m;
    forall x | x in held && PageOf(x) == PageOf(b) ensures x !in m {
      assert HeldAt(fl, ar, x, held[x]);
    }
  }

  /** A held block of a descriptor goes back to the front of its free list. */
  lemma BlockReturned(fl: seq<seq<nat>>, ar: Headers, held: Held, b: nat)
    requires Consistent(fl, ar, held) && b in held
    requires PageOf(b) in ar && ar[PageOf(b)].Small?
    ensures var p := PageOf(b); var d := ar[p].desc;
      d < CLASSES && Consistent(fl[d := [b] + fl[d]], ar[p := Small(d, ar[p].freeCnt + 1)], held - {b})
  {
    assert HeldAt(fl, ar, b, held[b]);
    var p := PageOf(b);
    var d := ar[p].desc;
    var m := [b] + fl[d];
    assert OwnedList(ar, fl[d], d);
    hide Addr, BlocksPerArena, IsSlot, PageOf, BlockSize, IndexOf, FreeIndexes;
    ReturnedCount(fl, ar, held, b);
    var br := ar[p := Small(d, ar[p].freeCnt + 1)];
    assert OwnedList(ar, m, d);
    ListKept(ar, br, m, m, d, p);
    ReturnedHeld(fl, ar, held, b);
    hide Accounted, Counted, OwnedList, HeldAt;
    PageStep(fl, ar, held, p, d, m, br, held - {b});
  }

  lemma ReturnedCount(fl: seq<seq<nat>>, ar: Headers, held: Held, b: nat)
    requires Consistent(fl, ar, held) && b in held && HeldAt(fl, ar, b, held[b]) && ar[PageOf(b)].Small?
    ensures var p := PageOf(b); var d := ar[p].desc; var gl := fl[d := [b] + fl[d]];
      && Counted(gl, p, Small(d, ar[p].freeCnt + 1)) && Accounted(gl, held - {b}, p, Small(d, ar[p].freeCnt + 1))
  {
    var p := PageOf(b);
    var d := ar[p].desc;
    SlotAddr(b, d);
    hide Addr, BlocksPerArena, IsSlot, PageOf, BlockSize, IndexOf;
    IndexesGain(fl[d], [b] + fl[d], p, d, IndexOf(b, d));
    assert Counted(fl, p, ar[p]) && Accounted(fl, held, p, ar[p]);
  }

  lemma ReturnedHeld(fl: seq<seq<nat>>, ar: Headers, held: Held, b: nat)
    requires Consistent(fl, ar, held) && b in held
    requires PageOf(b) in ar && ar[PageOf(b)].Small? && ar[PageOf(b)].desc < CLASSES
    ensures var p := PageOf(b); var d := ar[p].desc; var now := held - {b};
      forall x | x in now && PageOf(x) == p :: HeldAt(fl[d := [b] + fl[d]], ar[p := Small(d, ar[p].freeCnt + 1)], x, now[x])
  {
    hide BlocksPerArena, IsSlot, PageOf, BlockSize;
    forall x | x in held && x != b && PageOf(x) == PageOf(b) ensures x !in [b] + fl[ar[PageOf(b)].desc] {
      assert HeldAt(fl, ar, x, held[x]);
    }
  }

  /** The list without the blocks of page p. */
  function OffPage(l: seq<nat>, p: nat): (m: seq<nat>)
    ensures forall x :: x in m <==> x in l && PageOf(x) != p
    ensures |m| <= |l|
  {
    if l == [] then [] else
    if PageOf(l[0]) == p then OffPage(l[1..], p) else [l[0]] + OffPage(l[1..], p)
  }

  lemma {:induction false} OffPageDistinct(l: seq<nat>, p: nat)
    requires Distinct(l)
    ensures Distinct(OffPage(l, p))
  {
    if l != [] {
      OffPageDistinct(l[1..], p);
      var m := OffPage(l[1..], p);
      assert l[0] !in l[1..];
      assert l[0] !in m;
    }
  }

  /** An arena all of whose blocks are free disappears with its blocks. */
  lemma ArenaDropped(fl: seq<seq<nat>>, ar: Headers, held: Held, p: nat)
    requires Consistent(fl, ar, held) && p in ar && ar[p].Small? && ar[p].freeCnt >= BlocksPerArena(ar[p].desc)
    ensures var d := ar[p].desc; Consistent(fl[d := OffPage(fl[d], p)], ar - {p}, held)
  {
    var d := ar[p].desc;
    assert Counted(fl, p, ar[p]);
    FullArena(fl, p, ar[p]);
    assert OwnedList(ar, fl[d], d);
    OffPageDistinct(fl[d], p);
    var m := OffPage(fl[d], p);
    forall b | b in held ensures PageOf(b) != p {
      hide BlocksPerArena, IndexOf;
      assert HeldAt(fl, ar, b, held[b]);
      if PageOf(b) == p {
        SlotAddr(b, d);
      }
    }
    hide BlocksPerArena, IsSlot, PageOf, OffPage;
    assert OwnedList(ar - {p}, m, d) by {
      forall b | b in m ensures Owned(ar - {p}, b, d) {
        assert Owned(ar, b, d);
      }
    }
    PageStep(fl, ar, held, p, d, m, ar - {p}, held);
  }

  lemma SameLists(fl: seq<seq<nat>>)
    requires |fl| > 0
    ensures fl[0 := fl[0]] == fl
  {
  }

  /** Fresh pages become the arena of one big block. */
  lemma BigAdded(fl: seq<seq<nat>>, ar: Headers, held: Held, p: nat, n: nat, size: nat)
    requires Consistent(fl, ar, held) && p !in ar && size + HEADER <= n * PGSIZE
    ensures var b := p * PGSIZE + HEADER;
      PageOf(b) == p && b !in held && Consistent(fl, ar[p := Big(n)], held[b := size])
  {
    var b := p * PGSIZE + HEADER;
    assert PageOf(b) == p;
    NothingHeld(fl, ar, held, p);
    hide IsSlot, PageOf, BlocksPerArena;
    SameLists(fl);
    BigNotListed(fl, ar, ar[p := Big(n)], p);
    hide Counted, OwnedList;
    PageStep(fl, ar, held, p, 0, fl[0], ar[p := Big(n)], held[b := size]);
  }

  lemma BigDropped(fl: seq<seq<nat>>, ar: Headers, held: Held, b: nat)
    requires Consistent(fl, ar, held) && b in held && PageOf(b) in ar && ar[PageOf(b)].Big?
    ensures b == PageOf(b) * PGSIZE + HEADER && Consistent(fl, ar - {PageOf(b)}, held - {b})
  {
    hide PageOf, HeldAt, Accounted, Counted, OwnedList;
    var p := PageOf(b);
    BigAlone(fl, ar, held, b);
    BigNotListed(fl, ar, ar - {p}, p);
    SameLists(fl);
    var br, now := ar - {p}, held - {b};
    assert HeadersOffPage(ar, br, p) && HeldOffPage(held, now, p) && SameOffPage(fl[0], fl[0], p);
    hide *;
    PageStep(fl, ar, held, p, 0, fl[0], br, now);
  }

  lemma BigAlone(fl: seq<seq<nat>>, ar: Headers, held: Held, b: nat)
    requires Consistent(fl, ar, held) && b in held && PageOf(b) in ar && ar[PageOf(b)].Big?
    ensures b == PageOf(b) * PGSIZE + HEADER && forall x | x in held && x != b :: PageOf(x) != PageOf(b)
  {
    hide OwnedList, Counted, Accounted;
    assert HeldAt(fl, ar, b, held[b]);
    forall x | x in held && x != b ensures PageOf(x) != PageOf(b) {
      assert HeldAt(fl, ar, x, held[x]);
    }
  }

  lemma BigNotListed(fl: seq<seq<nat>>, ar: Headers, br: Headers, p: nat)
    requires Lists(fl, ar) && (p in ar ==> ar[p].Big?) && HeadersOffPage(ar, br, p)
    ensures OwnedList(br, fl[0], 0)
  {
    hide IsSlot, PageOf;
    assert OwnedList(ar, fl[0], 0);
    forall x | x in fl[0] ensures Owned(br, x, 0) {
      assert Owned(ar, x, 0);
    }
  }
}
