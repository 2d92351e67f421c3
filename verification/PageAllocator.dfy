/** The two-pool page allocator (src/threads/palloc.c). Pages are numbered by address divided by
    PGSIZE. The ghost map `live` records the page runs that callers own. */
module PageAllocator {
  import opened Options
  import opened Bitmap

  const PGSIZE: nat := 4096
  /** Page number of physical address 0 in the kernel's mapping (PHYS_BASE / PGSIZE). */
  const PHYS_PAGE: nat := 0xc0000

  /** Live runs: first page to number of pages. */
  type Runs = map<nat, nat>

  ghost predicate InRun(s: nat, cnt: nat, p: nat)
  {
    s <= p < s + cnt
  }

  ghost predicate Covered(live: Runs, p: nat)
  {
    exists s | s in live :: InRun(s, live[s], p)
  }

  ghost predicate Apart(live: Runs)
  {
    forall s, t | s in live && t in live && s != t :: s + live[s] <= t || t + live[t] <= s
  }

  /** The bits of a pool whose pages start at first say which of them are in a live run. */
  ghost predicate Tracks(m: seq<bool>, first: nat, live: Runs)
  {
    forall i | 0 <= i < |m| :: m[i] <==> Covered(live, first + i)
  }

  lemma CoveredAdd(live: Runs, s: nat, cnt: nat, p: nat)
    requires s !in live
    ensures Covered(live[s := cnt], p) <==> Covered(live, p) || InRun(s, cnt, p)
  {
    var next := live[s := cnt];
    if Covered(live, p) {
      var t :| t in live && InRun(t, live[t], p);
      assert t in next && InRun(t, next[t], p);
    }
    if InRun(s, cnt, p) {
      assert s in next && InRun(s, next[s], p);
    }
  }

  /** Setting the bits of a new run, in its own pool and in a pool it does not touch. */
  lemma TracksAdd(m: seq<bool>, first: nat, live: Runs, i: nat, cnt: nat)
    requires Tracks(m, first, live) && i + cnt <= |m| && first + i !in live
    ensures Tracks(Filled(m, i, cnt, true), first, live[first + i := cnt])
  {
    forall k | 0 <= k < |m| ensures Filled(m, i, cnt, true)[k] <==> Covered(live[first + i := cnt], first + k) {
      CoveredAdd(live, first + i, cnt, first + k);
    }
  }

  lemma TracksAddElsewhere(m: seq<bool>, first: nat, live: Runs, s: nat, cnt: nat)
    requires Tracks(m, first, live) && s !in live && (s + cnt <= first || first + |m| <= s)
    ensures Tracks(m, first, live[s := cnt])
  {
    forall k | 0 <= k < |m| ensures m[k] <==> Covered(live[s := cnt], first + k) {
      CoveredAdd(live, s, cnt, first + k);
    }
  }

  /** The run from s on lies inside the pages from p up to p + cnt. */
  ghost predicate Inside(s: nat, n: nat, p: nat, cnt: nat)
  {
    p <= s && s + n <= p + cnt
  }

  /** No live run is cut: each lies inside the range or clear of it. */
  ghost predicate Whole(live: Runs, p: nat, cnt: nat)
  {
    forall s | s in live :: Inside(s, live[s], p, cnt) || s + live[s] <= p || p + cnt <= s
  }

  /** The runs that are not inside the range. */
  ghost function Remaining(live: Runs, p: nat, cnt: nat): (r: Runs)
  {
    map s | s in live && !Inside(s, live[s], p, cnt) :: live[s]
  }

  lemma CoveredRemaining(live: Runs, p: nat, cnt: nat, x: nat)
    requires Whole(live, p, cnt)
    ensures Covered(Remaining(live, p, cnt), x) <==> Covered(live, x) && !InRun(p, cnt, x)
  {
    var next := Remaining(live, p, cnt);
    if Covered(next, x) {
      var t :| t in next && InRun(t, next[t], x);
      assert t in live && InRun(t, live[t], x);
    }
    if Covered(live, x) && !InRun(p, cnt, x) {
      var t :| t in live && InRun(t, live[t], x);
      assert t in next && InRun(t, next[t], x);
    }
  }

  /** Freeing a range of a pool's pages keeps its bitmap true exactly if no live run is cut. */
  lemma TracksRemaining(m: seq<bool>, first: nat, live: Runs, i: nat, cnt: nat)
    requires Tracks(m, first, live) && i + cnt <= |m| && cnt > 0
    ensures Tracks(Filled(m, i, cnt, false), first, Remaining(live, first + i, cnt)) <==> Whole(live, first + i, cnt)
  {
    var p, n, next := first + i, Filled(m, i, cnt, false), Remaining(live, first + i, cnt);
    if Whole(live, p, cnt) {
      forall k | 0 <= k < |m| ensures n[k] <==> Covered(next, first + k) {
        CoveredRemaining(live, p, cnt, first + k);
      }
    } else {
      var s: nat :| s in live && !(Inside(s, live[s], p, cnt) || s + live[s] <= p || p + cnt <= s);
      var x := if s < p then p else s;
      assert s in next && InRun(s, next[s], x);
      assert Covered(next, x) && !n[x - first];
    }
  }

  lemma TracksRemainingElsewhere(m: seq<bool>, first: nat, live: Runs, p: nat, cnt: nat)
    requires Tracks(m, first, live) && Whole(live, p, cnt) && (p + cnt <= first || first + |m| <= p)
    ensures Tracks(m, first, Remaining(live, p, cnt))
  {
    forall k | 0 <= k < |m| ensures m[k] <==> Covered(Remaining(live, p, cnt), first + k) {
      CoveredRemaining(live, p, cnt, first + k);
    }
  }

  /** Freeing exactly one live run. */
  lemma OneRun(live: Runs, p: nat)
    requires Apart(live) && p in live && forall s | s in live :: live[s] > 0
    ensures Whole(live, p, live[p]) && Remaining(live, p, live[p]) == live - {p}
  {
  }

  /** No page from s up to s + cnt is in a live run. */
  ghost predicate FreeRange(live: Runs, s: nat, cnt: nat)
  {
    forall p: nat | s <= p < s + cnt :: !Covered(live, p)
  }

  lemma RunAvoidsFree(live: Runs, t: nat, s: nat, cnt: nat)
    requires t in live && live[t] > 0 && FreeRange(live, s, cnt) && cnt > 0
    ensures t + live[t] <= s || s + cnt <= t
  {
    var p := if t < s then s else t;
    assert InRun(t, live[t], p) ==> Covered(live, p);
  }

  /** A free range can become a live run. */
  lemma FreeRangeApart(live: Runs, s: nat, cnt: nat)
    requires FreeRange(live, s, cnt) && cnt > 0 && Apart(live)
    requires forall t | t in live :: live[t] > 0
    ensures s !in live && Apart(live[s := cnt])
  {
    hide FreeRange;
    forall t | t in live ensures t + live[t] <= s || s + cnt <= t {
      RunAvoidsFree(live, t, s, cnt);
    }
  }

  lemma TracksEmpty(m: seq<bool>, first: nat)
    requires forall i | 0 <= i < |m| :: !m[i]
    ensures Tracks(m, first, map[])
  {
  }

  // ----- pools -----

  /** Bytes that bitmap_create_in_buf needs, and the pages they take. */
  function BitmapPages(pages: nat): (n: nat)
  {
    (8 + ByteCnt(pages) + PGSIZE - 1) / PGSIZE
  }

  /** A pool: its bitmap occupies the pages from `start` up to `first`, its pages follow. */
  class Pool {
    const start: nat
    const first: nat
    const usedMap: PackedBitmap

    /** init_pool; it panics when the bitmap does not fit. */
    constructor (start: nat, pageCnt: nat)
      requires BitmapPages(pageCnt) <= pageCnt
      ensures usedMap.Valid() && fresh(usedMap) && fresh(usedMap.bits)
      ensures this.start == start && first == start + BitmapPages(pageCnt)
      ensures first + usedMap.bitCnt == start + pageCnt
      ensures usedMap.Model() == seq(usedMap.bitCnt, _ => false)
      ensures 8 + ByteCnt(usedMap.bitCnt) <= (first - start) * PGSIZE
    {
      var bmPages := BitmapPages(pageCnt);
      this.start := start;
      first := start + bmPages;
      usedMap := new PackedBitmap(pageCnt - bmPages);
      new;
    }

    ghost predicate Has(s: nat, cnt: nat)
    {
      first <= s && s + cnt <= first + usedMap.bitCnt
    }

    /** page_from_pool. */
    predicate PageFromPool(page: nat)
    {
      first <= page < first + usedMap.bitCnt
    }
  }

  class Allocator {
    const kernel: Pool
    const user: Pool
    ghost var live: Runs

    ghost predicate Valid()
      reads this, kernel.usedMap.bits, user.usedMap.bits
    {
      && kernel.usedMap.Valid() && user.usedMap.Valid() && kernel.usedMap.bits != user.usedMap.bits
      && kernel.start <= kernel.first && user.start <= user.first
      && kernel.first + kernel.usedMap.bitCnt <= user.start
      && Apart(live)
      && (forall s | s in live :: live[s] > 0 && (kernel.Has(s, live[s]) || user.Has(s, live[s])))
      && Tracks(kernel.usedMap.Model(), kernel.first, live)
      && Tracks(user.usedMap.Model(), user.first, live)
    }

    ghost function PoolFor(fromUser: bool): (p: Pool)
    {
      if fromUser then user else kernel
    }

    /** palloc_init: memory from 1 MB to the end of RAM, at most half and at most the limit for the
        user pool. The two preconditions are the ones whose violation makes init_pool panic. */
    constructor (ramPages: nat, userPageLimit: nat)
      requires ramPages >= 256
      requires var userPages := UserPages(ramPages, userPageLimit);
        BitmapPages(ramPages - 256 - userPages) <= ramPages - 256 - userPages && BitmapPages(userPages) <= userPages
      ensures Valid() && live == map[]
      ensures fresh(kernel.usedMap.bits) && fresh(user.usedMap.bits)
      ensures kernel.start == PHYS_PAGE + 256 && user.first + user.usedMap.bitCnt == PHYS_PAGE + ramPages
      ensures kernel.first + kernel.usedMap.bitCnt == user.start
      ensures var half := (ramPages - 256) / 2;
        user.start == PHYS_PAGE + ramPages - if half > userPageLimit then userPageLimit else half
    {
      var freePages := ramPages - 256;
      var userPages := freePages / 2;
      if userPages > userPageLimit {
        userPages := userPageLimit;
      }
      var kernelPages := freePages - userPages;
      kernel := new Pool(PHYS_PAGE + 256, kernelPages);
      user := new Pool(PHYS_PAGE + 256 + kernelPages, userPages);
      live := map[];
      new;
      TracksEmpty(kernel.usedMap.Model(), kernel.first);
      TracksEmpty(user.usedMap.Model(), user.first);
    }

    /** palloc_get_multiple. Failure is reported only when the pool has no run of that many free
        pages; success gives the first such run, which meets no other live run, neither bitmap and
        not the other pool. */
    method GetMultiple(fromUser: bool, pageCnt: nat) returns (r: Option<nat>)
      requires Valid()
      modifies this`live, kernel.usedMap.bits, user.usedMap.bits
      ensures Valid()
      ensures r.Some? ==>
        && pageCnt > 0 && live == old(live)[r.value := pageCnt]
        && PoolFor(fromUser).Has(r.value, pageCnt) && FreeRange(old(live), r.value, pageCnt)
        && r.value !in old(live)
      ensures r.None? ==> live == old(live)
      ensures pageCnt > 0 ==>
        forall s: nat | PoolFor(fromUser).Has(s, pageCnt) && (r.Some? ==> s < r.value) :: !FreeRange(old(live), s, pageCnt)
    {
      hide Covered, Tracks, FreeRange, Apart, PackedBitmap.Model, PackedBitmap.Valid, IsFirstRun;
      if pageCnt == 0 {
        return None;
      }
      var pool := if fromUser then user else kernel;
      ghost var other := if fromUser then kernel else user;
      ghost var m := pool.usedMap.Model();
      var idx := pool.usedMap.ScanAndFlip(0, pageCnt, false);
      RunsTaken(m, pool.first, live, pageCnt, idx);
      if idx.None? {
        return None;
      }
      FreeRangeApart(live, pool.first + idx.value, pageCnt);
      TracksAdd(m, pool.first, live, idx.value, pageCnt);
      TracksAddElsewhere(other.usedMap.Model(), other.first, live, pool.first + idx.value, pageCnt);
      live := live[pool.first + idx.value := pageCnt];
      r := Some(pool.first + idx.value);
    }

    /** palloc_free_multiple of any pages of one pool; the assertion that they are in use is not compiled. A null
        address and the empty run are ignored. The live runs inside the range end, and the bitmaps stay true exactly
        if none is cut: if each live run lies inside the range or clear of it, as when exactly one run is freed. */
    method FreeMultiple(pages: Option<nat>, pageCnt: nat)
      requires Valid()
      requires pages.Some? && pageCnt > 0 ==> kernel.Has(pages.value, pageCnt) || user.Has(pages.value, pageCnt)
      modifies this`live, kernel.usedMap.bits, user.usedMap.bits
      ensures live == if pages.Some? && pageCnt > 0 then Remaining(old(live), pages.value, pageCnt) else old(live)
      ensures Valid() <==> (pages.Some? && pageCnt > 0 ==> Whole(old(live), pages.value, pageCnt))
      ensures pages.Some? && pageCnt > 0 && pages.value in old(live) && old(live)[pages.value] == pageCnt ==>
        Valid() && live == old(live) - {pages.value}
    {
      hide Covered, Tracks, Apart, Whole, Remaining, PackedBitmap.Model, PackedBitmap.Valid;
      if pages.None? || pageCnt == 0 {
        return;
      }
      var p := pages.value;
      var pool := if kernel.PageFromPool(p) then kernel else user;
      var other := if kernel.PageFromPool(p) then user else kernel;
      assert pool.Has(p, pageCnt);
      var idx := p - pool.first;
      TracksRemaining(pool.usedMap.Model(), pool.first, live, idx, pageCnt);
      if Whole(live, p, pageCnt) {
        TracksRemainingElsewhere(other.usedMap.Model(), other.first, live, p, pageCnt);
      }
      if p in live && live[p] == pageCnt {
        OneRun(live, p);
      }
      pool.usedMap.SetMultiple(idx, pageCnt, false);
      RemainingRuns(live, p, pageCnt);
      live := Remaining(live, p, pageCnt);
    }
  }

  lemma RemainingRuns(live: Runs, p: nat, cnt: nat)
    requires Apart(live)
    ensures Apart(Remaining(live, p, cnt)) && forall s | s in Remaining(live, p, cnt) :: s in live && Remaining(live, p, cnt)[s] == live[s]
  {
  }

  function UserPages(ramPages: nat, limit: nat): (n: nat)
    requires ramPages >= 256
  {
    if (ramPages - 256) / 2 > limit then limit else (ramPages - 256) / 2
  }

  /** A pool's first run of clear bits, said in terms of live runs. */
  lemma RunsTaken(m: seq<bool>, first: nat, live: Runs, cnt: nat, r: Option<nat>)
    requires Tracks(m, first, live) && IsFirstRun(m, 0, cnt, false, r) && cnt > 0
    ensures r.Some? ==> r.value + cnt <= |m| && FreeRange(live, first + r.value, cnt)
    ensures forall s: nat | first <= s && s + cnt <= first + |m| && (r.Some? ==> s < first + r.value) :: !FreeRange(live, s, cnt)
  {
    hide Covered;
    if r.Some? {
      forall p: nat | first + r.value <= p < first + r.value + cnt ensures !Covered(live, p) {
        assert !m[p - first];
      }
    }
    forall s: nat | first <= s && s + cnt <= first + |m| && (r.Some? ==> s < first + r.value)
      ensures !FreeRange(live, s, cnt)
    {
      assert !RunAt(m, s - first, cnt, false);
      var k :| s - first <= k < s - first + cnt && m[k] != false;
      assert Covered(live, first + k);
    }
  }

  /** Live runs stay clear of each other, of the other pool and of both bitmaps. */
  lemma LiveRunsSeparate(a: Allocator, s: nat, t: nat)
    requires a.Valid() && s in a.live && t in a.live
    ensures s != t ==> forall p: nat :: !(InRun(s, a.live[s], p) && InRun(t, a.live[t], p))
    ensures forall p: nat | InRun(s, a.live[s], p) ::
      && !(a.kernel.start <= p < a.kernel.first) && !(a.user.start <= p < a.user.first)
      && (a.kernel.PageFromPool(p) || a.user.PageFromPool(p))
  {
  }
}
