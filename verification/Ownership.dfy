/** Who owns which sector. An inode is live while it has a name or is open; the invariant says that live
    inodes' headers and data are pairwise disjoint, intact on disk and marked used in the free map. Sectors
    that no live inode owns may be marked used as well: filesys_create leaks data sectors when dir_add
    fails (src/filesys/filesys.c:48-61). */
module Ownership {
  import opened Bytes
  import opened FileData
  import opened DiskFormat
  import opened Bitmap

  const FREE_MAP_SECTOR: nat := 0
  const ROOT_DIR_SECTOR: nat := 1

  /** Live inodes: header sector to extent. */
  type Inodes = map<nat, Extent>

  ghost predicate Owns(live: Inodes, s: nat, x: nat)
    requires s in live
  {
    x == s || live[s].Has(x)
  }

  ghost predicate OneOwner(live: Inodes)
  {
    && (forall s | s in live :: !live[s].Has(s))
    && (forall s, t, x: nat | s in live && t in live && Owns(live, s, x) && Owns(live, t, x) :: s == t)
  }

  ghost predicate Marked(live: Inodes, used: seq<bool>)
  {
    forall s, x: nat | s in live && Owns(live, s, x) :: x < |used| && used[x]
  }

  /** Every live inode's header and data are on the device, and the header says where the data is. */
  ghost predicate OnDisk(live: Inodes, d: Sectors)
  {
    && WellFormed(d)
    && forall s | s in live :: s < |d| && live[s].On(d) && HeaderOf(d[s]) == live[s]
  }

  ghost predicate Laid(live: Inodes, used: seq<bool>, d: Sectors)
  {
    OnDisk(live, d) && OneOwner(live) && Marked(live, used) && |used| == |d| <= WORD_LIMIT
  }

  // ----- changes to the free map -----

  /** Marking more sectors used does no harm. */
  lemma MarkMore(live: Inodes, used: seq<bool>, d: Sectors, at: nat, cnt: nat)
    requires Laid(live, used, d) && at + cnt <= |used|
    ensures Laid(live, Filled(used, at, cnt, true), d)
  {
    hide OnDisk, OneOwner;
  }

  ghost predicate Unowned(live: Inodes, at: nat, cnt: nat)
  {
    forall s, x: nat | s in live && at <= x < at + cnt :: !Owns(live, s, x)
  }

  /** Sectors that were free belong to nobody. */
  lemma FreeUnowned(live: Inodes, used: seq<bool>, d: Sectors, at: nat, cnt: nat)
    requires Laid(live, used, d) && RunAt(used, at, cnt, false)
    ensures Unowned(live, at, cnt)
  {
    hide OnDisk, OneOwner;
  }

  lemma ReleaseUnowned(live: Inodes, used: seq<bool>, d: Sectors, at: nat, cnt: nat)
    requires Laid(live, used, d) && at + cnt <= |used| && Unowned(live, at, cnt)
    ensures Laid(live, Filled(used, at, cnt, false), d)
  {
    hide OnDisk, OneOwner;
  }

  // ----- changes to the disk -----

  /** Two devices agree on every sector that a live inode owns. */
  ghost predicate SameOwned(live: Inodes, d: Sectors, t: Sectors)
  {
    |t| == |d| && WellFormed(t) && forall s, x: nat | s in live && x < |d| && Owns(live, s, x) :: t[x] == d[x]
  }

  lemma SameOwnedLaid(live: Inodes, used: seq<bool>, d: Sectors, t: Sectors)
    requires Laid(live, used, d) && SameOwned(live, d, t)
    ensures Laid(live, used, t)
  {
    hide OneOwner, Marked, HeaderOf;
    forall s | s in live ensures HeaderOf(t[s]) == live[s] {
      assert Owns(live, s, s);
    }
  }

  lemma SameOwnedContents(live: Inodes, used: seq<bool>, d: Sectors, t: Sectors, s: nat)
    requires Laid(live, used, d) && SameOwned(live, d, t) && s in live
    ensures live[s].On(t) && Contents(t, live[s]) == Contents(d, live[s])
  {
    hide OneOwner, Marked, HeaderOf;
    SameContents(d, t, live[s]);
  }

  lemma SameContents(d: Sectors, t: Sectors, e: Extent)
    requires WellFormed(d) && WellFormed(t) && |t| == |d| && e.On(d)
    requires forall x: nat | x < |d| && e.Has(x) :: t[x] == d[x]
    ensures Contents(t, e) == Contents(d, e)
  {
    var c, r := Contents(t, e), Contents(d, e);
    forall i | 0 <= i < e.length ensures c[i] == r[i] {
      assert e.Has(e.start + i / SECTOR);
    }
  }

  /** A write into one file leaves the layout and all other files alone. */
  lemma StoredLaid(live: Inodes, used: seq<bool>, d: Sectors, t: Sectors, s: nat, offset: nat, data: seq<Byte>)
    requires Laid(live, used, d) && s in live && Stored(d, t, live[s], offset, data)
    requires data == [] || offset + |data| <= live[s].length
    ensures Laid(live, used, t)
    ensures Contents(t, live[s]) == Spliced(Contents(d, live[s]), offset, data)
  {
    StoredContents(d, t, live[s], offset, data);
    hide Marked, Stored, HeaderOf;
    StoredShape(d, t, live[s], offset, data);
    forall r | r in live ensures HeaderOf(t[r]) == live[r] {
      assert !live[s].Has(r) by {
        assert Owns(live, r, r);
        assert live[s].Has(r) ==> Owns(live, s, r);
      }
      StoredElsewhere(d, t, live[s], offset, data, r);
    }
  }

  lemma StoredOthers(live: Inodes, used: seq<bool>, d: Sectors, t: Sectors, s: nat, offset: nat, data: seq<Byte>, r: nat)
    requires Laid(live, used, d) && s in live && r in live && r != s && Stored(d, t, live[s], offset, data)
    requires data == [] || offset + |data| <= live[s].length
    ensures live[r].On(t) && WellFormed(t) && Contents(t, live[r]) == Contents(d, live[r])
  {
    hide Marked, HeaderOf;
    forall x | 0 <= x < |d| ensures !(live[s].Has(x) && live[r].Has(x)) {
      assert live[s].Has(x) ==> Owns(live, s, x);
      assert live[r].Has(x) ==> Owns(live, r, x);
    }
    StoredOther(d, t, live[s], offset, data, live[r]);
  }

  // ----- new and dead inodes -----

  /** An inode whose header and data lie in sectors that nobody owned joins. */
  lemma InodeAdded(live: Inodes, used: seq<bool>, d: Sectors, s: nat, e: Extent)
    requires Laid(live, used, d) && s < |d| && e.On(d) && HeaderOf(d[s]) == e && !e.Has(s)
    requires Unowned(live, s, 1) && Unowned(live, e.start, SectorCount(e.length))
    requires used[s] && forall x: nat | e.Has(x) :: x < |used| && used[x]
    ensures s !in live && Laid(live[s := e], used, d)
  {
    hide HeaderOf;
    assert s !in live by {
      assert s in live ==> Owns(live, s, s);
    }
    var next := live[s := e];
    forall a, b, x: nat | a in next && b in next && Owns(next, a, x) && Owns(next, b, x) ensures a == b {
      assert a in live ==> Owns(live, a, x);
      assert b in live ==> Owns(live, b, x);
    }
  }

  /** An inode leaves, and what it owned belongs to nobody. */
  lemma InodeDropped(live: Inodes, used: seq<bool>, d: Sectors, s: nat)
    requires Laid(live, used, d) && s in live
    ensures Laid(live - {s}, used, d)
    ensures Unowned(live - {s}, s, 1) && Unowned(live - {s}, live[s].start, SectorCount(live[s].length))
  {
    hide HeaderOf;
    var rest := live - {s};
    forall t, x: nat | t in rest && Owns(rest, t, x) ensures Owns(live, t, x) && !Owns(live, s, x) {
    }
  }

  // ----- nothing marked that nobody owns -----

  /** The free map when an inode with this header and data has been marked, and when it has been given back. */
  ghost function Taken(m: seq<bool>, h: nat, e: Extent): (n: seq<bool>)
    ensures |n| == |m|
  {
    seq(|m|, x requires 0 <= x < |m| => m[x] || x == h || e.Has(x))
  }

  ghost function Returned(m: seq<bool>, h: nat, e: Extent): (n: seq<bool>)
    ensures |n| == |m|
  {
    seq(|m|, x requires 0 <= x < |m| => m[x] && x != h && !e.Has(x))
  }

  ghost predicate WasFree(m: seq<bool>, h: nat, e: Extent)
  {
    h < |m| && !m[h] && forall x: nat | e.Has(x) :: x < |m| && !m[x]
  }

  /** Marking sectors that were free and giving them back leaves the map as it was. */
  lemma TakenReturned(m: seq<bool>, h: nat, e: Extent)
    requires WasFree(m, h, e)
    ensures Returned(Taken(m, h, e), h, e) == m
  {
  }

  /** What the two steps of marking do, and the two of giving back. */
  lemma FilledTaken(m: seq<bool>, h: nat, e: Extent)
    requires RunAt(m, h, 1, false) && RunAt(Filled(m, h, 1, true), e.start, SectorCount(e.length), false)
    ensures WasFree(m, h, e) && Filled(Filled(m, h, 1, true), e.start, SectorCount(e.length), true) == Taken(m, h, e)
  {
    hide SectorCount;
    forall x: nat | e.Has(x) ensures x < |m| && !m[x] {
      assert !Filled(m, h, 1, true)[x];
    }
  }

  lemma FilledReturned(m: seq<bool>, h: nat, e: Extent)
    requires RunAt(m, h, 1, true) && RunAt(m, e.start, SectorCount(e.length), true)
    ensures Filled(Filled(m, h, 1, false), e.start, SectorCount(e.length), false) == Returned(m, h, e)
  {
    hide SectorCount;
  }

  /** Every sector that is marked belongs to a live inode. */
  ghost predicate Tight(live: Inodes, used: seq<bool>)
  {
    forall x: nat | x < |used| && used[x] :: Owned(live, x)
  }

  ghost predicate Owned(live: Inodes, x: nat)
  {
    exists s | s in live :: Owns(live, s, x)
  }

  lemma TightGrown(live: Inodes, used: seq<bool>, h: nat, e: Extent)
    requires Tight(live, used) && h !in live
    ensures Tight(live[h := e], Taken(used, h, e))
  {
    var next := live[h := e];
    forall x: nat | x < |used| && Taken(used, h, e)[x] ensures Owned(next, x) {
      if used[x] {
        var s :| s in live && Owns(live, s, x);
        assert s in next && Owns(next, s, x);
      } else {
        assert h in next && Owns(next, h, x);
      }
    }
  }

  lemma TightReturned(live: Inodes, used: seq<bool>, s: nat)
    requires Tight(live, used) && s in live
    ensures Tight(live - {s}, Returned(used, s, live[s]))
  {
    var rest := live - {s};
    forall x: nat | x < |used| && Returned(used, s, live[s])[x] ensures Owned(rest, x) {
      var t :| t in live && Owns(live, t, x);
      assert t != s;
      assert t in rest && Owns(rest, t, x);
    }
  }

  /** An inode that is dropped without being given back leaves its header marked for nobody. */
  lemma DroppedLeaks(live: Inodes, used: seq<bool>, s: nat)
    requires OneOwner(live) && Marked(live, used) && s in live
    ensures !Tight(live - {s}, used)
  {
    assert Owns(live, s, s);
    if Owned(live - {s}, s) {
      var t :| t in live - {s} && Owns(live - {s}, t, s);
      assert Owns(live, t, s);
    }
  }

  /** A sector that was free and is marked without an inode joining is marked for nobody. */
  lemma NewMarkLeaks(live: Inodes, used: seq<bool>, now: seq<bool>, x: nat)
    requires Marked(live, used) && x < |used| == |now| && !used[x] && now[x]
    ensures !Tight(live, now)
  {
    forall t | t in live ensures !Owns(live, t, x) {
    }
    assert !Owned(live, x);
  }
}
