/** Directories: a file of fixed-size entries that maps names to inode sectors
    (src/filesys/directory.c:87-216). */
module Directory {
  import opened Options
  import opened Bytes
  import opened FileData
  import opened DiskFormat

  // ----- what a directory says -----

  /** No two entries in use lead to the same inode. */
  ghost predicate SectorsUnique(es: seq<Entry>)
  {
    forall i, j | 0 <= i < j < |es| && es[i].inUse && es[j].inUse :: es[i].sector != es[j].sector
  }

  /** No two entries in use have the same name. */
  ghost predicate NamesUnique(es: seq<Entry>)
  {
    forall i, j | 0 <= i < j < |es| && es[i].inUse && es[j].inUse :: es[i].name != es[j].name
  }

  /** Some entry in use leads to sector s. */
  ghost predicate Listed(es: seq<Entry>, s: nat)
  {
    exists i | 0 <= i < |es| :: es[i].inUse && es[i].sector == s
  }

  /** The map from names to sectors that the entries in use make up; the first entry with a name counts. */
  ghost function Names(es: seq<Entry>): (m: map<Name, nat>)
  {
    if es == [] then map[] else
    var m := Names(es[1..]);
    if es[0].inUse then m[es[0].name := es[0].sector] else m
  }

  lemma {:induction false} NamesWitness(es: seq<Entry>, n: Name) returns (i: nat)
    requires n in Names(es)
    ensures i < |es| && es[i].inUse && es[i].name == n && es[i].sector == Names(es)[n]
    ensures forall j | 0 <= j < i :: !(es[j].inUse && es[j].name == n)
  {
    if es[0].inUse && es[0].name == n {
      i := 0;
    } else {
      i := NamesWitness(es[1..], n);
      i := i + 1;
    }
  }

  lemma {:induction false} NamesFirst(es: seq<Entry>, i: nat)
    requires i < |es| && es[i].inUse && forall j | 0 <= j < i :: !(es[j].inUse && es[j].name == es[i].name)
    ensures es[i].name in Names(es) && Names(es)[es[i].name] == es[i].sector
  {
    if i > 0 {
      NamesFirst(es[1..], i - 1);
    }
  }

  lemma {:induction false} NamesIn(es: seq<Entry>, i: nat)
    requires i < |es| && es[i].inUse
    ensures es[i].name in Names(es)
  {
    if i > 0 {
      NamesIn(es[1..], i - 1);
    }
  }

  lemma NamesAt(es: seq<Entry>, i: nat)
    requires NamesUnique(es) && i < |es| && es[i].inUse
    ensures es[i].name in Names(es) && Names(es)[es[i].name] == es[i].sector
  {
    hide Names;
    NamesFirst(es, i);
  }

  /** Filling a free entry adds one name. */
  lemma NamesFill(es: seq<Entry>, i: nat, e: Entry)
    requires NamesUnique(es) && i < |es| && !es[i].inUse && e.inUse && e.name !in Names(es)
    ensures NamesUnique(es[i := e]) && Names(es[i := e]) == Names(es)[e.name := e.sector]
  {
    var fs := es[i := e];
    assert NamesUnique(fs) by {
      hide Names;
      forall j | 0 <= j < |es| && es[j].inUse ensures es[j].name in Names(es) {
        NamesIn(es, j);
      }
    }
    hide Names, NamesUnique;
    NamesAt(fs, i);
    forall n ensures n in Names(fs) <==> n in Names(es) || n == e.name {
      NameKept(es, fs, n, e.name);
      NameKept(fs, es, n, e.name);
    }
    forall n | n in Names(fs) ensures Names(fs)[n] == Names(es)[e.name := e.sector][n] {
      NameKept(es, fs, n, e.name);
      NameKept(fs, es, n, e.name);
    }
  }

  /** A name found among entries is found in any entries that agree about it. */
  lemma NameKept(es: seq<Entry>, fs: seq<Entry>, n: Name, except: Name)
    requires |es| == |fs| && NamesUnique(fs)
    requires forall j | 0 <= j < |es| && es[j].inUse && es[j].name != except :: fs[j] == es[j]
    ensures n in Names(es) && n != except ==> n in Names(fs) && Names(fs)[n] == Names(es)[n]
  {
    hide Names, NamesUnique;
    if n in Names(es) && n != except {
      var j := NamesWitness(es, n);
      NamesAt(fs, j);
    }
  }

  /** Erasing an entry drops its name. */
  lemma NamesErase(es: seq<Entry>, i: nat)
    requires NamesUnique(es) && i < |es| && es[i].inUse
    ensures NamesUnique(es[i := es[i].(inUse := false)]) && Names(es[i := es[i].(inUse := false)]) == Names(es) - {es[i].name}
  {
    var fs, gone := es[i := es[i].(inUse := false)], es[i].name;
    assert gone !in Names(fs) by {
      hide Names;
      if gone in Names(fs) {
        var j := NamesWitness(fs, gone);
      }
    }
    assert forall j | 0 <= j < |es| && es[j].inUse && es[j].name != gone :: fs[j] == es[j];
    assert forall j | 0 <= j < |es| && fs[j].inUse && fs[j].name != gone :: fs[j] == es[j];
    hide Names, NamesUnique;
    forall n ensures n in Names(fs) <==> n in Names(es) && n != gone {
      NameKept(es, fs, n, gone);
      NameKept(fs, es, n, gone);
    }
    forall n | n in Names(fs) ensures Names(fs)[n] == Names(es)[n] {
      NameKept(fs, es, n, gone);
    }
  }

  /** What writing entry i does to the sectors that are listed. */
  lemma ListedAfter(es: seq<Entry>, i: nat, e: Entry)
    requires SectorsUnique(es) && i < |es|
    ensures forall s: nat :: Listed(es[i := e], s) <==>
      (e.inUse && e.sector == s) || (Listed(es, s) && !(es[i].inUse && es[i].sector == s))
    ensures !e.inUse || !Listed(es, e.sector) ==> SectorsUnique(es[i := e])
  {
    var fs := es[i := e];
    forall s: nat ensures Listed(fs, s) <==> (e.inUse && e.sector == s) || (Listed(es, s) && !(es[i].inUse && es[i].sector == s)) {
      if Listed(fs, s) {
        var j :| 0 <= j < |fs| && fs[j].inUse && fs[j].sector == s;
        assert j != i ==> es[j].inUse && es[j].sector == s;
      }
      if e.inUse && e.sector == s {
        assert fs[i].inUse && fs[i].sector == s;
      }
      if Listed(es, s) && !(es[i].inUse && es[i].sector == s) {
        var j :| 0 <= j < |es| && es[j].inUse && es[j].sector == s;
        assert fs[j].inUse && fs[j].sector == s;
      }
    }
    if !e.inUse || !Listed(es, e.sector) {
      forall j | 0 <= j < |es| && es[j].inUse && e.inUse ensures es[j].sector != e.sector {
      }
    }
  }

  // ----- searching, when reads can fail -----

  /** The outcome of each read of a search: whether the bounce buffer for reading entry i can be had. */
  type Reads = nat -> bool

  /** lookup from entry i on: it stops at a match, at the end, or at a read that fails. */
  function FindName(es: seq<Entry>, name: Name, reading: Reads, i: nat): (r: Option<nat>)
    requires i <= |es|
    ensures r.Some? ==> i <= r.value < |es| && es[r.value].inUse && es[r.value].name == name
    decreases |es| - i
  {
    if i == |es| || !reading(i) then None
    else if es[i].inUse && es[i].name == name then Some(i)
    else FindName(es, name, reading, i + 1)
  }

  /** Where the search of dir_add stops: at a free entry, at the end, or at a read that fails. */
  function Stop(es: seq<Entry>, reading: Reads, i: nat): (k: nat)
    requires i <= |es|
    ensures i <= k <= |es|
    decreases |es| - i
  {
    if i == |es| || !reading(i) || !es[i].inUse then i else Stop(es, reading, i + 1)
  }

  /** lookup finds a name exactly when some entry has it and no read up to the first such entry fails, and then
      it finds what the name means. */
  lemma FindExactly(es: seq<Entry>, name: Name, reading: Reads)
    ensures var r := FindName(es, name, reading, 0);
      && (r.Some? ==> name in Names(es) && Names(es)[name] == es[r.value].sector)
      && (r.Some? <==> exists i | 0 <= i < |es| :: IsFirst(es, name, i) && forall j: nat | j <= i :: reading(j))
      && ((forall j: nat | j < |es| :: reading(j)) ==> (r.Some? <==> name in Names(es)))
  {
    hide Names;
    FindFrom(es, name, reading, 0);
    var r := FindName(es, name, reading, 0);
    if r.Some? {
      NamesFirst(es, r.value);
      assert IsFirst(es, name, r.value);
    }
    if name in Names(es) {
      var i := NamesWitness(es, name);
      assert IsFirst(es, name, i);
    }
  }

  ghost predicate IsFirst(es: seq<Entry>, name: Name, i: nat)
  {
    i < |es| && es[i].inUse && es[i].name == name && forall j | 0 <= j < i :: !(es[j].inUse && es[j].name == name)
  }

  lemma {:induction false} FindFrom(es: seq<Entry>, name: Name, reading: Reads, k: nat)
    requires k <= |es| && forall j | 0 <= j < k :: !(es[j].inUse && es[j].name == name)
    ensures var r := FindName(es, name, reading, k);
      && (r.Some? ==> IsFirst(es, name, r.value) && forall j: nat | k <= j <= r.value :: reading(j))
      && forall i: nat | IsFirst(es, name, i) && (forall j: nat | k <= j <= i :: reading(j)) :: r == Some(i)
    decreases |es| - k
  {
    if k < |es| && reading(k) && !(es[k].inUse && es[k].name == name) {
      FindFrom(es, name, reading, k + 1);
    }
  }

  // ----- dir_add -----

  /** Whether dir_add writes an entry: the name is valid and not found, and the write, to an entry of the file,
      succeeds. */
  predicate Adds(es: seq<Entry>, name: Name, lookup: Reads, search: Reads, write: bool)
  {
    0 < |name| <= NAME_MAX && FindName(es, name, lookup, 0).None? && write && Stop(es, search, 0) < |es|
  }

  /** The entries after dir_add. */
  function AfterAdd(es: seq<Entry>, name: Name, h: nat, lookup: Reads, search: Reads, write: bool): (fs: seq<Entry>)
  {
    if Adds(es, name, lookup, search, write) then es[Stop(es, search, 0) := Entry(h, name, true)] else es
  }

  /** Nothing is written, or a free entry is filled with a name that no entry has. */
  ghost predicate Clean(es: seq<Entry>, name: Name, lookup: Reads, search: Reads, write: bool)
  {
    Adds(es, name, lookup, search, write) ==> !es[Stop(es, search, 0)].inUse && name !in Names(es)
  }

  /** dir_add leaves the directory alone or adds exactly one new name, precisely when it is clean. Otherwise it
      overwrites an entry in use or gives a second entry to a name. */
  lemma AddExactly(es: seq<Entry>, name: Name, h: nat, lookup: Reads, search: Reads, write: bool)
    requires NamesUnique(es) && !Listed(es, h)
    ensures var fs := AfterAdd(es, name, h, lookup, search, write);
      (fs == es || (name !in Names(es) && Names(fs) == Names(es)[name := h])) <==> Clean(es, name, lookup, search, write)
  {
    hide Names, FindName, Stop;
    if Adds(es, name, lookup, search, write) {
      var k := Stop(es, search, 0);
      var fs := es[k := Entry(h, name, true)];
      assert fs[k] != es[k] by {
        assert es[k].inUse && es[k].sector == h ==> Listed(es, h);
      }
      if !es[k].inUse && name !in Names(es) {
        NamesFill(es, k, Entry(h, name, true));
      } else if name !in Names(es) {
        LosesName(es, k, Entry(h, name, true));
      }
    }
  }

  /** Overwriting an entry in use with another name loses its name. */
  lemma LosesName(es: seq<Entry>, k: nat, e: Entry)
    requires NamesUnique(es) && k < |es| && es[k].inUse && e.inUse && e.name !in Names(es)
    ensures es[k].name in Names(es) && es[k].name != e.name && es[k].name !in Names(es[k := e])
  {
    hide Names;
    NamesIn(es, k);
    var fs := es[k := e];
    if es[k].name in Names(fs) {
      var j := NamesWitness(fs, es[k].name);
    }
  }

  /** When names stay unique: the name is new, or the entry overwritten had it. */
  lemma UniqueExactly(es: seq<Entry>, name: Name, h: nat, lookup: Reads, search: Reads, write: bool)
    requires NamesUnique(es)
    ensures NamesUnique(AfterAdd(es, name, h, lookup, search, write)) <==>
      (Adds(es, name, lookup, search, write) ==>
         name !in Names(es) || (var k := Stop(es, search, 0); es[k].inUse && es[k].name == name))
  {
    hide Names, FindName, Stop;
    if Adds(es, name, lookup, search, write) {
      var k := Stop(es, search, 0);
      var fs := es[k := Entry(h, name, true)];
      forall j | 0 <= j < |es| && es[j].inUse ensures es[j].name in Names(es) {
        NamesIn(es, j);
      }
      if name in Names(es) {
        var i := NamesWitness(es, name);
        if i != k {
          assert fs[i].inUse && fs[k].inUse && fs[i].name == fs[k].name;
        }
      }
    }
  }

  /** Enough for a clean add: no read of either search fails. */
  lemma CleanWhenRead(es: seq<Entry>, name: Name, lookup: Reads, search: Reads, write: bool)
    requires (forall i: nat | i < |es| :: lookup(i)) && (forall i: nat | i < |es| :: search(i))
    ensures Clean(es, name, lookup, search, write)
  {
    hide Names;
    FindExactly(es, name, lookup);
    StopsFree(es, search, 0);
  }

  ghost predicate HasFree(es: seq<Entry>)
  {
    exists j | 0 <= j < |es| :: !es[j].inUse
  }

  /** With all reads successful, dir_add adds exactly the valid new names, given a free entry and the write. */
  lemma AddsWhenRead(es: seq<Entry>, name: Name, lookup: Reads, search: Reads, write: bool)
    requires (forall i: nat | i < |es| :: lookup(i)) && (forall i: nat | i < |es| :: search(i))
    ensures Adds(es, name, lookup, search, write) <==> 0 < |name| <= NAME_MAX && name !in Names(es) && HasFree(es) && write
  {
    hide Names;
    FindExactly(es, name, lookup);
    StopsFree(es, search, 0);
  }

  lemma {:induction false} StopsFree(es: seq<Entry>, search: Reads, i: nat)
    requires i <= |es| && forall j: nat | j < |es| :: search(j)
    ensures var k := Stop(es, search, i);
      && (k < |es| ==> !es[k].inUse) && (forall j | i <= j < k :: es[j].inUse)
      && (k < |es| <==> exists j | i <= j < |es| :: !es[j].inUse)
    decreases |es| - i
  {
    if i < |es| && es[i].inUse {
      StopsFree(es, search, i + 1);
    }
  }

  /** A root directory as do_format makes it, with one file. */
  function OneFile(name: Name, sector: nat): (es: seq<Entry>)
    ensures |es| == 16
  {
    [Entry(sector, name, true)] + seq(15, _ => Entry(0, [], false))
  }

  lemma OneFileNames(name: Name, sector: nat)
    ensures var es := OneFile(name, sector); NamesUnique(es) && forall n :: n in Names(es) <==> n == name
  {
    hide Names;
    var es := OneFile(name, sector);
    NamesIn(es, 0);
    forall n | n in Names(es) ensures n == name {
      var i := NamesWitness(es, n);
    }
  }

  /** A search whose first read fails lets the write destroy the only name. */
  lemma OverwritesName(a: Name, b: Name)
    requires a != b && 0 < |b| <= NAME_MAX
    ensures var es := OneFile(a, 5); var fs := AfterAdd(es, b, 9, _ => true, _ => false, true);
      a in Names(es) && a !in Names(fs) && fs[0] == Entry(9, b, true)
  {
    hide Names, FindName;
    var es := OneFile(a, 5);
    OneFileNames(a, 5);
    FindExactly(es, b, _ => true);
    LosesName(es, 0, Entry(9, b, true));
  }

  /** A lookup whose first read fails lets the name get a second entry. */
  lemma DuplicatesName(a: Name)
    requires 0 < |a| <= NAME_MAX
    ensures var es := OneFile(a, 5); var fs := AfterAdd(es, a, 9, _ => false, _ => true, true);
      NamesUnique(es) && !NamesUnique(fs) && fs[0] == Entry(5, a, true) && fs[1] == Entry(9, a, true)
  {
    hide Names;
    OneFileNames(a, 5);
    var es := OneFile(a, 5);
    assert Stop(es, _ => true, 1) == 1;
    var fs := es[1 := Entry(9, a, true)];
    assert fs[0].inUse && fs[1].inUse && fs[0].name == fs[1].name;
  }

  // ----- reading entries -----

  /** Reads of whole entries: all of them come back full exactly when a bounce buffer can be had. */
  lemma EntryTransfer(length: nat, i: nat, memory: bool)
    ensures Transferred(length, ENTRY, i * ENTRY, memory) == ENTRY <==> memory && i < length / ENTRY
  {
  }

  /** Fetches entry i as the loops of lookup and dir_add do. */
  method ReadEntry(disk: Disk, e: Extent, i: nat, memory: bool) returns (b: Option<seq<Byte>>)
    requires WellFormed(disk.sectors) && e.On(disk.sectors)
    ensures b.Some? <==> memory && i < e.length / ENTRY
    ensures b.Some? ==> b.value == Slot(Contents(disk.sectors, e), i)
  {
    hide Contents, Transferred, ByteAt, Extent.On;
    var buffer := new Byte[ENTRY](_ => 0);
    var n := disk.ReadAt(e, buffer, ENTRY, i * ENTRY, memory);
    EntryTransfer(e.length, i, memory);
    if n == ENTRY {
      assert buffer[..n] == buffer[..];
      b := Some(buffer[..]);
    } else {
      b := None;
    }
  }

  /** lookup. */
  method Lookup(disk: Disk, e: Extent, name: Name, reading: Reads) returns (r: Option<nat>, bytes: seq<Byte>)
    requires WellFormed(disk.sectors) && e.On(disk.sectors)
    ensures r == FindName(Entries(Contents(disk.sectors, e)), name, reading, 0)
    ensures r.Some? ==> r.value < e.length / ENTRY && bytes == Slot(Contents(disk.sectors, e), r.value)
  {
    ghost var c := Contents(disk.sectors, e);
    ghost var es := Entries(c);
    hide Contents, Entries, Slot, EntryOf, Extent.On, FindName;
    var i: nat := 0;
    var b := ReadEntry(disk, e, i, reading(i));
    while b.Some?
      invariant i <= |es| && (b.Some? <==> reading(i) && i < |es|)
      invariant b.Some? ==> b.value == Slot(c, i)
      invariant FindName(es, name, reading, 0) == FindName(es, name, reading, i)
      decreases |es| - i
    {
      FindStep(es, name, reading, i);
      var entry := EntryOf(b.value);
      if entry.inUse && entry.name == name {
        return Some(i), b.value;
      }
      i := i + 1;
      b := ReadEntry(disk, e, i, reading(i));
    }
    FindStep(es, name, reading, i);
    r, bytes := None, [];
  }

  lemma FindStep(es: seq<Entry>, name: Name, reading: Reads, i: nat)
    requires i <= |es|
    ensures FindName(es, name, reading, i) ==
      if i == |es| || !reading(i) then None else if es[i].inUse && es[i].name == name then Some(i) else FindName(es, name, reading, i + 1)
  {
  }

  /** dir_add's search. The entry that it read last stays in the buffer for dir_add to fill in; the contents of
      the buffer before the first read are taken to be zeros. */
  method FindSlot(disk: Disk, e: Extent, reading: Reads) returns (i: nat, last: seq<Byte>)
    requires WellFormed(disk.sectors) && e.On(disk.sectors)
    ensures i == Stop(Entries(Contents(disk.sectors, e)), reading, 0) && |last| == ENTRY
  {
    ghost var c := Contents(disk.sectors, e);
    ghost var es := Entries(c);
    hide Contents, Entries, Slot, EntryOf, Extent.On;
    i, last := 0, seq(ENTRY, _ => 0);
    var b := ReadEntry(disk, e, i, reading(i));
    while b.Some?
      invariant i <= |es| && |last| == ENTRY && (b.Some? <==> reading(i) && i < |es|)
      invariant b.Some? ==> b.value == Slot(c, i)
      invariant Stop(es, reading, 0) == Stop(es, reading, i)
      decreases |es| - i
    {
      last := b.value;
      if !EntryOf(last).inUse {
        return;
      }
      i := i + 1;
      b := ReadEntry(disk, e, i, reading(i));
    }
  }

  // ----- writing entries -----

  lemma EntryTransferNone(length: nat, i: nat, memory: bool)
    requires length % ENTRY == 0 && !(memory && i < length / ENTRY)
    ensures Transferred(length, ENTRY, i * ENTRY, memory) == 0
  {
  }

  /** Writes one entry; a write that fails leaves the disk alone. */
  method WriteEntry(disk: Disk, e: Extent, denyWriteCnt: nat, i: nat, b: seq<Byte>, memory: bool) returns (ok: bool)
    requires WellFormed(disk.sectors) && e.On(disk.sectors) && e.length % ENTRY == 0 && |b| == ENTRY
    modifies disk
    ensures ok <==> denyWriteCnt == 0 && memory && i < e.length / ENTRY
    ensures Stored(old(disk.sectors), disk.sectors, e, i * ENTRY, if ok then b else [])
  {
    hide Stored, Transferred, Extent.On;
    var buffer := new Byte[ENTRY](k requires 0 <= k < ENTRY => b[k]);
    var n := disk.WriteAt(e, denyWriteCnt, buffer, ENTRY, i * ENTRY, memory);
    EntryTransfer(e.length, i, memory);
    if memory && i < e.length / ENTRY {
      assert buffer[..ENTRY] == b;
    } else {
      EntryTransferNone(e.length, i, memory);
    }
    assert n == 0 ==> buffer[..n] == [];
    ok := n == ENTRY;
  }

  lemma StoredNone(d: Sectors, t: Sectors, e: Extent, offset: nat)
    requires Stored(d, t, e, offset, [])
    ensures t == d
  {
    forall s | 0 <= s < |d| ensures t[s] == d[s] {
      assert forall o | 0 <= o < SECTOR :: t[s][o] == d[s][o];
    }
  }

  /** dir_add. It succeeds exactly when Adds says so, and then it has written the new entry (b, with index i) where
      its search stopped. */
  method Add(disk: Disk, e: Extent, name: Name, sector: nat, lookup: Reads, search: Reads, write: bool)
    returns (ok: bool, ghost i: nat, ghost b: seq<Byte>)
    requires WellFormed(disk.sectors) && e.On(disk.sectors) && e.length % ENTRY == 0
    requires 0 !in name && sector < WORD_LIMIT
    modifies disk
    ensures var es := Entries(Contents(old(disk.sectors), e));
      && (ok <==> Adds(es, name, lookup, search, write))
      && (ok ==> i == Stop(es, search, 0) < |es| && |b| == ENTRY && EntryOf(b) == Entry(sector, name, true)
                 && Stored(old(disk.sectors), disk.sectors, e, i * ENTRY, b))
    ensures !ok ==> disk.sectors == old(disk.sectors)
  {
    ghost var es := Entries(Contents(disk.sectors, e));
    assert |es| == e.length / ENTRY;
    hide Stored, Contents, Entries, EntryOf, Extent.On, Slot, FilledEntry, FindName, Stop;
    i, b := 0, [];
    if name == [] || |name| > NAME_MAX {
      return false, 0, [];
    }
    var taken, _ := Lookup(disk, e, name, lookup);
    if taken.Some? {
      return false, 0, [];
    }
    var at, last := FindSlot(disk, e, search);
    var filled := FilledEntry(last, name, sector);
    ghost var before := disk.sectors;
    ok := WriteEntry(disk, e, 0, at, filled, write);
    if !ok {
      // At the end of the file, or without a bounce buffer, nothing is written.
      StoredNone(before, disk.sectors, e, at * ENTRY);
    }
    i, b := at, filled;
  }
}
