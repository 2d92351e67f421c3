/** The state of the file system as values: what every operation keeps, and what it means to a caller,
    namely a map from names to inodes and a map from inodes to byte arrays. */
module FileState {
  import opened Bytes
  import opened FileData
  import opened DiskFormat
  import opened Directory
  import opened Bitmap
  import opened Ownership

  /** An in-memory inode (struct inode). */
  datatype OpenInode = OpenInode(openCnt: nat, removed: bool, denyWriteCnt: nat, data: Extent)

  /** The open inodes by sector: opening a sector twice gives the same in-memory inode. */
  type OpenInodes = map<nat, OpenInode>

  ghost function RootEntries(live: Inodes, d: Sectors): (es: seq<Entry>)
    requires OnDisk(live, d) && ROOT_DIR_SECTOR in live
  {
    Entries(Contents(d, live[ROOT_DIR_SECTOR]))
  }

  ghost function RootNames(live: Inodes, d: Sectors): (m: map<Name, nat>)
    requires OnDisk(live, d) && ROOT_DIR_SECTOR in live
  {
    Names(RootEntries(live, d))
  }

  /** The contents of the files, by header sector. */
  ghost function FileMap(live: Inodes, d: Sectors): (m: map<nat, seq<Byte>>)
    requires OnDisk(live, d)
  {
    map s | s in live && s > ROOT_DIR_SECTOR :: Contents(d, live[s])
  }

  /** Entries in use lead to live files. */
  ghost predicate EntriesOk(es: seq<Entry>, live: Inodes)
  {
    forall s: nat | Listed(es, s) :: s in live && s > ROOT_DIR_SECTOR
  }

  ghost predicate OpenOk(open: OpenInodes, live: Inodes, es: seq<Entry>)
  {
    && (forall s | s in open ::
          && s in live && open[s].data == live[s] && 0 < open[s].openCnt && open[s].denyWriteCnt <= open[s].openCnt
          && (open[s].removed ==> s > ROOT_DIR_SECTOR && !Listed(es, s)))
    && (ROOT_DIR_SECTOR in open ==> open[ROOT_DIR_SECTOR].denyWriteCnt == 0)
  }

  /** A file is live only while an entry leads to it or it is open. */
  ghost predicate AllReachable(open: OpenInodes, live: Inodes, es: seq<Entry>)
  {
    forall s | s in live && s > ROOT_DIR_SECTOR :: Listed(es, s) || s in open
  }

  ghost predicate DirectoryOk(live: Inodes, d: Sectors)
    requires OnDisk(live, d)
  {
    && FREE_MAP_SECTOR in live && ROOT_DIR_SECTOR in live && live[ROOT_DIR_SECTOR].length % ENTRY == 0
    && SectorsUnique(RootEntries(live, d))
  }

  /** What every operation keeps, whatever fails. */
  ghost predicate Sound(live: Inodes, used: seq<bool>, d: Sectors, open: OpenInodes)
  {
    && Laid(live, used, d) && DirectoryOk(live, d)
    && EntriesOk(RootEntries(live, d), live)
    && OpenOk(open, live, RootEntries(live, d))
    && AllReachable(open, live, RootEntries(live, d))
  }

  /** What every operation keeps as long as names are added cleanly: names are unique, and an open file has a name
      unless it was removed. */
  ghost predicate Tidy(es: seq<Entry>, open: OpenInodes)
  {
    NamesUnique(es) && forall s | s in open && s > ROOT_DIR_SECTOR && !open[s].removed :: Listed(es, s)
  }

  /** What a caller can see is the same in both states. */
  ghost predicate SameView(live: Inodes, d: Sectors, next: Inodes, t: Sectors)
  {
    && OnDisk(live, d) && OnDisk(next, t) && ROOT_DIR_SECTOR in live && ROOT_DIR_SECTOR in next
    && RootEntries(next, t) == RootEntries(live, d) && FileMap(next, t) == FileMap(live, d)
  }

  // ----- steps -----

  /** Changes to sectors that no live inode owns. */
  lemma UnownedStep(live: Inodes, used: seq<bool>, d: Sectors, open: OpenInodes, marks: seq<bool>, t: Sectors)
    requires Sound(live, used, d, open) && SameOwned(live, d, t) && Laid(live, marks, t)
    ensures Sound(live, marks, t, open) && SameView(live, d, live, t)
  {
    hide Names, Entries, Contents, SameOwned, OneOwner, Marked;
    forall s | s in live ensures Contents(t, live[s]) == Contents(d, live[s]) {
      SameOwnedContents(live, used, d, t, s);
    }
  }

  /** The inode that loses its last way in when entry i is overwritten: one that is listed there and not open. */
  ghost predicate Dropped(es: seq<Entry>, i: nat, open: OpenInodes)
    requires i < |es|
  {
    es[i].inUse && es[i].sector !in open
  }

  ghost function WithoutDropped<T>(m: map<nat, T>, es: seq<Entry>, i: nat, open: OpenInodes): (n: map<nat, T>)
    requires i < |es|
  {
    if Dropped(es, i, open) then m - {es[i].sector} else m
  }

  /** A new inode in unowned sectors gets entry i, whatever was there. If the entry was in use, its file is lost
      unless it is open; everything else stays in order. */
  lemma CreateStep(live: Inodes, used: seq<bool>, d: Sectors, open: OpenInodes, h: nat, e: Extent,
                   t: Sectors, i: nat, b: seq<Byte>)
    requires OnDisk(live, d) && ROOT_DIR_SECTOR in live && e.On(d)
    requires Sound(live, used, d, open) && h !in live && h > ROOT_DIR_SECTOR && Laid(live[h := e], used, d)
    requires i < |RootEntries(live, d)| && |b| == ENTRY && EntryOf(b).inUse && EntryOf(b).sector == h
    requires Stored(d, t, live[ROOT_DIR_SECTOR], i * ENTRY, b)
    ensures OnDisk(WithoutDropped(live, RootEntries(live, d), i, open)[h := e], t)
    ensures var es := RootEntries(live, d); var next := WithoutDropped(live, es, i, open)[h := e];
      && Sound(next, used, t, open) && ROOT_DIR_SECTOR in next && next[ROOT_DIR_SECTOR] == live[ROOT_DIR_SECTOR]
      && !Listed(es, h) && RootEntries(next, t) == es[i := EntryOf(b)]
      && FileMap(next, t) == WithoutDropped(FileMap(live, d), es, i, open)[h := Contents(d, e)]
  {
    hide Entries, Contents, EntryOf, SectorsUnique, Stored, HeaderOf, Listed, Laid, OnDisk, Extent.On, RootEntries, FileMap,
      EntriesOk, OpenOk, AllReachable, WithoutDropped;
    OnDevice(live, used, d, ROOT_DIR_SECTOR);
    var all, es := live[h := e], RootEntries(live, d);
    OnDevice(all, used, d, h);
    NewFileView(live, d, h, e);
    RootWritten(all, used, d, t, i, b);
    EntryAdded(open, live, es, i, EntryOf(b), e);
    Settled(live, used, t, open, es, i, h, e, FileMap(live, d), Contents(d, e));
    SoundFrom(WithoutDropped(live, es, i, open)[h := e], used, t, open);
  }

  /** The new inode is there, and the one that is lost is dropped. */
  lemma Settled(live: Inodes, used: seq<bool>, t: Sectors, open: OpenInodes, es: seq<Entry>, i: nat, h: nat, e: Extent,
                files: map<nat, seq<Byte>>, c: seq<Byte>)
    requires Laid(live[h := e], used, t) && i < |es| && h !in live && FREE_MAP_SECTOR in live && ROOT_DIR_SECTOR in live
    requires FileMap(live[h := e], t) == files[h := c] && EntriesOk(es, live)
    ensures var next := WithoutDropped(live, es, i, open)[h := e];
      && Laid(next, used, t) && FREE_MAP_SECTOR in next && ROOT_DIR_SECTOR in next && next[ROOT_DIR_SECTOR] == live[h := e][ROOT_DIR_SECTOR]
      && RootEntries(next, t) == RootEntries(live[h := e], t)
      && FileMap(next, t) == WithoutDropped(files, es, i, open)[h := c]
  {
    hide Laid, OnDisk, RootEntries, FileMap, Listed;
    var all := live[h := e];
    OnDevice(all, used, t, h);
    if Dropped(es, i, open) {
      var gone := es[i].sector;
      WasListed(es, i);
      Forgotten(all, used, t, gone);
      assert all - {gone} == (live - {gone})[h := e];
      assert files[h := c] - {gone} == (files - {gone})[h := c];
    }
  }

  lemma SoundFrom(live: Inodes, used: seq<bool>, d: Sectors, open: OpenInodes)
    requires Laid(live, used, d) && FREE_MAP_SECTOR in live && ROOT_DIR_SECTOR in live && live[ROOT_DIR_SECTOR].length % ENTRY == 0
    requires SectorsUnique(RootEntries(live, d)) && EntriesOk(RootEntries(live, d), live)
    requires OpenOk(open, live, RootEntries(live, d)) && AllReachable(open, live, RootEntries(live, d))
    ensures OnDisk(live, d) && Sound(live, used, d, open)
  {
  }

  lemma OnDevice(live: Inodes, used: seq<bool>, d: Sectors, s: nat)
    requires Laid(live, used, d) && s in live
    ensures OnDisk(live, d) && WellFormed(d) && live[s].On(d)
  {
  }

  /** An inode other than the two of the system is dropped from the live ones; its sectors stay marked. */
  lemma Forgotten(live: Inodes, used: seq<bool>, d: Sectors, gone: nat)
    requires Laid(live, used, d) && ROOT_DIR_SECTOR in live && gone in live && gone > ROOT_DIR_SECTOR
    ensures Laid(live - {gone}, used, d) && RootEntries(live - {gone}, d) == RootEntries(live, d)
    ensures FileMap(live - {gone}, d) == FileMap(live, d) - {gone}
  {
    InodeDropped(live, used, d, gone);
    hide Entries, Contents, HeaderOf, OneOwner, Marked;
  }

  lemma WasListed(es: seq<Entry>, i: nat)
    requires i < |es| && es[i].inUse
    ensures Listed(es, es[i].sector)
  {
  }

  /** What writing an entry for the new inode h does to the inodes. */
  lemma EntryAdded(open: OpenInodes, live: Inodes, es: seq<Entry>, i: nat, entry: Entry, e: Extent)
    requires SectorsUnique(es) && EntriesOk(es, live) && OpenOk(open, live, es) && AllReachable(open, live, es)
    requires i < |es| && entry.inUse && entry.sector !in live && entry.sector > ROOT_DIR_SECTOR
    ensures var fs, next := es[i := entry], WithoutDropped(live, es, i, open)[entry.sector := e];
      SectorsUnique(fs) && EntriesOk(fs, next) && OpenOk(open, next, fs) && AllReachable(open, next, fs)
    ensures !Listed(es, entry.sector)
  {
    hide SectorsUnique, Listed;
    ListedAfter(es, i, entry);
    if es[i].inUse {
      WasListed(es, i);
    }
  }

  lemma NewFileView(live: Inodes, d: Sectors, h: nat, e: Extent)
    requires OnDisk(live, d) && DirectoryOk(live, d) && h !in live && h > ROOT_DIR_SECTOR && OnDisk(live[h := e], d) && e.On(d)
    ensures DirectoryOk(live[h := e], d) && RootEntries(live[h := e], d) == RootEntries(live, d)
    ensures FileMap(live[h := e], d) == FileMap(live, d)[h := Contents(d, e)]
  {
    hide Entries, Contents, SectorsUnique, HeaderOf;
  }

  /** Writing directory entry i changes the names and no file. */
  lemma RootWritten(live: Inodes, used: seq<bool>, d: Sectors, t: Sectors, i: nat, b: seq<Byte>)
    requires Laid(live, used, d) && DirectoryOk(live, d)
    requires i < |RootEntries(live, d)| && |b| == ENTRY
    requires Stored(d, t, live[ROOT_DIR_SECTOR], i * ENTRY, b)
    ensures Laid(live, used, t) && RootEntries(live, t) == RootEntries(live, d)[i := EntryOf(b)]
    ensures FileMap(live, t) == FileMap(live, d)
  {
    hide Entries, Contents, SectorsUnique, HeaderOf, EntryOf, Stored, Marked, OneOwner, Spliced;
    EntryWritten(Contents(d, live[ROOT_DIR_SECTOR]), i, b);
    ViewAfterWrite(live, used, d, t, ROOT_DIR_SECTOR, i * ENTRY, b);
  }

  /** Contents after a write into one file. */
  lemma ViewAfterWrite(live: Inodes, used: seq<bool>, d: Sectors, t: Sectors, s: nat, offset: nat, data: seq<Byte>)
    requires Laid(live, used, d) && s in live && Stored(d, t, live[s], offset, data)
    requires data == [] || offset + |data| <= live[s].length
    ensures Laid(live, used, t)
    ensures Contents(t, live[s]) == Spliced(Contents(d, live[s]), offset, data)
    ensures forall r | r in live && r != s :: Contents(t, live[r]) == Contents(d, live[r])
  {
    StoredLaid(live, used, d, t, s, offset, data);
    hide Contents, Stored, Marked, OneOwner;
    forall r | r in live && r != s ensures Contents(t, live[r]) == Contents(d, live[r]) {
      StoredOthers(live, used, d, t, s, offset, data, r);
    }
  }

  /** Erasing the entry of a file that is open marks the open inode removed. */
  lemma EraseStep(live: Inodes, used: seq<bool>, d: Sectors, open: OpenInodes, t: Sectors, i: nat, b: seq<Byte>, h: nat)
    requires Sound(live, used, d, open) && i < |RootEntries(live, d)| && |b| == ENTRY
    requires RootEntries(live, d)[i].inUse && RootEntries(live, d)[i].sector == h
    requires EntryOf(b) == RootEntries(live, d)[i].(inUse := false)
    requires Stored(d, t, live[ROOT_DIR_SECTOR], i * ENTRY, b) && h in open
    ensures Sound(live, used, t, open[h := open[h].(removed := true)])
    ensures RootEntries(live, t) == RootEntries(live, d)[i := EntryOf(b)] && FileMap(live, t) == FileMap(live, d)
  {
    hide Entries, Contents, EntryOf, SectorsUnique, Stored, Marked, OneOwner, HeaderOf, Listed;
    var es := RootEntries(live, d);
    RootWritten(live, used, d, t, i, b);
    ListedAfter(es, i, EntryOf(b));
    WasListed(es, i);
  }

  /** Opening a live inode. */
  lemma OpenStep(live: Inodes, used: seq<bool>, d: Sectors, open: OpenInodes, s: nat)
    requires Sound(live, used, d, open) && s in live
    ensures s !in open ==> Sound(live, used, d, open[s := OpenInode(1, false, 0, HeaderOf(d[s]))])
    ensures s in open ==> Sound(live, used, d, open[s := open[s].(openCnt := open[s].openCnt + 1)])
  {
    hide Names, Entries, Contents, SectorsUnique, Marked, OneOwner, HeaderOf, Listed;
  }

  /** Closing an inode that stays live. */
  lemma CloseStep(live: Inodes, used: seq<bool>, d: Sectors, open: OpenInodes, s: nat)
    requires Sound(live, used, d, open) && s in open && open[s].denyWriteCnt < open[s].openCnt
    ensures open[s].openCnt > 1 ==> Sound(live, used, d, open[s := open[s].(openCnt := open[s].openCnt - 1)])
    ensures open[s].openCnt == 1 && (s <= ROOT_DIR_SECTOR || Listed(RootEntries(live, d), s)) ==> Sound(live, used, d, open - {s})
  {
    hide Names, Entries, Contents, SectorsUnique, Marked, OneOwner, HeaderOf, Listed, Laid;
  }

  /** The last close of an inode that no entry leads to. */
  lemma ReleaseStep(live: Inodes, used: seq<bool>, d: Sectors, open: OpenInodes, s: nat)
    requires Sound(live, used, d, open) && s in open && s > ROOT_DIR_SECTOR && !Listed(RootEntries(live, d), s)
    ensures s in live && s < |used| && RunAt(used, s, 1, true)
    ensures var e := live[s]; RunAt(used, e.start, SectorCount(e.length), true) && !e.Has(s)
    ensures Sound(live - {s}, used, d, open - {s}) && RootEntries(live - {s}, d) == RootEntries(live, d)
    ensures FileMap(live - {s}, d) == FileMap(live, d) - {s}
    ensures Unowned(live - {s}, s, 1) && Unowned(live - {s}, live[s].start, SectorCount(live[s].length))
  {
    hide Entries, Contents, SectorsUnique, HeaderOf, Unowned, Listed, Laid, OnDisk, RootEntries, FileMap, RunAt, SectorCount,
      EntriesOk, OpenOk, AllReachable;
    StillOpen(live, used, d, open, s);
    InodeDropped(live, used, d, s);
    OwnedMarked(live, used, d, s);
    Forgotten(live, used, d, s);
    Unlisted(open, live, RootEntries(live, d), s);
    SoundFrom(live - {s}, used, d, open - {s});
  }

  lemma StillOpen(live: Inodes, used: seq<bool>, d: Sectors, open: OpenInodes, s: nat)
    requires Sound(live, used, d, open) && s in open
    ensures s in live && OnDisk(live, d)
  {
  }

  lemma OwnedMarked(live: Inodes, used: seq<bool>, d: Sectors, s: nat)
    requires Laid(live, used, d) && s in live
    ensures s < |used| && RunAt(used, s, 1, true) && RunAt(used, live[s].start, SectorCount(live[s].length), true) && !live[s].Has(s)
  {
    hide HeaderOf;
    assert forall x: nat | Owns(live, s, x) :: used[x];
    assert Owns(live, s, s);
  }

  lemma Unlisted(open: OpenInodes, live: Inodes, es: seq<Entry>, s: nat)
    requires EntriesOk(es, live) && OpenOk(open, live, es) && AllReachable(open, live, es) && !Listed(es, s) && s > ROOT_DIR_SECTOR
    ensures EntriesOk(es, live - {s}) && OpenOk(open - {s}, live - {s}, es) && AllReachable(open - {s}, live - {s}, es)
  {
    hide Listed;
  }

  /** A write to an open file changes its contents only. */
  lemma WriteStep(live: Inodes, used: seq<bool>, d: Sectors, open: OpenInodes, t: Sectors, s: nat, offset: nat, data: seq<Byte>)
    requires Sound(live, used, d, open) && s in live && s > ROOT_DIR_SECTOR && Stored(d, t, live[s], offset, data)
    requires data == [] || offset + |data| <= live[s].length
    ensures Sound(live, used, t, open) && RootEntries(live, t) == RootEntries(live, d)
    ensures FileMap(live, t) == FileMap(live, d)[s := Spliced(FileMap(live, d)[s], offset, data)]
  {
    hide Entries, Contents, SectorsUnique, Marked, OneOwner, HeaderOf, Listed, Stored, Spliced, EntriesOk, OpenOk, AllReachable;
    ViewAfterWrite(live, used, d, t, s, offset, data);
    var next := FileMap(live, d)[s := Spliced(FileMap(live, d)[s], offset, data)];
    assert FileMap(live, t).Keys == next.Keys;
    assert forall r | r in next :: FileMap(live, t)[r] == next[r];
  }

  // ----- tidiness -----

  /** A creation keeps a tidy state tidy exactly when its name gets no second entry and no open file loses its
      entry. */
  lemma TidyAdd(es: seq<Entry>, open: OpenInodes, name: Name, h: nat, lookup: Reads, search: Reads, write: bool)
    requires Tidy(es, open) && SectorsUnique(es) && !Listed(es, h) && h !in open
    ensures Tidy(AfterAdd(es, name, h, lookup, search, write), open) <==>
      (Adds(es, name, lookup, search, write) ==>
         var k := Stop(es, search, 0);
         && (name !in Names(es) || (es[k].inUse && es[k].name == name))
         && !(es[k].inUse && es[k].sector in open && es[k].sector > ROOT_DIR_SECTOR && !open[es[k].sector].removed))
  {
    UniqueExactly(es, name, h, lookup, search, write);
    hide Names, FindName, Stop, SectorsUnique, NamesUnique, Listed;
    if Adds(es, name, lookup, search, write) {
      var k := Stop(es, search, 0);
      ListedAfter(es, k, Entry(h, name, true));
    }
  }

  lemma TidyErase(es: seq<Entry>, open: OpenInodes, i: nat)
    requires Tidy(es, open) && SectorsUnique(es) && i < |es| && es[i].inUse && es[i].sector in open
    ensures Tidy(es[i := es[i].(inUse := false)], open[es[i].sector := open[es[i].sector].(removed := true)])
  {
    NamesErase(es, i);
    ListedAfter(es, i, es[i].(inUse := false));
  }
}
