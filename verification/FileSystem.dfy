/** The file system: free map, inodes, the root directory and open files
    (src/filesys/filesys.c, inode.c:72-195, free-map.c:27-50, directory.c, file.c). */
module FileSystem {
  import opened Options
  import opened Bytes
  import opened FileData
  import opened DiskFormat
  import Directory
  import opened Bitmap
  import opened Ownership
  import opened FileState

  /** What succeeds in one operation: the allocations of the root's inode and directory handle, of a new inode's
      header, of a file's inode and of its handle; writing the free map for a header and for data; each read of
      lookup and of dir_add's search; and the writes of a new and of an erased entry. */
  datatype Luck = Luck(root: bool, dir: bool, header: bool, inode: bool, file: bool, mark: bool, markData: bool,
                       lookup: Directory.Reads, search: Directory.Reads, write: bool, erase: bool)

  function Zeros(n: nat): (s: seq<Byte>)
    ensures |s| == n && forall i | 0 <= i < n :: s[i] == 0
  {
    seq(n, _ => 0)
  }

  // ----- when a file can be created -----

  ghost predicate HasRun(m: seq<bool>, cnt: nat)
  {
    exists j: nat :: RunAt(m, j, cnt, false)
  }

  /** There is a free sector for the header, and then a run of free sectors for the data. */
  ghost predicate HasRoom(m: seq<bool>, cnt: nat)
  {
    exists h: nat | IsFirstRun(m, 0, 1, false, Some(h)) :: RunAt(m, h, 1, false) && HasRun(Filled(m, h, 1, true), cnt)
  }

  lemma FirstFits(m: seq<bool>, cnt: nat, r: Option<nat>)
    requires IsFirstRun(m, 0, cnt, false, r)
    ensures r.Some? <==> HasRun(m, cnt)
  {
  }

  lemma RoomWith(m: seq<bool>, cnt: nat, h: nat)
    requires IsFirstRun(m, 0, 1, false, Some(h))
    ensures h + 1 <= |m| && (HasRoom(m, cnt) <==> HasRun(Filled(m, h, 1, true), cnt))
  {
    hide HasRun;
    if HasRoom(m, cnt) {
      var k: nat :| IsFirstRun(m, 0, 1, false, Some(k)) && RunAt(m, k, 1, false) && HasRun(Filled(m, k, 1, true), cnt);
      assert RunAt(m, h, 1, false);
      assert !(h < k) && !(k < h);
    }
  }

  lemma NoRoom(m: seq<bool>, cnt: nat)
    requires !HasRun(m, 1)
    ensures !HasRoom(m, cnt)
  {
  }

  // ----- in-memory inodes -----

  ghost function Opened(open: OpenInodes, s: nat, e: Extent): (next: OpenInodes)
  {
    if s in open then open[s := open[s].(openCnt := open[s].openCnt + 1)] else open[s := OpenInode(1, false, 0, e)]
  }

  ghost function Closed(open: OpenInodes, s: nat): (next: OpenInodes)
    requires s in open && open[s].openCnt > 0
  {
    if open[s].openCnt > 1 then open[s := open[s].(openCnt := open[s].openCnt - 1)] else open - {s}
  }

  /** Opening two inodes in either order, and what that does to the second. */
  lemma OpenedBoth(open: OpenInodes, s: nat, e: Extent, r: nat, f: Extent)
    requires s != r
    ensures Opened(Opened(open, r, f), s, e) == Opened(Opened(open, s, e), r, f)
    ensures (r in Opened(open, s, e) <==> r in open) && (r in open ==> Opened(open, s, e)[r] == open[r])
  {
  }

  lemma OpenedClosed(open: OpenInodes, s: nat, e: Extent)
    requires s in open ==> open[s].openCnt > 0
    ensures Closed(Opened(open, s, e), s) == open
  {
  }

  /** Opening, removing and closing an inode. */
  lemma RemovedClosed(open: OpenInodes, s: nat, e: Extent)
    requires s in open ==> open[s].openCnt > 0 && open[s].denyWriteCnt <= open[s].openCnt
    ensures var next := Opened(open, s, e);
      && s in next && next[s].denyWriteCnt < next[s].openCnt && (next[s].openCnt == 1 <==> s !in open)
      && (next[s].removed <==> s in open && open[s].removed)
      && Closed(MarkRemoved(next, s), s) == if s in open then MarkRemoved(open, s) else open
  {
  }

  // ----- initial contents -----

  lemma ZeroContents(d: Sectors, e: Extent)
    requires WellFormed(d) && e.On(d) && forall x: nat | e.Has(x) :: d[x] == Zeros(SECTOR)
    ensures Contents(d, e) == Zeros(e.length)
  {
    var c := Contents(d, e);
    forall i | 0 <= i < e.length ensures c[i] == 0 {
      assert e.Has(e.start + i / SECTOR);
    }
  }

  class FileSystem {
    const disk: Disk
    const freeMap: PackedBitmap
    var openInodes: OpenInodes
    ghost var live: Inodes

    ghost predicate Valid()
      reads this, disk, freeMap.bits
    {
      freeMap.Valid() && Sound(live, freeMap.Model(), disk.sectors, openInodes)
    }

    ghost function Names(): (m: map<Name, nat>)
      reads this, disk
      requires OnDisk(live, disk.sectors) && ROOT_DIR_SECTOR in live
    {
      RootNames(live, disk.sectors)
    }

    /** The root directory's entries. */
    ghost function Listing(): (es: seq<Entry>)
      reads this, disk
      requires OnDisk(live, disk.sectors) && ROOT_DIR_SECTOR in live
    {
      RootEntries(live, disk.sectors)
    }

    /** Names are unique, and an open file has a name unless it was removed. */
    ghost predicate Neat()
      reads this, disk
      requires OnDisk(live, disk.sectors) && ROOT_DIR_SECTOR in live
    {
      Tidy(Listing(), openInodes)
    }

    /** No sector is marked that no live inode owns. */
    ghost predicate NoLeak()
      reads this, freeMap.bits
      requires freeMap.Valid()
    {
      Tight(live, freeMap.Model())
    }

    /** The root directory can be opened. */
    predicate RootOpens(luck: Luck)
      reads this`openInodes
    {
      luck.dir && (luck.root || ROOT_DIR_SECTOR in openInodes)
    }

    ghost function Files(): (m: map<nat, seq<Byte>>)
      reads this, disk
      requires OnDisk(live, disk.sectors)
    {
      FileMap(live, disk.sectors)
    }

    /** free_map_init and inode_init: only the two system headers are marked. */
    constructor (disk: Disk)
      requires |disk.sectors| >= 2
      ensures this.disk == disk && freeMap.Valid() && fresh(freeMap.bits) && freeMap.bitCnt == |disk.sectors|
      ensures freeMap.Model() == seq(freeMap.bitCnt, i => i < 2) && openInodes == map[] && live == map[]
    {
      this.disk := disk;
      freeMap := new PackedBitmap(|disk.sectors|);
      openInodes := map[];
      live := map[];
      new;
      freeMap.Mark(FREE_MAP_SECTOR);
      freeMap.Mark(ROOT_DIR_SECTOR);
    }

    /** free_map_allocate: the first run of free sectors, given back if the map cannot be written. */
    method Allocate(cnt: nat, persist: bool) returns (r: Option<nat>)
      requires freeMap.Valid()
      modifies freeMap.bits
      ensures freeMap.Valid()
      ensures r.Some? ==> IsFirstRun(old(freeMap.Model()), 0, cnt, false, r)
      ensures r.Some? <==> persist && HasRun(old(freeMap.Model()), cnt)
      ensures freeMap.Model() == if r.Some? then Filled(old(freeMap.Model()), r.value, cnt, true) else old(freeMap.Model())
    {
      hide PackedBitmap.Model;
      ghost var m := freeMap.Model();
      r := freeMap.ScanAndFlip(0, cnt, false);
      FirstFits(m, cnt, r);
      if r.Some? && !persist {
        Refilled(m, r.value, cnt);
        freeMap.SetMultiple(r.value, cnt, false);
        r := None;
      }
    }

    /** free_map_release; the precondition is its assertion. */
    method Release(at: nat, cnt: nat)
      requires freeMap.Valid() && RunAt(freeMap.Model(), at, cnt, true)
      modifies freeMap.bits
      ensures freeMap.Valid() && freeMap.Model() == Filled(old(freeMap.Model()), at, cnt, false)
    {
      freeMap.SetMultiple(at, cnt, false);
    }

    /** inode_create in a sector that is marked used and that nobody owns. On success the new inode e is
        ready to join the live ones, with all-zero contents in sectors that were free; on failure nothing
        changes. */
    method InodeCreate(sector: nat, length: nat, memory: bool, persist: bool) returns (ok: bool, ghost e: Extent)
      requires freeMap.Valid() && Laid(live, freeMap.Model(), disk.sectors) && length < 0x8000_0000
      requires RunAt(freeMap.Model(), sector, 1, true) && Unowned(live, sector, 1)
      modifies disk, freeMap.bits
      ensures freeMap.Valid() && Laid(live, freeMap.Model(), disk.sectors)
      ensures SameOwned(live, old(disk.sectors), disk.sectors) && |disk.sectors| == old(|disk.sectors|)
      ensures RunAt(freeMap.Model(), sector, 1, true)
      ensures ok <==> memory && persist && HasRun(old(freeMap.Model()), SectorCount(length))
      ensures ok ==>
        && sector !in live && Laid(live[sector := e], freeMap.Model(), disk.sectors) && e.length == length
        && RunAt(old(freeMap.Model()), e.start, SectorCount(length), false)
        && freeMap.Model() == Filled(old(freeMap.Model()), e.start, SectorCount(length), true)
        && e.On(disk.sectors) && Contents(disk.sectors, e) == Zeros(length)
      ensures !ok ==> disk.sectors == old(disk.sectors) && freeMap.Model() == old(freeMap.Model())
    {
      hide PackedBitmap.Model, PackedBitmap.Valid, OneOwner, Marked, Contents, HasRun;
      e := Extent(0, 0);
      ghost var used, d := freeMap.Model(), disk.sectors;
      if !memory {
        return false, e;
      }
      var sectors := SectorCount(length);
      var start := Allocate(sectors, persist);
      if start.None? {
        return false, e;
      }
      var data := Extent(start.value, length);
      AllocatedFacts(live, used, d, sector, data);
      disk.Write(sector, HeaderBytes(data));
      ghost var written := disk.sectors;
      WriteZeros(data.start, sectors);
      CreatedFacts(live, used, d, sector, data, written, disk.sectors);
      ok, e := true, data;
    }

    /** The loop that clears a new inode's data sectors. */
    method WriteZeros(start: nat, cnt: nat)
      requires start + cnt <= |disk.sectors|
      modifies disk
      ensures disk.sectors == Cleared(old(disk.sectors), start, cnt)
    {
      ghost var d := disk.sectors;
      var i := 0;
      assert Cleared(d, start, 0) == d;
      while i < cnt
        invariant 0 <= i <= cnt && disk.sectors == Cleared(d, start, i)
      {
        disk.Write(start + i, Zeros(SECTOR));
        assert disk.sectors == Cleared(d, start, i + 1);
        i := i + 1;
      }
    }

    /** do_format and free_map_open on a device whose free map is still blank: mapMemory and rootMemory say whether the
        two inodes can be allocated, mapUsable whether the free map's file can be opened, written and read back, and
        rootMarked whether the map can be written for the root directory. A false result stands for the kernel's
        panic; it is true exactly if nothing fails and the device has room. */
    method Format(mapMemory: bool, mapUsable: bool, rootMemory: bool, rootMarked: bool) returns (ok: bool)
      requires freeMap.Valid() && freeMap.Model() == seq(freeMap.bitCnt, i => i < 2) && freeMap.bitCnt == |disk.sectors|
      requires WellFormed(disk.sectors) && 2 <= |disk.sectors| <= WORD_LIMIT && live == map[] && openInodes == map[]
      modifies this`openInodes, this`live, disk, freeMap.bits
      ensures ok <==>
        && mapMemory && mapUsable && rootMemory && rootMarked
        && 2 + SectorCount(ByteCnt(|old(disk.sectors)|)) + SectorCount(16 * ENTRY) <= |old(disk.sectors)|
      ensures ok ==> Valid() && Names() == map[] && Files() == map[] && Neat() && NoLeak()
      ensures ok ==> openInodes.Keys == {FREE_MAP_SECTOR} && openInodes[FREE_MAP_SECTOR].openCnt == 1
                     && openInodes[FREE_MAP_SECTOR].denyWriteCnt == 0
    {
      hide PackedBitmap.Model, PackedBitmap.Valid, HasRun, Contents, SectorCount, Laid, RunAt, Unowned, SameOwned, Extent.On, WellFormed,
           OnDisk, Sound, HeaderOf, RootNames, RootEntries, FileMap, Tidy, Tight, Filled;
      ghost var e, r;
      ghost var n := |disk.sectors|;
      ghost var used := freeMap.Model();
      BlankDevice(used, disk.sectors);
      BlankRuns(used, SectorCount(ByteCnt(n)));
      MapNotEmpty(n);
      ok, e := InodeCreate(FREE_MAP_SECTOR, ByteCnt(freeMap.bitCnt), mapMemory, true);
      if !ok || !mapUsable {
        return false;
      }
      live := map[FREE_MAP_SECTOR := e];
      RootSectorUnowned(used, e);
      RoomForRoot(used, e);
      ghost var marks := freeMap.Model();
      ok, r := InodeCreate(ROOT_DIR_SECTOR, 16 * ENTRY, rootMemory, rootMarked);
      if !ok {
        return;
      }
      BlankTight(used, e, marks, r, freeMap.Model());
      live := live[ROOT_DIR_SECTOR := r];
      assert live.Keys == {FREE_MAP_SECTOR, ROOT_DIR_SECTOR};
      FormattedFacts(live, freeMap.Model(), disk.sectors);
      var header := disk.Read(FREE_MAP_SECTOR);
      openInodes := map[FREE_MAP_SECTOR := OpenInode(1, false, 0, HeaderOf(header))];
    }

    /** inode_open of a live inode: the header on disk becomes the in-memory inode, unless it is open already. */
    method InodeOpen(s: nat, memory: bool) returns (ok: bool)
      requires Valid() && s in live
      modifies this`openInodes
      ensures Valid() && (ok <==> s in old(openInodes) || memory)
      ensures openInodes == if ok then Opened(old(openInodes), s, live[s]) else old(openInodes)
    {
      hide Sound, HeaderOf, PackedBitmap.Model, PackedBitmap.Valid;
      OpenStep(live, freeMap.Model(), disk.sectors, openInodes, s);
      HeaderFacts(live, freeMap.Model(), disk.sectors, openInodes, s);
      if s in openInodes {
        openInodes := openInodes[s := openInodes[s].(openCnt := openInodes[s].openCnt + 1)];
        return true;
      }
      if !memory {
        return false;
      }
      var header := disk.Read(s);
      openInodes := openInodes[s := OpenInode(1, false, 0, HeaderOf(header))];
      ok := true;
    }

    /** inode_close. The last close of a removed inode gives its sectors back, and the assertion of
        free_map_release holds both times. The last close of an inode that lost its entry without being removed
        loses the file and keeps its sectors marked. */
    method InodeClose(s: nat)
      requires Valid() && s in openInodes && openInodes[s].denyWriteCnt < openInodes[s].openCnt
      modifies this`openInodes, this`live, freeMap.bits
      ensures Valid() && openInodes == Closed(old(openInodes), s)
      ensures live == if old(openInodes)[s].openCnt == 1 && s > ROOT_DIR_SECTOR && !Directory.Listed(old(Listing()), s)
                      then old(live) - {s} else old(live)
      ensures Listing() == old(Listing()) && Names() == old(Names())
      ensures Files() == if live == old(live) then old(Files()) else old(Files()) - {s}
      ensures s in old(live) && freeMap.Model() ==
        if old(openInodes)[s].openCnt == 1 && old(openInodes)[s].removed
        then Returned(old(freeMap.Model()), s, old(live)[s]) else old(freeMap.Model())
      ensures old(NoLeak()) ==>
        (NoLeak() <==> live == old(live) || old(openInodes)[s].removed)
    {
      hide Sound, PackedBitmap.Model, PackedBitmap.Valid, RunAt, Filled, SectorCount, RootEntries, FileMap, Directory.Listed,
           Returned, Tight;
      ghost var used := freeMap.Model();
      RootFacts(live, used, disk.sectors, openInodes);
      OpenFacts(live, used, disk.sectors, openInodes, s);
      CloseStep(live, used, disk.sectors, openInodes, s);
      var inode := openInodes[s];
      if inode.openCnt > 1 {
        openInodes := openInodes[s := inode.(openCnt := inode.openCnt - 1)];
      } else {
        ghost var lost := s > ROOT_DIR_SECTOR && !Directory.Listed(Listing(), s);
        if lost {
          ReleaseStep(live, used, disk.sectors, openInodes, s);
          LostLeaks(live, used, disk.sectors, openInodes, s);
        }
        if inode.removed {
          FilledReturned(used, s, inode.data);
          ReleasedFacts(live - {s}, used, disk.sectors, openInodes - {s}, s, inode.data);
          Release(s, 1);
          Release(inode.data.start, SectorCount(inode.data.length));
        }
        openInodes := openInodes - {s};
        if lost {
          live := live - {s};
        }
      }
    }

    /** dir_open_root. */
    method OpenRoot(luck: Luck) returns (ok: bool)
      requires Valid()
      modifies this`openInodes, this`live, freeMap.bits
      ensures Valid() && live == old(live) && freeMap.Model() == old(freeMap.Model())
      ensures openInodes == if ok then Opened(old(openInodes), ROOT_DIR_SECTOR, live[ROOT_DIR_SECTOR]) else old(openInodes)
      ensures ok <==> old(RootOpens(luck))
      ensures ok ==> ROOT_DIR_SECTOR in openInodes
    {
      hide Sound, PackedBitmap.Model, PackedBitmap.Valid, RootNames, RootEntries, FileMap;
      ghost var before := openInodes;
      RootFacts(live, freeMap.Model(), disk.sectors, openInodes);
      ok := InodeOpen(ROOT_DIR_SECTOR, luck.root);
      if ok && !luck.dir {
        CloseRoot(before);
        ok := false;
      }
    }

    /** dir_close of the root directory. */
    method CloseRoot(ghost before: OpenInodes)
      requires Valid() && openInodes == Opened(before, ROOT_DIR_SECTOR, live[ROOT_DIR_SECTOR])
      requires ROOT_DIR_SECTOR in before ==> before[ROOT_DIR_SECTOR].openCnt > 0
      modifies this`openInodes, this`live, freeMap.bits
      ensures Valid() && openInodes == before && live == old(live) && freeMap.Model() == old(freeMap.Model())
    {
      hide Sound, PackedBitmap.Model, PackedBitmap.Valid, RootNames, RootEntries, FileMap;
      RootFacts(live, freeMap.Model(), disk.sectors, openInodes);
      OpenedClosed(before, ROOT_DIR_SECTOR, live[ROOT_DIR_SECTOR]);
      InodeClose(ROOT_DIR_SECTOR);
    }

    /** The sectors for a file of this size can be had and recorded. */
    ghost predicate RoomFor(size: nat, luck: Luck)
      reads freeMap.bits
      requires freeMap.Valid()
    {
      luck.mark && luck.header && luck.markData && HasRoom(freeMap.Model(), SectorCount(size))
    }

    /** filesys_create. It succeeds exactly when there is room and dir_add writes an entry; the new file's entry is
        where dir_add's search stopped. Ownership, marking and layout survive in any case. A file whose entry is
        overwritten is lost unless it is open; if the add is clean, exactly one new name is added. A creation that
        fails changes the free map exactly when it got as far as dir_add with a file that has data sectors: those
        stay marked used although nobody owns them. */
    method Create(name: Name, size: nat, luck: Luck) returns (ok: bool)
      requires Valid() && 0 !in name && size < 0x8000_0000
      modifies this`openInodes, this`live, disk, freeMap.bits
      ensures Valid() && openInodes == old(openInodes)
      ensures ok <==>
        old(RootOpens(luck)) && old(RoomFor(size, luck)) && Directory.Adds(old(Listing()), name, luck.lookup, luck.search, luck.write)
      ensures !ok ==> Listing() == old(Listing()) && Files() == old(Files()) && live == old(live)
      ensures !ok ==> (freeMap.Model() != old(freeMap.Model()) <==> old(RootOpens(luck)) && old(RoomFor(size, luck)) && size > 0)
      ensures ok ==> CreatedIn(old(Listing()), Listing(), name, luck, openInodes, old(Files()), Files(), size)
      ensures ok ==> MarkedFor(old(freeMap.Model()), freeMap.Model(), Listing(), Directory.Stop(old(Listing()), luck.search, 0), live, size)
      ensures ok && !Loses(old(Listing()), luck, openInodes) ==>
        JoinedBy(old(live), live, Listing(), Directory.Stop(old(Listing()), luck.search, 0))
      ensures old(NoLeak()) ==> (NoLeak() <==> if ok then !Loses(old(Listing()), luck, openInodes)
                                               else !(old(RootOpens(luck)) && old(RoomFor(size, luck)) && size > 0))
      ensures old(Neat()) && Directory.Clean(old(Listing()), name, luck.lookup, luck.search, luck.write) ==> Neat()
      ensures old(Neat()) ==> (Neat() <==> (ok ==> StaysNeat(old(Listing()), name, luck, openInodes)))
    {
      hide Sound, PackedBitmap.Model, PackedBitmap.Valid, RootNames, RootEntries, FileMap, Opened, Contents, Entries, HasRoom,
           CreatedIn, StaysNeat, Tidy, Directory.Adds, Directory.Clean, MarkedFor, Loses, Tight;
      ghost var before := openInodes;
      RootFacts(live, freeMap.Model(), disk.sectors, openInodes);
      var root := OpenRoot(luck);
      if !root {
        return false;
      }
      ok := CreateIn(name, size, luck, before);
      CloseRoot(before);
    }

    /** The body of filesys_create, with the root directory open; before says what was open without it. */
    method CreateIn(name: Name, size: nat, luck: Luck, ghost before: OpenInodes) returns (ok: bool)
      requires Valid() && 0 !in name && size < 0x8000_0000 && ROOT_DIR_SECTOR in openInodes
      requires openInodes == Opened(before, ROOT_DIR_SECTOR, live[ROOT_DIR_SECTOR])
      modifies this`live, disk, freeMap.bits
      ensures Valid() && ROOT_DIR_SECTOR in live && live[ROOT_DIR_SECTOR] == old(live)[ROOT_DIR_SECTOR]
      ensures ok <==> old(RoomFor(size, luck)) && Directory.Adds(old(Listing()), name, luck.lookup, luck.search, luck.write)
      ensures !ok ==> Listing() == old(Listing()) && Files() == old(Files()) && live == old(live)
      ensures !ok ==> (freeMap.Model() != old(freeMap.Model()) <==> old(RoomFor(size, luck)) && size > 0)
      ensures ok ==> CreatedIn(old(Listing()), Listing(), name, luck, before, old(Files()), Files(), size)
      ensures ok ==> MarkedFor(old(freeMap.Model()), freeMap.Model(), Listing(), Directory.Stop(old(Listing()), luck.search, 0), live, size)
      ensures ok && !Loses(old(Listing()), luck, before) ==>
        JoinedBy(old(live), live, Listing(), Directory.Stop(old(Listing()), luck.search, 0))
      ensures old(NoLeak()) ==>
        (NoLeak() <==> if ok then !Loses(old(Listing()), luck, before) else !(old(RoomFor(size, luck)) && size > 0))
      ensures Tidy(old(Listing()), before) && Directory.Clean(old(Listing()), name, luck.lookup, luck.search, luck.write) ==>
        Tidy(Listing(), before)
      ensures Tidy(old(Listing()), before) ==> (Tidy(Listing(), before) <==> (ok ==> StaysNeat(old(Listing()), name, luck, before)))
    {
      hide Sound, PackedBitmap.Model, PackedBitmap.Valid, RootNames, RootEntries, FileMap, IsFirstRun, RunAt, Filled, Laid,
           Unowned, Contents, Zeros, OnDisk, Extent.On, HasRoom, HasRun, Entries, SectorCount, SameOwned, Taken, WasFree,
           Directory.Adds, CreatedIn, StaysNeat, Tidy, Directory.Clean, MarkedFor, Loses, Tight, WithoutDropped;
      RootFacts(live, freeMap.Model(), disk.sectors, openInodes);
      SoundMarked(live, freeMap.Model(), disk.sectors, openInodes);
      var header := Allocate(1, luck.mark);
      if header.None? {
        if luck.mark {
          NoRoom(old(freeMap.Model()), SectorCount(size));
        }
        return false;
      }
      var h := header.value;
      RoomWith(old(freeMap.Model()), SectorCount(size), h);
      HeaderTaken(live, old(freeMap.Model()), disk.sectors, openInodes, h);
      FilesLive(live, disk.sectors, h);
      SoundLaid(live, freeMap.Model(), disk.sectors, openInodes);
      ghost var e, used, d;
      used, d := freeMap.Model(), disk.sectors;
      ok, e := InodeCreate(h, size, luck.header, luck.markData);
      UnownedStep(live, used, d, openInodes, freeMap.Model(), disk.sectors);
      ghost var made := ok;
      if ok {
        FilledTaken(old(freeMap.Model()), h, e);
        TakenLeaks(live, old(freeMap.Model()), disk.sectors, h, e);
        ok := AddName(name, size, h, e, luck, before);
        if ok {
          RootFacts(live, freeMap.Model(), disk.sectors, openInodes);
          MarkedNow(old(freeMap.Model()), freeMap.Model(), Listing(), Directory.Stop(old(Listing()), luck.search, 0), live, size, h);
        }
      }
      if !ok {
        GiveBack(live, freeMap.Model(), disk.sectors, openInodes, h);
        if made {
          Leaked(old(freeMap.Model()), h, e.start, SectorCount(size));
          FailedLeaks(live, old(freeMap.Model()), d, openInodes, h, e.start, SectorCount(size));
        } else {
          Refilled(old(freeMap.Model()), h, 1);
        }
        Release(h, 1);
      }
    }

    /** dir_add of a new inode to the root directory. */
    method AddName(name: Name, ghost size: nat, h: nat, ghost e: Extent, luck: Luck, ghost before: OpenInodes) returns (ok: bool)
      requires Valid() && 0 !in name && ROOT_DIR_SECTOR in openInodes && h < |disk.sectors|
      requires openInodes == Opened(before, ROOT_DIR_SECTOR, live[ROOT_DIR_SECTOR])
      requires h !in live && Laid(live[h := e], freeMap.Model(), disk.sectors) && e.On(disk.sectors)
      requires Contents(disk.sectors, e) == Zeros(size)
      modifies this`live, disk
      ensures Valid() && ROOT_DIR_SECTOR in live && live[ROOT_DIR_SECTOR] == old(live)[ROOT_DIR_SECTOR]
      ensures !ok ==> disk.sectors == old(disk.sectors) && live == old(live)
      ensures ok <==> Directory.Adds(old(Listing()), name, luck.lookup, luck.search, luck.write)
      ensures ok ==> CreatedIn(old(Listing()), Listing(), name, luck, before, old(Files()), Files(), size)
      ensures ok ==> EntryFor(Listing(), Directory.Stop(old(Listing()), luck.search, 0), h) && h in live && live[h] == e
      ensures ok ==> live == old(live)[h := e] || Loses(old(Listing()), luck, before)
      ensures ok && Loses(old(Listing()), luck, before) ==> !Tight(live, freeMap.Model())
      ensures ok && !Loses(old(Listing()), luck, before) ==> live == old(live)[h := e]
      ensures Tidy(old(Listing()), before) && Directory.Clean(old(Listing()), name, luck.lookup, luck.search, luck.write) ==>
        Tidy(Listing(), before)
      ensures Tidy(old(Listing()), before) ==> (Tidy(Listing(), before) <==> (ok ==> StaysNeat(old(Listing()), name, luck, before)))
    {
      hide Sound, PackedBitmap.Model, PackedBitmap.Valid, RootNames, RootEntries, FileMap, Laid, Contents, Entries, EntryOf, Stored, OnDisk,
           Tight,
           Extent.On, WithoutDropped, CreatedIn, StaysNeat, Tidy, Opened, Directory.Clean, Directory.FindName, Directory.Stop,
           Directory.Names;
      RootFacts(live, freeMap.Model(), disk.sectors, openInodes);
      RootReadable(live, freeMap.Model(), disk.sectors, openInodes);
      SystemSectors(live, freeMap.Model(), disk.sectors, openInodes, h);
      ghost var i, b;
      ghost var es, files := Listing(), Files();
      ok, i, b := Directory.Add(disk, openInodes[ROOT_DIR_SECTOR].data, name, h, luck.lookup, luck.search, luck.write);
      NeatAfter(live, freeMap.Model(), old(disk.sectors), openInodes, before, name, h, luck);
      if ok {
        RootStays(live, freeMap.Model(), old(disk.sectors), openInodes, i, before);
        LosesLeaks(live, freeMap.Model(), old(disk.sectors), openInodes, i, h, e);
        CreateStep(live, freeMap.Model(), old(disk.sectors), openInodes, h, e, disk.sectors, i, b);
        live := WithoutDropped(live, es, i, openInodes)[h := e];
        RootFacts(live, freeMap.Model(), disk.sectors, openInodes);
        Created(es, Listing(), name, h, luck, openInodes, before, files, Files(), size);
      }
    }

    /** filesys_remove. A file that is open loses its name and keeps its contents. */
    method Remove(name: Name, luck: Luck) returns (ok: bool)
      requires Valid()
      modifies this`openInodes, this`live, disk, freeMap.bits
      ensures Valid()
      ensures ok <==> old(RootOpens(luck)) && luck.erase && Opens(old(Listing()), name, luck, old(openInodes))
      ensures !ok ==> Listing() == old(Listing()) && Files() == old(Files()) && openInodes == old(openInodes) && live == old(live)
      ensures ok ==> name in old(Names()) && Listing() == Unlinked(old(Listing()), name, luck)
      ensures ok && Directory.NamesUnique(old(Listing())) ==> Names() == old(Names()) - {name}
      ensures ok ==> var h := old(Names())[name];
        if h in old(openInodes)
        then Files() == old(Files()) && openInodes == MarkRemoved(old(openInodes), h) && live == old(live)
        else Files() == old(Files()) - {h} && openInodes == old(openInodes) && live == old(live) - {h}
      ensures ok ==> old(Names())[name] in old(live)
      ensures ok ==> var h := old(Names())[name];
        freeMap.Model() == if h in old(openInodes) then old(freeMap.Model()) else Returned(old(freeMap.Model()), h, old(live)[h])
      ensures !ok ==> freeMap.Model() == old(freeMap.Model())
      ensures old(NoLeak()) ==> NoLeak()
      ensures old(Neat()) ==> Neat()
    {
      hide Sound, PackedBitmap.Model, PackedBitmap.Valid, RootNames, RootEntries, FileMap, Contents, Entries, OnDisk, Tidy,
           Unlinked, Directory.NamesUnique, Directory.FindName, Returned, Tight;
      ghost var before := openInodes;
      RootFacts(live, freeMap.Model(), disk.sectors, openInodes);
      var root := OpenRoot(luck);
      if !root {
        return false;
      }
      FoundFacts(live, freeMap.Model(), disk.sectors, openInodes, name, luck);
      OpensBeside(Listing(), name, luck, before, live[ROOT_DIR_SECTOR]);
      ok := RemoveIn(name, luck, before);
      if ok && old(Names())[name] in before {
        before := MarkRemoved(before, old(Names())[name]);
      }
      CloseRoot(before);
    }

    /** dir_remove, with the root directory open; before says what was open without it. */
    method RemoveIn(name: Name, luck: Luck, ghost before: OpenInodes) returns (ok: bool)
      requires Valid() && ROOT_DIR_SECTOR in openInodes && openInodes == Opened(before, ROOT_DIR_SECTOR, live[ROOT_DIR_SECTOR])
      modifies this`openInodes, this`live, disk, freeMap.bits
      ensures Valid() && ROOT_DIR_SECTOR in live && live[ROOT_DIR_SECTOR] == old(live)[ROOT_DIR_SECTOR]
      ensures ok <==> luck.erase && Opens(old(Listing()), name, luck, old(openInodes))
      ensures !ok ==> Listing() == old(Listing()) && Files() == old(Files()) && openInodes == old(openInodes) && live == old(live)
      ensures ok ==> name in old(Names()) && Listing() == Unlinked(old(Listing()), name, luck)
      ensures ok && Directory.NamesUnique(old(Listing())) ==> Names() == old(Names()) - {name}
      ensures ok ==> var h := old(Names())[name];
        if h in old(openInodes)
        then Files() == old(Files()) && openInodes == MarkRemoved(old(openInodes), h) && live == old(live)
        else Files() == old(Files()) - {h} && openInodes == old(openInodes) && live == old(live) - {h}
      ensures ok ==> old(Names())[name] in old(live)
      ensures ok ==> var h := old(Names())[name];
        freeMap.Model() == if h in old(openInodes) then old(freeMap.Model()) else Returned(old(freeMap.Model()), h, old(live)[h])
      ensures !ok ==> freeMap.Model() == old(freeMap.Model())
      ensures old(NoLeak()) ==> NoLeak()
      ensures ok && Tidy(old(Listing()), before) ==> var h := old(Names())[name];
        Tidy(Listing(), if h in before then MarkRemoved(before, h) else before)
    {
      hide Sound, PackedBitmap.Model, PackedBitmap.Valid, RootEntries, FileMap, Contents, Entries, EntryOf, Stored, OnDisk, Slot,
           Directory.Names, Opened, Closed, Returned, Tight, ErasedEntry, Extent.On, Tidy, Directory.NamesUnique, Directory.FindName,
           Directory.Listed, Directory.SectorsUnique;
      RootFacts(live, freeMap.Model(), disk.sectors, openInodes);
      RootReadable(live, freeMap.Model(), disk.sectors, openInodes);
      FoundFacts(live, freeMap.Model(), disk.sectors, openInodes, name, luck);
      var root := openInodes[ROOT_DIR_SECTOR];
      ghost var es := Listing();
      var i, bytes := Directory.Lookup(disk, root.data, name, luck.lookup);
      if i.None? {
        return false;
      }
      var h := EntryOf(bytes).sector;
      var got := InodeOpen(h, luck.inode);
      if !got {
        return false;
      }
      OpenedClosed(old(openInodes), h, live[h]);
      RemovedClosed(old(openInodes), h, live[h]);
      OpenedBoth(old(openInodes), h, live[h], ROOT_DIR_SECTOR, live[ROOT_DIR_SECTOR]);
      ok := Directory.WriteEntry(disk, root.data, openInodes[ROOT_DIR_SECTOR].denyWriteCnt, i.value, ErasedEntry(bytes), luck.erase);
      if ok {
        EraseStep(live, freeMap.Model(), old(disk.sectors), openInodes, disk.sectors, i.value, ErasedEntry(bytes), h);
        ErasedNames(es, i.value, before, h);
        openInodes := openInodes[h := openInodes[h].(removed := true)];
      } else {
        Directory.StoredNone(old(disk.sectors), disk.sectors, root.data, i.value * ENTRY);
      }
      InodeClose(h);
    }

    /** filesys_open up to the open inode: dir_lookup in the root directory. */
    method OpenByName(name: Name, luck: Luck) returns (r: Option<nat>)
      requires Valid()
      modifies this`openInodes, this`live, freeMap.bits
      ensures Valid() && live == old(live) && freeMap.Model() == old(freeMap.Model())
      ensures r.Some? <==> old(RootOpens(luck)) && Opens(Listing(), name, luck, old(openInodes))
      ensures r.Some? ==> name in Names() && r.value == Names()[name] && r.value in live && r.value > ROOT_DIR_SECTOR
                          && Directory.Listed(Listing(), r.value) && openInodes == Opened(old(openInodes), r.value, live[r.value])
      ensures r.None? ==> openInodes == old(openInodes)
      ensures old(Neat()) ==> Neat()
    {
      hide Sound, PackedBitmap.Model, PackedBitmap.Valid, RootNames, RootEntries, FileMap, Contents, Entries, EntryOf, OnDisk, Slot,
           Extent.On, Tidy, Directory.FindName, Directory.Listed, Opened;
      ghost var before := openInodes;
      RootFacts(live, freeMap.Model(), disk.sectors, openInodes);
      r := None;
      var root := OpenRoot(luck);
      if !root {
        return;
      }
      RootFacts(live, freeMap.Model(), disk.sectors, openInodes);
      RootReadable(live, freeMap.Model(), disk.sectors, openInodes);
      FoundFacts(live, freeMap.Model(), disk.sectors, openInodes, name, luck);
      OpensBeside(Listing(), name, luck, before, live[ROOT_DIR_SECTOR]);
      var i, bytes := Directory.Lookup(disk, openInodes[ROOT_DIR_SECTOR].data, name, luck.lookup);
      if i.Some? {
        var h := EntryOf(bytes).sector;
        var got := InodeOpen(h, luck.inode);
        if got {
          TidyOpened(Listing(), before, h, live[h]);
          OpenedBoth(before, h, live[h], ROOT_DIR_SECTOR, live[ROOT_DIR_SECTOR]);
          before := Opened(before, h, live[h]);
          r := Some(h);
        }
      }
      CloseRoot(before);
    }

    /** inode_read_at of an open inode. */
    method ReadInode(s: nat, buffer: array<Byte>, size: int, offset: nat, memory: bool) returns (n: nat)
      requires Valid() && s in openInodes && s > ROOT_DIR_SECTOR && size <= buffer.Length
      modifies buffer
      ensures Valid() && s in Files()
      ensures n == Transferred(|Files()[s]|, size, offset, memory) && ReadInto(buffer[..], old(buffer[..]), Files()[s], offset, n)
    {
      hide PackedBitmap.Model, PackedBitmap.Valid, RootEntries, Contents, DirectoryOk, EntriesOk, AllReachable, OneOwner, Marked, ReadInto;
      n := disk.ReadAt(openInodes[s].data, buffer, size, offset, memory);
    }

    /** inode_write_at of an open inode: the bytes in range below the file length change, and no other byte
        of any file; nothing changes while writes are denied. */
    method WriteInode(s: nat, buffer: array<Byte>, size: int, offset: nat, memory: bool) returns (n: nat)
      requires Valid() && s in openInodes && s > ROOT_DIR_SECTOR && size <= buffer.Length
      modifies disk
      ensures Valid() && s in old(Files()) && Listing() == old(Listing())
      ensures n == (if openInodes[s].denyWriteCnt > 0 then 0 else Transferred(|old(Files())[s]|, size, offset, memory)) <= buffer.Length
      ensures (n == 0 || offset + n <= |old(Files())[s]|) && Files() == old(Files())[s := Spliced(old(Files())[s], offset, buffer[..n])]
    {
      hide PackedBitmap.Model, PackedBitmap.Valid, RootEntries, Contents, DirectoryOk, EntriesOk, AllReachable, OneOwner, Marked, Stored,
           Spliced;
      n := disk.WriteAt(openInodes[s].data, openInodes[s].denyWriteCnt, buffer, size, offset, memory);
      TransferFits(live[s].length, size, offset, memory);
      hide FileMap;
      WriteStep(live, freeMap.Model(), old(disk.sectors), openInodes, disk.sectors, s, offset, buffer[..n]);
    }

    /** inode_deny_write; the precondition is what its assertion needs. */
    method DenyWrite(s: nat)
      requires Valid() && s in openInodes && s > ROOT_DIR_SECTOR && openInodes[s].denyWriteCnt < openInodes[s].openCnt
      modifies this`openInodes
      ensures Valid() && openInodes == old(openInodes)[s := old(openInodes)[s].(denyWriteCnt := old(openInodes)[s].denyWriteCnt + 1)]
    {
      hide PackedBitmap.Model, PackedBitmap.Valid, Laid, DirectoryOk, RootEntries, Directory.Listed;
      openInodes := openInodes[s := openInodes[s].(denyWriteCnt := openInodes[s].denyWriteCnt + 1)];
    }

    /** inode_allow_write; the precondition is its assertion. */
    method AllowWrite(s: nat)
      requires Valid() && s in openInodes && s > ROOT_DIR_SECTOR && openInodes[s].denyWriteCnt > 0
      modifies this`openInodes
      ensures Valid() && openInodes == old(openInodes)[s := old(openInodes)[s].(denyWriteCnt := old(openInodes)[s].denyWriteCnt - 1)]
    {
      hide PackedBitmap.Model, PackedBitmap.Valid, Laid, DirectoryOk, RootEntries, Directory.Listed;
      openInodes := openInodes[s := openInodes[s].(denyWriteCnt := openInodes[s].denyWriteCnt - 1)];
    }
  }

  /** Creating a file and removing it again, without opening it: everything is as before. */
  method CreateAndRemove(fs: FileSystem, name: Name, size: nat, first: Luck, second: Luck) returns (created: bool, removed: bool)
    requires fs.Valid() && 0 !in name && size < 0x8000_0000
    requires Directory.NamesUnique(fs.Listing()) && Directory.Clean(fs.Listing(), name, first.lookup, first.search, first.write)
    modifies fs`openInodes, fs`live, fs.disk, fs.freeMap.bits
    ensures fs.Valid() && fs.openInodes == old(fs.openInodes)
    ensures created && removed ==>
      && fs.freeMap.Model() == old(fs.freeMap.Model())
      && fs.Names() == old(fs.Names()) && fs.Files() == old(fs.Files()) && fs.live == old(fs.live)
  {
    hide Sound, PackedBitmap.Model, PackedBitmap.Valid, RootEntries, FileMap, OnDisk, Tidy, Tight, Returned, Taken,
         Unlinked, Opens, StaysNeat, HasRoom, Zeros, Directory.Stop, Directory.FindName, Directory.Names, Directory.NamesUnique;
    RootFacts(fs.live, fs.freeMap.Model(), fs.disk.sectors, fs.openInodes);
    ghost var es := fs.Listing();
    ghost var m, live, open := fs.freeMap.Model(), fs.live, fs.openInodes;
    removed := false;
    created := fs.Create(name, size, first);
    RootFacts(fs.live, fs.freeMap.Model(), fs.disk.sectors, fs.openInodes);
    if created {
      ghost var k := Directory.Stop(es, first.search, 0);
      ghost var h := fs.Listing()[k].sector;
      ghost var e := fs.live[h];
      NotOpenBefore(live, m, old(fs.disk.sectors), open, h);
      TakenReturned(m, h, e);
      Directory.NamesFill(es, k, Entry(h, name, true));
      removed := fs.Remove(name, second);
    }
  }

  lemma TransferFits(length: nat, size: int, offset: nat, memory: bool)
    ensures Transferred(length, size, offset, memory) > 0 ==> offset + Transferred(length, size, offset, memory) <= length
  {
  }

  /** inode_remove. */
  ghost function MarkRemoved(open: OpenInodes, h: nat): (next: OpenInodes)
    requires h in open
  {
    open[h := open[h].(removed := true)]
  }

  // ----- what creation and removal do to the listing -----

  /** The listing and the files after a successful creation: entry k, where the search stopped, leads to a new file of
      zeros; a file that entry k led to before is gone unless it is open. If the add was clean, exactly one name and
      one file are new. */
  ghost predicate CreatedIn(es: seq<Entry>, fs: seq<Entry>, name: Name, luck: Luck, open: OpenInodes,
                            files: map<nat, seq<Byte>>, next: map<nat, seq<Byte>>, size: nat)
  {
    var k := Directory.Stop(es, luck.search, 0);
    && k < |es| == |fs| && fs == es[k := Entry(fs[k].sector, name, true)]
    && fs[k].sector !in files && next == WithoutDropped(files, es, k, open)[fs[k].sector := Zeros(size)]
    && (Directory.NamesUnique(es) && Directory.Clean(es, name, luck.lookup, luck.search, luck.write) ==>
          && name !in Directory.Names(es) && Directory.Names(fs) == Directory.Names(es)[name := fs[k].sector]
          && next == files[fs[k].sector := Zeros(size)])
  }

  /** When a successful creation keeps names unique and open files named. */
  ghost predicate StaysNeat(es: seq<Entry>, name: Name, luck: Luck, open: OpenInodes)
  {
    var k := Directory.Stop(es, luck.search, 0);
    && k < |es|
    && (name !in Directory.Names(es) || (es[k].inUse && es[k].name == name))
    && !(es[k].inUse && es[k].sector in open && es[k].sector > ROOT_DIR_SECTOR && !open[es[k].sector].removed)
  }

  /** The free map after a creation: a free sector was taken for the header and free ones for the data of the inode
      that entry k leads to, and no others. */
  ghost predicate MarkedFor(m: seq<bool>, n: seq<bool>, fs: seq<Entry>, k: nat, live: Inodes, size: nat)
  {
    && k < |fs| && fs[k].sector in live && live[fs[k].sector].length == size
    && WasFree(m, fs[k].sector, live[fs[k].sector]) && n == Taken(m, fs[k].sector, live[fs[k].sector])
  }

  lemma MarkedNow(m: seq<bool>, n: seq<bool>, fs: seq<Entry>, k: nat, live: Inodes, size: nat, h: nat)
    requires EntryFor(fs, k, h) && h in live && live[h].length == size && WasFree(m, h, live[h]) && n == Taken(m, h, live[h])
    ensures MarkedFor(m, n, fs, k, live, size)
  {
  }

  lemma SoundMarked(live: Inodes, used: seq<bool>, d: Sectors, open: OpenInodes)
    requires Sound(live, used, d, open)
    ensures Marked(live, used)
  {
  }

  /** One inode is new, the one that entry k leads to. */
  ghost predicate JoinedBy(live: Inodes, next: Inodes, fs: seq<Entry>, k: nat)
  {
    k < |fs| && fs[k].sector in next && next == live[fs[k].sector := next[fs[k].sector]]
  }

  /** A sector that is free belongs to no inode, open or not. */
  lemma NotOpenBefore(live: Inodes, used: seq<bool>, d: Sectors, open: OpenInodes, h: nat)
    requires Sound(live, used, d, open) && h < |used| && !used[h]
    ensures h !in live && h !in open
  {
    assert h in live ==> Owns(live, h, h);
  }

  ghost predicate EntryFor(fs: seq<Entry>, k: nat, h: nat)
  {
    k < |fs| && fs[k].sector == h
  }

  /** A creation overwrites the only way to a file that is not open. */
  ghost predicate Loses(es: seq<Entry>, luck: Luck, open: OpenInodes)
  {
    var k := Directory.Stop(es, luck.search, 0);
    k < |es| && Dropped(es, k, open)
  }

  /** The last close of an inode that is lost: its sectors come back with it exactly if they are given back. */
  lemma LostLeaks(live: Inodes, used: seq<bool>, d: Sectors, open: OpenInodes, s: nat)
    requires Sound(live, used, d, open) && s in live
    ensures !Tight(live - {s}, used)
    ensures Tight(live, used) ==> Tight(live - {s}, Returned(used, s, live[s]))
  {
    hide Tight, OnDisk, DirectoryOk, EntriesOk, OpenOk, AllReachable, RootEntries, Returned;
    DroppedLeaks(live, used, s);
    if Tight(live, used) {
      TightReturned(live, used, s);
    }
  }

  lemma TakenLeaks(live: Inodes, used: seq<bool>, d: Sectors, h: nat, e: Extent)
    requires h !in live
    ensures Tight(live, used) ==> Tight(live[h := e], Taken(used, h, e))
  {
    hide Tight, Taken;
    if Tight(live, used) {
      TightGrown(live, used, h, e);
    }
  }

  /** The data sectors that a failed creation leaves marked are marked for nobody. */
  lemma FailedLeaks(live: Inodes, used: seq<bool>, d: Sectors, open: OpenInodes, h: nat, start: nat, cnt: nat)
    requires Marked(live, used) && RunAt(used, h, 1, false) && RunAt(Filled(used, h, 1, true), start, cnt, false)
    ensures cnt > 0 ==> !Tight(live, Filled(Filled(Filled(used, h, 1, true), start, cnt, true), h, 1, false))
  {
    var n := Filled(Filled(Filled(used, h, 1, true), start, cnt, true), h, 1, false);
    if cnt > 0 {
      assert !Filled(used, h, 1, true)[start] && n[start];
      hide Tight;
      NewMarkLeaks(live, used, n, start);
    }
  }

  /** An inode that loses its entry and is dropped leaves its header marked for nobody. */
  lemma LosesLeaks(live: Inodes, used: seq<bool>, d: Sectors, open: OpenInodes, i: nat, h: nat, e: Extent)
    requires Sound(live, used, d, open) && i < |RootEntries(live, d)| && h !in live && Laid(live[h := e], used, d)
    ensures var es := RootEntries(live, d);
      if Dropped(es, i, open) then !Tight(WithoutDropped(live, es, i, open)[h := e], used)
      else WithoutDropped(live, es, i, open)[h := e] == live[h := e]
  {
    hide Tight, OnDisk, OneOwner, Marked, Entries, Contents, Directory.SectorsUnique, Directory.Listed;
    RootFacts(live, used, d, open);
    var es := RootEntries(live, d);
    if Dropped(es, i, open) {
      var gone := es[i].sector;
      WasListed(es, i);
      assert gone in live;
      DroppedLeaks(live[h := e], used, gone);
      assert live[h := e] - {gone} == (live - {gone})[h := e];
    }
  }

  lemma Created(es: seq<Entry>, fs: seq<Entry>, name: Name, h: nat, luck: Luck, open: OpenInodes, before: OpenInodes,
                files: map<nat, seq<Byte>>, next: map<nat, seq<Byte>>, size: nat)
    requires Directory.Adds(es, name, luck.lookup, luck.search, luck.write) && !Directory.Listed(es, h) && h !in files
    requires var k := Directory.Stop(es, luck.search, 0);
      && fs == es[k := Entry(h, name, true)] && next == WithoutDropped(files, es, k, open)[h := Zeros(size)]
      && (Dropped(es, k, open) <==> Dropped(es, k, before))
    ensures CreatedIn(es, fs, name, luck, before, files, next, size)
  {
    hide Directory.Names, Directory.FindName, Directory.Stop, Directory.Listed;
    var k := Directory.Stop(es, luck.search, 0);
    if Directory.NamesUnique(es) && !es[k].inUse && name !in Directory.Names(es) {
      Directory.NamesFill(es, k, Entry(h, name, true));
    }
  }

  /** The root directory is not a file: opening it does not matter to whether a file is dropped. */
  lemma RootStays(live: Inodes, used: seq<bool>, d: Sectors, open: OpenInodes, i: nat, before: OpenInodes)
    requires Sound(live, used, d, open) && i < |RootEntries(live, d)| && open == Opened(before, ROOT_DIR_SECTOR, live[ROOT_DIR_SECTOR])
    ensures Dropped(RootEntries(live, d), i, open) <==> Dropped(RootEntries(live, d), i, before)
    ensures Dropped(RootEntries(live, d), i, open) ==> RootEntries(live, d)[i].sector > ROOT_DIR_SECTOR
  {
    hide Entries, Contents, Directory.SectorsUnique, Laid, Directory.Listed, RootEntries;
    RootFacts(live, used, d, open);
    var es := RootEntries(live, d);
    if es[i].inUse {
      WasListed(es, i);
    }
  }

  lemma NeatAfter(live: Inodes, used: seq<bool>, d: Sectors, open: OpenInodes, before: OpenInodes, name: Name, h: nat, luck: Luck)
    requires Sound(live, used, d, open) && h !in live && open == Opened(before, ROOT_DIR_SECTOR, live[ROOT_DIR_SECTOR])
    ensures !Directory.Listed(RootEntries(live, d), h)
    ensures var es := RootEntries(live, d);
      Tidy(es, before) ==>
        (var fs := Directory.AfterAdd(es, name, h, luck.lookup, luck.search, luck.write);
         && (Tidy(fs, before) <==> (Directory.Adds(es, name, luck.lookup, luck.search, luck.write) ==> StaysNeat(es, name, luck, before)))
         && (Directory.Clean(es, name, luck.lookup, luck.search, luck.write) ==> Tidy(fs, before)))
  {
    hide Entries, Contents, Directory.SectorsUnique, Directory.NamesUnique, Directory.Names, Directory.FindName, Directory.Stop,
      Laid, Directory.Listed, RootEntries, Tidy;
    RootFacts(live, used, d, open);
    var es := RootEntries(live, d);
    assert h !in before;
    if Tidy(es, before) {
      TidyAdd(es, before, name, h, luck.lookup, luck.search, luck.write);
    }
  }

  /** lookup finds the name and its inode can be opened. */
  ghost predicate Opens(es: seq<Entry>, name: Name, luck: Luck, open: OpenInodes)
  {
    var i := Directory.FindName(es, name, luck.lookup, 0);
    i.Some? && (luck.inode || es[i.value].sector in open)
  }

  /** The entry that lookup finds is no longer in use. */
  ghost function Unlinked(es: seq<Entry>, name: Name, luck: Luck): (fs: seq<Entry>)
  {
    var i := Directory.FindName(es, name, luck.lookup, 0);
    if i.Some? then es[i.value := es[i.value].(inUse := false)] else es
  }

  /** With every read of lookup successful, a name can be opened exactly if the directory has it. */
  lemma OpensWhenRead(es: seq<Entry>, name: Name, luck: Luck, open: OpenInodes)
    requires forall i: nat | i < |es| :: luck.lookup(i)
    ensures Opens(es, name, luck, open) <==> name in Directory.Names(es) && (luck.inode || Directory.Names(es)[name] in open)
  {
    hide Directory.Names, Directory.FindName;
    Directory.FindExactly(es, name, luck.lookup);
  }

  lemma OpensBeside(es: seq<Entry>, name: Name, luck: Luck, before: OpenInodes, root: Extent)
    requires forall i | 0 <= i < |es| && es[i].inUse :: es[i].sector > ROOT_DIR_SECTOR
    ensures Opens(es, name, luck, Opened(before, ROOT_DIR_SECTOR, root)) <==> Opens(es, name, luck, before)
  {
  }

  lemma TidyOpened(es: seq<Entry>, open: OpenInodes, h: nat, e: Extent)
    requires Directory.Listed(es, h)
    ensures Tidy(es, open) ==> Tidy(es, Opened(open, h, e))
  {
    hide Directory.Listed, Directory.NamesUnique;
  }

  /** Tidiness depends only on which inodes are open and on which of those are removed. */
  lemma TidySame(es: seq<Entry>, open: OpenInodes, next: OpenInodes)
    requires forall s | s in next :: s in open && next[s].removed == open[s].removed
    ensures Tidy(es, open) ==> Tidy(es, next)
  {
    hide Directory.Listed, Directory.NamesUnique;
  }

  lemma ErasedNames(es: seq<Entry>, i: nat, before: OpenInodes, h: nat)
    requires i < |es| && es[i].inUse && es[i].sector == h && Directory.SectorsUnique(es)
    ensures var fs := es[i := es[i].(inUse := false)];
      && (Directory.NamesUnique(es) ==> Directory.Names(fs) == Directory.Names(es) - {es[i].name})
      && !Directory.Listed(fs, h)
      && (Tidy(es, before) ==> Tidy(fs, if h in before then MarkRemoved(before, h) else before))
  {
    hide Directory.Names;
    if Directory.NamesUnique(es) {
      Directory.NamesErase(es, i);
    }
    Directory.ListedAfter(es, i, es[i].(inUse := false));
    hide Directory.NamesUnique, Directory.Listed, Directory.SectorsUnique;
  }

  /** What lookup finds leads to a live file. */
  lemma FoundFacts(live: Inodes, used: seq<bool>, d: Sectors, open: OpenInodes, name: Name, luck: Luck)
    requires Sound(live, used, d, open)
    ensures OnDisk(live, d) && ROOT_DIR_SECTOR in live
    ensures forall i | 0 <= i < |RootEntries(live, d)| && RootEntries(live, d)[i].inUse :: RootEntries(live, d)[i].sector > ROOT_DIR_SECTOR
    ensures var es := RootEntries(live, d); var r := Directory.FindName(es, name, luck.lookup, 0);
      r.Some? ==>
        var h := es[r.value].sector;
        && name in RootNames(live, d) && RootNames(live, d)[name] == h && Directory.Listed(es, h) && h in live && h > ROOT_DIR_SECTOR
        && (h in open ==> !open[h].removed && 0 < open[h].openCnt && open[h].denyWriteCnt <= open[h].openCnt)
  {
    hide Directory.Names, Contents, Entries, Directory.SectorsUnique, Directory.FindName, Laid, RootEntries, Directory.Listed;
    RootFacts(live, used, d, open);
    var es := RootEntries(live, d);
    forall i | 0 <= i < |es| && es[i].inUse ensures Directory.Listed(es, es[i].sector) {
      WasListed(es, i);
    }
    Directory.FindExactly(es, name, luck.lookup);
  }

  lemma RootFacts(live: Inodes, used: seq<bool>, d: Sectors, open: OpenInodes)
    requires Sound(live, used, d, open)
    ensures FREE_MAP_SECTOR in live && ROOT_DIR_SECTOR in live && OnDisk(live, d)
    ensures ROOT_DIR_SECTOR in open ==>
      var root := open[ROOT_DIR_SECTOR]; root.data == live[ROOT_DIR_SECTOR] && !root.removed && root.denyWriteCnt == 0 && root.openCnt > 0
  {
  }

  lemma FilesLive(live: Inodes, d: Sectors, h: nat)
    requires OnDisk(live, d)
    ensures h !in live ==> h !in FileMap(live, d)
  {
  }

  lemma SoundLaid(live: Inodes, used: seq<bool>, d: Sectors, open: OpenInodes)
    requires Sound(live, used, d, open)
    ensures Laid(live, used, d)
  {
  }

  lemma RootReadable(live: Inodes, used: seq<bool>, d: Sectors, open: OpenInodes)
    requires Sound(live, used, d, open)
    ensures ROOT_DIR_SECTOR in live && WellFormed(d) && |d| <= WORD_LIMIT && live[ROOT_DIR_SECTOR].On(d)
    ensures live[ROOT_DIR_SECTOR].length % ENTRY == 0 && OnDisk(live, d)
    ensures RootEntries(live, d) == Entries(Contents(d, live[ROOT_DIR_SECTOR])) && Directory.SectorsUnique(RootEntries(live, d))
    ensures RootNames(live, d) == Directory.Names(RootEntries(live, d))
    ensures forall i | 0 <= i < |RootEntries(live, d)| ::
      RootEntries(live, d)[i] == EntryOf(Slot(Contents(d, live[ROOT_DIR_SECTOR]), i))
  {
  }

  /** The two sectors of the system are live, so a sector that is not live is another one. */
  lemma SystemSectors(live: Inodes, used: seq<bool>, d: Sectors, open: OpenInodes, h: nat)
    requires Sound(live, used, d, open) && h !in live
    ensures h > ROOT_DIR_SECTOR && h !in FileMap(live, d)
  {
    hide Laid, RootEntries;
  }

  /** A header sector fresh from the free map. */
  lemma HeaderTaken(live: Inodes, used: seq<bool>, d: Sectors, open: OpenInodes, h: nat)
    requires Sound(live, used, d, open) && IsFirstRun(used, 0, 1, false, Some(h))
    ensures h < |d| == |used| && Unowned(live, h, 1) && h !in live && RunAt(used, h, 1, false)
    ensures var marks := Filled(used, h, 1, true); RunAt(marks, h, 1, true) && Sound(live, marks, d, open)
  {
    hide OnDisk, OneOwner, Marked, DirectoryOk, EntriesOk, OpenOk, AllReachable;
    FreeUnowned(live, used, d, h, 1);
    MarkMore(live, used, d, h, 1);
    assert h in live ==> Owns(live, h, h);
  }

  lemma GiveBack(live: Inodes, used: seq<bool>, d: Sectors, open: OpenInodes, h: nat)
    requires Sound(live, used, d, open) && RunAt(used, h, 1, true) && Unowned(live, h, 1)
    ensures Sound(live, Filled(used, h, 1, false), d, open)
  {
    hide OnDisk, OneOwner, Marked, DirectoryOk, EntriesOk, OpenOk, AllReachable;
    ReleaseUnowned(live, used, d, h, 1);
  }

  /** Nothing is live on a blank device. */
  lemma BlankDevice(used: seq<bool>, d: Sectors)
    requires used == seq(|d|, i => i < 2) && WellFormed(d) && 2 <= |d| <= WORD_LIMIT
    ensures Laid(map[], used, d) && RunAt(used, FREE_MAP_SECTOR, 1, true) && Unowned(map[], FREE_MAP_SECTOR, 1)
    ensures ByteCnt(|d|) < 0x8000_0000
  {
  }

  /** On a blank device everything after the two headers is free. */
  lemma BlankRuns(used: seq<bool>, cnt: nat)
    requires |used| >= 2 && used == seq(|used|, i => i < 2) && cnt > 0
    ensures HasRun(used, cnt) <==> 2 + cnt <= |used|
  {
    if 2 + cnt <= |used| {
      assert RunAt(used, 2, cnt, false);
    }
    if j: nat :| RunAt(used, j, cnt, false) {
      assert !used[j];
    }
  }

  lemma MapNotEmpty(n: nat)
    requires n > 0
    ensures SectorCount(ByteCnt(n)) > 0 && SectorCount(16 * ENTRY) == 1
  {
  }

  /** After the free map's data sectors are taken, one more sector is free exactly if there is one. */
  lemma RoomForRoot(used: seq<bool>, e: Extent)
    requires |used| >= 2 && used == seq(|used|, i => i < 2) && SectorCount(e.length) > 0
    requires RunAt(used, e.start, SectorCount(e.length), false)
    ensures HasRun(Filled(used, e.start, SectorCount(e.length), true), SectorCount(16 * ENTRY)) <==>
      2 + SectorCount(e.length) + SectorCount(16 * ENTRY) <= |used|
  {
    var cnt := SectorCount(e.length);
    assert SectorCount(16 * ENTRY) == 1;
    hide SectorCount;
    var marks := Filled(used, e.start, cnt, true);
    assert !used[e.start];
    if 2 + cnt + 1 <= |used| {
      assert RunAt(marks, if e.start > 2 then 2 else |used| - 1, 1, false);
    }
    if j: nat :| RunAt(marks, j, 1, false) {
      assert !marks[j];
    }
  }

  /** After formatting, what is marked are the two headers and the data of the two inodes. */
  lemma BlankTight(used: seq<bool>, e: Extent, marks: seq<bool>, r: Extent, all: seq<bool>)
    requires |used| >= 2 && used == seq(|used|, i => i < 2)
    requires RunAt(used, e.start, SectorCount(e.length), false) && marks == Filled(used, e.start, SectorCount(e.length), true)
    requires RunAt(marks, r.start, SectorCount(r.length), false) && all == Filled(marks, r.start, SectorCount(r.length), true)
    ensures Tight(map[FREE_MAP_SECTOR := e][ROOT_DIR_SECTOR := r], all)
  {
    hide SectorCount;
    var live := map[FREE_MAP_SECTOR := e][ROOT_DIR_SECTOR := r];
    forall x: nat | x < |all| && all[x] ensures Owned(live, x) {
      assert FREE_MAP_SECTOR in live && ROOT_DIR_SECTOR in live;
      assert Owns(live, if r.Has(x) || x == ROOT_DIR_SECTOR then ROOT_DIR_SECTOR else FREE_MAP_SECTOR, x);
    }
  }

  lemma RootSectorUnowned(used: seq<bool>, e: Extent)
    requires |used| >= 2 && used[ROOT_DIR_SECTOR] && RunAt(used, e.start, SectorCount(e.length), false)
    ensures RunAt(Filled(used, e.start, SectorCount(e.length), true), ROOT_DIR_SECTOR, 1, true)
    ensures Unowned(map[FREE_MAP_SECTOR := e], ROOT_DIR_SECTOR, 1)
  {
    hide SectorCount;
  }

  /** A freshly formatted device. */
  lemma FormattedFacts(live: Inodes, used: seq<bool>, d: Sectors)
    requires Laid(live, used, d) && live.Keys == {FREE_MAP_SECTOR, ROOT_DIR_SECTOR} && live[ROOT_DIR_SECTOR].length == 16 * ENTRY
    requires live[ROOT_DIR_SECTOR].On(d) && Contents(d, live[ROOT_DIR_SECTOR]) == Zeros(16 * ENTRY)
    ensures FREE_MAP_SECTOR < |d| && |d[FREE_MAP_SECTOR]| == SECTOR && OnDisk(live, d)
    ensures Sound(live, used, d, map[FREE_MAP_SECTOR := OpenInode(1, false, 0, HeaderOf(d[FREE_MAP_SECTOR]))])
    ensures RootNames(live, d) == map[] && FileMap(live, d) == map[]
    ensures Tidy(RootEntries(live, d), map[FREE_MAP_SECTOR := OpenInode(1, false, 0, HeaderOf(d[FREE_MAP_SECTOR]))])
  {
    hide Contents, HeaderOf, Marked, OneOwner, Entries, Directory.Names, Directory.SectorsUnique, Directory.NamesUnique,
      Directory.Listed, Zeros, SectorCount;
    BlankRoot(Contents(d, live[ROOT_DIR_SECTOR]));
    assert FREE_MAP_SECTOR in live && HeaderOf(d[FREE_MAP_SECTOR]) == live[FREE_MAP_SECTOR];
  }

  ghost predicate NoneListed(es: seq<Entry>)
  {
    Directory.SectorsUnique(es) && Directory.NamesUnique(es) && forall s: nat :: !Directory.Listed(es, s)
  }

  lemma BlankRoot(c: seq<Byte>)
    requires c == Zeros(|c|)
    ensures Directory.Names(Entries(c)) == map[] && NoneListed(Entries(c))
  {
    BlankEntries(c);
    hide EntryOf, Slot;
    BlankNames(Entries(c));
  }

  lemma BlankNames(es: seq<Entry>)
    requires forall i | 0 <= i < |es| :: !es[i].inUse
    ensures Directory.Names(es) == map[] && NoneListed(es)
  {
    if n: Name :| n in Directory.Names(es) {
      var i := Directory.NamesWitness(es, n);
    }
  }

  lemma HeaderFacts(live: Inodes, used: seq<bool>, d: Sectors, open: OpenInodes, s: nat)
    requires Sound(live, used, d, open) && s in live
    ensures s < |d| && |d[s]| == SECTOR && HeaderOf(d[s]) == live[s]
  {
  }

  lemma OpenFacts(live: Inodes, used: seq<bool>, d: Sectors, open: OpenInodes, s: nat)
    requires Sound(live, used, d, open) && s in open
    ensures OnDisk(live, d) && s in live && open[s].data == live[s] && open[s].openCnt > 0
    ensures open[s].removed ==> s > ROOT_DIR_SECTOR && !Directory.Listed(RootEntries(live, d), s)
  {
  }

  /** Giving back the sectors of a dead inode. */
  lemma ReleasedFacts(live: Inodes, used: seq<bool>, d: Sectors, open: OpenInodes, s: nat, e: Extent)
    requires Sound(live, used, d, open) && RunAt(used, s, 1, true) && RunAt(used, e.start, SectorCount(e.length), true)
    requires Unowned(live, s, 1) && Unowned(live, e.start, SectorCount(e.length)) && !e.Has(s)
    ensures var one := Filled(used, s, 1, false);
      && RunAt(one, e.start, SectorCount(e.length), true)
      && Sound(live, Filled(one, e.start, SectorCount(e.length), false), d, open)
  {
    var one := Filled(used, s, 1, false);
    hide OnDisk, OneOwner, Marked, DirectoryOk, EntriesOk, OpenOk, AllReachable, Unowned, SectorCount;
    ReleaseUnowned(live, used, d, s, 1);
    ReleaseUnowned(live, one, d, e.start, SectorCount(e.length));
  }

  ghost function Cleared(d: Sectors, start: nat, cnt: nat): (t: Sectors)
    ensures |t| == |d|
  {
    seq(|d|, x requires 0 <= x < |d| => if start <= x < start + cnt then Zeros(SECTOR) else d[x])
  }

  /** Data sectors that a failed creation leaves marked. */
  lemma Leaked(m: seq<bool>, h: nat, start: nat, cnt: nat)
    requires RunAt(m, h, 1, false) && RunAt(Filled(m, h, 1, true), start, cnt, false)
    ensures var n := Filled(Filled(Filled(m, h, 1, true), start, cnt, true), h, 1, false); n == m <==> cnt == 0
  {
    var n := Filled(Filled(Filled(m, h, 1, true), start, cnt, true), h, 1, false);
    if cnt > 0 {
      assert !Filled(m, h, 1, true)[start] && n[start];
    }
  }

  lemma Refilled(m: seq<bool>, at: nat, cnt: nat)
    requires RunAt(m, at, cnt, false)
    ensures Filled(Filled(m, at, cnt, true), at, cnt, false) == m
  {
  }

  /** What inode_create may rely on after taking data sectors from the free map. */
  lemma AllocatedFacts(live: Inodes, used: seq<bool>, d: Sectors, sector: nat, e: Extent)
    requires Laid(live, used, d) && e.length < 0x8000_0000
    requires RunAt(used, sector, 1, true) && IsFirstRun(used, 0, SectorCount(e.length), false, Some(e.start))
    ensures e.On(d) && e.start < WORD_LIMIT && !e.Has(sector) && Unowned(live, e.start, SectorCount(e.length))
    ensures Laid(live, Filled(used, e.start, SectorCount(e.length), true), d)
  {
    hide OnDisk, OneOwner;
    assert used[sector];
    assert SectorCount(e.length) == 0 ==> RunAt(used, 0, SectorCount(e.length), false);
    FreeUnowned(live, used, d, e.start, SectorCount(e.length));
    MarkMore(live, used, d, e.start, SectorCount(e.length));
  }

  /** The state that inode_create leaves behind. */
  lemma CreatedFacts(live: Inodes, used: seq<bool>, d: Sectors, sector: nat, e: Extent, w: Sectors, t: Sectors)
    requires e.On(d) && e.start < WORD_LIMIT && e.length < 0x8000_0000 && |used| == |d|
    requires RunAt(used, sector, 1, true) && Unowned(live, sector, 1) && !e.Has(sector)
    requires Unowned(live, e.start, SectorCount(e.length)) && w == d[sector := HeaderBytes(e)]
    requires t == Cleared(w, e.start, SectorCount(e.length))
    requires Laid(live, Filled(used, e.start, SectorCount(e.length), true), d)
    ensures var marks := Filled(used, e.start, SectorCount(e.length), true);
      && Laid(live, marks, t) && SameOwned(live, d, t) && RunAt(marks, sector, 1, true)
      && sector !in live && Laid(live[sector := e], marks, t) && e.On(t) && Contents(t, e) == Zeros(e.length)
  {
    var marks := Filled(used, e.start, SectorCount(e.length), true);
    hide OneOwner, HeaderOf, HeaderBytes, Marked, Contents, SectorCount;
    WritesUnowned(live, d, sector, e, w, t);
    assert t[sector] == HeaderBytes(e);
    ZeroContents(t, e);
    hide Cleared, WellFormed;
    SameOwnedLaid(live, marks, d, t);
    hide OnDisk, SameOwned, Unowned;
    InodeAdded(live, marks, t, sector, e);
  }

  lemma WritesUnowned(live: Inodes, d: Sectors, sector: nat, e: Extent, w: Sectors, t: Sectors)
    requires WellFormed(d) && e.On(d) && e.start < WORD_LIMIT && e.length < WORD_LIMIT && sector < |d|
    requires Unowned(live, sector, 1) && Unowned(live, e.start, SectorCount(e.length)) && !e.Has(sector)
    requires w == d[sector := HeaderBytes(e)] && t == Cleared(w, e.start, SectorCount(e.length))
    ensures SameOwned(live, d, t) && t[sector] == HeaderBytes(e) && forall x: nat | e.Has(x) :: t[x] == Zeros(SECTOR)
  {
    assert |HeaderBytes(e)| == SECTOR;
    hide HeaderBytes, SectorCount;
    assert forall x | 0 <= x < |t| :: t[x] == Zeros(SECTOR) || t[x] == w[x];
    assert WellFormed(t);
    forall s, y: nat | s in live && y < |d| && Owns(live, s, y) ensures t[y] == d[y] {
      assert y != sector && !(e.start <= y < e.start + SectorCount(e.length));
    }
  }
}
