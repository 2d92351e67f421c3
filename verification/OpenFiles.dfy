/** Open files (src/filesys/file.c): each one has its own position, counts once among the openers of its
    inode, and denies writes at most once. */
module OpenFiles {
  import opened Options
  import opened Bytes
  import opened FileData
  import opened DiskFormat
  import Directory
  import opened Ownership
  import opened FileState
  import opened FileSystem

  datatype File = File(sector: nat, pos: nat, denyWrite: bool)

  type Table = map<nat, File>

  ghost function Users(files: Table, s: nat): (u: set<nat>)
  {
    set f | f in files && files[f].sector == s
  }

  ghost function Deniers(files: Table, s: nat): (u: set<nat>)
  {
    set f | f in files && files[f].sector == s && files[f].denyWrite
  }

  /** The openers of an inode: the files, and the free map's own file. */
  ghost function Openers(files: Table, s: nat): (n: nat)
  {
    |Users(files, s)| + if s == FREE_MAP_SECTOR then 1 else 0
  }

  ghost predicate CountedAt(files: Table, open: OpenInodes, s: nat)
  {
    && (s in open <==> Openers(files, s) > 0)
    && (s in open ==> open[s].openCnt == Openers(files, s) && open[s].denyWriteCnt == |Deniers(files, s)|)
  }

  /** Inodes' counts agree with the table of open files. */
  ghost predicate Counted(files: Table, open: OpenInodes)
  {
    forall s: nat :: CountedAt(files, open, s)
  }

  lemma UsersWith(files: Table, f: nat, file: File, t: nat)
    requires f !in files && !file.denyWrite
    ensures Users(files[f := file], t) == if t == file.sector then Users(files, t) + {f} else Users(files, t)
    ensures f !in Users(files, t) && Deniers(files[f := file], t) == Deniers(files, t) <= Users(files, t)
  {
  }

  lemma FileOpened(files: Table, open: OpenInodes, f: nat, s: nat, e: Extent)
    requires Counted(files, open) && f !in files && s > ROOT_DIR_SECTOR
    ensures Counted(files[f := File(s, 0, false)], Opened(open, s, e))
  {
    var now, next := files[f := File(s, 0, false)], Opened(open, s, e);
    forall t: nat ensures CountedAt(now, next, t) {
      assert CountedAt(files, open, t);
      UsersWith(files, f, File(s, 0, false), t);
      hide Users, Deniers;
      assert |Users(files, t)| == 0 ==> Users(files, t) == {};
    }
  }

  lemma FileClosed(files: Table, open: OpenInodes, f: nat)
    requires Counted(files, open) && f in files && files[f].sector > ROOT_DIR_SECTOR && !files[f].denyWrite
    ensures files[f].sector in open && open[files[f].sector].denyWriteCnt < open[files[f].sector].openCnt
    ensures Counted(files - {f}, Closed(open, files[f].sector))
    ensures open[files[f].sector].openCnt == 1 <==> Users(files - {f}, files[f].sector) == {}
  {
    var s, now := files[f].sector, files - {f};
    assert CountedAt(files, open, s);
    assert Users(files, s) == Users(now, s) + {f};
    assert Deniers(now, s) == Deniers(files, s) && Deniers(now, s) <= Users(now, s);
    CardinalityAtMost(Deniers(now, s), Users(now, s));
    forall t: nat ensures CountedAt(now, Closed(open, s), t) {
      assert CountedAt(files, open, t);
      assert Deniers(now, t) == Deniers(files, t);
      assert t != s ==> Users(now, t) == Users(files, t);
    }
  }

  lemma {:induction false} CardinalityAtMost(a: set<nat>, b: set<nat>)
    requires a <= b
    ensures |a| <= |b|
  {
    if a != {} {
      var x :| x in a;
      CardinalityAtMost(a - {x}, b - {x});
    }
  }

  lemma WriteDenied(files: Table, open: OpenInodes, f: nat)
    requires Counted(files, open) && f in files && files[f].sector > ROOT_DIR_SECTOR && !files[f].denyWrite
    ensures var s := files[f].sector;
      && s in open && open[s].denyWriteCnt < open[s].openCnt
      && Counted(files[f := files[f].(denyWrite := true)], open[s := open[s].(denyWriteCnt := open[s].denyWriteCnt + 1)])
  {
    var s, now := files[f].sector, files[f := files[f].(denyWrite := true)];
    FileClosed(files, open, f);
    var next := open[s := open[s].(denyWriteCnt := open[s].denyWriteCnt + 1)];
    forall t: nat ensures CountedAt(now, next, t) {
      assert CountedAt(files, open, t);
      assert Users(now, t) == Users(files, t);
      assert Deniers(now, t) == if t == s then Deniers(files, t) + {f} else Deniers(files, t);
    }
  }

  lemma WriteAllowed(files: Table, open: OpenInodes, f: nat)
    requires Counted(files, open) && f in files && files[f].sector > ROOT_DIR_SECTOR && files[f].denyWrite
    ensures var s := files[f].sector;
      && s in open && open[s].denyWriteCnt > 0
      && Counted(files[f := files[f].(denyWrite := false)], open[s := open[s].(denyWriteCnt := open[s].denyWriteCnt - 1)])
  {
    var s, now := files[f].sector, files[f := files[f].(denyWrite := false)];
    assert CountedAt(files, open, s);
    assert f in Users(files, s) && f in Deniers(files, s);
    var next := open[s := open[s].(denyWriteCnt := open[s].denyWriteCnt - 1)];
    forall t: nat ensures CountedAt(now, next, t) {
      assert CountedAt(files, open, t);
      assert Users(now, t) == Users(files, t);
      assert Deniers(files, t) == if t == s then Deniers(now, t) + {f} else Deniers(now, t);
    }
  }

  lemma Moved(files: Table, open: OpenInodes, f: nat, pos: nat)
    requires Counted(files, open) && f in files
    ensures Counted(files[f := files[f].(pos := pos)], open)
  {
    var now := files[f := files[f].(pos := pos)];
    forall t: nat ensures CountedAt(now, open, t) {
      assert CountedAt(files, open, t);
      assert Users(now, t) == Users(files, t) && Deniers(now, t) == Deniers(files, t);
    }
  }

  lemma RemovalCounted(files: Table, open: OpenInodes, h: nat)
    requires Counted(files, open) && h in open
    ensures Counted(files, MarkRemoved(open, h))
  {
    forall t: nat ensures CountedAt(files, MarkRemoved(open, h), t) {
      assert CountedAt(files, open, t);
    }
  }

  class FileTable {
    const fs: FileSystem
    var files: Table
    var nextFile: nat

    ghost predicate Valid()
      reads this, fs, fs.disk, fs.freeMap.bits
    {
      && fs.Valid() && Counted(files, fs.openInodes)
      && forall f | f in files :: f < nextFile && files[f].sector > ROOT_DIR_SECTOR
    }

    /** What an open file reads from. */
    ghost function Bytes(f: nat): (c: seq<Byte>)
      reads this, fs, fs.disk, fs.freeMap.bits
      requires Valid() && f in files
    {
      OpenIsLive(files, fs.openInodes, fs.live, fs.freeMap.Model(), fs.disk.sectors, f);
      fs.Files()[files[f].sector]
    }

    constructor (fs: FileSystem)
      requires fs.Valid() && Counted(map[], fs.openInodes)
      ensures Valid() && this.fs == fs && files == map[]
    {
      this.fs := fs;
      files := map[];
      nextFile := 0;
    }

    /** filesys_open and file_open. */
    method Open(name: Name, luck: Luck) returns (r: Option<nat>)
      requires Valid()
      modifies this, fs`openInodes, fs`live, fs.freeMap.bits
      ensures Valid() && fs.live == old(fs.live) && fs.Names() == old(fs.Names()) && fs.Files() == old(fs.Files())
      ensures r.None? ==> files == old(files) && fs.openInodes == old(fs.openInodes)
      ensures r.Some? ==> name in fs.Names() && r.value !in old(files) && files == old(files)[r.value := File(fs.Names()[name], 0, false)]
      ensures r.Some? <==> old(fs.RootOpens(luck)) && luck.file && Opens(fs.Listing(), name, luck, old(fs.openInodes))
      ensures old(fs.Neat()) ==> fs.Neat()
      ensures fs.freeMap.Model() == old(fs.freeMap.Model())
    {
      hide Sound, Counted, RootNames, RootEntries, FileMap, OnDisk, Opens, Tidy, Directory.Listed, Returned, Tight;
      RootFacts(fs.live, fs.freeMap.Model(), fs.disk.sectors, fs.openInodes);
      OpenCounts(fs.live, fs.freeMap.Model(), fs.disk.sectors, fs.openInodes);
      ghost var before := fs.openInodes;
      var s := fs.OpenByName(name, luck);
      if s.None? {
        return None;
      }
      OpenedClosed(before, s.value, fs.live[s.value]);
      if !luck.file {
        fs.InodeClose(s.value);
        return None;
      }
      FileOpened(files, before, nextFile, s.value, fs.live[s.value]);
      files := files[nextFile := File(s.value, 0, false)];
      r := Some(nextFile);
      nextFile := nextFile + 1;
    }

    /** file_deny_write. */
    method DenyWrite(f: nat)
      requires Valid() && f in files
      modifies this`files, fs`openInodes
      ensures Valid() && files == old(files)[f := old(files)[f].(denyWrite := true)]
      ensures old(fs.Neat()) ==> fs.Neat()
    {
      hide Sound, Counted, Tidy, RootEntries, OnDisk;
      RootFacts(fs.live, fs.freeMap.Model(), fs.disk.sectors, fs.openInodes);
      ghost var open := fs.openInodes;
      if !files[f].denyWrite {
        WriteDenied(files, fs.openInodes, f);
        fs.DenyWrite(files[f].sector);
        files := files[f := files[f].(denyWrite := true)];
        TidySame(fs.Listing(), open, fs.openInodes);
      }
    }

    /** file_allow_write. */
    method AllowWrite(f: nat)
      requires Valid() && f in files
      modifies this`files, fs`openInodes
      ensures Valid() && files == old(files)[f := old(files)[f].(denyWrite := false)]
      ensures files[f].sector in fs.openInodes && files[f].sector in old(fs.openInodes)
      ensures fs.openInodes[files[f].sector].removed == old(fs.openInodes)[files[f].sector].removed
      ensures old(fs.Neat()) ==> fs.Neat()
    {
      hide Sound, Counted, Tidy, RootEntries, OnDisk;
      RootFacts(fs.live, fs.freeMap.Model(), fs.disk.sectors, fs.openInodes);
      ghost var open := fs.openInodes;
      if files[f].denyWrite {
        WriteAllowed(files, fs.openInodes, f);
        fs.AllowWrite(files[f].sector);
        files := files[f := files[f].(denyWrite := false)];
        TidySame(fs.Listing(), open, fs.openInodes);
      } else {
        FileClosed(files, fs.openInodes, f);
      }
    }

    /** file_close. Only the last close of a file that has no entry makes its contents go away; in a neat state those are
        the removed ones. */
    method Close(f: nat)
      requires Valid() && f in files
      modifies this`files, fs`openInodes, fs`live, fs.freeMap.bits
      ensures Valid() && files == old(files) - {f} && fs.Listing() == old(fs.Listing()) && fs.Names() == old(fs.Names())
      ensures var s := old(files)[f].sector;
        && s in old(fs.openInodes)
        && fs.Files() == (if !Directory.Listed(fs.Listing(), s) && Users(files, s) == {} then old(fs.Files()) - {s} else old(fs.Files()))
        && (old(fs.Neat()) ==> (Directory.Listed(fs.Listing(), s) <==> !old(fs.openInodes)[s].removed))
      ensures var s := old(files)[f].sector;
        && s in old(fs.live)
        && fs.freeMap.Model() == if old(fs.openInodes)[s].removed && Users(files, s) == {}
                                 then Returned(old(fs.freeMap.Model()), s, old(fs.live)[s]) else old(fs.freeMap.Model())
      ensures old(fs.Neat()) ==> fs.Neat()
      ensures old(fs.Neat()) && old(fs.NoLeak()) ==> fs.NoLeak()
    {
      hide Sound, Counted, RootNames, RootEntries, FileMap, OnDisk, Users, Tidy, Directory.Listed, Returned, Tight;
      var s := files[f].sector;
      RootFacts(fs.live, fs.freeMap.Model(), fs.disk.sectors, fs.openInodes);
      OpenIsLive(files, fs.openInodes, fs.live, fs.freeMap.Model(), fs.disk.sectors, f);
      NeatRemoved(fs.live, fs.freeMap.Model(), fs.disk.sectors, fs.openInodes, s);
      AllowWrite(f);
      RootFacts(fs.live, fs.freeMap.Model(), fs.disk.sectors, fs.openInodes);
      ghost var open := fs.openInodes;
      FileClosed(files, fs.openInodes, f);
      assert files - {f} == old(files) - {f};
      fs.InodeClose(s);
      files := files - {f};
      RootFacts(fs.live, fs.freeMap.Model(), fs.disk.sectors, fs.openInodes);
      TidySame(fs.Listing(), open, fs.openInodes);
    }

    /** file_read: reads at the file's position and moves it past what was read. */
    method Read(f: nat, buffer: array<Byte>, size: int, memory: bool) returns (n: nat)
      requires Valid() && f in files && size <= buffer.Length
      modifies this`files, buffer
      ensures Valid() && files == old(files)[f := old(files)[f].(pos := old(files)[f].pos + n)]
      ensures n == Transferred(|Bytes(f)|, size, old(files)[f].pos, memory)
      ensures ReadInto(buffer[..], old(buffer[..]), Bytes(f), old(files)[f].pos, n)
      ensures Bytes(f) == old(Bytes(f))
    {
      hide Sound, Counted, RootNames, FileMap, OnDisk, ReadInto;
      OpenIsLive(files, fs.openInodes, fs.live, fs.freeMap.Model(), fs.disk.sectors, f);
      n := fs.ReadInode(files[f].sector, buffer, size, files[f].pos, memory);
      Moved(files, fs.openInodes, f, files[f].pos + n);
      files := files[f := files[f].(pos := files[f].pos + n)];
    }

    /** file_write: nothing is written while any opener of the inode denies writes. */
    method Write(f: nat, buffer: array<Byte>, size: int, memory: bool) returns (n: nat)
      requires Valid() && f in files && size <= buffer.Length
      modifies this`files, fs.disk
      ensures Valid() && files == old(files)[f := old(files)[f].(pos := old(files)[f].pos + n)] && fs.Listing() == old(fs.Listing())
      ensures old(fs.Neat()) ==> fs.Neat()
      ensures var s, c, pos := old(files)[f].sector, old(Bytes(f)), old(files)[f].pos;
        && n == (if Deniers(old(files), s) != {} then 0 else Transferred(|c|, size, pos, memory)) <= buffer.Length
        && (n == 0 || pos + n <= |c|)
        && fs.Files() == old(fs.Files())[s := Spliced(c, pos, buffer[..n])]
    {
      hide Sound, Counted, RootEntries, FileMap, OnDisk, Spliced, Transferred, Tidy;
      RootFacts(fs.live, fs.freeMap.Model(), fs.disk.sectors, fs.openInodes);
      OpenIsLive(files, fs.openInodes, fs.live, fs.freeMap.Model(), fs.disk.sectors, f);
      n := fs.WriteInode(files[f].sector, buffer, size, files[f].pos, memory);
      Moved(files, fs.openInodes, f, files[f].pos + n);
      files := files[f := files[f].(pos := files[f].pos + n)];
    }

    /** filesys_create beside open files: they keep their contents, even if an entry is overwritten. */
    method Create(name: Name, size: nat, luck: Luck) returns (ok: bool)
      requires Valid() && 0 !in name && size < 0x8000_0000
      modifies fs`openInodes, fs`live, fs.disk, fs.freeMap.bits
      ensures Valid() && fs.openInodes == old(fs.openInodes)
      ensures ok ==> CreatedIn(old(fs.Listing()), fs.Listing(), name, luck, fs.openInodes, old(fs.Files()), fs.Files(), size)
      ensures old(fs.NoLeak()) ==>
        (fs.NoLeak() <==> if ok then !Loses(old(fs.Listing()), luck, fs.openInodes)
                          else !(old(fs.RootOpens(luck)) && old(fs.RoomFor(size, luck)) && size > 0))
      ensures !ok ==> fs.Listing() == old(fs.Listing()) && fs.Files() == old(fs.Files())
      ensures forall f | f in files :: Bytes(f) == old(Bytes(f))
      ensures old(fs.Neat()) ==> (fs.Neat() <==> (ok ==> StaysNeat(old(fs.Listing()), name, luck, fs.openInodes)))
    {
      hide Sound, Counted, RootNames, RootEntries, FileMap, OnDisk, HasRoom, CreatedIn, StaysNeat, Tidy, Directory.Adds, Directory.Clean,
           MarkedFor, Loses, Tight, JoinedBy;
      ghost var open := fs.openInodes;
      RootFacts(fs.live, fs.freeMap.Model(), fs.disk.sectors, fs.openInodes);
      forall f | f in files ensures files[f].sector in fs.Files() && files[f].sector in open {
        OpenIsLive(files, fs.openInodes, fs.live, fs.freeMap.Model(), fs.disk.sectors, f);
      }
      ghost var es, before := fs.Listing(), fs.Files();
      ok := fs.Create(name, size, luck);
      RootFacts(fs.live, fs.freeMap.Model(), fs.disk.sectors, fs.openInodes);
      if ok {
        OpenFilesKept(es, fs.Listing(), name, luck, open, before, fs.Files(), size);
      }
    }

    /** filesys_remove beside open files: every open file keeps its contents. */
    method Remove(name: Name, luck: Luck) returns (ok: bool)
      requires Valid()
      modifies fs`openInodes, fs`live, fs.disk, fs.freeMap.bits
      ensures Valid() && (ok ==> name in old(fs.Names()))
      ensures ok && Directory.NamesUnique(old(fs.Listing())) ==> fs.Names() == old(fs.Names()) - {name}
      ensures forall f | f in files :: Bytes(f) == old(Bytes(f))
      ensures ok ==> old(fs.Names())[name] in old(fs.live)
      ensures ok ==> var h := old(fs.Names())[name];
        fs.freeMap.Model() ==
          if Users(files, h) == {} then Returned(old(fs.freeMap.Model()), h, old(fs.live)[h]) else old(fs.freeMap.Model())
      ensures !ok ==> fs.freeMap.Model() == old(fs.freeMap.Model())
      ensures old(fs.Neat()) ==> fs.Neat()
      ensures old(fs.NoLeak()) ==> fs.NoLeak()
    {
      hide Sound, Counted, RootNames, RootEntries, FileMap, OnDisk, Tidy, Directory.NamesUnique, Opens, Unlinked, Returned, Tight, Users;
      ghost var open := fs.openInodes;
      RootFacts(fs.live, fs.freeMap.Model(), fs.disk.sectors, fs.openInodes);
      forall f | f in files ensures files[f].sector in fs.Files() && files[f].sector in open {
        OpenIsLive(files, fs.openInodes, fs.live, fs.freeMap.Model(), fs.disk.sectors, f);
      }
      if name in fs.Names() && fs.Names()[name] in open {
        RemovalCounted(files, open, fs.Names()[name]);
      }
      if name in fs.Names() {
        OpenHasUsers(files, open, fs.Names()[name]);
        NamedIsFile(fs.live, fs.freeMap.Model(), fs.disk.sectors, fs.openInodes, name);
      }
      ok := fs.Remove(name, luck);
    }
  }

  /** An inode other than the free map's is open exactly while files use it. */
  lemma OpenHasUsers(files: Table, open: OpenInodes, s: nat)
    requires Counted(files, open)
    ensures s > ROOT_DIR_SECTOR ==> (s in open <==> Users(files, s) != {})
  {
    assert CountedAt(files, open, s);
  }

  lemma NamedIsFile(live: Inodes, used: seq<bool>, d: Sectors, open: OpenInodes, name: Name)
    requires Sound(live, used, d, open) && OnDisk(live, d) && ROOT_DIR_SECTOR in live && name in RootNames(live, d)
    ensures RootNames(live, d)[name] > ROOT_DIR_SECTOR
  {
    hide Directory.Names, Entries, Contents, Laid, OpenOk, AllReachable, Directory.SectorsUnique;
    var es := RootEntries(live, d);
    var i := Directory.NamesWitness(es, name);
    assert Directory.Listed(es, es[i].sector);
  }

  /** A creation leaves the contents of open files alone. */
  lemma OpenFilesKept(es: seq<Entry>, fs: seq<Entry>, name: Name, luck: Luck, open: OpenInodes,
                      files: map<nat, seq<Byte>>, next: map<nat, seq<Byte>>, size: nat)
    requires CreatedIn(es, fs, name, luck, open, files, next, size)
    ensures forall s | s in open && s in files :: s in next && next[s] == files[s]
  {
    hide Directory.Stop, Directory.Names, Directory.NamesUnique, Directory.Clean, Zeros;
  }

  lemma OpenCounts(live: Inodes, used: seq<bool>, d: Sectors, open: OpenInodes)
    requires Sound(live, used, d, open)
    ensures forall s | s in open :: 0 < open[s].openCnt && open[s].denyWriteCnt <= open[s].openCnt
  {
    hide Laid, RootEntries, Directory.Listed;
  }

  /** In a neat state the open files without an entry are the removed ones. */
  lemma NeatRemoved(live: Inodes, used: seq<bool>, d: Sectors, open: OpenInodes, s: nat)
    requires Sound(live, used, d, open) && s in open && s > ROOT_DIR_SECTOR
    ensures OnDisk(live, d) && ROOT_DIR_SECTOR in live
    ensures Tidy(RootEntries(live, d), open) ==> (Directory.Listed(RootEntries(live, d), s) <==> !open[s].removed)
  {
    hide Directory.Listed, Directory.NamesUnique, Directory.SectorsUnique, Entries, Contents;
  }

  lemma OpenIsLive(files: Table, open: OpenInodes, live: Inodes, used: seq<bool>, d: Sectors, f: nat)
    requires Sound(live, used, d, open) && Counted(files, open) && f in files && files[f].sector > ROOT_DIR_SECTOR
    ensures var s := files[f].sector;
      && s in open && s in live && OnDisk(live, d) && s in FileMap(live, d)
      && (open[s].denyWriteCnt > 0 <==> Deniers(files, s) != {})
  {
    var s := files[f].sector;
    assert CountedAt(files, open, s);
    assert f in Users(files, s);
    hide DirectoryOk, EntriesOk, AllReachable, RootEntries, Directory.Listed, Contents;
  }
}
