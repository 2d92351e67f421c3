/** User page directories (src/userprog/pagedir.c:27-215). The two-level structure refines a flat map from user
    page numbers to page table entries. */
module PageDirectory {
  import opened Options
  import opened PageTable

  /** Page tables by the kernel address of their page. */
  type Tables = map<nat, seq<nat>>

  /** A zeroed page. */
  function ZeroTable(): (t: seq<nat>)
    ensures |t| == ENTRIES && forall i | 0 <= i < ENTRIES :: t[i] == 0
  {
    seq(ENTRIES, _ => 0)
  }

  /** Directory entry i is empty or points to a page table. */
  ghost predicate Linked(pd: seq<nat>, tables: Tables, i: nat)
    requires i < |pd|
  {
    pd[i] == 0 || (PageOf(pd[i]) in tables && |tables[PageOf(pd[i])]| == ENTRIES && Present(pd[i]))
  }

  ghost predicate WellFormed(pd: seq<nat>, tables: Tables)
  {
    && |pd| == ENTRIES
    && (forall i: nat | i < USER_ENTRIES :: Linked(pd, tables, i))
    && (forall i, j | 0 <= i < j < USER_ENTRIES && pd[i] != 0 && pd[j] != 0 :: PageOf(pd[i]) != PageOf(pd[j]))
    && (forall t | t in tables :: Referenced(pd, t, USER_ENTRIES))
  }

  ghost predicate Referenced(pd: seq<nat>, t: nat, n: nat)
    requires n <= |pd|
  {
    exists i: nat | i < n :: pd[i] != 0 && PageOf(pd[i]) == t
  }

  /** The entry for user page u, zero if there is no page table for it. */
  ghost function EntryFor(pd: seq<nat>, tables: Tables, u: nat): (e: nat)
    requires WellFormed(pd, tables) && u < USER_ENTRIES * ENTRIES
  {
    var i := u / ENTRIES;
    assert Linked(pd, tables, i);
    if pd[i] == 0 then 0 else tables[PageOf(pd[i])][u % ENTRIES]
  }

  /** The flat map. */
  ghost function Flat(pd: seq<nat>, tables: Tables): (m: map<nat, nat>)
    requires WellFormed(pd, tables)
  {
    map u: nat | u < USER_ENTRIES * ENTRIES :: EntryFor(pd, tables, u)
  }

  /** The tables with one entry rewritten. */
  function Rewritten(tables: Tables, pt: nat, j: nat, e: nat): (ts: Tables)
    requires pt in tables && j < |tables[pt]|
  {
    var t: seq<nat> := tables[pt];
    tables[pt := t[j := e]]
  }

  lemma IndexFacts(va: nat)
    requires va < PHYS_BASE
    ensures PdNo(va) == va / PGSIZE / ENTRIES < USER_ENTRIES && PtNo(va) == va / PGSIZE % ENTRIES
    ensures va / PGSIZE < USER_ENTRIES * ENTRIES
  {
    hide PtNo;
    TableIndex(va);
  }

  /** Adding an empty page table changes no entry. */
  lemma TableAdded(pd: seq<nat>, tables: Tables, i: nat, pt: nat)
    requires WellFormed(pd, tables) && i < USER_ENTRIES && pd[i] == 0 && IsPage(pt) && pt !in tables
    ensures var d, ts := pd[i := PdeCreate(pt)], tables[pt := ZeroTable()];
      WellFormed(d, ts) && Flat(d, ts) == Flat(pd, tables)
  {
    PdeRoundTrip(pt);
    var d, ts := pd[i := PdeCreate(pt)], tables[pt := ZeroTable()];
    hide PageOf, PdeCreate, Present, ZeroTable;
    assert d[i] == PdeCreate(pt) && PageOf(d[i]) == pt && pt in ts;
    forall j: nat | j < USER_ENTRIES ensures Linked(d, ts, j) && (j != i && pd[j] != 0 ==> PageOf(pd[j]) != pt) {
      assert Linked(pd, tables, j);
    }
    forall t | t in ts ensures Referenced(d, t, USER_ENTRIES) {
      if t == pt {
        assert d[i] != 0 && PageOf(d[i]) == t;
      } else {
        assert Referenced(pd, t, USER_ENTRIES);
        var j: nat :| j < USER_ENTRIES && pd[j] != 0 && PageOf(pd[j]) == t;
        assert d[j] == pd[j];
      }
    }
    assert WellFormed(d, ts);
    forall u: nat | u < USER_ENTRIES * ENTRIES ensures EntryFor(d, ts, u) == EntryFor(pd, tables, u) {
      assert Linked(pd, tables, u / ENTRIES);
    }
  }

  /** Writing one entry of a page table changes that page's entry only. */
  lemma EntryChanged(pd: seq<nat>, tables: Tables, va: nat, e: nat)
    requires WellFormed(pd, tables) && va < PHYS_BASE && pd[PdNo(va)] != 0
    ensures PageOf(pd[PdNo(va)]) in tables && |tables[PageOf(pd[PdNo(va)])]| == ENTRIES
    ensures var ts := Rewritten(tables, PageOf(pd[PdNo(va)]), PtNo(va), e);
      WellFormed(pd, ts) && Flat(pd, ts) == Flat(pd, tables)[va / PGSIZE := e]
  {
    hide PageOf, Present;
    IndexFacts(va);
    assert Linked(pd, tables, PdNo(va));
    var pt := PageOf(pd[PdNo(va)]);
    var ts := Rewritten(tables, pt, PtNo(va), e);
    forall j: nat | j < USER_ENTRIES ensures Linked(pd, ts, j) {
      assert Linked(pd, tables, j);
    }
    assert WellFormed(pd, ts);
    forall u: nat | u < USER_ENTRIES * ENTRIES
      ensures EntryFor(pd, ts, u) == if u == va / PGSIZE then e else EntryFor(pd, tables, u)
    {
      assert Linked(pd, tables, u / ENTRIES);
      assert u == u / ENTRIES * ENTRIES + u % ENTRIES;
    }
  }

  // ----- the directory as an object -----

  class Directory {
    const address: nat
    var pd: seq<nat>
    var tables: Tables

    ghost predicate Valid()
      reads this
    {
      WellFormed(pd, tables) && IsPage(address) && address !in tables
    }

    ghost function Entries(): (m: map<nat, nat>)
      reads this
      requires Valid()
    {
      Flat(pd, tables)
    }

    /** pagedir_create in a page from the allocator: kernel mappings are copied, there are no user ones. */
    constructor (page: nat, initPageDir: seq<nat>)
      requires IsPage(page) && |initPageDir| == ENTRIES && forall i | 0 <= i < USER_ENTRIES :: initPageDir[i] == 0
      ensures Valid() && address == page && forall u | u in Entries() :: Entries()[u] == 0
      ensures pd[USER_ENTRIES..] == initPageDir[USER_ENTRIES..]
    {
      address, pd, tables := page, initPageDir, map[];
    }

    /** lookup_page without creation: the table and index of an entry. */
    method Find(va: nat) returns (pte: Option<nat>)
      requires Valid() && va < PHYS_BASE
      ensures va / PGSIZE in Entries()
      ensures pte.Some? <==> pd[PdNo(va)] != 0
      ensures pte.Some? ==> pte.value == Entries()[va / PGSIZE]
      ensures pte.None? ==> Entries()[va / PGSIZE] == 0
    {
      hide PageOf, Present;
      IndexFacts(va);
      assert Linked(pd, tables, PdNo(va));
      if pd[PdNo(va)] == 0 {
        return None;
      }
      var pt := tables[PageOf(pd[PdNo(va)])];
      pte := Some(pt[PtNo(va)]);
    }

    /** Stores an entry that Find found. */
    method Store(va: nat, e: nat)
      requires Valid() && va < PHYS_BASE && pd[PdNo(va)] != 0
      modifies this`tables
      ensures Valid() && Entries() == old(Entries())[va / PGSIZE := e] && tables.Keys == old(tables).Keys
    {
      assert |pd| == ENTRIES;
      hide PageOf, Present, Flat, WellFormed;
      EntryChanged(pd, tables, va, e);
      tables := Rewritten(tables, PageOf(pd[PdNo(va)]), PtNo(va), e);
    }

    /** lookup_page with creation: a page table from the allocator (`spare`) if there is none yet. */
    method Ensure(va: nat, spare: Option<nat>) returns (ok: bool)
      requires Valid() && va < PHYS_BASE
      requires spare.Some? ==> IsPage(spare.value) && spare.value !in tables && spare.value != address
      modifies this
      ensures Valid() && Entries() == old(Entries())
      ensures ok <==> old(pd)[PdNo(va)] != 0 || spare.Some?
      ensures ok ==> pd[PdNo(va)] != 0
      ensures tables.Keys == if ok && old(pd)[PdNo(va)] == 0 then old(tables).Keys + {spare.value} else old(tables).Keys
    {
      assert |pd| == ENTRIES;
      hide PageOf, Flat, WellFormed, PdeCreate;
      IndexFacts(va);
      if pd[PdNo(va)] == 0 {
        if spare.None? {
          return false;
        }
        TableAdded(pd, tables, PdNo(va), spare.value);
        PdeRoundTrip(spare.value);
        pd := pd[PdNo(va) := PdeCreate(spare.value)];
        tables := tables[spare.value := ZeroTable()];
      }
      ok := true;
    }

    /** pagedir_set_page: maps one page that is not present and leaves every other entry alone. */
    method SetPage(upage: nat, kpage: nat, writable: bool, spare: Option<nat>) returns (ok: bool)
      requires Valid() && upage % PGSIZE == 0 && upage < PHYS_BASE && IsPage(kpage)
      requires upage / PGSIZE in Entries() && !Present(Entries()[upage / PGSIZE])
      requires spare.Some? ==> IsPage(spare.value) && spare.value !in tables && spare.value != address
      modifies this
      ensures Valid()
      ensures ok <==> old(pd)[PdNo(upage)] != 0 || spare.Some?
      ensures Entries() == if ok then old(Entries())[upage / PGSIZE := PteCreateUser(kpage, writable)] else old(Entries())
    {
      hide Flat, WellFormed, PteCreateUser, Present;
      ok := Ensure(upage, spare);
      if ok {
        Store(upage, PteCreateUser(kpage, writable));
      }
    }

    /** pagedir_get_page: the kernel address of the byte, if its page is present. */
    method GetPage(uaddr: nat) returns (kaddr: Option<nat>)
      requires Valid() && uaddr < PHYS_BASE
      ensures uaddr / PGSIZE in Entries()
      ensures kaddr == var e := Entries()[uaddr / PGSIZE]; if Present(e) then Some(PageOf(e) + uaddr % PGSIZE) else None
    {
      hide Flat, WellFormed, PageOf;
      var pte := Find(uaddr);
      if pte.Some? && Present(pte.value) {
        kaddr := Some(PageOf(pte.value) + uaddr % PGSIZE);
      } else {
        kaddr := None;
      }
    }

    /** pagedir_clear_page. */
    method ClearPage(upage: nat)
      requires Valid() && upage % PGSIZE == 0 && upage < PHYS_BASE
      modifies this`tables
      ensures Valid() && upage / PGSIZE in old(Entries())
      ensures Entries() == old(Entries())[upage / PGSIZE := NotPresent(old(Entries())[upage / PGSIZE])]
    {
      hide Flat, WellFormed, NotPresent;
      var pte := Find(upage);
      if pte.Some? && Present(pte.value) {
        Store(upage, NotPresent(pte.value));
      } else {
        AlreadyAbsent(if pte.Some? then pte.value else 0);
      }
    }

    /** pagedir_set_dirty; without an entry there is nothing to do. */
    method SetDirty(vpage: nat, dirty: bool)
      requires Valid() && vpage < PHYS_BASE
      modifies this`tables
      ensures Valid() && vpage / PGSIZE in old(Entries())
      ensures Entries() == if pd[PdNo(vpage)] == 0 then old(Entries())
        else old(Entries())[vpage / PGSIZE := WithDirty(old(Entries())[vpage / PGSIZE], dirty)]
    {
      hide Flat, WellFormed, WithDirty;
      var pte := Find(vpage);
      if pte.Some? {
        Store(vpage, WithDirty(pte.value, dirty));
      }
    }

    /** pagedir_set_accessed. */
    method SetAccessed(vpage: nat, accessed: bool)
      requires Valid() && vpage < PHYS_BASE
      modifies this`tables
      ensures Valid() && vpage / PGSIZE in old(Entries())
      ensures Entries() == if pd[PdNo(vpage)] == 0 then old(Entries())
        else old(Entries())[vpage / PGSIZE := WithAccessed(old(Entries())[vpage / PGSIZE], accessed)]
    {
      hide Flat, WellFormed, WithAccessed;
      var pte := Find(vpage);
      if pte.Some? {
        Store(vpage, WithAccessed(pte.value, accessed));
      }
    }

    /** pagedir_destroy: the pages given back, in order. */
    method Destroy() returns (freed: seq<nat>)
      requires Valid()
      ensures freed == DirectoryFrees(pd, tables, USER_ENTRIES) + [address]
    {
      hide PageOf, Present;
      freed := [];
      var i: nat := 0;
      while i < USER_ENTRIES
        invariant i <= USER_ENTRIES && freed == DirectoryFrees(pd, tables, i)
      {
        assert Linked(pd, tables, i);
        if Present(pd[i]) {
          assert pd[i] != 0 by {
            ZeroAbsent();
          }
          var frames := FreeFrames(tables[PageOf(pd[i])]);
          freed := freed + frames + [PageOf(pd[i])];
        }
        i := i + 1;
      }
      freed := freed + [address];
    }
  }

  /** The inner loop of pagedir_destroy. */
  method FreeFrames(pt: seq<nat>) returns (freed: seq<nat>)
    ensures freed == FrameFrees(pt, |pt|)
  {
    hide PageOf, Present;
    freed := [];
    var j: nat := 0;
    while j < |pt|
      invariant j <= |pt| && freed == FrameFrees(pt, j)
    {
      if Present(pt[j]) {
        freed := freed + [PageOf(pt[j])];
      }
      j := j + 1;
    }
  }

  lemma ZeroAbsent()
    ensures !Present(0)
  {
  }

  // ----- what destruction gives back -----

  /** How often x occurs in s. */
  ghost function Times(s: seq<nat>, x: nat): (n: nat)
  {
    multiset(s)[x]
  }

  lemma TimesJoined(s: seq<nat>, t: seq<nat>, x: nat)
    ensures Times(s + t, x) == Times(s, x) + Times(t, x)
  {
  }

  lemma TimesOne(y: nat, x: nat)
    ensures Times([y], x) == (if x == y then 1 else 0) && Times([], x) == 0
  {
  }

  function FrameFrees(pt: seq<nat>, n: nat): (f: seq<nat>)
    requires n <= |pt|
  {
    if n == 0 then [] else
    FrameFrees(pt, n - 1) + if Present(pt[n - 1]) then [PageOf(pt[n - 1])] else []
  }

  ghost function DirectoryFrees(pd: seq<nat>, tables: Tables, n: nat): (f: seq<nat>)
    requires WellFormed(pd, tables) && n <= USER_ENTRIES
  {
    if n == 0 then [] else
    assert Linked(pd, tables, n - 1);
    if pd[n - 1] == 0 then DirectoryFrees(pd, tables, n - 1)
    else DirectoryFrees(pd, tables, n - 1) + FrameFrees(tables[PageOf(pd[n - 1])], ENTRIES) + [PageOf(pd[n - 1])]
  }

  /** How many of the first n user pages are present and mapped to page x. */
  ghost function MappedTo(pd: seq<nat>, tables: Tables, n: nat, x: nat): (c: nat)
    requires WellFormed(pd, tables) && n <= USER_ENTRIES * ENTRIES
  {
    if n == 0 then 0 else
    var e := EntryFor(pd, tables, n - 1);
    MappedTo(pd, tables, n - 1, x) + if Present(e) && PageOf(e) == x then 1 else 0
  }

  /** The frames freed from one page table are the mapped ones. */
  lemma {:induction false} FrameCounts(pd: seq<nat>, tables: Tables, i: nat, pt: seq<nat>, n: nat, x: nat)
    requires WellFormed(pd, tables) && i < USER_ENTRIES && n <= ENTRIES == |pt|
    requires forall j: nat | j < ENTRIES :: EntryFor(pd, tables, i * ENTRIES + j) == pt[j]
    ensures Times(FrameFrees(pt, n), x) + MappedTo(pd, tables, i * ENTRIES, x) == MappedTo(pd, tables, i * ENTRIES + n, x)
  {
    hide Present, PageOf, WellFormed, Times, MappedTo, EntryFor;
    if n == 0 {
      TimesOne(0, x);
    } else {
      FrameCounts(pd, tables, i, pt, n - 1, x);
      MappedStep(pd, tables, i * ENTRIES + (n - 1), x);
      FramesStep(pt, n, x);
    }
  }

  lemma FramesStep(pt: seq<nat>, n: nat, x: nat)
    requires 0 < n <= |pt|
    ensures Times(FrameFrees(pt, n), x)
         == Times(FrameFrees(pt, n - 1), x) + if Present(pt[n - 1]) && PageOf(pt[n - 1]) == x then 1 else 0
  {
    hide Present, PageOf, Times;
    TimesOne(PageOf(pt[n - 1]), x);
    TimesJoined(FrameFrees(pt, n - 1), if Present(pt[n - 1]) then [PageOf(pt[n - 1])] else [], x);
  }

  lemma TableEntries(pd: seq<nat>, tables: Tables, i: nat)
    requires WellFormed(pd, tables) && i < USER_ENTRIES && pd[i] != 0
    ensures PageOf(pd[i]) in tables && |tables[PageOf(pd[i])]| == ENTRIES
    ensures forall j: nat | j < ENTRIES :: EntryFor(pd, tables, i * ENTRIES + j) == tables[PageOf(pd[i])][j]
  {
    assert Linked(pd, tables, i);
    hide PageOf, EntryFor;
    forall j: nat | j < ENTRIES ensures EntryFor(pd, tables, i * ENTRIES + j) == tables[PageOf(pd[i])][j] {
      EntryIn(pd, tables, i, j);
    }
  }

  lemma EntryIn(pd: seq<nat>, tables: Tables, i: nat, j: nat)
    requires WellFormed(pd, tables) && i < USER_ENTRIES && j < ENTRIES && pd[i] != 0
    ensures PageOf(pd[i]) in tables && |tables[PageOf(pd[i])]| == ENTRIES
    ensures EntryFor(pd, tables, i * ENTRIES + j) == tables[PageOf(pd[i])][j]
  {
    assert Linked(pd, tables, i);
    var u := i * ENTRIES + j;
    assert u / ENTRIES == i && u % ENTRIES == j;
  }

  lemma MappedStep(pd: seq<nat>, tables: Tables, u: nat, x: nat)
    requires WellFormed(pd, tables) && u < USER_ENTRIES * ENTRIES
    ensures var e := EntryFor(pd, tables, u);
      MappedTo(pd, tables, u + 1, x) == MappedTo(pd, tables, u, x) + if Present(e) && PageOf(e) == x then 1 else 0
  {
  }

  lemma {:induction false} NoFrames(pd: seq<nat>, tables: Tables, i: nat, n: nat, x: nat)
    requires WellFormed(pd, tables) && i < USER_ENTRIES && n <= ENTRIES && pd[i] == 0
    ensures i * ENTRIES + n <= USER_ENTRIES * ENTRIES
    ensures MappedTo(pd, tables, i * ENTRIES + n, x) == MappedTo(pd, tables, i * ENTRIES, x)
  {
    ZeroAbsent();
    hide Present, PageOf, WellFormed;
    if n > 0 {
      NoFrames(pd, tables, i, n - 1, x);
      var u := i * ENTRIES + n - 1;
      assert u / ENTRIES == i && u % ENTRIES == n - 1;
    }
  }

  /** How many of the first n directory entries point to x. */
  ghost function TablesAt(pd: seq<nat>, n: nat, x: nat): (c: nat)
    requires n <= |pd|
  {
    if n == 0 then 0 else TablesAt(pd, n - 1, x) + if pd[n - 1] != 0 && PageOf(pd[n - 1]) == x then 1 else 0
  }

  lemma {:induction false} TableOnce(pd: seq<nat>, tables: Tables, n: nat, x: nat)
    requires WellFormed(pd, tables) && n <= USER_ENTRIES
    ensures TablesAt(pd, n, x) == if Referenced(pd, x, n) then 1 else 0
  {
    hide PageOf;
    if n > 0 {
      TableOnce(pd, tables, n - 1, x);
      assert Referenced(pd, x, n) <==> Referenced(pd, x, n - 1) || (pd[n - 1] != 0 && PageOf(pd[n - 1]) == x) by {
        if Referenced(pd, x, n) {
          var i: nat :| i < n && pd[i] != 0 && PageOf(pd[i]) == x;
          assert i < n - 1 ==> Referenced(pd, x, n - 1);
        }
      }
    }
  }

  lemma {:induction false} DirectoryCounts(pd: seq<nat>, tables: Tables, n: nat, x: nat)
    requires WellFormed(pd, tables) && n <= USER_ENTRIES
    ensures n * ENTRIES <= USER_ENTRIES * ENTRIES
    ensures Times(DirectoryFrees(pd, tables, n), x) == MappedTo(pd, tables, n * ENTRIES, x) + TablesAt(pd, n, x)
  {
    hide PageOf, Present, WellFormed, Times;
    TimesOne(0, x);
    if n > 0 {
      DirectoryCounts(pd, tables, n - 1, x);
      CountsStep(pd, tables, n, x);
    }
  }

  lemma CountsStep(pd: seq<nat>, tables: Tables, n: nat, x: nat)
    requires WellFormed(pd, tables) && 0 < n <= USER_ENTRIES && n * ENTRIES <= USER_ENTRIES * ENTRIES
    requires Times(DirectoryFrees(pd, tables, n - 1), x) == MappedTo(pd, tables, (n - 1) * ENTRIES, x) + TablesAt(pd, n - 1, x)
    ensures Times(DirectoryFrees(pd, tables, n), x) == MappedTo(pd, tables, n * ENTRIES, x) + TablesAt(pd, n, x)
  {
    hide PageOf, Present, MappedTo, FrameFrees, Times;
    assert |pd| == ENTRIES && Linked(pd, tables, n - 1);
    assert n * ENTRIES == (n - 1) * ENTRIES + ENTRIES;
    hide WellFormed;
    if pd[n - 1] == 0 {
      NoFrames(pd, tables, n - 1, ENTRIES, x);
    } else {
      TableEntries(pd, tables, n - 1);
      FrameCounts(pd, tables, n - 1, tables[PageOf(pd[n - 1])], ENTRIES, x);
      var before, frames, pt := DirectoryFrees(pd, tables, n - 1), FrameFrees(tables[PageOf(pd[n - 1])], ENTRIES), PageOf(pd[n - 1]);
      TimesJoined(before + frames, [pt], x);
      TimesJoined(before, frames, x);
      TimesOne(pt, x);
    }
  }

  /** Destruction gives back one page per present entry, every page table once and the directory once. */
  lemma DestroyCounts(pd: seq<nat>, tables: Tables, address: nat, x: nat)
    requires WellFormed(pd, tables) && address !in tables
    ensures Times(DirectoryFrees(pd, tables, USER_ENTRIES) + [address], x)
         == MappedTo(pd, tables, USER_ENTRIES * ENTRIES, x) + (if x in tables then 1 else 0) + (if x == address then 1 else 0)
  {
    DirectoryCounts(pd, tables, USER_ENTRIES, x);
    TableOnce(pd, tables, USER_ENTRIES, x);
    TablesReferenced(pd, tables, x);
    hide WellFormed, MappedTo, DirectoryFrees, TablesAt, Times;
    TimesJoined(DirectoryFrees(pd, tables, USER_ENTRIES), [address], x);
    TimesOne(address, x);
  }

  lemma TablesReferenced(pd: seq<nat>, tables: Tables, x: nat)
    requires WellFormed(pd, tables)
    ensures Referenced(pd, x, USER_ENTRIES) <==> x in tables
  {
    hide PageOf, Present;
    if Referenced(pd, x, USER_ENTRIES) {
      var i: nat :| i < USER_ENTRIES && pd[i] != 0 && PageOf(pd[i]) == x;
      assert Linked(pd, tables, i);
    }
  }

  /** Dirty and accessed updates never change a translation, of this page or of any other. */
  lemma FlagsKeepTranslations(m: map<nat, nat>, u: nat, value: bool, v: nat)
    requires u in m && v in m
    ensures SameTranslation(m[u := WithDirty(m[u], value)][v], m[v])
    ensures SameTranslation(m[u := WithAccessed(m[u], value)][v], m[v])
  {
    hide WithDirty, WithAccessed, PageOf, Present, Writable, User, Dirty, Accessed;
    DirtyOnly(m[u], value);
    AccessedOnly(m[u], value);
  }

  /** Mapping a page makes its bytes readable at the frame, byte for byte. */
  lemma MappedBytes(m: map<nat, nat>, upage: nat, kpage: nat, writable: bool, k: nat)
    requires upage % PGSIZE == 0 && k < PGSIZE && IsPage(kpage)
    ensures var n := m[upage / PGSIZE := PteCreateUser(kpage, writable)]; var e := n[(upage + k) / PGSIZE];
      Present(e) && PageOf(e) + (upage + k) % PGSIZE == kpage + k && (Writable(e) <==> writable)
  {
    PteRoundTrip(kpage, writable);
    hide PteCreateUser, PageOf, Present, Writable, User, Accessed, Dirty;
    assert (upage + k) / PGSIZE == upage / PGSIZE;
  }
}
