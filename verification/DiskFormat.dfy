/** On-disk formats: inode headers (src/filesys/inode.c:13-21) and directory entries
    (src/filesys/directory.c:16-22), little-endian as the machine stores them. */
module DiskFormat {
  import opened Bytes
  import opened FileData

  const WORD_LIMIT: nat := 0x1_0000_0000
  const INODE_MAGIC: nat := 0x494e4f44
  const ENTRY: nat := 20
  const NAME_MAX: nat := 14

  function Word(b: seq<Byte>): (n: nat)
    requires |b| == 4
  {
    b[0] as int + 0x100 * (b[1] as int + 0x100 * (b[2] as int + 0x100 * b[3] as int))
  }

  function WordBytes(n: nat): (b: seq<Byte>)
    requires n < WORD_LIMIT
    ensures |b| == 4 && Word(b) == n
  {
    var n1 := n / 0x100;
    var n2 := n1 / 0x100;
    [n % 0x100, n1 % 0x100, n2 % 0x100, n2 / 0x100]
  }

  // ----- inode headers -----

  function HeaderBytes(e: Extent): (b: seq<Byte>)
    requires e.start < WORD_LIMIT && e.length < WORD_LIMIT
    ensures |b| == SECTOR && HeaderOf(b) == e
    ensures Word(b[..4]) == e.start && Word(b[4..8]) == e.length && Word(b[8..12]) == 0x494e4f44 && forall i | 12 <= i < SECTOR :: b[i] == 0
  {
    var head := WordBytes(e.start) + WordBytes(e.length) + WordBytes(INODE_MAGIC);
    assert head[..4] == WordBytes(e.start) && head[4..8] == WordBytes(e.length);
    var b := head + seq(SECTOR - 12, _ => 0);
    assert b[..4] == head[..4] && b[4..8] == head[4..8];
    assert b[8..12] == WordBytes(INODE_MAGIC);
    b
  }

  /** What inode_open takes from a header sector. */
  function HeaderOf(b: seq<Byte>): (e: Extent)
    requires |b| == SECTOR
  {
    Extent(Word(b[..4]), Word(b[4..8]))
  }

  // ----- directory entries -----

  type Name = seq<Byte>

  datatype Entry = Entry(sector: nat, name: Name, inUse: bool)

  /** The C string at the start of a field. */
  function CString(b: seq<Byte>): (s: Name)
    ensures |s| <= |b| && 0 !in s
  {
    if b == [] || b[0] == 0 then [] else [b[0]] + CString(b[1..])
  }

  lemma {:induction false} CStringOf(s: Name, rest: seq<Byte>)
    requires 0 !in s
    ensures CString(s + [0] + rest) == s
  {
    var b := s + [0] + rest;
    if s != [] {
      assert b[1..] == s[1..] + [0] + rest;
      CStringOf(s[1..], rest);
    }
  }

  function EntryOf(b: seq<Byte>): (e: Entry)
    requires |b| == ENTRY
  {
    Entry(Word(b[..4]), CString(b[4..19]), b[19] != 0)
  }

  /** dir_add's new entry: the bytes of the old one after the name stay. */
  function FilledEntry(prev: seq<Byte>, name: Name, sector: nat): (b: seq<Byte>)
    requires |prev| == ENTRY && |name| <= NAME_MAX && 0 !in name && sector < WORD_LIMIT
    ensures |b| == ENTRY && EntryOf(b) == Entry(sector, name, true)
    ensures Word(b[..4]) == sector && b[4..4 + |name|] == name && b[4 + |name|] == 0 && b[19] == 1
  {
    var tail := prev[5 + |name|..19];
    var field := name + [0] + tail;
    var b := WordBytes(sector) + field + [1];
    assert b[..4] == WordBytes(sector);
    assert b[4..19] == field;
    assert b[4..4 + |name|] == name;
    CStringOf(name, tail);
    b
  }

  /** dir_remove's erased entry. */
  function ErasedEntry(prev: seq<Byte>): (b: seq<Byte>)
    requires |prev| == ENTRY
    ensures |b| == ENTRY && EntryOf(b) == EntryOf(prev).(inUse := false)
  {
    var b := prev[19 := 0];
    assert b[..4] == prev[..4] && b[4..19] == prev[4..19];
    b
  }

  /** The bytes of entry i of a directory. */
  function Slot(c: seq<Byte>, i: nat): (b: seq<Byte>)
    requires i < |c| / ENTRY
    ensures |b| == ENTRY
  {
    c[i * ENTRY..i * ENTRY + ENTRY]
  }

  /** A directory's contents as entries; bytes that do not make a whole entry are never read. */
  function Entries(c: seq<Byte>): (es: seq<Entry>)
    ensures |es| == |c| / ENTRY && forall i | 0 <= i < |es| :: es[i] == EntryOf(Slot(c, i))
  {
    seq(|c| / ENTRY, i requires 0 <= i < |c| / ENTRY => EntryOf(Slot(c, i)))
  }

  /** Writing one entry in place changes that entry only. */
  lemma EntryWritten(c: seq<Byte>, i: nat, b: seq<Byte>)
    requires i < |c| / ENTRY && |b| == ENTRY
    ensures i * ENTRY + ENTRY <= |c| && Entries(Spliced(c, i * ENTRY, b)) == Entries(c)[i := EntryOf(b)]
  {
    hide EntryOf;
    var r := Spliced(c, i * ENTRY, b);
    forall j | 0 <= j < |c| / ENTRY ensures Entries(r)[j] == Entries(c)[i := EntryOf(b)][j] {
      assert Slot(r, j) == if j == i then b else Slot(c, j);
    }
  }

  /** A new directory has no entry in use. */
  lemma BlankEntries(c: seq<Byte>)
    requires forall k | 0 <= k < |c| :: c[k] == 0
    ensures forall i | 0 <= i < |c| / ENTRY :: !Entries(c)[i].inUse
  {
  }
}
