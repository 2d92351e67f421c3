/** Files as runs of sectors, and the chunked sector I/O that makes them byte arrays
    (src/filesys/inode.c:46-54, 197-318). */
module FileData {
  import opened Bytes

  const SECTOR: nat := 512

  /** The contents of a device. */
  type Sectors = seq<seq<Byte>>

  ghost predicate WellFormed(d: Sectors)
  {
    forall s | 0 <= s < |d| :: |d[s]| == SECTOR
  }

  /** bytes_to_sectors. */
  function SectorCount(length: nat): (n: nat)
    ensures n * SECTOR >= length && (n > 0 ==> (n - 1) * SECTOR < length)
  {
    (length + SECTOR - 1) / SECTOR
  }

  /** A file's data: its first sector and its length in bytes. */
  datatype Extent = Extent(start: nat, length: nat) {
    predicate Has(s: nat)
    {
      start <= s < start + SectorCount(length)
    }

    ghost predicate On(d: Sectors)
    {
      start + SectorCount(length) <= |d|
    }
  }

  /** The byte of the file at a position, through byte_to_sector. */
  ghost function ByteAt(d: Sectors, e: Extent, pos: nat): (b: Byte)
    requires WellFormed(d) && e.On(d) && pos < e.length
  {
    assert pos / SECTOR < SectorCount(e.length);
    d[e.start + pos / SECTOR][pos % SECTOR]
  }

  /** The file as a byte array. */
  ghost function Contents(d: Sectors, e: Extent): (c: seq<Byte>)
    requires WellFormed(d) && e.On(d)
    ensures |c| == e.length
  {
    seq(e.length, i requires 0 <= i < e.length => ByteAt(d, e, i))
  }

  /** Byte pos of a file is byte pos % 512 of the sector that is pos / 512 after the first. */
  lemma ByteToSector(d: Sectors, e: Extent, pos: nat)
    requires WellFormed(d) && e.On(d) && pos < e.length
    ensures e.start + pos / 512 < |d| && |Contents(d, e)| == e.length
    ensures Contents(d, e)[pos] == d[e.start + pos / 512][pos % 512]
  {
  }

  /** The array with data written at an offset. */
  ghost function Spliced(c: seq<Byte>, offset: nat, data: seq<Byte>): (r: seq<Byte>)
    requires data == [] || offset + |data| <= |c|
  {
    if data == [] then c else c[..offset] + data + c[offset + |data|..]
  }

  /** Bytes in range: at most size, and none past the end. */
  function InRange(length: nat, size: int, offset: nat): (n: nat)
  {
    var left := length - offset;
    var n := if size < left then size else left;
    if n < 0 then 0 else n
  }

  /** Bytes moved before a bounce buffer is first needed. */
  function Unbounced(length: nat, size: int, offset: nat): (n: nat)
    ensures n <= InRange(length, size, offset)
  {
    var n := InRange(length, size, offset);
    if offset % SECTOR == 0 then n - n % SECTOR else 0
  }

  function Transferred(length: nat, size: int, offset: nat, memory: bool): (n: nat)
    ensures n <= InRange(length, size, offset)
  {
    if memory then InRange(length, size, offset) else Unbounced(length, size, offset)
  }

  /** The size of the next chunk: it ends with the request, the file or the sector. */
  function Chunk(length: nat, size: int, offset: nat): (n: int)
  {
    var left := length - offset;
    var sectorLeft := SECTOR - offset % SECTOR;
    var least := if left < sectorLeft then left else sectorLeft;
    if size < least then size else least
  }

  lemma ChunkFacts(length: nat, size: int, offset: nat)
    requires size > 0 && Chunk(length, size, offset) > 0
    ensures var n := Chunk(length, size, offset);
      && n <= SECTOR - offset % SECTOR && n <= InRange(length, size, offset)
      && offset / SECTOR < SectorCount(length)
      && InRange(length, size, offset) == n + InRange(length, size - n, offset + n)
  {
  }

  lemma ChunkEnd(length: nat, size: int, offset: nat)
    requires Chunk(length, size, offset) <= 0 || size <= 0
    ensures InRange(length, size, offset) == 0
  {
  }

  /** A full chunk leaves the same bounce-free count to do. */
  lemma UnbouncedStep(length: nat, size: int, offset: nat)
    requires size > 0 && offset % SECTOR == 0 && Chunk(length, size, offset) == SECTOR
    ensures (offset + SECTOR) % SECTOR == 0
    ensures Unbounced(length, size, offset) == SECTOR + Unbounced(length, size - SECTOR, offset + SECTOR)
  {
    ChunkFacts(length, size, offset);
  }

  lemma UnbouncedEnd(length: nat, size: int, offset: nat)
    requires size > 0 && Chunk(length, size, offset) > 0
    requires !(offset % SECTOR == 0 && Chunk(length, size, offset) == SECTOR)
    ensures Unbounced(length, size, offset) == 0
  {
  }

  /** Positions inside one chunk are in the chunk's sector. */
  lemma SamePiece(offset: nat, k: nat)
    requires offset % SECTOR + k < SECTOR
    ensures (offset + k) / SECTOR == offset / SECTOR && (offset + k) % SECTOR == offset % SECTOR + k
  {
  }

  /** The transfer loops stop here: nothing is left in range, or the bounce buffer cannot be had. */
  predicate Halts(length: nat, size: int, offset: nat, memory: bool)
  {
    var chunk := Chunk(length, size, offset);
    chunk <= 0 || (!(offset % SECTOR == 0 && chunk == SECTOR) && !memory)
  }

  ghost predicate InOneSector(e: Extent, sectors: nat, pos: nat, n: nat)
  {
    0 < n && pos % SECTOR + n <= SECTOR && e.start + pos / SECTOR < sectors
  }

  /** A stretch of the file that lies in one sector. */
  lemma PieceOf(d: Sectors, e: Extent, pos: nat, n: nat)
    requires WellFormed(d) && e.On(d) && pos % SECTOR + n <= SECTOR && pos + n <= e.length
    requires e.start + pos / SECTOR < |d|
    ensures Contents(d, e)[pos..pos + n] == d[e.start + pos / SECTOR][pos % SECTOR..pos % SECTOR + n]
  {
    var here, there := Contents(d, e)[pos..pos + n], d[e.start + pos / SECTOR][pos % SECTOR..pos % SECTOR + n];
    forall k | 0 <= k < n ensures here[k] == there[k] {
      SamePiece(pos, k);
      assert ByteAt(d, e, pos + k) == d[e.start + pos / SECTOR][pos % SECTOR + k];
    }
  }

  // ----- writing -----

  /** The position in the file that byte o of sector s would have. */
  function Position(e: Extent, s: nat, o: nat): (p: int)
  {
    (s - e.start) * SECTOR + o
  }

  /** Device t is device d with data stored in the file at an offset, and no other byte changed. */
  ghost predicate Stored(d: Sectors, t: Sectors, e: Extent, offset: nat, data: seq<Byte>)
  {
    && |t| == |d| && WellFormed(d) && WellFormed(t)
    && forall s, o | 0 <= s < |d| && 0 <= o < SECTOR ::
         t[s][o] == if offset <= Position(e, s, o) < offset + |data| then data[Position(e, s, o) - offset] else d[s][o]
  }

  lemma StoredNothing(d: Sectors, e: Extent, offset: nat)
    requires WellFormed(d)
    ensures Stored(d, d, e, offset, [])
  {
  }

  lemma StoredChain(d: Sectors, t: Sectors, u: Sectors, e: Extent, offset: nat, data: seq<Byte>, more: seq<Byte>)
    requires Stored(d, t, e, offset, data) && Stored(t, u, e, offset + |data|, more)
    ensures Stored(d, u, e, offset, data + more)
  {
    hide Position;
    var all := data + more;
    forall s, o | 0 <= s < |d| && 0 <= o < SECTOR
      ensures u[s][o] == if offset <= Position(e, s, o) < offset + |all| then all[Position(e, s, o) - offset] else d[s][o]
    {
      var p := Position(e, s, o);
      assert t[s][o] == if offset <= p < offset + |data| then data[p - offset] else d[s][o];
    }
  }

  /** A sector with part of it replaced. */
  function Patched(sector: seq<Byte>, at: nat, data: seq<Byte>): (r: seq<Byte>)
    requires at + |data| <= |sector|
    ensures |r| == |sector|
  {
    sector[..at] + data + sector[at + |data|..]
  }

  lemma StoredPiece(d: Sectors, e: Extent, pos: nat, data: seq<Byte>)
    requires WellFormed(d) && pos % SECTOR + |data| <= SECTOR && e.start + pos / SECTOR < |d|
    ensures var s := e.start + pos / SECTOR; Stored(d, d[s := Patched(d[s], pos % SECTOR, data)], e, pos, data)
  {
    var here := e.start + pos / SECTOR;
    var t := d[here := Patched(d[here], pos % SECTOR, data)];
    forall s, o | 0 <= s < |d| && 0 <= o < SECTOR
      ensures t[s][o] == if pos <= Position(e, s, o) < pos + |data| then data[Position(e, s, o) - pos] else d[s][o]
    {
      PositionPiece(e, pos, |data|, s, o);
    }
  }

  lemma PositionPiece(e: Extent, pos: nat, n: nat, s: nat, o: nat)
    requires pos % SECTOR + n <= SECTOR && o < SECTOR
    ensures pos <= Position(e, s, o) < pos + n <==> s == e.start + pos / SECTOR && pos % SECTOR <= o < pos % SECTOR + n
    ensures s == e.start + pos / SECTOR ==> Position(e, s, o) - pos == o - pos % SECTOR
  {
  }

  lemma PositionOf(e: Extent, i: nat)
    ensures Position(e, e.start + i / SECTOR, i % SECTOR) == i
  {
  }

  /** What a write does to the file itself. */
  lemma StoredContents(d: Sectors, t: Sectors, e: Extent, offset: nat, data: seq<Byte>)
    requires Stored(d, t, e, offset, data) && e.On(d) && (data == [] || offset + |data| <= e.length)
    ensures Contents(t, e) == Spliced(Contents(d, e), offset, data)
  {
    var c, r := Contents(t, e), Spliced(Contents(d, e), offset, data);
    forall i | 0 <= i < e.length ensures c[i] == r[i] {
      PositionOf(e, i);
      assert i / SECTOR < SectorCount(e.length);
      hide Position, SectorCount;
      assert c[i] == t[e.start + i / SECTOR][i % SECTOR];
    }
  }

  /** What was written is there to be read. */
  lemma ReadAfterWrite(d: Sectors, t: Sectors, e: Extent, offset: nat, data: seq<Byte>)
    requires Stored(d, t, e, offset, data) && e.On(d) && data != [] && offset + |data| <= e.length
    ensures Contents(t, e)[offset..offset + |data|] == data
  {
    StoredContents(d, t, e, offset, data);
  }

  /** Sectors outside the file do not change. */
  lemma StoredElsewhere(d: Sectors, t: Sectors, e: Extent, offset: nat, data: seq<Byte>, s: nat)
    requires Stored(d, t, e, offset, data) && (data == [] || offset + |data| <= e.length) && s < |d| && !e.Has(s)
    ensures t[s] == d[s]
  {
    forall o | 0 <= o < SECTOR ensures t[s][o] == d[s][o] {
      assert !(0 <= Position(e, s, o) < e.length);
    }
  }

  /** Files that share no sector do not notice each other's writes. */
  lemma StoredOther(d: Sectors, t: Sectors, e: Extent, offset: nat, data: seq<Byte>, f: Extent)
    requires Stored(d, t, e, offset, data) && (data == [] || offset + |data| <= e.length) && f.On(d)
    requires forall s | 0 <= s < |d| :: !(e.Has(s) && f.Has(s))
    ensures Contents(t, f) == Contents(d, f)
  {
    SameSectors(d, t, e, offset, data, f);
    var c, r := Contents(t, f), Contents(d, f);
    forall i | 0 <= i < f.length ensures c[i] == r[i] {
      assert f.Has(f.start + i / SECTOR);
      assert c[i] == t[f.start + i / SECTOR][i % SECTOR];
    }
  }

  lemma SameSectors(d: Sectors, t: Sectors, e: Extent, offset: nat, data: seq<Byte>, f: Extent)
    requires Stored(d, t, e, offset, data) && (data == [] || offset + |data| <= e.length) && f.On(d)
    requires forall s | 0 <= s < |d| :: !(e.Has(s) && f.Has(s))
    ensures forall s | 0 <= s < |d| && f.Has(s) :: t[s] == d[s]
  {
    forall s | 0 <= s < |d| && f.Has(s) ensures t[s] == d[s] {
      StoredElsewhere(d, t, e, offset, data, s);
    }
  }

  class Disk {
    var sectors: Sectors

    constructor (sectors: Sectors)
      ensures this.sectors == sectors
    {
      this.sectors := sectors;
    }

    /** block_read. */
    method Read(s: nat) returns (data: seq<Byte>)
      requires s < |sectors|
      ensures data == sectors[s]
    {
      data := sectors[s];
    }

    /** block_write. */
    method Write(s: nat, data: seq<Byte>)
      requires s < |sectors| && |data| == SECTOR
      modifies this
      ensures sectors == old(sectors)[s := data]
    {
      sectors := sectors[s := data];
    }

    /** inode_read_at into a caller's buffer. `memory` says whether the bounce buffer can be had. */
    method ReadAt(e: Extent, buffer: array<Byte>, size: int, offset: nat, memory: bool) returns (n: nat)
      requires WellFormed(sectors) && e.On(sectors) && size <= buffer.Length
      modifies buffer
      ensures n == Transferred(e.length, size, offset, memory)
      ensures ReadInto(buffer[..], old(buffer[..]), Contents(sectors, e), offset, n)
    {
      ghost var c, initial := Contents(sectors, e), buffer[..];
      ghost var goal := Transferred(e.length, size, offset, memory);
      assert |c| == e.length && ReadInto(buffer[..], initial, c, offset, 0);
      hide InRange, Unbounced, Transferred, Chunk, SectorCount, Contents, ByteAt, Extent.On, ReadInto, Stored, Patched, Halts, InOneSector;
      n := 0;
      var left, pos: nat := size, offset;
      while left > 0
        invariant pos == offset + n && left == size - n
        invariant goal == n + Transferred(e.length, left, pos, memory)
        invariant ReadInto(buffer[..], initial, c, offset, n)
      {
        var chunk := Chunk(e.length, left, pos);
        ChunkCases(e, sectors, left, pos, memory);
        if Halts(e.length, left, pos, memory) {
          break;
        }
        ReadChunk(e, buffer, n, pos, chunk, initial, offset);
        left, pos, n := left - chunk, pos + chunk, n + chunk;
      }
      TransferredNone(e.length, left, pos, memory);
    }

    /** One sector read and the memcpy of its chunk into the caller's buffer. */
    method ReadChunk(e: Extent, buffer: array<Byte>, at: nat, pos: nat, chunk: nat, ghost initial: seq<Byte>, ghost offset: nat)
      requires WellFormed(sectors) && e.On(sectors) && at + chunk <= buffer.Length && pos == offset + at
      requires pos + chunk <= e.length && InOneSector(e, |sectors|, pos, chunk)
      requires ReadInto(buffer[..], initial, Contents(sectors, e), offset, at)
      modifies buffer
      ensures ReadInto(buffer[..], initial, Contents(sectors, e), offset, at + chunk)
    {
      hide Contents, Extent.On, ReadInto, Patched;
      PieceOf(sectors, e, pos, chunk);
      var data := Read(e.start + pos / SECTOR);
      ghost var now := buffer[..];
      CopyOut(buffer, at, data[pos % SECTOR..pos % SECTOR + chunk]);
      ReadMore(now, initial, Contents(sectors, e), offset, at, buffer[..], chunk);
    }

    /** The memcpy of one chunk into the caller's buffer. */
    method CopyOut(buffer: array<Byte>, at: nat, piece: seq<Byte>)
      requires at + |piece| <= buffer.Length
      modifies buffer
      ensures buffer[..] == Patched(old(buffer[..]), at, piece)
    {
      forall k | at <= k < at + |piece| {
        buffer[k] := piece[k - at];
      }
    }

    /** inode_write_at. The bounce buffer is always filled from the disk first: a chunk that would
        let it start from zeros is a whole sector and goes to the disk directly. */
    method WriteAt(e: Extent, denyWriteCnt: nat, buffer: array<Byte>, size: int, offset: nat, memory: bool) returns (n: nat)
      requires WellFormed(sectors) && e.On(sectors) && size <= buffer.Length
      modifies this
      ensures n == if denyWriteCnt > 0 then 0 else Transferred(e.length, size, offset, memory)
      ensures n <= buffer.Length && Stored(old(sectors), sectors, e, offset, buffer[..n])
    {
      n := 0;
      ghost var before := sectors;
      StoredNothing(before, e, offset);
      if denyWriteCnt > 0 {
        return;
      }
      ghost var goal := Transferred(e.length, size, offset, memory);
      assert buffer[..0] == [];
      hide InRange, Unbounced, Transferred, Chunk, SectorCount, Contents, ByteAt, Extent.On, ReadInto, Stored, Patched, Halts, InOneSector;
      var left, pos: nat := size, offset;
      while left > 0
        invariant pos == offset + n && left == size - n && n <= buffer.Length
        invariant WellFormed(sectors) && e.On(sectors)
        invariant goal == n + Transferred(e.length, left, pos, memory)
        invariant Stored(before, sectors, e, offset, buffer[..n])
      {
        var chunk := Chunk(e.length, left, pos);
        ChunkCases(e, sectors, left, pos, memory);
        if Halts(e.length, left, pos, memory) {
          break;
        }
        ghost var now := sectors;
        WriteChunk(e, buffer[n..n + chunk], pos);
        StoredChain(before, now, sectors, e, offset, buffer[..n], buffer[n..n + chunk]);
        assert buffer[..n] + buffer[n..n + chunk] == buffer[..n + chunk];
        left, pos, n := left - chunk, pos + chunk, n + chunk;
      }
      TransferredNone(e.length, left, pos, memory);
    }

    /** Writes one chunk, directly or through the bounce buffer. */
    method WriteChunk(e: Extent, piece: seq<Byte>, pos: nat)
      requires WellFormed(sectors) && e.On(sectors) && InOneSector(e, |sectors|, pos, |piece|)
      modifies this
      ensures Stored(old(sectors), sectors, e, pos, piece) && WellFormed(sectors) && e.On(sectors)
    {
      hide Stored, Extent.On;
      var ofs, s := pos % SECTOR, e.start + pos / SECTOR;
      StoredPiece(sectors, e, pos, piece);
      if ofs == 0 && |piece| == SECTOR {
        WholePatch(sectors[s], piece);
        Write(s, piece);
      } else {
        var bounce: seq<Byte>;
        if ofs > 0 || |piece| < SECTOR - ofs {
          bounce := Read(s);
        } else {
          assert false;
        }
        Write(s, Patched(bounce, ofs, piece));
      }
      StoredShape(old(sectors), sectors, e, pos, piece);
    }
  }

  /** Buffer b holds n bytes of c from an offset on, and the rest of what it held at first. */
  ghost predicate ReadInto(b: seq<Byte>, initial: seq<Byte>, c: seq<Byte>, offset: nat, n: nat)
  {
    && n <= |b| == |initial| && b[n..] == initial[n..]
    && (n > 0 ==> offset + n <= |c| && b[..n] == c[offset..offset + n])
  }

  lemma ReadMore(b: seq<Byte>, initial: seq<Byte>, c: seq<Byte>, offset: nat, n: nat, next: seq<Byte>, m: nat)
    requires ReadInto(b, initial, c, offset, n) && 0 < m && offset + n + m <= |c| && n + m <= |b|
    requires next == Patched(b, n, c[offset + n..offset + n + m])
    ensures ReadInto(next, initial, c, offset, n + m)
  {
    assert next[..n + m] == b[..n] + c[offset + n..offset + n + m];
    assert next[n + m..] == b[n + m..] == b[n..][m..] == initial[n..][m..] == initial[n + m..];
  }

  lemma WholePatch(sector: seq<Byte>, data: seq<Byte>)
    requires |sector| == |data|
    ensures Patched(sector, 0, data) == data
  {
  }

  lemma StoredShape(d: Sectors, t: Sectors, e: Extent, offset: nat, data: seq<Byte>)
    requires Stored(d, t, e, offset, data) && e.On(d)
    ensures WellFormed(t) && e.On(t) && |t| == |d|
  {
  }

  /** The branches of one pass through the transfer loops. */
  lemma ChunkCases(e: Extent, d: Sectors, size: int, offset: nat, memory: bool)
    requires e.On(d) && size > 0
    ensures Halts(e.length, size, offset, memory) ==> Transferred(e.length, size, offset, memory) == 0
    ensures !Halts(e.length, size, offset, memory) ==>
      var n := Chunk(e.length, size, offset);
      && 0 < n <= size && offset + n <= e.length && InOneSector(e, |d|, offset, n)
      && Transferred(e.length, size, offset, memory) == n + Transferred(e.length, size - n, offset + n, memory)
  {
    var n := Chunk(e.length, size, offset);
    if n <= 0 {
      ChunkEnd(e.length, size, offset);
    } else {
      ChunkFacts(e.length, size, offset);
      if offset % SECTOR == 0 && n == SECTOR {
        UnbouncedStep(e.length, size, offset);
      } else {
        UnbouncedEnd(e.length, size, offset);
      }
    }
  }

  lemma TransferredNone(length: nat, size: int, offset: nat, memory: bool)
    ensures size <= 0 ==> Transferred(length, size, offset, memory) == 0
  {
  }
}
