/** Archive headers in the "ustar Interchange Format" of the pax utility in SUSv3: composing one,
    parsing one, and why the checksum catches a damaged byte (src/lib/ustar.c:7-54, 75-227). */
module Ustar {
  import opened Format
  import opened Numerals
  import opened UstarName

  datatype EntryType = Regular | Directory {
    function Flag(): (ch: char)
    {
      if Regular? then '0' else '5'
    }
  }

  datatype Parse = EndOfArchive | Error(message: string) | Entry(name: string, entryType: EntryType, size: int)

  const HEADER_SIZE := 512

  // ----- the layout -----

  const FIELDS: nat := 17

  /** The header's fields by number: 0 name, 1 mode, 2 uid, 3 gid, 4 size, 5 mtime, 6 chksum,
      7 typeflag, 8 linkname, 9 magic, 10 version, 11 uname, 12 gname, 13 devmajor, 14 devminor,
      15 prefix, 16 padding. */
  function SizeOf(i: nat): (n: nat)
    requires i < FIELDS
  {
    match i
    case 0 => 100 case 1 => 8 case 2 => 8 case 3 => 8 case 4 => 12 case 5 => 12 case 6 => 8 case 7 => 1
    case 8 => 100 case 9 => 6 case 10 => 2 case 11 => 32 case 12 => 32 case 13 => 8 case 14 => 8
    case 15 => 155 case _ => 12
  }

  function OffsetOf(i: nat): (n: nat)
    requires i <= FIELDS
  {
    match i
    case 0 => 0 case 1 => 100 case 2 => 108 case 3 => 116 case 4 => 124 case 5 => 136 case 6 => 148 case 7 => 156
    case 8 => 157 case 9 => 257 case 10 => 263 case 11 => 265 case 12 => 297 case 13 => 329 case 14 => 337
    case 15 => 345 case 16 => 500 case _ => 512
  }

  function Flat(fs: seq<string>): (s: string)
  {
    if fs == [] then "" else Flat(fs[..|fs| - 1]) + fs[|fs| - 1]
  }

  function Offset(fs: seq<string>, i: nat): (n: nat)
    requires i <= |fs|
  {
    if i == 0 then 0 else Offset(fs, i - 1) + |fs[i - 1]|
  }

  ghost predicate Shaped(fs: seq<string>)
  {
    |fs| == FIELDS && forall i | 0 <= i < FIELDS :: |fs[i]| == SizeOf(i)
  }

  lemma {:induction false} FlatLength(fs: seq<string>)
    ensures |Flat(fs)| == Offset(fs, |fs|)
  {
    if fs != [] {
      FlatLength(fs[..|fs| - 1]);
      OffsetPrefix(fs, fs[..|fs| - 1], |fs| - 1);
    }
  }

  lemma {:induction false} OffsetPrefix(fs: seq<string>, gs: seq<string>, i: nat)
    requires i <= |fs| && i <= |gs| && forall k | 0 <= k < i :: |fs[k]| == |gs[k]|
    ensures Offset(fs, i) == Offset(gs, i)
  {
    if i > 0 {
      OffsetPrefix(fs, gs, i - 1);
    }
  }

  /** What is behind a stretch of a string does not matter to it. */
  lemma Extended(f: string, o: nat, b: string, rest: string)
    requires o + |b| <= |f|
    ensures (f + rest)[o..o + |b|] == f[o..o + |b|]
    ensures (f[..o] + b + f[o + |b|..]) + rest == (f + rest)[..o] + b + (f + rest)[o + |b|..]
  {
  }

  /** A field can be read back at its offset, and replacing it leaves the rest alone. */
  lemma {:induction false} FlatField(fs: seq<string>, i: nat, b: string)
    requires i < |fs| && |b| == |fs[i]|
    ensures Offset(fs, i) + |fs[i]| <= |Flat(fs)|
    ensures Flat(fs)[Offset(fs, i)..Offset(fs, i) + |fs[i]|] == fs[i]
    ensures Flat(fs[i := b]) == Flat(fs)[..Offset(fs, i)] + b + Flat(fs)[Offset(fs, i) + |b|..]
    decreases |fs|
  {
    var n := |fs| - 1;
    var o := Offset(fs, i);
    OffsetPrefix(fs, fs[..n], i);
    if i < n {
      FlatField(fs[..n], i, b);
      assert fs[i := b][..n] == fs[..n][i := b];
      Extended(Flat(fs[..n]), o, b, fs[n]);
    } else {
      FlatLength(fs[..n]);
      assert fs[i := b][..n] == fs[..n];
      var f := Flat(fs[..n]);
      assert Flat(fs) == f + fs[n];
    }
  }

  lemma {:induction false} Offsets(fs: seq<string>, i: nat)
    requires Shaped(fs) && i <= FIELDS
    ensures Offset(fs, i) == OffsetOf(i)
  {
    if i > 0 {
      Offsets(fs, i - 1);
      assert OffsetOf(i) == OffsetOf(i - 1) + SizeOf(i - 1);
    }
  }

  // ----- checksum -----

  predicate InChecksum(i: nat)
  {
    148 <= i < 156
  }

  /** The sum of the first n octets, with the checksum field read as spaces. */
  function SumTo(h: string, n: nat): (v: nat)
    requires n <= |h|
  {
    if n == 0 then 0 else SumTo(h, n - 1) + if InChecksum(n - 1) then ' ' as int else h[n - 1] as int
  }

  ghost predicate Octets(h: string)
  {
    |h| == HEADER_SIZE && forall i | 0 <= i < |h| :: h[i] as int < 256
  }

  /** The sum of all the characters of a string. */
  function PlainSum(s: string): (v: nat)
  {
    if s == "" then 0 else PlainSum(s[..|s| - 1]) + s[|s| - 1] as int
  }

  /** A header with eight spaces where the checksum is. */
  function Blanked(h: string): (b: string)
    requires |h| == HEADER_SIZE
    ensures |b| == HEADER_SIZE
  {
    h[..148] + "        " + h[156..]
  }

  /** The checksum is the plain sum of the header with spaces in the checksum field. */
  lemma ChecksumMeaning(h: string)
    requires |h| == HEADER_SIZE
    ensures SumTo(h, HEADER_SIZE) == PlainSum(Blanked(h))
  {
    hide SumTo, PlainSum;
    SumIsPlain(h, HEADER_SIZE);
    assert Blanked(h)[..HEADER_SIZE] == Blanked(h);
  }

  lemma {:induction false} SumIsPlain(h: string, n: nat)
    requires |h| == HEADER_SIZE && n <= HEADER_SIZE
    ensures SumTo(h, n) == PlainSum(Blanked(h)[..n])
  {
    if n > 0 {
      SumIsPlain(h, n - 1);
      BlankedAt(h, n - 1);
      hide Blanked;
      var b := Blanked(h);
      assert b[..n][..n - 1] == b[..n - 1] && b[..n][n - 1] == b[n - 1];
    }
  }

  lemma BlankedAt(h: string, i: nat)
    requires |h| == HEADER_SIZE && i < HEADER_SIZE
    ensures Blanked(h)[i] == if 148 <= i < 156 then ' ' else h[i]
  {
    var spaces := "        ";
    assert 148 <= i < 156 ==> Blanked(h)[i] == spaces[i - 148];
    assert spaces[0] == spaces[1] == spaces[2] == spaces[3] == spaces[4] == spaces[5] == spaces[6] == spaces[7] == ' ';
  }

  /** calculate_chksum; the total stays far below the range of `unsigned`. */
  method CalculateChecksum(h: string) returns (sum: nat)
    requires Octets(h)
    ensures sum == PlainSum(h[..148] + "        " + h[156..])
    ensures sum == SumTo(h, HEADER_SIZE)
  {
    ChecksumMeaning(h);
    hide PlainSum;
    sum := 0;
    for i := 0 to HEADER_SIZE
      invariant sum == SumTo(h, i)
    {
      var inField := i >= 148 && i < 156;
      sum := sum + if inField then ' ' as int else h[i] as int;
    }
  }

  lemma {:induction false} SumBound(h: string, n: nat)
    requires n <= |h| && forall i | 0 <= i < |h| :: h[i] as int < 256
    ensures SumTo(h, n) <= 255 * n
  {
    if n > 0 {
      SumBound(h, n - 1);
    }
  }

  /** Changing one octet outside the field moves the sum by exactly the difference. */
  lemma {:induction false} SumChange(h: string, i: nat, b: char, n: nat)
    requires i < |h| && n <= |h|
    ensures SumTo(h[i := b], n) == SumTo(h, n) + if i < n && !InChecksum(i) then b as int - h[i] as int else 0
  {
    if n > 0 {
      SumChange(h, i, b, n - 1);
    }
  }

  /** The checksum does not depend on what the field itself holds. */
  lemma {:induction false} SumIgnoresField(g: string, h: string, n: nat)
    requires n <= |g| && n <= |h| && forall i | 0 <= i < n && !InChecksum(i) :: g[i] == h[i]
    ensures SumTo(g, n) == SumTo(h, n)
  {
    if n > 0 {
      SumIgnoresField(g, h, n - 1);
    }
  }

  // ----- composing -----

  function Padded(s: string, n: nat): (t: string)
    requires |s| <= n
    ensures |t| == n
  {
    s + Repeat('\0', n - |s|)
  }

  lemma Pow8Facts()
    ensures Pow8(7) == 0x20_0000 && Pow8(11) == 0x2_0000_0000
  {
  }

  /** The text of an octal field, which fills it up to the terminator. */
  function FieldText(v: nat, width: nat): (s: string)
    requires 1 <= width && v < Pow8(width)
    ensures |s| == width && OctalDigits(s) && Numeral(8, s) == v
  {
    OctalTextDenotes(v, width);
    OctalText(v, width)
  }

  const MTIME: nat := 1136102400

  function Mode(entryType: EntryType): (m: nat)
  {
    if entryType.Regular? then 0x1a4 else 0x1ed
  }

  type uint32 = x: int | 0 <= x < 0x1_0000_0000

  /** What goes into a header: the checksum text is part of it. */
  datatype Content = Content(name: string, entryType: EntryType, size: uint32, chksum: string) {
    ghost predicate Fits()
    {
      |name| <= 99 && |chksum| <= 7
    }

    /** What field i holds. */
    function Field(i: nat): (f: string)
      requires Fits() && i < FIELDS
      ensures |f| == SizeOf(i)
    {
      Pow8Facts();
      match i
      case 0 => Padded(name, 100)
      case 1 => Padded(FieldText(Mode(entryType), 7), 8)
      case 2 => Padded("0000000", 8)
      case 3 => Padded("0000000", 8)
      case 4 => Padded(FieldText(size, 11), 12)
      case 5 => Padded(FieldText(MTIME, 11), 12)
      case 6 => Padded(chksum, 8)
      case 7 => [entryType.Flag()]
      case 9 => Padded("ustar", 6)
      case 10 => "00"
      case 11 => Padded("root", 32)
      case 12 => Padded("root", 32)
      case _ => Padded("", SizeOf(i))
    }

    /** The fields when those in `done` have been written and the rest are still zero. */
    ghost function Partial(done: set<nat>): (fs: seq<string>)
      requires Fits()
      ensures Shaped(fs)
    {
      seq(FIELDS, i requires 0 <= i < FIELDS => if i in done then Field(i) else Padded("", SizeOf(i)))
    }

    /** The whole header. */
    ghost function Packed(): (h: string)
      requires Fits()
    {
      Flat(seq(FIELDS, i requires 0 <= i < FIELDS => Field(i)))
    }
  }

  lemma FieldWritten(e: Content, done: set<nat>, k: nat, before: string, after: string)
    requires e.Fits() && k < FIELDS && k !in done
    requires before == Flat(e.Partial(done)) && |before| == HEADER_SIZE
    requires OffsetOf(k) + SizeOf(k) <= HEADER_SIZE
    requires after == before[..OffsetOf(k)] + e.Field(k) + before[OffsetOf(k) + SizeOf(k)..]
    ensures after == Flat(e.Partial(done + {k})) && |after| == HEADER_SIZE
  {
    hide Flat, Content.Field, Offset, OffsetOf, SizeOf;
    var fs := e.Partial(done);
    Offsets(fs, k);
    FlatField(fs, k, e.Field(k));
    assert fs[k := e.Field(k)] == e.Partial(done + {k});
  }

  lemma FieldBounds(k: nat)
    requires k < FIELDS
    ensures OffsetOf(k) + SizeOf(k) <= HEADER_SIZE
  {
  }

  /** A field still to be written is zero. */
  lemma FieldStillZero(e: Content, done: set<nat>, k: nat, h: string)
    requires e.Fits() && k < FIELDS && k !in done
    requires h == Flat(e.Partial(done)) && |h| == HEADER_SIZE && OffsetOf(k) + SizeOf(k) <= HEADER_SIZE
    ensures h[OffsetOf(k)..OffsetOf(k) + SizeOf(k)] == Padded("", SizeOf(k))
  {
    hide Flat, Content.Field, Offset, OffsetOf, SizeOf, Padded;
    var fs := e.Partial(done);
    Offsets(fs, k);
    FlatField(fs, k, fs[k]);
  }

  /** strlcpy or snprintf into the cap bytes at ofs: at most cap - 1 characters, then a null. */
  method StoreString(header: array<char>, ofs: nat, cap: nat, s: string)
    requires cap > 0 && ofs + cap <= header.Length
    modifies header
    ensures var k := Min(|s|, cap - 1);
      header[..] == old(header[..ofs]) + (s[..k] + "\0") + old(header[ofs + k + 1..])
  {
    var k := if |s| < cap - 1 then |s| else cap - 1;
    for i := 0 to k
      invariant forall j | 0 <= j < header.Length :: header[j] == if ofs <= j < ofs + i then s[j - ofs] else old(header[j])
    {
      header[ofs + i] := s[i];
    }
    header[ofs + k] := '\0';
  }

  /** Storing a string into a field of zeros pads it with them. */
  lemma StoredField(e: Content, done: set<nat>, k: nat, h: string, s: string)
    requires e.Fits() && k < FIELDS && k !in done
    requires h == Flat(e.Partial(done)) && |h| == HEADER_SIZE
    requires |s| < SizeOf(k) && e.Field(k) == Padded(s, SizeOf(k))
    ensures OffsetOf(k) + SizeOf(k) <= HEADER_SIZE
    ensures h[..OffsetOf(k)] + (s + "\0") + h[OffsetOf(k) + |s| + 1..]
      == h[..OffsetOf(k)] + e.Field(k) + h[OffsetOf(k) + SizeOf(k)..]
  {
    FieldBounds(k);
    FieldStillZero(e, done, k, h);
    hide Flat, Content.Field, Content.Partial, OffsetOf, SizeOf, Padded;
    StoredInZeros(h, OffsetOf(k), SizeOf(k), s);
  }

  /** A string stored in a stretch of zeros is padded by those that are left. */
  lemma StoredInZeros(h: string, o: nat, n: nat, s: string)
    requires o + n <= |h| && |s| < n && h[o..o + n] == Padded("", n)
    ensures h[..o] + (s + "\0") + h[o + |s| + 1..] == h[..o] + Padded(s, n) + h[o + n..]
  {
    ZeroStretch(h, o, n);
    var left, right := h[..o] + (s + "\0") + h[o + |s| + 1..], h[..o] + Padded(s, n) + h[o + n..];
    forall i | 0 <= i < |h| ensures left[i] == right[i] {
      assert o <= i < o + n ==> h[i] == '\0';
    }
  }

  lemma ZeroStretch(h: string, o: nat, n: nat)
    requires o + n <= |h| && h[o..o + n] == Padded("", n)
    ensures forall i | o <= i < o + n :: h[i] == '\0'
  {
    forall i | o <= i < o + n ensures h[i] == '\0' {
      assert h[i] == h[o..o + n][i - o];
    }
  }

  method StoreField(header: array<char>, ghost e: Content, ghost done: set<nat>, ghost k: nat, ofs: nat, cap: nat, s: string)
    requires e.Fits() && k < FIELDS && k !in done && ofs == OffsetOf(k) && cap == SizeOf(k)
    requires header.Length == HEADER_SIZE && header[..] == Flat(e.Partial(done))
    requires |s| < cap && e.Field(k) == Padded(s, cap)
    modifies header
    ensures header[..] == Flat(e.Partial(done + {k}))
  {
    hide Flat, Content.Field, Content.Partial, OffsetOf, SizeOf, Padded;
    ghost var h := header[..];
    FieldBounds(k);
    StoredField(e, done, k, h, s);
    StoreString(header, ofs, cap, s);
    assert s[..|s|] == s;
    FieldWritten(e, done, k, h, header[..]);
  }

  // ----- ustar_make_header -----

  /** An `int` argument as "%o" reads it. */
  function AsUnsigned(size: int): (u: uint32)
  {
    size % 0x1_0000_0000
  }

  lemma {:induction false} FlatOctets(fs: seq<string>)
    requires forall i | 0 <= i < |fs| :: forall j | 0 <= j < |fs[i]| :: fs[i][j] as int < 256
    ensures forall j | 0 <= j < |Flat(fs)| :: Flat(fs)[j] as int < 256
  {
    if fs != [] {
      FlatOctets(fs[..|fs| - 1]);
    }
  }

  ghost predicate CString(s: string)
  {
    forall i | 0 <= i < |s| :: 0 < s[i] as int < 256
  }

  lemma PackedFacts(e: Content)
    requires e.Fits() && CString(e.name) && CString(e.chksum)
    ensures Octets(e.Packed()) && SumTo(e.Packed(), HEADER_SIZE) < Pow8(7)
  {
    hide Flat, Offset;
    var fs := seq(FIELDS, i requires 0 <= i < FIELDS => e.Field(i));
    assert Shaped(fs);
    Offsets(fs, FIELDS);
    FlatLength(fs);
    forall i | 0 <= i < FIELDS ensures forall j | 0 <= j < |fs[i]| :: fs[i][j] as int < 256 {
      FieldOctets(e, i);
    }
    FlatOctets(fs);
    SumBound(e.Packed(), HEADER_SIZE);
    Pow8Facts();
  }

  lemma FieldOctets(e: Content, i: nat)
    requires e.Fits() && CString(e.name) && CString(e.chksum) && i < FIELDS
    ensures forall j | 0 <= j < |e.Field(i)| :: e.Field(i)[j] as int < 256
  {
    hide FieldText, Pow8;
  }

  /** The header of an entry: all fields, and in the checksum field the sum of the octets. */
  ghost function Composed(name: string, entryType: EntryType, size: uint32): (h: string)
    requires |name| <= 99 && CString(name)
  {
    var blank := Content(name, entryType, size, "");
    PackedFacts(blank);
    blank.(chksum := FieldText(SumTo(blank.Packed(), HEADER_SIZE), 7)).Packed()
  }

  /** snprintf with "%0<width>o". */
  method FormatOctal(v: nat, width: nat) returns (s: string)
    requires 1 <= width && v < Pow8(width) && v < 0x1_0000_0000
    ensures s == FieldText(v, width)
  {
    s := FormatInteger(v, false, false, Octal, Conversion(false, false, false, false, true, false, width, -1));
  }

  lemma {:induction false} FlatZeros(fs: seq<string>)
    requires forall i | 0 <= i < |fs| :: forall j | 0 <= j < |fs[i]| :: fs[i][j] == '\0'
    ensures forall j | 0 <= j < |Flat(fs)| :: Flat(fs)[j] == '\0'
  {
    if fs != [] {
      FlatZeros(fs[..|fs| - 1]);
    }
  }

  lemma NothingWritten(e: Content)
    requires e.Fits()
    ensures Flat(e.Partial({})) == Repeat('\0', HEADER_SIZE)
  {
    hide Flat, Content.Field, Offset, SizeOf;
    var fs := e.Partial({});
    Offsets(fs, FIELDS);
    FlatLength(fs);
    FlatZeros(fs);
  }

  const WRITTEN: set<nat> := {0, 1, 2, 3, 4, 5, 7, 9, 10, 11, 12}

  /** Once all but the checksum are written, the header is that of the same content with an empty
      checksum; writing the checksum completes it. */
  lemma AllButChecksum(e: Content)
    requires e.Fits()
    ensures e.(chksum := "").Fits()
    ensures Flat(e.Partial(WRITTEN)) == e.(chksum := "").Packed()
    ensures Flat(e.Partial(WRITTEN + {6})) == e.Packed()
  {
    hide Flat, FieldText, Pow8;
    var b := e.(chksum := "");
    var all := seq(FIELDS, i requires 0 <= i < FIELDS => e.Field(i));
    var blank := seq(FIELDS, i requires 0 <= i < FIELDS => b.Field(i));
    forall i | 0 <= i < FIELDS ensures e.Partial(WRITTEN)[i] == blank[i] && e.Partial(WRITTEN + {6})[i] == all[i] {
      UnwrittenFields(e, i);
    }
    assert e.Partial(WRITTEN) == blank;
    assert e.Partial(WRITTEN + {6}) == all;
  }

  lemma UnwrittenFields(e: Content, i: nat)
    requires e.Fits() && i < FIELDS
    ensures e.(chksum := "").Fits()
    ensures i !in WRITTEN ==> i == 6 || e.Field(i) == Padded("", SizeOf(i))
    ensures e.(chksum := "").Field(i) == if i == 6 then Padded("", SizeOf(i)) else e.Field(i)
  {
    hide FieldText, Pow8;
  }

  /** Every store of the source, seen as one field becoming final. */
  method FillHeader(e: Content, header: array<char>)
    requires e.Fits() && header.Length == HEADER_SIZE
    modifies header
    ensures header[..] == Flat(e.Partial(WRITTEN))
  {
    hide Flat, Content.Field, Content.Partial, FieldText, Padded, Pow8;
    Pow8Facts();
    FieldTable(e);
    for i := 0 to HEADER_SIZE
      invariant forall j | 0 <= j < i :: header[j] == '\0'
    {
      header[i] := '\0';
    }
    NothingWritten(e);
    assert header[..] == Repeat('\0', HEADER_SIZE);
    FillNumbers(e, header);
    StoreTypeAndVersion(e, header);
    ghost var done: set<nat> := {0, 1, 2, 3, 4, 5, 7, 10};
    StoreField(header, e, done, 9, 257, 6, "ustar");
    done := done + {9};
    StoreField(header, e, done, 12, 297, 32, "root");
    done := done + {12};
    StoreField(header, e, done, 11, 265, 32, "root");
    done := done + {11};
    assert done == WRITTEN;
  }

  lemma FieldTable(e: Content)
    requires e.Fits()
    ensures Pow8(7) == 0x20_0000 && Pow8(11) == 0x2_0000_0000
    ensures e.Field(0) == Padded(e.name, 100) && e.Field(1) == Padded(FieldText(Mode(e.entryType), 7), 8)
    ensures e.Field(2) == Padded("0000000", 8) && e.Field(3) == Padded("0000000", 8)
    ensures e.Field(4) == Padded(FieldText(e.size, 11), 12) && e.Field(5) == Padded(FieldText(MTIME, 11), 12)
    ensures e.Field(6) == Padded(e.chksum, 8) && e.Field(7) == [e.entryType.Flag()]
    ensures e.Field(9) == Padded("ustar", 6) && e.Field(10) == "00"
    ensures e.Field(11) == Padded("root", 32) && e.Field(12) == Padded("root", 32)
  {
    hide Pow8, FieldText;
    Pow8Facts();
  }

  method FillNumbers(e: Content, header: array<char>)
    requires e.Fits() && header.Length == HEADER_SIZE && header[..] == Flat(e.Partial({}))
    modifies header
    ensures header[..] == Flat(e.Partial({0, 1, 2, 3, 4, 5}))
  {
    hide Flat, Content.Field, Content.Partial, FieldText, Padded, Pow8;
    Pow8Facts();
    FieldTable(e);
    ghost var done: set<nat> := {};
    StoreField(header, e, done, 0, 0, 100, e.name);
    done := done + {0};
    var mode := FormatOctal(if e.entryType.Regular? then 0x1a4 else 0x1ed, 7);
    StoreField(header, e, done, 1, 100, 8, mode);
    done := done + {1};
    StoreField(header, e, done, 2, 108, 8, "0000000");
    done := done + {2};
    StoreField(header, e, done, 3, 116, 8, "0000000");
    done := done + {3};
    var size := FormatOctal(e.size, 11);
    StoreField(header, e, done, 4, 124, 12, size);
    done := done + {4};
    var mtime := FormatOctal(MTIME, 11);
    StoreField(header, e, done, 5, 136, 12, mtime);
    done := done + {5};
    assert done == {0, 1, 2, 3, 4, 5};
  }

  method StoreTypeAndVersion(e: Content, header: array<char>)
    requires e.Fits() && header.Length == HEADER_SIZE && header[..] == Flat(e.Partial({0, 1, 2, 3, 4, 5}))
    modifies header
    ensures header[..] == Flat(e.Partial({0, 1, 2, 3, 4, 5, 7, 10}))
  {
    hide Flat, Content.Field, Content.Partial, FieldText, Padded, Pow8;
    FieldTable(e);
    ghost var h := header[..];
    header[156] := e.entryType.Flag();
    assert header[..] == h[..156] + [e.entryType.Flag()] + h[157..];
    ghost var done: set<nat> := {0, 1, 2, 3, 4, 5};
    FieldWritten(e, done, 7, h, header[..]);
    done := done + {7};
    h := header[..];
    header[263] := '0';
    header[264] := '0';
    assert header[..] == h[..263] + "00" + h[265..];
    FieldWritten(e, done, 10, h, header[..]);
    assert done + {10} == {0, 1, 2, 3, 4, 5, 7, 10};
  }

  /** ustar_make_header. It fails exactly when the stripped name is too long, and then leaves the
      buffer alone. */
  method MakeHeader(fileName: string, entryType: EntryType, size: int, header: array<char>) returns (ok: bool)
    requires CString(fileName) && header.Length == HEADER_SIZE
    requires -0x8000_0000 <= size < 0x8000_0000
    modifies header
    ensures ok <==> |Stripped(fileName)| <= 99
    ensures !ok ==> header[..] == old(header[..])
    ensures ok ==> CString(Stripped(fileName)) && header[..] == Composed(Stripped(fileName), entryType, AsUnsigned(size))
    ensures ok ==> Denotes(header[148..156], 7, PlainSum(header[..148] + "        " + header[156..]))
  {
    hide Flat, Content.Field, Content.Partial, Content.Packed, FieldText, Padded, Pow8, SumTo, Octets, Stripped, Numeral, OctalDigits,
      PlainSum, Denotes;
    var name := StripPrefixes(fileName);
    StrippedCString(fileName);
    if |name| > 99 {
      return false;
    }
    var blank := Content(name, entryType, AsUnsigned(size), "");
    FillHeader(blank, header);
    AllButChecksum(blank);
    PackedFacts(blank);
    var sum := CalculateChecksum(header[..]);
    Pow8Facts();
    var text := FormatOctal(sum, 7);
    ghost var e := blank.(chksum := text);
    AllButChecksum(e);
    FieldTable(e);
    StoreField(header, e, WRITTEN, 6, 148, 8, text);
    SumWritten(e, header[..], sum);
    assert header[..148] == header[..][..148] && header[148..156] == header[..][148..156] && header[156..] == header[..][156..];
    ok := true;
  }

  /** A header whose checksum field was written from its sum says that sum. */
  lemma SumWritten(e: Content, h: string, v: nat)
    requires e.Fits() && CString(e.name) && h == e.Packed() && v < Pow8(7) && e.chksum == FieldText(v, 7)
    requires var b := e.(chksum := ""); |b.Packed()| == HEADER_SIZE && SumTo(b.Packed(), HEADER_SIZE) == v
    ensures |h| == HEADER_SIZE && Denotes(h[148..156], 7, PlainSum(h[..148] + "        " + h[156..]))
  {
    hide Flat, Content.Packed, SumTo, Pow8, PlainSum, Content.Field;
    DigitsCString(v, 7);
    ChecksumStable(e);
    ChecksumMeaning(h);
    PackedField(e, 6);
    FieldTable(e);
    SumField(h[148..156], e.chksum, v);
  }

  lemma SumField(f: string, text: string, v: nat)
    requires |text| == 7 && f == Padded(text, 8) && OctalDigits(text) && Numeral(8, text) == v <= ULONG_MAX
    ensures Denotes(f, 7, v)
  {
    hide Numeral;
    assert f[..7] == text;
  }

  lemma StrippedCString(s: string)
    requires CString(s)
    ensures CString(Stripped(s))
  {
    hide Stripped;
    StrippedSociable(s);
  }

  // ----- ustar_parse_header -----

  ghost predicate AllZeros(h: string)
  {
    forall i | 0 <= i < |h| :: h[i] == '\0'
  }

  /** is_all_zeros. */
  method IsAllZeros(h: string) returns (r: bool)
    ensures r <==> AllZeros(h)
  {
    var cnt := 0;
    while cnt < |h|
      invariant 0 <= cnt <= |h| && forall i | 0 <= i < cnt :: h[i] == '\0'
    {
      if h[cnt] != '\0' {
        return false;
      }
      cnt := cnt + 1;
    }
    return true;
  }

  /** The C string that starts a field. */
  function Text(s: string): (t: string)
    ensures t <= s && '\0' !in t
    ensures |t| < |s| ==> s[|t|] == '\0'
  {
    if s == "" || s[0] == '\0' then "" else [s[0]] + Text(s[1..])
  }

  /** The name field after its terminator has been checked. */
  function NameIn(h: string): (s: string)
    requires |h| == HEADER_SIZE
  {
    Stripped(Text(h[..100]))
  }

  /** What a header says, checked in the order of the source. */
  ghost function Meaning(h: string): (p: Parse)
    requires Octets(h)
  {
    if AllZeros(h) then EndOfArchive
    else if h[257..263] != "ustar\0" then Error("not a ustar archive")
    else if h[263..265] != "00" then Error("invalid ustar version")
    else
      match OctalFrom(h[148..156], 0, 0)
      case NotANumber => Error("corrupt chksum field")
      case Number(sum) =>
        if sum != SumTo(h, HEADER_SIZE) then Error("checksum mismatch") else CheckedMeaning(h)
  }

  /** The part of the meaning that depends on a header with a correct checksum. */
  ghost function CheckedMeaning(h: string): (p: Parse)
    requires |h| == HEADER_SIZE
    ensures !p.EndOfArchive?
  {
    if h[99] != '\0' || h[345] != '\0' then Error("file name too long")
    else if h[156] == '0' then
      match OctalFrom(h[124..136], 0, 0)
      case NotANumber => Error("corrupt file size field")
      case Number(n) => if n > 0x7fff_ffff then Error("file too large") else Entry(NameIn(h), Regular, n)
    else if h[156] == '5' then Entry(NameIn(h), Directory, 0)
    else Error("unimplemented file type")
  }

  /** ustar_parse_header. */
  method ParseHeader(header: array<char>) returns (p: Parse)
    requires header.Length == HEADER_SIZE && Octets(header[..])
    ensures p == Meaning(header[..])
    ensures p.Entry? ==> SaysItsSum(header[..])
    ensures header[257..263] == "ustar\0" && header[263..265] == "00" && SaysItsSum(header[..]) ==>
      p == CheckedMeaning(header[..])
  {
    hide AllZeros, SumTo, OctalFrom, NameIn, Octets, SaysItsSum;
    var h := header[..];
    SumSaid(h);
    assert header[257..263] == h[257..263] && header[263..265] == h[263..265];
    var zeros := IsAllZeros(h);
    if zeros {
      return EndOfArchive;
    }
    if h[257..263] != "ustar\0" {
      return Error("not a ustar archive");
    } else if h[263] != '0' || h[264] != '0' {
      VersionText(h);
      return Error("invalid ustar version");
    }
    VersionText(h);
    var ok, sum := ParseOctalField(h[148..156]);
    if !ok {
      return Error("corrupt chksum field");
    }
    var actual := CalculateChecksum(h);
    if sum != actual {
      return Error("checksum mismatch");
    }
    p := ParseChecked(h);
  }

  /** The checksum field denotes the plain sum of the header with spaces in that field. */
  ghost predicate SaysItsSum(h: string)
    requires |h| == HEADER_SIZE
  {
    exists k: nat :: Denotes(h[148..156], k, PlainSum(h[..148] + "        " + h[156..]))
  }

  /** Which headers get past the checksum. */
  lemma SumSaid(h: string)
    requires Octets(h)
    ensures SaysItsSum(h) <==> OctalFrom(h[148..156], 0, 0) == Number(SumTo(h, HEADER_SIZE))
    ensures h[257..263] == "ustar\0" ==> !AllZeros(h)
  {
    hide OctalFrom, SumTo, PlainSum, Denotes;
    ChecksumMeaning(h);
    OctalMeaning(h[148..156], PlainSum(Blanked(h)));
    if h[257..263] == "ustar\0" {
      assert h[257] == h[257..263][0] == 'u';
    }
  }

  lemma VersionText(h: string)
    requires |h| == HEADER_SIZE
    ensures h[263..265] == "00" <==> h[263] == '0' && h[264] == '0'
  {
    var v := h[263..265];
    assert v[0] == h[263] && v[1] == h[264];
  }

  method ParseChecked(h: string) returns (p: Parse)
    requires |h| == HEADER_SIZE
    ensures p == CheckedMeaning(h)
  {
    hide OctalFrom, Stripped, Text;
    if h[99] != '\0' || h[345] != '\0' {
      return Error("file name too long");
    } else if h[156] != '0' && h[156] != '5' {
      return Error("unimplemented file type");
    }
    var size := 0;
    if h[156] == '0' {
      var ok;
      ok, size := ParseOctalField(h[124..136]);
      if !ok {
        return Error("corrupt file size field");
      } else if size > 0x7fff_ffff {
        return Error("file too large");
      }
    }
    var text := ReadText(h[..100]);
    var name := StripPrefixes(text);
    return Entry(name, if h[156] == '0' then Regular else Directory, size);
  }

  lemma TextUnique(s: string, i: nat)
    requires i <= |s| && (forall k | 0 <= k < i :: s[k] != '\0') && (i < |s| ==> s[i] == '\0')
    ensures Text(s) == s[..i]
  {
    hide Text;
    var t := Text(s);
    assert forall k | 0 <= k < |t| :: t[k] == s[k] && t[k] in t;
  }

  method ReadText(s: string) returns (t: string)
    ensures t == Text(s)
  {
    hide Text;
    var i := 0;
    while i < |s| && s[i] != '\0'
      invariant 0 <= i <= |s| && forall k | 0 <= k < i :: s[k] != '\0'
    {
      i := i + 1;
    }
    TextUnique(s, i);
    t := s[..i];
  }

  /** Exactly which headers are accepted, and as what. */
  lemma AcceptedExactly(h: string, name: string, entryType: EntryType, size: int)
    requires Octets(h)
    ensures Meaning(h) == Entry(name, entryType, size) <==>
      && h[257..263] == "ustar\0" && h[263..265] == "00" && SaysItsSum(h)
      && h[99] == '\0' && h[345] == '\0' && name == NameIn(h)
      && ((h[156] == '0' && entryType == Regular && size <= 0x7fff_ffff && exists k: nat :: Denotes(h[124..136], k, size))
          || (h[156] == '5' && entryType == Directory && size == 0))
  {
    hide SumTo, OctalFrom, NameIn, Denotes, SaysItsSum;
    SumSaid(h);
    OctalMeaning(h[124..136], size);
  }

  // ----- the two promises -----

  /** Each field of a composed header is found at its place. */
  lemma PackedField(e: Content, k: nat)
    requires e.Fits() && k < FIELDS
    ensures OffsetOf(k) + SizeOf(k) <= |e.Packed()|
    ensures e.Packed()[OffsetOf(k)..OffsetOf(k) + SizeOf(k)] == e.Field(k)
  {
    hide Flat, Content.Field, Offset, OffsetOf, SizeOf;
    var fs := seq(FIELDS, i requires 0 <= i < FIELDS => e.Field(i));
    Offsets(fs, k);
    FlatField(fs, k, e.Field(k));
  }

  /** The text of the checksum does not change the checksum. */
  lemma ChecksumStable(e: Content)
    requires e.Fits() && CString(e.name) && CString(e.chksum)
    ensures e.(chksum := "").Fits()
    ensures Octets(e.Packed()) && Octets(e.(chksum := "").Packed())
    ensures SumTo(e.Packed(), HEADER_SIZE) == SumTo(e.(chksum := "").Packed(), HEADER_SIZE)
  {
    hide Flat, Offset, SumTo, Content.Field;
    var b := e.(chksum := "");
    PackedFacts(e);
    PackedFacts(b);
    var fs := seq(FIELDS, i requires 0 <= i < FIELDS => b.Field(i));
    var gs := seq(FIELDS, i requires 0 <= i < FIELDS => e.Field(i));
    forall i | 0 <= i < FIELDS && i != 6 ensures fs[i] == gs[i] {
      UnwrittenFields(e, i);
    }
    assert fs[6 := e.Field(6)] == gs;
    Offsets(fs, 6);
    FlatField(fs, 6, e.Field(6));
    SumIgnoresField(e.Packed(), b.Packed(), HEADER_SIZE);
  }

  lemma PaddedOctal(v: nat, width: nat)
    requires 1 <= width && v < Pow8(width) && v <= ULONG_MAX
    ensures OctalFrom(Padded(FieldText(v, width), width + 1), 0, 0) == Number(v)
  {
    hide OctalFrom, Pow8;
    OctalRoundTrip(v, width, Repeat('\0', 1));
  }

  lemma PaddedName(name: string)
    requires CString(name) && |name| <= 99
    ensures Text(Padded(name, 100)) == name && Padded(name, 100)[99] == '\0'
  {
    TextUnique(Padded(name, 100), |name|);
    assert Padded(name, 100)[..|name|] == name;
  }

  /** The header of every archivable entry parses to the stripped name, the type and the size; a
      directory's size is dropped, and a negative size is the one thing that does not survive. */
  lemma HeaderRoundTrip(fileName: string, entryType: EntryType, size: int)
    requires CString(fileName) && |Stripped(fileName)| <= 99
    requires -0x8000_0000 <= size < 0x8000_0000
    ensures CString(Stripped(fileName)) && Octets(Composed(Stripped(fileName), entryType, AsUnsigned(size)))
    ensures Meaning(Composed(Stripped(fileName), entryType, AsUnsigned(size))) ==
      if entryType.Directory? then Entry(Stripped(fileName), Directory, 0)
      else if size >= 0 then Entry(Stripped(fileName), Regular, size)
      else Error("file too large")
  {
    hide FieldText, Pow8, SumTo, Content.Field, Content.Packed, OctalFrom, Stripped, CheckedMeaning, AllZeros;
    var name := Stripped(fileName);
    StrippedCString(fileName);
    var blank := Content(name, entryType, AsUnsigned(size), "");
    PackedFacts(blank);
    var sum := SumTo(blank.Packed(), HEADER_SIZE);
    var e := blank.(chksum := FieldText(sum, 7));
    DigitsCString(sum, 7);
    ChecksumStable(e);
    Pow8Facts();
    FieldTable(e);
    PackedField(e, 6);
    PackedField(e, 9);
    PackedField(e, 10);
    PaddedOctal(sum, 7);
    MagicPadded();
    NotAllZeros(e.Packed());
    assert e.Packed() == Composed(name, entryType, AsUnsigned(size));
    StrippedSociable(fileName);
    StrippedSociable(name);
    CheckedRoundTrip(e, size);
  }

  lemma DigitsCString(v: nat, width: nat)
    requires 1 <= width && v < Pow8(width)
    ensures CString(FieldText(v, width))
  {
    hide FieldText, Pow8, Numeral;
  }

  lemma MagicPadded()
    ensures Padded("ustar", 6) == "ustar\0"
  {
  }

  lemma NotAllZeros(h: string)
    requires |h| == HEADER_SIZE && h[257..263] == "ustar\0"
    ensures !AllZeros(h)
  {
    assert h[257] == h[257..263][0] == 'u';
  }

  lemma CheckedRoundTrip(e: Content, size: int)
    requires e.Fits() && CString(e.name) && Stripped(e.name) == e.name && |e.Packed()| == HEADER_SIZE
    requires -0x8000_0000 <= size < 0x8000_0000 && e.size == AsUnsigned(size)
    ensures CheckedMeaning(e.Packed()) ==
      if e.entryType.Directory? then Entry(e.name, Directory, 0)
      else if size >= 0 then Entry(e.name, Regular, size)
      else Error("file too large")
  {
    hide FieldText, Pow8, Content.Field, Content.Packed, OctalFrom, Stripped, Text;
    var h := e.Packed();
    Pow8Facts();
    FieldTable(e);
    PackedField(e, 0);
    PackedField(e, 4);
    PackedField(e, 7);
    PackedField(e, 15);
    PrefixEmpty(e);
    PaddedName(e.name);
    PaddedOctal(e.size, 11);
    assert h[..100] == h[0..100];
    assert h[99] == h[0..100][99];
    assert h[156] == h[156..157][0];
    assert h[345] == h[345..500][0];
  }

  lemma PrefixEmpty(e: Content)
    requires e.Fits()
    ensures e.Field(15)[0] == '\0'
  {
  }

  /** Where everything is in a header that was made. */
  lemma HeaderFields(name: string, entryType: EntryType, size: uint32)
    requires |name| <= 99 && CString(name)
    ensures var h := Composed(name, entryType, size);
      && |h| == HEADER_SIZE
      && h[..100] == Padded(name, 100)
      && Denotes(h[100..108], 7, if entryType.Regular? then 0x1a4 else 0x1ed)
      && h[108..116] == "0000000\0" && h[116..124] == "0000000\0"
      && Denotes(h[124..136], 11, size) && Denotes(h[136..148], 11, 1136102400)
      && h[156] == (if entryType.Regular? then '0' else '5')
      && h[257..263] == "ustar\0" && h[263..265] == "00"
      && h[265..297] == Padded("root", 32) && h[297..329] == Padded("root", 32)
      && AllZeros(h[157..257]) && AllZeros(h[329..337]) && AllZeros(h[337..345]) && AllZeros(h[345..500]) && AllZeros(h[500..])
  {
    hide FieldText, Pow8, SumTo, Content.Field, Content.Packed, PlainSum, Numeral, Denotes, Padded;
    var blank := Content(name, entryType, size, "");
    PackedFacts(blank);
    var e := blank.(chksum := FieldText(SumTo(blank.Packed(), HEADER_SIZE), 7));
    DigitsCString(SumTo(blank.Packed(), HEADER_SIZE), 7);
    PackedFacts(e);
    FieldsAt(e);
  }

  lemma FieldsAt(e: Content)
    requires e.Fits() && |e.Packed()| == HEADER_SIZE
    ensures var h := e.Packed();
      && h[..100] == Padded(e.name, 100)
      && Denotes(h[100..108], 7, if e.entryType.Regular? then 0x1a4 else 0x1ed)
      && h[108..116] == "0000000\0" && h[116..124] == "0000000\0"
      && Denotes(h[124..136], 11, e.size) && Denotes(h[136..148], 11, 1136102400)
      && h[156] == (if e.entryType.Regular? then '0' else '5')
      && h[257..263] == "ustar\0" && h[263..265] == "00"
      && h[265..297] == Padded("root", 32) && h[297..329] == Padded("root", 32)
      && AllZeros(h[157..257]) && AllZeros(h[329..337]) && AllZeros(h[337..345]) && AllZeros(h[345..500]) && AllZeros(h[500..])
  {
    hide FieldText, Pow8, Content.Field, Content.Packed, Denotes, AllZeros, Padded, OctalDigits, Numeral;
    var h := e.Packed();
    FieldTable(e);
    forall k: nat | k < FIELDS ensures OffsetOf(k) + SizeOf(k) <= |h| && h[OffsetOf(k)..OffsetOf(k) + SizeOf(k)] == e.Field(k) {
      PackedField(e, k);
    }
    assert h[..100] == h[OffsetOf(0)..100];
    assert h[156] == h[156..157][0];
    assert h[500..] == h[500..512];
    assert h[OffsetOf(1)..108] == e.Field(1) && h[OffsetOf(2)..116] == e.Field(2) && h[OffsetOf(3)..124] == e.Field(3);
    assert h[OffsetOf(4)..136] == e.Field(4) && h[OffsetOf(5)..148] == e.Field(5) && h[OffsetOf(7)..157] == e.Field(7);
    assert h[OffsetOf(9)..263] == e.Field(9) && h[OffsetOf(10)..265] == e.Field(10);
    assert h[OffsetOf(11)..297] == e.Field(11) && h[OffsetOf(12)..329] == e.Field(12);
    NumberField(Mode(e.entryType), 7);
    NumberField(e.size, 11);
    NumberField(MTIME, 11);
    FixedTexts();
    EmptyField(e, 8);
    EmptyField(e, 13);
    EmptyField(e, 14);
    EmptyField(e, 15);
    EmptyField(e, 16);
    assert h[OffsetOf(8)..257] == e.Field(8) && h[OffsetOf(13)..337] == e.Field(13) && h[OffsetOf(14)..345] == e.Field(14);
    assert h[OffsetOf(15)..500] == e.Field(15) && h[OffsetOf(16)..512] == e.Field(16);
  }

  lemma NumberField(v: nat, width: nat)
    requires 1 <= width && v < Pow8(width) && v <= ULONG_MAX
    ensures Denotes(Padded(FieldText(v, width), width + 1), width, v)
  {
    hide Numeral, Pow8;
    var f := Padded(FieldText(v, width), width + 1);
    assert f[..width] == FieldText(v, width);
  }

  lemma FixedTexts()
    ensures Padded("0000000", 8) == "0000000\0" && Padded("ustar", 6) == "ustar\0"
  {
  }

  lemma EmptyField(e: Content, k: nat)
    requires e.Fits() && k in {8, 13, 14, 15, 16}
    ensures AllZeros(e.Field(k))
  {
  }

  /** A single damaged octet anywhere outside the checksum field of an accepted entry's header is
      always noticed. */
  lemma DamageDetected(h: string, i: nat, b: char)
    requires Octets(h) && Meaning(h).Entry?
    requires i < HEADER_SIZE && !InChecksum(i) && b as int < 256 && b != h[i]
    ensures Octets(h[i := b]) && Meaning(h[i := b]).Error?
  {
    hide SumTo, OctalFrom, CheckedMeaning, AllZeros;
    var g := h[i := b];
    SumChange(h, i, b, HEADER_SIZE);
    assert g[148..156] == h[148..156];
    StillNotZero(h, i, b);
  }

  lemma StillNotZero(h: string, i: nat, b: char)
    requires |h| == HEADER_SIZE && h[257..263] == "ustar\0" && i < HEADER_SIZE
    ensures !AllZeros(h[i := b])
  {
    assert h[257] == h[257..263][0] == 'u' && h[258] == h[257..263][1] == 's';
    assert h[i := b][if i == 257 then 258 else 257] != '\0';
  }
}
