/** The binary index: its records as bytes, and what a reader makes of a buffer
    (lib/wows-depack-private.h, lib/index-parser.c, FORMAT.md). */
module IndexFormat {
  import opened Basics

  type Byte = b: nat | b < 256

  const ADDRESSES: nat := 0x1_0000_0000_0000_0000
  const WORD32: nat := 0x1_0000_0000

  const HEADER_SIZE: nat := 56
  const META_SIZE: nat := 32
  const FILE_SIZE: nat := 48
  const FOOTER_SIZE: nat := 24
  const SECTION_BIAS: nat := 16
  const MAX_COUNT: nat := 32 * 1024 * 1024
  const MAX_NAME: nat := 4096
  const MAGIC: seq<Byte> := [0x49, 0x53, 0x46, 0x50]
  const LE_MARK: seq<Byte> := [0, 0, 0, 2]

  // ----- integers as bytes

  function LeNat(bs: seq<Byte>): nat {
    if bs == [] then 0 else bs[0] + 256 * LeNat(bs[1..])
  }

  function LeBytes(v: nat, n: nat): (bs: seq<Byte>)
    ensures |bs| == n
    decreases n
  {
    if n == 0 then [] else [v % 256] + LeBytes(v / 256, n - 1)
  }

  function Pow256(n: nat): nat {
    if n == 0 then 1 else 256 * Pow256(n - 1)
  }

  lemma {:induction false} LeRoundTrip(v: nat, n: nat)
    requires v < Pow256(n)
    ensures LeNat(LeBytes(v, n)) == v
    decreases n
  {
    if n > 0 {
      LeRoundTrip(v / 256, n - 1);
      assert LeBytes(v, n)[1..] == LeBytes(v / 256, n - 1);
    }
  }

  lemma Le32(v: nat)
    requires v < WORD32
    ensures LeNat(LeBytes(v, 4)) == v
  {
    LeRoundTrip(v, 4);
  }

  lemma Le64(v: nat)
    requires v < ADDRESSES
    ensures LeNat(LeBytes(v, 8)) == v
  {
    assert Pow256(8) == ADDRESSES;
    LeRoundTrip(v, 8);
  }

  lemma {:induction false} LeBound(bs: seq<Byte>)
    ensures LeNat(bs) < Pow256(|bs|)
  {
    if bs != [] { LeBound(bs[1..]); }
  }

  /** `depk_datatoh32` and `depk_datatoh64`. */
  function Number(le: bool, bs: seq<Byte>): nat {
    LeNat(if le then bs else Reversed(bs))
  }

  // ----- records

  datatype Header = Header(endianness: nat, id: nat, unknown2: nat, fileDirCount: nat, fileCount: nat, unknown3: nat,
                           headerSize: nat, dataOffset: nat, footerOffset: nat)

  datatype Meta = Meta(nameSize: nat, nameOffset: nat, id: nat, parentId: nat, name: seq<Byte>)

  datatype FileEntry = FileEntry(metadataId: nat, footerId: nat, offset: nat, type1: nat, type2: nat, size: nat,
                                 pkgId: nat)

  datatype Footer = Footer(nameSize: nat, unknown7: nat, id: nat, name: seq<Byte>)

  datatype Index = Index(header: Header, metadata: seq<Meta>, files: seq<FileEntry>, footer: Footer)

  datatype Error = CorruptedFile | BadMagic | MaxFile | PathTooLong

  datatype Parsed = Good(index: Index) | Bad(error: Error)

  // ----- reading

  /** `n` bytes of the buffer, which must be inside it. */
  function Slice(b: seq<Byte>, at: nat, n: nat): (s: seq<Byte>)
    requires at + n <= |b|
    ensures |s| == n
  {
    b[at..at + n]
  }

  /** `strncpy`: the bytes up to the first NUL, then NULs. */
  function CopyName(bs: seq<Byte>): (r: seq<Byte>)
    ensures |r| == |bs|
  {
    if bs == [] then []
    else if bs[0] == 0 then seq(|bs|, _ => 0)
    else [bs[0]] + CopyName(bs[1..])
  }

  function HeaderAt(b: seq<Byte>): Header
    requires |b| >= HEADER_SIZE
  {
    var le := Slice(b, 4, 4) == LE_MARK;
    Header(LeNat(Slice(b, 4, 4)), Number(le, Slice(b, 8, 4)), Number(le, Slice(b, 12, 4)), Number(le, Slice(b, 16, 4)),
           Number(le, Slice(b, 20, 4)), Number(le, Slice(b, 24, 4)), Number(le, Slice(b, 32, 8)),
           Number(le, Slice(b, 40, 8)), Number(le, Slice(b, 48, 8)))
  }

  /** Record `i` of the metadata section, with its name looked up; None where the name is not in the buffer. */
  function MetaFields(b: seq<Byte>, le: bool, i: nat): Meta
    requires HEADER_SIZE + META_SIZE * (i + 1) <= |b|
  {
    var at := HEADER_SIZE + META_SIZE * i;
    Meta(Number(le, Slice(b, at, 8)), Number(le, Slice(b, at + 8, 8)), Number(le, Slice(b, at + 16, 8)),
         Number(le, Slice(b, at + 24, 8)), [])
  }

  /** Where a relative offset leads, seen from the start of the buffer. */
  function Target(at: nat, offset: nat): nat {
    (at + offset) % ADDRESSES
  }

  predicate Inside(b: seq<Byte>, at: nat, n: nat) {
    at <= |b| && at + n <= |b|
  }

  datatype ParsedMetas = GoodMetas(metas: seq<Meta>) | BadMeta(error: Error)

  /** The metadata records from the `i`-th on; the first bad one decides. */
  function ParseMetas(b: seq<Byte>, le: bool, i: nat, n: nat): ParsedMetas
    requires i <= n && HEADER_SIZE + META_SIZE * n <= |b|
    decreases n - i
  {
    if i == n then GoodMetas([])
    else
      var m := MetaFields(b, le, i);
      var at := Target(HEADER_SIZE + META_SIZE * i, m.nameOffset);
      if m.nameSize > MAX_NAME then BadMeta(PathTooLong)
      else if !Inside(b, at, m.nameSize) then BadMeta(CorruptedFile)
      else Prepended([m.(name := CopyName(Slice(b, at, m.nameSize)))], ParseMetas(b, le, i + 1, n))
  }

  /** Records already read in front of what is still to be parsed. */
  function Prepended(done: seq<Meta>, rest: ParsedMetas): ParsedMetas {
    match rest
    case BadMeta(e) => BadMeta(e)
    case GoodMetas(ms) => GoodMetas(done + ms)
  }

  lemma ParseMetasNext(b: seq<Byte>, le: bool, i: nat, n: nat)
    requires i <= n && HEADER_SIZE + META_SIZE * n <= |b|
    ensures ParseMetas(b, le, i, n) ==
              if i == n then GoodMetas([])
              else
                var m := MetaFields(b, le, i);
                var at := Target(HEADER_SIZE + META_SIZE * i, m.nameOffset);
                if m.nameSize > MAX_NAME then BadMeta(PathTooLong)
                else if !Inside(b, at, m.nameSize) then BadMeta(CorruptedFile)
                else Prepended([m.(name := CopyName(Slice(b, at, m.nameSize)))], ParseMetas(b, le, i + 1, n))
  {
  }

  function FileAt(b: seq<Byte>, le: bool, at: nat): FileEntry
    requires at + FILE_SIZE <= |b|
  {
    FileEntry(Number(le, Slice(b, at, 8)), Number(le, Slice(b, at + 8, 8)), Number(le, Slice(b, at + 16, 8)),
              Number(le, Slice(b, at + 24, 4)), Number(le, Slice(b, at + 28, 4)), Number(le, Slice(b, at + 32, 4)),
              Number(le, Slice(b, at + 36, 8)))
  }

  function ParseFiles(b: seq<Byte>, le: bool, at: nat, n: nat): seq<FileEntry>
    requires at + FILE_SIZE * n <= |b|
    decreases n
  {
    if n == 0 then [] else [FileAt(b, le, at)] + ParseFiles(b, le, at + FILE_SIZE, n - 1)
  }

  lemma ParseFilesNext(b: seq<Byte>, le: bool, at: nat, n: nat)
    requires at + FILE_SIZE * n <= |b|
    ensures ParseFiles(b, le, at, n) == if n == 0 then []
                                        else [FileAt(b, le, at)] + ParseFiles(b, le, at + FILE_SIZE, n - 1)
  {
  }

  function ParseFooter(b: seq<Byte>, le: bool, at: nat): (Footer, Option<Error>)
    requires at + FOOTER_SIZE <= |b|
  {
    var f := Footer(Number(le, Slice(b, at, 8)), Number(le, Slice(b, at + 8, 8)), Number(le, Slice(b, at + 16, 8)), []);
    if f.nameSize > MAX_NAME then (f, Some(PathTooLong))
    else if !Inside(b, at + FOOTER_SIZE, f.nameSize) then (f, Some(CorruptedFile))
    else (f.(name := CopyName(Slice(b, at + FOOTER_SIZE, f.nameSize))), None)
  }

  /** What `map_index_file` makes of a buffer, wherever it lies in memory. */
  function Parse(b: seq<Byte>): Parsed {
    if |b| < HEADER_SIZE then Bad(CorruptedFile)
    else if Slice(b, 0, 4) != MAGIC then Bad(BadMagic)
    else
      var le, h := Slice(b, 4, 4) == LE_MARK, HeaderAt(b);
      if h.fileDirCount > MAX_COUNT || h.fileCount > MAX_COUNT then Bad(MaxFile)
      else if HEADER_SIZE + META_SIZE * h.fileDirCount > |b| then Bad(CorruptedFile)
      else
        ParseBehind(b, le, h, ParseMetas(b, le, 0, h.fileDirCount))
  }

  /** The sections behind the metadata, if that was good. */
  function ParseBehind(b: seq<Byte>, le: bool, h: Header, parsed: ParsedMetas): Parsed {
    match parsed
    case BadMeta(e) => Bad(e)
    case GoodMetas(metas) => ParseRest(b, le, h, metas)
  }

  function ParseRest(b: seq<Byte>, le: bool, h: Header, metas: seq<Meta>): Parsed {
    var data, foot := Target(h.dataOffset, SECTION_BIAS), Target(h.footerOffset, SECTION_BIAS);
    if !Inside(b, data, FILE_SIZE * h.fileCount) then Bad(CorruptedFile)
    else if !Inside(b, foot, FOOTER_SIZE) then Bad(CorruptedFile)
    else
      var (footer, error) := ParseFooter(b, le, foot);
      match error
      case Some(e) => Bad(e)
      case None => Good(Index(h, metas, ParseFiles(b, le, data, h.fileCount), footer))
  }

  // ----- what is left in hand

  /** The heap parts of an index when `map_index_file` returns, that a release of it looks at: the count in its
      header, 0 without a header, and the names of the metadata array, if there is one; a name is null
      until its record is read. */
  datatype Held = Held(count: nat, names: Option<seq<Option<seq<Byte>>>>)

  /** The names copied from the records from the `i`-th on, up to the first bad one. */
  function NamesRead(b: seq<Byte>, le: bool, i: nat, n: nat): (names: seq<Option<seq<Byte>>>)
    requires i <= n && HEADER_SIZE + META_SIZE * n <= |b|
    ensures |names| == n - i
    decreases n - i
  {
    if i == n then []
    else
      var m := MetaFields(b, le, i);
      var at := Target(HEADER_SIZE + META_SIZE * i, m.nameOffset);
      if m.nameSize > MAX_NAME || !Inside(b, at, m.nameSize) then seq(n - i, _ => None)
      else [Some(CopyName(Slice(b, at, m.nameSize)))] + NamesRead(b, le, i + 1, n)
  }

  lemma NamesReadNext(b: seq<Byte>, le: bool, i: nat, n: nat)
    requires i <= n && HEADER_SIZE + META_SIZE * n <= |b|
    ensures NamesRead(b, le, i, n) ==
              if i == n then []
              else
                var m := MetaFields(b, le, i);
                var at := Target(HEADER_SIZE + META_SIZE * i, m.nameOffset);
                if m.nameSize > MAX_NAME || !Inside(b, at, m.nameSize) then seq(n - i, _ => None)
                else [Some(CopyName(Slice(b, at, m.nameSize)))] + NamesRead(b, le, i + 1, n)
  {
  }

  function HeldBy(b: seq<Byte>): (held: Held)
    ensures held.names.Some? ==> |held.names.value| == held.count
  {
    if |b| < HEADER_SIZE || Slice(b, 0, 4) != MAGIC then Held(0, None)
    else
      var h := HeaderAt(b);
      if h.fileDirCount > MAX_COUNT || h.fileCount > MAX_COUNT || HEADER_SIZE + META_SIZE * h.fileDirCount > |b| then
        Held(h.fileDirCount, None)
      else
        Held(h.fileDirCount, Some(NamesRead(b, Slice(b, 4, 4) == LE_MARK, 0, h.fileDirCount)))
  }
}
