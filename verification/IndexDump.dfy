/** Writing an index (lib/deflate.c wows_dump_index_to_file) and reading it back. The widths the writer
    uses are those of C structs, so they depend on how a compiler lays the structs out; the reader's
    widths are fixed. */
module IndexDump {
  import opened IndexFormat

  /** What a compiler puts into the structs besides the fields of the format: the bytes behind a metadata
      record and behind the footer (a pointer, on a host that has it there), and the padding before the
      last 64-bit field of a data entry and behind its end. */
  datatype Layout = Layout(metaTail: seq<Byte>, fileGap: seq<Byte>, fileTail: seq<Byte>, footerTail: seq<Byte>)

  /** The layout of the format itself. */
  const PACKED: Layout := Layout([], [], [], [])

  // ----- images of the records

  function HeaderImage(h: Header): (r: seq<Byte>)
    ensures |r| == HEADER_SIZE
  {
    MAGIC + LeBytes(h.endianness, 4) + LeBytes(h.id, 4) + LeBytes(h.unknown2, 4) + LeBytes(h.fileDirCount, 4)
    + LeBytes(h.fileCount, 4) + LeBytes(h.unknown3, 8) + LeBytes(h.headerSize, 8) + LeBytes(h.dataOffset, 8)
    + LeBytes(h.footerOffset, 8)
  }

  function MetaCore(m: Meta): (r: seq<Byte>)
    ensures |r| == META_SIZE
  {
    LeBytes(m.nameSize, 8) + LeBytes(m.nameOffset, 8) + LeBytes(m.id, 8) + LeBytes(m.parentId, 8)
  }

  function FileImage(l: Layout, f: FileEntry): (r: seq<Byte>)
    ensures |r| == FILE_SIZE + |l.fileGap| + |l.fileTail|
  {
    LeBytes(f.metadataId, 8) + LeBytes(f.footerId, 8) + LeBytes(f.offset, 8) + LeBytes(f.type1, 4) + LeBytes(f.type2, 4)
    + LeBytes(f.size, 4) + l.fileGap + LeBytes(f.pkgId, 8) + [0, 0, 0, 0] + l.fileTail
  }

  function FooterCore(f: Footer): (r: seq<Byte>)
    ensures |r| == FOOTER_SIZE
  {
    LeBytes(f.nameSize, 8) + LeBytes(f.unknown7, 8) + LeBytes(f.id, 8)
  }

  // ----- images of the sections

  function MetaWidth(l: Layout): nat { META_SIZE + |l.metaTail| }

  /** `string_start` after a record, in 64-bit arithmetic. */
  function NextStart(l: Layout, start: nat, nameSize: nat): nat
    requires MetaWidth(l) <= ADDRESSES
  {
    (start + (ADDRESSES - MetaWidth(l)) + nameSize) % ADDRESSES
  }

  /** The records with the name offsets that the dumper gives them. */
  function Placed(l: Layout, ms: seq<Meta>, start: nat): (r: seq<Meta>)
    requires MetaWidth(l) <= ADDRESSES
    ensures |r| == |ms|
    decreases |ms|
  {
    if ms == [] then [] else [ms[0].(nameOffset := start)] + Placed(l, ms[1..], NextStart(l, start, ms[0].nameSize))
  }

  function MetasImage(l: Layout, ms: seq<Meta>): seq<Byte>
    decreases |ms|
  {
    if ms == [] then [] else MetaCore(ms[0]) + l.metaTail + MetasImage(l, ms[1..])
  }

  function NamesImage(ms: seq<Meta>): seq<Byte>
    decreases |ms|
  {
    if ms == [] then [] else ms[0].name + NamesImage(ms[1..])
  }

  function FilesImage(l: Layout, fs: seq<FileEntry>): seq<Byte>
    decreases |fs|
  {
    if fs == [] then [] else FileImage(l, fs[0]) + FilesImage(l, fs[1..])
  }

  /** The index as it comes back: name offsets and section offsets recomputed, two header fields fixed. */
  function Normal(l: Layout, idx: Index): Index
    requires MetaWidth(l) <= ADDRESSES
  {
    var metas := Placed(l, idx.metadata, MetaWidth(l) * |idx.metadata|);
    var data := HEADER_SIZE + |MetasImage(l, metas)| + |NamesImage(metas)|;
    var foot := data + |FilesImage(l, idx.files)|;
    Index(idx.header.(unknown2 := 0x40, headerSize := 40,
                      dataOffset := data - SECTION_BIAS, footerOffset := foot - SECTION_BIAS),
          metas, idx.files, idx.footer)
  }

  /** The file for an index whose footer struct has the bytes `behind` behind it in memory. */
  function Image(l: Layout, idx: Index, behind: seq<Byte>): seq<Byte> {
    HeaderImage(idx.header) + MetasImage(l, idx.metadata) + NamesImage(idx.metadata) + FilesImage(l, idx.files)
    + FooterCore(idx.footer) + l.footerTail + behind
  }

  /** An index as the reader leaves it, whatever it read: its counts are right, its fields have their widths,
      and its names are as long as their sizes say, with nothing but NULs behind a NUL. */
  ghost predicate WellFormed(idx: Index) {
    && idx.header.endianness < WORD32 && idx.header.id < WORD32 && idx.header.unknown3 < WORD32
    && idx.header.fileDirCount == |idx.metadata| <= MAX_COUNT && idx.header.fileCount == |idx.files| <= MAX_COUNT
    && (forall m :: m in idx.metadata ==> WellFormedMeta(m))
    && (forall f :: f in idx.files ==> WellFormedFile(f))
    && idx.footer.nameSize == |idx.footer.name| <= MAX_NAME && CopyName(idx.footer.name) == idx.footer.name
    && idx.footer.unknown7 < ADDRESSES && idx.footer.id < ADDRESSES
  }

  /** The marker that makes the reader take numbers as little-endian. */
  predicate LittleEndian(idx: Index) {
    idx.header.endianness == 0x200_0000
  }

  ghost predicate WellFormedMeta(m: Meta) {
    m.nameSize == |m.name| <= MAX_NAME && CopyName(m.name) == m.name && m.id < ADDRESSES && m.parentId < ADDRESSES
  }

  ghost predicate WellFormedFile(f: FileEntry) {
    && f.metadataId < ADDRESSES && f.footerId < ADDRESSES && f.offset < ADDRESSES && f.pkgId < ADDRESSES
    && f.type1 < WORD32 && f.type2 < WORD32 && f.size < WORD32
  }

  // ----- the dumper

  /** The metadata loop: a running string start goes into each record. */
  method DumpMetas(l: Layout, file: seq<Byte>, ms: seq<Meta>) returns (grown: seq<Byte>)
    requires MetaWidth(l) <= ADDRESSES
    ensures grown == file + MetasImage(l, Placed(l, ms, MetaWidth(l) * |ms|))
  {
    grown := file;
    var stringStart: nat := MetaWidth(l) * |ms|;
    ghost var all := MetasImage(l, Placed(l, ms, stringStart));
    assert ms[0..] == ms;
    hide MetaCore, NextStart, MetasImage, Placed;
    for i := 0 to |ms|
      invariant grown + MetasImage(l, Placed(l, ms[i..], stringStart)) == file + all
    {
      PlacedNext(l, ms[i..], stringStart);
      assert ms[i..][1..] == ms[i + 1..];
      var entry := ms[i].(nameOffset := stringStart);
      stringStart := NextStart(l, stringStart, entry.nameSize);
      Regroup(grown, MetaCore(entry), l.metaTail, MetasImage(l, Placed(l, ms[i + 1..], stringStart)));
      grown := grown + MetaCore(entry) + l.metaTail;
    }
    PlacedNext(l, ms[|ms|..], stringStart);
  }

  lemma PlacedNext(l: Layout, ms: seq<Meta>, start: nat)
    requires MetaWidth(l) <= ADDRESSES
    ensures MetasImage(l, Placed(l, ms, start)) ==
              if ms == [] then []
              else MetaCore(ms[0].(nameOffset := start)) + l.metaTail
                   + MetasImage(l, Placed(l, ms[1..], NextStart(l, start, ms[0].nameSize)))
  {
    if ms != [] { assert Placed(l, ms, start)[1..] == Placed(l, ms[1..], NextStart(l, start, ms[0].nameSize)); }
  }

  lemma Regroup<T>(a: seq<T>, b: seq<T>, c: seq<T>, d: seq<T>)
    ensures a + (b + c + d) == a + b + c + d && a + (b + d) == a + b + d
  {
  }

  lemma {:induction false} NamesOfPlaced(l: Layout, ms: seq<Meta>, start: nat)
    requires MetaWidth(l) <= ADDRESSES
    ensures NamesImage(Placed(l, ms, start)) == NamesImage(ms)
    decreases |ms|
  {
    if ms != [] {
      var next := NextStart(l, start, ms[0].nameSize);
      NamesOfPlaced(l, ms[1..], next);
      assert Placed(l, ms, start)[1..] == Placed(l, ms[1..], next);
    }
  }

  /** The names, none written for a size of 0. */
  method DumpNames(file: seq<Byte>, ms: seq<Meta>) returns (grown: seq<Byte>)
    requires forall m :: m in ms ==> m.nameSize == |m.name|
    ensures grown == file + NamesImage(ms)
  {
    grown := file;
    assert ms[0..] == ms;
    for i := 0 to |ms|
      invariant grown + NamesImage(ms[i..]) == file + NamesImage(ms)
    {
      assert ms[i..][1..] == ms[i + 1..] && ms[i] in ms;
      Regroup(grown, ms[i].name, [], NamesImage(ms[i + 1..]));
      if ms[i].nameSize != 0 { grown := grown + ms[i].name; }
    }
  }

  method DumpFiles(l: Layout, file: seq<Byte>, fs: seq<FileEntry>) returns (grown: seq<Byte>)
    ensures grown == file + FilesImage(l, fs)
  {
    hide FileImage;
    grown := file;
    assert fs[0..] == fs;
    for i := 0 to |fs|
      invariant grown + FilesImage(l, fs[i..]) == file + FilesImage(l, fs)
    {
      assert fs[i..][1..] == fs[i + 1..];
      Regroup(grown, FileImage(l, fs[i]), [], FilesImage(l, fs[i + 1..]));
      grown := grown + FileImage(l, fs[i]);
    }
  }

  /** `wows_dump_index_to_file`: the sections in order, then the header again with their offsets. The arrays
      are as long as the header says, and the names as their records say. The package name is not taken from
      the footer: as many bytes as its size says are written from behind the footer struct. */
  method DumpIndex(l: Layout, idx: Index, behind: seq<Byte>) returns (file: seq<Byte>)
    requires MetaWidth(l) <= ADDRESSES
    requires idx.header.fileDirCount == |idx.metadata| && idx.header.fileCount == |idx.files|
    requires idx.footer.nameSize == |behind|
    requires forall m :: m in idx.metadata ==> m.nameSize == |m.name|
    ensures file == Image(l, Normal(l, idx), behind)
  {
    hide HeaderImage, MetasImage, NamesImage, FilesImage, FooterCore, Placed;
    file := HeaderImage(idx.header);
    file := DumpMetas(l, file, idx.metadata);
    file := DumpNames(file, idx.metadata);
    NamesOfPlaced(l, idx.metadata, MetaWidth(l) * |idx.metadata|);
    var startData := |file|;
    file := DumpFiles(l, file, idx.files);
    var startFooter := |file|;
    file := file + FooterCore(idx.footer) + l.footerTail;
    file := file + behind;
    var header := idx.header.(unknown2 := 0x40, headerSize := 40,
                              dataOffset := startData - SECTION_BIAS, footerOffset := startFooter - SECTION_BIAS);
    file := HeaderImage(header) + file[HEADER_SIZE..];
  }
}
