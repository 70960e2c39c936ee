/** Packing a directory, writing its index, reading the index back and opening it: lib/deflate.c,
    lib/index-parser.c and lib/inode.c together. */
module EndToEnd {
  import opened Basics
  import opened Tree
  import opened Packing
  import opened Filling
  import opened Inodes
  import Format = IndexFormat
  import IndexDump
  import IndexFile
  import IndexRelease
  import IndexRoundTrip

  // ----- names

  predicate IsCName(name: string) {
    |name| <= Format.MAX_NAME && forall i :: 0 <= i < |name| ==> 0 < name[i] as int < 256
  }

  /** The bytes of a name, without a NUL behind them: `write_metadata_entry` gives `strlen` as the size. */
  function Bytes(name: string): seq<Format.Byte>
    requires IsCName(name)
  {
    seq(|name|, i requires 0 <= i < |name| => name[i] as int)
  }

  /** A C string: the characters in front of the first NUL. */
  function Text(bs: seq<Format.Byte>): string {
    if bs == [] || bs[0] == 0 then "" else [bs[0] as char] + Text(bs[1..])
  }

  lemma {:induction false} TextBack(name: string)
    requires IsCName(name)
    ensures Text(Bytes(name)) == name && Format.CopyName(Bytes(name)) == Bytes(name) && 0 !in Bytes(name)
    decreases |name|
  {
    if name != "" {
      TextBack(name[1..]);
      assert Bytes(name)[1..] == Bytes(name[1..]);
    }
  }

  /** What lies in memory behind an allocation, with a NUL somewhere. */
  type Tail = bs: seq<Format.Byte> | 0 in bs witness [0]

  /** A name that fills its allocation runs on into what lies behind. */
  lemma {:induction false} TextRunsOn(name: string, rest: Tail)
    requires IsCName(name)
    ensures Text(Bytes(name) + rest) == name + Text(rest)
    ensures Text(rest) == "" <==> rest[0] == 0
    decreases |name|
  {
    var bs := Bytes(name);
    if name == "" {
      assert bs + rest == rest;
    } else {
      TextRunsOn(name[1..], rest);
      assert Bytes(name)[1..] == Bytes(name[1..]);
      assert (bs + rest)[1..] == bs[1..] + rest;
    }
  }

  // ----- the index of a packed directory

  /** What only the package file decides: where the data of a file went. Below, that of every file by its id. */
  datatype Blob = Blob(offset: nat, size: nat, pkgId: nat)

  function MetaOf(r: Record): Format.Meta
    requires IsCName(r.name)
  {
    Format.Meta(|r.name|, 0, r.id, r.parent, Bytes(r.name))
  }

  /** A record as it is used from then on, with what lies behind its name. */
  function RecordOf(m: Format.Meta, rest: Tail): Record {
    Record(m.id, m.parentId, Text(m.name + rest))
  }

  function Metas(rs: seq<Record>): seq<Format.Meta>
    requires forall r :: r in rs ==> IsCName(r.name)
  {
    seq(|rs|, i requires 0 <= i < |rs| => MetaOf(rs[i]))
  }

  /** `write_file_pkg_entry`. */
  function FileEntryOf(id: nat, blob: Blob, footerId: nat): Format.FileEntry {
    Format.FileEntry(id, footerId, blob.offset, 5, 1, blob.size, blob.pkgId)
  }

  function FileEntries(files: seq<nat>, blobs: map<nat, Blob>, footerId: nat): seq<Format.FileEntry>
    requires forall id :: id in files ==> id in blobs
  {
    seq(|files|, i requires 0 <= i < |files| => FileEntryOf(files[i], blobs[files[i]], footerId))
  }

  /** The index that `wows_write_pkg` dumps; its footer name has its NUL. */
  function IndexOf(rs: seq<Record>, files: seq<nat>, blobs: map<nat, Blob>, headerId: nat, footerId: nat, unknown7: nat,
                   package: string): Format.Index
    requires (forall r :: r in rs ==> IsCName(r.name)) && (forall id :: id in files ==> id in blobs) && IsCName(package)
  {
    Format.Index(Format.Header(0x200_0000, headerId, 0x40, |rs|, |files|, 1, 40, 0, 0),
                 Metas(rs), FileEntries(files, blobs, footerId),
                 Format.Footer(|package| + 1, unknown7, footerId, Bytes(package) + [0]))
  }

  /** Every file has its data, at places and of sizes that the format can hold. */
  ghost predicate BlobsFit(files: seq<nat>, blobs: map<nat, Blob>) {
    forall id :: id in files ==>
      && id in blobs && blobs[id].offset < Format.ADDRESSES && blobs[id].size < Format.WORD32
      && blobs[id].pkgId < Format.ADDRESSES
  }

  /** A directory that can be packed, with the ids drawn for it and what the package file says. */
  ghost predicate Packable(e: Entries, top: nat, blobs: map<nat, Blob>, headerId: nat, footerId: nat, unknown7: nat,
                           package: string) {
    var rs := Flatten(e, top);
    && DistinctIds(rs) && DistinctTop(rs, top) && SiblingsDiffer(e) && Depth(e) <= 32
    && |rs| <= Format.MAX_COUNT && Uncrowded(RecordKeys(), map[], rs)
    && top < Format.ADDRESSES && (forall r :: r in rs ==> IsCName(r.name) && r.id < Format.ADDRESSES)
    && BlobsFit(FileIds(e), blobs) && Uncrowded(EntryKeys(), map[], FileEntries(FileIds(e), blobs, footerId))
    && headerId < Format.WORD32 && footerId < Format.ADDRESSES && unknown7 < Format.ADDRESSES
    && IsCName(package) && |package| < Format.MAX_NAME
  }

  /** The ids in play: those of the records, and that of the top, which is searched. */
  ghost function IdsOf(e: Entries, top: nat): iset<nat> {
    iset x: nat | x == top || x in IdSet(Flatten(e, top))
  }

  ghost function IdSet(rs: seq<Record>): set<nat> {
    set r | r in rs :: r.id
  }

  lemma ToldApart(e: Entries, top: nat)
    requires DistinctIds(Flatten(e, top)) && DistinctTop(Flatten(e, top), top)
    ensures Tellable(IdsOf(e, top))
  {
  }

  lemma {:induction false} ParentsInPlay(e: Entries, parent: nat)
    ensures forall r :: r in Flatten(e, parent) ==> r.parent == parent || r.parent in IdSet(Flatten(e, parent))
    ensures forall id :: id in FileIds(e) ==> id in IdSet(Flatten(e, parent))
    ensures |FileIds(e)| <= |Flatten(e, parent)|
  {
    match e
    case Done =>
    case File(name, id, more) =>
      ParentsInPlay(more, parent);
      assert Flatten(e, parent)[0] == Record(id, parent, name);
    case Dir(name, id, inside, more) =>
      ParentsInPlay(inside, id);
      ParentsInPlay(more, parent);
      assert Flatten(e, parent)[0] == Record(id, parent, name);
  }

  lemma IndexIsWellFormed(rs: seq<Record>, files: seq<nat>, blobs: map<nat, Blob>, headerId: nat, footerId: nat,
                          unknown7: nat, package: string)
    requires (forall r :: r in rs ==> IsCName(r.name) && r.id < Format.ADDRESSES && r.parent < Format.ADDRESSES)
    requires BlobsFit(files, blobs) && |rs| <= Format.MAX_COUNT && |files| <= Format.MAX_COUNT
    requires IsCName(package) && |package| < Format.MAX_NAME && forall id :: id in files ==> id < Format.ADDRESSES
    requires headerId < Format.WORD32 && footerId < Format.ADDRESSES && unknown7 < Format.ADDRESSES
    ensures var idx := IndexOf(rs, files, blobs, headerId, footerId, unknown7, package);
            IndexDump.WellFormed(idx) && IndexDump.LittleEndian(idx)
  {
    forall r | r in rs ensures IndexDump.WellFormedMeta(MetaOf(r)) { TextBack(r.name); }
    var entries := FileEntries(files, blobs, footerId);
    forall i | 0 <= i < |entries| ensures IndexDump.WellFormedFile(entries[i]) {
      assert files[i] in files;
    }
    TextBack(package);
    Terminated(Bytes(package));
  }

  lemma {:induction false} Terminated(bs: seq<Format.Byte>)
    ensures Format.CopyName(bs) == bs ==> Format.CopyName(bs + [0]) == bs + [0]
  {
    if bs == [] {
      assert bs + [0] == [0];
    } else if bs[0] != 0 {
      Terminated(bs[1..]);
      assert (bs + [0])[1..] == bs[1..] + [0];
      assert Format.CopyName(bs)[1..] == Format.CopyName(bs[1..]);
    } else {
      assert (bs + [0])[0] == 0;
    }
  }

  // ----- reading it back

  /** The records read, with what lies behind each of their names. */
  function Records(ms: seq<Format.Meta>, behind: nat -> Tail): seq<Record> {
    seq(|ms|, i requires 0 <= i < |ms| => RecordOf(ms[i], behind(i)))
  }

  /** The ids, parents and names of records, the names filling their sizes. */
  ghost predicate AsPacked(ms: seq<Format.Meta>, rs: seq<Record>) {
    |ms| == |rs| && forall i :: 0 <= i < |rs| ==> MetaAsPacked(ms[i], rs[i])
  }

  ghost predicate MetaAsPacked(m: Format.Meta, r: Record) {
    && IsCName(r.name) && m.id == r.id && m.parentId == r.parent && m.nameSize == |m.name| == |r.name|
    && forall k :: 0 <= k < |r.name| ==> m.name[k] == r.name[k] as int
  }

  /** Every data entry points to the data of its own file, compressed, in the package of the footer. */
  ghost predicate LeadTo(fs: seq<Format.FileEntry>, blobs: map<nat, Blob>, footerId: nat) {
    forall f :: f in fs ==>
      && f.metadataId in blobs && f.offset == blobs[f.metadataId].offset && f.size == blobs[f.metadataId].size
      && f.pkgId == blobs[f.metadataId].pkgId && f.type1 == 5 && f.type2 == 1 && f.footerId == footerId
  }

  /** Behind each of the first `n` names lies a NUL. */
  ghost predicate Stopped(behind: nat -> Tail, n: nat) {
    forall i :: 0 <= i < n ==> behind(i)[0] == 0
  }

  lemma PlacedAsPacked(rs: seq<Record>, start: nat)
    requires forall r :: r in rs ==> IsCName(r.name)
    ensures AsPacked(IndexDump.Placed(IndexDump.PACKED, Metas(rs), start), rs)
  {
    var ms := Metas(rs);
    var placed := IndexDump.Placed(IndexDump.PACKED, ms, start);
    IndexRoundTrip.PlacedKeeps(IndexDump.PACKED, ms, start);
    forall i | 0 <= i < |rs| ensures MetaAsPacked(placed[i], rs[i]) {
      assert rs[i] in rs;
      assert ms[i].(nameOffset := placed[i].nameOffset) == placed[i];
    }
  }

  /** No name that the packer writes has its NUL. Each is read with the text that happens to lie behind it, so
      the records come back as packed exactly if a NUL lies behind every name. */
  lemma NamesUnterminated(ms: seq<Format.Meta>, rs: seq<Record>, behind: nat -> Tail)
    requires AsPacked(ms, rs)
    ensures forall i :: 0 <= i < |rs| ==>
              Records(ms, behind)[i] == Record(rs[i].id, rs[i].parent, rs[i].name + Text(behind(i)))
    ensures Records(ms, behind) == rs <==> Stopped(behind, |rs|)
  {
    hide Text, Bytes, IsCName;
    var read := Records(ms, behind);
    forall i | 0 <= i < |rs|
      ensures read[i] == Record(rs[i].id, rs[i].parent, rs[i].name + Text(behind(i)))
      ensures read[i] == rs[i] <==> behind(i)[0] == 0
    {
      SameBytes(ms[i], rs[i]);
      TextRunsOn(rs[i].name, behind(i));
      NothingAdded(rs[i].name, Text(behind(i)));
    }
  }

  lemma SameBytes(m: Format.Meta, r: Record)
    requires MetaAsPacked(m, r)
    ensures IsCName(r.name) && m.name == Bytes(r.name) && m.id == r.id && m.parentId == r.parent
  {
  }

  lemma NothingAdded(a: string, b: string)
    ensures a + b == a <==> b == ""
  {
    assert |a + b| == |a| + |b|;
  }

  lemma ImageSize(idx: Format.Index)
    requires IndexDump.WellFormed(idx)
    ensures var n := IndexDump.Normal(IndexDump.PACKED, idx);
            |IndexDump.Image(IndexDump.PACKED, n, idx.footer.name)| < 0x8000_0000_0000_0000
  {
    hide IndexDump.MetasImage, IndexDump.NamesImage, IndexDump.FilesImage, IndexDump.Placed, IndexDump.FooterCore,
      IndexDump.HeaderImage, IndexDump.WellFormedMeta, IndexDump.WellFormedFile, Format.CopyName;
    var ms := idx.metadata;
    IndexDump.NamesOfPlaced(IndexDump.PACKED, ms, Format.META_SIZE * |ms|);
    IndexRoundTrip.PlacedSizes(ms, Format.META_SIZE * |ms|);
    IndexRoundTrip.NameBound(ms);
    IndexRoundTrip.SectionSizes(ms);
    IndexRoundTrip.FilesSize(idx.files);
  }

  /** `wows_parse_index_buffer`: a good buffer is added to the archive; of a bad one, what was read is released. */
  method ParseIndexBuffer(a: Archive, b: seq<Format.Byte>, base: nat, index: nat, behind: nat -> Tail)
    returns (parsed: Format.Parsed, error: Option<Error>, crashed: bool)
    requires |b| < 0x8000_0000_0000_0000 && base + |b| < Format.ADDRESSES
    requires a.Valid() && a.Known()
    requires match Format.Parse(b)
             case Bad(_) => true
             case Good(idx) =>
               && Uncrowded(a.metadata.ops, a.metadata.Contents, Records(idx.metadata, behind))
               && Uncrowded(a.fileMap.ops, a.fileMap.Contents, idx.files)
               && (forall m :: m in idx.metadata ==> m.id in a.ids && m.parentId in a.ids)
               && (forall f :: f in idx.files ==> f.metadataId in a.ids)
    modifies a`at, a.at.Values, a.metadata, a.metadata.buckets, a.fileMap, a.fileMap.buckets
    ensures a.Valid() && a.Known() && parsed == Format.Parse(b)
    ensures crashed <==> IndexRelease.RefusedBetween(b)
    ensures match parsed
            case Bad(_) =>
              && a.Listing() == old(a.Listing()) && a.metadata.Contents == old(a.metadata.Contents)
              && a.fileMap.Contents == old(a.fileMap.Contents)
            case Good(idx) =>
              && a.metadata.Contents == Load(old(a.metadata.Contents), Records(idx.metadata, behind))
              && a.fileMap.Contents == Filled(EntryKeys(), old(a.fileMap.Contents), idx.files)
              && Built(a.Listing(), error) == Build(old(a.Listing()), a.metadata.Contents, EntryIds(idx.files), index)
  {
    hide Linking, IsTree, ListingOf, Build, Load, Uncrowded, Text, Format.Parse, Format.HeldBy, IndexRelease.Present,
      IndexRelease.RefusedBetween, a.metadata.Valid, a.fileMap.Valid, Filled;
    error, crashed := None, false;
    IndexRelease.ReleaseExact(b);
    var held;
    parsed, held := IndexFile.MapIndexFile(b, base);
    if parsed.Good? {
      error := a.AddIndex(Records(parsed.index.metadata, behind), parsed.index.files, index);
    } else {
      var released;
      released, crashed := IndexRelease.FreeIndex(held);
    }
  }

  /** A directory is packed and its index dumped on the widths of the format: the bytes parse to the
      directory's records and file entries. */
  method PackIndex(e: Entries, top: nat, blobs: map<nat, Blob>, headerId: nat, footerId: nat, unknown7: nat,
                   package: string)
    returns (b: seq<Format.Byte>)
    requires Packable(e, top, blobs, headerId, footerId, unknown7, package)
    ensures |b| < 0x8000_0000_0000_0000
    ensures match Format.Parse(b)
            case Bad(_) => false
            case Good(idx) =>
              && AsPacked(idx.metadata, Flatten(e, top)) && EntryIds(idx.files) == FileIds(e)
              && LeadTo(idx.files, blobs, footerId) && idx.footer.id == footerId && idx.footer.unknown7 == unknown7
              && idx.footer.name == Bytes(package) + [0] && idx.footer.nameSize == |package| + 1
              && idx.header.id == headerId && idx.header.unknown2 == 0x40 && idx.header.unknown3 == 1
              && idx.header.endianness == 0x200_0000 && idx.header.headerSize == 40
              && idx.header.fileDirCount == |Flatten(e, top)| && idx.header.fileCount == |FileIds(e)|
  {
    hide LeadTo, Uncrowded, IdsOf, Flatten, FileIds, DistinctIds, DistinctTop, Format.Parse, IndexDump.WellFormed,
      IndexDump.Image, IndexDump.Placed, Depth, SiblingsDiffer, AsPacked, EntryIds, FileEntries, Metas;
    var writer := new Writer();
    writer.Write(e, top);
    var rs, files := writer.metadata, writer.files;
    ParentsInPlay(e, top);
    PackedIds(e, top);
    assert rs == Flatten(e, top) && files == FileIds(e);
    IndexIsWellFormed(rs, files, blobs, headerId, footerId, unknown7, package);
    var idx := IndexOf(rs, files, blobs, headerId, footerId, unknown7, package);
    ImageSize(idx);
    MetasSize(rs);
    b := IndexDump.DumpIndex(IndexDump.PACKED, idx, idx.footer.name);
    IndexRoundTrip.RoundTrip(idx, idx.footer.name);
    PlacedAsPacked(rs, Format.META_SIZE * |rs|);
    FilesBack(files, blobs, footerId);
  }

  lemma MetasSize(rs: seq<Record>)
    requires forall r :: r in rs ==> IsCName(r.name)
    ensures |Metas(rs)| == |rs| && forall m :: m in Metas(rs) ==> m.nameSize == |m.name|
  {
  }

  /** The index is opened in an archive of its own. If a NUL lies behind every name read, the archive then
      holds exactly the files of the directory, at their paths and under their ids, and the directories that
      have a file below them. The file map leads every file to its own data. */
  method PackAndOpen(e: Entries, top: nat, blobs: map<nat, Blob>, headerId: nat, footerId: nat, unknown7: nat,
                     package: string, base: nat, index: nat, behind: nat -> Tail)
    returns (a: Archive, error: Option<Error>)
    requires Packable(e, top, blobs, headerId, footerId, unknown7, package) && base < 0x8000_0000_0000_0000
    ensures a.Valid() && a.Known()
    ensures Stopped(behind, |Flatten(e, top)|) ==>
              && error == None
              && forall p, n :: p != [] ==>
                 (p in a.Listing() && a.Listing()[p] == n <==> NodeAt(e, p, n) && n.index == index)
    ensures forall p, id :: FileAt(e, p, id) ==>
              && id in a.fileMap.Contents && id in blobs && id in a.ids
              && var f := a.fileMap.Contents[id];
                 f.offset == blobs[id].offset && f.size == blobs[id].size && f.pkgId == blobs[id].pkgId
  {
    hide Linking, IsTree, ListingOf, Build, Load, Uncrowded, Tellable, IdsOf, Flatten, FileIds, NodeAt, DistinctIds,
      DistinctTop, Format.Parse, Depth, SiblingsDiffer, Records, AsPacked, EntryIds, IsCName, Text, LeadTo, Filled,
      BlobsFit, FileAt, IndexRelease.RefusedBetween;
    var b := PackIndex(e, top, blobs, headerId, footerId, unknown7, package);
    assert top < Format.ADDRESSES && forall r :: r in Flatten(e, top) ==> r.id < Format.ADDRESSES;
    PackedIds(e, top);
    ToldApart(e, top);
    a := new Archive(IdsOf(e, top));
    ghost var idx := Format.Parse(b).index;
    SameIdsRead(idx.metadata, Flatten(e, top), behind);
    SameEntriesRead(idx.files, FileIds(e), blobs, footerId);
    NamesUnterminated(idx.metadata, Flatten(e, top), behind);
    var parsed, crashed;
    parsed, error, crashed := ParseIndexBuffer(a, b, base, index, behind);
    PackingRoundTrip(e, top, index);
    forall p, id | FileAt(e, p, id)
      ensures id in a.fileMap.Contents && id in blobs && id in a.ids
      ensures var f := a.fileMap.Contents[id];
              f.offset == blobs[id].offset && f.size == blobs[id].size && f.pkgId == blobs[id].pkgId
    {
      FileListed(e, p, id);
      LedTo(idx.files, blobs, footerId, id);
    }
  }

  lemma {:induction false} FileListed(e: Entries, p: Path, id: nat)
    requires FileAt(e, p, id)
    ensures id in FileIds(e)
  {
    match e
    case Done =>
    case File(_, fid, more) =>
      if FileAt(more, p, id) { FileListed(more, p, id); }
      assert FileIds(e)[0] == fid;
    case Dir(_, _, inside, more) =>
      if FileAt(more, p, id) { FileListed(more, p, id); } else { FileListed(inside, p[1..], id); }
  }

  /** A file map filled with entries that lead to their data leads every file among them there. */
  lemma LedTo(fs: seq<Format.FileEntry>, blobs: map<nat, Blob>, footerId: nat, id: nat)
    requires LeadTo(fs, blobs, footerId) && id in EntryIds(fs)
    ensures var m := Filled(EntryKeys(), map[], fs);
            && id in m && id in blobs
            && m[id].offset == blobs[id].offset && m[id].size == blobs[id].size && m[id].pkgId == blobs[id].pkgId
  {
    var i :| 0 <= i < |fs| && fs[i].metadataId == id;
    FilledFinds(map[], fs, i);
  }

  /** What a key leads to in the end is an item of that key. */
  lemma {:induction false} FilledFinds(c: map<nat, Format.FileEntry>, fs: seq<Format.FileEntry>, i: nat)
    requires i < |fs| || (fs == [] && i == 0)
    ensures var m := Filled(EntryKeys(), c, fs);
            && (forall k :: k in m ==> (k in c && m[k] == c[k]) || (m[k] in fs && m[k].metadataId == k))
            && (forall k :: k in c ==> k in m)
            && (fs != [] ==> fs[i].metadataId in m)
    decreases |fs|
  {
    if fs != [] {
      FilledFinds(c[fs[0].metadataId := fs[0]], fs[1..], if i > 0 then i - 1 else 0);
    }
  }

  lemma SameEntriesRead(fs: seq<Format.FileEntry>, files: seq<nat>, blobs: map<nat, Blob>, footerId: nat)
    requires BlobsFit(files, blobs) && EntryIds(fs) == files
    requires Uncrowded(EntryKeys(), map[], FileEntries(files, blobs, footerId))
    ensures Uncrowded(EntryKeys(), map[], fs)
    ensures forall f :: f in fs ==> f.metadataId in files
  {
    hide Uncrowded;
    var packed := FileEntries(files, blobs, footerId);
    forall i | 0 <= i < |fs| ensures packed[i].metadataId == fs[i].metadataId {
      assert EntryIds(fs)[i] == files[i];
    }
    CrowdedByKeys(EntryKeys(), map[], packed, fs);
    forall f | f in fs ensures f.metadataId in files {
      var i :| 0 <= i < |fs| && fs[i] == f;
      assert EntryIds(fs)[i] == files[i];
    }
  }

  /** Whatever lies behind the names, the ids are those packed. */
  lemma SameIdsRead(ms: seq<Format.Meta>, rs: seq<Record>, behind: nat -> Tail)
    requires AsPacked(ms, rs) && Uncrowded(RecordKeys(), map[], rs)
    ensures Uncrowded(RecordKeys(), map[], Records(ms, behind))
    ensures forall m :: m in ms ==> exists r :: r in rs && r.id == m.id && r.parent == m.parentId
  {
    hide Uncrowded, Text, Bytes;
    var read := Records(ms, behind);
    NamesUnterminated(ms, rs, behind);
    forall i | 0 <= i < |rs| ensures rs[i].id == read[i].id {
      assert read[i] == Record(rs[i].id, rs[i].parent, rs[i].name + Text(behind(i)));
    }
    CrowdedByKeys(RecordKeys(), map[], rs, Records(ms, behind));
    forall m | m in ms ensures exists r :: r in rs && r.id == m.id && r.parent == m.parentId {
      var i :| 0 <= i < |ms| && ms[i] == m;
      assert rs[i] in rs;
    }
  }

  lemma FilesBack(files: seq<nat>, blobs: map<nat, Blob>, footerId: nat)
    requires forall id :: id in files ==> id in blobs
    ensures EntryIds(FileEntries(files, blobs, footerId)) == files
    ensures LeadTo(FileEntries(files, blobs, footerId), blobs, footerId)
  {
    var fs := FileEntries(files, blobs, footerId);
    forall f | f in fs ensures f.metadataId in blobs && f == FileEntryOf(f.metadataId, blobs[f.metadataId], footerId) {
      var i :| 0 <= i < |fs| && fs[i] == f;
      assert files[i] in files;
    }
  }

  lemma PackedIds(e: Entries, top: nat)
    requires forall r :: r in Flatten(e, top) ==> r.id < Format.ADDRESSES
    requires top < Format.ADDRESSES
    ensures forall r :: r in Flatten(e, top) ==>
            r.id in IdsOf(e, top) && r.parent in IdsOf(e, top) && r.parent < Format.ADDRESSES
    ensures forall id :: id in FileIds(e) ==> id in IdsOf(e, top) && id < Format.ADDRESSES
  {
    ParentsInPlay(e, top);
  }
}
