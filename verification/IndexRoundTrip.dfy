/** Reading back what the dumper wrote (lib/deflate.c:318-374, lib/index-parser.c:88-199). */
module IndexRoundTrip {
  import opened Basics
  import opened IndexFormat
  import opened IndexDump

  // ----- finding a piece inside a buffer

  /** Bytes `at..at + n` of a piece, found inside the whole. */
  lemma SliceMid(pre: seq<Byte>, x: seq<Byte>, post: seq<Byte>, at: nat, n: nat)
    requires at + n <= |x|
    ensures Slice(pre + x + post, |pre| + at, n) == Slice(x, at, n)
  {
  }

  lemma SliceSlice(b: seq<Byte>, from: nat, len: nat, at: nat, n: nat)
    requires from + len <= |b| && at + n <= len
    ensures Slice(b, from + at, n) == Slice(Slice(b, from, len), at, n)
  {
    var x := Slice(b, from, len);
    forall k | 0 <= k < n ensures Slice(b, from + at, n)[k] == Slice(x, at, n)[k] {
      assert Slice(x, at, n)[k] == x[at + k] == b[from + (at + k)];
    }
  }

  lemma Last(pre: seq<Byte>, x: seq<Byte>)
    ensures Slice(pre + x, |pre|, |x|) == x
  {
  }

  // ----- records

  lemma MetaParts(m: Meta)
    ensures Slice(MetaCore(m), 0, 8) == LeBytes(m.nameSize, 8) && Slice(MetaCore(m), 8, 8) == LeBytes(m.nameOffset, 8)
    ensures Slice(MetaCore(m), 16, 8) == LeBytes(m.id, 8) && Slice(MetaCore(m), 24, 8) == LeBytes(m.parentId, 8)
  {
    hide LeBytes;
    Last(LeBytes(m.nameSize, 8) + LeBytes(m.nameOffset, 8) + LeBytes(m.id, 8), LeBytes(m.parentId, 8));
  }

  lemma MetaBack(b: seq<Byte>, i: nat, m: Meta)
    requires HEADER_SIZE + META_SIZE * (i + 1) <= |b| && Slice(b, HEADER_SIZE + META_SIZE * i, META_SIZE) == MetaCore(m)
    requires m.nameSize < ADDRESSES && m.nameOffset < ADDRESSES && m.id < ADDRESSES && m.parentId < ADDRESSES
    ensures MetaFields(b, true, i) == m.(name := [])
  {
    hide LeNat, LeBytes, MetaCore, Slice;
    var at := HEADER_SIZE + META_SIZE * i;
    SliceSlice(b, at, META_SIZE, 0, 8);
    SliceSlice(b, at, META_SIZE, 8, 8);
    SliceSlice(b, at, META_SIZE, 16, 8);
    SliceSlice(b, at, META_SIZE, 24, 8);
    MetaParts(m);
    Le64(m.nameSize);
    Le64(m.nameOffset);
    Le64(m.id);
    Le64(m.parentId);
  }

  lemma FileParts(f: FileEntry)
    ensures var x := FileImage(PACKED, f);
            && Slice(x, 0, 8) == LeBytes(f.metadataId, 8) && Slice(x, 8, 8) == LeBytes(f.footerId, 8)
            && Slice(x, 16, 8) == LeBytes(f.offset, 8) && Slice(x, 24, 4) == LeBytes(f.type1, 4)
            && Slice(x, 28, 4) == LeBytes(f.type2, 4)
            && Slice(x, 32, 4) == LeBytes(f.size, 4) && Slice(x, 36, 8) == LeBytes(f.pkgId, 8)
  {
    hide LeBytes;
  }

  lemma FileBack(b: seq<Byte>, at: nat, f: FileEntry)
    requires at + FILE_SIZE <= |b| && Slice(b, at, FILE_SIZE) == FileImage(PACKED, f)
    requires WellFormedFile(f)
    ensures FileAt(b, true, at) == f
  {
    hide LeNat, LeBytes, FileImage, Slice;
    SliceSlice(b, at, FILE_SIZE, 0, 8);
    SliceSlice(b, at, FILE_SIZE, 8, 8);
    SliceSlice(b, at, FILE_SIZE, 16, 8);
    SliceSlice(b, at, FILE_SIZE, 24, 4);
    SliceSlice(b, at, FILE_SIZE, 28, 4);
    SliceSlice(b, at, FILE_SIZE, 32, 4);
    SliceSlice(b, at, FILE_SIZE, 36, 8);
    FileParts(f);
    Le64(f.metadataId);
    Le64(f.footerId);
    Le64(f.offset);
    Le32(f.type1);
    Le32(f.type2);
    Le32(f.size);
    Le64(f.pkgId);
  }

  lemma FooterParts(f: Footer)
    ensures Slice(FooterCore(f), 0, 8) == LeBytes(f.nameSize, 8) && Slice(FooterCore(f), 8, 8) == LeBytes(f.unknown7, 8)
    ensures Slice(FooterCore(f), 16, 8) == LeBytes(f.id, 8)
  {
    hide LeBytes;
  }

  lemma HeaderParts(h: Header)
    ensures var x := HeaderImage(h);
            && Slice(x, 0, 4) == MAGIC && Slice(x, 4, 4) == LeBytes(h.endianness, 4)
            && Slice(x, 8, 4) == LeBytes(h.id, 4)
            && Slice(x, 12, 4) == LeBytes(h.unknown2, 4) && Slice(x, 16, 4) == LeBytes(h.fileDirCount, 4)
            && Slice(x, 20, 4) == LeBytes(h.fileCount, 4) && Slice(x, 24, 8) == LeBytes(h.unknown3, 8)
            && Slice(x, 32, 8) == LeBytes(h.headerSize, 8) && Slice(x, 40, 8) == LeBytes(h.dataOffset, 8)
            && Slice(x, 48, 8) == LeBytes(h.footerOffset, 8)
  {
    hide LeBytes;
    Last(HeaderImage(h)[..48], LeBytes(h.footerOffset, 8));
  }

  /** The low half of a 64-bit image is the 32-bit image. */
  lemma LowHalf(v: nat)
    ensures Slice(LeBytes(v, 8), 0, 4) == LeBytes(v, 4)
  {
    LowBytes(v, 8, 4);
  }

  lemma {:induction false} LowBytes(v: nat, n: nat, k: nat)
    requires k <= n
    ensures LeBytes(v, n)[..k] == LeBytes(v, k)
    decreases n
  {
    if k > 0 { LowBytes(v / 256, n - 1, k - 1); }
  }

  lemma Mark()
    ensures LeBytes(0x200_0000, 4) == LE_MARK
  {
    assert LeBytes(2, 1) == [2] && LeBytes(0x200, 2) == [0, 2] && LeBytes(0x2_0000, 3) == [0, 0, 2];
  }

  /** The writer's header, read back. */
  ghost predicate HeaderFits(h: Header) {
    && h.endianness == 0x200_0000 && h.id < WORD32 && h.unknown2 < WORD32 && h.fileDirCount < WORD32
    && h.fileCount < WORD32
    && h.unknown3 < WORD32 && h.headerSize < ADDRESSES && h.dataOffset < ADDRESSES && h.footerOffset < ADDRESSES
  }

  lemma HeaderBack(h: Header, rest: seq<Byte>)
    requires HeaderFits(h)
    ensures var b := HeaderImage(h) + rest;
            Slice(b, 0, 4) == MAGIC && Slice(b, 4, 4) == LE_MARK && HeaderAt(b) == h
  {
    hide LeNat, LeBytes, HeaderImage, Slice;
    var x := HeaderImage(h);
    assert [] + x + rest == x + rest;
    SliceMid([], x, rest, 0, 4);
    SliceMid([], x, rest, 4, 4);
    SliceMid([], x, rest, 8, 4);
    SliceMid([], x, rest, 12, 4);
    SliceMid([], x, rest, 16, 4);
    SliceMid([], x, rest, 20, 4);
    SliceMid([], x, rest, 24, 4);
    SliceSlice(x, 24, 8, 0, 4);
    SliceMid([], x, rest, 32, 8);
    SliceMid([], x, rest, 40, 8);
    SliceMid([], x, rest, 48, 8);
    HeaderParts(h);
    Mark();
    LowHalf(h.unknown3);
    Le32(h.endianness);
    Le32(h.id);
    Le32(h.unknown2);
    Le32(h.fileDirCount);
    Le32(h.fileCount);
    Le32(h.unknown3);
    Le64(h.headerSize);
    Le64(h.dataOffset);
    Le64(h.footerOffset);
  }

  // ----- sections

  lemma {:induction false} SectionSizes(ms: seq<Meta>)
    requires forall m :: m in ms ==> |m.name| <= MAX_NAME
    ensures |MetasImage(PACKED, ms)| == META_SIZE * |ms| && |NamesImage(ms)| <= MAX_NAME * |ms|
    decreases |ms|
  {
    if ms != [] { SectionSizes(ms[1..]); }
  }

  lemma {:induction false} FilesSize(fs: seq<FileEntry>)
    ensures |FilesImage(PACKED, fs)| == FILE_SIZE * |fs|
    decreases |fs|
  {
    if fs != [] { FilesSize(fs[1..]); }
  }

  lemma NamesNext(ms: seq<Meta>)
    requires ms != []
    ensures NamesImage(ms) == ms[0].name + NamesImage(ms[1..])
  {
  }

  lemma PlacedHead(ms: seq<Meta>, start: nat)
    requires ms != [] && META_SIZE <= start && start + ms[0].nameSize < ADDRESSES
    ensures Placed(PACKED, ms, start)
            == [ms[0].(nameOffset := start)] + Placed(PACKED, ms[1..], start - META_SIZE + ms[0].nameSize)
  {
    hide Placed;
    assert NextStart(PACKED, start, ms[0].nameSize) == start - META_SIZE + ms[0].nameSize;
    PlacedUnfold(ms, start);
  }

  lemma PlacedUnfold(ms: seq<Meta>, start: nat)
    requires ms != []
    ensures Placed(PACKED, ms, start) ==
              [ms[0].(nameOffset := start)] + Placed(PACKED, ms[1..], NextStart(PACKED, start, ms[0].nameSize))
  {
  }

  /** Every written name offset leads from its record to that record's own name. In the buffer, `pre` are the
      header and the records already read, `names` the names already read. */
  lemma {:induction false} MetasBack(b: seq<Byte>, i: nat, n: nat, pre: seq<Byte>, ms: seq<Meta>, names: seq<Byte>,
                                     post: seq<Byte>)
    requires i + |ms| == n && |pre| == HEADER_SIZE + META_SIZE * i
    requires forall m :: m in ms ==> WellFormedMeta(m)
    requires b == pre + MetasImage(PACKED, Placed(PACKED, ms, META_SIZE * |ms| + |names|))
                  + names + NamesImage(ms) + post
    requires HEADER_SIZE + META_SIZE * n <= |b| < ADDRESSES
    ensures ParseMetas(b, true, i, n) == GoodMetas(Placed(PACKED, ms, META_SIZE * |ms| + |names|))
    decreases |ms|
  {
    hide MetaCore, MetasImage, NamesImage, Placed, CopyName, MetaFields, ParseMetas, LeBytes, NextStart, Slice;
    ParseMetasNext(b, true, i, n);
    var start := META_SIZE * |ms| + |names|;
    if ms == [] {
      EmptySections(start);
    } else {
      var m, tail := ms[0].(nameOffset := start), ms[1..];
      var names' := names + m.name;
      var rest := META_SIZE * |tail| + |names'|;
      assert ms[0] in ms && forall x :: x in tail ==> x in ms;
      NamesNext(ms);
      PlacedSizes(ms, start);
      assert |b| >= HEADER_SIZE + META_SIZE * i + start + m.nameSize;
      PlacedHead(ms, start);
      MetasHead(ms, start, rest);
      var pre' := pre + MetaCore(m);
      var behind := MetasImage(PACKED, Placed(PACKED, tail, rest));
      Shuffle(pre, MetaCore(m), behind, names, m.name, NamesImage(tail), post);
      Cut(b, pre, MetaCore(m), behind + names + m.name + NamesImage(tail) + post);
      MetaBack(b, i, m);
      PlacedSizes(tail, rest);
      Cut(b, pre' + behind + names, m.name, NamesImage(tail) + post);
      assert Target(HEADER_SIZE + META_SIZE * i, start) == |pre' + behind + names|;
      MetasBack(b, i + 1, n, pre', tail, names', post);
    }
  }

  lemma EmptySections(start: nat)
    ensures Placed(PACKED, [], start) == []
  {
  }

  lemma MetasHead(ms: seq<Meta>, start: nat, rest: nat)
    requires ms != []
    requires Placed(PACKED, ms, start) == [ms[0].(nameOffset := start)] + Placed(PACKED, ms[1..], rest)
    ensures MetasImage(PACKED, Placed(PACKED, ms, start)) ==
              MetaCore(ms[0].(nameOffset := start)) + MetasImage(PACKED, Placed(PACKED, ms[1..], rest))
  {
    hide MetaCore, Placed, NextStart;
    var p := Placed(PACKED, ms, start);
    assert p[1..] == Placed(PACKED, ms[1..], rest);
  }

  lemma {:induction false} PlacedSizes(ms: seq<Meta>, start: nat)
    ensures |MetasImage(PACKED, Placed(PACKED, ms, start))| == META_SIZE * |ms|
    decreases |ms|
  {
    if ms != [] {
      var next := NextStart(PACKED, start, ms[0].nameSize);
      PlacedSizes(ms[1..], next);
      PlacedUnfold(ms, start);
      assert Placed(PACKED, ms, start)[1..] == Placed(PACKED, ms[1..], next);
    }
  }

  lemma Shuffle<T>(pre: seq<T>, core: seq<T>, behind: seq<T>, names: seq<T>, name: seq<T>, more: seq<T>, post: seq<T>)
    ensures pre + (core + behind) + names + (name + more) + post == pre + core + (behind + names + name + more + post)
    ensures pre + (core + behind) + names + (name + more) + post == (pre + core) + behind + (names + name) + more + post
    ensures pre + (core + behind) + names + (name + more) + post
            == ((pre + core) + behind + names) + name + (more + post)
  {
  }

  lemma Cut(b: seq<Byte>, pre: seq<Byte>, x: seq<Byte>, post: seq<Byte>)
    requires b == pre + x + post
    ensures |pre| + |x| <= |b| && Slice(b, |pre|, |x|) == x
  {
  }

  lemma {:induction false} FilesBack(b: seq<Byte>, pre: seq<Byte>, fs: seq<FileEntry>, post: seq<Byte>)
    requires b == pre + FilesImage(PACKED, fs) + post && |pre| + FILE_SIZE * |fs| <= |b|
    requires forall f :: f in fs ==> WellFormedFile(f)
    ensures ParseFiles(b, true, |pre|, |fs|) == fs
    decreases |fs|
  {
    hide FileImage, FileAt, WellFormedFile, Slice;
    if fs != [] {
      var x, more := FileImage(PACKED, fs[0]), FilesImage(PACKED, fs[1..]);
      Regroup(pre, x, more, post);
      Cut(b, pre, x, more + post);
      assert fs[0] in fs;
      FileBack(b, |pre|, fs[0]);
      FilesBack(b, pre + x, fs[1..], post);
    }
  }

  /** The footer comes back with the name that the bytes behind it spell. */
  lemma FooterBack(b: seq<Byte>, pre: seq<Byte>, f: Footer, behind: seq<Byte>)
    requires b == pre + FooterCore(f) + behind && |pre| + FOOTER_SIZE <= |b|
    requires f.nameSize == |behind| <= MAX_NAME && f.unknown7 < ADDRESSES && f.id < ADDRESSES
    ensures ParseFooter(b, true, |pre|) == (f.(name := CopyName(behind)), None)
  {
    hide LeNat, LeBytes, FooterCore, CopyName, Slice;
    var x := FooterCore(f);
    SliceMid(pre, x, behind, 0, 8);
    SliceMid(pre, x, behind, 8, 8);
    SliceMid(pre, x, behind, 16, 8);
    FooterParts(f);
    Le64(f.nameSize);
    Le64(f.unknown7);
    Le64(f.id);
    AtEnd(pre, x, behind);
  }

  lemma AtEnd(pre: seq<Byte>, x: seq<Byte>, behind: seq<Byte>)
    ensures Slice(pre + x + behind, |pre| + |x|, |behind|) == behind
  {
    assert (pre + x + behind)[|pre + x|..] == behind;
  }

  lemma Regroup<T>(a: seq<T>, b: seq<T>, c: seq<T>, d: seq<T>)
    ensures a + (b + c) + d == a + b + (c + d) && a + (b + c) + d == (a + b) + c + d
  {
  }

  // ----- the round trip

  /** What the dumper writes for an index, with the given bytes behind its footer struct, comes back as that
      index, offsets filled in. */
  ghost predicate ReadsBack(l: Layout, idx: Index, behind: seq<Byte>)
    requires MetaWidth(l) <= ADDRESSES
  {
    Parse(Image(l, Normal(l, idx), behind)) == Good(Normal(l, idx))
  }

  /** What it takes: the marker of the host's byte order, and the package name behind the footer struct. */
  ghost predicate Dumpable(idx: Index, behind: seq<Byte>) {
    LittleEndian(idx) && CopyName(behind) == idx.footer.name
  }

  /** The parts of a buffer, put together. */
  lemma Assembled(b: seq<Byte>, idx: Index, data: nat, foot: nat)
    requires |b| >= HEADER_SIZE && Slice(b, 0, 4) == MAGIC && Slice(b, 4, 4) == LE_MARK && HeaderAt(b) == idx.header
    requires idx.header.fileDirCount <= MAX_COUNT
             && HEADER_SIZE + META_SIZE * idx.header.fileDirCount <= |b| < ADDRESSES
    requires ParseMetas(b, true, 0, idx.header.fileDirCount) == GoodMetas(idx.metadata)
    requires idx.header.fileCount <= MAX_COUNT && idx.header.dataOffset + SECTION_BIAS == data
    requires data + FILE_SIZE * idx.header.fileCount <= |b|
             && ParseFiles(b, true, data, idx.header.fileCount) == idx.files
    requires idx.header.footerOffset + SECTION_BIAS == foot && foot + FOOTER_SIZE <= |b|
             && ParseFooter(b, true, foot) == (idx.footer, None)
    ensures Parse(b) == Good(idx)
  {
    hide ParseMetas, ParseFiles, ParseFooter, HeaderAt, Slice;
  }

  /** On the widths of the format, an index survives if and only if it has the little-endian marker and its
      package name stands behind its footer struct: then the records of all three sections and the names are
      the same. */
  lemma RoundTrip(idx: Index, behind: seq<Byte>)
    requires WellFormed(idx) && |behind| == idx.footer.nameSize
    ensures ReadsBack(PACKED, idx, behind) <==> Dumpable(idx, behind)
  {
    hide WellFormed, CopyName, Parse, Image, Placed;
    if LittleEndian(idx) {
      LittleEndianBack(idx, behind);
    } else {
      OtherMarkerLost(idx, behind);
    }
  }

  lemma LittleEndianBack(idx: Index, behind: seq<Byte>)
    requires WellFormed(idx) && LittleEndian(idx) && |behind| == idx.footer.nameSize
    ensures var n := Normal(PACKED, idx);
            Parse(Image(PACKED, n, behind)) == Good(n.(footer := n.footer.(name := CopyName(behind))))
  {
    hide MetasImage, NamesImage, FilesImage, Placed, WellFormedMeta, WellFormedFile, CopyName, Parse, Image;
    var ms := idx.metadata;
    NamesOfPlaced(PACKED, ms, META_SIZE * |ms|);
    PlacedSizes(ms, META_SIZE * |ms|);
    NameBound(ms);
    SectionSizes(ms);
    FilesSize(idx.files);
    SectionsBack(Normal(PACKED, idx), ms, behind);
  }

  /** The sections of an image, whose header tells where they are. */
  lemma SectionsBack(n: Index, ms: seq<Meta>, behind: seq<Byte>)
    requires HeaderFits(n.header) && n.metadata == Placed(PACKED, ms, META_SIZE * |ms|)
             && NamesImage(n.metadata) == NamesImage(ms)
    requires n.header.fileDirCount == |ms| <= MAX_COUNT && n.header.fileCount == |n.files| <= MAX_COUNT
    requires (forall m :: m in ms ==> WellFormedMeta(m)) && (forall f :: f in n.files ==> WellFormedFile(f))
    requires n.footer.nameSize == |behind| <= MAX_NAME && n.footer.unknown7 < ADDRESSES && n.footer.id < ADDRESSES
    requires |MetasImage(PACKED, n.metadata)| == META_SIZE * |ms|
             && |FilesImage(PACKED, n.files)| == FILE_SIZE * |n.files|
    requires n.header.dataOffset + SECTION_BIAS == HEADER_SIZE + META_SIZE * |ms| + |NamesImage(ms)|
    requires n.header.footerOffset + SECTION_BIAS == n.header.dataOffset + SECTION_BIAS + FILE_SIZE * |n.files|
    requires |NamesImage(ms)| <= MAX_NAME * |ms|
    ensures Parse(Image(PACKED, n, behind)) == Good(n.(footer := n.footer.(name := CopyName(behind))))
  {
    hide HeaderImage, MetasImage, NamesImage, FilesImage, FooterCore, Placed, WellFormedMeta, WellFormedFile, CopyName,
      ParseMetas, ParseFiles, ParseFooter, Parse, HeaderAt, Slice, HeaderFits;
    var head, recs, names, files :=
      HeaderImage(n.header), MetasImage(PACKED, n.metadata), NamesImage(ms), FilesImage(PACKED, n.files);
    var foot := FooterCore(n.footer);
    var b := head + recs + names + files + foot + behind;
    Sections(head, recs, names, files, foot, behind);
    HeaderBack(n.header, recs + names + files + foot + behind);
    MetasBack(b, 0, |ms|, head, ms, [], files + foot + behind);
    FilesBack(b, head + recs + names, n.files, foot + behind);
    FooterBack(b, head + recs + names + files, n.footer, behind);
    Assembled(b, n.(footer := n.footer.(name := CopyName(behind))), |head + recs + names|,
              |head + recs + names + files|);
  }

  /** Behind any other marker the reader takes the header size of 40 from the wrong end. */
  lemma OtherMarkerLost(idx: Index, behind: seq<Byte>)
    requires WellFormed(idx) && !LittleEndian(idx)
    ensures !ReadsBack(PACKED, idx, behind)
  {
    hide Image, WellFormed, HeaderImage, MetasImage, NamesImage, FilesImage, Placed, LeBytes, LeNat, Slice, Parse;
    var n := Normal(PACKED, idx);
    var b := Image(PACKED, n, behind);
    assert n.header.endianness < WORD32 by { MarkerBound(idx); }
    TwoFields(PACKED, n, behind);
    Le32(n.header.endianness);
    Mark();
    Le32(0x200_0000);
    FortyReversed();
    if Parse(b) == Good(n) { ReadHeaderSize(b, n); }
  }

  lemma MarkerBound(idx: Index)
    requires WellFormed(idx)
    ensures idx.header.endianness < WORD32
  {
  }

  lemma TwoFields(l: Layout, idx: Index, behind: seq<Byte>)
    ensures |Image(l, idx, behind)| >= HEADER_SIZE
    ensures Slice(Image(l, idx, behind), 4, 4) == LeBytes(idx.header.endianness, 4)
    ensures Slice(Image(l, idx, behind), 32, 8) == LeBytes(idx.header.headerSize, 8)
  {
    hide HeaderImage, MetasImage, NamesImage, FilesImage, FooterCore, LeBytes;
    var x, rest := HeaderImage(idx.header), Image(l, idx, behind)[HEADER_SIZE..];
    assert Image(l, idx, behind) == [] + x + rest;
    HeaderParts(idx.header);
    SliceMid([], x, rest, 4, 4);
    SliceMid([], x, rest, 32, 8);
  }

  lemma FortyReversed()
    ensures LeNat(Reversed(LeBytes(40, 8))) != 40
  {
    FortyBytes();
    hide LeNat, LeBytes, Reversed;
    LowByte(Reversed(LeBytes(40, 8)));
  }

  lemma FortyBytes()
    ensures LeBytes(40, 8)[7] == 0
  {
    ZeroBytes(7);
    assert LeBytes(40, 8) == [40] + LeBytes(0, 7);
  }

  lemma {:induction false} ZeroBytes(n: nat)
    ensures forall i :: 0 <= i < n ==> LeBytes(0, n)[i] == 0
    decreases n
  {
    if n > 0 { ZeroBytes(n - 1); }
  }

  lemma ReadHeaderSize(b: seq<Byte>, idx: Index)
    requires |b| >= HEADER_SIZE && Parse(b) == Good(idx)
    ensures idx.header.headerSize == Number(Slice(b, 4, 4) == LE_MARK, Slice(b, 32, 8))
  {
    hide ParseMetas, ParseFiles, ParseFooter, Number, Slice;
  }

  lemma NameBound(ms: seq<Meta>)
    requires forall m :: m in ms ==> WellFormedMeta(m)
    ensures forall m :: m in ms ==> |m.name| <= MAX_NAME
  {
  }

  lemma Sections<T>(head: seq<T>, recs: seq<T>, names: seq<T>, files: seq<T>, foot: seq<T>, name: seq<T>)
    ensures var b := head + recs + names + files + foot + name;
            && b == head + recs + names + files + foot + [] + name
            && b == head + (recs + names + files + foot + name) && b == head + recs + [] + names + (files + foot + name)
            && b == (head + recs + names) + files + (foot + name) && b == (head + recs + names + files) + foot + name
  {
  }

  /** The offset in record `i`: the records from it on, and the names before its own. */
  lemma {:induction false} PlacedOffset(ms: seq<Meta>, before: nat, i: nat)
    requires i < |ms| && (forall m :: m in ms ==> m.nameSize == |m.name|)
    requires META_SIZE * |ms| + before + |NamesImage(ms)| < ADDRESSES
    ensures Placed(PACKED, ms, META_SIZE * |ms| + before)[i] ==
              ms[i].(nameOffset := META_SIZE * (|ms| - i) + before + |NamesImage(ms[..i])|)
    decreases i
  {
    hide Placed, NamesImage;
    var start, tail := META_SIZE * |ms| + before, ms[1..];
    assert ms[0] in ms && forall m :: m in tail ==> m in ms;
    NamesNext(ms);
    PlacedHead(ms, start);
    if i == 0 {
      assert ms[..0] == [];
      NoNames();
    } else {
      PlacedOffset(tail, before + ms[0].nameSize, i - 1);
      NamesNext(ms[..i]);
      assert ms[..i][1..] == tail[..i - 1];
    }
  }

  lemma NoNames()
    ensures NamesImage([]) == []
  {
  }

  // ----- other layouts

  /** An index that holds nothing but the given records. */
  function Bare(ms: seq<Meta>, fs: seq<FileEntry>, name: seq<Byte>): Index {
    Index(Header(0x200_0000, 0, 0, |ms|, |fs|, 0, 0, 0, 0), ms, fs, Footer(|name|, 0, 0, name))
  }

  function BareMeta(name: seq<Byte>): Meta {
    Meta(|name|, 0, 0, 0, name)
  }

  function BareFile(metadataId: nat, pkgId: nat): FileEntry {
    FileEntry(metadataId, 0, 0, 0, 0, 0, pkgId)
  }

  lemma LowByte(bs: seq<Byte>)
    requires bs != []
    ensures LeNat(bs) % 256 == bs[0]
  {
    LeNatNext(bs);
    hide LeNat;
    Remainder256(bs[0], LeNat(bs[1..]));
  }

  lemma LeNatNext(bs: seq<Byte>)
    requires bs != []
    ensures LeNat(bs) == bs[0] + 256 * LeNat(bs[1..])
  {
  }

  lemma Remainder256(x: Byte, q: nat)
    ensures (x + 256 * q) % 256 == x
  {
  }

  /** A byte other than the given one. */
  function Other(x: Byte): (r: Byte)
    ensures r != x && r <= 1
  {
    if x == 0 then 1 else 0
  }

  /** A buffer that starts with the header of a little-endian index. */
  ghost predicate Starts(b: seq<Byte>, rest: seq<Byte>) {
    |b| == HEADER_SIZE + |rest| && b[HEADER_SIZE..] == rest && Slice(b, 4, 4) == LE_MARK
  }

  lemma Marked(h: Header, rest: seq<Byte>)
    requires h.endianness == 0x200_0000
    ensures Starts(HeaderImage(h) + rest, rest)
  {
    hide HeaderImage;
    HeaderParts(h);
    Mark();
    SliceMid([], HeaderImage(h), rest, 4, 4);
    assert [] + HeaderImage(h) + rest == HeaderImage(h) + rest;
  }

  /** Where each part of a parsed index was read. */
  lemma ReadFrom(b: seq<Byte>, idx: Index)
    requires |b| >= HEADER_SIZE && Slice(b, 4, 4) == LE_MARK && Parse(b) == Good(idx)
    ensures HEADER_SIZE + META_SIZE * idx.header.fileDirCount <= |b|
    ensures ParseMetas(b, true, 0, idx.header.fileDirCount) == GoodMetas(idx.metadata)
    ensures var data := Target(idx.header.dataOffset, SECTION_BIAS);
            Inside(b, data, FILE_SIZE * idx.header.fileCount)
              && idx.files == ParseFiles(b, true, data, idx.header.fileCount)
    ensures var foot := Target(idx.header.footerOffset, SECTION_BIAS);
            Inside(b, foot, FOOTER_SIZE) && ParseFooter(b, true, foot) == (idx.footer, None)
  {
    hide ParseMetas, ParseFiles, ParseFooter, HeaderAt;
    assert Parse(b) == ParseRest(b, true, HeaderAt(b), idx.metadata);
  }

  lemma SecondMeta(b: seq<Byte>, rest: seq<Byte>, idx: Index)
    requires Starts(b, rest) && Parse(b) == Good(idx) && idx.header.fileDirCount == 2
    ensures |rest| > 32 && |idx.metadata| == 2 && idx.metadata[1].nameSize % 256 == rest[32]
  {
    hide Parse, ParseFiles, ParseFooter, LeNat, CopyName, ParseMetas;
    ReadFrom(b, idx);
    ParseMetasNext(b, true, 0, 2);
    ParseMetasNext(b, true, 1, 2);
    ParseMetasNext(b, true, 2, 2);
    LowByte(Slice(b, 88, 8));
  }

  lemma FirstPackage(b: seq<Byte>, rest: seq<Byte>, idx: Index)
    requires Starts(b, rest) && Parse(b) == Good(idx) && idx.header.fileCount == 1 && idx.header.dataOffset == 40
    ensures |rest| > 36 && |idx.files| == 1 && idx.files[0].pkgId % 256 == rest[36]
  {
    hide Parse, ParseMetas, ParseFooter, LeNat, ParseFiles;
    ReadFrom(b, idx);
    ParseFilesNext(b, true, 56, 1);
    ParseFilesNext(b, true, 104, 0);
    LowByte(Slice(b, 92, 8));
  }

  lemma SecondFile(b: seq<Byte>, rest: seq<Byte>, idx: Index)
    requires Starts(b, rest) && Parse(b) == Good(idx) && idx.header.fileCount == 2 && idx.header.dataOffset == 40
    ensures |rest| > 48 && |idx.files| == 2 && idx.files[1].metadataId % 256 == rest[48]
  {
    hide Parse, ParseMetas, ParseFooter, LeNat, ParseFiles;
    ReadFrom(b, idx);
    ParseFilesNext(b, true, 56, 2);
    ParseFilesNext(b, true, 104, 1);
    ParseFilesNext(b, true, 152, 0);
    LowByte(Slice(b, 104, 8));
  }

  lemma PackageName(b: seq<Byte>, rest: seq<Byte>, idx: Index)
    requires Starts(b, rest) && Parse(b) == Good(idx) && idx.header.footerOffset == 40 && idx.footer.nameSize == 1
    ensures |rest| > 24 && idx.footer.name == [rest[24]]
  {
    hide Parse, ParseMetas, ParseFiles, LeNat;
    ReadFrom(b, idx);
    assert Slice(b, 80, 1) == [rest[24]];
  }

  /** Placing changes nothing but offsets. */
  lemma {:induction false} PlacedKeeps(l: Layout, ms: seq<Meta>, start: nat)
    requires MetaWidth(l) <= ADDRESSES
    ensures forall i :: 0 <= i < |ms| ==>
            ms[i].(nameOffset := Placed(l, ms, start)[i].nameOffset) == Placed(l, ms, start)[i]
    decreases |ms|
  {
    if ms != [] { PlacedKeeps(l, ms[1..], NextStart(l, start, ms[0].nameSize)); }
  }

  /** A pointer behind the metadata records: the second record is read from it. */
  lemma MetaTailLost(l: Layout, idx: Index)
    requires l.metaTail != [] && MetaWidth(l) <= ADDRESSES
    requires idx == Bare([BareMeta([]), BareMeta(if Other(l.metaTail[0]) == 0 then [] else [65])], [], [])
    ensures WellFormed(idx) && !ReadsBack(l, idx, idx.footer.name)
  {
    hide HeaderImage, MetaCore, FooterCore, NamesImage, FilesImage, Parse, LeBytes;
    var n := Normal(l, idx);
    var ms := n.metadata;
    PlacedKeeps(l, idx.metadata, MetaWidth(l) * 2);
    var tail := MetasImage(l, ms[1..]) + NamesImage(ms) + FilesImage(l, n.files)
                + FooterCore(n.footer) + l.footerTail + n.footer.name;
    var rest := MetaCore(ms[0]) + l.metaTail + tail;
    assert Image(l, n, n.footer.name) == HeaderImage(n.header) + rest;
    Marked(n.header, rest);
    assert rest[32] == l.metaTail[0];
    assert ms[1].nameSize % 256 != rest[32];
    if Parse(Image(l, n, n.footer.name)) == Good(n) { SecondMeta(Image(l, n, n.footer.name), rest, n); }
  }

  /** Padding inside a data entry: the package id is read from it. */
  lemma FileGapLost(l: Layout, idx: Index)
    requires l.fileGap != [] && MetaWidth(l) <= ADDRESSES
    requires idx == Bare([], [BareFile(0, Other(l.fileGap[0]))], [])
    ensures WellFormed(idx) && !ReadsBack(l, idx, idx.footer.name)
  {
    hide HeaderImage, FooterCore, FileImage, Parse, LeBytes;
    var n, x := Normal(l, idx), FileImage(l, idx.files[0]);
    assert FilesImage(l, n.files[1..]) == [];
    var rest := x + FooterCore(n.footer) + l.footerTail;
    assert Image(l, n, n.footer.name) == HeaderImage(n.header) + rest;
    Marked(n.header, rest);
    FileBytes(l, idx.files[0]);
    if Parse(Image(l, n, n.footer.name)) == Good(n) { FirstPackage(Image(l, n, n.footer.name), rest, n); }
  }

  lemma FileBytes(l: Layout, f: FileEntry)
    ensures l.fileGap != [] ==> FileImage(l, f)[36] == l.fileGap[0]
    ensures l.fileGap == [] && l.fileTail != [] ==> FileImage(l, f)[48] == l.fileTail[0]
  {
    hide LeBytes;
  }

  /** Padding behind a data entry: the next entry is read from it. */
  lemma FileTailLost(l: Layout, idx: Index)
    requires l.fileGap == [] && l.fileTail != [] && MetaWidth(l) <= ADDRESSES
    requires idx == Bare([], [BareFile(0, 0), BareFile(Other(l.fileTail[0]), 0)], [])
    ensures WellFormed(idx) && !ReadsBack(l, idx, idx.footer.name)
  {
    hide HeaderImage, FooterCore, FileImage, Parse, LeBytes;
    var n, x := Normal(l, idx), FileImage(l, idx.files[0]);
    var rest := x + FilesImage(l, idx.files[1..]) + FooterCore(n.footer) + l.footerTail;
    assert Image(l, n, n.footer.name) == HeaderImage(n.header) + rest;
    Marked(n.header, rest);
    FileBytes(l, idx.files[0]);
    if Parse(Image(l, n, n.footer.name)) == Good(n) { SecondFile(Image(l, n, n.footer.name), rest, n); }
  }

  /** A pointer behind the footer: the package name is read from it. */
  lemma FooterTailLost(l: Layout, idx: Index)
    requires l.footerTail != [] && MetaWidth(l) <= ADDRESSES
    requires idx == Bare([], [], [Other(l.footerTail[0])])
    ensures WellFormed(idx) && !ReadsBack(l, idx, idx.footer.name)
  {
    hide HeaderImage, FooterCore, Parse, LeBytes;
    var n := Normal(l, idx);
    var rest := FooterCore(n.footer) + l.footerTail + n.footer.name;
    assert Image(l, n, n.footer.name) == HeaderImage(n.header) + rest;
    Marked(n.header, rest);
    assert rest[24] == l.footerTail[0];
    if Parse(Image(l, n, n.footer.name)) == Good(n) { PackageName(Image(l, n, n.footer.name), rest, n); }
  }

  /** On any layout, the reader takes the package name from whatever stands behind its 24 bytes of footer: an
      index comes back only if the pointer in the struct and the bytes behind it begin with its name. */
  lemma PackageNameRead(l: Layout, idx: Index, behind: seq<Byte>)
    requires MetaWidth(l) <= ADDRESSES && |behind| == idx.footer.nameSize
    requires |Image(l, Normal(l, idx), behind)| < ADDRESSES && ReadsBack(l, idx, behind)
    ensures CopyName((l.footerTail + behind)[..idx.footer.nameSize]) == idx.footer.name
  {
    hide HeaderImage, MetasImage, NamesImage, FilesImage, FooterCore, Placed, CopyName, Parse, ParseMetas, Number,
      Slice;
    var n := Normal(l, idx);
    var b := Image(l, n, behind);
    var front := HeaderImage(n.header) + MetasImage(l, n.metadata) + NamesImage(n.metadata) + FilesImage(l, n.files);
    FooterFrom(b, n, |front|);
    var x := FooterCore(n.footer) + (l.footerTail + behind);
    assert b == front + x + [];
    SliceMid(front, x, [], FOOTER_SIZE, idx.footer.nameSize);
    Drop(FooterCore(n.footer), l.footerTail + behind, idx.footer.nameSize);
  }

  lemma FooterFrom(b: seq<Byte>, idx: Index, at: nat)
    requires Parse(b) == Good(idx) && at < ADDRESSES && idx.header.footerOffset + SECTION_BIAS == at
    ensures at + FOOTER_SIZE + idx.footer.nameSize <= |b|
    ensures idx.footer.name == CopyName(Slice(b, at + FOOTER_SIZE, idx.footer.nameSize))
  {
    hide ParseMetas, ParseFiles, Number, Slice, CopyName, HeaderAt;
  }

  lemma Drop(x: seq<Byte>, y: seq<Byte>, n: nat)
    requires n <= |y|
    ensures Slice(x + y, |x|, n) == y[..n]
  {
  }

  /** Dumping and reading give an index back exactly when it is dumpable: this holds of all indexes if and
      only if the structs are as wide as the records of the format. */
  lemma RoundTripExactly(l: Layout)
    requires MetaWidth(l) <= ADDRESSES
    ensures (forall idx, behind :: WellFormed(idx) && |behind| == idx.footer.nameSize ==>
              (ReadsBack(l, idx, behind) <==> Dumpable(idx, behind)))
            <==> l == PACKED
  {
    hide ReadsBack;
    if l == PACKED {
      forall idx, behind | WellFormed(idx) && |behind| == idx.footer.nameSize
        ensures ReadsBack(l, idx, behind) <==> Dumpable(idx, behind)
      {
        RoundTrip(idx, behind);
      }
    } else if l.metaTail != [] {
      MetaTailLost(l, Bare([BareMeta([]), BareMeta(if Other(l.metaTail[0]) == 0 then [] else [65])], [], []));
    } else if l.fileGap != [] {
      FileGapLost(l, Bare([], [BareFile(0, Other(l.fileGap[0]))], []));
    } else if l.fileTail != [] {
      FileTailLost(l, Bare([], [BareFile(0, 0), BareFile(Other(l.fileTail[0]), 0)], []));
    } else {
      FooterTailLost(l, Bare([], [], [Other(l.footerTail[0])]));
    }
  }

  // ----- what the reader can hold

  lemma NumberBound(le: bool, bs: seq<Byte>)
    ensures |bs| == 4 ==> Number(le, bs) < WORD32
    ensures |bs| == 8 ==> Number(le, bs) < ADDRESSES
  {
    LeBound(if le then bs else Reversed(bs));
    assert Pow256(4) == WORD32 && Pow256(8) == ADDRESSES;
  }

  lemma {:induction false} CopiedOnce(bs: seq<Byte>)
    ensures CopyName(CopyName(bs)) == CopyName(bs)
  {
    if bs != [] && bs[0] != 0 {
      CopiedOnce(bs[1..]);
      assert CopyName(bs)[1..] == CopyName(bs[1..]);
    } else if bs != [] {
      assert CopyName(bs)[0] == 0;
    }
  }

  lemma MetaHeld(b: seq<Byte>, le: bool, i: nat)
    requires HEADER_SIZE + META_SIZE * (i + 1) <= |b|
    ensures var m := MetaFields(b, le, i);
            m.id < ADDRESSES && m.parentId < ADDRESSES
  {
    hide Number, Slice;
    NumberBound(le, Slice(b, HEADER_SIZE + META_SIZE * i + 16, 8));
    NumberBound(le, Slice(b, HEADER_SIZE + META_SIZE * i + 24, 8));
  }

  lemma {:induction false} MetasHeld(b: seq<Byte>, le: bool, i: nat, n: nat, ms: seq<Meta>)
    requires i <= n && HEADER_SIZE + META_SIZE * n <= |b| && ParseMetas(b, le, i, n) == GoodMetas(ms)
    ensures |ms| == n - i && forall m :: m in ms ==> WellFormedMeta(m)
    decreases n - i
  {
    hide ParseMetas, MetaFields, CopyName, Slice, Target;
    ParseMetasNext(b, le, i, n);
    if i < n {
      MetaHeld(b, le, i);
      var m := MetaFields(b, le, i);
      var at := Target(HEADER_SIZE + META_SIZE * i, m.nameOffset);
      CopiedOnce(Slice(b, at, m.nameSize));
      assert ms == [ms[0]] + ms[1..];
      MetasHeld(b, le, i + 1, n, ms[1..]);
    }
  }

  lemma FileHeld(b: seq<Byte>, le: bool, at: nat)
    requires at + FILE_SIZE <= |b|
    ensures WellFormedFile(FileAt(b, le, at))
  {
    hide Number, Slice;
    NumberBound(le, Slice(b, at, 8));
    NumberBound(le, Slice(b, at + 8, 8));
    NumberBound(le, Slice(b, at + 16, 8));
    NumberBound(le, Slice(b, at + 24, 4));
    NumberBound(le, Slice(b, at + 28, 4));
    NumberBound(le, Slice(b, at + 32, 4));
    NumberBound(le, Slice(b, at + 36, 8));
  }

  lemma {:induction false} FilesHeld(b: seq<Byte>, le: bool, at: nat, n: nat)
    requires at + FILE_SIZE * n <= |b|
    ensures |ParseFiles(b, le, at, n)| == n && forall f :: f in ParseFiles(b, le, at, n) ==> WellFormedFile(f)
    decreases n
  {
    hide FileAt, WellFormedFile;
    if n > 0 {
      FileHeld(b, le, at);
      FilesHeld(b, le, at + FILE_SIZE, n - 1);
    }
  }

  lemma FooterHeld(b: seq<Byte>, le: bool, at: nat, f: Footer)
    requires at + FOOTER_SIZE <= |b| && ParseFooter(b, le, at) == (f, None)
    ensures f.nameSize == |f.name| <= MAX_NAME && CopyName(f.name) == f.name && f.unknown7 < ADDRESSES
            && f.id < ADDRESSES
  {
    hide Number, Slice, CopyName;
    NumberBound(le, Slice(b, at + 8, 8));
    NumberBound(le, Slice(b, at + 16, 8));
    CopiedOnce(Slice(b, at + FOOTER_SIZE, f.nameSize));
  }

  lemma HeaderHeld(b: seq<Byte>)
    requires |b| >= HEADER_SIZE
    ensures var h := HeaderAt(b);
            h.endianness < WORD32 && h.id < WORD32 && h.unknown3 < WORD32
  {
    hide LeNat, Slice, Reversed;
    var le := Slice(b, 4, 4) == LE_MARK;
    NumberBound(true, Slice(b, 4, 4));
    NumberBound(le, Slice(b, 8, 4));
    NumberBound(le, Slice(b, 24, 4));
  }

  /** Whatever is parsed is well-formed. */
  lemma ParsedIsWellFormed(b: seq<Byte>, idx: Index)
    requires Parse(b) == Good(idx)
    ensures WellFormed(idx)
  {
    hide ParseMetas, ParseFiles, ParseFooter, HeaderAt, WellFormedMeta, WellFormedFile, CopyName, Slice;
    var le := Slice(b, 4, 4) == LE_MARK;
    HeaderHeld(b);
    MetasHeld(b, le, 0, idx.header.fileDirCount, idx.metadata);
    FilesHeld(b, le, Target(idx.header.dataOffset, SECTION_BIAS), idx.header.fileCount);
    FooterHeld(b, le, Target(idx.header.footerOffset, SECTION_BIAS), idx.footer);
  }

  lemma {:induction false} BytesBack(bs: seq<Byte>)
    ensures LeBytes(LeNat(bs), |bs|) == bs
    decreases |bs|
  {
    if bs != [] {
      BytesBack(bs[1..]);
      assert LeNat(bs) % 256 == bs[0] && LeNat(bs) / 256 == LeNat(bs[1..]);
    }
  }

  /** What was read from any buffer can be dumped and read again if and only if it was read as little-endian
      and the bytes behind the new footer struct spell the package name. The reader keeps the name elsewhere,
      so what is there is for the heap to say. */
  lemma Redumped(b: seq<Byte>, idx: Index, behind: seq<Byte>)
    requires Parse(b) == Good(idx) && |behind| == idx.footer.nameSize
    ensures |b| >= HEADER_SIZE
    ensures ReadsBack(PACKED, idx, behind) <==> Slice(b, 4, 4) == LE_MARK && CopyName(behind) == idx.footer.name
  {
    hide ReadsBack, LeNat, LeBytes, WellFormed, Slice, ParseMetas, ParseFiles, ParseFooter, Number, CopyName;
    ParsedIsWellFormed(b, idx);
    RoundTrip(idx, behind);
    BytesBack(Slice(b, 4, 4));
    Mark();
    Le32(0x200_0000);
  }

  /** Whatever is there: so it is certain to come back if and only if it was read as little-endian and its
      package name is empty. */
  lemma RedumpedSurely(b: seq<Byte>, idx: Index)
    requires Parse(b) == Good(idx)
    ensures |b| >= HEADER_SIZE
    ensures (forall behind :: |behind| == idx.footer.nameSize ==> ReadsBack(PACKED, idx, behind)) <==>
              Slice(b, 4, 4) == LE_MARK && idx.footer.nameSize == 0
  {
    hide ReadsBack, Slice, Parse, WellFormedMeta, WellFormedFile;
    ParsedIsWellFormed(b, idx);
    var name := idx.footer.name;
    Redumped(b, idx, name);
    if idx.footer.nameSize > 0 {
      var other := [Other(name[0])] + name[1..];
      Redumped(b, idx, other);
      assert CopyName(other)[0] != name[0];
    } else {
      forall behind: seq<Byte> | |behind| == idx.footer.nameSize ensures behind == name {}
    }
  }
}
