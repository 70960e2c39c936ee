/** Reading and writing index files (lib/index-parser.c map_index_file, lib/memory-helpers.c
    checkOutOfIndex, lib/deflate.c wows_dump_index_to_file). Addresses are computed modulo 2^64, and
    every load has to show that its bytes lie in the buffer. */
module IndexFile {
  import opened Basics
  import opened IndexFormat

  /** `checkOutOfIndex` for the buffer [lo, hi). */
  predicate CheckOutOfIndex(start: nat, end: nat, lo: nat, hi: nat) {
    if lo > start || hi < start then true
    else lo > end || hi < end
  }

  /** On the `n` bytes from `start`, the check says whether they lie in [lo, hi). */
  predicate Decides(start: nat, n: nat, lo: nat, hi: nat) {
    !CheckOutOfIndex(start, (start + n) % ADDRESSES, lo, hi) <==> lo <= start && start + n <= hi
  }

  /** The range check, its end address wrapping, decides containment for every start address exactly
      when the range and the buffer together are shorter than the address space. */
  lemma CheckExact(lo: nat, hi: nat, n: nat)
    requires lo <= hi < ADDRESSES && n < ADDRESSES
    ensures (forall start: nat :: start < ADDRESSES ==> Decides(start, n, lo, hi)) <==> n + (hi - lo) < ADDRESSES
  {
    if n + (hi - lo) >= ADDRESSES {
      var start := lo + ADDRESSES - n;
      assert (start + n) % ADDRESSES == lo;
      assert !Decides(start, n, lo, hi);
    } else {
      forall start: nat | start < ADDRESSES ensures Decides(start, n, lo, hi) {
        CheckedRange(start, n, lo, hi);
      }
    }
  }

  lemma CheckedRange(start: nat, n: nat, lo: nat, hi: nat)
    requires lo <= hi < ADDRESSES && start < ADDRESSES && n + (hi - lo) < ADDRESSES
    ensures Decides(start, n, lo, hi)
  {
    if start + n >= ADDRESSES { assert (start + n) % ADDRESSES == start + n - ADDRESSES; }
  }

  /** The same in offsets from the start of the buffer. */
  lemma CheckedTarget(b: seq<Byte>, base: nat, at: nat, offset: nat, n: nat)
    requires base + |b| < ADDRESSES && n + |b| < ADDRESSES
    ensures var start := (base + at + offset) % ADDRESSES;
            && (!CheckOutOfIndex(start, (start + n) % ADDRESSES, base, base + |b|) <==>
                Inside(b, Target(at, offset), n))
            && (Inside(b, Target(at, offset), n) ==> start == base + Target(at, offset))
  {
    var start, o := (base + at + offset) % ADDRESSES, Target(at, offset);
    CheckedRange(start, n, base, base + |b|);
    Shift(base, at + offset);
    if base + o < ADDRESSES {
      assert start == base + o;
    } else {
      assert start == base + o - ADDRESSES;
    }
  }

  lemma Shift(base: nat, x: nat)
    requires base < ADDRESSES
    ensures var y := base + x % ADDRESSES;
            (base + x) % ADDRESSES == if y < ADDRESSES then y else y - ADDRESSES
  {
    var q, r := x / ADDRESSES, x % ADDRESSES;
    assert base + x == ADDRESSES * q + (base + r);
    if base + r < ADDRESSES { Remainder(q, base + r); } else { Remainder(q + 1, base + r - ADDRESSES); }
  }

  lemma Remainder(q: nat, r: nat)
    requires r < ADDRESSES
    ensures (ADDRESSES * q + r) % ADDRESSES == r
  {
  }

  /** The `n` bytes at an address, which must be in the buffer. */
  function Load(b: seq<Byte>, base: nat, addr: nat, n: nat): seq<Byte>
    requires base <= addr && addr + n <= base + |b|
  {
    Slice(b, addr - base, n)
  }

  /** A 32-bit product of a count and a record size. */
  function Product32(count: nat, size: nat): nat {
    (count * size) % WORD32
  }

  /** One record of the metadata section, and a copy of its name. */
  method ReadMeta(b: seq<Byte>, base: nat, le: bool, i: nat) returns (meta: Meta, error: Option<Error>)
    requires base + |b| < ADDRESSES && |b| + MAX_NAME < ADDRESSES
    requires HEADER_SIZE + META_SIZE * (i + 1) <= |b|
    ensures var m, at := MetaFields(b, le, i), Target(HEADER_SIZE + META_SIZE * i, MetaFields(b, le, i).nameOffset);
            if m.nameSize > MAX_NAME then error == Some(PathTooLong)
            else if !Inside(b, at, m.nameSize) then error == Some(CorruptedFile)
            else error == None && meta == m.(name := CopyName(Slice(b, at, m.nameSize)))
  {
    hide Number, Target, CheckOutOfIndex, CopyName;
    var section, offset := base + HEADER_SIZE, i * META_SIZE;
    var nameSize := Number(le, Load(b, base, section + offset, 8));
    var nameOffset := Number(le, Load(b, base, section + offset + 8, 8));
    var id := Number(le, Load(b, base, section + offset + 16, 8));
    var parentId := Number(le, Load(b, base, section + offset + 24, 8));
    meta := Meta(nameSize, nameOffset, id, parentId, []);
    if nameSize > MAX_NAME { return meta, Some(PathTooLong); }
    var src := (section + offset + nameOffset) % ADDRESSES;
    CheckedTarget(b, base, HEADER_SIZE + META_SIZE * i, nameOffset, nameSize);
    if CheckOutOfIndex(src, (src + nameSize) % ADDRESSES, base, base + |b|) { return meta, Some(CorruptedFile); }
    return meta.(name := CopyName(Load(b, base, src, nameSize))), None;
  }

  /** The metadata loop of `map_index_file`. The names copied are in an array of their own, where null stands
      for those of records not yet read. */
  method ReadMetas(b: seq<Byte>, base: nat, le: bool, count: nat)
    returns (metas: array<Meta>, names: array<Option<seq<Byte>>>, error: Option<Error>)
    requires base + |b| < ADDRESSES && |b| + MAX_NAME < ADDRESSES
    requires count <= MAX_COUNT && HEADER_SIZE + META_SIZE * count <= |b|
    ensures match error
            case Some(e) => ParseMetas(b, le, 0, count) == BadMeta(e)
            case None => ParseMetas(b, le, 0, count) == GoodMetas(metas[..])
    ensures names[..] == NamesRead(b, le, 0, count)
  {
    hide MetaFields, Target, Inside, ParseMetas, NamesRead, CopyName, Prepended;
    PrependedNone(ParseMetas(b, le, 0, count));
    metas := new Meta[count];
    names := new Option<seq<Byte>>[count](_ => None);
    for i := 0 to count
      invariant ParseMetas(b, le, 0, count) == Prepended(metas[..i], ParseMetas(b, le, i, count))
      invariant names[..i] + NamesRead(b, le, i, count) == NamesRead(b, le, 0, count)
      invariant forall k :: i <= k < count ==> names[k] == None
    {
      ParseMetasNext(b, le, i, count);
      NamesReadNext(b, le, i, count);
      PrependedBad(metas[..i]);
      var meta;
      meta, error := ReadMeta(b, base, le, i);
      if error.Some? {
        RestNull(names[..], i);
        return;
      }
      metas[i], names[i] := meta, Some(meta.name);
      assert names[..i + 1] == names[..i] + [names[i]];
      Regroup(names[..i], names[i], NamesRead(b, le, i + 1, count));
      assert metas[..i + 1] == metas[..i] + [metas[i]];
      PrependedOne(metas[..i], metas[i], ParseMetas(b, le, i + 1, count));
    }
    ParseMetasNext(b, le, count, count);
    NamesReadNext(b, le, count, count);
    PrependedGood(metas[..count]);
    assert metas[..] == metas[..count] && names[..] == names[..count];
    error := None;
  }

  lemma RestNull<T>(names: seq<Option<T>>, i: nat)
    requires i <= |names| && forall k :: i <= k < |names| ==> names[k] == None
    ensures names[..i] + seq(|names| - i, _ => None) == names
  {
  }

  lemma PrependedNone(r: ParsedMetas)
    ensures Prepended([], r) == r
  {
    if r.GoodMetas? { assert [] + r.metas == r.metas; }
  }

  lemma PrependedBad(done: seq<Meta>)
    ensures forall e :: Prepended(done, BadMeta(e)) == BadMeta(e)
  {
  }

  lemma PrependedGood(done: seq<Meta>)
    ensures Prepended(done, GoodMetas([])) == GoodMetas(done)
  {
    assert done + [] == done;
  }

  lemma PrependedOne(done: seq<Meta>, m: Meta, rest: ParsedMetas)
    ensures Prepended(done, Prepended([m], rest)) == Prepended(done + [m], rest)
  {
    if rest.GoodMetas? { assert done + ([m] + rest.metas) == done + [m] + rest.metas; }
  }

  /** The data entry loop. */
  method ReadFiles(b: seq<Byte>, base: nat, le: bool, section: nat, count: nat) returns (files: array<FileEntry>)
    requires base <= section && section + FILE_SIZE * count <= base + |b|
    ensures files[..] == ParseFiles(b, le, section - base, count)
  {
    hide Number, ParseFiles;
    files := new FileEntry[count];
    for i := 0 to count
      invariant files[..i] + ParseFiles(b, le, section - base + FILE_SIZE * i, count - i)
                == ParseFiles(b, le, section - base, count)
    {
      var at := section + i * FILE_SIZE;
      ParseFilesNext(b, le, at - base, count - i);
      files[i] := FileEntry(
        Number(le, Load(b, base, at, 8)), Number(le, Load(b, base, at + 8, 8)), Number(le, Load(b, base, at + 16, 8)),
        Number(le, Load(b, base, at + 24, 4)), Number(le, Load(b, base, at + 28, 4)),
        Number(le, Load(b, base, at + 32, 4)),
        Number(le, Load(b, base, at + 36, 8)));
      assert files[..i + 1] == files[..i] + [files[i]];
      Regroup(files[..i], files[i], ParseFiles(b, le, at - base + FILE_SIZE, count - i - 1));
    }
    ParseFilesNext(b, le, section - base + FILE_SIZE * count, 0);
    assert files[..] == files[..count];
  }

  lemma Regroup<T>(a: seq<T>, x: T, b: seq<T>)
    ensures a + ([x] + b) == a + [x] + b
  {
  }

  /** The header and the checks on it. */
  method ReadHeader(b: seq<Byte>, base: nat) returns (le: bool, header: Header, error: Option<Error>)
    requires base + |b| < ADDRESSES && |b| + MAX_COUNT * FILE_SIZE < ADDRESSES
    ensures match error
            case Some(e) => Parse(b) == Bad(e) && HeldBy(b) == Held(header.fileDirCount, None)
            case None =>
              && |b| >= HEADER_SIZE && header == HeaderAt(b) && le == (Slice(b, 4, 4) == LE_MARK)
              && header.fileDirCount <= MAX_COUNT && header.fileCount <= MAX_COUNT
              && HEADER_SIZE + META_SIZE * header.fileDirCount <= |b|
              && Parse(b) == ParseBehind(b, le, header, ParseMetas(b, le, 0, header.fileDirCount))
              && HeldBy(b) == Held(header.fileDirCount, Some(NamesRead(b, le, 0, header.fileDirCount)))
  {
    hide Number, ParseMetas, NamesRead, ParseBehind;
    header, le := Header(0, 0, 0, 0, 0, 0, 0, 0, 0), false;
    CheckedRange(base, HEADER_SIZE, base, base + |b|);
    if CheckOutOfIndex(base, (base + HEADER_SIZE) % ADDRESSES, base, base + |b|) {
      return le, header, Some(CorruptedFile);
    }
    if Load(b, base, base, 4) != MAGIC { return le, header, Some(BadMagic); }
    le := Load(b, base, base + 4, 4) == LE_MARK;
    header := Header(
      LeNat(Load(b, base, base + 4, 4)),
      Number(le, Load(b, base, base + 8, 4)), Number(le, Load(b, base, base + 12, 4)),
      Number(le, Load(b, base, base + 16, 4)),
      Number(le, Load(b, base, base + 20, 4)), Number(le, Load(b, base, base + 24, 4)),
      Number(le, Load(b, base, base + 32, 8)),
      Number(le, Load(b, base, base + 40, 8)), Number(le, Load(b, base, base + 48, 8)));
    if header.fileDirCount > MAX_COUNT { return le, header, Some(MaxFile); }
    if header.fileCount > MAX_COUNT { return le, header, Some(MaxFile); }
    var section := base + HEADER_SIZE;
    var bytes := Product32(header.fileDirCount, META_SIZE);
    CheckedRange(section, bytes, base, base + |b|);
    if CheckOutOfIndex(section, (section + bytes) % ADDRESSES, base, base + |b|) {
      return le, header, Some(CorruptedFile);
    }
    error := None;
  }

  /** The footer record and the package name behind it. */
  method ReadFooter(b: seq<Byte>, base: nat, le: bool, foot: nat) returns (footer: Footer, error: Option<Error>)
    requires base + |b| < ADDRESSES && |b| + MAX_NAME < ADDRESSES
    requires base <= foot && foot + FOOTER_SIZE <= base + |b|
    ensures (footer, error) == ParseFooter(b, le, foot - base)
  {
    hide Number, CopyName;
    var nameSize := Number(le, Load(b, base, foot, 8));
    var unknown7 := Number(le, Load(b, base, foot + 8, 8));
    var id := Number(le, Load(b, base, foot + 16, 8));
    footer := Footer(nameSize, unknown7, id, []);
    if nameSize > MAX_NAME { return footer, Some(PathTooLong); }
    var src := foot + FOOTER_SIZE;
    CheckedRange(src, nameSize, base, base + |b|);
    if CheckOutOfIndex(src, (src + nameSize) % ADDRESSES, base, base + |b|) { return footer, Some(CorruptedFile); }
    return footer.(name := CopyName(Load(b, base, src, nameSize))), None;
  }

  /** `map_index_file` on a buffer at address `base`. What it makes of the bytes, and what it holds when it
      returns, does not depend on the address. */
  method MapIndexFile(b: seq<Byte>, base: nat) returns (r: Parsed, held: Held)
    requires |b| < 0x8000_0000_0000_0000 && base + |b| < ADDRESSES
    ensures r == Parse(b) && held == HeldBy(b)
  {
    hide Number, ParseMetas, NamesRead, ParseFiles, ParseFooter, Parse, HeldBy, CheckOutOfIndex, Target;
    var le, header, error := ReadHeader(b, base);
    held := Held(header.fileDirCount, None);
    if error.Some? { return Bad(error.value), held; }
    var metas, names;
    metas, names, error := ReadMetas(b, base, le, header.fileDirCount);
    held := Held(header.fileDirCount, Some(names[..]));
    if error.Some? { return Bad(error.value), held; }

    var data := (base + header.dataOffset + SECTION_BIAS) % ADDRESSES;
    var bytes := Product32(header.fileCount, FILE_SIZE);
    CheckedTarget(b, base, header.dataOffset, SECTION_BIAS, bytes);
    if CheckOutOfIndex(data, (data + bytes) % ADDRESSES, base, base + |b|) { return Bad(CorruptedFile), held; }
    var files := ReadFiles(b, base, le, data, header.fileCount);

    var foot := (base + header.footerOffset + SECTION_BIAS) % ADDRESSES;
    CheckedTarget(b, base, header.footerOffset, SECTION_BIAS, FOOTER_SIZE);
    if CheckOutOfIndex(foot, (foot + FOOTER_SIZE) % ADDRESSES, base, base + |b|) { return Bad(CorruptedFile), held; }
    var footer;
    footer, error := ReadFooter(b, base, le, foot);
    if error.Some? { return Bad(error.value), held; }
    return Good(Index(header, metas[..], files[..], footer)), held;
  }
}
