/** The index format byte by byte, as FORMAT.md draws it, against what the parser makes of a buffer. */
module IndexBytes {
  import opened Basics
  import opened IndexFormat

  // ----- numbers

  /** The number with these digits to the base 256, the lowest first. */
  function Digits(d0: nat, d1: nat, d2: nat, d3: nat): nat {
    d0 + 0x100 * d1 + 0x1_0000 * d2 + 0x100_0000 * d3
  }

  /** Four bytes as a number, the lowest first or last. */
  function Four(b: seq<Byte>, at: nat, le: bool): nat
    requires at + 4 <= |b|
  {
    if le then Digits(b[at], b[at + 1], b[at + 2], b[at + 3]) else Digits(b[at + 3], b[at + 2], b[at + 1], b[at])
  }

  function Eight(b: seq<Byte>, at: nat, le: bool): nat
    requires at + 8 <= |b|
  {
    if le then Four(b, at, true) + 0x1_0000_0000 * Four(b, at + 4, true)
    else Four(b, at + 4, false) + 0x1_0000_0000 * Four(b, at, false)
  }

  lemma FourBytes(w: seq<Byte>)
    requires |w| == 4
    ensures LeNat(w) == Digits(w[0], w[1], w[2], w[3])
  {
    LeNext(w);
    LeNext(w[1..]);
    LeNext(w[2..]);
    LeNext(w[3..]);
    assert w[1..][1..] == w[2..] && w[2..][1..] == w[3..] && w[3..][1..] == [];
    assert LeNat([]) == 0;
  }

  lemma LeNext(w: seq<Byte>)
    requires w != []
    ensures LeNat(w) == w[0] + 256 * LeNat(w[1..])
  {
  }

  /** The low bytes of a number come first. */
  lemma {:induction false} LeBoth(x: seq<Byte>, y: seq<Byte>)
    requires |x| == 4
    ensures LeNat(x + y) == LeNat(x) + 0x1_0000_0000 * LeNat(y)
  {
    var w := x + y;
    assert w[1..] == x[1..] + y && w[2..] == x[2..] + y && w[3..] == x[3..] + y && w[4..] == y;
    LeNext(w);
    LeNext(w[1..]);
    LeNext(w[2..]);
    LeNext(w[3..]);
    assert w[1..][1..] == w[2..] && w[2..][1..] == w[3..] && w[3..][1..] == w[4..];
    FourBytes(x);
  }

  lemma FourIs(b: seq<Byte>, at: nat, le: bool)
    requires at + 4 <= |b|
    ensures Number(le, Slice(b, at, 4)) == Four(b, at, le)
  {
    hide LeNat;
    FourBytes(if le then Slice(b, at, 4) else Reversed(Slice(b, at, 4)));
  }

  lemma Halves(b: seq<Byte>, at: nat)
    requires at + 8 <= |b|
    ensures Slice(b, at, 8) == Slice(b, at, 4) + Slice(b, at + 4, 4)
    ensures Reversed(Slice(b, at, 8)) == Reversed(Slice(b, at + 4, 4)) + Reversed(Slice(b, at, 4))
  {
    hide Reversed;
  }

  lemma EightIs(b: seq<Byte>, at: nat, le: bool)
    requires at + 8 <= |b|
    ensures Number(le, Slice(b, at, 8)) == Eight(b, at, le)
  {
    hide LeNat, Four, Slice, Reversed;
    Halves(b, at);
    FourIs(b, at, le);
    FourIs(b, at + 4, le);
    if le {
      LeBoth(Slice(b, at, 4), Slice(b, at + 4, 4));
    } else {
      LeBoth(Reversed(Slice(b, at + 4, 4)), Reversed(Slice(b, at, 4)));
    }
  }

  // ----- the sections

  /** The letters ISFP. */
  ghost predicate HasMagic(b: seq<Byte>) {
    |b| >= 4 && b[0] == 'I' as int && b[1] == 'S' as int && b[2] == 'F' as int && b[3] == 'P' as int
  }

  /** The marker bytes 00 00 00 02 stand for little-endian numbers, any other for big-endian ones. */
  ghost predicate IsLittle(b: seq<Byte>) {
    |b| >= 8 && b[4] == 0 && b[5] == 0 && b[6] == 0 && b[7] == 2
  }

  ghost predicate HeaderStands(b: seq<Byte>, le: bool, h: Header) {
    && |b| >= 56
    && h.endianness == Four(b, 4, true) && h.id == Four(b, 8, le) && h.unknown2 == Four(b, 12, le)
    && h.fileDirCount == Four(b, 16, le) && h.fileCount == Four(b, 20, le) && h.unknown3 == Four(b, 24, le)
    && h.headerSize == Eight(b, 32, le) && h.dataOffset == Eight(b, 40, le) && h.footerOffset == Eight(b, 48, le)
  }

  /** A name of `n` bytes: those of the buffer up to a NUL, then NULs. */
  ghost predicate NameStands(b: seq<Byte>, at: nat, n: nat, name: seq<Byte>) {
    && at + n <= |b| && |name| == n
    && forall k :: 0 <= k < n ==> name[k] == if 0 in b[at..at + k] then 0 else b[at + k]
  }

  ghost predicate MetaStands(b: seq<Byte>, le: bool, at: nat, m: Meta) {
    && at + 32 <= |b|
    && m.nameSize == Eight(b, at, le) && m.nameOffset == Eight(b, at + 8, le)
    && m.id == Eight(b, at + 16, le) && m.parentId == Eight(b, at + 24, le)
    && NameStands(b, (at + m.nameOffset) % 0x1_0000_0000_0000_0000, m.nameSize, m.name)
  }

  ghost predicate FileStands(b: seq<Byte>, le: bool, at: nat, f: FileEntry) {
    && at + 48 <= |b|
    && f.metadataId == Eight(b, at, le) && f.footerId == Eight(b, at + 8, le) && f.offset == Eight(b, at + 16, le)
    && f.type1 == Four(b, at + 24, le) && f.type2 == Four(b, at + 28, le) && f.size == Four(b, at + 32, le)
    && f.pkgId == Eight(b, at + 36, le)
  }

  ghost predicate FooterStands(b: seq<Byte>, le: bool, at: nat, f: Footer) {
    && at + 24 <= |b|
    && f.nameSize == Eight(b, at, le) && f.unknown7 == Eight(b, at + 8, le) && f.id == Eight(b, at + 16, le)
    && NameStands(b, at + 24, f.nameSize, f.name)
  }

  lemma {:induction false} CopyStands(bs: seq<Byte>)
    ensures forall k :: 0 <= k < |bs| ==> CopyName(bs)[k] == if 0 in bs[..k] then 0 else bs[k]
  {
    if bs != [] && bs[0] != 0 {
      CopyStands(bs[1..]);
      forall k | 0 <= k < |bs| ensures CopyName(bs)[k] == if 0 in bs[..k] then 0 else bs[k] {
        if k > 0 {
          assert bs[..k] == [bs[0]] + bs[1..][..k - 1];
        }
      }
    } else if bs != [] {
      forall k | 0 <= k < |bs| ensures CopyName(bs)[k] == if 0 in bs[..k] then 0 else bs[k] {
        if k > 0 { assert bs[..k][0] == 0; }
      }
    }
  }

  lemma NameCopied(b: seq<Byte>, at: nat, n: nat)
    requires at + n <= |b|
    ensures NameStands(b, at, n, CopyName(Slice(b, at, n)))
  {
    var bs := Slice(b, at, n);
    CopyStands(bs);
    forall k | 0 <= k < n ensures bs[..k] == b[at..at + k] {}
  }

  lemma HeaderRead(b: seq<Byte>)
    requires |b| >= 56
    ensures Slice(b, 0, 4) == MAGIC <==> HasMagic(b)
    ensures Slice(b, 4, 4) == LE_MARK <==> IsLittle(b)
    ensures HeaderStands(b, IsLittle(b), HeaderAt(b))
  {
    hide LeNat, Four, Eight;
    assert Slice(b, 0, 4) == [b[0], b[1], b[2], b[3]] && Slice(b, 4, 4) == [b[4], b[5], b[6], b[7]];
    var le := IsLittle(b);
    FourIs(b, 4, true);
    FourIs(b, 8, le);
    FourIs(b, 12, le);
    FourIs(b, 16, le);
    FourIs(b, 20, le);
    FourIs(b, 24, le);
    EightIs(b, 32, le);
    EightIs(b, 40, le);
    EightIs(b, 48, le);
  }

  /** The parsed records stand one behind the other. */
  lemma {:induction false} MetasRead(b: seq<Byte>, le: bool, i: nat, n: nat)
    requires i <= n && HEADER_SIZE + META_SIZE * n <= |b| && ParseMetas(b, le, i, n).GoodMetas?
    ensures var ms := ParseMetas(b, le, i, n).metas;
            |ms| == n - i && forall j :: 0 <= j < |ms| ==> MetaStands(b, le, 56 + 32 * (i + j), ms[j])
    decreases n - i
  {
    hide Number, Slice, Eight, CopyName, NameStands;
    ParseMetasNext(b, le, i, n);
    if i < n {
      MetasRead(b, le, i + 1, n);
      OneMeta(b, le, i);
      var ms, rest := ParseMetas(b, le, i, n).metas, ParseMetas(b, le, i + 1, n).metas;
      forall j | 0 <= j < |ms| ensures MetaStands(b, le, 56 + 32 * (i + j), ms[j]) {
        if j > 0 { assert ms[j] == rest[j - 1]; }
      }
    }
  }

  lemma OneMeta(b: seq<Byte>, le: bool, i: nat)
    requires HEADER_SIZE + META_SIZE * (i + 1) <= |b|
    ensures var m := MetaFields(b, le, i);
            var at, src := 56 + 32 * i, Target(HEADER_SIZE + META_SIZE * i, m.nameOffset);
            && m.nameSize == Eight(b, at, le) && m.nameOffset == Eight(b, at + 8, le)
            && src == (at + m.nameOffset) % 0x1_0000_0000_0000_0000
            && (Inside(b, src, m.nameSize) ==>
                MetaStands(b, le, at, m.(name := CopyName(Slice(b, src, m.nameSize)))))
  {
    hide Number, Slice, Eight, CopyName, NameStands;
    var at := 56 + 32 * i;
    EightIs(b, at, le);
    EightIs(b, at + 8, le);
    EightIs(b, at + 16, le);
    EightIs(b, at + 24, le);
    var m := MetaFields(b, le, i);
    var src := Target(HEADER_SIZE + META_SIZE * i, m.nameOffset);
    if Inside(b, src, m.nameSize) { NameCopied(b, src, m.nameSize); }
  }

  lemma {:induction false} FilesRead(b: seq<Byte>, le: bool, at: nat, n: nat)
    requires at + FILE_SIZE * n <= |b|
    ensures var fs := ParseFiles(b, le, at, n);
            |fs| == n && forall j :: 0 <= j < n ==> FileStands(b, le, at + 48 * j, fs[j])
    decreases n
  {
    hide Number, Slice, Four, Eight;
    ParseFilesNext(b, le, at, n);
    if n > 0 {
      FilesRead(b, le, at + FILE_SIZE, n - 1);
      FourIs(b, at + 24, le);
      FourIs(b, at + 28, le);
      FourIs(b, at + 32, le);
      EightIs(b, at, le);
      EightIs(b, at + 8, le);
      EightIs(b, at + 16, le);
      EightIs(b, at + 36, le);
      var fs, rest := ParseFiles(b, le, at, n), ParseFiles(b, le, at + FILE_SIZE, n - 1);
      forall j | 0 <= j < n ensures FileStands(b, le, at + 48 * j, fs[j]) {
        if j > 0 { assert fs[j] == rest[j - 1] && at + 48 * j == at + FILE_SIZE + 48 * (j - 1); }
      }
    }
  }

  lemma FooterRead(b: seq<Byte>, le: bool, at: nat)
    requires at + FOOTER_SIZE <= |b|
    ensures ParseFooter(b, le, at).0.nameSize == Eight(b, at, le)
    ensures ParseFooter(b, le, at).1 == None ==> FooterStands(b, le, at, ParseFooter(b, le, at).0)
  {
    hide Number, Slice, Eight, CopyName, NameStands;
    EightIs(b, at, le);
    EightIs(b, at + 8, le);
    EightIs(b, at + 16, le);
    var n := Number(le, Slice(b, at, 8));
    if Inside(b, at + FOOTER_SIZE, n) { NameCopied(b, at + FOOTER_SIZE, n); }
  }

  /** A parsed index is what its bytes say: where every field of every section stands and how wide it is, in the
      order of bytes that the marker asks for; the offsets lead 16 bytes further, and a name's from its own record. */
  lemma ParsedBytes(b: seq<Byte>, idx: Index)
    requires Parse(b) == Good(idx)
    ensures HasMagic(b) && HeaderStands(b, IsLittle(b), idx.header)
    ensures |idx.metadata| == idx.header.fileDirCount
    ensures forall j :: 0 <= j < |idx.metadata| ==> MetaStands(b, IsLittle(b), 56 + 32 * j, idx.metadata[j])
    ensures var data := (idx.header.dataOffset + 16) % 0x1_0000_0000_0000_0000;
            && |idx.files| == idx.header.fileCount
            && forall j :: 0 <= j < |idx.files| ==> FileStands(b, IsLittle(b), data + 48 * j, idx.files[j])
    ensures FooterStands(b, IsLittle(b), (idx.header.footerOffset + 16) % 0x1_0000_0000_0000_0000, idx.footer)
  {
    hide Number, Slice, Four, Eight, CopyName, ParseMetas, ParseFiles, ParseFooter, MetaStands, FileStands,
      FooterStands,
      HeaderAt, HeaderStands;
    HeaderRead(b);
    var le, h := IsLittle(b), idx.header;
    MetasRead(b, le, 0, h.fileDirCount);
    FilesRead(b, le, Target(h.dataOffset, SECTION_BIAS), h.fileCount);
    FooterRead(b, le, Target(h.footerOffset, SECTION_BIAS));
    forall j | 0 <= j < |idx.metadata| ensures MetaStands(b, le, 56 + 32 * j, idx.metadata[j]) {
      assert 56 + 32 * (0 + j) == 56 + 32 * j;
    }
  }

  // ----- what is refused

  /** Record `j` has a name of at most 4096 bytes, and inside the buffer. */
  ghost predicate NameFits(b: seq<Byte>, le: bool, j: nat)
    requires 56 + 32 * (j + 1) <= |b|
  {
    var at := 56 + 32 * j;
    && Eight(b, at, le) <= 4096
    && (at + Eight(b, at + 8, le)) % 0x1_0000_0000_0000_0000 + Eight(b, at, le) <= |b|
  }

  /** From record `i` on, record `j` is the first whose name does not fit, and it is too long. */
  ghost predicate LongName(b: seq<Byte>, le: bool, i: nat, j: nat)
    requires 56 + 32 * (j + 1) <= |b|
  {
    i <= j && Eight(b, 56 + 32 * j, le) > 4096 && forall k :: i <= k < j ==> NameFits(b, le, k)
  }

  ghost predicate SomeLongName(b: seq<Byte>, le: bool, i: nat, n: nat)
    requires 56 + 32 * n <= |b|
  {
    exists j :: i <= j < n && LongName(b, le, i, j)
  }

  ghost predicate AllNamesFit(b: seq<Byte>, le: bool, i: nat, n: nat)
    requires 56 + 32 * n <= |b|
  {
    forall j :: i <= j < n ==> NameFits(b, le, j)
  }

  lemma OneFits(b: seq<Byte>, le: bool, i: nat)
    requires HEADER_SIZE + META_SIZE * (i + 1) <= |b|
    ensures var m := MetaFields(b, le, i);
            var src := Target(HEADER_SIZE + META_SIZE * i, m.nameOffset);
            && (NameFits(b, le, i) <==> m.nameSize <= MAX_NAME && Inside(b, src, m.nameSize))
            && m.nameSize == Eight(b, 56 + 32 * i, le)
  {
    hide Number, Slice, Eight, CopyName, NameStands;
    OneMeta(b, le, i);
  }

  lemma {:induction false} MetasRefused(b: seq<Byte>, le: bool, i: nat, n: nat)
    requires i <= n && HEADER_SIZE + META_SIZE * n <= |b|
    ensures var r := ParseMetas(b, le, i, n);
            && (r.GoodMetas? <==> AllNamesFit(b, le, i, n))
            && (r == BadMeta(PathTooLong) <==> SomeLongName(b, le, i, n))
            && (r.BadMeta? ==> r.error in {PathTooLong, CorruptedFile})
    decreases n - i
  {
    hide MetaFields, Target, Inside, NameFits, CopyName, Number, Eight;
    ParseMetasNext(b, le, i, n);
    if i < n {
      OneFits(b, le, i);
      MetasRefused(b, le, i + 1, n);
      if NameFits(b, le, i) {
        if SomeLongName(b, le, i, n) {
          var j :| i <= j < n && LongName(b, le, i, j);
          assert i < j && LongName(b, le, i + 1, j);
        }
        if SomeLongName(b, le, i + 1, n) {
          var j :| i + 1 <= j < n && LongName(b, le, i + 1, j);
          assert LongName(b, le, i, j);
        }
      } else {
        assert LongName(b, le, i, i) <==> Eight(b, 56 + 32 * i, le) > 4096;
      }
    }
  }

  /** Where the data entries stand. */
  ghost function DataAt(b: seq<Byte>): nat
    requires |b| >= 56
  {
    (Eight(b, 40, IsLittle(b)) + 16) % 0x1_0000_0000_0000_0000
  }

  ghost function FooterAt(b: seq<Byte>): nat
    requires |b| >= 56
  {
    (Eight(b, 48, IsLittle(b)) + 16) % 0x1_0000_0000_0000_0000
  }

  ghost function Records(b: seq<Byte>): nat
    requires |b| >= 56
  {
    Four(b, 16, IsLittle(b))
  }

  ghost function Files(b: seq<Byte>): nat
    requires |b| >= 56
  {
    Four(b, 20, IsLittle(b))
  }

  /** The size of the package name. */
  ghost function PackageSize(b: seq<Byte>): nat
    requires |b| >= 56 && FooterAt(b) + 24 <= |b|
  {
    Eight(b, FooterAt(b), IsLittle(b))
  }

  /** The header can be read, and counts at most 2^25 records and files. */
  ghost predicate HeaderGood(b: seq<Byte>) {
    |b| >= 56 && HasMagic(b) && Records(b) <= 33554432 && Files(b) <= 33554432
  }

  /** A header is refused for its length, its letters or its counts. */
  lemma HeaderRefused(b: seq<Byte>)
    ensures |b| < 56 ==> Parse(b) == Bad(CorruptedFile)
    ensures |b| >= 56 && !HasMagic(b) ==> Parse(b) == Bad(BadMagic)
    ensures |b| >= 56 && HasMagic(b) && !HeaderGood(b) ==> Parse(b) == Bad(MaxFile)
  {
    hide Number, Slice, Four, Eight, CopyName, ParseMetas, ParseFiles, HeaderAt;
    if |b| >= 56 { HeaderRead(b); }
  }

  /** What a buffer with a good header is refused for: records outside it, the first name that is too long or
      outside, data entries or a footer outside, a package name that is too long or outside. */
  lemma SectionsRefused(b: seq<Byte>)
    requires HeaderGood(b)
    ensures var p := Parse(b);
            if 56 + 32 * Records(b) > |b| then p == Bad(CorruptedFile)
            else if SomeLongName(b, IsLittle(b), 0, Records(b)) then p == Bad(PathTooLong)
            else if !AllNamesFit(b, IsLittle(b), 0, Records(b)) then p == Bad(CorruptedFile)
            else if DataAt(b) + 48 * Files(b) > |b| || FooterAt(b) + 24 > |b| then p == Bad(CorruptedFile)
            else if PackageSize(b) > 4096 then p == Bad(PathTooLong)
            else if FooterAt(b) + 24 + PackageSize(b) > |b| then p == Bad(CorruptedFile)
            else p.Good?
  {
    hide Number, Slice, Four, Eight, CopyName, ParseMetas, ParseFiles, NameFits, LongName, HeaderAt;
    HeaderRead(b);
    var le, h := IsLittle(b), HeaderAt(b);
    if 56 + 32 * h.fileDirCount <= |b| {
      MetasRefused(b, le, 0, h.fileDirCount);
      var foot := Target(h.footerOffset, SECTION_BIAS);
      if Inside(b, foot, FOOTER_SIZE) { FooterRead(b, le, foot); }
    }
  }
}
