/** Releasing an index, whole or as far as it was read: lib/memory-helpers.c wows_free_index, which
    lib/index-parser.c also calls when map_index_file fails. */
module IndexRelease {
  import opened Basics
  import opened IndexFormat
  import opened IndexBytes
  import IndexDump
  import IndexRoundTrip

  /** The names in an array, without the nulls. */
  function Present(names: seq<Option<seq<Byte>>>): seq<seq<Byte>> {
    if names == [] then []
    else if names[0].Some? then [names[0].value] + Present(names[1..])
    else Present(names[1..])
  }

  lemma {:induction false} PresentMore(names: seq<Option<seq<Byte>>>, x: Option<seq<Byte>>)
    ensures Present(names + [x]) == if x.Some? then Present(names) + [x.value] else Present(names)
    decreases |names|
  {
    if names == [] {
      assert [x][1..] == [];
    } else {
      PresentMore(names[1..], x);
      assert (names + [x])[1..] == names[1..] + [x];
    }
  }

  /** The loop looks into the metadata array as often as the header says, whether or not there is one. */
  predicate ReadsNull(held: Held) {
    held.count > 0 && held.names == None
  }

  /** `wows_free_index`: the names released. A look into an array that is not there ends the program. */
  method FreeIndex(held: Held) returns (released: seq<seq<Byte>>, crashed: bool)
    requires held.names.Some? ==> |held.names.value| == held.count
    ensures crashed <==> ReadsNull(held)
    ensures released == if held.names.Some? then Present(held.names.value) else []
  {
    released, crashed := [], false;
    for j := 0 to held.count
      invariant !crashed && (j > 0 ==> held.names.Some?)
      invariant released == if held.names.Some? then Present(held.names.value[..j]) else []
    {
      if held.names == None { return released, true; }
      var names := held.names.value;
      if names[j].Some? { released := released + [names[j].value]; }
      PresentMore(names[..j], names[j]);
      assert names[..j + 1] == names[..j] + [names[j]];
    }
    if held.names.Some? { assert held.names.value[..held.count] == held.names.value; }
  }

  /** A buffer that is refused between the counts of its header and its metadata array. */
  predicate RefusedBetween(b: seq<Byte>) {
    && |b| >= HEADER_SIZE && Slice(b, 0, 4) == MAGIC
    && var h := HeaderAt(b);
       && h.fileDirCount > 0
       && (h.fileDirCount > MAX_COUNT || h.fileCount > MAX_COUNT || HEADER_SIZE + META_SIZE * h.fileDirCount > |b|)
  }

  /** Of all buffers exactly these lead the release into a null array; none of them is parsed. */
  lemma ReleaseExact(b: seq<Byte>)
    ensures ReadsNull(HeldBy(b)) <==> RefusedBetween(b)
    ensures RefusedBetween(b) ==> Parse(b) == Bad(MaxFile) || Parse(b) == Bad(CorruptedFile)
    ensures Parse(b) == Bad(MaxFile) ==> (RefusedBetween(b) <==> HeaderAt(b).fileDirCount > 0)
  {
    hide ParseMetas, ParseFiles, NamesRead, Number, LeNat, CopyName;
    if |b| >= HEADER_SIZE && HEADER_SIZE + META_SIZE * HeaderAt(b).fileDirCount <= |b| {
      MetaErrors(b, Slice(b, 4, 4) == LE_MARK, 0, HeaderAt(b).fileDirCount);
    }
  }

  lemma {:induction false} MetaErrors(b: seq<Byte>, le: bool, i: nat, n: nat)
    requires i <= n && HEADER_SIZE + META_SIZE * n <= |b|
    ensures ParseMetas(b, le, i, n) != BadMeta(MaxFile)
    decreases n - i
  {
    hide MetaFields, Target, Inside, CopyName, Number;
    ParseMetasNext(b, le, i, n);
    if i < n { MetaErrors(b, le, i + 1, n); }
  }

  /** The shortest such buffer: a header alone that counts one record. */
  lemma HeaderAlone()
    ensures var b := IndexDump.HeaderImage(Header(0x200_0000, 0, 0x40, 1, 0, 1, 40, 0, 0));
            |b| == HEADER_SIZE && Parse(b) == Bad(CorruptedFile) && ReadsNull(HeldBy(b))
  {
    hide LeNat, LeBytes, Number, ParseMetas, NamesRead, IndexDump.HeaderImage;
    var h := Header(0x200_0000, 0, 0x40, 1, 0, 1, 40, 0, 0);
    var b := IndexDump.HeaderImage(h);
    IndexRoundTrip.HeaderBack(h, []);
    assert b + [] == b;
  }

  function NamesOf(metas: seq<Meta>): seq<seq<Byte>> {
    seq(|metas|, i requires 0 <= i < |metas| => metas[i].name)
  }

  /** What a good buffer holds: the name of every record, each released once. */
  lemma AllReleased(b: seq<Byte>)
    requires Parse(b).Good?
    ensures var metas, held := Parse(b).index.metadata, HeldBy(b);
            && held.count == |metas| && held.names.Some?
            && Present(held.names.value) == NamesOf(metas)
  {
    hide ParseMetas, NamesRead, ParseFiles, ParseFooter, Number, LeNat;
    NamesOfGood(b, Slice(b, 4, 4) == LE_MARK, 0, HeaderAt(b).fileDirCount);
  }

  lemma {:induction false} NamesOfGood(b: seq<Byte>, le: bool, i: nat, n: nat)
    requires i <= n && HEADER_SIZE + META_SIZE * n <= |b| && ParseMetas(b, le, i, n).GoodMetas?
    ensures var metas := ParseMetas(b, le, i, n).metas;
            |metas| == n - i && Present(NamesRead(b, le, i, n)) == NamesOf(metas)
    decreases n - i
  {
    hide MetaFields, Target, Inside, CopyName, Number;
    if i < n {
      ParseMetasNext(b, le, i, n);
      NamesReadNext(b, le, i, n);
      NamesOfGood(b, le, i + 1, n);
      assert NamesRead(b, le, i, n)[1..] == NamesRead(b, le, i + 1, n);
    }
  }

  /** A name is held of every record up to the first one that does not fit, and of no other. */
  lemma {:induction false} NamesHeld(b: seq<Byte>, le: bool, i: nat, n: nat, j: nat)
    requires i <= j < n && HEADER_SIZE + META_SIZE * n <= |b|
    ensures var name := NamesRead(b, le, i, n)[j - i];
            && (name.Some? <==> forall k :: i <= k <= j ==> NameFits(b, le, k))
            && (name.Some? ==> NameStands(b, (56 + 32 * j + Eight(b, 56 + 32 * j + 8, le)) % 0x1_0000_0000_0000_0000,
                                          Eight(b, 56 + 32 * j, le), name.value))
    decreases n - i
  {
    hide MetaFields, Target, Inside, NameFits, NameStands, CopyName, Number, Eight, Slice;
    NamesReadNext(b, le, i, n);
    OneFits(b, le, i);
    OneMeta(b, le, i);
    OneName(b, le, i);
    if i < j {
      NamesHeld(b, le, i + 1, n, j);
    }
  }

  lemma OneName(b: seq<Byte>, le: bool, i: nat)
    requires HEADER_SIZE + META_SIZE * (i + 1) <= |b|
    ensures var m := MetaFields(b, le, i);
            var src := Target(HEADER_SIZE + META_SIZE * i, m.nameOffset);
            && src == (56 + 32 * i + Eight(b, 56 + 32 * i + 8, le)) % 0x1_0000_0000_0000_0000
            && (Inside(b, src, m.nameSize) ==> NameStands(b, src, m.nameSize, CopyName(Slice(b, src, m.nameSize))))
  {
    hide Number, Slice, Eight, CopyName, NameStands;
    var m := MetaFields(b, le, i);
    var src := Target(HEADER_SIZE + META_SIZE * i, m.nameOffset);
    OneMeta(b, le, i);
    if Inside(b, src, m.nameSize) { NameCopied(b, src, m.nameSize); }
  }

  /** The names of all records of some parsed buffers. */
  ghost function AllNames(buffers: seq<seq<Byte>>): seq<seq<Byte>>
    requires forall b :: b in buffers ==> Parse(b).Good?
  {
    if buffers == [] then []
    else
      var n := |buffers| - 1;
      AllNames(buffers[..n]) + NamesOf(Parse(buffers[n]).index.metadata)
  }

  /** The loop of `wows_free_context_internal` over the indexes of a context, which are those of parsed buffers:
      it reads no null and releases the name of every record once. */
  method FreeIndexes(indexes: seq<Held>, ghost buffers: seq<seq<Byte>>)
    returns (released: seq<seq<Byte>>, crashed: bool)
    requires |indexes| == |buffers| && forall b :: b in buffers ==> Parse(b).Good?
    requires forall i :: 0 <= i < |indexes| ==> indexes[i] == HeldBy(buffers[i])
    ensures !crashed && released == AllNames(buffers)
  {
    hide Parse, HeldBy, Present, NamesOf;
    released, crashed := [], false;
    for i := 0 to |indexes|
      invariant !crashed && released == AllNames(buffers[..i])
    {
      assert buffers[i] in buffers && buffers[..i + 1][..i] == buffers[..i];
      AllReleased(buffers[i]);
      var names, bad := FreeIndex(indexes[i]);
      released, crashed := released + names, bad;
    }
    assert buffers[..|indexes|] == buffers;
  }
}
