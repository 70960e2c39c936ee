/** Packing a directory into records and building the tree back from them
    (lib/deflate.c recursive_writer, lib/index-parser.c wows_parse_index_buffer). */
module Packing {
  import opened Basics
  import opened Tree
  import Keys

  /** A directory as readdir lists it, each entry with the id drawn for it. */
  datatype Entries =
    | Done
    | File(name: string, id: nat, more: Entries)
    | Dir(name: string, id: nat, inside: Entries, more: Entries)

  /** The metadata records that `recursive_writer` writes, in order. */
  function Flatten(e: Entries, parent: nat): seq<Record> {
    match e
    case Done => []
    case File(name, id, more) => [Record(id, parent, name)] + Flatten(more, parent)
    case Dir(name, id, inside, more) => [Record(id, parent, name)] + Flatten(inside, id) + Flatten(more, parent)
  }

  /** The metadata ids of the file entries that it writes. */
  function FileIds(e: Entries): seq<nat> {
    match e
    case Done => []
    case File(_, id, more) => [id] + FileIds(more)
    case Dir(_, _, inside, more) => FileIds(inside) + FileIds(more)
  }

  /** The record of the directory with that id comes before record `i`. */
  ghost predicate HasBefore(rs: seq<Record>, i: nat, id: nat) {
    i < |rs| && exists j :: 0 <= j < i && rs[j].id == id
  }

  lemma StillBefore(front: seq<Record>, rs: seq<Record>, back: seq<Record>, i: nat, id: nat)
    requires HasBefore(rs, i, id)
    ensures HasBefore(front + rs + back, |front| + i, id)
  {
    var j :| 0 <= j < i && rs[j].id == id;
    assert (front + rs + back)[|front| + j] == rs[j];
  }

  /** Every record comes behind that of the directory it is in. */
  lemma {:induction false} ParentsFirst(e: Entries, parent: nat, i: nat)
    requires i < |Flatten(e, parent)|
    ensures var rs := Flatten(e, parent);
            rs[i].parent == parent || HasBefore(rs, i, rs[i].parent)
    decreases e
  {
    var rs := Flatten(e, parent);
    if e.File? && i > 0 {
      var more := Flatten(e.more, parent);
      ParentsFirst(e.more, parent, i - 1);
      assert rs == [rs[0]] + more + [];
      if more[i - 1].parent != parent { StillBefore([rs[0]], more, [], i - 1, more[i - 1].parent); }
    } else if e.Dir? && i > 0 {
      var inside, more := Flatten(e.inside, e.id), Flatten(e.more, parent);
      assert rs == [rs[0]] + inside + more && rs == ([rs[0]] + inside) + more + [];
      if i <= |inside| {
        ParentsFirst(e.inside, e.id, i - 1);
        if inside[i - 1].parent == e.id {
          assert rs[0].id == e.id;
        } else {
          StillBefore([rs[0]], inside, more, i - 1, inside[i - 1].parent);
        }
      } else {
        var k := i - 1 - |inside|;
        ParentsFirst(e.more, parent, k);
        if more[k].parent != parent { StillBefore([rs[0]] + inside, more, [], k, more[k].parent); }
      }
    }
  }

  class Writer {
    var metadata: seq<Record>
    var files: seq<nat>

    constructor ()
      ensures metadata == [] && files == []
    {
      metadata, files := [], [];
    }

    /** `recursive_writer`: a record before the recursion for a directory, a record and a file entry for a file. */
    method Write(e: Entries, parent: nat)
      modifies this
      ensures metadata == old(metadata) + Flatten(e, parent)
      ensures files == old(files) + FileIds(e)
      decreases e
    {
      var rest := e;
      while rest != Done
        invariant metadata + Flatten(rest, parent) == old(metadata) + Flatten(e, parent)
        invariant files + FileIds(rest) == old(files) + FileIds(e)
        invariant rest == e || rest < e
        decreases rest
      {
        RecordsNext(metadata, rest, parent);
        FilesNext(files, rest);
        hide Flatten, FileIds;
        metadata := metadata + [Record(rest.id, parent, rest.name)];
        if rest.File? {
          files := files + [rest.id];
        } else {
          Write(rest.inside, rest.id);
        }
        rest := rest.more;
      }
    }
  }

  lemma Regroup<T>(a: seq<T>, b: seq<T>, c: seq<T>, d: seq<T>)
    ensures a + (b + c + d) == a + b + c + d && a + (b + d) == a + b + d
  {
  }

  /** What the first entry contributes to the records. */
  lemma RecordsNext(ms: seq<Record>, e: Entries, parent: nat)
    requires e != Done
    ensures var r := ms + [Record(e.id, parent, e.name)];
            ms + Flatten(e, parent) == (if e.File? then r else r + Flatten(e.inside, e.id)) + Flatten(e.more, parent)
  {
    Regroup(ms, [Record(e.id, parent, e.name)], if e.File? then [] else Flatten(e.inside, e.id),
            Flatten(e.more, parent));
  }

  /** And to the file entries. */
  lemma FilesNext(fs: seq<nat>, e: Entries)
    requires e != Done
    ensures fs + FileIds(e) == (if e.File? then fs + [e.id] else fs + FileIds(e.inside)) + FileIds(e.more)
  {
    Regroup(fs, if e.File? then [e.id] else FileIds(e.inside), [], FileIds(e.more));
  }

  function TopNames(e: Entries): set<string> {
    match e
    case Done => {}
    case File(name, _, more) => {name} + TopNames(more)
    case Dir(name, _, _, more) => {name} + TopNames(more)
  }

  /** No two entries of a directory have the same name. */
  predicate SiblingsDiffer(e: Entries) {
    match e
    case Done => true
    case File(name, _, more) => name !in TopNames(more) && SiblingsDiffer(more)
    case Dir(name, _, inside, more) => name !in TopNames(more) && SiblingsDiffer(inside) && SiblingsDiffer(more)
  }

  /** How many directories lie between the top and the deepest entry. */
  function Depth(e: Entries): nat {
    match e
    case Done => 0
    case File(_, _, more) => Depth(more)
    case Dir(_, _, inside, more) => if Depth(more) > 1 + Depth(inside) then Depth(more) else 1 + Depth(inside)
  }

  /** The listing of `e` under `path`, directories without a file below them left out. */
  function TreeOf(e: Entries, path: Path, index: nat): Listing {
    match e
    case Done => map[]
    case File(name, id, more) => TreeOf(more, path, index)[path + [name] := Node(false, id, index)]
    case Dir(name, id, inside, more) =>
      if FileIds(inside) == [] then TreeOf(more, path, index)
      else (TreeOf(inside, path + [name], index) + TreeOf(more, path, index))[path + [name] := Node(true, id, index)]
  }

  // ----- what the records say of the tree

  /** Every record of `e` is found in the map under its id. */
  ghost predicate Known(m: Metadata, e: Entries, parent: nat) {
    forall r :: r in Flatten(e, parent) ==> r.id in m && m[r.id] == r
  }

  /** The metadata map can tell the ids apart: they differ in the bits that it hashes (Keys.NumbersAreKeys). */
  ghost predicate DistinctIds(rs: seq<Record>) {
    forall i, j :: 0 <= i < j < |rs| ==> rs[i].id % Keys.HASH_RANGE != rs[j].id % Keys.HASH_RANGE
  }

  /** The id of the top is told apart from all of them. */
  ghost predicate DistinctTop(rs: seq<Record>, top: nat) {
    forall i :: 0 <= i < |rs| ==> rs[i].id % Keys.HASH_RANGE != top % Keys.HASH_RANGE
  }

  lemma {:induction false} LoadFinds(m: Metadata, rs: seq<Record>)
    requires DistinctIds(rs)
    ensures forall i :: 0 <= i < |rs| ==> rs[i].id in Load(m, rs) && Load(m, rs)[rs[i].id] == rs[i]
    ensures forall k :: k in Load(m, rs) ==> k in m || exists i :: 0 <= i < |rs| && rs[i].id == k
    ensures forall k :: k in m && (forall i :: 0 <= i < |rs| ==> rs[i].id != k) ==>
            k in Load(m, rs) && Load(m, rs)[k] == m[k]
    decreases |rs|
  {
    if rs != [] {
      assert rs == [rs[0]] + rs[1..];
      LoadFinds(m[rs[0].id := rs[0]], rs[1..]);
    }
  }

  /** `up` is the chain of directories from the top down to the one with id `id`. */
  ghost predicate IsChain(m: Metadata, id: nat, up: seq<Record>)
    decreases |up|
  {
    if up == [] then id !in m
    else id in m && m[id] == up[|up| - 1] && IsChain(m, m[id].parent, up[..|up| - 1])
  }

  lemma {:induction false} ChainIsAncestors(m: Metadata, id: nat, up: seq<Record>, fuel: nat)
    requires IsChain(m, id, up) && |up| <= fuel
    ensures Ancestors(m, id, fuel) == up
    decreases |up|
  {
    if up != [] {
      ChainIsAncestors(m, m[id].parent, up[..|up| - 1], fuel - 1);
      assert up == up[..|up| - 1] + [up[|up| - 1]];
    }
  }

  // ----- entering a chain of directories

  /** The directories entered along `rs` from `at`. */
  ghost function Trail(at: Path, rs: seq<Record>, index: nat): Listing
    decreases |rs|
  {
    if rs == [] then map[]
    else Trail(at + [rs[0].name], rs[1..], index)[at + [rs[0].name] := Node(true, rs[0].id, index)]
  }

  lemma {:induction false} TrailKeys(at: Path, rs: seq<Record>, index: nat)
    ensures forall p :: p in Trail(at, rs, index) ==> |at| < |p| <= |at| + |rs| && at <= p
    decreases |rs|
  {
    if rs != [] { TrailKeys(at + [rs[0].name], rs[1..], index); }
  }

  lemma {:induction false} TrailSnoc(at: Path, rs: seq<Record>, r: Record, index: nat)
    ensures Trail(at, rs + [r], index) == Trail(at, rs, index)[at + Names(rs) + [r.name] := Node(true, r.id, index)]
    decreases |rs|
  {
    if rs == [] {
      assert ([r])[1..] == [] && at + Names(rs) == at && rs + [r] == [r];
      assert Trail(at + [r.name], [], index) == map[];
    } else {
      var next := at + [rs[0].name];
      assert (rs + [r])[1..] == rs[1..] + [r] && (rs + [r])[0] == rs[0];
      NamesStep(at, rs);
      TrailSnoc(next, rs[1..], r, index);
      assert |at + Names(rs) + [r.name]| > |next|;
    }
  }

  ghost predicate Agrees(v: Listing, w: Listing) {
    forall p :: p in w && p in v ==> v[p] == w[p]
  }

  lemma {:induction false} DescendAlong(v: Listing, at: Path, rs: seq<Record>, index: nat)
    requires Agrees(v, Trail(at, rs, index))
    ensures Descend(v, at, rs, index) == Built(v + Trail(at, rs, index), None)
    decreases |rs|
  {
    if rs == [] {
      assert v + map[] == v;
    } else {
      var next := at + [rs[0].name];
      var dir := Node(true, rs[0].id, index);
      var rest := Trail(next, rs[1..], index);
      TrailKeys(next, rs[1..], index);
      assert next in Trail(at, rs, index) && Trail(at, rs, index)[next] == dir;
      assert forall p :: p in rest ==> p in Trail(at, rs, index) && Trail(at, rs, index)[p] == rest[p];
      DescendAlong(v[next := dir], next, rs[1..], index);
      assert v[next := dir] + rest == v + Trail(at, rs, index);
      if next in v { assert v[next := dir] == v; }
    }
  }

  // ----- building the tree of a directory

  lemma {:induction false} BuildBoth(v: Listing, m: Metadata, a: seq<nat>, b: seq<nat>, index: nat)
    requires Build(v, m, a, index).error == None
    ensures Build(v, m, a + b, index) == Build(Build(v, m, a, index).listing, m, b, index)
    decreases |a|
  {
    if a == [] {
      assert a + b == b;
    } else {
      assert (a + b)[0] == a[0] && (a + b)[1..] == a[1..] + b;
      BuildBoth(BuildFile(v, m, a[0], index).listing, m, a[1..], b, index);
    }
  }

  /** The listing so far leaves room for `e` in the directory at the end of `up`. */
  ghost predicate Fits(v: Listing, up: seq<Record>, e: Entries, index: nat) {
    && Agrees(v, Trail([], up, index))
    && forall n, q :: n in TopNames(e) && q in v ==> !Below(Names(up) + [n], q)
  }

  lemma {:induction false} TreeKeys(e: Entries, path: Path, index: nat)
    ensures forall q :: q in TreeOf(e, path, index) ==> |q| > |path| && path <= q && q[|path|] in TopNames(e)
  {
    match e
    case Done =>
    case File(_, _, more) => TreeKeys(more, path, index);
    case Dir(name, _, inside, more) =>
      TreeKeys(more, path, index);
      TreeKeys(inside, path + [name], index);
      forall q | q in TreeOf(inside, path + [name], index) ensures path <= q && q[|path|] == name {
        assert q[..|path| + 1] == path + [name];
      }
  }

  /** What a build adds for the entries of one directory. */
  ghost function Added(e: Entries, up: seq<Record>, index: nat): Listing {
    if FileIds(e) == [] then map[] else Trail([], up, index) + TreeOf(e, Names(up), index)
  }

  lemma {:induction false} NoFilesNoTree(e: Entries, path: Path, index: nat)
    requires FileIds(e) == []
    ensures TreeOf(e, path, index) == map[]
  {
    match e
    case Done =>
    case File(_, _, more) =>
    case Dir(_, _, inside, more) => NoFilesNoTree(more, path, index);
  }

  lemma NamesSnoc(up: seq<Record>, r: Record)
    ensures Names(up + [r]) == Names(up) + [r.name] && |Names(up)| == |up|
  {
  }

  /** One file of the directory at the end of `up` is built. */
  lemma BuildOneFile(v: Listing, m: Metadata, r: Record, up: seq<Record>, e: Entries, index: nat)
    requires r.id in m && m[r.id] == r && IsChain(m, r.parent, up) && |up| <= MAX_LEVEL
    requires Fits(v, up, e, index) && r.name in TopNames(e)
    ensures BuildFile(v, m, r.id, index)
            == Built((v + Trail([], up, index))[Names(up) + [r.name] := Node(false, r.id, index)], None)
  {
    var w, path := v + Trail([], up, index), Names(up) + [r.name];
    TrailKeys([], up, index);
    hide Trail, Ancestors, Descend, IsChain;
    ChainIsAncestors(m, r.parent, up, MAX_LEVEL);
    DescendAlong(v, [], up, index);
    forall q | q in w ensures !Below(path, q) {
      if q !in v { assert |q| < |path|; }
    }
    PutNewFile(w, path, r.id, index);
  }

  lemma PutNewFile(v: Listing, path: Path, id: nat, index: nat)
    requires forall q :: q in v ==> !Below(path, q)
    ensures PutFile(v, path, id, index) == v[path := Node(false, id, index)]
  {
    assert (map q | q in v && !Below(path, q) :: v[q]) == v;
  }

  /** After it, the rest of the directory still fits. */
  lemma FitsAfterFile(v: Listing, up: seq<Record>, e: Entries, index: nat)
    requires e.File? && Fits(v, up, e, index) && e.name !in TopNames(e.more)
    ensures Fits((v + Trail([], up, index))[Names(up) + [e.name] := Node(false, e.id, index)], up, e.more, index)
  {
    var path := Names(up) + [e.name];
    var w := (v + Trail([], up, index))[path := Node(false, e.id, index)];
    TrailKeys([], up, index);
    forall n, q | n in TopNames(e.more) && q in w ensures !Below(Names(up) + [n], q) {
      if q == path { assert (Names(up) + [n])[|up|] != path[|up|]; }
    }
  }

  lemma AddedFile(v: Listing, up: seq<Record>, e: Entries, index: nat)
    requires e.File? && e.name !in TopNames(e.more)
    ensures (v + Trail([], up, index))[Names(up) + [e.name] := Node(false, e.id, index)] + Added(e.more, up, index)
            == v + Added(e, up, index)
  {
    TrailKeys([], up, index);
    TreeKeys(e.more, Names(up), index);
    assert FileIds(e) != [] by { assert FileIds(e)[0] == e.id; }
    if FileIds(e.more) == [] { NoFilesNoTree(e.more, Names(up), index); }
    MergeFile(v, Trail([], up, index), TreeOf(e.more, Names(up), index), Names(up) + [e.name],
              Node(false, e.id, index));
  }

  lemma MergeFile(v: Listing, t: Listing, x: Listing, p: Path, n: Node)
    requires p !in t && p !in x
    ensures (v + t)[p := n] + (t + x) == v + (t + x[p := n])
    ensures x == map[] ==> (v + t)[p := n] + map[] == v + (t + x[p := n])
  {
  }

  lemma MergeDir(v: Listing, t: Listing, y: Listing, x: Listing, p: Path, n: Node)
    requires p !in t && p !in x && p !in y && t.Keys !! y.Keys
    ensures (v + (t[p := n] + y)) + (t + x) == v + (t + (y + x)[p := n])
    ensures x == map[] ==> (v + (t[p := n] + y)) + map[] == v + (t + (y + x)[p := n])
  {
  }

  /** A subdirectory fits where its parent does. */
  lemma FitsInside(v: Listing, up: seq<Record>, e: Entries, r: Record, index: nat)
    requires e.Dir? && Fits(v, up, e, index) && r.name == e.name
    ensures Fits(v, up + [r], e.inside, index)
  {
    NamesSnoc(up, r);
    TrailSnoc([], up, r, index);
    assert [] + Names(up) == Names(up);
    assert Names(up) + [r.name] !in v by {
      if Names(up) + [r.name] in v { assert Below(Names(up) + [r.name], Names(up) + [r.name]); }
    }
    forall n, q | n in TopNames(e.inside) && q in v ensures !Below(Names(up + [r]) + [n], q) {
      assert Below(Names(up + [r]) + [n], q) ==> Below(Names(up) + [r.name], q);
    }
  }

  lemma FitsAfterDir(v: Listing, up: seq<Record>, e: Entries, r: Record, index: nat)
    requires e.Dir? && Fits(v, up, e, index) && r.name == e.name && e.name !in TopNames(e.more)
    ensures Fits(v + Added(e.inside, up + [r], index), up, e.more, index)
  {
    var path := Names(up) + [r.name];
    var w := v + Added(e.inside, up + [r], index);
    NamesSnoc(up, r);
    TrailSnoc([], up, r, index);
    assert [] + Names(up) == Names(up);
    TrailKeys([], up, index);
    TreeKeys(e.inside, path, index);
    forall n, q | n in TopNames(e.more) && q in w ensures !Below(Names(up) + [n], q) {
      if q !in v && |q| > |up| {
        assert q[..|path|] == path;
        assert (Names(up) + [n])[|up|] != path[|up|] == q[|up|];
      }
    }
  }

  lemma AddedDir(v: Listing, up: seq<Record>, e: Entries, r: Record, index: nat)
    requires e.Dir? && r.name == e.name && r.id == e.id && e.name !in TopNames(e.more)
    ensures (v + Added(e.inside, up + [r], index)) + Added(e.more, up, index) == v + Added(e, up, index)
  {
    var path, d := Names(up) + [r.name], Node(true, e.id, index);
    var t, y, x := Trail([], up, index), TreeOf(e.inside, path, index), TreeOf(e.more, Names(up), index);
    NamesSnoc(up, r);
    TrailSnoc([], up, r, index);
    assert [] + Names(up) == Names(up);
    if FileIds(e.more) == [] { NoFilesNoTree(e.more, Names(up), index); }
    assert FileIds(e) == FileIds(e.inside) + FileIds(e.more);
    if FileIds(e.inside) == [] {
      assert v + map[] == v;
    } else {
      assert Added(e, up, index) == t + (y + x)[path := d];
      assert Added(e.inside, up + [r], index) == t[path := d] + y;
      hide Trail, TreeOf, FileIds;
      TrailKeys([], up, index);
      TreeKeys(e.inside, path, index);
      TreeKeys(e.more, Names(up), index);
      MergeDir(v, t, y, x, path, d);
    }
  }

  /** Building the files of a directory whose records are known adds exactly its tree. */
  lemma {:induction false} BuildEntries(v: Listing, m: Metadata, e: Entries, id: nat, up: seq<Record>, index: nat)
    requires Known(m, e, id) && IsChain(m, id, up) && |up| + Depth(e) <= MAX_LEVEL
    requires SiblingsDiffer(e) && Fits(v, up, e, index)
    ensures Build(v, m, FileIds(e), index) == Built(v + Added(e, up, index), None)
    decreases e
  {
    match e
    case Done =>
      assert v + map[] == v;
    case File(name, fid, more) =>
      var r := Record(fid, id, name);
      assert r in Flatten(e, id);
      BuildOneFile(v, m, r, up, e, index);
      FitsAfterFile(v, up, e, index);
      BuildEntries((v + Trail([], up, index))[Names(up) + [name] := Node(false, fid, index)], m, more, id, up, index);
      AddedFile(v, up, e, index);
      assert FileIds(e)[0] == fid && FileIds(e)[1..] == FileIds(more);
    case Dir(name, did, inside, more) =>
      var r := Record(did, id, name);
      assert r in Flatten(e, id);
      assert (up + [r])[..|up|] == up;
      FitsInside(v, up, e, r, index);
      BuildEntries(v, m, inside, did, up + [r], index);
      BuildBoth(v, m, FileIds(inside), FileIds(more), index);
      FitsAfterDir(v, up, e, r, index);
      BuildEntries(v + Added(inside, up + [r], index), m, more, id, up, index);
      AddedDir(v, up, e, r, index);
  }

  // ----- the round trip

  /** A file with id `id` lies at path `p` of the directory. */
  ghost predicate FileAt(e: Entries, p: Path, id: nat) {
    match e
    case Done => false
    case File(name, fid, more) => (p == [name] && id == fid) || FileAt(more, p, id)
    case Dir(name, _, inside, more) => (|p| > 1 && p[0] == name && FileAt(inside, p[1..], id)) || FileAt(more, p, id)
  }

  /** A directory with id `id` and some file below it lies at path `p`. */
  ghost predicate DirAt(e: Entries, p: Path, id: nat) {
    match e
    case Done => false
    case File(_, _, more) => DirAt(more, p, id)
    case Dir(name, did, inside, more) =>
      || (FileIds(inside) != []
          && ((p == [name] && id == did) || (|p| > 1 && p[0] == name && DirAt(inside, p[1..], id))))
      || DirAt(more, p, id)
  }

  ghost predicate NodeAt(e: Entries, p: Path, n: Node) {
    if n.isDir then DirAt(e, p, n.id) else FileAt(e, p, n.id)
  }

  lemma {:induction false} NodeAtTop(e: Entries, p: Path, n: Node)
    requires NodeAt(e, p, n)
    ensures p != [] && p[0] in TopNames(e) && FileIds(e) != []
  {
    match e
    case Done =>
    case File(_, id, more) =>
      assert FileIds(e)[0] == id;
      if NodeAt(more, p, n) { NodeAtTop(more, p, n); }
    case Dir(_, _, inside, more) =>
      assert |FileIds(e)| == |FileIds(inside)| + |FileIds(more)|;
      if NodeAt(more, p, n) { NodeAtTop(more, p, n); }
      else if |p| > 1 && NodeAt(inside, p[1..], n) { NodeAtTop(inside, p[1..], n); }
  }

  lemma SameEnd(path: Path, p: Path, q: Path)
    ensures path + p == path + q <==> p == q
  {
    if path + p == path + q { assert (path + p)[|path|..] == p && (path + q)[|path|..] == q; }
  }

  /** The listing of a directory in terms of where its files are. */
  lemma {:induction false} TreeMeaning(e: Entries, path: Path, index: nat, p: Path, n: Node)
    requires SiblingsDiffer(e)
    ensures path + p in TreeOf(e, path, index) && TreeOf(e, path, index)[path + p] == n <==>
            NodeAt(e, p, n) && n.index == index
  {
    TreeKeys(e, path, index);
    if NodeAt(e, p, n) { NodeAtTop(e, p, n); }
    match e
    case Done =>
    case File(name, _, more) =>
      TreeMeaning(more, path, index, p, n);
      TreeKeys(more, path, index);
      SameEnd(path, p, [name]);
    case Dir(name, _, inside, more) =>
      TreeMeaning(more, path, index, p, n);
      TreeKeys(more, path, index);
      TreeKeys(inside, path + [name], index);
      SameEnd(path, p, [name]);
      if p != [] && p[0] == name {
        assert path + p == (path + [name]) + p[1..];
        TreeMeaning(inside, path + [name], index, p[1..], n);
        if NodeAt(inside, p[1..], n) { NodeAtTop(inside, p[1..], n); }
        if NodeAt(more, p, n) { NodeAtTop(more, p, n); }
      } else if p != [] {
        assert (path + p)[|path|] == p[0];
      }
  }

  /** Packing a directory and building the tree from the records gives back every file at its path under
      its id, and every directory that has a file below it, and nothing else: for ids that the metadata map
      tells apart, that of the top included, distinct sibling names, and at most 32 directories on a path. */
  lemma PackingRoundTrip(e: Entries, top: nat, index: nat)
    requires DistinctIds(Flatten(e, top)) && DistinctTop(Flatten(e, top), top)
    requires SiblingsDiffer(e) && Depth(e) <= 32
    ensures var b := Build(EmptyListing(), Load(map[], Flatten(e, top)), FileIds(e), index);
            && b.error == None
            && (forall p, n :: p != [] ==>
                (p in b.listing && b.listing[p] == n <==> NodeAt(e, p, n) && n.index == index))
  {
    var m := Load(map[], Flatten(e, top));
    LoadFinds(map[], Flatten(e, top));
    assert Known(m, e, top) && IsChain(m, top, []);
    assert Trail([], [], index) == map[] && Names([]) == [];
    BuildEntries(EmptyListing(), m, e, top, [], index);
    NoFilesMeansNone(e, index);
    forall p, n | p != [] ensures
      p in EmptyListing() + Added(e, [], index) && (EmptyListing() + Added(e, [], index))[p] == n <==>
        NodeAt(e, p, n) && n.index == index
    {
      TreeMeaning(e, [], index, p, n);
      assert [] + p == p;
    }
  }

  lemma NoFilesMeansNone(e: Entries, index: nat)
    ensures Added(e, [], index) == TreeOf(e, [], index)
  {
    if FileIds(e) == [] { NoFilesNoTree(e, [], index); }
    assert Names([]) == [] && Trail([], [], index) == map[];
  }
}
