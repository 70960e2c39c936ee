/** The archive tree as values: metadata records, the directory listing they build, and lookups in it
    (lib/index-parser.c get_path, lib/inode.c build_inode_tree, lib/inflate.c get_inode). */
module Tree {
  import opened Basics

  const MAX_LEVEL: nat := 32

  /** A metadata record as the parser leaves it. */
  datatype Record = Record(id: nat, parent: nat, name: string)

  type Metadata = map<nat, Record>

  /** An inode as seen from outside. */
  datatype Node = Node(isDir: bool, id: nat, index: nat)

  type Path = seq<string>

  /** Every inode reachable from the root, under its path. */
  type Listing = map<Path, Node>

  datatype Error = MissingMetadata | IdCollision | NotFound | NotADir

  datatype Built = Built(listing: Listing, error: Option<Error>)

  /** Filling the metadata map, one `hashmap_set` a record. */
  function Load(m: Metadata, rs: seq<Record>): Metadata
    decreases |rs|
  {
    if rs == [] then m else Load(m[rs[0].id := rs[0]], rs[1..])
  }

  /** `get_path`: the records from parent `id` upwards, at most `fuel` of them. */
  function Chain(m: Metadata, id: nat, fuel: nat): seq<Record>
    decreases fuel
  {
    if fuel == 0 || id !in m then [] else [m[id]] + Chain(m, m[id].parent, fuel - 1)
  }

  /** The chain outermost first, as directories are entered. */
  function Ancestors(m: Metadata, id: nat, fuel: nat): seq<Record>
    decreases fuel
  {
    if fuel == 0 || id !in m then [] else Ancestors(m, m[id].parent, fuel - 1) + [m[id]]
  }

  function Names(rs: seq<Record>): Path {
    seq(|rs|, i requires 0 <= i < |rs| => rs[i].name)
  }

  /** From directory `at`, the directories `rs` are entered, made where missing; a file in the way stops it. */
  function Descend(v: Listing, at: Path, rs: seq<Record>, index: nat): Built
    decreases |rs|
  {
    if rs == [] then Built(v, None)
    else
      var next := at + [rs[0].name];
      if next !in v then Descend(v[next := Node(true, rs[0].id, index)], next, rs[1..], index)
      else if v[next].isDir then Descend(v, next, rs[1..], index)
      else Built(v, Some(IdCollision))
  }

  /** `path` or something below it. */
  predicate Below(path: Path, q: Path) {
    path <= q
  }

  lemma DescendNext(v: Listing, at: Path, rs: seq<Record>, index: nat)
    ensures rs == [] ==> Descend(v, at, rs, index) == Built(v, None)
    ensures rs != [] ==>
              var next := at + [rs[0].name];
              Descend(v, at, rs, index) ==
                if next in v && !v[next].isDir then Built(v, Some(IdCollision))
                else Descend(if next in v then v else v[next := Node(true, rs[0].id, index)], next, rs[1..], index)
  {
  }

  /** A node put at `path` in place of whatever was listed there or below. */
  function Put(v: Listing, path: Path, n: Node): Listing {
    (map q | q in v && !Below(path, q) :: v[q])[path := n]
  }

  /** A file replaces whatever had its name, a directory with all below it. */
  function PutFile(v: Listing, path: Path, id: nat, index: nat): Listing {
    Put(v, path, Node(false, id, index))
  }

  /** One turn of the loop of `build_inode_tree`. */
  function BuildFile(v: Listing, m: Metadata, id: nat, index: nat): Built {
    if id !in m then Built(v, Some(MissingMetadata))
    else
      var rs := Ancestors(m, m[id].parent, MAX_LEVEL);
      var b := Descend(v, [], rs, index);
      if b.error.Some? then b else Built(PutFile(b.listing, Names(rs) + [m[id].name], m[id].id, index), None)
  }

  function Build(v: Listing, m: Metadata, files: seq<nat>, index: nat): Built
    decreases |files|
  {
    if files == [] then Built(v, None)
    else
      var b := BuildFile(v, m, files[0], index);
      if b.error.Some? then b else Build(b.listing, m, files[1..], index)
  }

  lemma BuildNext(v: Listing, m: Metadata, files: seq<nat>, index: nat)
    ensures files == [] ==> Build(v, m, files, index) == Built(v, None)
    ensures files != [] ==>
              var b := BuildFile(v, m, files[0], index);
              Build(v, m, files, index) == if b.error.Some? then b else Build(b.listing, m, files[1..], index)
  {
  }

  function EmptyListing(): Listing {
    map[[] := Node(true, 0, 0)]
  }

  /** A listing that is a tree: the root is a directory, every other path lies in a listed directory,
      and at most 32 directories lie between the root and any file. */
  ghost predicate IsTree(v: Listing) {
    && [] in v && v[[]].isDir
    && (forall p :: p in v && p != [] ==> p[..|p| - 1] in v && v[p[..|p| - 1]].isDir)
    && (forall p :: p in v ==> |p| <= if v[p].isDir then 32 else 33)
  }

  // ----- every build leaves a tree

  lemma {:induction false} AncestorsBounded(m: Metadata, id: nat, fuel: nat)
    ensures |Ancestors(m, id, fuel)| <= fuel
    ensures Ancestors(m, id, fuel) == Reversed(Chain(m, id, fuel))
    decreases fuel
  {
    if fuel > 0 && id in m {
      AncestorsBounded(m, m[id].parent, fuel - 1);
      assert Chain(m, id, fuel)[1..] == Chain(m, m[id].parent, fuel - 1);
    }
  }

  lemma AddDirKeepsTree(v: Listing, at: Path, name: string, id: nat, index: nat)
    requires IsTree(v) && at in v && v[at].isDir && |at| < MAX_LEVEL && at + [name] !in v
    ensures IsTree(v[at + [name] := Node(true, id, index)])
  {
    var w := v[at + [name] := Node(true, id, index)];
    assert (at + [name])[..|at|] == at;
    forall p | p in w && p != [] ensures p[..|p| - 1] in w && w[p[..|p| - 1]].isDir {
      assert p != at + [name] ==> p in v;
    }
  }

  lemma NamesStep(at: Path, rs: seq<Record>)
    requires rs != []
    ensures at + Names(rs) == (at + [rs[0].name]) + Names(rs[1..])
  {
  }

  lemma {:induction false} DescendKeepsTree(v: Listing, at: Path, rs: seq<Record>, index: nat)
    requires IsTree(v) && at in v && v[at].isDir && |at| + |rs| <= MAX_LEVEL
    ensures IsTree(Descend(v, at, rs, index).listing)
    ensures var b := Descend(v, at, rs, index);
            b.error == None ==> at + Names(rs) in b.listing && b.listing[at + Names(rs)].isDir
    decreases |rs|
  {
    hide IsTree;
    if rs == [] {
      assert at + Names(rs) == at;
    } else {
      var next := at + [rs[0].name];
      NamesStep(at, rs);
      if next !in v {
        AddDirKeepsTree(v, at, rs[0].name, rs[0].id, index);
        DescendKeepsTree(v[next := Node(true, rs[0].id, index)], next, rs[1..], index);
      } else if v[next].isDir {
        DescendKeepsTree(v, next, rs[1..], index);
      }
    }
  }

  lemma PutFileKeepsTree(v: Listing, dir: Path, name: string, id: nat, index: nat)
    requires IsTree(v) && dir in v && v[dir].isDir
    ensures IsTree(PutFile(v, dir + [name], id, index))
  {
    var path := dir + [name];
    var w := PutFile(v, path, id, index);
    forall p | p in w && p != [] ensures p[..|p| - 1] in w && w[p[..|p| - 1]].isDir {
      var q := p[..|p| - 1];
      if p == path {
        assert q == dir;
      } else {
        assert p in v && !Below(path, p);
        assert q <= p;
      }
    }
  }

  /** After any sequence of builds over any metadata, parent cycles included, and even when a build stops
      with an error, the listing is a tree at most 32 directories deep. */
  lemma {:induction false} BuildKeepsTree(v: Listing, m: Metadata, files: seq<nat>, index: nat)
    requires IsTree(v)
    ensures IsTree(Build(v, m, files, index).listing)
    decreases |files|
  {
    if files != [] && files[0] in m {
      var rs := Ancestors(m, m[files[0]].parent, MAX_LEVEL);
      AncestorsBounded(m, m[files[0]].parent, MAX_LEVEL);
      DescendKeepsTree(v, [], rs, index);
      assert [] + Names(rs) == Names(rs);
      var b := Descend(v, [], rs, index);
      if b.error == None {
        PutFileKeepsTree(b.listing, Names(rs), m[files[0]].name, m[files[0]].id, index);
        BuildKeepsTree(BuildFile(v, m, files[0], index).listing, m, files[1..], index);
      }
    }
  }

  // ----- looking a path up

  datatype Lookup = Found(path: Path) | Failed(error: Error)

  /** The loop of `get_inode`: a missing name loses the place for good, and a file is never left. */
  function Walk(v: Listing, place: Option<Path>, dirs: Path): Option<Path>
    decreases |dirs|
  {
    if dirs == [] then place
    else if place.Some? && place.value in v && v[place.value].isDir then
      var next := place.value + [dirs[0]];
      Walk(v, if next in v then Some(next) else None, dirs[1..])
    else Walk(v, place, dirs[1..])
  }

  lemma WalkNext(v: Listing, place: Option<Path>, dirs: Path)
    ensures dirs == [] ==> Walk(v, place, dirs) == place
    ensures dirs != [] ==>
              Walk(v, place, dirs) ==
                if place.Some? && place.value in v && v[place.value].isDir then
                  var next := place.value + [dirs[0]];
                  Walk(v, if next in v then Some(next) else None, dirs[1..])
                else Walk(v, place, dirs[1..])
  {
  }

  function Resolve(v: Listing, dirs: Path, file: Option<string>): Lookup {
    match Walk(v, Some([]), dirs)
    case None => Failed(NotFound)
    case Some(p) =>
      match file
      case None => Found(p)
      case Some(name) =>
        if p !in v || !v[p].isDir then Failed(NotADir)
        else if p + [name] in v then Found(p + [name])
        else Failed(NotFound)
  }

  lemma {:induction false} WalkStuck(v: Listing, place: Option<Path>, dirs: Path)
    requires place.Some? ==> place.value in v && !v[place.value].isDir
    ensures Walk(v, place, dirs) == place
    decreases |dirs|
  {
    if dirs != [] { WalkStuck(v, place, dirs[1..]); }
  }

  lemma {:induction false} PrefixListed(v: Listing, p: Path, k: nat)
    requires IsTree(v) && p in v && k <= |p|
    ensures p[..k] in v && (k < |p| ==> v[p[..k]].isDir)
    decreases |p| - k
  {
    if k < |p| {
      PrefixListed(v, p, k + 1);
      assert p[..k + 1][..k] == p[..k];
    } else {
      assert p[..k] == p;
    }
  }

  /** `q` is where a walk from directory `at` along `dirs` may end. */
  ghost predicate EndOfWalk(v: Listing, at: Path, dirs: Path, q: Path) {
    q in v && at <= q && q <= at + dirs && (q == at + dirs || !v[q].isDir)
  }

  lemma EndIsPastFirst(v: Listing, at: Path, dirs: Path, q: Path)
    requires IsTree(v) && at in v && v[at].isDir && dirs != [] && EndOfWalk(v, at, dirs, q)
    ensures var next := at + [dirs[0]];
            next <= q && next in v && (q != next ==> v[next].isDir)
  {
    hide IsTree;
    var next := at + [dirs[0]];
    assert q != at && |q| >= |next|;
    assert q[..|next|] == (at + dirs)[..|next|] == next;
    PrefixListed(v, q, |next|);
  }

  /** The walk from a listed directory ends at the whole path if that is listed, at the file met on the
      way if there is one, and nowhere otherwise. */
  lemma {:induction false} WalkMeaning(v: Listing, at: Path, dirs: Path, q: Path)
    requires IsTree(v) && at in v && v[at].isDir
    ensures Walk(v, Some(at), dirs) == Some(q) <==> EndOfWalk(v, at, dirs, q)
    decreases |dirs|
  {
    hide IsTree;
    if dirs == [] {
      assert at + dirs == at;
      assert at <= q && q <= at ==> q == at;
    } else {
      var next := at + [dirs[0]];
      assert at + dirs == next + dirs[1..];
      if EndOfWalk(v, at, dirs, q) { EndIsPastFirst(v, at, dirs, q); }
      if next !in v {
        WalkStuck(v, None, dirs[1..]);
      } else if v[next].isDir {
        WalkMeaning(v, next, dirs[1..], q);
      } else {
        WalkStuck(v, Some(next), dirs[1..]);
      }
    }
  }

  /** A path with a final name is found exactly where it is listed. With a trailing slash it is also
      found when some file stands on the way: the file is what is then returned. */
  lemma ResolveMeaning(v: Listing, dirs: Path, file: Option<string>, q: Path)
    requires IsTree(v)
    ensures Resolve(v, dirs, file) == Found(q) <==>
              match file
              case Some(name) => q in v && q == dirs + [name]
              case None => q in v && q <= dirs && (q == dirs || !v[q].isDir)
  {
    assert [] in v && v[[]].isDir && [] + dirs == dirs;
    hide IsTree;
    WalkMeaning(v, [], dirs, q);
    match file
    case None =>
    case Some(name) =>
      if q in v && q == dirs + [name] {
        PrefixListed(v, q, |dirs|);
        assert q[..|dirs|] == dirs;
        WalkMeaning(v, [], dirs, dirs);
      }
      var w := Walk(v, Some([]), dirs);
      if w.Some? { WalkMeaning(v, [], dirs, w.value); }
  }

  /** One of the directories named, the last included, is listed as a file. */
  ghost predicate FileOnWay(v: Listing, dirs: Path) {
    exists k :: 0 <= k <= |dirs| && dirs[..k] in v && !v[dirs[..k]].isDir
  }

  /** A file on the way is where the walk ends, and the only file it ends at. */
  lemma WalkEndsAtFile(v: Listing, dirs: Path)
    requires IsTree(v)
    ensures FileOnWay(v, dirs) <==> var p := Walk(v, Some([]), dirs); p.Some? && p.value in v && !v[p.value].isDir
    ensures Walk(v, Some([]), dirs).None? ==> dirs !in v
  {
    assert [] in v && v[[]].isDir && [] + dirs == dirs;
    hide IsTree, Walk;
    if FileOnWay(v, dirs) {
      var k :| 0 <= k <= |dirs| && dirs[..k] in v && !v[dirs[..k]].isDir;
      WalkMeaning(v, [], dirs, dirs[..k]);
    }
    WalkMeaning(v, [], dirs, dirs);
    var p := Walk(v, Some([]), dirs);
    if p.Some? {
      WalkMeaning(v, [], dirs, p.value);
      assert dirs[..|p.value|] == p.value;
    }
  }

  /** A lookup fails for a file on the way exactly when there is a final name to look for behind it, and because
      the path is not listed exactly when no file is on the way. There is no other failure. */
  lemma ResolveFails(v: Listing, dirs: Path, file: Option<string>)
    requires IsTree(v)
    ensures Resolve(v, dirs, file) == Failed(NotADir) <==> file.Some? && FileOnWay(v, dirs)
    ensures Resolve(v, dirs, file) == Failed(NotFound) <==>
              !FileOnWay(v, dirs) && (if file.Some? then dirs + [file.value] else dirs) !in v
    ensures Resolve(v, dirs, file).Found? || Resolve(v, dirs, file).error in {NotFound, NotADir}
  {
    hide IsTree, FileOnWay;
    WalkEndsAtFile(v, dirs);
    if file.Some? {
      ResolveMeaning(v, dirs, file, dirs + [file.value]);
    } else {
      ResolveMeaning(v, dirs, file, dirs);
    }
    var p := Walk(v, Some([]), dirs);
    if p.Some? { EndListed(v, dirs); }
  }

  lemma EndListed(v: Listing, dirs: Path)
    requires IsTree(v) && Walk(v, Some([]), dirs).Some?
    ensures var p := Walk(v, Some([]), dirs).value; p in v && (v[p].isDir ==> p == dirs)
  {
    assert [] in v && v[[]].isDir && [] + dirs == dirs;
    hide IsTree, Walk;
    WalkMeaning(v, [], dirs, Walk(v, Some([]), dirs).value);
  }

  // ----- climbing back to the root

  /** The loop of `get_path_inode`: the names from directory `d` upwards until a directory of id 0, at most `fuel`. */
  function Climbed(v: Listing, d: Path, fuel: nat): Path
    decreases fuel
  {
    if fuel == 0 || d == [] || d !in v || v[d].id == 0 then [] else [d[|d| - 1]] + Climbed(v, d[..|d| - 1], fuel - 1)
  }

  lemma ClimbedNext(v: Listing, d: Path, fuel: nat)
    ensures Climbed(v, d, fuel) ==
              if fuel == 0 || d == [] || d !in v || v[d].id == 0 then []
              else [d[|d| - 1]] + Climbed(v, d[..|d| - 1], fuel - 1)
  {
  }

  /** No directory from the top down to `d` has id 0, the id of the root. */
  ghost predicate IdsNonZero(v: Listing, d: Path) {
    forall k :: 0 < k <= |d| && d[..k] in v ==> v[d[..k]].id != 0
  }

  lemma IdsStep(v: Listing, d: Path)
    requires d != [] && d in v
    ensures IdsNonZero(v, d) <==> IdsNonZero(v, d[..|d| - 1]) && v[d].id != 0
  {
    var up := d[..|d| - 1];
    assert d[..|d|] == d;
    assert forall j :: 0 < j <= |up| ==> d[..j] == up[..j];
  }

  lemma ClimbNext(v: Listing, d: Path, fuel: nat)
    requires fuel > 0 && d != [] && d in v && v[d].id != 0
    ensures Reversed(Climbed(v, d, fuel)) == Reversed(Climbed(v, d[..|d| - 1], fuel - 1)) + [d[|d| - 1]]
  {
    var c := Climbed(v, d, fuel);
    assert c[1..] == Climbed(v, d[..|d| - 1], fuel - 1) && c[0] == d[|d| - 1];
  }

  /** The climb stops where an id is 0: it gives the names of a tail of the path, the whole of it exactly
      when no directory on the way has id 0. */
  lemma {:induction false} ClimbMeaning(v: Listing, d: Path, fuel: nat) returns (k: nat)
    requires IsTree(v) && d in v && |d| <= fuel
    ensures k <= |d| && Reversed(Climbed(v, d, fuel)) == d[k..]
    ensures k == 0 <==> IdsNonZero(v, d)
    decreases fuel
  {
    hide IsTree;
    if d == [] {
      k := 0;
    } else {
      PrefixListed(v, d, |d| - 1);
      IdsStep(v, d);
      if v[d].id == 0 {
        k := |d|;
      } else {
        ClimbNext(v, d, fuel);
        hide Climbed, Reversed, IdsNonZero;
        var up := d[..|d| - 1];
        k := ClimbMeaning(v, up, fuel - 1);
        assert d[k..] == up[k..] + [d[|d| - 1]];
      }
    }
  }
}
