/** Searching the archive tree (lib/search.c), the regular expression being any predicate on names. */
module Search {
  import opened Tree
  import opened Inodes
  import Locate

  const ALLOC_SIZE: nat := 10

  datatype Mode = FileOnly | DirOnly | FilePlusDir | FullPath

  /** What a mode and a matcher select. */
  predicate Selected(v: Listing, p: Path, mode: Mode, matches: string -> bool)
    requires p in v && p != []
  {
    if v[p].isDir then mode in {DirOnly, FilePlusDir} && matches(p[|p| - 1])
    else if mode == FullPath then matches(Locate.Printed(v, p))
    else mode in {FileOnly, FilePlusDir} && matches(p[|p| - 1])
  }

  /** The selected paths below `p` whose next name is among `names`. */
  ghost function HitsBelow(v: Listing, p: Path, names: set<string>, mode: Mode, matches: string -> bool): set<Path> {
    set q | q in v && |q| > |p| && p <= q && q[|p|] in names && Selected(v, q, mode, matches)
  }

  /** The selected paths at `p` and below. */
  ghost function HitsAt(v: Listing, p: Path, mode: Mode, matches: string -> bool): set<Path>
    requires p != []
  {
    set q | q in v && p <= q && Selected(v, q, mode, matches)
  }

  /** `hits` lists every path of `all`, each once. */
  ghost predicate Lists(hits: seq<Path>, all: set<Path>) {
    && (forall i, j :: 0 <= i < j < |hits| ==> hits[i] != hits[j])
    && (forall q :: q in hits <==> q in all)
  }

  ghost function Texts(v: Listing, hits: seq<Path>): seq<string>
    requires [] !in hits
  {
    seq(|hits|, i requires 0 <= i < |hits| => Locate.Printed(v, hits[i]))
  }

  lemma ListsBoth(a: seq<Path>, b: seq<Path>, s: set<Path>, t: set<Path>)
    requires Lists(a, s) && Lists(b, t) && s !! t
    ensures Lists(a + b, s + t)
  {
    forall i, j | 0 <= i < j < |a + b| ensures (a + b)[i] != (a + b)[j] {
      if i < |a| <= j { assert a[i] in s && b[j - |a|] in t; }
    }
  }

  /** The children of a directory account for all that lies below it. */
  lemma HitsSplit(v: Listing, p: Path, n: string, done: set<string>, mode: Mode, matches: string -> bool)
    requires n !in done
    ensures HitsBelow(v, p, done + {n}, mode, matches)
            == HitsBelow(v, p, done, mode, matches) + HitsAt(v, p + [n], mode, matches)
    ensures HitsBelow(v, p, done, mode, matches) !! HitsAt(v, p + [n], mode, matches)
  {
    forall q | q in v ensures p + [n] <= q <==> |q| > |p| && p <= q && q[|p|] == n {
      if |q| > |p| && p <= q { NextName(p, q); }
    }
  }

  /** The growing result buffer. */
  class Results {
    var items: array<string>
    var count: nat
    ghost var Contents: seq<string>

    /** Room is left for every result until the next count that ends in 9, when the buffer grows. */
    ghost predicate Valid()
      reads this, items
    {
      count + 9 - count % ALLOC_SIZE <= items.Length && Contents == items[..count]
    }

    constructor ()
      ensures Valid() && Contents == [] && fresh(items)
    {
      items := new string[ALLOC_SIZE];
      count := 0;
      Contents := [];
    }

    method Add(path: string)
      requires Valid()
      modifies this, items
      ensures Valid() && Contents == old(Contents) + [path]
      ensures items == old(items) || fresh(items)
    {
      if count % ALLOC_SIZE == ALLOC_SIZE - 1 {
        var larger := new string[count + ALLOC_SIZE];
        forall i | 0 <= i < count { larger[i] := items[i]; }
        assert larger[..count] == items[..count];
        items := larger;
      }
      items[count] := path;
      count := count + 1;
      Contents := Contents + [path];
    }
  }

  lemma NextName(p: Path, q: Path)
    requires p <= q && p != q
    ensures |q| > |p| && q[..|p|] == p && q[..|p| + 1] == p + [q[|p|]]
  {
    assert |q| == |p| ==> p == q;
  }

  /** What is hit at a place and below it: the place itself, and what lies below its children. */
  lemma HitsFromChildren(at: Places, kids: Families, v: Listing, p: Path, mode: Mode, matches: string -> bool)
    requires Linking(at, kids) && p in at && p != [] && v == ListingOf(at)
    ensures at[p].name == p[|p| - 1] && p in v && v[p].isDir == at[p].isDir
    ensures HitsAt(v, p, mode, matches)
            == (if Selected(v, p, mode, matches) then {p} else {}) + HitsBelow(v, p, kids[p].Keys, mode, matches)
    ensures p !in HitsBelow(v, p, kids[p].Keys, mode, matches)
    ensures !at[p].isDir ==> HitsBelow(v, p, kids[p].Keys, mode, matches) == {}
    ensures p in kids
  {
    hide Linking, ListingOf;
    UpOne(at, kids, p);
    OnePlaceEach(at, kids, p);
    ListingAt(at, p);
    forall q | q in v && p <= q && q != p ensures at[p].isDir && |q| > |p| && q[|p|] in kids[p] {
      ListingAt(at, q);
      NextName(p, q);
      PlacesClosed(at, kids, q, |p|);
      PlacesClosed(at, kids, q, |p| + 1);
      ChildListed(at, kids, p, q[|p|]);
    }
  }

  lemma NoHits(v: Listing, p: Path, mode: Mode, matches: string -> bool)
    ensures Lists([], HitsBelow(v, p, {}, mode, matches)) && Texts(v, []) == []
  {
  }

  lemma TextsBoth(v: Listing, a: seq<Path>, b: seq<Path>)
    requires [] !in a && [] !in b
    ensures [] !in a + b && Texts(v, a + b) == Texts(v, a) + Texts(v, b)
  {
  }

  lemma AddedTexts(before: seq<string>, v: Listing, a: seq<Path>, b: seq<Path>)
    requires [] !in a && [] !in b
    ensures [] !in a + b && before + Texts(v, a) + Texts(v, b) == before + Texts(v, a + b)
  {
    TextsBoth(v, a, b);
    hide Texts;
    assert before + Texts(v, a) + Texts(v, b) == before + (Texts(v, a) + Texts(v, b));
  }

  /** `search_inode`: the inode itself, then, for a directory, everything below it. */
  method SearchInode(a: Archive, inode: Inode, ghost p: Path, mode: Mode, matches: string -> bool, results: Results)
    returns (ghost hits: seq<Path>)
    requires a.Valid() && p in a.at && p != [] && a.at[p] == inode && results.Valid()
    modifies results, results.items
    ensures results.Valid() && (results.items == old(results.items) || fresh(results.items))
    ensures Lists(hits, HitsAt(a.Listing(), p, mode, matches)) && [] !in hits
    ensures results.Contents == old(results.Contents) + Texts(a.Listing(), hits)
    decreases MAX_LEVEL + 2 - |p|, 1
  {
    hide Linking, IsTree, ListingOf, HitsAt, HitsBelow, Texts;
    HitsFromChildren(a.at, a.Kids(), a.Listing(), p, mode, matches);
    DepthOf(a.Listing(), p);
    NoHits(a.Listing(), p, mode, matches);
    ghost var v, names := a.Listing(), inode.children.Keys;
    var path := a.PathOf(inode, p);
    var matched :=
      if inode.isDir then mode in {DirOnly, FilePlusDir} && matches(inode.name)
      else if mode == FullPath then matches(path)
      else mode in {FileOnly, FilePlusDir} && matches(inode.name);
    ghost var self: seq<Path> := if matched then [p] else [];
    if matched {
      results.Add(path);
    }
    TextOf(v, p);
    ghost var below: seq<Path> := [];
    if inode.isDir {
      below := SearchChildren(a, inode, p, mode, matches, results);
    }
    AddedTexts(old(results.Contents), v, self, below);
    ListsBoth(self, below, if matched then {p} else {}, HitsBelow(v, p, names, mode, matches));
    hits := self + below;
  }

  lemma TextOf(v: Listing, p: Path)
    requires p != []
    ensures Texts(v, [p]) == [Locate.Printed(v, p)]
  {
  }

  lemma DepthOf(v: Listing, p: Path)
    requires IsTree(v) && p in v
    ensures |p| <= if v[p].isDir then MAX_LEVEL else MAX_LEVEL + 1
  {
  }

  /** `hashmap_scan` of a directory's children, in whatever order the map holds them. */
  method SearchChildren(a: Archive, dir: Inode, ghost p: Path, mode: Mode, matches: string -> bool, results: Results)
    returns (ghost hits: seq<Path>)
    requires a.Valid() && p in a.at && a.at[p] == dir && dir.isDir && results.Valid()
    modifies results, results.items
    ensures results.Valid() && (results.items == old(results.items) || fresh(results.items))
    ensures Lists(hits, HitsBelow(a.Listing(), p, dir.children.Keys, mode, matches)) && [] !in hits
    ensures results.Contents == old(results.Contents) + Texts(a.Listing(), hits)
    decreases MAX_LEVEL + 2 - |p|, 0
  {
    hide a.Valid, Linking, IsTree, ListingOf, HitsAt, HitsBelow, Texts, Lists, Scanned;
    NothingScanned(results.Contents, a.Listing(), p, mode, matches);
    ChildrenListed(a, dir, p);
    ghost var v, before, done: set<string> := a.Listing(), results.Contents, {};
    hits := [];
    var names := dir.children.Keys;
    while names != {}
      invariant names + done == dir.children.Keys && names !! done
      invariant results.Valid() && (results.items == old(results.items) || fresh(results.items))
      invariant Scanned(before, results.Contents, v, p, done, hits, mode, matches)
      decreases names
    {
      var n :| n in names;
      ghost var now := results.Contents;
      ghost var more := SearchInode(a, dir.children[n], p + [n], mode, matches, results);
      ScannedOneMore(before, now, v, p, n, done, hits, more, mode, matches);
      hits := hits + more;
      names, done := names - {n}, done + {n};
    }
    AllScanned(before, results.Contents, v, p, done, hits, mode, matches);
    assert done == dir.children.Keys;
  }

  /** Having scanned the children `done`, `hits` are found and their paths added. */
  ghost predicate Scanned(before: seq<string>, now: seq<string>, v: Listing, p: Path, done: set<string>,
                          hits: seq<Path>, mode: Mode, matches: string -> bool)
  {
    [] !in hits && Lists(hits, HitsBelow(v, p, done, mode, matches)) && now == before + Texts(v, hits)
  }

  lemma NothingScanned(before: seq<string>, v: Listing, p: Path, mode: Mode, matches: string -> bool)
    ensures Scanned(before, before, v, p, {}, [], mode, matches)
  {
    NoHits(v, p, mode, matches);
    assert before + [] == before;
  }

  lemma ScannedOneMore(before: seq<string>, now: seq<string>, v: Listing, p: Path, n: string, done: set<string>,
                       hits: seq<Path>, more: seq<Path>, mode: Mode, matches: string -> bool)
    requires n !in done && [] !in more && Lists(more, HitsAt(v, p + [n], mode, matches))
    requires Scanned(before, now, v, p, done, hits, mode, matches)
    ensures Scanned(before, now + Texts(v, more), v, p, done + {n}, hits + more, mode, matches)
  {
    HitsSplit(v, p, n, done, mode, matches);
    ListsBoth(hits, more, HitsBelow(v, p, done, mode, matches), HitsAt(v, p + [n], mode, matches));
    AddedTexts(before, v, hits, more);
  }

  lemma AllScanned(before: seq<string>, now: seq<string>, v: Listing, p: Path, done: set<string>, hits: seq<Path>,
                   mode: Mode, matches: string -> bool)
    requires Scanned(before, now, v, p, done, hits, mode, matches)
    ensures [] !in hits && Lists(hits, HitsBelow(v, p, done, mode, matches)) && now == before + Texts(v, hits)
  {
  }

  lemma ChildrenListed(a: Archive, dir: Inode, p: Path)
    requires a.Valid() && p in a.at && a.at[p] == dir && dir.isDir
    ensures forall n :: n in dir.children ==> p + [n] in a.at && a.at[p + [n]] == dir.children[n]
    ensures |p| <= MAX_LEVEL
  {
    ListingAt(a.at, p);
    DepthOf(a.Listing(), p);
    assert a.Kids()[p] == dir.children;
  }

  /** What each mode looks for: files by name, directories by name, both, or files by their whole path. */
  ghost predicate Sought(v: Listing, q: Path, mode: Mode, matches: string -> bool)
    requires q in v && q != []
  {
    match mode
    case FileOnly => !v[q].isDir && matches(q[|q| - 1])
    case DirOnly => v[q].isDir && matches(q[|q| - 1])
    case FilePlusDir => matches(q[|q| - 1])
    case FullPath => !v[q].isDir && matches(Locate.Printed(v, q))
  }

  lemma SelectedIsSought(v: Listing, q: Path, mode: Mode, matches: string -> bool)
    requires q in v && q != []
    ensures Selected(v, q, mode, matches) <==> Sought(v, q, mode, matches)
  {
  }

  /** `texts` are the paths of exactly the inodes below the root that are sought, each inode once. */
  ghost predicate Reports(v: Listing, texts: seq<string>, mode: Mode, matches: string -> bool) {
    exists hits: seq<Path> ::
      [] !in hits && Lists(hits, set q | q in v && q != [] && Sought(v, q, mode, matches)) && texts == Texts(v, hits)
  }

  /** `wows_search`. */
  method WowsSearch(a: Archive, mode: Mode, matches: string -> bool) returns (results: array<string>, count: nat)
    requires a.Valid()
    ensures count <= results.Length && Reports(a.Listing(), results[..count], mode, matches)
  {
    hide Linking, IsTree, ListingOf, HitsBelow, Texts, Lists;
    var found := new Results();
    ghost var hits := SearchChildren(a, a.root, [], mode, matches, found);
    EverythingBelowRoot(a.at, a.Kids(), a.Listing(), mode, matches);
    results, count := found.items, found.count;
    assert [] + found.Contents == found.Contents;
  }

  lemma EverythingBelowRoot(at: Places, kids: Families, v: Listing, mode: Mode, matches: string -> bool)
    requires Linking(at, kids) && [] in at && v == ListingOf(at)
    ensures HitsBelow(v, [], kids[[]].Keys, mode, matches) == set q | q in v && q != [] && Sought(v, q, mode, matches)
  {
    forall q | q in v && q != [] ensures Selected(v, q, mode, matches) <==> Sought(v, q, mode, matches) {
      SelectedIsSought(v, q, mode, matches);
    }
    forall q | q in v && q != [] ensures q[0] in kids[[]] {
      PlacesClosed(at, kids, q, 1);
      assert q[..1] == [] + [q[0]];
      ChildListed(at, kids, [], q[0]);
    }
  }
}
