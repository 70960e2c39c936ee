/** Releasing an archive tree (lib/memory-helpers.c free_inode_tree). */
module Freeing {
  import opened Tree
  import opened Inodes
  import Search

  /** The places at `p` and below. */
  ghost function Beneath(at: Places, p: Path): set<Path> {
    set q | q in at && p <= q
  }

  /** The places below those children of `p` whose names are given. */
  ghost function BeneathKids(at: Places, p: Path, names: set<string>): set<Path> {
    set q | q in at && |q| > |p| && p <= q && q[|p|] in names
  }

  /** The inodes of the places `all` were released, each once, and none before an inode below it. */
  ghost predicate Released(at: Places, freed: seq<Inode>, order: seq<Path>, all: set<Path>) {
    && |freed| == |order| && Search.Lists(order, all)
    && (forall i :: 0 <= i < |order| ==> order[i] in at && freed[i] == at[order[i]])
    && (forall i, j :: 0 <= i < j < |order| ==> !(order[i] <= order[j]))
  }

  lemma KidsSplit(at: Places, p: Path, n: string, done: set<string>)
    requires n !in done
    ensures BeneathKids(at, p, done + {n}) == BeneathKids(at, p, done) + Beneath(at, p + [n])
    ensures BeneathKids(at, p, done) !! Beneath(at, p + [n])
    ensures forall q, r :: q in BeneathKids(at, p, done) && r in Beneath(at, p + [n]) ==> !(q <= r)
  {
    forall q | q in at ensures p + [n] <= q <==> |q| > |p| && p <= q && q[|p|] == n {
      if |q| > |p| && p <= q { Search.NextName(p, q); }
    }
  }

  /** A place comes after all that lies below it, and below a file lies nothing. */
  lemma PlaceLast(at: Places, kids: Families, p: Path)
    requires Linking(at, kids) && p in at
    ensures p in kids && Beneath(at, p) == BeneathKids(at, p, kids[p].Keys) + {p}
            && p !in BeneathKids(at, p, kids[p].Keys)
    ensures !at[p].isDir ==> Beneath(at, p) == {p}
  {
    hide Linking;
    OnePlaceEach(at, kids, p);
    forall q | q in at && p <= q && q != p ensures at[p].isDir && |q| > |p| && q[|p|] in kids[p] {
      Search.NextName(p, q);
      PlacesClosed(at, kids, q, |p|);
      PlacesClosed(at, kids, q, |p| + 1);
      ChildListed(at, kids, p, q[|p|]);
    }
  }

  lemma ReleasedMore(at: Places, f: seq<Inode>, o: seq<Path>, s: set<Path>, g: seq<Inode>, r: seq<Path>, t: set<Path>)
    requires Released(at, f, o, s) && Released(at, g, r, t) && s !! t
    requires forall p, q :: p in s && q in t ==> !(p <= q)
    ensures Released(at, f + g, o + r, s + t)
  {
    Search.ListsBoth(o, r, s, t);
    forall i, j | 0 <= i < j < |o + r| ensures !((o + r)[i] <= (o + r)[j]) {
      if i < |o| <= j { assert o[i] in s && r[j - |o|] in t; }
    }
  }

  lemma ReleasedNone(at: Places, p: Path)
    ensures Released(at, [], [], BeneathKids(at, p, {}))
  {
  }

  lemma ReleasedOne(at: Places, p: Path)
    requires p in at
    ensures Released(at, [at[p]], [p], {p})
  {
  }

  /** `free_inode_tree`: the inodes in the order in which they are released. */
  method FreeInodeTree(a: Archive, inode: Inode, ghost p: Path) returns (freed: seq<Inode>, ghost order: seq<Path>)
    requires a.Valid() && p in a.at && a.at[p] == inode
    ensures Released(a.at, freed, order, Beneath(a.at, p))
    decreases MAX_LEVEL + 2 - |p|, 1
  {
    hide Linking, IsTree, ListingOf, Released, Beneath, BeneathKids;
    PlaceLast(a.at, a.Kids(), p);
    ReleasedOne(a.at, p);
    if !inode.isDir {
      return [inode], [p];
    }
    freed, order := FreeChildren(a, inode, p);
    NotAbove(a.at, p, inode.children.Keys);
    ReleasedMore(a.at, freed, order, BeneathKids(a.at, p, inode.children.Keys), [inode], [p], {p});
    freed, order := freed + [inode], order + [p];
  }

  lemma NotAbove(at: Places, p: Path, names: set<string>)
    ensures forall q :: q in BeneathKids(at, p, names) ==> !(q <= p)
  {
  }

  /** `hashmap_scan` of the children, in whatever order the map holds them. */
  method FreeChildren(a: Archive, dir: Inode, ghost p: Path) returns (freed: seq<Inode>, ghost order: seq<Path>)
    requires a.Valid() && p in a.at && a.at[p] == dir && dir.isDir
    ensures Released(a.at, freed, order, BeneathKids(a.at, p, dir.children.Keys))
    decreases MAX_LEVEL + 2 - |p|, 0
  {
    hide a.Valid, Linking, IsTree, ListingOf, Released, Beneath, BeneathKids;
    ReleasedNone(a.at, p);
    Search.ChildrenListed(a, dir, p);
    ghost var done: set<string> := {};
    freed, order := [], [];
    var names := dir.children.Keys;
    while names != {}
      invariant names + done == dir.children.Keys && names !! done
      invariant Released(a.at, freed, order, BeneathKids(a.at, p, done))
      decreases names
    {
      var n :| n in names;
      KidsSplit(a.at, p, n, done);
      var more;
      ghost var later;
      more, later := FreeInodeTree(a, dir.children[n], p + [n]);
      ReleasedMore(a.at, freed, order, BeneathKids(a.at, p, done), more, later, Beneath(a.at, p + [n]));
      freed, order := freed + more, order + later;
      names, done := names - {n}, done + {n};
    }
    assert done == dir.children.Keys;
  }

  /** Every inode of the archive is released once, and no inode before one below it. */
  ghost predicate AllReleased(at: Places, freed: seq<Inode>) {
    && (forall q :: q in at ==> at[q] in freed) && (forall i :: 0 <= i < |freed| ==> freed[i] in at.Values)
    && (forall i, j :: 0 <= i < j < |freed| ==> freed[i] != freed[j])
    && (forall p, q, i, j :: p in at && q in at && 0 <= i < j < |freed| && at[p] == freed[i] && at[q] == freed[j] ==>
        !(p <= q))
  }

  lemma ReleasedOnce(at: Places, kids: Families, freed: seq<Inode>, order: seq<Path>)
    requires Linking(at, kids) && Released(at, freed, order, Beneath(at, []))
    ensures AllReleased(at, freed)
  {
    hide Linking;
    forall q | q in at ensures at[q] in freed {
      assert q in order;
      var i :| 0 <= i < |order| && order[i] == q;
      assert freed[i] == at[q];
    }
    forall p, i | p in at && 0 <= i < |freed| && at[p] == freed[i] ensures p == order[i] {
      OnePlaceEach(at, kids, p);
    }
  }

  /** What `wows_free_context` does with the tree. */
  method FreeArchive(a: Archive) returns (freed: seq<Inode>)
    requires a.Valid()
    ensures AllReleased(a.at, freed)
  {
    hide Linking, IsTree, ListingOf, Released, Beneath, AllReleased;
    ghost var order;
    freed, order := FreeInodeTree(a, a.root, []);
    ReleasedOnce(a.at, a.Kids(), freed, order);
  }
}
