/** What a build makes of any listing, path by path (lib/inode.c build_inode_tree). */
module Building {
  import opened Basics
  import opened Tree

  /** The records of the directories above a file, outermost first. */
  function RecordsAbove(m: Metadata, id: nat): seq<Record>
    requires id in m
  {
    Reversed(Chain(m, m[id].parent, MAX_LEVEL))
  }

  /** Their names. */
  function DirsOf(m: Metadata, id: nat): Path
    requires id in m
  {
    Names(RecordsAbove(m, id))
  }

  /** The path that the records give a file. */
  function PathOf(m: Metadata, id: nat): Path
    requires id in m
  {
    DirsOf(m, id) + [m[id].name]
  }

  /** `q` lies above `p`. */
  predicate Above(q: Path, p: Path) {
    q <= p && q != p
  }

  // ----- one file

  /** `w` is `v` with a file at `p`: nothing is below it, the directories above it are those that were
      there or new ones with the ids of the records `rs`, and everything else is as it was. */
  ghost predicate FileAdded(v: Listing, w: Listing, p: Path, rs: seq<Record>, n: Node) {
    && |p| == |rs| + 1
    && p in w && w[p] == n
    && (forall q :: Above(p, q) ==> q !in w)
    && (forall q :: Above(q, p) ==> q in w && w[q] == if q in v then v[q] else Node(true, IdAt(rs, q), n.index))
    && (forall q :: !(p <= q) && !Above(q, p) ==> (q in w <==> q in v) && (q in v ==> w[q] == v[q]))
  }

  /** The id that the record of directory `q` has; that of the root is not asked for. */
  function IdAt(rs: seq<Record>, q: Path): nat {
    if 0 < |q| <= |rs| then rs[|q| - 1].id else 0
  }

  /** A file among the directories from `at` on. */
  ghost predicate FileFrom(v: Listing, at: nat, dirs: Path) {
    exists k :: at <= k <= |dirs| && dirs[..k] in v && !v[dirs[..k]].isDir
  }

  /** The listing once the directories `dirs` are entered. */
  ghost predicate Entered(v: Listing, w: Listing, at: nat, dirs: Path, rs: seq<Record>, index: nat) {
    && (forall q :: q in v ==> q in w && w[q] == v[q])
    && (forall q :: q in w && q !in v ==> at < |q| && q <= dirs && w[q] == Node(true, IdAt(rs, q), index))
    && (forall k :: at < k <= |dirs| ==> dirs[..k] in w)
  }

  /** A new directory has nothing below it. */
  lemma NothingBelow(v: Listing, next: Path, dirs: Path)
    requires IsTree(v) && next !in v && next <= dirs
    ensures !FileFrom(v, |next|, dirs)
  {
    forall k | |next| <= k <= |dirs| ensures dirs[..k] !in v {
      assert dirs[..k][..|next|] == next;
      if dirs[..k] in v { PrefixListed(v, dirs[..k], |next|); }
    }
  }

  lemma FileFromNext(v: Listing, at: Path, name: string, dirs: Path)
    requires at in v && v[at].isDir && at + [name] <= dirs
    ensures FileFrom(v, |at|, dirs) <==> FileFrom(v, |at| + 1, dirs)
    ensures at + [name] in v && !v[at + [name]].isDir ==> FileFrom(v, |at|, dirs)
  {
    assert dirs[..|at|] == at && dirs[..|at| + 1] == at + [name];
  }

  /** Directories are entered, or made, along `rs` from `at`, unless there is a file among them; then nothing
      is made. */
  lemma {:induction false} DescendMeaning(v: Listing, at: Path, rs: seq<Record>, all: seq<Record>, index: nat)
    requires IsTree(v) && at in v && v[at].isDir && |at| + |rs| == |all| <= MAX_LEVEL && all[|at|..] == rs
    requires at == Names(all)[..|at|]
    ensures var b := Descend(v, at, rs, index);
            if FileFrom(v, |at|, Names(all)) then b == Built(v, Some(IdCollision))
            else b.error == None && Entered(v, b.listing, |at|, Names(all), all, index)
    decreases |rs|
  {
    hide IsTree, FileFrom, Entered;
    var dirs := Names(all);
    DescendNext(v, at, rs, index);
    if rs == [] {
      assert dirs[..|at|] == dirs == at;
      NothingEntered(v, dirs, all, index);
    } else {
      var next := at + [rs[0].name];
      assert rs[0] == all[|at|] && dirs[..|next|] == next && all[|next|..] == rs[1..];
      FileFromNext(v, at, rs[0].name, dirs);
      if next !in v {
        AddDirKeepsTree(v, at, rs[0].name, rs[0].id, index);
        var v' := v[next := Node(true, rs[0].id, index)];
        NothingBelow(v, next, dirs);
        NoFileAdded(v, next, Node(true, rs[0].id, index), dirs);
        DescendMeaning(v', next, rs[1..], all, index);
        EnteredMore(v, next, Descend(v', next, rs[1..], index).listing, dirs, all, index);
      } else if v[next].isDir {
        DescendMeaning(v, next, rs[1..], all, index);
        if !FileFrom(v, |at|, dirs) { EnteredOld(v, next, Descend(v, next, rs[1..], index).listing, dirs, all, index); }
      }
    }
  }

  lemma NoFileAdded(v: Listing, next: Path, n: Node, dirs: Path)
    requires n.isDir && !FileFrom(v, |next|, dirs)
    ensures !FileFrom(v[next := n], |next|, dirs)
  {
  }

  lemma NothingEntered(v: Listing, dirs: Path, rs: seq<Record>, index: nat)
    requires dirs in v && v[dirs].isDir
    ensures !FileFrom(v, |dirs|, dirs) && Entered(v, v, |dirs|, dirs, rs, index)
  {
    assert dirs[..|dirs|] == dirs;
  }

  lemma EnteredMore(v: Listing, next: Path, w: Listing, dirs: Path, rs: seq<Record>, index: nat)
    requires next !in v && next != [] && |next| <= |rs| && next <= dirs
    requires Entered(v[next := Node(true, rs[|next| - 1].id, index)], w, |next|, dirs, rs, index)
    ensures Entered(v, w, |next| - 1, dirs, rs, index)
  {
    assert dirs[..|next|] == next;
    var v' := v[next := Node(true, rs[|next| - 1].id, index)];
    assert next in v' && w[next] == v'[next];
  }

  lemma EnteredOld(v: Listing, next: Path, w: Listing, dirs: Path, rs: seq<Record>, index: nat)
    requires next in v && next != [] && next <= dirs && Entered(v, w, |next|, dirs, rs, index)
    ensures Entered(v, w, |next| - 1, dirs, rs, index)
  {
    assert dirs[..|next|] == next;
  }

  lemma PutPath(v: Listing, w: Listing, dirs: Path, rs: seq<Record>, name: string, id: nat, index: nat)
    requires Entered(v, w, 0, dirs, rs, index) && [] in v && dirs == Names(rs)
    ensures FileAdded(v, PutFile(w, dirs + [name], id, index), dirs + [name], rs, Node(false, id, index))
  {
    var p := dirs + [name];
    var x := PutFile(w, p, id, index);
    assert |dirs| == |rs|;
    forall q | Above(q, p) ensures q in x && x[q] == if q in v then v[q] else Node(true, IdAt(rs, q), index) {
      assert |q| <= |dirs| && q == p[..|q|] == dirs[..|q|];
      assert q == [] || q in w;
    }
    assert forall q :: q in w && q !in v ==> q <= dirs <= p;
  }

  /** The file of a record comes to stand at its path, unless it has no record or a file is among the
      directories above it; then nothing changes. */
  lemma BuildFileMeaning(v: Listing, m: Metadata, id: nat, index: nat)
    requires IsTree(v)
    ensures var b := BuildFile(v, m, id, index);
            if id !in m then b == Built(v, Some(MissingMetadata))
            else if FileOnWay(v, DirsOf(m, id)) then b == Built(v, Some(IdCollision))
            else b.error == None
                 && FileAdded(v, b.listing, PathOf(m, id), RecordsAbove(m, id), Node(false, m[id].id, index))
  {
    assert [] in v && v[[]].isDir;
    hide IsTree, Chain, Reversed, Ancestors, Entered, FileAdded, PutFile, Descend;
    if id in m {
      var rs, dirs := RecordsAbove(m, id), DirsOf(m, id);
      AncestorsBounded(m, m[id].parent, MAX_LEVEL);
      assert Names(rs)[..0] == [] && rs[0..] == rs;
      DescendMeaning(v, [], rs, rs, index);
      assert FileFrom(v, 0, dirs) <==> FileOnWay(v, dirs);
      if !FileOnWay(v, dirs) {
        PutPath(v, Descend(v, [], rs, index).listing, dirs, rs, m[id].name, m[id].id, index);
      }
    }
  }

  // ----- a run of files

  ghost predicate AllKnown(m: Metadata, files: seq<nat>) {
    forall i :: 0 <= i < |files| ==> files[i] in m
  }

  /** `q` is the path of a file of the run, or lies below one. */
  ghost predicate Taken(m: Metadata, files: seq<nat>, q: Path)
    requires AllKnown(m, files)
  {
    exists i :: 0 <= i < |files| && PathOf(m, files[i]) <= q
  }

  /** No later file takes the place of file `i` or of a directory above it. */
  ghost predicate Lasting(m: Metadata, files: seq<nat>, i: nat)
    requires AllKnown(m, files) && i < |files|
  {
    forall j :: i < j < |files| ==> !(PathOf(m, files[j]) <= PathOf(m, files[i]))
  }

  ghost predicate LastingAt(m: Metadata, files: seq<nat>, i: nat, q: Path)
    requires AllKnown(m, files)
  {
    i < |files| && Lasting(m, files, i) && PathOf(m, files[i]) == q
  }

  /** File `i` is the first of the run below directory `q`. */
  ghost predicate FirstThrough(m: Metadata, files: seq<nat>, i: nat, q: Path)
    requires AllKnown(m, files)
  {
    && i < |files| && Above(q, PathOf(m, files[i]))
    && forall j :: 0 <= j < i ==> !Above(q, PathOf(m, files[j]))
  }

  /** At `q` stands the file of the run whose path it is and that no later one took the place of, or nothing. */
  ghost predicate FileStands(w: Listing, m: Metadata, files: seq<nat>, index: nat, q: Path)
    requires AllKnown(m, files)
  {
    && (q in w ==> exists i: nat :: LastingAt(m, files, i, q))
    && (forall i: nat :: LastingAt(m, files, i, q) ==> q in w && w[q] == Node(false, m[files[i]].id, index))
  }

  /** At `q` stands the directory made above the first file of the run below it, with the id on record for it
      there, or nothing. */
  ghost predicate NewDirStands(w: Listing, m: Metadata, files: seq<nat>, index: nat, q: Path)
    requires AllKnown(m, files)
  {
    && (q in w ==> exists i: nat :: FirstThrough(m, files, i, q))
    && (forall i: nat :: FirstThrough(m, files, i, q) ==>
          q in w && w[q] == Node(true, IdAt(RecordsAbove(m, files[i]), q), index))
  }

  /** What stands at `q` after a run over listing `v`: at and below the paths of the files, files of the run
      only; elsewhere what was there, or a new directory. */
  ghost predicate StandsAt(v: Listing, w: Listing, m: Metadata, files: seq<nat>, index: nat, q: Path)
    requires AllKnown(m, files)
  {
    if Taken(m, files, q) then FileStands(w, m, files, index, q)
    else if q in v then q in w && w[q] == v[q]
    else NewDirStands(w, m, files, index, q)
  }

  /** Something at or above the path of each file is listed as a file. */
  ghost predicate Closed(w: Listing, m: Metadata, files: seq<nat>)
    requires AllKnown(m, files)
  {
    forall i :: 0 <= i < |files| ==> FileOnWay(w, PathOf(m, files[i]))
  }

  lemma FilesOnTop(m: Metadata, files: seq<nat>, id: nat, q: Path)
    requires AllKnown(m, files) && id in m
    ensures var more := files + [id];
            && AllKnown(m, more)
            && (Taken(m, more, q) <==> Taken(m, files, q) || PathOf(m, id) <= q)
            && (forall i: nat :: LastingAt(m, more, i, q) <==>
                  (i == |files| && PathOf(m, id) == q) || (LastingAt(m, files, i, q) && !(PathOf(m, id) <= q)))
            && (forall i: nat :: FirstThrough(m, more, i, q) <==>
                  || FirstThrough(m, files, i, q)
                  || (i == |files| && Above(q, PathOf(m, id)) && forall j :: 0 <= j < |files| ==>
                      !Above(q, PathOf(m, files[j]))))
  {
    hide PathOf, Above;
    var more := files + [id];
    assert more[|files|] == id;
    assert forall i :: 0 <= i < |files| ==> more[i] == files[i];
  }

  /** A file on the way to a file at or above `q` is on the way to whatever `q` lies above. */
  lemma OnWayBeyond(w: Listing, p: Path, q: Path, dirs: Path)
    requires FileOnWay(w, p) && p <= q && q <= dirs
    ensures FileOnWay(w, dirs)
  {
    var k :| 0 <= k <= |p| && p[..k] in w && !w[p[..k]].isDir;
    assert dirs[..k] == p[..k];
  }

  lemma TakenCloses(w: Listing, m: Metadata, files: seq<nat>, q: Path, dirs: Path)
    requires AllKnown(m, files) && Closed(w, m, files) && Taken(m, files, q) && q <= dirs
    ensures FileOnWay(w, dirs)
  {
    hide FileOnWay, PathOf;
    var i :| 0 <= i < |files| && PathOf(m, files[i]) <= q;
    OnWayBeyond(w, PathOf(m, files[i]), q, dirs);
  }

  lemma SomeFirst(m: Metadata, files: seq<nat>, j: nat, q: Path)
    requires AllKnown(m, files) && j < |files| && Above(q, PathOf(m, files[j]))
    ensures exists i: nat :: FirstThrough(m, files, i, q)
  {
    hide PathOf, Above;
    var i := 0;
    while !Above(q, PathOf(m, files[i]))
      invariant i <= j && forall h :: 0 <= h < i ==> !Above(q, PathOf(m, files[h]))
      decreases j - i
    {
      i := i + 1;
    }
    assert FirstThrough(m, files, i, q);
  }

  /** One more file, seen from its path and from below it. */
  lemma FileOneMore(w: Listing, x: Listing, m: Metadata, files: seq<nat>, id: nat, index: nat, q: Path)
    requires AllKnown(m, files) && id in m && PathOf(m, id) <= q
    requires FileAdded(w, x, PathOf(m, id), RecordsAbove(m, id), Node(false, m[id].id, index))
    ensures AllKnown(m, files + [id]) && FileStands(x, m, files + [id], index, q)
  {
    FilesOnTop(m, files, id, q);
    hide PathOf, RecordsAbove, LastingAt;
    assert (files + [id])[|files|] == id;
    if PathOf(m, id) == q { assert LastingAt(m, files + [id], |files|, q); }
  }

  /** From where another file of the run may stand. */
  lemma FileElsewhere(w: Listing, x: Listing, m: Metadata, files: seq<nat>, id: nat, index: nat, q: Path)
    requires AllKnown(m, files) && id in m && !(PathOf(m, id) <= q)
    requires FileStands(w, m, files, index, q) && (q in w <==> q in x) && (q in w ==> w[q] == x[q])
    ensures AllKnown(m, files + [id]) && FileStands(x, m, files + [id], index, q)
  {
    FilesOnTop(m, files, id, q);
    hide PathOf, LastingAt;
    if q in x {
      var i: nat :| LastingAt(m, files, i, q);
      assert LastingAt(m, files + [id], i, q);
    }
    forall i: nat | LastingAt(m, files + [id], i, q) ensures q in x
      && x[q] == Node(false, m[(files + [id])[i]].id, index) {
      assert LastingAt(m, files, i, q) && (files + [id])[i] == files[i];
    }
  }

  /** And from where a new directory may stand. */
  lemma DirOneMore(w: Listing, x: Listing, m: Metadata, files: seq<nat>, id: nat, index: nat, q: Path)
    requires AllKnown(m, files) && id in m && !(PathOf(m, id) <= q) && NewDirStands(w, m, files, index, q)
    requires FileAdded(w, x, PathOf(m, id), RecordsAbove(m, id), Node(false, m[id].id, index))
    ensures AllKnown(m, files + [id]) && NewDirStands(x, m, files + [id], index, q)
  {
    FilesOnTop(m, files, id, q);
    var above := Above(q, PathOf(m, id));
    hide PathOf, RecordsAbove, FirstThrough, IdAt, Above;
    assert (files + [id])[|files|] == id;
    if q in w {
      var i: nat :| FirstThrough(m, files, i, q);
      assert FirstThrough(m, files + [id], i, q);
    } else if above {
      forall j | 0 <= j < |files| ensures !Above(q, PathOf(m, files[j])) {
        if Above(q, PathOf(m, files[j])) { SomeFirst(m, files, j, q); }
      }
      assert FirstThrough(m, files + [id], |files|, q);
    }
    forall i: nat | FirstThrough(m, files + [id], i, q)
      ensures q in x && x[q] == Node(true, IdAt(RecordsAbove(m, (files + [id])[i]), q), index)
    {
      if i < |files| { assert FirstThrough(m, files, i, q) && (files + [id])[i] == files[i]; }
    }
  }

  /** One more file. */
  lemma OneMore(v: Listing, w: Listing, x: Listing, m: Metadata, files: seq<nat>, id: nat, index: nat, q: Path)
    requires AllKnown(m, files) && id in m && Closed(w, m, files) && !FileOnWay(w, DirsOf(m, id))
    requires StandsAt(v, w, m, files, index, q)
    requires FileAdded(w, x, PathOf(m, id), RecordsAbove(m, id), Node(false, m[id].id, index))
    ensures AllKnown(m, files + [id]) && StandsAt(v, x, m, files + [id], index, q)
  {
    var p := PathOf(m, id);
    FilesOnTop(m, files, id, q);
    if Above(q, p) {
      AboveDirs(q, DirsOf(m, id), m[id].name);
      if Taken(m, files, q) { TakenCloses(w, m, files, q, DirsOf(m, id)); }
    }
    hide PathOf, DirsOf, RecordsAbove, Taken, FileStands, NewDirStands, FileOnWay, IdAt;
    if p <= q {
      FileOneMore(w, x, m, files, id, index, q);
    } else if Taken(m, files, q) {
      FileElsewhere(w, x, m, files, id, index, q);
    } else if q !in v {
      DirOneMore(w, x, m, files, id, index, q);
    }
  }

  lemma AboveDirs(q: Path, dirs: Path, name: string)
    requires Above(q, dirs + [name])
    ensures q <= dirs
  {
    assert |q| <= |dirs| && q == (dirs + [name])[..|q|] == dirs[..|q|];
  }

  lemma StillClosed(w: Listing, x: Listing, m: Metadata, files: seq<nat>, id: nat, n: Node)
    requires AllKnown(m, files) && id in m && Closed(w, m, files) && !n.isDir
    requires FileAdded(w, x, PathOf(m, id), RecordsAbove(m, id), n)
    ensures AllKnown(m, files + [id]) && Closed(x, m, files + [id])
  {
    var p := PathOf(m, id);
    assert (files + [id])[|files|] == id && forall i :: 0 <= i < |files| ==> (files + [id])[i] == files[i];
    assert p[..|p|] == p;
    hide PathOf, RecordsAbove;
    forall i | 0 <= i < |files| ensures FileOnWay(x, PathOf(m, files[i])) {
      var q := PathOf(m, files[i]);
      var k :| 0 <= k <= |q| && q[..k] in w && !w[q[..k]].isDir;
      if p <= q[..k] {
        assert q[..|p|] == p;
      } else {
        assert q[..k] in x && x[q[..k]] == w[q[..k]];
      }
    }
  }

  lemma {:induction false} BuildLast(v: Listing, m: Metadata, files: seq<nat>, id: nat, index: nat)
    ensures var b := Build(v, m, files, index);
            Build(v, m, files + [id], index) ==
              if b.error.Some? then b else BuildFile(b.listing, m, id, index)
    decreases |files|
  {
    if files == [] {
      assert [id][1..] == [];
    } else {
      assert (files + [id])[0] == files[0] && (files + [id])[1..] == files[1..] + [id];
      var b := BuildFile(v, m, files[0], index);
      if b.error == None { BuildLast(b.listing, m, files[1..], id, index); }
    }
  }

  /** The whole of what `build_inode_tree` does to a listing that is a tree. The first `n` files are built, as
      StandsAt says of every path; they are all the files exactly if there is no error. The next one is the first
      that has no record, or has a file above its path: that is the error, and it changes nothing. */
  lemma {:induction false} BuildMeaning(v: Listing, m: Metadata, files: seq<nat>, index: nat) returns (n: nat)
    requires IsTree(v)
    ensures n <= |files| && AllKnown(m, files[..n])
    ensures var b := Build(v, m, files, index);
            && (forall q :: StandsAt(v, b.listing, m, files[..n], index, q))
            && (b.error == None <==> n == |files|)
            && (b.error == Some(MissingMetadata) <==> n < |files| && files[n] !in m)
            && (b.error == Some(IdCollision) <==>
                  n < |files| && files[n] in m && FileOnWay(b.listing, DirsOf(m, files[n])))
    ensures Closed(Build(v, m, files, index).listing, m, files[..n])
    decreases |files|
  {
    hide StandsAt, Closed, FileOnWay, FileAdded, DirsOf, PathOf, BuildFile, IsTree;
    if files == [] {
      n := 0;
      NothingBuilt(v, m, index);
    } else {
      var last := |files| - 1;
      assert files == files[..last] + [files[last]];
      n := BuildMeaning(v, m, files[..last], index);
      BuildLast(v, m, files[..last], files[last], index);
      var w := Build(v, m, files[..last], index).listing;
      BuildKeepsTree(v, m, files[..last], index);
      assert files[..last][..n] == files[..n];
      if n == last {
        BuildFileMeaning(w, m, files[last], index);
        if files[last] in m && !FileOnWay(w, DirsOf(m, files[last])) {
          var x := BuildFile(w, m, files[last], index).listing;
          forall q ensures StandsAt(v, x, m, files[..last] + [files[last]], index, q) {
            OneMore(v, w, x, m, files[..last], files[last], index, q);
          }
          StillClosed(w, x, m, files[..last], files[last], Node(false, m[files[last]].id, index));
          n := |files|;
          assert files[..n] == files;
        }
      }
    }
  }

  lemma NothingBuilt(v: Listing, m: Metadata, index: nat)
    ensures forall q :: StandsAt(v, v, m, [], index, q)
    ensures Closed(v, m, []) && Build(v, m, [], index) == Built(v, None)
  {
  }
}
