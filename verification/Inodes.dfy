/** The inode tree of an opened archive, linked by parent pointers and by one map of children per
    directory (lib/inode.c, lib/inflate.c, lib/search.c). The metadata map is the hash map of module
    HashMaps; the children maps stand for hash maps, under the contract that module proves. */
module Inodes {
  import opened Basics
  import opened Tree
  import opened Rehashing
  import opened RobinHood
  import opened Crowding
  import opened HashMaps
  import opened Filling
  import Format = IndexFormat
  import Keys
  import Paths
  import Locate

  class Inode {
    const isDir: bool
    const id: nat
    const index: nat
    const name: string
    const parent: Inode?
    var children: map<string, Inode>

    constructor (isDir: bool, id: nat, index: nat, name: string, parent: Inode?)
      ensures this.isDir == isDir && this.id == id && this.index == index && this.name == name && this.parent == parent
      ensures children == map[]
    {
      this.isDir, this.id, this.index, this.name, this.parent := isDir, id, index, name, parent;
      children := map[];
    }
  }

  type Places = map<Path, Inode>

  /** The children map of every place. */
  type Families = map<Path, map<string, Inode>>

  ghost predicate InParent(at: Places, kids: Families, p: Path)
    requires p in at && p != [] && at.Keys == kids.Keys
  {
    var dir, name := p[..|p| - 1], p[|p| - 1];
    && dir in at && at[dir].isDir && at[p].parent == at[dir] && at[p].name == name
    && name in kids[dir] && kids[dir][name] == at[p]
  }

  /** Each non-root inode is stored under its own name in exactly its parent, every child has a place,
      and no inode has two. */
  ghost predicate Linking(at: Places, kids: Families) {
    && at.Keys == kids.Keys
    && (forall p :: p in at && p != [] ==> InParent(at, kids, p))
    && (forall p, n :: p in at && n in kids[p] ==> p + [n] in at && at[p + [n]] == kids[p][n])
    && (forall p, q :: p in at && q in at && at[p] == at[q] ==> p == q)
  }

  /** The places left when something is put at `path`. */
  ghost function Others<X>(m: map<Path, X>, path: Path): map<Path, X> {
    map q | q in m && !Below(path, q) :: m[q]
  }

  /** The path of the directory above. */
  ghost function Up(p: Path): Path {
    if p == [] then [] else p[..|p| - 1]
  }

  ghost function ListingOf(at: Places): Listing {
    map p | p in at :: Node(at[p].isDir, at[p].id, at[p].index)
  }

  lemma ListingAt(at: Places, q: Path)
    ensures q in ListingOf(at) <==> q in at
    ensures q in at ==> ListingOf(at)[q] == Node(at[q].isDir, at[q].id, at[q].index)
  {
  }

  lemma ListingAfter(at: Places, path: Path, inode: Inode)
    ensures ListingOf(Others(at, path)[path := inode])
            == Put(ListingOf(at), path, Node(inode.isDir, inode.id, inode.index))
  {
  }

  lemma OnePlaceEach(at: Places, kids: Families, q: Path)
    requires Linking(at, kids) && q in at
    ensures at.Keys == kids.Keys && forall p :: p in at && p != q ==> at[p] != at[q]
  {
  }

  /** The families once a childless inode is stored in `dir`. */
  ghost function KidsAfter(kids: Families, dir: Path, name: string, inode: Inode): Families
    requires dir in kids
  {
    Others(kids[dir := kids[dir][name := inode]], dir + [name])[dir + [name] := map[]]
  }

  lemma AfterMembers(at: Places, kids: Families, dir: Path, name: string, inode: Inode)
    requires at.Keys == kids.Keys && dir in kids
    ensures var path := dir + [name];
            var at', kids' := Others(at, path)[path := inode], KidsAfter(kids, dir, name, inode);
            && at'.Keys == kids'.Keys && at'[path] == inode && kids'[path] == map[]
            && (forall q :: q in at' && q != path ==>
                q in at && at'[q] == at[q] && kids'[q] == if q == dir then kids[dir][name := inode] else kids[q])
            && (!Below(path, []) && [] in at ==> [] in at')
  {
  }

  /** A new inode stored under its name in directory `dir`. */
  lemma AttachedInParents(at: Places, kids: Families, dir: Path, name: string, inode: Inode)
    requires Linking(at, kids) && dir in at && at[dir].isDir && inode !in at.Values
    requires inode.name == name && inode.parent == at[dir]
    ensures var path := dir + [name];
            var at', kids' := Others(at, path)[path := inode], KidsAfter(kids, dir, name, inode);
            && at'.Keys == kids'.Keys
            && forall p :: p in at' && p != [] ==> InParent(at', kids', p)
  {
    var path := dir + [name];
    var at', kids' := Others(at, path)[path := inode], KidsAfter(kids, dir, name, inode);
    assert path[..|path| - 1] == dir;
    forall p | p in at' && p != [] ensures InParent(at', kids', p) {
      if p != path { InParentStays(at, kids, dir, name, inode, p); }
    }
  }

  lemma InParentStays(at: Places, kids: Families, dir: Path, name: string, inode: Inode, p: Path)
    requires at.Keys == kids.Keys && dir in at && at[dir].isDir && p in at && p != [] && InParent(at, kids, p)
    requires !Below(dir + [name], p)
    ensures var at', kids' := Others(at, dir + [name])[dir + [name] := inode], KidsAfter(kids, dir, name, inode);
            p in at' && at'.Keys == kids'.Keys && InParent(at', kids', p)
  {
    var up := p[..|p| - 1];
    assert p == up + [p[|p| - 1]];
    assert !Below(dir + [name], up);
    assert up == dir ==> p[|p| - 1] != name;
  }

  lemma AttachedChildren(at: Places, kids: Families, dir: Path, name: string, inode: Inode)
    requires Linking(at, kids) && dir in at
    ensures var path := dir + [name];
            var at', kids' := Others(at, path)[path := inode], KidsAfter(kids, dir, name, inode);
            forall p, n :: p in at' && n in kids'[p] ==> p + [n] in at' && at'[p + [n]] == kids'[p][n]
  {
    var path := dir + [name];
    var at', kids' := Others(at, path)[path := inode], KidsAfter(kids, dir, name, inode);
    AfterMembers(at, kids, dir, name, inode);
    forall p, n | p in at' && n in kids'[p] ensures p + [n] in at' && at'[p + [n]] == kids'[p][n] {
      if p == dir && n == name {
      } else if p != path {
        ChildStays(path, dir, name, p, n);
        assert n in kids[p] && p + [n] in at;
      }
    }
  }

  /** A child other than the new inode, of a directory that stays, stays. */
  lemma ChildStays(path: Path, dir: Path, name: string, p: Path, n: string)
    requires path == dir + [name] && !Below(path, p) && (p != dir || n != name)
    ensures p + [n] != path && !Below(path, p + [n])
  {
    assert (p + [n])[..|p|] == p && (p + [n])[|p|] == n && path[..|dir|] == dir && path[|dir|] == name;
  }

  lemma AttachKeepsLinking(at: Places, kids: Families, dir: Path, name: string, inode: Inode)
    requires Linking(at, kids) && dir in at && at[dir].isDir && inode !in at.Values
    requires inode.name == name && inode.parent == at[dir]
    ensures var path := dir + [name];
            Linking(Others(at, path)[path := inode], KidsAfter(kids, dir, name, inode))
  {
    AttachedInParents(at, kids, dir, name, inode);
    AttachedChildren(at, kids, dir, name, inode);
  }

  /** The children map of a directory and the places below it say the same. */
  lemma ChildListed(at: Places, kids: Families, dir: Path, name: string)
    requires Linking(at, kids) && dir in at
    ensures name in kids[dir] <==> dir + [name] in at
    ensures name in kids[dir] ==> at[dir + [name]] == kids[dir][name]
  {
    if dir + [name] in at {
      assert InParent(at, kids, dir + [name]);
      assert (dir + [name])[..|dir|] == dir;
    }
  }

  lemma {:induction false} PlacesClosed(at: Places, kids: Families, q: Path, k: nat)
    requires Linking(at, kids) && q in at && k <= |q|
    ensures q[..k] in at && (k < |q| ==> at[q[..k]].isDir)
    decreases |q| - k
  {
    if k < |q| {
      PlacesClosed(at, kids, q, k + 1);
      assert InParent(at, kids, q[..k + 1]);
      assert q[..k + 1][..k] == q[..k];
    } else {
      assert q[..k] == q;
    }
  }

  /** At a path without a place nothing has to give way. */
  lemma PutAtFree(at: Places, kids: Families, path: Path, n: Node)
    requires Linking(at, kids) && path !in at
    ensures Put(ListingOf(at), path, n) == ListingOf(at)[path := n]
  {
    hide Linking;
    var v := ListingOf(at);
    forall q | q in v ensures !Below(path, q) {
      if |path| <= |q| {
        PlacesClosed(at, kids, q, |path|);
        assert q[..|path|] != path;
      }
    }
    assert (map q | q in v && !Below(path, q) :: v[q]) == v;
  }

  lemma ChainNext(m: Metadata, id: nat, fuel: nat)
    ensures Chain(m, id, fuel) == if fuel == 0 || id !in m then [] else [m[id]] + Chain(m, m[id].parent, fuel - 1)
  {
  }

  lemma UpOne(at: Places, kids: Families, p: Path)
    requires Linking(at, kids) && p in at && p != []
    ensures Up(p) in at && at[p].parent == at[Up(p)] && at[p].name == p[|p| - 1]
  {
    assert InParent(at, kids, p);
  }

  /** One step of the climb. */
  lemma ClimbOnce(at: Places, kids: Families, v: Listing, d: Path, fuel: nat)
    requires Linking(at, kids) && d in at && v == ListingOf(at) && [] in at && at[[]].id == 0
    ensures at[d].id != 0 ==> Up(d) in at && at[d].parent == at[Up(d)]
    ensures Climbed(v, d, fuel) == if fuel == 0 || at[d].id == 0 then [] else [at[d].name] + Climbed(v, Up(d), fuel - 1)
  {
    if d != [] { UpOne(at, kids, d); }
    ListingAt(at, d);
    hide Linking, ListingOf;
    ClimbedNext(v, d, fuel);
  }

  lemma Regroup(a: Path, x: string, b: Path)
    ensures a + ([x] + b) == a + [x] + b
  {
  }

  // ----- the metadata map

  /** `metadata_hash` and `metadata_compare`. */
  function RecordKeys(): Keying<Record, nat> {
    Keys.ByNumber((r: Record) => r.id)
  }

  ghost function RecordsInPlay(ids: iset<nat>): iset<Record> {
    iset r: Record | r.id in ids
  }

  /** The ids that occur, searched ones included, differ in their low 48 bits. */
  ghost predicate Tellable(ids: iset<nat>) {
    forall a, b :: a in ids && b in ids && a % Keys.HASH_RANGE == b % Keys.HASH_RANGE ==> a == b
  }

  lemma TellableKeys(ids: iset<nat>)
    ensures RecordKeys().KeyedOn(RecordsInPlay(ids)) <==> Tellable(ids)
  {
    Keys.NumbersAreKeys((r: Record) => r.id, RecordsInPlay(ids));
    if RecordKeys().KeyedOn(RecordsInPlay(ids)) {
      forall a, b | a in ids && b in ids && a % Keys.HASH_RANGE == b % Keys.HASH_RANGE ensures a == b {
        assert Record(a, 0, "") in RecordsInPlay(ids) && Record(b, 0, "") in RecordsInPlay(ids);
      }
    }
  }

  /** `file_hash` and `file_compare`. */
  function EntryKeys(): Keying<Format.FileEntry, nat> {
    Keys.ByNumber((f: Format.FileEntry) => f.metadataId)
  }

  ghost function EntriesInPlay(ids: iset<nat>): iset<Format.FileEntry> {
    iset f: Format.FileEntry | f.metadataId in ids
  }

  /** The file map tells entries apart under the same condition. */
  lemma TellableEntries(ids: iset<nat>)
    requires Tellable(ids)
    ensures EntryKeys().KeyedOn(EntriesInPlay(ids))
  {
    Keys.NumbersAreKeys((f: Format.FileEntry) => f.metadataId, EntriesInPlay(ids));
  }

  lemma {:induction false} LoadIsFilled(m: Metadata, rs: seq<Record>)
    ensures Load(m, rs) == Filled(RecordKeys(), m, rs)
    decreases |rs|
  {
    if rs != [] { LoadIsFilled(m[rs[0].id := rs[0]], rs[1..]); }
  }

  function EntryIds(fs: seq<Format.FileEntry>): seq<nat> {
    seq(|fs|, i requires 0 <= i < |fs| => fs[i].metadataId)
  }

  lemma {:induction false} ParentsInPlay(m: Metadata, rs: seq<Record>, ids: iset<nat>)
    requires forall k :: k in m ==> m[k].parent in ids
    requires forall r :: r in rs ==> r.parent in ids
    ensures forall k :: k in Load(m, rs) ==> Load(m, rs)[k].parent in ids
    decreases |rs|
  {
    if rs != [] { ParentsInPlay(m[rs[0].id := rs[0]], rs[1..], ids); }
  }

  lemma RootAlone(at: Places, kids: Families, root: Inode)
    requires at == map[[] := root] && kids == map[[] := map[]]
    requires root.isDir && root.id == 0 && root.index == 0
    ensures Linking(at, kids) && ListingOf(at) == EmptyListing() && IsTree(EmptyListing())
  {
  }

  class Archive {
    const root: Inode
    const metadata: HashMap<Record, nat>
    const fileMap: HashMap<Format.FileEntry, nat>
    // The ids that records, their parents and searches may have.
    ghost const ids: iset<nat>
    // Every inode reachable from the root, under its path.
    ghost var at: Places

    ghost function Kids(): Families
      reads this`at, at.Values
    {
      map p | p in at :: at[p].children
    }

    /** The reachable inodes form a tree below the root. */
    ghost predicate Linked()
      reads this`at, at.Values
    {
      && [] in at && at[[]] == root && root.isDir && root.id == 0 && root.index == 0
      && Linking(at, Kids())
    }

    ghost function Listing(): Listing
      reads this`at
    {
      ListingOf(at)
    }

    /** And at most 32 directories lie between the root and any file. */
    ghost predicate Valid()
      reads this`at, at.Values
    {
      Linked() && IsTree(Listing())
    }

    /** The metadata map holds records and the file map data entries, both by their ids, and only ids in play
        are searched. */
    ghost predicate Known()
      reads metadata, metadata.buckets, fileMap, fileMap.buckets
    {
      && fileMap.Valid() && fileMap.ops == EntryKeys() && fileMap.universe == EntriesInPlay(ids)
      && metadata.Valid() && metadata.ops == RecordKeys() && metadata.universe == RecordsInPlay(ids)
      && forall k :: k in metadata.Contents ==> metadata.Contents[k].parent in ids
    }

    /** A context with nothing in it but the root (`wows_init_context`, `init_root_inode`). */
    constructor (ghost ids: iset<nat>)
      requires Tellable(ids)
      ensures Valid() && Listing() == EmptyListing() && fresh(at.Values)
      ensures Known() && metadata.Contents == map[] && this.ids == ids && fresh(metadata) && fresh(metadata.buckets)
      ensures fileMap.Contents == map[] && fresh(fileMap) && fresh(fileMap.buckets)
    {
      hide Linking, IsTree, ListingOf, Tellable, Table, Run, Spread, IsPow2, Sized, RecordKeys, RecordsInPlay,
        metadata.Valid, fileMap.Valid, EntryKeys, EntriesInPlay;
      TellableKeys(ids);
      TellableEntries(ids);
      root := new Inode(true, 0, 0, ".", null);
      metadata := new HashMap<Record, nat>(RecordKeys(), RecordsInPlay(ids), 0);
      fileMap := new HashMap<Format.FileEntry, nat>(EntryKeys(), EntriesInPlay(ids), 0);
      this.ids := ids;
      new;
      at := map[[] := root];
      RootAlone(at, Kids(), root);
    }

    /** `hashmap_get` in the metadata map, with a record that has only an id. */
    method Find(id: nat) returns (record: Option<Record>)
      requires Known() && id in ids
      ensures record == if id in metadata.Contents then Some(metadata.Contents[id]) else None
      ensures record.Some? ==> record.value.parent in ids
    {
      hide metadata.Valid;
      var search := Record(id, 0, "");
      assert RecordKeys().key(search) == id;
      record := metadata.Get(search);
    }

    /** `init_dir_inode` and `init_file_inode`: a new inode is stored under its name in its parent. */
    method Attach(parent: Inode, ghost dir: Path, isDir: bool, id: nat, index: nat, name: string) returns (inode: Inode)
      requires Linked() && dir in at && at[dir] == parent && parent.isDir
      modifies this`at, parent
      ensures Linked() && fresh(inode) && inode.isDir == isDir
      ensures at == old(Others(at, dir + [name]))[dir + [name] := inode]
      ensures Listing() == Put(old(Listing()), dir + [name], Node(isDir, id, index))
    {
      hide Linking, Others, KidsAfter, ListingOf, Put;
      inode := new Inode(isDir, id, index, name, parent);
      ghost var places, kids, path := at, Kids(), dir + [name];
      AttachKeepsLinking(at, kids, dir, name, inode);
      OnePlaceEach(at, kids, dir);
      ListingAfter(at, path, inode);
      parent.children := parent.children[name := inode];
      at := Others(at, path)[path := inode];
      AfterMembers(places, kids, dir, name, inode);
      assert Kids() == KidsAfter(kids, dir, name, inode);
      assert !Below(path, []);
    }

    /** `get_path`: the records from `id` upwards, as many as the array holds. */
    method GetPath(id: nat, entries: array<Record>) returns (depth: nat)
      requires Known() && id in ids
      modifies entries
      ensures depth <= entries.Length && entries[..depth] == Chain(metadata.Contents, id, entries.Length)
    {
      hide Chain, metadata.Valid;
      ghost var m := metadata.Contents;
      ghost var next := id;
      var parent := Find(id);
      depth := 0;
      assert entries[..0] == [];
      while parent.Some? && depth < entries.Length
        invariant depth <= entries.Length && parent == if next in m then Some(m[next]) else None
        invariant parent.Some? ==> parent.value.parent in ids
        invariant entries[..depth] + Chain(m, next, entries.Length - depth) == Chain(m, id, entries.Length)
      {
        ChainNext(m, next, entries.Length - depth);
        entries[depth] := parent.value;
        assert entries[..depth + 1] == entries[..depth] + [m[next]];
        next := parent.value.parent;
        parent := Find(parent.value.parent);
        depth := depth + 1;
      }
      ChainNext(m, next, entries.Length - depth);
    }

    /** One step down: the directory of record `r` is found under its name, or made. */
    method Enter(parent: Inode, ghost dir: Path, r: Record, index: nat) returns (inode: Inode)
      requires Linked() && dir in at && at[dir] == parent && parent.isDir
      modifies this`at, parent
      ensures Linked() && dir + [r.name] in at && at[dir + [r.name]] == inode
      ensures forall i :: i in at.Values ==> i in old(at.Values) || fresh(i)
      ensures var v, next := old(Listing()), dir + [r.name];
              && Listing() == (if next in v then v else v[next := Node(true, r.id, index)])
              && inode.isDir == (next in v ==> v[next].isDir)
    {
      hide Linking, Put;
      ChildListed(at, Kids(), dir, r.name);
      if r.name in parent.children {
        inode := parent.children[r.name];
      } else {
        PutAtFree(at, Kids(), dir + [r.name], Node(true, r.id, index));
        inode := Attach(parent, dir, true, r.id, index, r.name);
      }
    }

    /** The directories of a chain are entered, outermost first, made where missing. */
    method EnterAll(entries: array<Record>, depth: nat, ghost rs: seq<Record>, index: nat)
      returns (inode: Inode, error: Option<Error>)
      requires Linked() && depth <= entries.Length && rs == Reversed(entries[..depth])
      modifies this`at, at.Values
      ensures Linked() && forall i :: i in at.Values ==> i in old(at.Values) || fresh(i)
      ensures Built(Listing(), error) == Descend(old(Listing()), [], rs, index)
      ensures error == None ==> Names(rs) in at && at[Names(rs)] == inode && inode.isDir
    {
      hide Linking, ListingOf, Descend, Reversed;
      inode := root;
      ghost var dir: Path, v0 := [], Listing();
      assert rs[0..] == rs;
      for j := depth downto 0
        invariant entries[..depth] == old(entries[..depth]) && dir == Names(rs)[..depth - j]
        invariant Linked() && dir in at && at[dir] == inode && inode.isDir
        invariant forall i :: i in at.Values ==> i in old(at.Values) || fresh(i)
        invariant Descend(Listing(), dir, rs[depth - j..], index) == Descend(v0, [], rs, index)
      {
        ghost var rest := rs[depth - j - 1..];
        assert rest[0] == rs[depth - j - 1] == entries[j] && rest[1..] == rs[depth - j..];
        DescendNext(Listing(), dir, rest, index);
        inode := Enter(inode, dir, entries[j], index);
        if !inode.isDir { return inode, Some(IdCollision); }
        dir := dir + [entries[j].name];
      }
      DescendNext(Listing(), dir, rs[depth..], index);
      assert Names(rs)[..depth] == Names(rs);
      return inode, None;
    }

    /** One turn of the loop of `build_inode_tree`. */
    method BuildOne(id: nat, index: nat) returns (error: Option<Error>)
      requires Linked() && Known() && id in ids
      modifies this`at, at.Values
      ensures Linked() && forall i :: i in at.Values ==> i in old(at.Values) || fresh(i)
      ensures Built(Listing(), error) == BuildFile(old(Listing()), metadata.Contents, id, index)
    {
      hide Linking, ListingOf, Put, Descend, Ancestors, Reversed, metadata.Valid;
      var res := Find(id);
      if res == None { return Some(MissingMetadata); }
      var mentry := res.value;
      var entries := new Record[MAX_LEVEL];
      var depth := GetPath(mentry.parent, entries);
      ghost var rs := Ancestors(metadata.Contents, mentry.parent, MAX_LEVEL);
      AncestorsBounded(metadata.Contents, mentry.parent, MAX_LEVEL);
      var parent;
      parent, error := EnterAll(entries, depth, rs, index);
      if error == None {
        var inode := Attach(parent, Names(rs), false, mentry.id, index, mentry.name);
      }
    }

    /** `build_inode_tree`: the listing becomes the one that Build describes, also when it stops at an error. */
    method BuildInodeTree(files: seq<nat>, index: nat) returns (error: Option<Error>)
      requires Valid() && Known() && forall id :: id in files ==> id in ids
      modifies this`at, at.Values
      ensures Valid() && forall i :: i in at.Values ==> i in old(at.Values) || fresh(i)
      ensures Built(Listing(), error) == Build(old(Listing()), metadata.Contents, files, index)
    {
      hide Linking, ListingOf, Build, BuildFile, IsTree, metadata.Valid;
      ghost var v0, m := Listing(), metadata.Contents;
      BuildKeepsTree(v0, m, files, index);
      assert files[0..] == files;
      for i := 0 to |files|
        invariant Linked() && forall i :: i in at.Values ==> i in old(at.Values) || fresh(i)
        invariant Build(Listing(), m, files[i..], index) == Build(v0, m, files, index)
      {
        BuildNext(Listing(), m, files[i..], index);
        assert files[i..][1..] == files[i + 1..] && files[i] in files;
        error := BuildOne(files[i], index);
        if error.Some? { return; }
      }
      BuildNext(Listing(), m, files[|files|..], index);
      error := None;
    }

    /** `wows_parse_index_buffer` once the index is mapped: the records fill the metadata map and the data
        entries the file map, then the files are built. */
    method AddIndex(records: seq<Record>, entries: seq<Format.FileEntry>, index: nat) returns (error: Option<Error>)
      requires Valid() && Known() && Uncrowded(metadata.ops, metadata.Contents, records)
      requires Uncrowded(fileMap.ops, fileMap.Contents, entries)
      requires forall r :: r in records ==> r.id in ids && r.parent in ids
      requires forall f :: f in entries ==> f.metadataId in ids
      modifies this`at, at.Values, metadata, metadata.buckets, fileMap, fileMap.buckets
      ensures Valid() && Known() && metadata.Contents == Load(old(metadata.Contents), records)
      ensures fileMap.Contents == Filled(EntryKeys(), old(fileMap.Contents), entries)
      ensures Built(Listing(), error) == Build(old(Listing()), metadata.Contents, EntryIds(entries), index)
    {
      hide Load, Filled, IsTree, ListingOf, Linking, Uncrowded, metadata.Valid, fileMap.Valid;
      LoadIsFilled(metadata.Contents, records);
      FillMetadata(records);
      Fill(fileMap, entries);
      error := BuildInodeTree(EntryIds(entries), index);
    }

    /** Its first loop. */
    method FillMetadata(records: seq<Record>)
      requires Known() && Uncrowded(metadata.ops, metadata.Contents, records)
      requires forall r :: r in records ==> r.id in ids && r.parent in ids
      modifies metadata, metadata.buckets
      ensures Known() && metadata.Contents == Load(old(metadata.Contents), records)
      ensures metadata.buckets == old(metadata.buckets) || fresh(metadata.buckets)
    {
      hide Load, Filled, metadata.Valid, fileMap.Valid, Uncrowded;
      ParentsInPlay(metadata.Contents, records, ids);
      LoadIsFilled(metadata.Contents, records);
      Fill(metadata, records);
    }

    /** Where the data of a file is: the look into the file map of `extract_file_inode`, which fails on a directory. */
    method DataOf(inode: Inode) returns (entry: Option<Format.FileEntry>)
      requires Known() && inode.id in ids
      ensures entry == if !inode.isDir && inode.id in fileMap.Contents then Some(fileMap.Contents[inode.id]) else None
    {
      hide fileMap.Valid, metadata.Valid;
      if inode.isDir { return None; }
      var search := Format.FileEntry(inode.id, 0, 0, 0, 0, 0, 0);
      assert EntryKeys().key(search) == inode.id;
      entry := fileMap.Get(search);
    }

    /** The loop of `get_path_inode`: from directory `d0` up, as many names as the array holds. */
    static method Climb(start: Inode, ghost places: Places, ghost kids: Families, ghost v: Listing, ghost d0: Path,
                        entries: array<string>)
      returns (depth: nat)
      requires Linking(places, kids) && d0 in places && start == places[d0]
      requires v == ListingOf(places) && [] in places && places[[]].id == 0
      modifies entries
      ensures depth <= entries.Length && entries[..depth] == Climbed(v, d0, entries.Length)
    {
      hide Linking, ListingOf, Climbed, Up;
      var dir: Inode? := start;
      depth := 0;
      ghost var d, taken: Path := d0, [];
      while dir.id != 0 && depth < entries.Length
        invariant depth <= entries.Length && d in places && dir == places[d] && entries[..depth] == taken
        invariant taken + Climbed(v, d, entries.Length - depth) == Climbed(v, d0, entries.Length)
        decreases entries.Length - depth
      {
        ClimbOnce(places, kids, v, d, entries.Length - depth);
        Regroup(taken, dir.name, Climbed(v, Up(d), entries.Length - depth - 1));
        entries[depth] := dir.name;
        taken := taken + [dir.name];
        dir := dir.parent;
        d := Up(d);
        depth := depth + 1;
      }
      ClimbOnce(places, kids, v, d, entries.Length - depth);
    }

    /** `get_path_inode`: the names of the directories above the inode, innermost first. */
    method GetPathInode(inode: Inode, ghost p: Path, entries: array<string>) returns (depth: nat)
      requires Valid() && p in at && p != [] && at[p] == inode
      modifies entries
      ensures depth <= entries.Length && entries[..depth] == Climbed(Listing(), Up(p), entries.Length)
    {
      UpOne(at, Kids(), p);
      depth := Climb(inode.parent, at, Kids(), Listing(), Up(p), entries);
    }

    /** The path of an inode as text. */
    method PathOf(inode: Inode, ghost p: Path) returns (text: string)
      requires Valid() && p in at && p != [] && at[p] == inode
      ensures text == Locate.Printed(Listing(), p)
    {
      UpOne(at, Kids(), p);
      hide Linking, IsTree, Climbed;
      var entries := new string[MAX_LEVEL];
      var depth := GetPathInode(inode, p, entries);
      text := Paths.JoinPath(entries[..depth], inode.name);
    }

    /** `get_inode`. */
    method GetInode(path: string) returns (inode: Inode?, error: Option<Error>)
      requires Valid()
      ensures match Locate.Located(Listing(), path)
              case Found(q) => error == None && q in at && inode == at[q]
              case Failed(e) => error == Some(e)
      ensures var d := Paths.Decomposed(path);
              && (error == Some(NotADir) <==> d.1.Some? && FileOnWay(Listing(), d.0))
              && (error == Some(NotFound) <==>
                  !FileOnWay(Listing(), d.0) && (if d.1.Some? then d.0 + [d.1.value] else d.0) !in Listing())
      ensures error in {None, Some(NotFound), Some(NotADir)}
    {
      hide Linking, IsTree, Walk, FileOnWay;
      ResolveFails(Listing(), Paths.Decomposed(path).0, Paths.Decomposed(path).1);
      var dirs, file := Paths.DecomposePath(path);
      inode := root;
      ghost var place: Option<Path> := Some([]);
      assert dirs[0..] == dirs;
      for i := 0 to |dirs|
        invariant if place.Some? then place.value in at && inode == at[place.value] else inode == null
        invariant Walk(Listing(), place, dirs[i..]) == Walk(Listing(), Some([]), dirs)
      {
        WalkNext(Listing(), place, dirs[i..]);
        assert dirs[i..][1..] == dirs[i + 1..];
        if inode != null && inode.isDir {
          ChildListed(at, Kids(), place.value, dirs[i]);
          if dirs[i] in inode.children {
            inode, place := inode.children[dirs[i]], Some(place.value + [dirs[i]]);
          } else {
            inode, place := null, None;
          }
        }
      }
      WalkNext(Listing(), place, dirs[|dirs|..]);
      if file == None && inode != null { return inode, None; }
      if inode == null { return null, Some(NotFound); }
      if !inode.isDir { return null, Some(NotADir); }
      ChildListed(at, Kids(), place.value, file.value);
      if file.value !in inode.children { return null, Some(NotFound); }
      return inode.children[file.value], None;
    }
  }
}
