/** The Robin Hood hash map of lib/hashmap.c, updated in place. */
module HashMaps {
  import opened Basics
  import opened RobinHood
  import opened Rehashing
  import opened Crowding

  /** What the 16-bit dib field can hold. */
  const MAX_DIB: nat := 0xFFFF

  /** The most buckets that `hashmap_new` can be asked for: it rounds capacities in an int. */
  const MAX_BUCKETS: nat := 0x4000_0000

  /** The 16-bit dib field after `dib += 1`. */
  function Inc16(dib: nat): (r: nat)
    ensures dib < MAX_DIB ==> r == dib + 1
  {
    (dib + 1) % 0x1_0000
  }

  /** The loop of `hashmap_new` that rounds a capacity up. */
  method RoundCapacity(cap: nat) returns (ncap: nat)
    requires cap <= MAX_BUCKETS
    ensures IsPow2(ncap) && 16 <= ncap < 2 * MAX_BUCKETS && cap <= ncap
    ensures ncap == 16 || ncap / 2 < cap
  {
    ncap := 16;
    while ncap < cap
      invariant IsPow2(ncap) && 16 <= ncap < 2 * MAX_BUCKETS
      invariant ncap == 16 || ncap / 2 < cap
    {
      Pow2Double(ncap);
      ncap := ncap * 2;
    }
  }

  /** A freshly zeroed bucket array. */
  method NewTable<T(0), K(!new)>(ghost ops: Keying<T, K>, ghost universe: iset<T>, n: nat)
    returns (table: array<Bucket<T>>)
    requires n > 0
    ensures fresh(table) && table.Length == n && Table(ops, universe, table[..], map[])
  {
    var zero: T := *;
    table := new Bucket<T>[n](_ => Bucket(0, 0, zero));
  }

  /** The `memset` of `hashmap_clear` over the first `n` buckets. */
  method Zero<T(0), K(!new)>(ghost ops: Keying<T, K>, ghost universe: iset<T>, buckets: array<Bucket<T>>, n: nat)
    requires 0 < n <= buckets.Length
    modifies buckets
    ensures Table(ops, universe, buckets[..n], map[])
  {
    for i := 0 to n
      invariant forall j :: 0 <= j < i ==> buckets[j].dib == 0
    {
      var zero: T := *;
      buckets[i] := Bucket(0, 0, zero);
    }
  }

  /** The table after one turn of a probing loop at bucket `i`: a bucket nearer to its home gives way. */
  function Written<T>(s: seq<Bucket<T>>, e: Bucket<T>, i: nat): seq<Bucket<T>>
    requires i < |s|
  {
    if s[i].dib < e.dib then s[i := e] else s
  }

  /** The entry carried on to the next bucket. */
  function Carried<T>(s: seq<Bucket<T>>, e: Bucket<T>, i: nat): Bucket<T>
    requires i < |s|
  {
    if s[i].dib < e.dib then s[i].(dib := Inc16(s[i].dib)) else e.(dib := Inc16(e.dib))
  }

  lemma Carrying<T, K(!new)>(ops: Keying<T, K>, universe: iset<T>, s: seq<Bucket<T>>, contents: map<K, T>, e: Bucket<T>,
                             i: nat)
    requires InFlight(ops, universe, s, contents, e, i)
    ensures Table(ops, universe, s, contents) && e.item in universe && e.hash == ops.Hash48(e.item)
            && ops.key(e.item) !in contents
  {
  }

  lemma Advance<T, K(!new)>(ops: Keying<T, K>, universe: iset<T>, s: seq<Bucket<T>>, contents: map<K, T>, e: Bucket<T>,
                            i: nat, goal: map<K, T>)
    returns (rest: map<K, T>)
    requires InFlight(ops, universe, s, contents, e, i) && |contents| < |s| && i < |s|
    requires s[i].dib > 0 && contents[ops.key(e.item) := e.item] == goal && Spread(ops, goal, |s|, MAX_DIB)
    ensures InFlight(ops, universe, Written(s, e, i), rest, Carried(s, e, i), Next(i, |s|))
    ensures rest[ops.key(Carried(s, e, i).item) := Carried(s, e, i).item] == goal
    ensures |rest| == |contents|
  {
    hide InFlight, Spread;
    if s[i].dib < e.dib {
      rest := Swap(ops, universe, s, contents, e, i);
      FlightWithin(ops, universe, s[i := e], rest, s[i].(dib := s[i].dib + 1), Next(i, |s|), MAX_DIB);
    } else {
      Pass(ops, universe, s, contents, e, i);
      FlightWithin(ops, universe, s, contents, e.(dib := e.dib + 1), Next(i, |s|), MAX_DIB);
      rest := contents;
    }
  }

  /** A stored key lies on its own probe path, at its dib. */
  lemma Located<T, K(!new)>(ops: Keying<T, K>, universe: iset<T>, s: seq<Bucket<T>>, contents: map<K, T>, item: T)
    returns (p: nat)
    requires Table(ops, universe, s, contents) && ops.KeyedOn(universe)
    requires item in universe && ops.key(item) in contents
    ensures p < |s| && var i := At(ops.Hash48(item) % |s|, p, |s|);
              Holds(ops, s, i, ops.key(item)) && s[i].dib == p + 1
  {
    var i :| Holds(ops, s, i, ops.key(item));
    assert Stores(ops, universe, s[i], contents) && PlacedAt(s[i], i, |s|);
    assert ops.Matches(item, s[i].item);
    p := s[i].dib - 1;
  }

  /** The test on a stored item tells its key. */
  lemma SameKey<T, K(!new)>(ops: Keying<T, K>, universe: iset<T>, s: seq<Bucket<T>>, contents: map<K, T>, i: nat,
                            item: T)
    requires Table(ops, universe, s, contents) && ops.KeyedOn(universe) && Occupied(s, i) && item in universe
    ensures ops.key(s[i].item) in contents && contents[ops.key(s[i].item)] == s[i].item && s[i].item in universe
    ensures s[i].hash == ops.Hash48(s[i].item)
    ensures s[i].hash == ops.Hash48(item) && ops.compare(item, s[i].item) == 0 <==> ops.key(item) == ops.key(s[i].item)
  {
    assert Stores(ops, universe, s[i], contents);
    assert ops.Matches(item, s[i].item) <==> ops.key(item) == ops.key(s[i].item);
  }

  /** The items of the first `n` buckets. */
  ghost function Stored<T, K(!new)>(ops: Keying<T, K>, s: seq<Bucket<T>>, n: nat): map<K, T>
    requires n <= |s|
  {
    if n == 0 then map[]
    else if s[n - 1].dib > 0 then Stored(ops, s, n - 1)[ops.key(s[n - 1].item) := s[n - 1].item]
    else Stored(ops, s, n - 1)
  }

  lemma {:induction false} StoredWithin<T, K(!new)>(ops: Keying<T, K>, universe: iset<T>, s: seq<Bucket<T>>,
                                                    contents: map<K, T>, n: nat)
    requires Represents(ops, universe, s, contents) && n <= |s|
    ensures forall k :: k in Stored(ops, s, n) ==> k in contents && contents[k] == Stored(ops, s, n)[k]
  {
    if n > 0 {
      StoredWithin(ops, universe, s, contents, n - 1);
      assert s[n - 1].dib > 0 ==> Stores(ops, universe, s[n - 1], contents);
    }
  }

  lemma {:induction false} StoredSoFar<T, K(!new)>(ops: Keying<T, K>, s: seq<Bucket<T>>, i: nat, n: nat)
    requires n <= |s| && Occupied(s, i) && i < n
    ensures ops.key(s[i].item) in Stored(ops, s, n)
  {
    if i < n - 1 { StoredSoFar(ops, s, i, n - 1); }
  }

  /** A bucket's key is new among the buckets before it. */
  lemma {:induction false} NotStoredBefore<T, K(!new)>(ops: Keying<T, K>, universe: iset<T>, s: seq<Bucket<T>>,
                                                       contents: map<K, T>, i: nat, n: nat)
    requires Represents(ops, universe, s, contents) && Occupied(s, i) && n <= i
    ensures ops.key(s[i].item) !in Stored(ops, s, n)
  {
    if n > 0 {
      NotStoredBefore(ops, universe, s, contents, i, n - 1);
      assert Holds(ops, s, i, ops.key(s[i].item));
      assert s[n - 1].dib > 0 ==> Holds(ops, s, n - 1, ops.key(s[n - 1].item));
    }
  }

  lemma AllStored<T, K(!new)>(ops: Keying<T, K>, universe: iset<T>, s: seq<Bucket<T>>, contents: map<K, T>)
    requires Represents(ops, universe, s, contents)
    ensures Stored(ops, s, |s|) == contents
  {
    StoredWithin(ops, universe, s, contents, |s|);
    forall k | k in contents ensures k in Stored(ops, s, |s|) {
      var i :| Holds(ops, s, i, k);
      StoredSoFar(ops, s, i, |s|);
    }
  }

  /** A part of what is stored is spread as widely. */
  lemma StoredSpread<T, K(!new)>(ops: Keying<T, K>, universe: iset<T>, s: seq<Bucket<T>>, contents: map<K, T>, i: nat,
                                 n: nat)
    requires Represents(ops, universe, s, contents) && i <= |s| && Spread(ops, contents, n, MAX_DIB)
    ensures Spread(ops, Stored(ops, s, i), n, MAX_DIB)
  {
    StoredWithin(ops, universe, s, contents, i);
    FewerSpread(ops, Stored(ops, s, i), contents, n, MAX_DIB);
  }

  /** What the move of the entry in bucket `i` needs. */
  lemma FreshKey<T, K(!new)>(ops: Keying<T, K>, universe: iset<T>, s: seq<Bucket<T>>, contents: map<K, T>, i: nat)
    requires Table(ops, universe, s, contents) && Occupied(s, i)
    ensures Stores(ops, universe, s[i], contents)
    ensures ops.key(s[i].item) !in Stored(ops, s, i)
    ensures |Stored(ops, s, i)| < |contents|
  {
    NotStoredBefore(ops, universe, s, contents, i, i);
    StoredWithin(ops, universe, s, contents, i);
    var part := Stored(ops, s, i);
    SubsetSize(part.Keys + {ops.key(s[i].item)}, contents.Keys);
    assert |part.Keys| == |part| && |contents.Keys| == |contents|;
  }

  /** The inner loop of `resize`: an entry of a new key, its dib reset to 1, finds its place. */
  method Place<T, K(!new)>(ghost ops: Keying<T, K>, ghost universe: iset<T>, ghost contents: map<K, T>,
                           table: array<Bucket<T>>, item: Bucket<T>)
    requires Table(ops, universe, table[..], contents) && |contents| < table.Length
    requires Spread(ops, contents[ops.key(item.item) := item.item], table.Length, MAX_DIB)
    requires item.dib == 1 && item.item in universe && item.hash == ops.Hash48(item.item)
    requires ops.key(item.item) !in contents
    modifies table
    ensures Table(ops, universe, table[..], contents[ops.key(item.item) := item.item])
  {
    hide Represents, Ordered, Placed;
    var n := table.Length;
    var entry := item;
    var j := entry.hash % n;
    TakeOff(ops, universe, table[..], contents, item.item);
    ghost var h, c, far := j, contents, 0;
    ghost var goal := contents[ops.key(item.item) := item.item];
    ghost var f := SomeFree(ops, universe, table[..], contents, h);
    while true
      invariant far <= f < n && j == At(h, far, n) && table[At(h, f, n)].dib == 0
      invariant InFlight(ops, universe, table[..], c, entry, j) && |c| == |contents|
      invariant c[ops.key(entry.item) := entry.item] == goal
      decreases f - far
    {
      var bucket := table[j];
      ghost var s := table[..];
      if bucket.dib == 0 {
        Land(ops, universe, s, c, entry, j);
        table[j] := entry;
        assert table[..] == s[j := entry];
        return;
      }
      c := Advance(ops, universe, s, c, entry, j, goal);
      if bucket.dib < entry.dib {
        table[j] := entry;
        assert table[..] == s[j := entry];
        entry := bucket;
      }
      j := Next(j, n);
      entry := entry.(dib := Inc16(entry.dib));
      far := far + 1;
    }
  }

  /** The outer loop of `resize`: every entry of the first `n` buckets moves to the new table. */
  method Rehash<T, K(!new)>(ghost ops: Keying<T, K>, ghost universe: iset<T>, ghost contents: map<K, T>,
                            buckets: array<Bucket<T>>, n: nat, table: array<Bucket<T>>)
    requires n <= buckets.Length && buckets != table && Table(ops, universe, buckets[..n], contents)
    requires |contents| <= table.Length && Spread(ops, contents, table.Length, MAX_DIB)
    requires Table(ops, universe, table[..], map[])
    modifies table
    ensures Table(ops, universe, table[..], contents)
  {
    hide Represents, Ordered, Placed;
    ghost var s := buckets[..n];
    for i := 0 to n
      invariant Table(ops, universe, table[..], Stored(ops, s, i)) && buckets[..n] == s
    {
      if buckets[i].dib > 0 {
        assert buckets[i] == s[i];
        FreshKey(ops, universe, s, contents, i);
        StoredSpread(ops, universe, s, contents, i + 1, table.Length);
        Place(ops, universe, Stored(ops, s, i), table, buckets[i].(dib := 1));
      }
    }
    AllStored(ops, universe, s, contents);
  }

  /** Setting an item keeps every key and its home. */
  lemma SetKeepsHomes<T, K(!new)>(ops: Keying<T, K>, universe: iset<T>, s: seq<Bucket<T>>, contents: map<K, T>, item: T)
    requires Table(ops, universe, s, contents) && ops.KeyedOn(universe) && item in universe
    ensures Fewer(ops, contents, contents[ops.key(item) := item])
  {
    if ops.key(item) in contents {
      var i :| Holds(ops, s, i, ops.key(item));
      assert Stores(ops, universe, s[i], contents);
      assert ops.Matches(item, s[i].item);
    }
  }

  lemma SpreadWithout<T, K(!new)>(ops: Keying<T, K>, contents: map<K, T>, k: K, n: nat)
    requires Spread(ops, contents, n, MAX_DIB)
    ensures Spread(ops, contents - {k}, n, MAX_DIB)
  {
    FewerSpread(ops, contents - {k}, contents, n, MAX_DIB);
  }

  /** A table that its own key's item keeps spread fits the dib field. */
  lemma KnownWithin<T, K(!new)>(ops: Keying<T, K>, universe: iset<T>, s: seq<Bucket<T>>, contents: map<K, T>, item: T)
    requires Table(ops, universe, s, contents) && ops.KeyedOn(universe) && |contents| < |s|
    requires item in universe && ops.key(item) in contents && Spread(ops, contents[ops.key(item) := item], |s|, MAX_DIB)
    ensures DibsWithin(s, MAX_DIB)
  {
    SetKeepsHomes(ops, universe, s, contents, item);
    FewerSpread(ops, contents, contents[ops.key(item) := item], |s|, MAX_DIB);
    DibsExact(ops, universe, s, contents, MAX_DIB);
  }

  /** The probing loop of `hashmap_set`, on the first `n` buckets: `item` takes the place of the
      item of its key, which is returned, or finds a place of its own. */
  method Upsert<T, K(!new)>(ops: Keying<T, K>, ghost universe: iset<T>, ghost contents: map<K, T>,
                            buckets: array<Bucket<T>>, n: nat, item: T) returns (replaced: Option<T>)
    requires n <= buckets.Length && Table(ops, universe, buckets[..n], contents) && ops.KeyedOn(universe)
    requires item in universe && |contents| < n && Spread(ops, contents[ops.key(item) := item], n, MAX_DIB)
    modifies buckets
    ensures Table(ops, universe, buckets[..n], contents[ops.key(item) := item])
    ensures replaced == if ops.key(item) in contents then Some(contents[ops.key(item)]) else None
  {
    hide Represents, Ordered, Placed, ops.KeyedOn, InFlight, Spread;
    var entry := Bucket(ops.Hash48(item), 1, item);
    var i := entry.hash % n;
    ghost var s0 := buckets[..n];
    ghost var k, h, far, c := ops.key(item), i, 0, contents;
    ghost var goal := contents[k := item];
    ghost var f := SomeFree(ops, universe, s0, c, h);
    ghost var known, p := k in c, 0;
    if known {
      p := Located(ops, universe, s0, c, item);
      KnownWithin(ops, universe, s0, c, item);
      assert p < MAX_DIB;
    } else {
      TakeOff(ops, universe, s0, c, item);
    }
    while true
      invariant far <= f < n && i == At(h, far, n) && buckets[..n][At(h, f, n)].dib == 0
      invariant known ==> buckets[..n] == s0 && far <= p && entry == Bucket(ops.Hash48(item), far + 1, item)
      invariant known ==> c == contents
      invariant !known ==> InFlight(ops, universe, buckets[..n], c, entry, i) && |c| == |contents|
      invariant !known ==> c[ops.key(entry.item) := entry.item] == goal
      decreases f - far
    {
      var bucket := buckets[i];
      ghost var s := buckets[..n];
      if known {
        Reach(s0, h, p, far);
      } else {
        Carrying(ops, universe, s, c, entry, i);
      }
      if bucket.dib == 0 {
        Land(ops, universe, s, c, entry, i);
        buckets[i] := entry;
        assert buckets[..n] == s[i := entry];
        return None;
      }
      SameKey(ops, universe, s, c, i, entry.item);
      if entry.hash == bucket.hash && ops.compare(entry.item, bucket.item) == 0 {
        Refresh(ops, universe, s, contents, i, item);
        buckets[i] := bucket.(item := entry.item);
        assert buckets[..n] == s[i := bucket.(item := entry.item)];
        return Some(bucket.item);
      }
      if !known { c := Advance(ops, universe, s, c, entry, i, goal); }
      if bucket.dib < entry.dib {
        buckets[i] := entry;
        assert buckets[..n] == s[i := entry];
        entry := bucket;
      }
      i := Next(i, n);
      entry := entry.(dib := Inc16(entry.dib));
      far := far + 1;
    }
  }

  /** The probing loop of `hashmap_get` and `hashmap_delete`. */
  method Find<T, K(!new)>(ops: Keying<T, K>, ghost universe: iset<T>, ghost contents: map<K, T>,
                          buckets: array<Bucket<T>>, n: nat, key: T) returns (found: bool, i: nat)
    requires n <= buckets.Length && Table(ops, universe, buckets[..n], contents) && ops.KeyedOn(universe)
    requires key in universe && |contents| < n
    ensures found <==> ops.key(key) in contents
    ensures found ==> i < n && Holds(ops, buckets[..n], i, ops.key(key)) && contents[ops.key(key)] == buckets[i].item
  {
    hide Represents, Ordered, Placed, ops.KeyedOn;
    var hash := ops.Hash48(key);
    i := hash % n;
    ghost var s, h, far, p := buckets[..n], i, 0, 0;
    ghost var f := SomeFree(ops, universe, s, contents, h);
    ghost var known := ops.key(key) in contents;
    if known { p := Located(ops, universe, s, contents, key); }
    while true
      invariant far <= f < n && i == At(h, far, n)
      invariant known ==> far <= p
      decreases f - far
    {
      var bucket := buckets[i];
      if known { Reach(s, h, p, far); }
      if bucket.dib == 0 { return false, i; }
      SameKey(ops, universe, s, contents, i, key);
      if bucket.hash == hash && ops.compare(key, bucket.item) == 0 { return true, i; }
      i := Next(i, n);
      far := far + 1;
    }
  }

  /** The backward shift of `hashmap_delete` that empties bucket `at`. */
  method Vacate<T, K(!new)>(ghost ops: Keying<T, K>, ghost universe: iset<T>, ghost contents: map<K, T>,
                            buckets: array<Bucket<T>>, n: nat, at: nat)
    requires 1 < n <= buckets.Length && Table(ops, universe, buckets[..n], contents)
    requires |contents| < n && Occupied(buckets[..n], at)
    modifies buckets
    ensures Table(ops, universe, buckets[..n], contents - {old(ops.key(buckets[at].item))})
  {
    hide Table, Vacating;
    ghost var d := buckets[at].dib;
    ghost var rest, far := contents - {ops.key(buckets[at].item)}, 0;
    ghost var f := FreeBeyond(ops, universe, buckets[..n], contents, at);
    StartVacating(ops, universe, buckets[..n], contents, at);
    buckets[at] := buckets[at].(dib := 0);
    assert buckets[..n] == WithDib(old(buckets[..n]), at, 0);
    var i := at;
    while true
      invariant far < f < n && i == At(at, far, n) && buckets[At(at, f, n)].dib == 0
      invariant Vacating(ops, universe, buckets[..n], rest, i, d)
      decreases f - far
    {
      var prev := i;
      ghost var s := buckets[..n];
      i := Next(i, n);
      var bucket := buckets[i];
      if bucket.dib <= 1 {
        CloseHole(ops, universe, s, rest, prev, d);
        buckets[prev] := buckets[prev].(dib := 0);
        assert buckets[..n] == WithDib(s, prev, 0);
        return;
      }
      ShiftBack(ops, universe, s, rest, prev, d);
      buckets[prev] := bucket.(dib := bucket.dib - 1);
      assert buckets[..n] == Shifted(s, prev);
      d := bucket.dib;
      far := far + 1;
    }
  }

  lemma FreeBeyond<T, K(!new)>(ops: Keying<T, K>, universe: iset<T>, s: seq<Bucket<T>>, contents: map<K, T>, i: nat)
    returns (f: nat)
    requires Table(ops, universe, s, contents) && Occupied(s, i) && |contents| < |s|
    ensures 0 < f < |s| && s[At(i, f, |s|)].dib == 0
  {
    f := SomeFree(ops, universe, s, contents, i);
  }

  /** The items of a map, each once. */
  ghost predicate Listed<T, K(!new)>(ops: Keying<T, K>, items: seq<T>, contents: map<K, T>) {
    && (forall x :: x in items ==> ops.key(x) in contents && contents[ops.key(x)] == x)
    && (forall a, b :: 0 <= a < b < |items| ==> ops.key(items[a]) != ops.key(items[b]))
    && (forall k :: k in contents ==> contents[k] in items)
  }

  lemma ListedMore<T, K(!new)>(ops: Keying<T, K>, items: seq<T>, part: map<K, T>, x: T)
    requires Listed(ops, items, part) && ops.key(x) !in part
    ensures Listed(ops, items + [x], part[ops.key(x) := x])
  {
    var all, more := items + [x], part[ops.key(x) := x];
    forall k | k in more ensures more[k] in all {
      if k != ops.key(x) { assert part[k] in items; }
      assert x == all[|items|];
    }
  }

  lemma ListedWithin<T, K(!new)>(ops: Keying<T, K>, items: seq<T>, part: map<K, T>, contents: map<K, T>)
    requires Listed(ops, items, part) && forall k :: k in part ==> k in contents && contents[k] == part[k]
    ensures forall x :: x in items ==> ops.key(x) in contents && contents[ops.key(x)] == x
    ensures forall a, b :: 0 <= a < b < |items| ==> ops.key(items[a]) != ops.key(items[b])
    ensures part == contents ==> forall k :: k in contents ==> contents[k] in items
  {
  }

  lemma NoneListed<T, K(!new)>(ops: Keying<T, K>)
    ensures Listed(ops, [], map[])
  {
  }

  lemma PartStored<T, K(!new)>(ops: Keying<T, K>, universe: iset<T>, s: seq<Bucket<T>>, contents: map<K, T>, n: nat)
    requires Table(ops, universe, s, contents) && n <= |s|
    ensures forall k :: k in Stored(ops, s, n) ==> k in contents && contents[k] == Stored(ops, s, n)[k]
    ensures n == |s| ==> Stored(ops, s, n) == contents
  {
    StoredWithin(ops, universe, s, contents, n);
    AllStored(ops, universe, s, contents);
  }

  lemma StoredNext<T, K(!new)>(ops: Keying<T, K>, s: seq<Bucket<T>>, n: nat)
    requires n < |s|
    ensures Stored(ops, s, 0) == map[]
    ensures Stored(ops, s, n + 1) == if s[n].dib > 0 then Stored(ops, s, n)[ops.key(s[n].item) := s[n].item]
                                     else Stored(ops, s, n)
  {
  }

  class HashMap<T(0,==), K(!new,==)> {
    const ops: Keying<T, K>
    ghost const universe: iset<T>

    var buckets: array<Bucket<T>>
    var nbuckets: nat
    var cap: nat
    var count: nat
    var growat: nat
    var shrinkat: nat
    var oom: bool

    ghost var Contents: map<K, T>
    // The sizes seen since the map was last new or cleared, and what each call scanned.
    ghost var shapes: seq<Shape>
    ghost var costs: seq<nat>

    /** The buckets in use: a failed allocation in Clear leaves the array longer than the table. */
    ghost function Cells(): seq<Bucket<T>>
      reads this, buckets
    {
      if nbuckets <= buckets.Length then buckets[..nbuckets] else []
    }

    ghost function Size(): Shape
      reads this
    {
      Shape(nbuckets, cap, count)
    }

    ghost predicate Intact()
      reads this, buckets
    {
      && ops.KeyedOn(universe)
      && nbuckets <= buckets.Length && nbuckets < 2 * MAX_BUCKETS
      && Sized(Size()) && growat == GrowAt(nbuckets) && shrinkat == ShrinkAt(nbuckets)
      && count == |Contents| && Spread(ops, Contents, nbuckets, MAX_DIB)
      && Table(ops, universe, Cells(), Contents)
    }

    ghost predicate Valid()
      reads this, buckets
    {
      Intact() && Run(shapes, costs) && shapes[|costs|] == Size()
    }

    /** `hashmap_new` on success: the capacity is rounded up to a power of two of at least 16. */
    constructor (ops: Keying<T, K>, ghost universe: iset<T>, cap: nat)
      requires ops.KeyedOn(universe) && cap <= MAX_BUCKETS
      ensures Valid() && fresh(buckets)
      ensures this.ops == ops && this.universe == universe
      ensures Contents == map[] && !oom && nbuckets == this.cap
      ensures this.cap >= cap && (this.cap == 16 || this.cap / 2 < cap)
    {
      var ncap := RoundCapacity(cap);
      var table := NewTable<T, K>(ops, universe, ncap);
      this.ops := ops;
      this.universe := universe;
      buckets := table;
      nbuckets := ncap;
      this.cap := ncap;
      count := 0;
      growat := GrowAt(ncap);
      shrinkat := ShrinkAt(ncap);
      oom := false;
      Contents := map[];
      shapes := [Shape(ncap, ncap, 0)];
      costs := [];
      new;
      FewAreSpread(ops, Contents, ncap, MAX_DIB);
      assert Cells() == buckets[..];
    }

    /** Moves every entry to a table of `newCap` buckets. Here and below `memory` says whether an allocation
        that the call tries succeeds; one that fails changes nothing. */
    method Resize(newCap: nat, memory: bool)
      requires Intact()
      requires IsPow2(newCap) && cap <= newCap <= MAX_BUCKETS && count <= GrowAt(newCap)
      requires memory ==> Spread(ops, Contents, newCap, MAX_DIB)
      modifies this
      ensures Intact()
      ensures Contents == old(Contents) && cap == old(cap) && count == old(count) && oom == old(oom)
      ensures shapes == old(shapes) && costs == old(costs)
      ensures if memory then nbuckets == newCap && fresh(buckets)
              else nbuckets == old(nbuckets) && buckets == old(buckets)
    {
      hide Represents, Ordered, Placed, IsPow2, Spread;
      if !memory { return; }
      var ncap := RoundCapacity(newCap);
      if ncap > newCap { Pow2Gap(ncap, newCap); }
      var table := NewTable<T, K>(ops, universe, ncap);
      Rehash(ops, universe, Contents, buckets, nbuckets, table);
      buckets := table;
      nbuckets := ncap;
      growat := GrowAt(ncap);
      shrinkat := ShrinkAt(ncap);
      assert Cells() == table[..];
    }

    /** The start of `hashmap_set`: a table as full as it may get doubles, if it can allocate. In the doubled
        table no distance overflows that did not before. */
    method GrowIfFull(memory: bool) returns (ok: bool, ghost cost: nat)
      requires Intact()
      requires count == growat ==> 2 * nbuckets <= MAX_BUCKETS
      modifies this
      ensures Intact() && Contents == old(Contents) && shapes == old(shapes) && costs == old(costs) && oom == old(oom)
      ensures cap == old(cap) && count == old(count)
      ensures ok <==> old(count < growat) || memory
      ensures ok ==> count < growat
      ensures if ok && old(count == growat) then cost == old(nbuckets) && nbuckets == 2 * cost && fresh(buckets)
              else cost == 0 && Size() == old(Size()) && buckets == old(buckets)
    {
      hide Table, ops.KeyedOn, IsPow2, Spread;
      ok, cost := true, 0;
      if count == growat {
        Pow2Double(nbuckets);
        SpreadDoubles(ops, Contents, nbuckets, MAX_DIB);
        Resize(nbuckets * 2, memory);
        if !memory { return false, 0; }
        cost := old(nbuckets);
      }
    }

    /** The size of the table that an item is set in. */
    ghost function GrownTo(memory: bool): nat
      reads this
    {
      if count == growat && memory then 2 * nbuckets else nbuckets
    }

    /** Inserts `item`, or puts it in the place of the item of the same key, which is returned.
        A table that is full and cannot grow sets `oom` and stays as it is. The keys have to be spread widely
        enough over the table for their distances from home to fit 16 bits (Crowding.DibsExact). */
    method Set(item: T, memory: bool) returns (replaced: Option<T>)
      requires Valid() && item in universe
      requires count == growat ==> 2 * nbuckets <= MAX_BUCKETS
      requires (count == growat && !memory) || Spread(ops, Contents[ops.key(item) := item], GrownTo(memory), MAX_DIB)
      modifies this, buckets
      ensures Valid() && (buckets == old(buckets) || fresh(buckets))
      ensures oom <==> old(count == growat) && !memory
      ensures oom ==> replaced == None && buckets == old(buckets)
      ensures nbuckets == if old(count == growat) && memory then 2 * old(nbuckets) else old(nbuckets)
      ensures oom ==> Contents == old(Contents) && Cells() == old(Cells()) && Size() == old(Size())
      ensures !oom ==> Contents == old(Contents)[ops.key(item) := item]
      ensures !oom ==> replaced == if ops.key(item) in old(Contents) then Some(old(Contents)[ops.key(item)]) else None
      ensures shapes == old(shapes) + [Size()] && |costs| == |old(costs)| + 1 && costs[..|old(costs)|] == old(costs)
      ensures SetStep(old(Size()), Size(), costs[|old(costs)|])
    {
      hide Table, ops.KeyedOn, Run, IsPow2, Spread;
      ghost var before := Size();
      oom := false;
      var ok, cost := GrowIfFull(memory);
      if !ok {
        oom := true;
        Log(before, 0);
        return None;
      }
      replaced := Upsert(ops, universe, Contents, buckets, nbuckets, item);
      if replaced == None { count := count + 1; }
      Contents := Contents[ops.key(item) := item];
      Log(before, cost);
    }

    /** The stored item of the key that `key` stands for. */
    method Get(key: T) returns (item: Option<T>)
      requires Valid() && key in universe
      ensures item == if ops.key(key) in Contents then Some(Contents[ops.key(key)]) else None
    {
      hide Table, ops.KeyedOn, Run, IsPow2, Spread;
      var found, i := Find(ops, universe, Contents, buckets, nbuckets, key);
      item := if found then Some(buckets[i].item) else None;
    }

    /** The end of `hashmap_delete`: a table above its floor that has become sparse halves if it can allocate. */
    method ShrinkIfSparse(memory: bool) returns (ghost cost: nat)
      requires Intact()
      requires memory && nbuckets > cap && count <= ShrinkAt(nbuckets) ==> Spread(ops, Contents, nbuckets / 2, MAX_DIB)
      modifies this
      ensures Intact() && Contents == old(Contents) && shapes == old(shapes) && costs == old(costs) && oom == old(oom)
      ensures if memory && old(nbuckets > cap && count <= ShrinkAt(nbuckets))
              then cost == old(nbuckets) && fresh(buckets) && Size() == Shape(old(nbuckets) / 2, old(cap), old(count))
              else cost == 0 && Size() == old(Size()) && buckets == old(buckets)
    {
      hide Table, ops.KeyedOn, IsPow2, Spread;
      cost := 0;
      if nbuckets > cap && count <= shrinkat {
        Pow2Gap(nbuckets, cap);
        Pow2Half(nbuckets);
        Resize(nbuckets / 2, memory);
        if memory { cost := old(nbuckets); }
      }
    }

    /** Removes and returns the item of a key; a sparse table then halves if it can allocate. */
    method Delete(key: T, memory: bool) returns (removed: Option<T>)
      requires Valid() && key in universe
      requires memory && ops.key(key) in Contents && nbuckets > cap && count - 1 <= ShrinkAt(nbuckets) ==>
                 Spread(ops, Contents - {ops.key(key)}, nbuckets / 2, MAX_DIB)
      modifies this, buckets
      ensures Valid() && !oom && (buckets == old(buckets) || fresh(buckets))
      ensures Contents == old(Contents) - {ops.key(key)}
      ensures removed == if ops.key(key) in old(Contents) then Some(old(Contents)[ops.key(key)]) else None
      ensures shapes == old(shapes) + [Size()] && |costs| == |old(costs)| + 1 && costs[..|old(costs)|] == old(costs)
      ensures nbuckets == if memory && removed.Some? && old(nbuckets > cap && count - 1 <= ShrinkAt(nbuckets))
                          then old(nbuckets) / 2
                          else old(nbuckets)
      ensures DeleteStep(old(Size()), Size(), costs[|old(costs)|])
    {
      hide Table, ops.KeyedOn, Run, IsPow2, Spread;
      ghost var before := Size();
      oom := false;
      var found, i := Find(ops, universe, Contents, buckets, nbuckets, key);
      if !found {
        Log(before, 0);
        return None;
      }
      removed := Some(buckets[i].item);
      SpreadWithout(ops, Contents, ops.key(key), nbuckets);
      Vacate(ops, universe, Contents, buckets, nbuckets, i);
      count := count - 1;
      Contents := Contents - {ops.key(key)};
      ghost var cost := ShrinkIfSparse(memory);
      Log(before, cost);
    }

    /** Empties the map. Unless the present size becomes the floor, the table goes back to its floor,
        in a new array if one can be had and in the front of the old one otherwise. */
    method Clear(updateCap: bool, memory: bool)
      requires Valid()
      modifies this, buckets
      ensures Valid() && (buckets == old(buckets) || fresh(buckets))
      ensures Contents == map[] && nbuckets == cap && oom == old(oom)
      ensures if !updateCap && memory && old(nbuckets != cap) then fresh(buckets) else buckets == old(buckets)
      ensures cap == if updateCap then old(nbuckets) else old(cap)
    {
      hide Table, ops.KeyedOn, Run, IsPow2, Spread;
      count := 0;
      if updateCap {
        cap := nbuckets;
      } else if nbuckets != cap {
        if memory {
          buckets := NewTable<T, K>(ops, universe, cap);
        }
        nbuckets := cap;
      }
      Zero(ops, universe, buckets, nbuckets);
      growat := GrowAt(nbuckets);
      shrinkat := ShrinkAt(nbuckets);
      Contents := map[];
      FewAreSpread(ops, Contents, nbuckets, MAX_DIB);
      shapes, costs := [Size()], [];
      NewRun(Size());
    }

    /** Calls `iter` on every stored item, in the order of the buckets, until it says to stop:
        no item is seen twice, and all are seen unless it stopped. */
    method Scan(iter: T -> bool) returns (seen: seq<T>, whole: bool)
      requires Valid()
      ensures forall x :: x in seen ==> ops.key(x) in Contents && Contents[ops.key(x)] == x
      ensures forall a, b :: 0 <= a < b < |seen| ==> ops.key(seen[a]) != ops.key(seen[b])
      ensures whole ==> (forall k :: k in Contents ==> Contents[k] in seen) && forall x :: x in seen ==> iter(x)
      ensures !whole ==> seen != [] && !iter(seen[|seen| - 1]) && forall x :: x in seen[..|seen| - 1] ==> iter(x)
    {
      hide Table, ops.KeyedOn, Run, IsPow2, Listed, Stored, Stores;
      seen := [];
      ghost var s := Cells();
      StoredNext(ops, s, 0);
      NoneListed(ops);
      for i := 0 to nbuckets
        invariant Listed(ops, seen, Stored(ops, s, i)) && forall x :: x in seen ==> iter(x)
      {
        StoredNext(ops, s, i);
        if buckets[i].dib > 0 {
          FreshKey(ops, universe, s, Contents, i);
          ListedMore(ops, seen, Stored(ops, s, i), buckets[i].item);
          seen := seen + [buckets[i].item];
          if !iter(buckets[i].item) {
            PartStored(ops, universe, s, Contents, i + 1);
            ListedWithin(ops, seen, Stored(ops, s, i + 1), Contents);
            return seen, false;
          }
        }
      }
      PartStored(ops, universe, s, Contents, nbuckets);
      ListedWithin(ops, seen, Stored(ops, s, nbuckets), Contents);
      whole := true;
    }

    ghost method Log(before: Shape, cost: nat)
      requires Intact() && Run(shapes, costs) && shapes[|costs|] == before && Step(before, Size(), cost)
      modifies this`shapes, this`costs
      ensures Valid()
      ensures shapes == old(shapes) + [Size()] && costs == old(costs) + [cost]
    {
      hide Table, ops.KeyedOn, Run;
      LongerRun(shapes, costs, Size(), cost);
      shapes := shapes + [Size()];
      costs := costs + [cost];
    }
  }
}
