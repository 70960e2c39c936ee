/** The bucket layout of the open-addressed table of lib/hashmap.c, on sequences.

    A bucket's `dib` is its distance from its home bucket plus one, and 0 when it is free.
    One local condition carries everything: a bucket's dib exceeds its left neighbour's by at most one. */
module RobinHood {

  datatype Bucket<T> = Bucket(hash: nat, dib: nat, item: T)

  /** How a map reads its items: the caller's hash and comparator, and the key an item stands for. */
  datatype Keying<!T, !K> = Keying(hash: T -> nat, compare: (T, T) -> int, key: T -> K) {
    /** `get_hash`: the caller's hash, cut to the 48 bits of the bucket field. */
    function Hash48(item: T): nat {
      hash(item) % 0x1_0000_0000_0000
    }

    /** The test the table makes on two items. */
    predicate Matches(a: T, b: T) {
      Hash48(a) == Hash48(b) && compare(a, b) == 0
    }

    /** On the items in play, the test decides whether two items stand for the same key. */
    ghost predicate KeyedOn(universe: iset<T>) {
      forall a, b :: a in universe && b in universe ==> (Matches(a, b) <==> key(a) == key(b))
    }
  }

  /** The bucket `j` steps to the right of `h` in a ring of `n`. */
  function At(h: nat, j: nat, n: nat): (i: nat)
    requires h < n && j <= n
    ensures i < n
  {
    if h + j < n then h + j else h + j - n
  }

  /** `(i + 1) & mask`. */
  function Next(i: nat, n: nat): (r: nat)
    requires i < n
    ensures r < n && r == At(i, 1, n)
    ensures r == (i + 1) % n
  {
    if i + 1 == n then 0 else i + 1
  }

  function Prev(i: nat, n: nat): (r: nat)
    requires i < n
    ensures r < n && Next(r, n) == i
  {
    if i == 0 then n - 1 else i - 1
  }

  predicate Occupied<T>(s: seq<Bucket<T>>, i: int) {
    0 <= i < |s| && s[i].dib > 0
  }

  /** The Robin Hood order. */
  ghost predicate Ordered<T>(s: seq<Bucket<T>>) {
    |s| > 0 && forall i :: 0 <= i < |s| ==> s[Next(i, |s|)].dib <= s[i].dib + 1
  }

  /** Every dib is the distance from the home bucket of the stored hash. */
  ghost predicate Placed<T>(s: seq<Bucket<T>>) {
    |s| > 0 && forall i :: 0 <= i < |s| && s[i].dib > 0 ==> PlacedAt(s[i], i, |s|)
  }

  ghost predicate PlacedAt<T>(b: Bucket<T>, i: nat, n: nat)
    requires 0 < n
  {
    1 <= b.dib <= n && i == At(b.hash % n, b.dib - 1, n)
  }

  ghost predicate Holds<T, K(!new)>(ops: Keying<T, K>, s: seq<Bucket<T>>, i: int, k: K) {
    Occupied(s, i) && ops.key(s[i].item) == k
  }

  /** Bucket `b` stores the item that `contents` gives for its key. */
  ghost predicate Stores<T, K(!new)>(ops: Keying<T, K>, universe: iset<T>, b: Bucket<T>, contents: map<K, T>) {
    && b.item in universe && b.hash == ops.Hash48(b.item)
    && ops.key(b.item) in contents && contents[ops.key(b.item)] == b.item
  }

  /** The occupied buckets hold exactly the items of `contents`, each key once. */
  ghost predicate Represents<T, K(!new)>(ops: Keying<T, K>, universe: iset<T>, s: seq<Bucket<T>>, contents: map<K, T>) {
    && (forall i :: 0 <= i < |s| && s[i].dib > 0 ==> Stores(ops, universe, s[i], contents))
    && (forall i, j, k :: Holds(ops, s, i, k) && Holds(ops, s, j, k) ==> i == j)
    && (forall k :: k in contents ==> exists i :: Holds(ops, s, i, k))
  }

  ghost predicate Table<T, K(!new)>(ops: Keying<T, K>, universe: iset<T>, s: seq<Bucket<T>>, contents: map<K, T>) {
    Ordered(s) && Placed(s) && Represents(ops, universe, s, contents)
  }

  // ----- reaching a bucket from a home

  /** A bucket that lies on its probe path is reached over buckets at least as far from home:
      no free bucket, and none that would be displaced, comes before it. */
  lemma {:induction false} Reach<T>(s: seq<Bucket<T>>, h: nat, j: nat, t: nat)
    requires Ordered(s) && h < |s| && t <= j < |s|
    requires s[At(h, j, |s|)].dib >= j + 1
    ensures s[At(h, t, |s|)].dib >= t + 1
    decreases j
  {
    if t < j {
      assert At(h, j, |s|) == Next(At(h, j - 1, |s|), |s|);
      Reach(s, h, j - 1, t);
    }
  }

  ghost function Elements<X>(xs: seq<X>): set<X> {
    set x | x in xs
  }

  /** The keys at offsets `lo` to `hi` from `h`. */
  ghost function KeysAt<T, K>(ops: Keying<T, K>, s: seq<Bucket<T>>, h: nat, lo: nat, hi: nat): seq<K>
    requires h < |s| && lo <= hi <= |s|
  {
    seq(hi - lo, u requires 0 <= u < hi - lo => ops.key(s[At(h, lo + u, |s|)].item))
  }

  lemma {:induction false} DistinctSize<K>(ks: seq<K>)
    requires forall i, j :: 0 <= i < j < |ks| ==> ks[i] != ks[j]
    ensures |Elements(ks)| == |ks|
  {
    if ks != [] {
      var last := |ks| - 1;
      DistinctSize(ks[..last]);
      assert Elements(ks) == Elements(ks[..last]) + {ks[last]};
    }
  }

  /** An unbroken run of occupied buckets is no longer than the number of items. */
  lemma RunSize<T, K(!new)>(ops: Keying<T, K>, universe: iset<T>, s: seq<Bucket<T>>, contents: map<K, T>, h: nat,
                            d: nat)
    requires h < |s| && d <= |s| && Represents(ops, universe, s, contents)
    requires forall t :: 0 <= t < d ==> s[At(h, t, |s|)].dib > 0
    ensures d <= |contents|
  {
    var ks := KeysAt(ops, s, h, 0, d);
    forall t | 0 <= t < d ensures Holds(ops, s, At(h, t, |s|), ks[t]) && ks[t] in contents {
      assert Stores(ops, universe, s[At(h, t, |s|)], contents);
    }
    DistinctSize(ks);
    SubsetSize(Elements(ks), contents.Keys);
    assert |contents.Keys| == |contents|;
  }

  lemma {:induction false} SubsetSize<X>(a: set<X>, b: set<X>)
    requires a <= b
    ensures |a| <= |b|
  {
    if a != {} {
      var x :| x in a;
      SubsetSize(a - {x}, b - {x});
    }
  }

  /** A table with more buckets than items has a free bucket on every probe path. */
  lemma SomeFree<T, K(!new)>(ops: Keying<T, K>, universe: iset<T>, s: seq<Bucket<T>>, contents: map<K, T>, h: nat)
    returns (f: nat)
    requires h < |s| && |contents| < |s| && Represents(ops, universe, s, contents)
    ensures f < |s| && s[At(h, f, |s|)].dib == 0
  {
    f := 0;
    while f < |s| && s[At(h, f, |s|)].dib > 0
      invariant f <= |s|
      invariant forall t :: 0 <= t < f ==> s[At(h, t, |s|)].dib > 0
    {
      f := f + 1;
    }
    RunSize(ops, universe, s, contents, h, f);
  }

  /** No item sits further from home than there are items. */
  lemma DibAtMostCount<T, K(!new)>(ops: Keying<T, K>, universe: iset<T>, s: seq<Bucket<T>>, contents: map<K, T>, i: nat)
    requires Table(ops, universe, s, contents) && i < |s|
    ensures s[i].dib <= |contents|
  {
    var d := s[i].dib;
    if d > 0 {
      assert PlacedAt(s[i], i, |s|);
      var h := s[i].hash % |s|;
      forall t | 0 <= t < d ensures s[At(h, t, |s|)].dib > 0 {
        Reach(s, h, d - 1, t);
      }
      RunSize(ops, universe, s, contents, h, d);
    }
  }

  // ----- one insertion in flight

  /** Entry `e` has come as far as bucket `i` without finding a place. */
  ghost predicate InFlight<T, K(!new)>(ops: Keying<T, K>, universe: iset<T>, s: seq<Bucket<T>>, contents: map<K, T>,
                                       e: Bucket<T>, i: nat) {
    && Table(ops, universe, s, contents)
    && i < |s| && PlacedAt(e, i, |s|)
    && e.item in universe && e.hash == ops.Hash48(e.item)
    && ops.key(e.item) !in contents
    && e.dib <= s[Prev(i, |s|)].dib + 1
  }

  lemma Pass<T, K(!new)>(ops: Keying<T, K>, universe: iset<T>, s: seq<Bucket<T>>, contents: map<K, T>, e: Bucket<T>,
                         i: nat)
    requires InFlight(ops, universe, s, contents, e, i) && |contents| < |s|
    requires s[i].dib >= e.dib
    ensures InFlight(ops, universe, s, contents, e.(dib := e.dib + 1), Next(i, |s|))
  {
    DibAtMostCount(ops, universe, s, contents, i);
    assert Prev(Next(i, |s|), |s|) == i;
  }

  lemma Swap<T, K(!new)>(ops: Keying<T, K>, universe: iset<T>, s: seq<Bucket<T>>, contents: map<K, T>, e: Bucket<T>,
                         i: nat)
    returns (rest: map<K, T>)
    requires InFlight(ops, universe, s, contents, e, i) && |contents| < |s|
    requires 0 < s[i].dib < e.dib
    ensures InFlight(ops, universe, s[i := e], rest, s[i].(dib := s[i].dib + 1), Next(i, |s|))
    ensures rest[ops.key(s[i].item) := s[i].item] == contents[ops.key(e.item) := e.item]
    ensures |rest| == |contents|
  {
    var k, m := ops.key(e.item), ops.key(s[i].item);
    DibAtMostCount(ops, universe, s, contents, i);
    assert Stores(ops, universe, s[i], contents);
    rest := (contents - {m})[k := e.item];
    ExchangeKeys(contents, m, k, e.item);
    assert Table(ops, universe, s[i := e], rest) by {
      OrderedAfterWrite(s, e, i);
      Replaced(ops, universe, s, contents, e, i);
      assert forall j :: 0 <= j < |s| && s[j].dib > 0 ==> PlacedAt(s[j], j, |s|);
    }
    assert Holds(ops, s[i := e], i, k);
    assert PlacedAt(s[i], i, |s|);
    assert Prev(Next(i, |s|), |s|) == i;
  }

  lemma ExchangeKeys<K, T>(m: map<K, T>, gone: K, added: K, item: T)
    requires gone in m && added !in m
    ensures var rest := (m - {gone})[added := item];
            |rest| == |m| && rest[gone := m[gone]] == m[added := item]
  {
  }

  /** Writing an entry over one that stands nearer to its home keeps the order. */
  lemma OrderedAfterWrite<T>(s: seq<Bucket<T>>, e: Bucket<T>, i: nat)
    requires Ordered(s) && i < |s| && s[i].dib <= e.dib <= s[Prev(i, |s|)].dib + 1
    ensures Ordered(s[i := e])
  {
  }

  /** Overwriting an occupied bucket by an item of a new key exchanges the two keys. */
  lemma Replaced<T, K(!new)>(ops: Keying<T, K>, universe: iset<T>, s: seq<Bucket<T>>, contents: map<K, T>, e: Bucket<T>,
                             i: nat)
    requires Represents(ops, universe, s, contents) && i < |s| && s[i].dib > 0 && e.dib > 0
    requires e.item in universe && e.hash == ops.Hash48(e.item) && ops.key(e.item) !in contents
    ensures Represents(ops, universe, s[i := e], (contents - {ops.key(s[i].item)})[ops.key(e.item) := e.item])
  {
    var t := s[i := e];
    var k, m := ops.key(e.item), ops.key(s[i].item);
    var rest := (contents - {m})[k := e.item];
    assert Holds(ops, s, i, m);
    forall j | 0 <= j < |t| && t[j].dib > 0 ensures Stores(ops, universe, t[j], rest) {
      if j != i {
        assert Stores(ops, universe, s[j], contents) && Holds(ops, s, j, ops.key(s[j].item));
      }
    }
    forall a, b, x | Holds(ops, t, a, x) && Holds(ops, t, b, x) ensures a == b {
      if a != i { assert Holds(ops, s, a, x) && Stores(ops, universe, s[a], contents); }
      if b != i { assert Holds(ops, s, b, x) && Stores(ops, universe, s[b], contents); }
    }
    forall x | x in rest ensures exists j :: Holds(ops, t, j, x) {
      if x == k {
        assert Holds(ops, t, i, x);
      } else {
        var j :| Holds(ops, s, j, x);
        assert Holds(ops, t, j, x);
      }
    }
  }

  lemma Land<T, K(!new)>(ops: Keying<T, K>, universe: iset<T>, s: seq<Bucket<T>>, contents: map<K, T>, e: Bucket<T>,
                         i: nat)
    requires InFlight(ops, universe, s, contents, e, i)
    requires s[i].dib == 0
    ensures Table(ops, universe, s[i := e], contents[ops.key(e.item) := e.item])
  {
    var t := s[i := e];
    var k := ops.key(e.item);
    var grown := contents[k := e.item];
    OrderedAfterWrite(s, e, i);
    forall j | 0 <= j < |t| && t[j].dib > 0 ensures Stores(ops, universe, t[j], grown) {
      if j != i { assert Stores(ops, universe, s[j], contents); }
    }
    forall a, b, x | Holds(ops, t, a, x) && Holds(ops, t, b, x) ensures a == b {
      if a != i { assert Holds(ops, s, a, x) && Stores(ops, universe, s[a], contents); }
      if b != i { assert Holds(ops, s, b, x) && Stores(ops, universe, s[b], contents); }
    }
    forall x | x in grown ensures exists j :: Holds(ops, t, j, x) {
      if x == k {
        assert Holds(ops, t, i, x);
      } else {
        var j :| Holds(ops, s, j, x);
        assert Holds(ops, t, j, x);
      }
    }
  }

  /** A fresh entry at its own home bucket is in flight. */
  lemma TakeOff<T, K(!new)>(ops: Keying<T, K>, universe: iset<T>, s: seq<Bucket<T>>, contents: map<K, T>, item: T)
    requires Table(ops, universe, s, contents) && item in universe && ops.key(item) !in contents
    ensures InFlight(ops, universe, s, contents, Bucket(ops.Hash48(item), 1, item), ops.Hash48(item) % |s|)
  {
  }

  /** Replacing the item of a bucket by one of the same key keeps the layout. */
  lemma Refresh<T, K(!new)>(ops: Keying<T, K>, universe: iset<T>, s: seq<Bucket<T>>, contents: map<K, T>, i: nat,
                            item: T)
    requires Table(ops, universe, s, contents) && Occupied(s, i) && item in universe
    requires ops.key(item) == ops.key(s[i].item) && ops.Hash48(item) == s[i].hash
    ensures Table(ops, universe, s[i := s[i].(item := item)], contents[ops.key(item) := item])
  {
    var t := s[i := s[i].(item := item)];
    var k := ops.key(item);
    assert Holds(ops, s, i, k);
    forall j | 0 <= j < |t| && t[j].dib > 0 ensures Stores(ops, universe, t[j], contents[k := item]) {
      assert Stores(ops, universe, s[j], contents) && Holds(ops, s, j, ops.key(s[j].item));
    }
    forall a, b, x | Holds(ops, t, a, x) && Holds(ops, t, b, x) ensures a == b {
      assert Holds(ops, s, a, x) && Holds(ops, s, b, x);
    }
    forall x | x in contents ensures exists j :: Holds(ops, t, j, x) {
      var j :| Holds(ops, s, j, x);
      assert Holds(ops, t, j, x);
    }
  }

  // ----- one deletion in flight

  /** The bucket with its dib set. */
  function WithDib<T>(s: seq<Bucket<T>>, i: nat, d: nat): seq<Bucket<T>>
    requires i < |s|
  {
    s[i := s[i].(dib := d)]
  }

  /** Bucket `hole` is being vacated; it stood `d` from home, and its present content does not count. */
  ghost predicate Vacating<T, K(!new)>(ops: Keying<T, K>, universe: iset<T>, s: seq<Bucket<T>>, contents: map<K, T>,
                                       hole: nat, d: nat) {
    && hole < |s| && d >= 1
    && Ordered(WithDib(s, hole, d))
    && Placed(WithDib(s, hole, 0))
    && Represents(ops, universe, WithDib(s, hole, 0), contents)
  }

  lemma StartVacating<T, K(!new)>(ops: Keying<T, K>, universe: iset<T>, s: seq<Bucket<T>>, contents: map<K, T>, i: nat)
    requires Table(ops, universe, s, contents) && Occupied(s, i)
    ensures Vacating(ops, universe, WithDib(s, i, 0), contents - {ops.key(s[i].item)}, i, s[i].dib)
  {
    var t := WithDib(s, i, 0);
    var m := ops.key(s[i].item);
    assert Holds(ops, s, i, m);
    assert WithDib(t, i, s[i].dib) == s;
    assert WithDib(t, i, 0) == t;
    forall j | 0 <= j < |t| && t[j].dib > 0 ensures Stores(ops, universe, t[j], contents - {m}) {
      assert Stores(ops, universe, s[j], contents) && Holds(ops, s, j, ops.key(s[j].item));
    }
    forall a, b, x | Holds(ops, t, a, x) && Holds(ops, t, b, x) ensures a == b {
      assert Holds(ops, s, a, x) && Holds(ops, s, b, x);
    }
    forall x | x in contents - {m} ensures exists j :: Holds(ops, t, j, x) {
      var j :| Holds(ops, s, j, x);
      assert Holds(ops, t, j, x);
    }
  }

  /** The table after the entry right of the hole has moved into it, one nearer to its home. */
  function Shifted<T>(s: seq<Bucket<T>>, hole: nat): seq<Bucket<T>>
    requires hole < |s| && s[Next(hole, |s|)].dib > 0
  {
    var b := s[Next(hole, |s|)];
    s[hole := b.(dib := b.dib - 1)]
  }

  lemma ShiftKeepsOrder<T>(s: seq<Bucket<T>>, hole: nat, d: nat)
    requires hole < |s| && 1 < |s| && Ordered(WithDib(s, hole, d)) && s[Next(hole, |s|)].dib > 1
    ensures Ordered(Shifted(s, hole))
  {
    var n, t, w := |s|, Shifted(s, hole), WithDib(s, hole, d);
    forall j | 0 <= j < n ensures t[Next(j, n)].dib <= t[j].dib + 1 {
      assert w[Next(j, n)].dib <= w[j].dib + 1 && w[Next(hole, n)].dib <= w[hole].dib + 1;
    }
  }

  lemma ShiftKeepsPlaces<T>(s: seq<Bucket<T>>, hole: nat)
    requires hole < |s| && 1 < |s| && Placed(WithDib(s, hole, 0)) && s[Next(hole, |s|)].dib > 1
    ensures Placed(WithDib(Shifted(s, hole), Next(hole, |s|), 0))
  {
    var n, next := |s|, Next(hole, |s|);
    var u, v := WithDib(s, hole, 0), WithDib(Shifted(s, hole), next, 0);
    assert PlacedAt(u[next], next, n);
    forall j | 0 <= j < n && v[j].dib > 0 ensures PlacedAt(v[j], j, n) {
      if j != hole { assert PlacedAt(u[j], j, n); }
    }
  }

  /** The hole moves one bucket to the right. */
  lemma ShiftBack<T, K(!new)>(ops: Keying<T, K>, universe: iset<T>, s: seq<Bucket<T>>, contents: map<K, T>, hole: nat,
                              d: nat)
    requires |s| > 1 && Vacating(ops, universe, s, contents, hole, d)
    requires s[Next(hole, |s|)].dib > 1
    ensures Vacating(ops, universe, Shifted(s, hole), contents, Next(hole, |s|), s[Next(hole, |s|)].dib)
  {
    var next, t := Next(hole, |s|), Shifted(s, hole);
    ShiftKeepsOrder(s, hole, d);
    ShiftKeepsPlaces(s, hole);
    hide Represents, Ordered, Placed;
    Moved(ops, universe, WithDib(s, hole, 0), WithDib(t, next, 0), contents, next, hole);
    assert WithDib(t, next, s[next].dib) == t;
  }

  /** Moving an entry to a free bucket keeps what the table holds. */
  lemma Moved<T, K(!new)>(ops: Keying<T, K>, universe: iset<T>, s: seq<Bucket<T>>, t: seq<Bucket<T>>,
                          contents: map<K, T>, from: nat, to: nat)
    requires Represents(ops, universe, s, contents) && |t| == |s| && from < |s| && to < |s| && from != to
    requires s[from].dib > 0 && s[to].dib == 0 && t[from].dib == 0 && t[to].dib > 0
    requires t[to].item == s[from].item && t[to].hash == s[from].hash
    requires forall j :: 0 <= j < |s| && j != from && j != to ==> t[j] == s[j]
    ensures Represents(ops, universe, t, contents)
  {
    forall j | 0 <= j < |t| && t[j].dib > 0 ensures Stores(ops, universe, t[j], contents) {
      assert Stores(ops, universe, s[if j == to then from else j], contents);
    }
    forall a, b, x | Holds(ops, t, a, x) && Holds(ops, t, b, x) ensures a == b {
      assert Holds(ops, s, if a == to then from else a, x);
      assert Holds(ops, s, if b == to then from else b, x);
    }
    forall x | x in contents ensures exists j :: Holds(ops, t, j, x) {
      var j :| Holds(ops, s, j, x);
      assert Holds(ops, t, if j == from then to else j, x);
    }
  }

  lemma CloseHole<T, K(!new)>(ops: Keying<T, K>, universe: iset<T>, s: seq<Bucket<T>>, contents: map<K, T>, hole: nat,
                              d: nat)
    requires |s| > 1 && Vacating(ops, universe, s, contents, hole, d)
    requires s[Next(hole, |s|)].dib <= 1
    ensures Table(ops, universe, WithDib(s, hole, 0), contents)
  {
    var n := |s|;
    var t, w := WithDib(s, hole, 0), WithDib(s, hole, d);
    forall j | 0 <= j < n ensures t[Next(j, n)].dib <= t[j].dib + 1 {
      assert w[Next(j, n)].dib <= w[j].dib + 1;
    }
  }
}
