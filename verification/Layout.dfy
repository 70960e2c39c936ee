/** History independence of the Robin Hood table: which keys it holds fixes every dib.

    `Queue(s, h)` counts the entries that reach bucket `h` looking for a place. It obeys the recurrence
    of a queue that serves one entry per bucket, whose arrivals are the keys at home in each bucket;
    on a ring with a free bucket that recurrence has one solution. */
module Layout {
  import opened RobinHood

  /** From offset `j` on, the first offset whose bucket is not waiting for an entry from `h` or before. */
  ghost function QueueFrom<T>(s: seq<Bucket<T>>, h: nat, j: nat): (w: nat)
    requires h < |s| && j <= |s|
    ensures j <= w <= |s|
    decreases |s| - j
  {
    if j < |s| && s[At(h, j, |s|)].dib >= j + 1 then QueueFrom(s, h, j + 1) else j
  }

  ghost function Queue<T>(s: seq<Bucket<T>>, h: nat): (w: nat)
    requires h < |s|
    ensures w <= |s|
  {
    QueueFrom(s, h, 0)
  }

  lemma {:induction false} QueueBounds<T>(s: seq<Bucket<T>>, h: nat, j: nat, t: nat)
    requires h < |s| && j <= t < |s| && Ordered(s)
    ensures t < QueueFrom(s, h, j) ==> s[At(h, t, |s|)].dib >= t + 1
    ensures s[At(h, t, |s|)].dib >= t + 1 && (j == 0 || s[At(h, j - 1, |s|)].dib >= j) ==> t < QueueFrom(s, h, j)
    decreases |s| - j
  {
    if s[At(h, t, |s|)].dib >= t + 1 { Reach(s, h, t, j); }
    if j < t && s[At(h, j, |s|)].dib >= j + 1 { QueueBounds(s, h, j + 1, t); }
  }

  /** The bucket `t` steps from `h` holds an entry from `h` or before exactly when the queue reaches it. */
  lemma InQueue<T>(s: seq<Bucket<T>>, h: nat, t: nat)
    requires h < |s| && t < |s| && Ordered(s)
    ensures s[At(h, t, |s|)].dib >= t + 1 <==> t < Queue(s, h)
  {
    QueueBounds(s, h, 0, t);
  }

  /** The keys at home in bucket `h`. */
  ghost function HomeKeys<T, K>(ops: Keying<T, K>, contents: map<K, T>, h: nat, n: nat): set<K>
    requires n > 0
  {
    set k | k in contents && ops.Hash48(contents[k]) % n == h
  }

  /** What is left of the queue of the bucket before `h` once that bucket took its entry. */
  ghost function Leftover<T>(s: seq<Bucket<T>>, h: nat): nat
    requires h < |s|
  {
    var w := Queue(s, Prev(h, |s|));
    if w == 0 then 0 else w - 1
  }

  /** The entries at home in `h` stand exactly at the offsets between the leftover and the queue. */
  lemma AtHome<T, K(!new)>(ops: Keying<T, K>, universe: iset<T>, s: seq<Bucket<T>>, contents: map<K, T>, h: nat, t: nat)
    requires Table(ops, universe, s, contents) && |contents| < |s| && h < |s| && t < |s|
    ensures Leftover(s, h) <= t < Queue(s, h) <==> s[At(h, t, |s|)].dib == t + 1
    ensures t < Leftover(s, h) ==> t < Queue(s, h)
  {
    InQueue(s, h, t);
    if t + 1 < |s| {
      InQueue(s, Prev(h, |s|), t + 1);
      assert At(Prev(h, |s|), t + 1, |s|) == At(h, t, |s|);
    } else {
      DibAtMostCount(ops, universe, s, contents, At(h, t, |s|));
    }
  }

  /** An entry standing in that range is a key at home in `h`, and no other bucket of the range holds it. */
  lemma Arrival<T, K(!new)>(ops: Keying<T, K>, universe: iset<T>, s: seq<Bucket<T>>, contents: map<K, T>, h: nat,
                            t: nat)
    requires Table(ops, universe, s, contents) && |contents| < |s| && h < |s|
    requires Leftover(s, h) <= t < Queue(s, h)
    ensures ops.key(s[At(h, t, |s|)].item) in HomeKeys(ops, contents, h, |s|)
    ensures forall u :: 0 <= u < t && Occupied(s, At(h, u, |s|)) ==>
            ops.key(s[At(h, u, |s|)].item) != ops.key(s[At(h, t, |s|)].item)
  {
    var i := At(h, t, |s|);
    AtHome(ops, universe, s, contents, h, t);
    assert Stores(ops, universe, s[i], contents) && PlacedAt(s[i], i, |s|);
    forall u | 0 <= u < t && Occupied(s, At(h, u, |s|)) ensures ops.key(s[At(h, u, |s|)].item) != ops.key(s[i].item) {
      assert Holds(ops, s, At(h, u, |s|), ops.key(s[At(h, u, |s|)].item)) && Holds(ops, s, i, ops.key(s[i].item));
    }
  }

  /** Every key at home in `h` stands in that range. */
  lemma EveryArrival<T, K(!new)>(ops: Keying<T, K>, universe: iset<T>, s: seq<Bucket<T>>, contents: map<K, T>, h: nat,
                                 k: K)
    requires Table(ops, universe, s, contents) && |contents| < |s| && h < |s|
    requires k in HomeKeys(ops, contents, h, |s|)
    ensures exists t :: Leftover(s, h) <= t < Queue(s, h) && ops.key(s[At(h, t, |s|)].item) == k
  {
    var i :| Holds(ops, s, i, k);
    var t := s[i].dib - 1;
    assert Stores(ops, universe, s[i], contents) && PlacedAt(s[i], i, |s|);
    hide Table;
    AtHome(ops, universe, s, contents, h, t);
  }

  /** The queue's recurrence: what is left over from the bucket before, and the keys at home here. */
  lemma QueueStep<T, K(!new)>(ops: Keying<T, K>, universe: iset<T>, s: seq<Bucket<T>>, contents: map<K, T>, h: nat)
    requires Table(ops, universe, s, contents) && |contents| < |s| && h < |s|
    ensures Queue(s, h) == Leftover(s, h) + |HomeKeys(ops, contents, h, |s|)|
  {
    hide Table, Queue, HomeKeys;
    var lo, hi := Leftover(s, h), Queue(s, h);
    if lo > 0 { AtHome(ops, universe, s, contents, h, lo - 1); }
    var ks := KeysAt(ops, s, h, lo, hi);
    forall j | 0 <= j < |ks|
      ensures ks[j] in HomeKeys(ops, contents, h, |s|) && forall i :: 0 <= i < j ==> ks[i] != ks[j]
    {
      Arrival(ops, universe, s, contents, h, lo + j);
      forall i | 0 <= i < j ensures ks[i] != ks[j] { AtHome(ops, universe, s, contents, h, lo + i); }
    }
    DistinctSize(ks);
    forall k | k in HomeKeys(ops, contents, h, |s|) ensures k in ks {
      EveryArrival(ops, universe, s, contents, h, k);
      var t :| lo <= t < hi && ops.key(s[At(h, t, |s|)].item) == k;
      assert ks[t - lo] == k;
    }
    assert Elements(ks) == HomeKeys(ops, contents, h, |s|);
  }

  /** One bucket further, the gap between two queues of the same arrivals does not widen, and stays
      as wide only if the bucket left behind is occupied in the table with the shorter queue. */
  lemma GapStep<T, K(!new)>(ops: Keying<T, K>, universe: iset<T>, s: seq<Bucket<T>>, c: map<K, T>, t: seq<Bucket<T>>,
                            d: map<K, T>, b: nat)
    requires Table(ops, universe, s, c) && |c| < |s| && Table(ops, universe, t, d) && |d| < |t| && |s| == |t|
    requires b < |s| && Queue(s, b) <= Queue(t, b)
    requires HomeKeys(ops, c, Next(b, |s|), |s|) == HomeKeys(ops, d, Next(b, |s|), |s|)
    ensures 0 <= Queue(t, Next(b, |s|)) - Queue(s, Next(b, |s|)) <= Queue(t, b) - Queue(s, b)
    ensures Queue(t, Next(b, |s|)) - Queue(s, Next(b, |s|)) == Queue(t, b) - Queue(s, b) > 0 ==> s[b].dib > 0
  {
    InQueue(s, b, 0);
    hide Table, HomeKeys, Queue;
    QueueStep(ops, universe, s, c, Next(b, |s|));
    QueueStep(ops, universe, t, d, Next(b, |s|));
    assert Prev(Next(b, |s|), |s|) == b;
  }

  /** Once round the ring the gap is back where it was, so it was never open. */
  lemma {:induction false} GapShrinks<T, K(!new)>(ops: Keying<T, K>, universe: iset<T>, s: seq<Bucket<T>>, c: map<K, T>,
                                                  t: seq<Bucket<T>>, d: map<K, T>, h: nat, m: nat)
    requires Table(ops, universe, s, c) && |c| < |s| && Table(ops, universe, t, d) && |d| < |t| && |s| == |t|
    requires forall b :: 0 <= b < |s| ==> HomeKeys(ops, c, b, |s|) == HomeKeys(ops, d, b, |s|)
    requires h < |s| && m <= |s| && Queue(s, h) <= Queue(t, h)
    ensures 0 <= Queue(t, At(h, m, |s|)) - Queue(s, At(h, m, |s|)) <= Queue(t, h) - Queue(s, h)
    ensures Queue(t, At(h, m, |s|)) - Queue(s, At(h, m, |s|)) == Queue(t, h) - Queue(s, h) > 0 ==>
              forall j :: 0 <= j < m ==> s[At(h, j, |s|)].dib > 0
    decreases m
  {
    hide Table, HomeKeys, Queue;
    if m > 0 {
      GapShrinks(ops, universe, s, c, t, d, h, m - 1);
      assert Next(At(h, m - 1, |s|), |s|) == At(h, m, |s|);
      GapStep(ops, universe, s, c, t, d, At(h, m - 1, |s|));
    }
  }

  lemma SameQueues<T, K(!new)>(ops: Keying<T, K>, universe: iset<T>, s: seq<Bucket<T>>, c: map<K, T>, t: seq<Bucket<T>>,
                               d: map<K, T>, h: nat)
    requires Table(ops, universe, s, c) && |c| < |s| && Table(ops, universe, t, d) && |d| < |t| && |s| == |t|
    requires forall b :: 0 <= b < |s| ==> HomeKeys(ops, c, b, |s|) == HomeKeys(ops, d, b, |s|)
    requires h < |s|
    ensures Queue(s, h) == Queue(t, h)
  {
    if Queue(s, h) <= Queue(t, h) {
      GapShrinks(ops, universe, s, c, t, d, h, |s|);
      var f := SomeFree(ops, universe, s, c, h);
    } else {
      GapShrinks(ops, universe, t, d, s, c, h, |s|);
      var f := SomeFree(ops, universe, t, d, h);
    }
  }

  lemma SameHomes<T, K(!new)>(ops: Keying<T, K>, universe: iset<T>, s: seq<Bucket<T>>, c: map<K, T>, t: seq<Bucket<T>>,
                              d: map<K, T>, n: nat)
    requires Represents(ops, universe, s, c) && Represents(ops, universe, t, d) && ops.KeyedOn(universe)
    requires n > 0 && c.Keys == d.Keys
    ensures forall b :: 0 <= b < n ==> HomeKeys(ops, c, b, n) == HomeKeys(ops, d, b, n)
  {
    forall k | k in c ensures ops.Hash48(c[k]) == ops.Hash48(d[k]) {
      var i :| Holds(ops, s, i, k);
      var j :| Holds(ops, t, j, k);
      assert Stores(ops, universe, s[i], c) && Stores(ops, universe, t[j], d);
      assert ops.Matches(c[k], d[k]);
    }
  }

  lemma DibNoLess<T, K(!new)>(ops: Keying<T, K>, universe: iset<T>, s: seq<Bucket<T>>, c: map<K, T>, t: seq<Bucket<T>>,
                              i: nat)
    requires Table(ops, universe, s, c) && Ordered(t) && |s| == |t| && i < |s|
    requires forall h :: 0 <= h < |s| ==> Queue(s, h) == Queue(t, h)
    ensures s[i].dib <= t[i].dib
  {
    if s[i].dib > 0 {
      assert PlacedAt(s[i], i, |s|);
      var h := s[i].hash % |s|;
      InQueue(s, h, s[i].dib - 1);
      InQueue(t, h, s[i].dib - 1);
    }
  }

  /** Two tables of equal size that hold the same keys have the same dib in every bucket,
      whatever calls led to either. */
  lemma HistoryIndependence<T, K(!new)>(ops: Keying<T, K>, universe: iset<T>, s: seq<Bucket<T>>, c: map<K, T>,
                                        t: seq<Bucket<T>>, d: map<K, T>)
    requires ops.KeyedOn(universe)
    requires Table(ops, universe, s, c) && |c| < |s| && Table(ops, universe, t, d)
    requires |s| == |t| && c.Keys == d.Keys
    ensures forall i :: 0 <= i < |s| ==> s[i].dib == t[i].dib
  {
    assert |d.Keys| == |d| && |c.Keys| == |c|;
    SameHomes(ops, universe, s, c, t, d, |s|);
    forall h | 0 <= h < |s| ensures Queue(s, h) == Queue(t, h) {
      SameQueues(ops, universe, s, c, t, d, h);
    }
    forall i | 0 <= i < |s| ensures s[i].dib == t[i].dib {
      DibNoLess(ops, universe, s, c, t, i);
      DibNoLess(ops, universe, t, d, s, i);
    }
  }
}
