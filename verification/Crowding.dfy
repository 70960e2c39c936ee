/** How far from home entries stand, in terms of the homes alone: lib/hashmap.c keeps the distance in 16 bits. */
module Crowding {
  import opened RobinHood
  import opened Layout

  /** How many keys are at home in the `j + 1` buckets that end at `h`. */
  ghost function Arrivals<T, K>(ops: Keying<T, K>, contents: map<K, T>, h: nat, j: nat, n: nat): nat
    requires h < n
    decreases j
  {
    |HomeKeys(ops, contents, h, n)| + if j == 0 then 0 else Arrivals(ops, contents, Prev(h, n), j - 1, n)
  }

  /** No stretch of `j + 1` buckets is home to more than `d + j` keys. */
  ghost predicate Spread<T, K>(ops: Keying<T, K>, contents: map<K, T>, n: nat, d: nat) {
    forall h, j :: 0 <= h < n && 0 <= j < n ==> Arrivals(ops, contents, h, j, n) <= d + j
  }

  ghost predicate DibsWithin<T>(s: seq<Bucket<T>>, d: nat) {
    forall i :: 0 <= i < |s| ==> s[i].dib <= d
  }

  /** The queue at a bucket is no shorter than any stretch before it makes it. */
  lemma {:induction false} QueueAtLeast<T, K(!new)>(ops: Keying<T, K>, universe: iset<T>, s: seq<Bucket<T>>,
                                                    contents: map<K, T>, h: nat, j: nat)
    requires Table(ops, universe, s, contents) && |contents| < |s| && h < |s|
    ensures Queue(s, h) + j >= Arrivals(ops, contents, h, j, |s|)
    decreases j
  {
    hide Table, Queue, HomeKeys;
    QueueStep(ops, universe, s, contents, h);
    if j > 0 { QueueAtLeast(ops, universe, s, contents, Prev(h, |s|), j - 1); }
  }

  /** And some stretch makes it that long: the one since a bucket last stood free of it. */
  lemma {:induction false} QueueReached<T, K(!new)>(ops: Keying<T, K>, universe: iset<T>, s: seq<Bucket<T>>,
                                                    contents: map<K, T>, f: nat, m: nat)
    returns (j: nat)
    requires Table(ops, universe, s, contents) && |contents| < |s| && f < |s| && m < |s| && s[f].dib == 0
    ensures j <= m && Arrivals(ops, contents, At(f, m, |s|), j, |s|) == Queue(s, At(f, m, |s|)) + j
    decreases m
  {
    InQueue(s, f, 0);
    hide Table, Queue, HomeKeys;
    var h := At(f, m, |s|);
    QueueStep(ops, universe, s, contents, h);
    j := 0;
    if m > 0 {
      assert Prev(h, |s|) == At(f, m - 1, |s|);
      if Queue(s, Prev(h, |s|)) > 0 {
        j := QueueReached(ops, universe, s, contents, f, m - 1);
        j := j + 1;
      }
    }
  }

  lemma Longest<T, K(!new)>(ops: Keying<T, K>, universe: iset<T>, s: seq<Bucket<T>>, contents: map<K, T>, h: nat)
    returns (j: nat)
    requires Table(ops, universe, s, contents) && |contents| < |s| && h < |s|
    ensures j < |s| && Arrivals(ops, contents, h, j, |s|) == Queue(s, h) + j
  {
    var f := SomeFree(ops, universe, s, contents, h);
    var free := At(h, f, |s|);
    var m := if f == 0 then 0 else |s| - f;
    assert At(free, m, |s|) == h;
    j := QueueReached(ops, universe, s, contents, free, m);
  }

  /** The entries of a table stand at most `d` from home, counted from one, exactly when its keys are so spread. */
  lemma DibsExact<T, K(!new)>(ops: Keying<T, K>, universe: iset<T>, s: seq<Bucket<T>>, contents: map<K, T>, d: nat)
    requires Table(ops, universe, s, contents) && |contents| < |s|
    ensures DibsWithin(s, d) <==> Spread(ops, contents, |s|, d)
  {
    if DibsWithin(s, d) {
      forall h, j | 0 <= h < |s| && 0 <= j < |s| ensures Arrivals(ops, contents, h, j, |s|) <= d + j {
        QueueAtLeast(ops, universe, s, contents, h, j);
        var w := Queue(s, h);
        if w > 0 { InQueue(s, h, w - 1); }
      }
    }
    if Spread(ops, contents, |s|, d) {
      forall i | 0 <= i < |s| ensures s[i].dib <= d {
        if s[i].dib > 0 {
          assert PlacedAt(s[i], i, |s|);
          var h := s[i].hash % |s|;
          InQueue(s, h, s[i].dib - 1);
          var j := Longest(ops, universe, s, contents, h);
        }
      }
    }
  }

  // ----- comparing contents

  /** Every key of `c` is one of `d`, with the same hash. */
  ghost predicate Fewer<T, K(!new)>(ops: Keying<T, K>, c: map<K, T>, d: map<K, T>) {
    forall k :: k in c ==> k in d && ops.Hash48(c[k]) == ops.Hash48(d[k])
  }

  lemma {:induction false} FewerArrivals<T, K(!new)>(ops: Keying<T, K>, c: map<K, T>, d: map<K, T>, h: nat, j: nat,
                                                     n: nat)
    requires Fewer(ops, c, d) && h < n
    ensures Arrivals(ops, c, h, j, n) <= Arrivals(ops, d, h, j, n)
    decreases j
  {
    SubsetSize(HomeKeys(ops, c, h, n), HomeKeys(ops, d, h, n));
    if j > 0 { FewerArrivals(ops, c, d, Prev(h, n), j - 1, n); }
  }

  lemma FewerSpread<T, K(!new)>(ops: Keying<T, K>, c: map<K, T>, d: map<K, T>, n: nat, m: nat)
    requires Fewer(ops, c, d) && Spread(ops, d, n, m)
    ensures Spread(ops, c, n, m)
  {
    forall h, j | 0 <= h < n && 0 <= j < n ensures Arrivals(ops, c, h, j, n) <= m + j {
      FewerArrivals(ops, c, d, h, j, n);
    }
  }

  /** One key more makes every stretch over its home longer by one. */
  lemma {:induction false} OneMore<T, K(!new)>(ops: Keying<T, K>, c: map<K, T>, k: K, item: T, h: nat, j: nat, n: nat)
    requires k !in c && h < n && ops.Hash48(item) % n == h
    ensures Arrivals(ops, c[k := item], h, j, n) >= Arrivals(ops, c, h, j, n) + 1
  {
    assert HomeKeys(ops, c[k := item], h, n) == HomeKeys(ops, c, h, n) + {k};
    if j > 0 { FewerArrivals(ops, c, c[k := item], Prev(h, n), j - 1, n); }
  }

  /** An entry in flight has come no further than the table it will be part of allows. */
  lemma FlightWithin<T, K(!new)>(ops: Keying<T, K>, universe: iset<T>, s: seq<Bucket<T>>, contents: map<K, T>,
                                 e: Bucket<T>, i: nat, d: nat)
    requires InFlight(ops, universe, s, contents, e, i) && |contents| < |s|
    requires Spread(ops, contents[ops.key(e.item) := e.item], |s|, d)
    ensures e.dib <= d
  {
    var h := e.hash % |s|;
    if e.dib > 1 {
      assert Prev(i, |s|) == At(h, e.dib - 2, |s|);
      InQueue(s, h, e.dib - 2);
    }
    var j := Longest(ops, universe, s, contents, h);
    OneMore(ops, contents, ops.key(e.item), e.item, h, j, |s|);
  }

  // ----- counting

  /** The keys counted by Arrivals. */
  ghost function StretchKeys<T, K>(ops: Keying<T, K>, contents: map<K, T>, h: nat, j: nat, n: nat): set<K>
    requires h < n
    decreases j
  {
    HomeKeys(ops, contents, h, n) + if j == 0 then {} else StretchKeys(ops, contents, Prev(h, n), j - 1, n)
  }

  /** How far to the left of `h` bucket `x` lies. */
  function Before(x: nat, h: nat, n: nat): nat
    requires x < n && h < n
  {
    if x <= h then h - x else h + n - x
  }

  lemma StepLeft(x: nat, h: nat, n: nat)
    requires x < n && h < n
    ensures Before(x, Prev(h, n), n) == if x == h then n - 1 else Before(x, h, n) - 1
  {
  }

  lemma {:induction false} StretchSize<T, K>(ops: Keying<T, K>, contents: map<K, T>, h: nat, j: nat, n: nat)
    requires h < n && j < n
    ensures forall k :: k in StretchKeys(ops, contents, h, j, n) ==>
            k in contents && Before(ops.Hash48(contents[k]) % n, h, n) <= j
    ensures |StretchKeys(ops, contents, h, j, n)| == Arrivals(ops, contents, h, j, n)
    decreases j
  {
    hide Prev, ops.Hash48, Before;
    var here := HomeKeys(ops, contents, h, n);
    if j == 0 {
      assert Before(h, h, n) == 0 by { Here(h, n); }
    } else {
      StretchSize(ops, contents, Prev(h, n), j - 1, n);
      Here(h, n);
      var rest := StretchKeys(ops, contents, Prev(h, n), j - 1, n);
      forall k | k in rest ensures k !in here && k in contents && Before(ops.Hash48(contents[k]) % n, h, n) <= j {
        StepLeft(ops.Hash48(contents[k]) % n, h, n);
      }
      assert |here + rest| == |here| + |rest|;
    }
  }

  lemma Here(h: nat, n: nat)
    requires h < n
    ensures Before(h, h, n) == 0
  {
  }

  /** No more than `d` keys are always spread. */
  lemma FewAreSpread<T, K>(ops: Keying<T, K>, contents: map<K, T>, n: nat, d: nat)
    requires |contents| <= d
    ensures Spread(ops, contents, n, d)
  {
    forall h, j | 0 <= h < n && 0 <= j < n ensures Arrivals(ops, contents, h, j, n) <= d + j {
      StretchSize(ops, contents, h, j, n);
      SubsetSize(StretchKeys(ops, contents, h, j, n), contents.Keys);
      assert |contents.Keys| == |contents|;
    }
  }

  // ----- doubling

  /** Numbers that differ by a multiple of `n` have the same remainder. */
  lemma SameRemainder(x: nat, y: nat, k: int, n: nat)
    requires n > 0 && x == y + n * k
    ensures x % n == y % n
  {
    var q, r := x / n - y / n - k, y % n - x % n;
    assert n * q == r by {
      assert n * (x / n) + x % n == x && n * (y / n) + y % n == y;
      assert n * q == n * (x / n) - n * (y / n) - n * k;
    }
    FarFromZero(n, q);
  }

  lemma FarFromZero(n: nat, k: int)
    ensures k > 0 ==> n * k >= n
    ensures k < 0 ==> n * k + n <= 0
  {
  }

  /** The home in a table twice as large lies over the home. */
  lemma HomeBelow(x: nat, n: nat)
    requires n > 0
    ensures (x % (2 * n)) % n == x % n
  {
    var q := x / (2 * n);
    assert 2 * n * q + x % (2 * n) == x;
    SameRemainder(x, x % (2 * n), 2 * q, n);
  }

  lemma Below2(x: nat, n: nat)
    requires x < 2 * n
    ensures x % n == if x < n then x else x - n
  {
    if x >= n { SameRemainder(x, x - n, 1, n); }
  }

  lemma PrevBelow(h: nat, n: nat)
    requires h < 2 * n
    ensures h % n < n && Prev(h, 2 * n) % n == Prev(h % n, n)
  {
    Below2(h, n);
    Below2(Prev(h, 2 * n), n);
  }

  /** A stretch of the doubled table is home to no more keys than the stretch it lies over. */
  lemma {:induction false} DoubledArrivals<T, K>(ops: Keying<T, K>, c: map<K, T>, h: nat, j: nat, n: nat)
    requires n > 0 && h < 2 * n
    ensures h % n < n && Arrivals(ops, c, h, j, 2 * n) <= Arrivals(ops, c, h % n, j, n)
    decreases j
  {
    hide Prev, ops.Hash48;
    forall k | k in HomeKeys(ops, c, h, 2 * n) ensures k in HomeKeys(ops, c, h % n, n) {
      HomeBelow(ops.Hash48(c[k]), n);
    }
    SubsetSize(HomeKeys(ops, c, h, 2 * n), HomeKeys(ops, c, h % n, n));
    if j > 0 {
      PrevBelow(h, n);
      DoubledArrivals(ops, c, Prev(h, 2 * n), j - 1, n);
    }
  }

  /** Keys that are spread in a table they fit in are spread in one twice as large. */
  lemma SpreadDoubles<T, K>(ops: Keying<T, K>, c: map<K, T>, n: nat, d: nat)
    requires Spread(ops, c, n, d) && |c| <= n
    ensures Spread(ops, c, 2 * n, d)
  {
    hide ops.Hash48;
    forall h, j | 0 <= h < 2 * n && 0 <= j < 2 * n ensures Arrivals(ops, c, h, j, 2 * n) <= d + j {
      if j < n {
        DoubledArrivals(ops, c, h, j, n);
      } else {
        StretchSize(ops, c, h, j, 2 * n);
        SubsetSize(StretchKeys(ops, c, h, j, 2 * n), c.Keys);
        assert |c.Keys| == |c|;
      }
    }
  }
}
