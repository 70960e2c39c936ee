/** Filling a hash map with the records of an index (lib/index-parser.c, the loops of wows_parse_index_buffer). */
module Filling {
  import opened Rehashing
  import opened RobinHood
  import opened Crowding
  import opened HashMaps

  /** Every item is set in turn; the last one of a key stays. */
  ghost function Filled<T, K>(ops: Keying<T, K>, c: map<K, T>, xs: seq<T>): map<K, T>
    decreases |xs|
  {
    if xs == [] then c else Filled(ops, c[ops.key(xs[0]) := xs[0]], xs[1..])
  }

  /** The smallest table, from one of `n` buckets up, that is not full with `count` keys. */
  ghost function SizeFor(count: nat, n: nat): nat
    requires n > 0
    decreases count - GrowAt(n)
  {
    if count <= GrowAt(n) then n else SizeFor(count, 2 * n)
  }

  /** In the smallest table for the keys, no stretch of buckets is home to so many of them that a distance
      would not fit its field. */
  ghost predicate Roomy<T, K>(ops: Keying<T, K>, c: map<K, T>) {
    Spread(ops, c, SizeFor(|c|, 16), MAX_DIB)
  }

  /** Filling the map never crowds it. */
  ghost predicate Uncrowded<T, K>(ops: Keying<T, K>, c: map<K, T>, xs: seq<T>) {
    && |c| + |xs| <= 0x1800_0000
    && forall i :: 0 <= i <= |xs| ==> Roomy(ops, Filled(ops, c, xs[..i]))
  }

  /** What is spread in the smallest table for it is so in any table that may hold it. */
  lemma {:induction false} SpreadInLarger<T, K>(ops: Keying<T, K>, c: map<K, T>, s: nat, n: nat)
    requires IsPow2(s) && IsPow2(n) && s <= n && |c| <= GrowAt(n)
    requires Spread(ops, c, SizeFor(|c|, s), MAX_DIB)
    ensures Spread(ops, c, n, MAX_DIB)
    decreases n - s
  {
    hide Spread;
    if s < n {
      Pow2Gap(n, s);
      Pow2Double(s);
      if |c| <= GrowAt(s) { SpreadDoubles(ops, c, s, MAX_DIB); }
      SpreadInLarger(ops, c, 2 * s, n);
    }
  }

  lemma {:induction false} FilledSize<T, K>(ops: Keying<T, K>, c: map<K, T>, xs: seq<T>)
    ensures |Filled(ops, c, xs)| <= |c| + |xs|
    decreases |xs|
  {
    if xs != [] { FilledSize(ops, c[ops.key(xs[0]) := xs[0]], xs[1..]); }
  }

  /** Up to 65535 items never crowd a map, whatever their keys. */
  lemma FewNeverCrowd<T, K>(ops: Keying<T, K>, c: map<K, T>, xs: seq<T>)
    requires |c| + |xs| <= MAX_DIB
    ensures Uncrowded(ops, c, xs)
  {
    hide Filled, SizeFor, Spread;
    forall i | 0 <= i <= |xs| ensures Roomy(ops, Filled(ops, c, xs[..i])) {
      FilledSize(ops, c, xs[..i]);
      FewAreSpread(ops, Filled(ops, c, xs[..i]), SizeFor(|Filled(ops, c, xs[..i])|, 16), MAX_DIB);
    }
  }

  /** Items of the same keys and hashes crowd a map alike. */
  lemma CrowdedByKeys<T, K(!new)>(ops: Keying<T, K>, c: map<K, T>, xs: seq<T>, ys: seq<T>)
    requires |xs| == |ys|
    requires forall i :: 0 <= i < |xs| ==> ops.key(xs[i]) == ops.key(ys[i]) && ops.Hash48(xs[i]) == ops.Hash48(ys[i])
    requires Uncrowded(ops, c, xs)
    ensures Uncrowded(ops, c, ys)
  {
    hide Spread, SizeFor, Filled, ops.Hash48;
    forall i | 0 <= i <= |ys| ensures Roomy(ops, Filled(ops, c, ys[..i])) {
      SameKeys(ops, c, c, xs[..i], ys[..i]);
      var a, b := Filled(ops, c, xs[..i]), Filled(ops, c, ys[..i]);
      assert |a.Keys| == |a| && |b.Keys| == |b|;
      FewerSpread(ops, b, a, SizeFor(|a|, 16), MAX_DIB);
    }
  }

  lemma {:induction false} SameKeys<T, K(!new)>(ops: Keying<T, K>, c: map<K, T>, d: map<K, T>, xs: seq<T>, ys: seq<T>)
    requires |xs| == |ys|
    requires forall i :: 0 <= i < |xs| ==> ops.key(xs[i]) == ops.key(ys[i]) && ops.Hash48(xs[i]) == ops.Hash48(ys[i])
    requires c.Keys == d.Keys && forall k :: k in c ==> ops.Hash48(c[k]) == ops.Hash48(d[k])
    ensures var a, b := Filled(ops, c, xs), Filled(ops, d, ys);
            a.Keys == b.Keys && forall k :: k in a ==> ops.Hash48(a[k]) == ops.Hash48(b[k])
    decreases |xs|
  {
    hide ops.Hash48;
    if xs != [] {
      SameKeys(ops, c[ops.key(xs[0]) := xs[0]], d[ops.key(ys[0]) := ys[0]], xs[1..], ys[1..]);
    }
  }

  /** Every key leads to the last item of it, or where it led before. */
  lemma {:induction false} LastStays<T, K>(ops: Keying<T, K>, c: map<K, T>, xs: seq<T>, k: K)
    ensures var d := Filled(ops, c, xs);
            if exists i :: LastOf(ops, xs, i, k) then
              k in d && forall i :: LastOf(ops, xs, i, k) ==> d[k] == xs[i]
            else (k in d <==> k in c) && (k in c ==> d[k] == c[k])
    decreases |xs|
  {
    if xs != [] {
      LastStays(ops, c[ops.key(xs[0]) := xs[0]], xs[1..], k);
      forall i | 0 < i < |xs| ensures LastOf(ops, xs, i, k) <==> LastOf(ops, xs[1..], i - 1, k) {
        assert forall j :: i < j < |xs| ==> xs[j] == xs[1..][j - 1];
        assert forall j :: i - 1 < j < |xs| - 1 ==> xs[1..][j] == xs[j + 1];
      }
      if exists i :: LastOf(ops, xs[1..], i, k) {
        var i :| LastOf(ops, xs[1..], i, k);
        assert LastOf(ops, xs, i + 1, k);
      } else if ops.key(xs[0]) == k {
        NoLater(ops, xs[1..], k);
        assert LastOf(ops, xs, 0, k);
      }
    }
  }

  /** Item `i` is the last with key `k`. */
  ghost predicate LastOf<T, K>(ops: Keying<T, K>, xs: seq<T>, i: int, k: K) {
    0 <= i < |xs| && ops.key(xs[i]) == k && forall j :: i < j < |xs| ==> ops.key(xs[j]) != k
  }

  lemma {:induction false} NoLater<T, K>(ops: Keying<T, K>, xs: seq<T>, k: K)
    requires !exists i :: LastOf(ops, xs, i, k)
    ensures forall j :: 0 <= j < |xs| ==> ops.key(xs[j]) != k
  {
    var j := |xs|;
    while j > 0
      invariant 0 <= j <= |xs| && forall i :: j <= i < |xs| ==> ops.key(xs[i]) != k
    {
      j := j - 1;
      assert !LastOf(ops, xs, j, k);
    }
  }

  lemma FilledNone<T, K>(ops: Keying<T, K>, c: map<K, T>, xs: seq<T>)
    ensures Filled(ops, c, xs[..0]) == c
  {
  }

  lemma {:induction false} FilledLast<T, K>(ops: Keying<T, K>, c: map<K, T>, xs: seq<T>, i: nat)
    requires i < |xs|
    ensures Filled(ops, c, xs[..i + 1]) == Filled(ops, c, xs[..i])[ops.key(xs[i]) := xs[i]]
    decreases i
  {
    assert xs[..i + 1] != [] && xs[..i + 1][1..] == xs[1..][..i];
    if i > 0 {
      FilledLast(ops, c[ops.key(xs[0]) := xs[0]], xs[1..], i - 1);
      assert xs[..i][1..] == xs[1..][..i - 1] && xs[1..][i - 1] == xs[i];
    } else {
      assert xs[..1][1..] == [] && xs[..0] == [];
    }
  }

  /** What the hash map asks before item `i` is set. */
  lemma RoomToSet<T(0), K(!new)>(store: HashMap<T, K>, c: map<K, T>, xs: seq<T>, i: nat)
    requires store.Valid() && Uncrowded(store.ops, c, xs) && i < |xs|
    requires store.Contents == Filled(store.ops, c, xs[..i])
    ensures store.count == store.growat ==> 2 * store.nbuckets <= MAX_BUCKETS
    ensures Spread(store.ops, store.Contents[store.ops.key(xs[i]) := xs[i]], store.GrownTo(true), MAX_DIB)
  {
    hide Filled, Table, Run, Spread, SizeFor;
    FilledSize(store.ops, c, xs[..i]);
    FilledLast(store.ops, c, xs, i);
    Pow2Double(store.nbuckets);
    Pow2Times16(store.nbuckets);
    var next := Filled(store.ops, c, xs[..i + 1]);
    assert |next| <= |store.Contents| + 1;
    assert |next| <= GrowAt(store.GrownTo(true)) && Roomy(store.ops, next);
    assert IsPow2(16);
    SpreadInLarger(store.ops, next, 16, store.GrownTo(true));
  }

  /** One `hashmap_set` an item. Allocations succeed. */
  method Fill<T(0, ==), K(!new, ==)>(store: HashMap<T, K>, xs: seq<T>)
    requires store.Valid() && Uncrowded(store.ops, store.Contents, xs) && forall x :: x in xs ==> x in store.universe
    modifies store, store.buckets
    ensures store.Valid() && store.Contents == Filled(store.ops, old(store.Contents), xs)
    ensures store.buckets == old(store.buckets) || fresh(store.buckets)
  {
    hide Filled, store.Valid, Spread, IsPow2, Uncrowded;
    ghost var c := store.Contents;
    FilledNone(store.ops, c, xs);
    for i := 0 to |xs|
      invariant store.Valid() && store.Contents == Filled(store.ops, c, xs[..i])
      invariant store.buckets == old(store.buckets) || fresh(store.buckets)
    {
      assert xs[i] in xs;
      FilledLast(store.ops, c, xs, i);
      RoomToSet(store, c, xs, i);
      var replaced := store.Set(xs[i], true);
    }
    assert xs[..|xs|] == xs;
  }
}
