/** What holds of every hash map that its calls can produce. */
module HashMapLaws {
  import opened RobinHood
  import opened Rehashing
  import opened HashMaps
  import opened Crowding
  import Keys
  import Layout

  /** Sizes are powers of two of at least 16, some bucket is always free, no entry is further from home
      than there are items, and the 16-bit dib holds every distance. */
  lemma Bounds<T(0), K(!new)>(m: HashMap<T, K>, i: nat)
    requires m.Valid() && i < m.nbuckets
    ensures IsPow2(m.nbuckets) && IsPow2(m.cap) && m.nbuckets >= m.cap >= 16
    ensures m.Cells()[i].dib <= m.count <= m.growat < m.nbuckets
    ensures m.Cells()[i].dib <= 0xFFFF
  {
    DibAtMostCount(m.ops, m.universe, m.Cells(), m.Contents, i);
    DibsExact(m.ops, m.universe, m.Cells(), m.Contents, MAX_DIB);
  }

  /** A table is full at three quarters, and sparse at a tenth. */
  lemma Thresholds<T(0), K(!new)>(m: HashMap<T, K>)
    requires m.Valid()
    ensures 4 * m.growat == 3 * m.nbuckets && 10 * m.shrinkat <= m.nbuckets < 10 * m.shrinkat + 10
  {
    hide Table, Spread, Run, m.ops.KeyedOn, IsPow2, GrowAt, ShrinkAt;
    Pow2Times16(m.nbuckets);
    ThreeQuarters(m.nbuckets);
  }

  lemma ThreeQuarters(n: nat)
    requires n % 16 == 0
    ensures 4 * GrowAt(n) == 3 * n && 10 * ShrinkAt(n) <= n < 10 * ShrinkAt(n) + 10
  {
  }

  /** Up to 65535 items can be set whatever their homes, in a table of any size. */
  lemma FewItemsFit<T(0), K(!new)>(m: HashMap<T, K>, item: T, n: nat)
    requires m.Valid() && |m.Contents| < MAX_DIB
    ensures Spread(m.ops, m.Contents[m.ops.key(item) := item], n, MAX_DIB)
  {
    FewAreSpread(m.ops, m.Contents[m.ops.key(item) := item], n, MAX_DIB);
  }

  // ----- which table sizes always fit 16 bits

  /** Maps keyed by number. */
  function Ids(): Keying<nat, nat> {
    Keys.ByNumber((x: nat) => x)
  }

  ghost function LowIds(): iset<nat> {
    iset x: nat | IsLow(x)
  }

  predicate IsLow(x: nat) {
    x < Keys.HASH_RANGE
  }

  /** Every table of `n` buckets that is no fuller than allowed fits the 16-bit field. */
  ghost predicate AllFit(n: nat) {
    forall s: seq<Bucket<nat>>, contents: map<nat, nat> ::
      |s| == n && Table(Ids(), LowIds(), s, contents) && |contents| <= GrowAt(n) ==> DibsWithin(s, MAX_DIB)
  }

  /** The `j`-th multiple of `n`. */
  function Multiple(j: nat, n: nat): nat {
    if j == 0 then 0 else Multiple(j - 1, n) + n
  }

  lemma {:induction false} Multiples(i: nat, j: nat, n: nat)
    requires n > 0 && i <= j
    ensures Multiple(i, n) <= Multiple(j, n) && (i < j ==> Multiple(i, n) < Multiple(j, n))
    ensures j <= 0x1_0000 && n <= MAX_BUCKETS ==> Multiple(j, n) <= j * MAX_BUCKETS
    decreases j
  {
    if i < j {
      Multiples(i, j - 1, n);
    } else if j > 0 {
      Multiples(j - 1, j - 1, n);
    }
  }

  lemma {:induction false} MultipleHome(j: nat, n: nat)
    requires n > 0
    ensures Multiple(j, n) % n == 0
  {
    if j > 0 {
      MultipleHome(j - 1, n);
      SameRemainder(Multiple(j - 1, n) + n, Multiple(j - 1, n), 1, n);
    }
  }

  /** 65536 ids that share a home, one behind the other. */
  ghost function Pile(n: nat): seq<Bucket<nat>>
    requires n > 0x1_0000
  {
    seq(n, j requires 0 <= j < n =>
      if j < 0x1_0000 then Bucket(Multiple(j, n), j + 1, Multiple(j, n)) else Bucket(0, 0, 0))
  }

  ghost function PiledIds(n: nat, m: nat): set<nat> {
    if m == 0 then {} else PiledIds(n, m - 1) + {Multiple(m - 1, n)}
  }

  ghost function Piled(n: nat): map<nat, nat> {
    map k | k in PiledIds(n, 0x1_0000) :: k
  }

  lemma {:induction false} PiledHas(n: nat, m: nat, x: nat)
    requires n > 0
    ensures x in PiledIds(n, m) <==> exists j :: 0 <= j < m && x == Multiple(j, n)
  {
    hide Multiple;
    if m > 0 {
      PiledHas(n, m - 1, x);
      if x in PiledIds(n, m - 1) {
        var j :| 0 <= j < m - 1 && x == Multiple(j, n);
        assert 0 <= j < m;
      } else if x in PiledIds(n, m) {
        assert x == Multiple(m - 1, n);
      }
    }
  }

  lemma {:induction false} PiledSize(n: nat, m: nat)
    requires n > 0
    ensures |PiledIds(n, m)| == m
  {
    if m > 0 {
      PiledSize(n, m - 1);
      PiledHas(n, m - 1, Multiple(m - 1, n));
      assert Multiple(m - 1, n) !in PiledIds(n, m - 1) by {
        forall j: nat | j < m - 1 ensures Multiple(j, n) != Multiple(m - 1, n) { Multiples(j, m - 1, n); }
      }
    }
  }

  lemma PileBucket(n: nat, j: nat)
    requires 0x1_0000 < n <= MAX_BUCKETS && j < 0x1_0000
    ensures PlacedAt(Pile(n)[j], j, n) && Stores(Ids(), LowIds(), Pile(n)[j], Piled(n))
  {
    hide Multiple, PiledIds;
    MultipleHome(j, n);
    Multiples(j, j, n);
    PiledHas(n, 0x1_0000, Multiple(j, n));
    assert At(0, j, n) == j;
  }

  lemma PileIsTable(n: nat)
    requires 0x1_0000 < n <= MAX_BUCKETS
    ensures Table(Ids(), LowIds(), Pile(n), Piled(n)) && |Piled(n)| == 0x1_0000
  {
    hide Multiple, PiledIds, PlacedAt, Stores;
    var s, c, ops := Pile(n), Piled(n), Ids();
    PiledSize(n, 0x1_0000);
    assert c.Keys == PiledIds(n, 0x1_0000) && |c| == |c.Keys|;
    forall j: nat | j < 0x1_0000 ensures PlacedAt(s[j], j, n) && Stores(ops, LowIds(), s[j], c) { PileBucket(n, j); }
    forall i, j, k | Holds(ops, s, i, k) && Holds(ops, s, j, k) ensures i == j {
      if i < j { Multiples(i, j, n); }
      if j < i { Multiples(j, i, n); }
    }
    forall k | k in c ensures exists i :: Holds(ops, s, i, k) {
      PiledHas(n, 0x1_0000, k);
      var j :| 0 <= j < 0x1_0000 && k == Multiple(j, n);
      assert Holds(ops, s, j, k);
    }
  }

  lemma SixtyFourK()
    ensures IsPow2(0x1_0000)
  {
    var n := 1;
    while n < 0x1_0000
      invariant IsPow2(n) && n <= 0x1_0000
                && n in {0x1, 0x2, 0x4, 0x8, 0x10, 0x20, 0x40, 0x80, 0x100, 0x200, 0x400, 0x800, 0x1000,
                                                    0x2000, 0x4000, 0x8000, 0x1_0000}
    {
      Pow2Double(n);
      n := 2 * n;
    }
  }

  /** The distance field is wide enough for every table of a size exactly up to 2^16 buckets: from 2^17 on,
      enough ids that share a home overflow it. */
  lemma SixteenBitsExactly(n: nat)
    requires IsPow2(n) && 16 <= n <= MAX_BUCKETS
    ensures AllFit(n) <==> n <= 0x1_0000
  {
    if n <= 0x1_0000 {
      forall s: seq<Bucket<nat>>, contents: map<nat, nat> |
        |s| == n && Table(Ids(), LowIds(), s, contents) && |contents| <= GrowAt(n)
        ensures DibsWithin(s, MAX_DIB)
      {
        forall i | 0 <= i < |s| ensures s[i].dib <= MAX_DIB { DibAtMostCount(Ids(), LowIds(), s, contents, i); }
      }
    } else {
      PileIsTable(n);
      SixtyFourK();
      Pow2Gap(n, 0x1_0000);
      assert Pile(n)[0xFFFF].dib == 0x1_0000;
    }
  }

  /** Two maps of equal size that hold the same keys have the same layout, whatever calls made them. */
  lemma SameKeysSameLayout<T(0), K(!new)>(m: HashMap<T, K>, w: HashMap<T, K>)
    requires m.Valid() && w.Valid() && m.ops == w.ops && m.universe == w.universe
    requires m.nbuckets == w.nbuckets && m.Contents.Keys == w.Contents.Keys
    ensures forall i :: 0 <= i < m.nbuckets ==> m.Cells()[i].dib == w.Cells()[i].dib
  {
    Layout.HistoryIndependence(m.ops, m.universe, m.Cells(), m.Contents, w.Cells(), w.Contents);
  }

  /** Since a map was new or cleared, its calls have scanned at most 16/3 old buckets each in resizing. */
  lemma ResizingPaid<T(0), K(!new)>(m: HashMap<T, K>)
    requires m.Valid()
    ensures 3 * Sum(m.costs) <= 16 * |m.costs|
  {
    AmortisedRehashing(m.shapes, m.costs);
  }
}
