/** The sizes a table goes through, and what rehashing costs over a whole run. */
module Rehashing {

  /** What a set or delete call sees of the table's size. */
  datatype Shape = Shape(nbuckets: nat, cap: nat, count: nat)

  function GrowAt(nbuckets: nat): nat { nbuckets * 3 / 4 }

  function ShrinkAt(nbuckets: nat): nat { nbuckets / 10 }

  ghost predicate IsPow2(n: nat) {
    n == 1 || (n > 1 && n % 2 == 0 && IsPow2(n / 2))
  }

  /** Two distinct powers of two are at least a factor of two apart. */
  lemma {:induction false} Pow2Gap(a: nat, b: nat)
    requires IsPow2(a) && IsPow2(b) && a > b
    ensures a / 2 >= b
  {
    if b > 1 { Pow2Gap(a / 2, b / 2); }
  }

  lemma Pow2Double(n: nat)
    requires IsPow2(n)
    ensures IsPow2(2 * n)
  {
    assert 2 * n / 2 == n;
  }

  lemma Pow2Half(n: nat)
    requires IsPow2(n) && n > 1
    ensures n % 2 == 0 && IsPow2(n / 2)
  {
  }

  lemma {:induction false} Pow2Times16(n: nat)
    requires IsPow2(n) && n >= 16
    ensures n % 16 == 0
  {
    if n > 16 {
      Pow2Gap(n, 16);
      Pow2Times16(n / 2);
    }
  }

  ghost predicate Sized(s: Shape) {
    && IsPow2(s.nbuckets) && IsPow2(s.cap) && 16 <= s.cap <= s.nbuckets
    && s.count <= GrowAt(s.nbuckets)
  }

  /** `b` may follow `a` on a set call that scanned `cost` old buckets: a full table either grows or,
      on a failed allocation, stays as it is. */
  predicate SetStep(a: Shape, b: Shape, cost: nat) {
    if a.count == GrowAt(a.nbuckets) then
      || (b == a && cost == 0)
      || (cost == a.nbuckets && b.nbuckets == 2 * a.nbuckets && b.cap == a.cap && a.count <= b.count <= a.count + 1)
    else
      cost == 0 && b.nbuckets == a.nbuckets && b.cap == a.cap && a.count <= b.count <= a.count + 1
  }

  /** `b` may follow `a` on a delete call: a table above its floor that has become sparse
      halves unless the allocation fails. */
  predicate DeleteStep(a: Shape, b: Shape, cost: nat) {
    || (b == a && cost == 0)
    || (a.count > 0 && b == a.(count := a.count - 1) && cost == 0)
    || (&& a.count > 0 && a.nbuckets > a.cap && a.count - 1 <= ShrinkAt(a.nbuckets)
        && b == Shape(a.nbuckets / 2, a.cap, a.count - 1) && cost == a.nbuckets)
  }

  /** A run of set and delete calls on a new table, with the cost of each. */
  ghost predicate Run(shapes: seq<Shape>, costs: seq<nat>) {
    && |shapes| == |costs| + 1
    && Sized(shapes[0]) && shapes[0].nbuckets == shapes[0].cap && shapes[0].count == 0
    && forall i :: 0 <= i < |costs| ==> Step(shapes[i], shapes[i + 1], costs[i])
  }

  lemma NewRun(s: Shape)
    requires Sized(s) && s.nbuckets == s.cap && s.count == 0
    ensures Run([s], [])
  {
  }

  lemma LongerRun(shapes: seq<Shape>, costs: seq<nat>, s: Shape, cost: nat)
    requires Run(shapes, costs) && Step(shapes[|costs|], s, cost)
    ensures Run(shapes + [s], costs + [cost])
  {
  }

  predicate Step(a: Shape, b: Shape, cost: nat) {
    SetStep(a, b, cost) || DeleteStep(a, b, cost)
  }

  function Sum(costs: seq<nat>): nat {
    if costs == [] then 0 else Sum(costs[..|costs| - 1]) + costs[|costs| - 1]
  }

  /** Every step keeps the size invariant. */
  lemma StepKeepsSized(a: Shape, b: Shape, cost: nat)
    requires Sized(a) && Step(a, b, cost)
    ensures Sized(b)
  {
    if a.nbuckets > a.cap { Pow2Gap(a.nbuckets, a.cap); }
    if b.nbuckets == 2 * a.nbuckets { assert b.nbuckets / 2 == a.nbuckets; }
    Pow2Times16(a.nbuckets);
  }

  /** The credit a table must hold to pay for the rehashing still ahead of it, in fifteenths:
      for the shrinks that emptying it would cause, or for its next growth. */
  function Credit(s: Shape): int {
    var shrinks := if s.nbuckets > s.cap then 30 * s.nbuckets - 14 * s.cap - 80 * s.count else 0;
    var growth := 80 * s.count - 45 * s.nbuckets;
    if shrinks <= 0 && growth <= 0 then 0 else if shrinks >= growth then shrinks else growth
  }

  lemma StepPays(a: Shape, b: Shape, cost: nat)
    requires Sized(a) && Step(a, b, cost)
    ensures 15 * cost + Credit(b) <= Credit(a) + 80
  {
    if a.nbuckets > a.cap { Pow2Gap(a.nbuckets, a.cap); }
    if b.nbuckets > b.cap && b.nbuckets < a.nbuckets {
      StepKeepsSized(a, b, cost);
      Pow2Gap(b.nbuckets, b.cap);
    }
    Pow2Times16(a.nbuckets);
  }

  /** The first `n` calls of a run are paid for. */
  lemma {:induction false} RunPays(shapes: seq<Shape>, costs: seq<nat>, n: nat)
    requires Run(shapes, costs) && n <= |costs|
    ensures Sized(shapes[n])
    ensures 15 * Sum(costs[..n]) + Credit(shapes[n]) <= 80 * n
  {
    if n > 0 {
      RunPays(shapes, costs, n - 1);
      assert Step(shapes[n - 1], shapes[n - 1 + 1], costs[n - 1]);
      StepKeepsSized(shapes[n - 1], shapes[n], costs[n - 1]);
      StepPays(shapes[n - 1], shapes[n], costs[n - 1]);
      assert costs[..n][..n - 1] == costs[..n - 1];
    }
  }

  /** Rehashing is amortised constant: over any run from a new table, however allocations fail,
      three times the old buckets scanned by resizes is at most sixteen times the number of calls. */
  lemma AmortisedRehashing(shapes: seq<Shape>, costs: seq<nat>)
    requires Run(shapes, costs)
    ensures 3 * Sum(costs) <= 16 * |costs|
  {
    RunPays(shapes, costs, |costs|);
    assert costs[..|costs|] == costs;
  }
}
