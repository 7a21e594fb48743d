/** The nearest-rank percentile of the benchmark summaries, in exact arithmetic. */
module Percentile {

  function Ceiling(x: real): int {
    -((-x).Floor)
  }

  function Clamped(low: int, x: int, high: int): int {
    var capped := if x < high then x else high;
    if capped > low then capped else low
  }

  /** How many of n values the percentile stands for. */
  function Share(percentile: real, n: nat): real {
    percentile / 100.0 * (n as real)
  }

  function NearestRank(sorted: seq<real>, percentile: real): real {
    var index := Clamped(0, Ceiling(Share(percentile, |sorted|)) - 1, |sorted| - 1);
    if index < |sorted| then sorted[index] else 0.0
  }

  function CountAtMost(values: seq<real>, bound: real): (count: nat)
    ensures count <= |values|
  {
    if values == [] then 0
    else CountAtMost(values[..|values| - 1], bound) + if values[|values| - 1] <= bound then 1 else 0
  }

  function CountBelow(values: seq<real>, bound: real): (count: nat)
    ensures count <= |values|
  {
    if values == [] then 0
    else CountBelow(values[..|values| - 1], bound) + if values[|values| - 1] < bound then 1 else 0
  }

  predicate IsSorted(values: seq<real>) {
    forall i, j :: 0 <= i < j < |values| ==> values[i] <= values[j]
  }

  lemma {:induction false} RankCounts(sorted: seq<real>, k: nat)
    requires IsSorted(sorted) && k < |sorted|
    ensures CountBelow(sorted, sorted[k]) <= k < CountAtMost(sorted, sorted[k])
  {
    var init := sorted[..|sorted| - 1];
    if k < |sorted| - 1 {
      RankCounts(init, k);
    } else {
      AllAtMost(sorted, sorted[k]);
    }
  }

  lemma {:induction false} AllAtMost(values: seq<real>, bound: real)
    requires forall i :: 0 <= i < |values| ==> values[i] <= bound
    ensures CountAtMost(values, bound) == |values|
  {
    if values != [] {
      AllAtMost(values[..|values| - 1], bound);
    }
  }

  lemma CeilingBounds(x: real)
    ensures x <= Ceiling(x) as real < x + 1.0
  {
  }

  /** The percentile is one of the values: at least that share of them is at or below it, and less
      than that share is below it. Percentages from 0 down give the least value, those above 100 the
      greatest; without values the result is 0. */
  lemma RankIsExact(sorted: seq<real>, percentile: real)
    requires IsSorted(sorted)
    ensures var r := NearestRank(sorted, percentile);
            if sorted == [] then r == 0.0
            else if percentile <= 0.0 then r == sorted[0]
            else if percentile > 100.0 then r == sorted[|sorted| - 1]
            else r in sorted && CountBelow(sorted, r) as real < Share(percentile, |sorted|) <= CountAtMost(sorted, r) as real
  {
    hide Share, Ceiling, CountBelow, CountAtMost;
    if sorted != [] {
      var share := Share(percentile, |sorted|);
      ShareBounds(percentile, |sorted|);
      CeilingBounds(share);
      if 0.0 < percentile <= 100.0 {
        RankCounts(sorted, Ceiling(share) - 1);
      }
    }
  }

  lemma ShareBounds(percentile: real, n: nat)
    requires n > 0
    ensures percentile <= 0.0 ==> Share(percentile, n) <= 0.0
    ensures 0.0 < percentile <= 100.0 ==> 0.0 < Share(percentile, n) <= n as real
    ensures percentile > 100.0 ==> Share(percentile, n) > n as real
  {
    ProductBounds(percentile / 100.0, n as real);
  }

  lemma ProductBounds(p: real, x: real)
    requires x > 0.0
    ensures p <= 0.0 ==> p * x <= 0.0
    ensures 0.0 < p <= 1.0 ==> 0.0 < p * x <= x
    ensures p > 1.0 ==> p * x > x
  {
    if p > 1.0 {
      ScaledOrder(1.0, p, x);
    } else if p > 0.0 {
      ScaledOrder(0.0, p, x);
    }
  }

  lemma ScaledOrder(a: real, b: real, x: real)
    requires a < b && x > 0.0
    ensures a * x < b * x
  {
  }
}
