/** Least-loaded list scheduling of entry groups, as the declaration build does it. */
module GreedyPartition {
  import opened Sequences

  /** The first of the partitions with the fewest entries. */
  ghost predicate IsLeastLoaded<T>(partitions: seq<seq<T>>, t: nat) {
    && t < |partitions|
    && (forall i :: 0 <= i < t ==> |partitions[t]| < |partitions[i]|)
    && (forall i :: t <= i < |partitions| ==> |partitions[t]| <= |partitions[i]|)
  }

  function LeastLoadedAmong<T>(partitions: seq<seq<T>>, k: nat): (t: nat)
    requires 0 < k <= |partitions|
    ensures t < k && IsLeastLoaded(partitions[..k], t)
  {
    if k == 1 then 0
    else
      var t := LeastLoadedAmong(partitions, k - 1);
      if |partitions[k - 1]| < |partitions[t]| then k - 1 else t
  }

  /** The partitions after the first k groups have been placed. */
  function Schedule<T>(groups: seq<seq<T>>, k: nat, m: nat): (partitions: seq<seq<T>>)
    requires k <= |groups| && m > 0
    ensures |partitions| == m
  {
    if k == 0 then seq(m, _ => [])
    else
      var before := Schedule(groups, k - 1, m);
      var t := LeastLoadedAmong(before, m);
      before[t := before[t] + groups[k - 1]]
  }

  /** The partition each of the first k groups is placed in. */
  function Slots<T>(groups: seq<seq<T>>, k: nat, m: nat): (slots: seq<nat>)
    requires k <= |groups| && m > 0
    ensures |slots| == k && forall g :: 0 <= g < k ==> slots[g] < m
  {
    if k == 0 then []
    else Slots(groups, k - 1, m) + [LeastLoadedAmong(Schedule(groups, k - 1, m), m)]
  }

  method PartitionUnifiedEntryGroups<T>(entryGroups: seq<seq<T>>, partitionCount: nat)
      returns (r: Result<seq<seq<T>>, string>)
    ensures r.Failure? <==> partitionCount == 0 && entryGroups != []
    ensures r.Success? && partitionCount > 0 ==> r.value == Schedule(entryGroups, |entryGroups|, partitionCount)
    ensures r.Success? && partitionCount == 0 ==> r.value == []
  {
    var partitions: seq<seq<T>> := seq(partitionCount, _ => []);
    for k := 0 to |entryGroups|
      invariant partitionCount == 0 ==> k == 0 && partitions == []
      invariant partitionCount > 0 ==> partitions == Schedule(entryGroups, k, partitionCount)
    {
      var targetIndex := 0;
      if partitionCount == 0 {
        return Failure("unified declaration partition count must be positive");
      }
      for index := 1 to |partitions|
        invariant targetIndex == LeastLoadedAmong(partitions, index)
      {
        if |partitions[index]| < |partitions[targetIndex]| {
          targetIndex := index;
        }
      }
      partitions := partitions[targetIndex := partitions[targetIndex] + entryGroups[k]];
    }
    return Success(partitions);
  }

  // ---- what ends up where ----

  /** The groups among the first k that an assignment puts in partition p, in order. */
  function Gather<T>(groups: seq<seq<T>>, slots: seq<nat>, k: nat, p: nat): seq<T>
    requires k <= |groups| && k <= |slots|
  {
    if k == 0 then []
    else Gather(groups, slots, k - 1, p) + if slots[k - 1] == p then groups[k - 1] else []
  }

  lemma {:induction false} GatherPrefix<T>(groups: seq<seq<T>>, slots: seq<nat>, more: seq<nat>, k: nat, p: nat)
    requires k <= |groups| && k <= |slots|
    ensures Gather(groups, slots + more, k, p) == Gather(groups, slots, k, p)
  {
    if k > 0 {
      GatherPrefix(groups, slots, more, k - 1, p);
    }
  }

  /** No group is split: each partition is the concatenation, in order, of the whole groups placed in it. */
  lemma {:induction false} GroupsStayWhole<T>(groups: seq<seq<T>>, k: nat, m: nat, p: nat)
    requires k <= |groups| && p < m
    ensures Schedule(groups, k, m)[p] == Gather(groups, Slots(groups, k, m), k, p)
  {
    if k > 0 {
      GroupsStayWhole(groups, k - 1, m, p);
      GatherPrefix(groups, Slots(groups, k - 1, m), [LeastLoadedAmong(Schedule(groups, k - 1, m), m)], k - 1, p);
    }
  }

  lemma {:induction false} EmptyPartitions<T>(m: nat)
    ensures Flatten(seq<seq<T>>(m, _ => [])) == []
  {
    if m > 0 {
      assert seq<seq<T>>(m, _ => [])[1..] == seq<seq<T>>(m - 1, _ => []);
      EmptyPartitions<T>(m - 1);
    }
  }

  /** Exact cover: nothing is lost and nothing is duplicated. */
  lemma {:induction false} EntriesAreConserved<T>(groups: seq<seq<T>>, k: nat, m: nat)
    requires k <= |groups| && m > 0
    ensures multiset(Flatten(Schedule(groups, k, m))) == multiset(Flatten(groups[..k]))
  {
    if k == 0 {
      EmptyPartitions<T>(m);
    } else {
      hide LeastLoadedAmong;
      EntriesAreConserved(groups, k - 1, m);
      var before := Schedule(groups, k - 1, m);
      FlattenUpdate(before, LeastLoadedAmong(before, m), groups[k - 1]);
      FlattenExtend(groups, k);
    }
  }

  lemma FlattenExtend<T>(groups: seq<seq<T>>, k: nat)
    requires 0 < k <= |groups|
    ensures Flatten(groups[..k]) == Flatten(groups[..k - 1]) + groups[k - 1]
  {
    assert groups[..k] == groups[..k - 1] + [groups[k - 1]];
    FlattenAppend(groups[..k - 1], [groups[k - 1]]);
    assert Flatten([groups[k - 1]]) == groups[k - 1];
  }

  // ---- Graham's bound ----

  /** The summed sizes of the first k blocks. */
  function Total<T>(blocks: seq<seq<T>>, k: nat): nat
    requires k <= |blocks|
  {
    if k == 0 then 0 else Total(blocks, k - 1) + |blocks[k - 1]|
  }

  function Largest<T>(groups: seq<seq<T>>, k: nat): (size: nat)
    requires k <= |groups|
    ensures forall g :: 0 <= g < k ==> |groups[g]| <= size
    ensures k > 0 ==> exists g :: 0 <= g < k && size == |groups[g]|
  {
    if k == 0 then 0
    else
      var size := Largest(groups, k - 1);
      if |groups[k - 1]| > size || k == 1 then |groups[k - 1]| else size
  }

  lemma {:induction false} TotalUpdate<T>(blocks: seq<seq<T>>, k: nat, t: nat, more: seq<T>)
    requires t < |blocks| && k <= |blocks|
    ensures Total(blocks[t := blocks[t] + more], k) == Total(blocks, k) + if t < k then |more| else 0
  {
    if k > 0 {
      TotalUpdate(blocks, k - 1, t, more);
    }
  }

  lemma {:induction false} TotalOfEmpty<T>(m: nat, k: nat)
    requires k <= m
    ensures Total(seq<seq<T>>(m, _ => []), k) == 0
  {
    if k > 0 {
      TotalOfEmpty<T>(m, k - 1);
    }
  }

  lemma {:induction false} ScheduleTotal<T>(groups: seq<seq<T>>, k: nat, m: nat)
    requires k <= |groups| && m > 0
    ensures Total(Schedule(groups, k, m), m) == Total(groups, k)
  {
    if k == 0 {
      TotalOfEmpty<T>(m, m);
    } else {
      ScheduleTotal(groups, k - 1, m);
      var before := Schedule(groups, k - 1, m);
      TotalUpdate(before, m, LeastLoadedAmong(before, m), groups[k - 1]);
    }
  }

  lemma {:induction false} TotalAtLeast<T>(blocks: seq<seq<T>>, k: nat, least: nat)
    requires k <= |blocks|
    requires forall i :: 0 <= i < k ==> least <= |blocks[i]|
    ensures k * least <= Total(blocks, k)
  {
    if k > 0 {
      TotalAtLeast(blocks, k - 1, least);
      assert k * least == (k - 1) * least + least;
    }
  }

  /** The load is at most the mean plus the share (m - 1) / m of a group of size big. */
  ghost predicate WithinGraham(m: nat, load: nat, total: nat, big: nat) {
    m * load <= total + (m - 1) * big
  }

  /** Graham's bound: m times any partition is at most the total plus m - 1 times the largest group. */
  lemma {:induction false} GrahamBound<T>(groups: seq<seq<T>>, k: nat, m: nat, p: nat)
    requires k <= |groups| && p < m
    ensures WithinGraham(m, |Schedule(groups, k, m)[p]|, Total(groups, k), Largest(groups, k))
  {
    hide WithinGraham, Schedule, LeastLoadedAmong;
    GrahamStep(groups, k, m, p);
    if k == 0 {
      NoLoad(m);
    } else {
      GrahamBound(groups, k - 1, m, p);
      var before := Schedule(groups, k - 1, m);
      var t := LeastLoadedAmong(before, m);
      var g := |groups[k - 1]|;
      if p == t {
        LeastIsAtMostMean(groups, k - 1, m);
        PlacedStep(m, |before[t]|, g, Total(groups, k - 1), Largest(groups, k));
      } else {
        UntouchedStep(m, |before[p]|, g, Total(groups, k - 1), Largest(groups, k - 1), Largest(groups, k));
      }
    }
  }

  /** What the k-th group does to the sizes. */
  lemma GrahamStep<T>(groups: seq<seq<T>>, k: nat, m: nat, p: nat)
    requires k <= |groups| && p < m
    ensures k == 0 ==> Schedule(groups, k, m)[p] == []
    ensures k > 0 ==> var before := Schedule(groups, k - 1, m); var g := |groups[k - 1]|;
                      && |Schedule(groups, k, m)[p]| == |before[p]| + (if p == LeastLoadedAmong(before, m) then g else 0)
                      && Total(groups, k) == Total(groups, k - 1) + g
                      && g <= Largest(groups, k) && Largest(groups, k - 1) <= Largest(groups, k)
  {
  }

  lemma NoLoad(m: nat)
    requires m > 0
    ensures WithinGraham(m, 0, 0, 0)
  {
  }

  lemma LeastIsAtMostMean<T>(groups: seq<seq<T>>, k: nat, m: nat)
    requires k <= |groups| && m > 0
    ensures var s := Schedule(groups, k, m);
            WithinGraham(m, |s[LeastLoadedAmong(s, m)]|, Total(groups, k), 0)
  {
    var s := Schedule(groups, k, m);
    assert s[..m] == s;
    TotalAtLeast(s, m, |s[LeastLoadedAmong(s, m)]|);
    ScheduleTotal(groups, k, m);
  }

  lemma PlacedStep(m: nat, load: nat, g: nat, total: nat, big: nat)
    requires 0 < m && WithinGraham(m, load, total, 0) && g <= big
    ensures WithinGraham(m, load + g, total + g, big)
  {
    assert m * (load + g) == m * load + (m - 1) * g + g;
    MonotoneProduct(m - 1, g, big);
  }

  lemma UntouchedStep(m: nat, load: nat, g: nat, total: nat, big: nat, bigger: nat)
    requires 0 < m && WithinGraham(m, load, total, big) && big <= bigger
    ensures WithinGraham(m, load, total + g, bigger)
  {
    MonotoneProduct(m - 1, big, bigger);
  }

  lemma MonotoneProduct(m: nat, x: nat, y: nat)
    requires x <= y
    ensures m * x <= m * y
  {
  }

  /** The entries an assignment puts in partition p. */
  function Load<T>(groups: seq<seq<T>>, slots: seq<nat>, k: nat, p: nat): (load: nat)
    requires k <= |groups| && k <= |slots|
  {
    |Gather(groups, slots, k, p)|
  }

  function SumLoads<T>(groups: seq<seq<T>>, slots: seq<nat>, k: nat, m: nat): nat
    requires k <= |groups| && k <= |slots|
  {
    if m == 0 then 0 else SumLoads(groups, slots, k, m - 1) + Load(groups, slots, k, m - 1)
  }

  lemma {:induction false} SumLoadsStep<T>(groups: seq<seq<T>>, slots: seq<nat>, k: nat, m: nat)
    requires 0 < k <= |groups| && k <= |slots|
    ensures SumLoads(groups, slots, k, m)
            == SumLoads(groups, slots, k - 1, m) + if slots[k - 1] < m then |groups[k - 1]| else 0
  {
    if m > 0 {
      SumLoadsStep(groups, slots, k, m - 1);
    }
  }

  lemma {:induction false} LoadsOfNothing<T>(groups: seq<seq<T>>, slots: seq<nat>, m: nat)
    ensures SumLoads(groups, slots, 0, m) == 0
  {
    if m > 0 {
      LoadsOfNothing(groups, slots, m - 1);
    }
  }

  lemma {:induction false} LoadsAddUp<T>(groups: seq<seq<T>>, slots: seq<nat>, k: nat, m: nat)
    requires k <= |groups| && k <= |slots|
    requires forall g :: 0 <= g < k ==> slots[g] < m
    ensures SumLoads(groups, slots, k, m) == Total(groups, k)
  {
    if k == 0 {
      LoadsOfNothing(groups, slots, m);
    } else {
      LoadsAddUp(groups, slots, k - 1, m);
      SumLoadsStep(groups, slots, k, m);
    }
  }

  lemma {:induction false} LoadsAtMost<T>(groups: seq<seq<T>>, slots: seq<nat>, k: nat, m: nat, bound: nat)
    requires k <= |groups| && k <= |slots|
    requires forall p :: 0 <= p < m ==> Load(groups, slots, k, p) <= bound
    ensures SumLoads(groups, slots, k, m) <= m * bound
  {
    if m > 0 {
      LoadsAtMost(groups, slots, k, m - 1, bound);
      assert m * bound == (m - 1) * bound + bound;
    }
  }

  lemma {:induction false} LoadHoldsItsGroups<T>(groups: seq<seq<T>>, slots: seq<nat>, k: nat, g: nat)
    requires g < k <= |groups| && k <= |slots|
    ensures |groups[g]| <= Load(groups, slots, k, slots[g])
  {
    if g < k - 1 {
      LoadHoldsItsGroups(groups, slots, k - 1, g);
    }
  }

  /** The approximation ratio: against any assignment of whole groups to the same m
      partitions whose partitions hold at most `bound` entries, no partition of the
      greedy schedule exceeds (2 - 1/m) times `bound`. */
  lemma {:induction false} ApproximationRatio<T>(groups: seq<seq<T>>, m: nat, p: nat, slots: seq<nat>, bound: nat)
    requires p < m && |slots| == |groups|
    requires forall g :: 0 <= g < |groups| ==> slots[g] < m
    requires forall q :: 0 <= q < m ==> Load(groups, slots, |groups|, q) <= bound
    ensures m * |Schedule(groups, |groups|, m)[p]| <= (2 * m - 1) * bound
  {
    var n := |groups|;
    GrahamBound(groups, n, m, p);
    LoadsAddUp(groups, slots, n, m);
    LoadsAtMost(groups, slots, n, m, bound);
    if n > 0 {
      var g :| 0 <= g < n && Largest(groups, n) == |groups[g]|;
      LoadHoldsItsGroups(groups, slots, n, g);
    }
    RatioStep(m, |Schedule(groups, n, m)[p]|, Total(groups, n), Largest(groups, n), bound);
  }

  lemma RatioStep(m: nat, load: nat, total: nat, big: nat, bound: nat)
    requires 0 < m && WithinGraham(m, load, total, big) && total <= m * bound && big <= bound
    ensures m * load <= (2 * m - 1) * bound
  {
    MonotoneProduct(m - 1, big, bound);
    assert (2 * m - 1) * bound == m * bound + (m - 1) * bound;
  }

  /** No two partitions differ by more than one largest group. */
  lemma {:induction false} PartitionsAreBalanced<T>(groups: seq<seq<T>>, k: nat, m: nat, p: nat, q: nat)
    requires k <= |groups| && p < m && q < m
    ensures |Schedule(groups, k, m)[p]| <= |Schedule(groups, k, m)[q]| + Largest(groups, k)
  {
    if k > 0 {
      PartitionsAreBalanced(groups, k - 1, m, p, q);
      var before := Schedule(groups, k - 1, m);
      assert before[..m] == before;
      assert IsLeastLoaded(before, LeastLoadedAmong(before, m));
    }
  }
}
