/** The benchmark's worker pools: workers that claim items from one shared cursor, and the latch
    that opens when every turn has started. Steps of different workers interleave freely. */
module WorkerPool {

  // ---- the pool ----

  /** A worker is about to read the cursor, has an item in flight, has returned, or has thrown. */
  datatype Worker = Ready | Working(item: nat) | Returned | Failed(item: nat)

  /** The shared cursor, the workers, and the items processed so far in order of completion. */
  datatype Pool = Pool(next: nat, workers: seq<Worker>, processed: seq<nat>)

  function Start(size: nat): Pool {
    Pool(0, seq(size, _ => Ready), [])
  }

  /** Reads and advances the cursor; past the last item the worker returns. */
  ghost predicate Claim(s: Pool, s': Pool, w: nat, items: nat) {
    && w < |s.workers| && s.workers[w] == Ready
    && s' == s.(next := s.next + 1, workers := s.workers[w := if s.next < items then Working(s.next) else Returned])
  }

  ghost predicate Finish(s: Pool, s': Pool, w: nat) {
    && w < |s.workers| && s.workers[w].Working?
    && s' == s.(workers := s.workers[w := Ready], processed := s.processed + [s.workers[w].item])
  }

  ghost predicate Fail(s: Pool, s': Pool, w: nat) {
    && w < |s.workers| && s.workers[w].Working?
    && s' == s.(workers := s.workers[w := Failed(s.workers[w].item)])
  }

  ghost predicate WorkerStep(s: Pool, s': Pool, w: nat, items: nat) {
    Claim(s, s', w, items) || Finish(s, s', w) || Fail(s, s', w)
  }

  ghost predicate Next(s: Pool, s': Pool, items: nat) {
    exists w :: WorkerStep(s, s', w, items)
  }

  ghost predicate IsRun(run: seq<Pool>, size: nat, items: nat) {
    && run != [] && run[0] == Start(size)
    && forall i :: 0 <= i < |run| - 1 ==> Next(run[i], run[i + 1], items)
  }

  // ---- conservation ----

  predicate Holds(w: Worker, item: nat) {
    (w.Working? || w.Failed?) && w.item == item
  }

  /** The workers that have claimed an item and not processed it. */
  function HoldersOf(workers: seq<Worker>, item: nat): nat {
    if workers == [] then 0 else (if Holds(workers[0], item) then 1 else 0) + HoldersOf(workers[1..], item)
  }

  function ReturnedCount(workers: seq<Worker>): nat {
    if workers == [] then 0 else (if workers[0] == Returned then 1 else 0) + ReturnedCount(workers[1..])
  }

  function Min(a: nat, b: nat): nat {
    if a < b then a else b
  }

  /** How often an item has been processed or is held. */
  function Places(s: Pool, item: nat): nat {
    multiset(s.processed)[item] + HoldersOf(s.workers, item)
  }

  /** Every item the cursor has passed is in exactly one place: processed, in flight, or failed. */
  ghost predicate Inv(s: Pool, items: nat) {
    && (forall item: nat :: Places(s, item) == if item < Min(s.next, items) then 1 else 0)
    && s.next == Min(s.next, items) + ReturnedCount(s.workers)
  }

  lemma {:induction false} HolderUpdate(workers: seq<Worker>, w: nat, to: Worker, item: nat)
    requires w < |workers|
    ensures HoldersOf(workers[w := to], item) + (if Holds(workers[w], item) then 1 else 0)
            == HoldersOf(workers, item) + if Holds(to, item) then 1 else 0
  {
    if w == 0 {
      assert workers[0 := to][1..] == workers[1..];
    } else {
      assert workers[w := to][1..] == workers[1..][w - 1 := to];
      HolderUpdate(workers[1..], w - 1, to, item);
    }
  }

  lemma {:induction false} ReturnedUpdate(workers: seq<Worker>, w: nat, to: Worker)
    requires w < |workers|
    ensures ReturnedCount(workers[w := to]) + (if workers[w] == Returned then 1 else 0)
            == ReturnedCount(workers) + if to == Returned then 1 else 0
  {
    if w == 0 {
      assert workers[0 := to][1..] == workers[1..];
    } else {
      assert workers[w := to][1..] == workers[1..][w - 1 := to];
      ReturnedUpdate(workers[1..], w - 1, to);
    }
  }

  lemma {:induction false} NobodyHolds(size: nat, item: nat)
    ensures HoldersOf(seq(size, _ => Ready), item) == 0
    ensures ReturnedCount(seq(size, _ => Ready)) == 0
  {
    if size > 0 {
      assert seq<Worker>(size, _ => Ready)[1..] == seq<Worker>(size - 1, _ => Ready);
      NobodyHolds(size - 1, item);
    }
  }

  lemma StepMovesItem(s: Pool, s': Pool, w: nat, items: nat, item: nat)
    requires WorkerStep(s, s', w, items)
    requires Places(s, item) == if item < Min(s.next, items) then 1 else 0
    ensures Places(s', item) == if item < Min(s'.next, items) then 1 else 0
  {
    hide HoldersOf;
    HolderUpdate(s.workers, w, s'.workers[w], item);
  }

  lemma NextKeepsInv(s: Pool, s': Pool, items: nat)
    requires Inv(s, items) && Next(s, s', items)
    ensures Inv(s', items) && |s'.workers| == |s.workers|
  {
    hide HoldersOf, ReturnedCount, Places;
    var w: nat :| WorkerStep(s, s', w, items);
    forall item: nat ensures Places(s', item) == if item < Min(s'.next, items) then 1 else 0 {
      StepMovesItem(s, s', w, items, item);
    }
    ReturnedUpdate(s.workers, w, s'.workers[w]);
  }

  lemma {:induction false} RunKeepsInv(run: seq<Pool>, size: nat, items: nat, i: nat)
    requires IsRun(run, size, items) && i < |run|
    ensures Inv(run[i], items) && |run[i].workers| == size
  {
    if i == 0 {
      forall item: nat ensures Places(run[0], item) == 0 {
        NobodyHolds(size, item);
      }
      NobodyHolds(size, 0);
    } else {
      RunKeepsInv(run, size, items, i - 1);
      assert Next(run[i - 1], run[i - 1 + 1], items);
      NextKeepsInv(run[i - 1], run[i], items);
    }
  }

  lemma {:induction false} HolderCounts(workers: seq<Worker>, w: nat, item: nat)
    requires w < |workers| && Holds(workers[w], item)
    ensures HoldersOf(workers, item) >= 1
  {
    if w > 0 {
      HolderCounts(workers[1..], w - 1, item);
    }
  }

  lemma {:induction false} TwoHoldersCount(workers: seq<Worker>, v: nat, w: nat, item: nat)
    requires v < w < |workers| && Holds(workers[v], item) && Holds(workers[w], item)
    ensures HoldersOf(workers, item) >= 2
  {
    if v == 0 {
      HolderCounts(workers[1..], w - 1, item);
    } else {
      TwoHoldersCount(workers[1..], v - 1, w - 1, item);
    }
  }

  ghost predicate HaveReturned(workers: seq<Worker>) {
    forall w :: 0 <= w < |workers| ==> workers[w] == Returned
  }

  lemma {:induction false} ReturnedBounds(workers: seq<Worker>, item: nat)
    ensures ReturnedCount(workers) <= |workers|
    ensures HaveReturned(workers) ==> ReturnedCount(workers) == |workers| && HoldersOf(workers, item) == 0
  {
    if workers != [] {
      ReturnedBounds(workers[1..], item);
      if HaveReturned(workers) {
        assert workers[0] == Returned;
        assert HaveReturned(workers[1..]);
      }
    }
  }

  lemma {:induction false} SomeoneReturned(workers: seq<Worker>, w: nat)
    requires w < |workers| && workers[w] == Returned
    ensures ReturnedCount(workers) >= 1
  {
    if w > 0 {
      SomeoneReturned(workers[1..], w - 1);
    }
  }

  // ---- the guarantees ----

  /** At every moment, whatever has failed: no item is processed twice or out of range, and an item
      that a worker holds is held by it alone and has not been processed. */
  lemma NoItemIsSharedEver(run: seq<Pool>, size: nat, items: nat, i: nat, w: nat, item: nat)
    requires IsRun(run, size, items) && i < |run| && w < |run[i].workers|
    ensures multiset(run[i].processed)[item] <= if item < items then 1 else 0
    ensures Holds(run[i].workers[w], item) ==>
              item < items && item !in run[i].processed
              && forall v :: 0 <= v < |run[i].workers| && v != w ==> !Holds(run[i].workers[v], item)
  {
    RunKeepsInv(run, size, items, i);
    var s := run[i];
    assert Places(s, item) == if item < Min(s.next, items) then 1 else 0;
    if Holds(s.workers[w], item) {
      HolderCounts(s.workers, w, item);
      assert item !in multiset(s.processed);
      forall v | 0 <= v < |s.workers| && v != w ensures !Holds(s.workers[v], item) {
        if Holds(s.workers[v], item) {
          TwoHoldersCount(s.workers, if v < w then v else w, if v < w then w else v, item);
        }
      }
    }
  }

  /** No worker returns while an item is unclaimed, and the cursor never passes items + size. */
  lemma ReturnMeansAllClaimed(run: seq<Pool>, size: nat, items: nat, i: nat, w: nat, item: nat)
    requires IsRun(run, size, items) && i < |run| && w < |run[i].workers| && run[i].workers[w] == Returned
    ensures items < run[i].next <= items + size
    ensures item < items ==> Places(run[i], item) == 1
  {
    RunKeepsInv(run, size, items, i);
    SomeoneReturned(run[i].workers, w);
    ReturnedBounds(run[i].workers, item);
  }

  /** If every worker of a non-empty pool returns, each item was processed exactly once and the cursor
      stands at items + size. */
  lemma EveryItemExactlyOnce(run: seq<Pool>, size: nat, items: nat, i: nat, item: nat)
    requires IsRun(run, size, items) && i < |run| && size > 0 && HaveReturned(run[i].workers)
    ensures multiset(run[i].processed)[item] == if item < items then 1 else 0
    ensures run[i].next == items + size
  {
    RunKeepsInv(run, size, items, i);
    ReturnedBounds(run[i].workers, item);
    assert Places(run[i], item) == if item < Min(run[i].next, items) then 1 else 0;
  }

  /** Claims and completions come to an end: each step brings the pool closer to a fixed bound. */
  lemma StepsAreBounded(run: seq<Pool>, size: nat, items: nat, i: nat)
    requires IsRun(run, size, items) && i + 1 < |run|
    ensures 0 <= Remaining(run[i + 1], size, items) < Remaining(run[i], size, items)
  {
    hide Busy, Places, HoldersOf, ReturnedCount;
    RunKeepsInv(run, size, items, i);
    RunKeepsInv(run, size, items, i + 1);
    ReturnedBounds(run[i].workers, 0);
    ReturnedBounds(run[i + 1].workers, 0);
    assert Next(run[i], run[i + 1], items);
    var w: nat :| WorkerStep(run[i], run[i + 1], w, items);
    BusyUpdate(run[i].workers, w, run[i + 1].workers[w]);
  }

  ghost predicate HaveFailed(workers: seq<Worker>) {
    exists w :: 0 <= w < |workers| && workers[w].Failed?
  }

  ghost predicate CanStep(s: Pool, items: nat) {
    exists s' :: Next(s, s', items)
  }

  /** A pool whose workers have neither failed nor all returned can go on. */
  lemma UnfinishedCanStep(s: Pool, items: nat)
    requires !HaveReturned(s.workers) && !HaveFailed(s.workers)
    ensures CanStep(s, items)
  {
    var w: nat :| w < |s.workers| && s.workers[w] != Returned;
    if s.workers[w] == Ready {
      var s' := s.(next := s.next + 1, workers := s.workers[w := if s.next < items then Working(s.next) else Returned]);
      assert WorkerStep(s, s', w, items) && Next(s, s', items);
    } else {
      var s' := s.(workers := s.workers[w := Ready], processed := s.processed + [s.workers[w].item]);
      assert WorkerStep(s, s', w, items) && Next(s, s', items);
    }
  }

  /** A run of a non-empty pool that cannot go on, and in which no worker has failed, has processed each
      item exactly once. */
  lemma MaximalRunProcessesAll(run: seq<Pool>, size: nat, items: nat, item: nat)
    requires IsRun(run, size, items) && size > 0
    requires !HaveFailed(run[|run| - 1].workers) && !CanStep(run[|run| - 1], items)
    ensures HaveReturned(run[|run| - 1].workers)
    ensures multiset(run[|run| - 1].processed)[item] == if item < items then 1 else 0
  {
    if !HaveReturned(run[|run| - 1].workers) {
      UnfinishedCanStep(run[|run| - 1], items);
    } else {
      EveryItemExactlyOnce(run, size, items, |run| - 1, item);
    }
  }

  function Busy(workers: seq<Worker>): nat {
    if workers == [] then 0 else (if workers[0].Working? then 1 else 0) + Busy(workers[1..])
  }

  function Remaining(s: Pool, size: nat, items: nat): int {
    2 * (items + size - s.next) + Busy(s.workers)
  }

  lemma {:induction false} BusyUpdate(workers: seq<Worker>, w: nat, to: Worker)
    requires w < |workers|
    ensures Busy(workers[w := to]) + (if workers[w].Working? then 1 else 0) == Busy(workers) + if to.Working? then 1 else 0
  {
    if w == 0 {
      assert workers[0 := to][1..] == workers[1..];
    } else {
      assert workers[w := to][1..] == workers[1..][w - 1 := to];
      BusyUpdate(workers[1..], w - 1, to);
    }
  }

  // ---- the turn-start latch ----

  /** A turn reports its start at most once, and ends in success or failure. */
  datatype Turn = Turn(started: bool, ended: bool, failed: bool)

  datatype Latch = Latch(turns: seq<Turn>, startedTurnCount: nat, turnsDone: bool, open: bool)

  function Closed(concurrency: nat): Latch {
    Latch(seq(concurrency, _ => Turn(false, false, false)), 0, false, false)
  }

  /** A turn's first call returned: onStarted counts it and opens the latch on the last one. */
  ghost predicate TurnStarts(s: Latch, s': Latch, t: nat) {
    && t < |s.turns| && s.turns[t] == Turn(false, false, false)
    && s' == s.(turns := s.turns[t := Turn(true, false, false)], startedTurnCount := s.startedTurnCount + 1,
                open := s.open || s.startedTurnCount + 1 == |s.turns|)
  }

  ghost predicate TurnEnds(s: Latch, s': Latch, t: nat) {
    && t < |s.turns| && !s.turns[t].ended
    && (   s' == s.(turns := s.turns[t := s.turns[t].(ended := true, failed := true)])
        || (s.turns[t].started && s' == s.(turns := s.turns[t := s.turns[t].(ended := true)])))
  }

  /** Promise.all settles once all turns have succeeded or one has failed; its finally opens the latch. */
  ghost predicate TurnsSettle(s: Latch, s': Latch) {
    && !s.turnsDone
    && MaySettle(s.turns)
    && s' == s.(turnsDone := true, open := true)
  }

  ghost predicate MaySettle(turns: seq<Turn>) {
    (forall t :: 0 <= t < |turns| ==> turns[t].ended) || exists t :: 0 <= t < |turns| && turns[t].failed
  }

  ghost predicate LatchNext(s: Latch, s': Latch) {
    TurnsSettle(s, s') || exists t :: TurnStarts(s, s', t) || TurnEnds(s, s', t)
  }

  ghost predicate IsLatchRun(run: seq<Latch>, concurrency: nat) {
    && run != [] && run[0] == Closed(concurrency)
    && forall i :: 0 <= i < |run| - 1 ==> LatchNext(run[i], run[i + 1])
  }

  function StartedCount(turns: seq<Turn>): nat {
    if turns == [] then 0 else (if turns[0].started then 1 else 0) + StartedCount(turns[1..])
  }

  lemma {:induction false} TurnUpdate(turns: seq<Turn>, t: nat, to: Turn)
    requires t < |turns|
    ensures StartedCount(turns[t := to]) + (if turns[t].started then 1 else 0) == StartedCount(turns) + if to.started then 1 else 0
  {
    if t == 0 {
      assert turns[0 := to][1..] == turns[1..];
    } else {
      assert turns[t := to][1..] == turns[1..][t - 1 := to];
      TurnUpdate(turns[1..], t - 1, to);
    }
  }

  lemma {:induction false} AllStarted(turns: seq<Turn>)
    ensures StartedCount(turns) <= |turns|
    ensures StartedCount(turns) == |turns| <==> forall t :: 0 <= t < |turns| ==> turns[t].started
  {
    if turns != [] {
      AllStarted(turns[1..]);
      if StartedCount(turns) == |turns| {
        forall t | 0 <= t < |turns| ensures turns[t].started {
          if t > 0 {
            assert turns[t] == turns[1..][t - 1];
          }
        }
      }
      if forall t :: 0 <= t < |turns| ==> turns[t].started {
        assert turns[0].started;
        forall t | 0 <= t < |turns[1..]| ensures turns[1..][t].started {
          assert turns[1..][t] == turns[t + 1];
        }
      }
    }
  }

  lemma {:induction false} NoneStarted(concurrency: nat)
    ensures StartedCount(seq(concurrency, _ => Turn(false, false, false))) == 0
  {
    if concurrency > 0 {
      assert seq<Turn>(concurrency, _ => Turn(false, false, false))[1..] == seq<Turn>(concurrency - 1, _ => Turn(false, false, false));
      NoneStarted(concurrency - 1);
    }
  }

  ghost predicate LatchInv(s: Latch) {
    && s.startedTurnCount == StartedCount(s.turns)
    && (s.open <==> s.turnsDone || (|s.turns| > 0 && s.startedTurnCount == |s.turns|))
    && (s.turnsDone ==> MaySettle(s.turns))
  }

  lemma LatchStep(s: Latch, s': Latch)
    requires LatchInv(s) && LatchNext(s, s')
    ensures LatchInv(s') && |s'.turns| == |s.turns|
  {
    if !TurnsSettle(s, s') {
      hide StartedCount;
      var t: nat :| TurnStarts(s, s', t) || TurnEnds(s, s', t);
      TurnUpdate(s.turns, t, s'.turns[t]);
      AllStarted(s.turns);
      if s.turnsDone {
        if f: nat :| f < |s.turns| && s.turns[f].failed {
          assert s'.turns[f].failed;
        }
      }
    }
  }

  /** The latch is open exactly when the turns have settled or every one of at least one turn has
      started; and the turns have settled only if all ended or one failed. */
  lemma {:induction false} LatchOpensExactly(run: seq<Latch>, concurrency: nat, i: nat)
    requires IsLatchRun(run, concurrency) && i < |run|
    ensures var s := run[i];
            && |s.turns| == concurrency
            && (s.open <==> s.turnsDone || (concurrency > 0 && forall t :: 0 <= t < concurrency ==> s.turns[t].started))
            && (s.turnsDone ==> MaySettle(s.turns))
  {
    LatchRunInv(run, concurrency, i);
    AllStarted(run[i].turns);
  }

  lemma {:induction false} LatchRunInv(run: seq<Latch>, concurrency: nat, i: nat)
    requires IsLatchRun(run, concurrency) && i < |run|
    ensures LatchInv(run[i]) && |run[i].turns| == concurrency
  {
    if i == 0 {
      NoneStarted(concurrency);
    } else {
      LatchRunInv(run, concurrency, i - 1);
      assert LatchNext(run[i - 1], run[i - 1 + 1]);
      LatchStep(run[i - 1], run[i]);
    }
  }
}
