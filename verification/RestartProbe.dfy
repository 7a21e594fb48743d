/** The probe that follows an endpoint through a gateway restart. */
module RestartProbe {
  import opened Sequences

  /** What one pass of the polling loop observes: the clock at the loop test, the two completion
      callbacks, then the attempt's outcome and the clock after it. */
  datatype Round = Round(testMs: real, processDone: bool, done: bool, status: Option<int>, errorKind: Option<string>, nowMs: real)

  datatype Transition = Transition(ms: real, status: Option<int>, errorKind: Option<string>)

  datatype ProbeResult = ProbeResult(downtimeMs: Option<real>, firstErrorKind: Option<string>, firstRecoveryMs: Option<real>,
                                     ms: Option<real>, status: Option<int>, transitions: seq<Transition>, unavailableMs: Option<real>)

  /** The deadline, the instant elapsed times count from, and the rounds in order; the clock passes
      the deadline after the last of them at the latest. */
  datatype Probe = Probe(deadlineAt: real, signalSentAt: real, rounds: seq<Round>) {

    function Elapsed(i: nat): real
      requires i < |rounds|
    {
      rounds[i].nowMs - signalSentAt
    }

    predicate IsUp(i: nat)
      requires i < |rounds|
    {
      rounds[i].status == Some(200)
    }

    /** An error kind that is neither null nor empty. */
    predicate HasError(i: nat)
      requires i < |rounds|
    {
      rounds[i].errorKind.Some? && rounds[i].errorKind.value != ""
    }

    /** The two parts of the state key `status:errorKind`. */
    function Key(i: nat): (Option<int>, string)
      requires i < |rounds|
    {
      (rounds[i].status, if rounds[i].errorKind.Some? then rounds[i].errorKind.value else "ok")
    }

    function TransitionAt(i: nat): Transition
      requires i < |rounds|
    {
      Transition(Elapsed(i), rounds[i].status, if HasError(i) then rounds[i].errorKind else None)
    }

    // ---- the attempts that are made ----

    ghost predicate AllUp(k: nat)
      requires k <= |rounds|
    {
      forall i :: 0 <= i < k ==> IsUp(i)
    }

    /** Some 200 among the first k attempts followed one that was not. */
    ghost predicate Recovered(k: nat)
      requires k <= |rounds|
    {
      exists i, j :: 0 <= i < j < k && !IsUp(i) && IsUp(j)
    }

    /** Why no further attempt follows the first k. */
    ghost predicate StopsAfter(k: nat)
      requires k <= |rounds|
    {
      || k == |rounds|
      || Recovered(k)
      || rounds[k].testMs >= deadlineAt
      || rounds[k].processDone
      || (rounds[k].done && k > 0 && AllUp(k))
    }

    /** The number of attempts made: the least at which the probe stops. */
    ghost function AttemptCount(): nat {
      StopAfter(0)
    }

    ghost function StopAfter(k: nat): (n: nat)
      requires k <= |rounds|
      ensures k <= n <= |rounds| && StopsAfter(n)
      ensures forall i :: k <= i < n ==> !StopsAfter(i)
      decreases |rounds| - k
    {
      if StopsAfter(k) then k else StopAfter(k + 1)
    }

    /** The first attempt that is not a 200, or k. */
    function FirstDown(k: nat): (i: nat)
      requires k <= |rounds|
      ensures i <= k
      ensures forall j :: 0 <= j < i ==> IsUp(j)
      ensures i < k ==> !IsUp(i)
    {
      if k == 0 then 0
      else
        var i := FirstDown(k - 1);
        if i < k - 1 || !IsUp(k - 1) then i else k
    }

    function FirstError(k: nat): (error: Option<string>)
      requires k <= |rounds|
      ensures error.None? ==> forall i :: 0 <= i < k ==> !HasError(i)
      ensures error.Some? ==> exists i :: 0 <= i < k && HasError(i) && error == rounds[i].errorKind
                                          && forall j :: 0 <= j < i ==> !HasError(j)
    {
      if k == 0 then None
      else
        var error := FirstError(k - 1);
        if error.Some? then error else if HasError(k - 1) then rounds[k - 1].errorKind else None
    }

    /** The attempts with adjacent equal states collapsed into their first. */
    function Collapsed(k: nat): seq<Transition>
      requires k <= |rounds|
    {
      if k == 0 then []
      else Collapsed(k - 1) + if k == 1 || Key(k - 1) != Key(k - 2) then [TransitionAt(k - 1)] else []
    }

    // ---- the probe ----

    lemma RecoveryStep(k: nat)
      requires k <= |rounds|
      ensures AllUp(k) <==> FirstDown(k) == k
      ensures !Recovered(0)
      ensures k < |rounds| && !Recovered(k) ==> (Recovered(k + 1) <==> FirstDown(k) < k && IsUp(k))
      ensures k < |rounds| ==> FirstDown(k + 1) == if FirstDown(k) < k || !IsUp(k) then FirstDown(k) else k + 1
    {
      if k < |rounds| && FirstDown(k) < k && IsUp(k) {
        assert !IsUp(FirstDown(k)) && IsUp(k);
      }
    }

    lemma StopStep(k: nat)
      requires k <= |rounds|
      ensures StopsAfter(k) ==> StopAfter(k) == k
      ensures !StopsAfter(k) ==> StopAfter(k) == StopAfter(k + 1)
    {
    }

    lemma CollapseStep(k: nat)
      requires k < |rounds|
      ensures Collapsed(k + 1)
              == if k == 0 || Key(k) != Key(k - 1) then Collapsed(k) + [TransitionAt(k)] else Collapsed(k)
    {
    }

    lemma NothingCollapsed()
      ensures Collapsed(0) == []
    {
    }

    lemma FirstErrorStep(k: nat)
      requires k <= |rounds|
      ensures FirstError(0) == None
      ensures k < |rounds| ==>
                FirstError(k + 1) == if FirstError(k) == None && HasError(k) then rounds[k].errorKind else FirstError(k)
    {
    }

    /** What the variables of the loop hold after k attempts without a recovery. */
    ghost predicate HoldsAfter(k: nat, firstErrorKind: Option<string>, lastStatus: Option<int>,
                               lastStateKey: Option<(Option<int>, string)>, lastSuccessMs: Option<real>,
                               unavailableMs: Option<real>, transitions: seq<Transition>) {
      && k <= |rounds|
      && StopAfter(0) == StopAfter(k)
      && !Recovered(k)
      && firstErrorKind == FirstError(k)
      && lastStatus == (if k == 0 then None else rounds[k - 1].status)
      && lastStateKey == (if k == 0 then None else Some(Key(k - 1)))
      && unavailableMs == (if FirstDown(k) < k then Some(Elapsed(FirstDown(k))) else None)
      && (unavailableMs == None ==> lastSuccessMs == if k == 0 then None else Some(Elapsed(k - 1)))
      && (k > 0 ==> (unavailableMs == None <==> IsUp(k - 1)))
      && transitions == Collapsed(k)
    }

    method WaitForRestartProbe() returns (r: ProbeResult)
      ensures IsSummary(r, AttemptCount())
    {
      hide AttemptCount, StopAfter, IsSummary, HoldsAfter;
      var firstErrorKind: Option<string> := None;
      var firstRecoveryMs: Option<real> := None;
      var lastStatus: Option<int> := None;
      var lastStateKey: Option<(Option<int>, string)> := None;
      var lastSuccessMs: Option<real> := None;
      var unavailableMs: Option<real> := None;
      var transitions: seq<Transition> := [];
      var index := 0;
      NothingSeen();
      while index < |rounds| && rounds[index].testMs < deadlineAt
        invariant index <= |rounds| && firstRecoveryMs == None
        invariant HoldsAfter(index, firstErrorKind, lastStatus, lastStateKey, lastSuccessMs, unavailableMs, transitions)
      {
        ghost var before := ProbeResult(None, firstErrorKind, None, lastSuccessMs, lastStatus, transitions, unavailableMs);
        ghost var keyBefore := lastStateKey;
        var round := rounds[index];
        if round.processDone {
          break;
        }
        if round.done && unavailableMs == None && lastSuccessMs != None {
          StoppedEarly(index, before, keyBefore);
          return ProbeResult(None, firstErrorKind, firstRecoveryMs, lastSuccessMs, Some(200), transitions, None);
        }
        var elapsedMs := round.nowMs - signalSentAt;
        lastStatus := round.status;
        var stateKey := (round.status, if round.errorKind.Some? then round.errorKind.value else "ok");
        if Some(stateKey) != lastStateKey {
          transitions := transitions + [Transition(elapsedMs, round.status, if HasError(index) then round.errorKind else None)];
          lastStateKey := Some(stateKey);
        }
        if HasError(index) && firstErrorKind == None {
          firstErrorKind := round.errorKind;
        }
        if round.status != Some(200) && unavailableMs == None {
          unavailableMs := Some(elapsedMs);
        }
        if round.status == Some(200) {
          lastSuccessMs := Some(elapsedMs);
        }
        AttemptSeen(index, before, keyBefore);
        index := index + 1;
        if round.status == Some(200) && unavailableMs != None {
          firstRecoveryMs := Some(elapsedMs);
          return ProbeResult(Some(elapsedMs - unavailableMs.value), firstErrorKind, firstRecoveryMs, Some(elapsedMs),
                             round.status, transitions, unavailableMs);
        }
      }
      ghost var seen := ProbeResult(None, firstErrorKind, None, lastSuccessMs, lastStatus, transitions, unavailableMs);
      Stopped(index, seen, lastStateKey);
      return ProbeResult(None, firstErrorKind, firstRecoveryMs, if unavailableMs == None then lastSuccessMs else None,
                         lastStatus, transitions, unavailableMs);
    }

    lemma NothingSeen()
      ensures HoldsAfter(0, None, None, None, None, None, [])
    {
      RecoveryStep(0);
      FirstErrorStep(0);
      NothingCollapsed();
    }

    /** The loop's variables, but for the last state key, as a result. */
    ghost predicate IsSeen(k: nat, seen: ProbeResult, lastStateKey: Option<(Option<int>, string)>) {
      HoldsAfter(k, seen.firstErrorKind, seen.status, lastStateKey, seen.ms, seen.unavailableMs, seen.transitions)
    }

    lemma StoppedEarly(k: nat, seen: ProbeResult, lastStateKey: Option<(Option<int>, string)>)
      requires IsSeen(k, seen, lastStateKey) && k < |rounds| && rounds[k].testMs < deadlineAt && !rounds[k].processDone
      requires rounds[k].done && seen.unavailableMs == None && seen.ms != None
      ensures IsSummary(ProbeResult(None, seen.firstErrorKind, None, seen.ms, Some(200), seen.transitions, None), AttemptCount())
    {
      hide Recovered, AllUp, FirstDown, FirstError, Collapsed, StopAfter, HasError, IsSummary;
      RecoveryStep(k);
      StopStep(k);
      SummaryWithoutRecovery(k);
    }

    lemma Stopped(k: nat, seen: ProbeResult, lastStateKey: Option<(Option<int>, string)>)
      requires IsSeen(k, seen, lastStateKey)
      requires k == |rounds| || rounds[k].testMs >= deadlineAt || rounds[k].processDone
      ensures IsSummary(ProbeResult(None, seen.firstErrorKind, None, if seen.unavailableMs == None then seen.ms else None,
                                    seen.status, seen.transitions, seen.unavailableMs), AttemptCount())
    {
      hide Recovered, AllUp, FirstDown, FirstError, Collapsed, StopAfter, HasError, IsSummary;
      RecoveryStep(k);
      StopStep(k);
      SummaryWithoutRecovery(k);
    }

    /** One more attempt: either it is a recovery, and the result is complete, or the variables move on. */
    lemma AttemptSeen(k: nat, seen: ProbeResult, lastStateKey: Option<(Option<int>, string)>)
      requires IsSeen(k, seen, lastStateKey) && k < |rounds| && rounds[k].testMs < deadlineAt && !rounds[k].processDone
      requires !(rounds[k].done && seen.unavailableMs == None && seen.ms != None)
      ensures var firstErrorKind := if HasError(k) && seen.firstErrorKind == None then rounds[k].errorKind else seen.firstErrorKind;
              var lastSuccessMs := if IsUp(k) then Some(Elapsed(k)) else seen.ms;
              var unavailableMs := if !IsUp(k) && seen.unavailableMs == None then Some(Elapsed(k)) else seen.unavailableMs;
              var transitions := if Some(Key(k)) != lastStateKey then seen.transitions + [TransitionAt(k)] else seen.transitions;
              if IsUp(k) && unavailableMs != None then
                IsSummary(ProbeResult(Some(Elapsed(k) - unavailableMs.value), firstErrorKind, Some(Elapsed(k)), Some(Elapsed(k)),
                                      rounds[k].status, transitions, unavailableMs), AttemptCount())
              else
                HoldsAfter(k + 1, firstErrorKind, rounds[k].status, Some(Key(k)), lastSuccessMs, unavailableMs, transitions)
    {
      hide Recovered, AllUp, FirstDown, FirstError, Collapsed, StopAfter, HasError, IsSummary;
      RecoveryStep(k);
      FirstErrorStep(k);
      CollapseStep(k);
      StopStep(k);
      assert !StopsAfter(k);
      if IsUp(k) && seen.unavailableMs != None {
        StopStep(k + 1);
        SummaryOfRecovery(k + 1);
      }
    }

    /** What the result says about the n attempts made. */
    ghost predicate IsSummary(r: ProbeResult, n: nat) {
      && n <= |rounds|
      && r.ms == (if n > 0 && IsUp(n - 1) then Some(Elapsed(n - 1)) else None)
      && r.status == (if n > 0 then rounds[n - 1].status else None)
      && r.unavailableMs == (if FirstDown(n) < n then Some(Elapsed(FirstDown(n))) else None)
      && r.firstRecoveryMs == (if Recovered(n) then Some(Elapsed(n - 1)) else None)
      && r.downtimeMs == (if Recovered(n) then Some(Elapsed(n - 1) - Elapsed(FirstDown(n))) else None)
      && r.firstErrorKind == FirstError(n)
      && r.transitions == Collapsed(n)
    }

    lemma SummaryWithoutRecovery(n: nat)
      requires n <= |rounds| && !Recovered(n)
      requires n > 0 ==> (FirstDown(n) == n <==> IsUp(n - 1))
      ensures IsSummary(ProbeResult(None, FirstError(n), None,
                                    if FirstDown(n) == n && n > 0 then Some(Elapsed(n - 1)) else None,
                                    if n > 0 then rounds[n - 1].status else None,
                                    Collapsed(n),
                                    if FirstDown(n) < n then Some(Elapsed(FirstDown(n))) else None), n)
    {
    }

    lemma SummaryOfRecovery(n: nat)
      requires 0 < n <= |rounds| && Recovered(n) && FirstDown(n) < n && IsUp(n - 1)
      ensures IsSummary(ProbeResult(Some(Elapsed(n - 1) - Elapsed(FirstDown(n))), FirstError(n), Some(Elapsed(n - 1)),
                                    Some(Elapsed(n - 1)), rounds[n - 1].status, Collapsed(n),
                                    Some(Elapsed(FirstDown(n)))), n)
    {
    }

    // ---- what the summary means ----

    /** Until its last attempt the probe sees 200s and then none: a recovery always ends it. */
    lemma AttemptsHaveOneShape(i: nat)
      requires i + 1 < AttemptCount()
      ensures IsUp(i) <==> i < FirstDown(AttemptCount())
    {
      var n := AttemptCount();
      assert !StopsAfter(n - 1);
      assert !Recovered(n - 1);
    }

    /** Downtime is reported exactly on recovery, and then it is not negative. */
    lemma DowntimeIsNonNegative()
      requires forall i, j :: 0 <= i < j < |rounds| ==> rounds[i].nowMs <= rounds[j].nowMs
      ensures var n := AttemptCount();
              Recovered(n) <==> n > 0 && FirstDown(n) < n - 1 && IsUp(n - 1)
      ensures var n := AttemptCount();
              Recovered(n) ==> Elapsed(n - 1) - Elapsed(FirstDown(n)) >= 0.0
    {
      var n := AttemptCount();
      RecoveryStep(n);
      if n > 0 {
        assert !StopsAfter(n - 1);
        RecoveryStep(n - 1);
      }
    }

    /** How the state key shows an error kind. */
    function Shown(errorKind: Option<string>): string {
      match errorKind
      case None => "ok"
      case Some(text) => text
    }

    /** The place of attempt i's state in the collapsed sequence. */
    function Block(i: nat): nat
      requires i < |rounds|
    {
      if i == 0 then 0 else Block(i - 1) + if Key(i) != Key(i - 1) then 1 else 0
    }

    /** The transitions are the attempts with adjacent equal states collapsed: consecutive attempts share a
        transition exactly when their states agree, each transition is its first attempt, and none is left over. */
    lemma {:induction false} TransitionsCollapse(k: nat, i: nat)
      requires i < k <= |rounds|
      ensures |Collapsed(k)| == Block(k - 1) + 1
      ensures Block(i) < |Collapsed(k)|
      ensures i == 0 || Block(i) != Block(i - 1) ==>
                Collapsed(k)[Block(i)] == Transition(rounds[i].nowMs - signalSentAt, rounds[i].status,
                                                     if rounds[i].errorKind == Some("") then None else rounds[i].errorKind)
      ensures i > 0 ==> (Block(i) == Block(i - 1)
                         <==> rounds[i].status == rounds[i - 1].status
                              && Shown(rounds[i].errorKind) == Shown(rounds[i - 1].errorKind))
    {
      hide Collapsed;
      NothingCollapsed();
      CollapseStep(k - 1);
      if k > 1 {
        if i < k - 1 {
          TransitionsCollapse(k - 1, i);
        } else {
          TransitionsCollapse(k - 1, k - 2);
        }
      }
    }
  }
}
