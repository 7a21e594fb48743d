/** The exclusive reservation of an output directory, run by any number of processes at once. */
module OutputReservation {
  import opened Sequences

  // ---- the target: a path strictly inside the repository ----

  function CommonPrefix(a: Path, b: Path): (n: nat)
    ensures n <= |a| && n <= |b| && a[..n] == b[..n]
    ensures n < |a| && n < |b| ==> a[n] != b[n]
  {
    if a == [] || b == [] || a[0] != b[0] then 0
    else
      var n := CommonPrefix(a[1..], b[1..]);
      assert a[..n + 1] == [a[0]] + a[1..][..n] && b[..n + 1] == [b[0]] + b[1..][..n];
      n + 1
  }

  /** path.relative between two resolved paths: one ".." for each segment left, then the new segments. */
  function Relative(from: Path, to: Path): Path {
    var n := CommonPrefix(from, to);
    seq(|from| - n, _ => "..") + to[n..]
  }

  /** The check made before anything is inspected. */
  predicate StaysInside(root: Path, output: Path) {
    var relative := Relative(root, output);
    relative != [] && relative[0] != ".."
  }

  /** The check accepts exactly the strict descendants of the root, and the segments walked lead from it to the output. */
  lemma AcceptedExactlyInside(root: Path, output: Path)
    requires forall i :: 0 <= i < |output| ==> output[i] != ".."
    ensures StaysInside(root, output) <==> root < output
    ensures StaysInside(root, output) ==> root + Relative(root, output) == output
  {
    var n := CommonPrefix(root, output);
    assert root <= output ==> n == |root|;
  }

  // ---- processes over a shared file system ----

  datatype Kind = Directory | File | Symlink

  datatype Reason = TraversesSymlink | AlreadyExists | ParentNotDirectory | OtherError

  datatype Phase =
    | Inspect                  // about to lstat the current path
    | Create                   // lstat found nothing; about to mkdir the current path
    | Reserved                 // returned normally
    | Refused(reason: Reason)  // threw

  /** A process walking the segments of its target, given from the repository root (the empty path).
      passed is the number of segments behind it; lstats counts the lstat calls made for each segment. */
  datatype Process = Process(target: Path, passed: nat, phase: Phase, lstats: seq<nat>) {
    predicate Running() {
      phase == Inspect || phase == Create
    }

    function Current(): Path
      requires passed < |target|
    {
      target[..passed + 1]
    }

    /** Moves to the next segment, or returns if there is none. */
    function Advanced(): Process {
      this.(passed := passed + 1, phase := if passed + 1 == |target| then Reserved else Inspect)
    }

    function CountLstat(): Process {
      if passed < |lstats| then this.(lstats := lstats[passed := lstats[passed] + 1]) else this.(lstats := lstats + [1])
    }
  }

  /** creator records which process made a directory; it is history, read by no step. */
  datatype State = State(fs: map<Path, Kind>, creator: map<Path, nat>, processes: seq<Process>)

  ghost predicate Init(s: State) {
    s.creator == map[] && forall p :: 0 <= p < |s.processes| ==>
                            s.processes[p].target != [] && s.processes[p] == Process(s.processes[p].target, 0, Inspect, [])
  }

  /** What the source makes of an entry that lstat finds: the first check that fails, or none. */
  function Verdict(kind: Kind, isOutput: bool): Option<Reason> {
    if kind == Symlink then Some(TraversesSymlink)
    else if isOutput then Some(AlreadyExists)
    else if kind != Directory then Some(ParentNotDirectory)
    else None
  }

  /** One atomic lstat. Any error other than a missing path is passed on, and may always happen. */
  ghost predicate LstatStep(s: State, s': State, p: nat) {
    && p < |s.processes| && s.processes[p].phase == Inspect && s.processes[p].passed < |s.processes[p].target|
    && var me := s.processes[p].CountLstat();
       var current := me.Current();
       s'.fs == s.fs && s'.creator == s.creator
       && (|| s'.processes == s.processes[p := me.(phase := Refused(OtherError))]
           || (current !in s.fs && s'.processes == s.processes[p := me.(phase := Create)])
           || (current in s.fs && var verdict := Verdict(s.fs[current], current == me.target);
               s'.processes == s.processes[p := if verdict.Some? then me.(phase := Refused(verdict.value)) else me.Advanced()]))
  }

  /** One atomic mkdir: it succeeds only on a free name, and reports EEXIST only on a taken one. */
  ghost predicate MkdirStep(s: State, s': State, p: nat) {
    && p < |s.processes| && s.processes[p].phase == Create && s.processes[p].passed < |s.processes[p].target|
    && var me := s.processes[p];
       var current := me.Current();
       || (s'.fs == s.fs && s'.creator == s.creator && s'.processes == s.processes[p := me.(phase := Refused(OtherError))])
       || (current in s.fs && s'.fs == s.fs && s'.creator == s.creator
           && s'.processes == s.processes[p := me.(phase := Inspect)])
       || (current !in s.fs && s'.fs == s.fs[current := Directory] && s'.creator == s.creator[current := p]
           && s'.processes == s.processes[p := me.Advanced()])
  }

  /** Anything else on the machine may create any kind of entry under a free name. */
  ghost predicate EnvironmentStep(s: State, s': State, path: Path) {
    path !in s.fs && path in s'.fs && s' == s.(fs := s.fs[path := s'.fs[path]])
  }

  ghost predicate ProcessStep(s: State, s': State, p: nat) {
    LstatStep(s, s', p) || MkdirStep(s, s', p)
  }

  ghost predicate Next(s: State, s': State) {
    (exists path :: EnvironmentStep(s, s', path)) || exists p :: ProcessStep(s, s', p)
  }

  ghost predicate IsRun(run: seq<State>) {
    && run != [] && Init(run[0])
    && forall i :: 0 <= i < |run| - 1 ==> Next(run[i], run[i + 1])
  }

  // ---- what every step keeps ----

  /** The prefixes behind a process are real directories. */
  ghost predicate PassedAreDirectories(fs: map<Path, Kind>, me: Process) {
    && me.passed <= |me.target|
    && forall k :: 1 <= k <= me.passed ==> me.target[..k] in fs && fs[me.target[..k]] == Directory
  }

  /** At most two lstat calls were made for any segment; the second only after the path had appeared. */
  ghost predicate CallsAreBounded(fs: map<Path, Kind>, me: Process) {
    && |me.lstats| <= |me.target|
    && (forall k :: 0 <= k < |me.lstats| ==> me.lstats[k] <= 2)
    && (me.Running() ==> me.passed < |me.target| && me.passed <= |me.lstats| <= me.passed + 1)
    && (me.Running() && |me.lstats| == me.passed + 1 ==> me.lstats[me.passed] == 1)
    && (me.phase == Inspect && |me.lstats| == me.passed + 1 ==> me.Current() in fs)
    && (me.phase == Create ==> |me.lstats| == me.passed + 1)
  }

  ghost predicate ProcessInv(s: State, p: nat)
    requires p < |s.processes|
  {
    var me := s.processes[p];
    && me.target != []
    && PassedAreDirectories(s.fs, me)
    && CallsAreBounded(s.fs, me)
    && (me.phase == Reserved ==> me.passed == |me.target| && me.target in s.creator && s.creator[me.target] == p)
  }

  ghost predicate Inv(initial: map<Path, Kind>, s: State) {
    && (forall path :: path in initial ==> path in s.fs && s.fs[path] == initial[path])
    && (forall path :: path in s.creator ==> path in s.fs && s.fs[path] == Directory && path !in initial)
    && (forall p :: 0 <= p < |s.processes| ==> ProcessInv(s, p))
  }

  /** A step may only add entries. */
  ghost predicate Grows(fs: map<Path, Kind>, fs': map<Path, Kind>) {
    forall path :: path in fs ==> path in fs' && fs'[path] == fs[path]
  }

  lemma ProcessInvGrows(s: State, s': State, p: nat)
    requires p < |s.processes| && p < |s'.processes| && s'.processes[p] == s.processes[p]
    requires Grows(s.fs, s'.fs) && ProcessInv(s, p)
    requires s.processes[p].phase == Reserved ==>
               s.processes[p].target in s'.creator && s'.creator[s.processes[p].target] == s.creator[s.processes[p].target]
    ensures ProcessInv(s', p)
  {
  }

  lemma LstatKeepsProcess(s: State, s': State, p: nat)
    requires LstatStep(s, s', p) && ProcessInv(s, p)
    ensures ProcessInv(s', p)
  {
    var me, me' := s.processes[p], s'.processes[p];
    assert me'.target == me.target;
  }

  lemma MkdirKeepsProcess(s: State, s': State, p: nat)
    requires MkdirStep(s, s', p) && ProcessInv(s, p)
    ensures ProcessInv(s', p)
  {
    var me, me' := s.processes[p], s'.processes[p];
    assert me'.target == me.target;
    if me.passed + 1 == |me.target| {
      assert me.Current() == me.target;
    }
  }

  /** A step of one process adds at most one directory of its own and leaves the others alone. */
  lemma StepFrame(s: State, s': State, q: nat)
    requires ProcessStep(s, s', q)
    ensures q < |s.processes| == |s'.processes|
    ensures Grows(s.fs, s'.fs)
    ensures forall p :: 0 <= p < |s.processes| ==> s'.processes[p].target == s.processes[p].target
    ensures forall p :: 0 <= p < |s.processes| && p != q ==> s'.processes[p] == s.processes[p]
    ensures forall path :: path in s.creator && path in s.fs ==> path in s'.creator && s'.creator[path] == s.creator[path]
    ensures forall path :: path in s'.creator ==> path in s.creator || (path !in s.fs && path in s'.fs && s'.fs[path] == Directory)
  {
  }

  lemma NextKeepsInv(initial: map<Path, Kind>, s: State, s': State)
    requires Inv(initial, s) && Next(s, s')
    ensures Inv(initial, s')
  {
    hide ProcessInv, LstatStep, MkdirStep, ProcessStep;
    if path :| EnvironmentStep(s, s', path) {
      forall p | 0 <= p < |s'.processes| ensures ProcessInv(s', p) {
        ReservedIsRecorded(s, p);
        ProcessInvGrows(s, s', p);
      }
    } else {
      var q :| ProcessStep(s, s', q);
      StepFrame(s, s', q);
      StepKeepsProcess(s, s', q);
      forall p | 0 <= p < |s'.processes| && p != q ensures ProcessInv(s', p) {
        ReservedIsRecorded(s, p);
        ProcessInvGrows(s, s', p);
      }
    }
  }

  lemma StepKeepsProcess(s: State, s': State, p: nat)
    requires ProcessStep(s, s', p) && ProcessInv(s, p)
    ensures ProcessInv(s', p)
  {
    hide ProcessInv, LstatStep, MkdirStep;
    if LstatStep(s, s', p) {
      LstatKeepsProcess(s, s', p);
    } else {
      MkdirKeepsProcess(s, s', p);
    }
  }

  lemma ReservedIsRecorded(s: State, p: nat)
    requires p < |s.processes| && ProcessInv(s, p)
    ensures s.processes[p].phase == Reserved ==>
              s.processes[p].target in s.creator && s.creator[s.processes[p].target] == p
  {
  }

  lemma {:induction false} RunKeepsInv(run: seq<State>, i: nat)
    requires IsRun(run) && i < |run|
    ensures Inv(run[0].fs, run[i])
    ensures |run[i].processes| == |run[0].processes|
    ensures forall p :: 0 <= p < |run[0].processes| ==> run[i].processes[p].target == run[0].processes[p].target
  {
    if i > 0 {
      RunKeepsInv(run, i - 1);
      assert Next(run[i - 1], run[i - 1 + 1]);
      NextKeepsInv(run[0].fs, run[i - 1], run[i]);
      NextKeepsTargets(run[i - 1], run[i]);
    }
  }

  lemma NextKeepsTargets(s: State, s': State)
    requires Next(s, s')
    ensures |s'.processes| == |s.processes|
    ensures forall p :: 0 <= p < |s.processes| ==> s'.processes[p].target == s.processes[p].target
  {
    hide ProcessStep;
    if p :| ProcessStep(s, s', p) {
      StepFrame(s, s', p);
    }
  }

  // ---- the guarantees ----

  /** Mutual exclusion: of the processes reserving one path, at most one returns normally. */
  lemma AtMostOneReserves(run: seq<State>, i: nat, p: nat, q: nat)
    requires IsRun(run) && i < |run|
    requires p < |run[i].processes| && q < |run[i].processes|
    requires run[i].processes[p].phase == Reserved && run[i].processes[q].phase == Reserved
    requires run[i].processes[p].target == run[i].processes[q].target
    ensures p == q
  {
    RunKeepsInv(run, i);
    assert ProcessInv(run[i], p) && ProcessInv(run[i], q);
  }

  /** A process that returned normally made the leaf itself, the leaf was not there at the start,
      and every prefix of its path is a real directory. */
  lemma ReservationIsGenuine(run: seq<State>, i: nat, p: nat)
    requires IsRun(run) && i < |run| && p < |run[i].processes| && run[i].processes[p].phase == Reserved
    ensures var target := run[i].processes[p].target;
            && target in run[i].creator && run[i].creator[target] == p
            && target !in run[0].fs
            && forall k :: 1 <= k <= |target| ==> target[..k] in run[i].fs && run[i].fs[target[..k]] == Directory
  {
    RunKeepsInv(run, i);
    assert ProcessInv(run[i], p);
  }

  /** However many creators interfere, no process makes more than two lstat calls for a segment. */
  lemma AtMostTwoLstatsPerSegment(run: seq<State>, i: nat, p: nat, k: nat)
    requires IsRun(run) && i < |run| && p < |run[i].processes| && k < |run[i].processes[p].lstats|
    ensures run[i].processes[p].lstats[k] <= 2
    ensures |run[i].processes[p].lstats| <= |run[i].processes[p].target|
  {
    RunKeepsInv(run, i);
    assert ProcessInv(run[i], p);
  }

  /** The three refusals that name an existing entry are never wrong about it. */
  ghost predicate RefusalIsTrue(fs: map<Path, Kind>, me: Process) {
    && (me.phase == Refused(AlreadyExists) ==> me.target in fs)
    && (me.phase == Refused(TraversesSymlink) ==> me.passed < |me.target| && me.Current() in fs && fs[me.Current()] == Symlink)
    && (me.phase == Refused(ParentNotDirectory) ==> me.passed + 1 < |me.target| && me.Current() in fs && fs[me.Current()] == File)
  }

  lemma {:induction false} RefusalsAreTrue(run: seq<State>, i: nat, p: nat)
    requires IsRun(run) && i < |run| && p < |run[i].processes|
    ensures RefusalIsTrue(run[i].fs, run[i].processes[p])
  {
    if i > 0 {
      hide Inv, ProcessStep, RefusalIsTrue;
      RunKeepsInv(run, i - 1);
      var s, s' := run[i - 1], run[i];
      assert Next(s, run[i - 1 + 1]);
      NextKeepsTargets(s, s');
      RefusalsAreTrue(run, i - 1, p);
      RefusalStep(s, s', p);
    } else {
      assert Init(run[0]);
    }
  }

  lemma RefusalStep(s: State, s': State, p: nat)
    requires Next(s, s') && p < |s.processes| == |s'.processes| && RefusalIsTrue(s.fs, s.processes[p])
    ensures RefusalIsTrue(s'.fs, s'.processes[p])
  {
    hide LstatStep, MkdirStep;
    if q :| ProcessStep(s, s', q) {
      StepFrame(s, s', q);
      if LstatStep(s, s', q) {
        LstatRefusal(s, s', q);
      } else {
        MkdirRefusal(s, s', q);
      }
    }
  }

  lemma LstatRefusal(s: State, s': State, p: nat)
    requires LstatStep(s, s', p)
    ensures RefusalIsTrue(s'.fs, s'.processes[p])
  {
    var me, me' := s.processes[p].CountLstat(), s'.processes[p];
    var current := me.Current();
    if me'.phase.Refused? {
      assert me'.Current() == current;
      if me.passed + 1 == |me.target| {
        assert current == me.target;
      }
    }
  }

  lemma MkdirRefusal(s: State, s': State, p: nat)
    requires MkdirStep(s, s', p)
    ensures RefusalIsTrue(s'.fs, s'.processes[p])
  {
  }

  // ---- someone reserves ----

  /** All processes have the target, only they act, and whatever is there along its way is a directory. */
  ghost predicate IsContest(run: seq<State>, target: Path) {
    && IsRun(run) && target != [] && target !in run[0].fs
    && (forall p :: 0 <= p < |run[0].processes| ==> run[0].processes[p].target == target)
    && (forall k :: 1 <= k < |target| && target[..k] in run[0].fs ==> run[0].fs[target[..k]] == Directory)
    && forall i :: 0 <= i < |run| - 1 ==> ActsAlone(run[i], run[i + 1])
  }

  ghost predicate ActsAlone(s: State, s': State) {
    exists p :: ProcessStep(s, s', p)
  }

  /** What is new was made by a process, and the process that made the target has reserved it. */
  ghost predicate MadeByProcesses(initial: map<Path, Kind>, s: State, target: Path) {
    && (forall path :: path in s.fs && path !in initial ==> path in s.creator && s.fs[path] == Directory)
    && (target in s.creator ==> s.creator[target] < |s.processes| && s.processes[s.creator[target]].phase == Reserved)
  }

  lemma StepMakesOwn(initial: map<Path, Kind>, s: State, s': State, target: Path, p: nat)
    requires MadeByProcesses(initial, s, target) && ProcessStep(s, s', p)
    requires forall q :: 0 <= q < |s.processes| ==> s.processes[q].target == target
    requires forall path :: path in s.creator ==> path in s.fs
    ensures MadeByProcesses(initial, s', target)
  {
    if LstatStep(s, s', p) {
      assert forall q :: 0 <= q < |s.processes| && q != p ==> s'.processes[q] == s.processes[q];
      assert s.processes[p].phase != Reserved;
    } else {
      var me := s.processes[p];
      assert me.target == target && (me.Current() == target <==> me.passed + 1 == |target|);
    }
  }

  lemma {:induction false} ContestMakesOwn(run: seq<State>, target: Path, i: nat)
    requires IsContest(run, target) && i < |run|
    ensures MadeByProcesses(run[0].fs, run[i], target)
  {
    hide IsContest, IsRun, ProcessStep, Inv, MadeByProcesses;
    ContestFacts(run, target, i);
    if i > 0 {
      ContestMakesOwn(run, target, i - 1);
      RunKeepsInv(run, i - 1);
      CreatedIsThere(run[0].fs, run[i - 1]);
      var p: nat :| ProcessStep(run[i - 1], run[i], p);
      StepMakesOwn(run[0].fs, run[i - 1], run[i], target, p);
    }
  }

  lemma ContestFacts(run: seq<State>, target: Path, i: nat)
    requires IsContest(run, target) && i < |run|
    ensures IsRun(run) && MadeByProcesses(run[0].fs, run[0], target)
    ensures forall p :: 0 <= p < |run[0].processes| ==> run[0].processes[p].target == target
    ensures i > 0 ==> ActsAlone(run[i - 1], run[i])
  {
    hide ProcessStep, Next;
    assert i > 0 ==> ActsAlone(run[i - 1], run[i - 1 + 1]);
  }

  lemma CreatedIsThere(initial: map<Path, Kind>, s: State)
    requires Inv(initial, s)
    ensures forall path :: path in s.creator ==> path in s.fs
  {
  }

  ghost predicate HasReserved(s: State, p: nat) {
    p < |s.processes| && s.processes[p].phase == Reserved
  }

  /** With a free target below directories or free names, once all of at least one process have finished,
      none by an unrelated error, exactly one has reserved the target. */
  lemma ExactlyOneReserves(run: seq<State>, target: Path) returns (winner: nat)
    requires IsContest(run, target) && run[0].processes != []
    requires var s := run[|run| - 1];
             forall p :: 0 <= p < |s.processes| ==> !s.processes[p].Running() && s.processes[p].phase != Refused(OtherError)
    ensures HasReserved(run[|run| - 1], winner)
    ensures var s := run[|run| - 1]; forall p :: HasReserved(s, p) ==> p == winner
  {
    var last := |run| - 1;
    var s := run[last];
    RunKeepsInv(run, last);
    ContestMakesOwn(run, target, last);
    RefusalsAreTrue(run, last, 0);
    if s.processes[0].phase == Reserved {
      winner := 0;
    } else {
      winner := WinnerOverRefused(run, target);
    }
    forall p | HasReserved(s, p) ensures p == winner {
      AtMostOneReserves(run, last, p, winner);
    }
  }

  /** No obstacle ever comes to lie on the way. */
  lemma WayStaysFree(run: seq<State>, target: Path, k: nat)
    requires IsContest(run, target) && 1 <= k <= |target|
    requires var s := run[|run| - 1]; MadeByProcesses(run[0].fs, s, target) && Grows(run[0].fs, s.fs)
    ensures var fs := run[|run| - 1].fs; target[..k] in fs ==> fs[target[..k]] == Directory
  {
    assert k == |target| ==> target[..k] == target;
  }

  /** So whoever is refused, is refused because the target has been made. */
  lemma WinnerOverRefused(run: seq<State>, target: Path) returns (winner: nat)
    requires IsContest(run, target) && run[0].processes != []
    requires var s := run[|run| - 1];
             && MadeByProcesses(run[0].fs, s, target) && Grows(run[0].fs, s.fs) && |s.processes| == |run[0].processes|
             && s.processes[0].target == target && s.processes[0].phase.Refused?
             && s.processes[0].phase != Refused(OtherError) && RefusalIsTrue(s.fs, s.processes[0])
    ensures HasReserved(run[|run| - 1], winner)
  {
    hide IsContest;
    TargetIsFree(run, target);
    var s := run[|run| - 1];
    var me := s.processes[0];
    if me.passed < |target| {
      WayStaysFree(run, target, me.passed + 1);
    }
    assert me.phase.reason == AlreadyExists;
    winner := s.creator[target];
  }

  lemma TargetIsFree(run: seq<State>, target: Path)
    requires IsContest(run, target)
    ensures run != [] && target !in run[0].fs
  {
  }

  /** A process that has not finished can always take a step, and not only into an error. */
  lemma RunningCanStep(initial: map<Path, Kind>, s: State, p: nat)
    requires Inv(initial, s) && p < |s.processes| && s.processes[p].Running()
    ensures exists s' :: ProcessStep(s, s', p) && s'.processes[p].phase != Refused(OtherError)
  {
    assert ProcessInv(s, p);
    var me := s.processes[p];
    var current := me.Current();
    if me.phase == Inspect {
      var seen := me.CountLstat();
      assert seen.Current() == current;
      var verdict := if current in s.fs then Verdict(s.fs[current], current == me.target) else None;
      var next := if current !in s.fs then seen.(phase := Create)
                  else if verdict.Some? then seen.(phase := Refused(verdict.value)) else seen.Advanced();
      assert ProcessStep(s, s.(processes := s.processes[p := next]), p);
    } else if current in s.fs {
      assert ProcessStep(s, s.(processes := s.processes[p := me.(phase := Inspect)]), p);
    } else {
      assert ProcessStep(s, State(s.fs[current := Directory], s.creator[current := p], s.processes[p := me.Advanced()]), p);
    }
  }

  /** Exclusion does not come from refusing everyone: alone, with a free leaf below directories or
      free names, a process does reserve its target. */
  lemma SoloProcessReserves(fs: map<Path, Kind>, target: Path) returns (run: seq<State>)
    requires target != [] && target !in fs
    requires forall k :: 1 <= k < |target| && target[..k] in fs ==> fs[target[..k]] == Directory
    ensures IsRun(run) && run[0].fs == fs && |run[0].processes| == 1 && run[0].processes[0].target == target
    ensures var s := run[|run| - 1]; |s.processes| == 1 && s.processes[0].phase == Reserved
  {
    run := SoloRun(fs, target, |target|);
  }

  /** The entries of fs, and added paths of at most k segments. */
  ghost predicate OnlyAdded(fs: map<Path, Kind>, fs': map<Path, Kind>, k: nat) {
    && Grows(fs, fs')
    && forall path :: path in fs' ==> if path in fs then fs'[path] == fs[path] else |path| <= k
  }

  lemma OldEntryIsPrefix(fs: map<Path, Kind>, fs': map<Path, Kind>, target: Path, k: nat)
    requires 1 <= k <= |target| && OnlyAdded(fs, fs', k - 1)
    requires target !in fs && target[..k] in fs'
    requires forall k :: 1 <= k < |target| && target[..k] in fs ==> fs[target[..k]] == Directory
    ensures k < |target| && fs'[target[..k]] == Directory
  {
    assert target[..|target|] == target;
    assert |target[..k]| == k;
  }

  lemma AddedOnly(fs: map<Path, Kind>, fs': map<Path, Kind>, k: nat, path: Path)
    requires k > 0 && OnlyAdded(fs, fs', k - 1) && |path| == k && path !in fs'
    ensures OnlyAdded(fs, fs'[path := Directory], k)
  {
  }

  lemma StillOnlyAdded(fs: map<Path, Kind>, fs': map<Path, Kind>, k: nat)
    ensures OnlyAdded(fs, fs, 0)
    ensures k > 0 && OnlyAdded(fs, fs', k - 1) ==> OnlyAdded(fs, fs', k)
  {
  }

  lemma {:induction false} SoloRun(fs: map<Path, Kind>, target: Path, k: nat) returns (run: seq<State>)
    requires target != [] && target !in fs && k <= |target|
    requires forall k :: 1 <= k < |target| && target[..k] in fs ==> fs[target[..k]] == Directory
    ensures IsRun(run) && run[0].fs == fs && |run[0].processes| == 1 && run[0].processes[0].target == target
    ensures var s := run[|run| - 1];
            && |s.processes| == 1
            && s.processes[0].target == target && s.processes[0].passed == k && |s.processes[0].lstats| == k
            && s.processes[0].phase == (if k == |target| then Reserved else Inspect)
            && OnlyAdded(fs, s.fs, k)
  {
    hide OnlyAdded;
    if k == 0 {
      StillOnlyAdded(fs, fs, 0);
      run := [State(fs, map[], [Process(target, 0, Inspect, [])])];
    } else {
      var before := SoloRun(fs, target, k - 1);
      var s := before[|before| - 1];
      var me := s.processes[0].CountLstat();
      var current := me.Current();
      if current in s.fs {
        OldEntryIsPrefix(fs, s.fs, target, k);
        StillOnlyAdded(fs, s.fs, k);
        var s' := s.(processes := [me.Advanced()]);
        assert ProcessStep(s, s', 0);
        run := Extended(before, s');
      } else {
        var s' := s.(processes := [me.(phase := Create)]);
        assert ProcessStep(s, s', 0);
        run := Extended(before, s');
        var s'' := State(s'.fs[current := Directory], s'.creator[current := 0], [s'.processes[0].Advanced()]);
        assert s'.processes[0].Current() == current;
        assert ProcessStep(s', s'', 0);
        AddedOnly(fs, s.fs, k, current);
        run := Extended(run, s'');
      }
    }
  }

  lemma Extended(run: seq<State>, s: State) returns (longer: seq<State>)
    requires IsRun(run) && Next(run[|run| - 1], s)
    ensures longer == run + [s] && IsRun(longer)
  {
    longer := run + [s];
    forall i | 0 <= i < |longer| - 1 ensures Next(longer[i], longer[i + 1]) {
      if i < |run| - 1 {
        assert Next(run[i], run[i + 1]);
      }
    }
  }
}
