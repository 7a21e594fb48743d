/** The parent signal controller of the prompt probe: the first signal owns the exit code, later
    signals only escalate. Events may come in any order. */
module SignalController {
  import opened Sequences

  datatype Signal = SIGHUP | SIGINT | SIGTERM

  /** The conventional shell exit code, 128 plus the POSIX signal number. */
  function ExitCode(signal: Signal): int {
    128 + match signal case SIGHUP => 1 case SIGINT => 2 case SIGTERM => 15
  }

  /** As shells report processes that end by these signals. */
  lemma ExitCodesAreConventional()
    ensures ExitCode(SIGHUP) == 129 && ExitCode(SIGINT) == 130 && ExitCode(SIGTERM) == 143
  {
  }

  /** What the controller does to the outside; an attachment is identified by a number. */
  datatype Effect = ForceKill(attachment: nat) | Stop(attachment: nat) | Exit(code: int)

  /** The shutdown promise: its first callback is queued, then stop is running, then the process exits. */
  datatype Shutdown = NotStarted | Queued(attachment: nat, code: int) | Stopping(code: int) | Exited

  datatype State = State(attachment: Option<nat>, forceKillPending: bool, receivedSignal: Option<Signal>,
                         shutdown: Shutdown, armed: bool, log: seq<Effect>)

  const INITIAL := State(None, false, None, NotStarted, true, [])

  /** A signal, a call of attach or dispose, the queued callback that calls stop, and stop settling either way. */
  datatype Event = Signalled(signal: Signal) | Attached(attachment: nat) | Disposed | StopCallback | StopSettled

  predicate Listening(s: State) {
    s.armed && s.shutdown != Exited
  }

  function StartShutdown(s: State): State {
    if s.attachment == None || s.receivedSignal == None || s.shutdown != NotStarted then s
    else
      var a := s.attachment.value;
      s.(forceKillPending := false,
         log := if s.forceKillPending then s.log + [ForceKill(a)] else s.log,
         shutdown := Queued(a, ExitCode(s.receivedSignal.value)))
  }

  function Step(s: State, e: Event): State {
    if s.shutdown == Exited then s
    else match e
      case Signalled(signal) =>
        if !s.armed then s
        else if s.receivedSignal == None then StartShutdown(s.(receivedSignal := Some(signal)))
        else if s.attachment == None then s.(forceKillPending := true)
        else s.(log := s.log + [ForceKill(s.attachment.value)])
      case Attached(a) =>
        StartShutdown(if s.attachment == None then s.(attachment := Some(a)) else s)
      case Disposed =>
        s.(armed := false)
      case StopCallback =>
        if s.shutdown.Queued? then s.(shutdown := Stopping(s.shutdown.code), log := s.log + [Stop(s.shutdown.attachment)]) else s
      case StopSettled =>
        if s.shutdown.Stopping? then s.(shutdown := Exited, armed := false, log := s.log + [Exit(s.shutdown.code)]) else s
  }

  function Run(events: seq<Event>, k: nat): State
    requires k <= |events|
  {
    if k == 0 then INITIAL else Step(Run(events, k - 1), events[k - 1])
  }

  // ---- the controller ----

  class Controller {
    var attachment: Option<nat>
    var forceKillPending: bool
    var receivedSignal: Option<Signal>
    var shutdown: Shutdown
    var armed: bool
    var log: seq<Effect>

    function Abstract(): State
      reads this
    {
      State(attachment, forceKillPending, receivedSignal, shutdown, armed, log)
    }

    constructor ()
      ensures Abstract() == INITIAL
    {
      attachment, forceKillPending, receivedSignal := None, false, None;
      shutdown, armed, log := NotStarted, true, [];
    }

    method KillAttached()
      modifies this`log
      ensures log == if attachment.Some? then old(log) + [ForceKill(attachment.value)] else old(log)
    {
      if attachment.Some? {
        log := log + [ForceKill(attachment.value)];
      }
    }

    method Start()
      modifies this
      ensures Abstract() == StartShutdown(old(Abstract()))
    {
      if attachment == None || receivedSignal == None || shutdown != NotStarted {
        return;
      }
      var attached := attachment.value;
      var exitCode := ExitCode(receivedSignal.value);
      if forceKillPending {
        forceKillPending := false;
        KillAttached();
      }
      shutdown := Queued(attached, exitCode);
    }

    /** A signal handler, called while it is registered and the process is alive. */
    method Handle(signal: Signal)
      requires Listening(Abstract())
      modifies this
      ensures Abstract() == Step(old(Abstract()), Signalled(signal))
    {
      if receivedSignal.Some? {
        if attachment.Some? {
          KillAttached();
        } else {
          forceKillPending := true;
        }
        return;
      }
      receivedSignal := Some(signal);
      Start();
    }

    method Attach(nextAttachment: nat)
      requires shutdown != Exited
      modifies this
      ensures Abstract() == Step(old(Abstract()), Attached(nextAttachment))
    {
      if attachment == None {
        attachment := Some(nextAttachment);
      }
      Start();
    }

    method Dispose()
      requires shutdown != Exited
      modifies this
      ensures Abstract() == Step(old(Abstract()), Disposed)
    {
      armed := false;
    }

    /** The first callback of the shutdown promise. */
    method CallStop()
      requires shutdown.Queued?
      modifies this
      ensures Abstract() == Step(old(Abstract()), StopCallback)
    {
      log := log + [Stop(shutdown.attachment)];
      shutdown := Stopping(shutdown.code);
    }

    /** The final callback, after stop has resolved or rejected. */
    method Finish()
      requires shutdown.Stopping?
      modifies this
      ensures Abstract() == Step(old(Abstract()), StopSettled)
    {
      var exitCode := shutdown.code;
      Dispose();
      log := log + [Exit(exitCode)];
      shutdown := Exited;
    }
  }

  // ---- what a history of events asks for ----

  /** Whether the k-th event is a signal that reaches a handler. */
  predicate IsHandled(events: seq<Event>, k: nat)
    requires k < |events|
  {
    events[k].Signalled? && Listening(Run(events, k))
  }

  /** The handled signals among the first k events, in order. */
  function Handled(events: seq<Event>, k: nat): seq<Signal>
    requires k <= |events|
  {
    if k == 0 then []
    else Handled(events, k - 1) + if IsHandled(events, k - 1) then [events[k - 1].signal] else []
  }

  function FirstAttachment(events: seq<Event>, k: nat): Option<nat>
    requires k <= |events|
  {
    if k == 0 then None
    else
      var before := FirstAttachment(events, k - 1);
      if before.Some? then before
      else if events[k - 1].Attached? then Some(events[k - 1].attachment)
      else None
  }

  /** The handled signals after the first one that come before (or after) the first attach. */
  function Escalations(events: seq<Event>, k: nat, attached: bool): nat
    requires k <= |events|
  {
    if k == 0 then 0
    else
      Escalations(events, k - 1, attached)
      + if IsHandled(events, k - 1) && Handled(events, k - 1) != [] && FirstAttachment(events, k - 1).Some? == attached then 1 else 0
  }

  datatype EffectKind = Kills | Stops | Exits

  function KindOf(e: Effect): EffectKind {
    match e case ForceKill(_) => Kills case Stop(_) => Stops case Exit(_) => Exits
  }

  function Count(log: seq<Effect>, kind: EffectKind): nat {
    if log == [] then 0 else Count(log[..|log| - 1], kind) + if KindOf(log[|log| - 1]) == kind then 1 else 0
  }

  /** A log with the given numbers of effects, all on the given attachment, beginning with a force
      kill if escalations came early. */
  ghost predicate HasShape(log: seq<Effect>, attachment: Option<nat>, early: bool, kills: nat, stops: nat, exits: nat) {
    && Count(log, Kills) == kills && Count(log, Stops) == stops && Count(log, Exits) == exits
    && (forall i :: 0 <= i < |log| && !log[i].Exit? ==> Some(log[i].attachment) == attachment)
    && (early ==> log != [] && log[0].ForceKill?)
  }

  lemma ShapeOfNothing(attachment: Option<nat>)
    ensures HasShape([], attachment, false, 0, 0, 0)
  {
  }

  lemma ShapeOfKill(a: nat)
    ensures HasShape([ForceKill(a)], Some(a), true, 1, 0, 0)
  {
    assert [ForceKill(a)][..0] == [];
  }

  lemma ShapeGrows(log: seq<Effect>, attachment: Option<nat>, early: bool, kills: nat, stops: nat, exits: nat, e: Effect)
    requires HasShape(log, attachment, early, kills, stops, exits)
    requires e.Exit? || Some(e.attachment) == attachment
    ensures HasShape(log + [e], attachment, early, kills + if e.ForceKill? then 1 else 0,
                     stops + if e.Stop? then 1 else 0, exits + if e.Exit? then 1 else 0)
  {
    assert (log + [e])[..|log|] == log;
  }

  /** What the fields are for a history without a shutdown: nothing has been done yet. */
  ghost predicate IsWaiting(s: State, handled: seq<Signal>, attachment: Option<nat>, before: nat, after: nat) {
    && (handled == [] || attachment == None)
    && s.shutdown == NotStarted && s.log == [] && after == 0
    && s.forceKillPending == (before > 0)
    && (handled == [] ==> before == 0)
  }

  /** And with one: escalations from before the attach were coalesced into one force kill, ahead of
      everything else; there is one for each escalation after the attach; the exit comes last. */
  ghost predicate IsShuttingDown(s: State, handled: seq<Signal>, attachment: Option<nat>, before: nat, after: nat) {
    && handled != [] && attachment != None
    && s.shutdown != NotStarted && !s.forceKillPending
    && HasShape(s.log, attachment, before > 0, after + (if before > 0 then 1 else 0),
                if s.shutdown.Queued? then 0 else 1, if s.shutdown == Exited then 1 else 0)
    && (s.shutdown.Queued? ==> Some(s.shutdown.attachment) == attachment && s.shutdown.code == ExitCode(handled[0]))
    && (s.shutdown.Stopping? ==> s.shutdown.code == ExitCode(handled[0]))
    && (s.shutdown == Exited ==> s.log != [] && s.log[|s.log| - 1] == Exit(ExitCode(handled[0])))
  }

  ghost predicate LogIsExact(s: State, handled: seq<Signal>, attachment: Option<nat>, before: nat, after: nat) {
    && s.attachment == attachment
    && s.receivedSignal == (if handled == [] then None else Some(handled[0]))
    && (IsWaiting(s, handled, attachment, before, after) || IsShuttingDown(s, handled, attachment, before, after))
  }

  /** Starting the shutdown issues the one coalesced force kill, if one is pending. */
  lemma StartIsExact(s: State, handled: seq<Signal>, a: nat, before: nat)
    requires handled != [] && s.attachment == Some(a) && s.receivedSignal == Some(handled[0])
    requires s.shutdown == NotStarted && s.log == [] && s.forceKillPending == (before > 0)
    ensures LogIsExact(StartShutdown(s), handled, Some(a), before, 0)
  {
    hide HasShape;
    ShapeOfNothing(Some(a));
    ShapeOfKill(a);
    assert [] + [ForceKill(a)] == [ForceKill(a)];
    assert IsShuttingDown(StartShutdown(s), handled, Some(a), before, 0);
  }

  /** How an event changes the history. */
  function HandledBy(s: State, e: Event): seq<Signal> {
    if e.Signalled? && Listening(s) then [e.signal] else []
  }

  function AttachedBy(attachment: Option<nat>, e: Event): Option<nat> {
    if attachment.Some? then attachment else if e.Attached? then Some(e.attachment) else None
  }

  lemma StepIsExact(s: State, e: Event, handled: seq<Signal>, attachment: Option<nat>, before: nat, after: nat)
    requires LogIsExact(s, handled, attachment, before, after)
    ensures var escalates := HandledBy(s, e) != [] && handled != [];
            LogIsExact(Step(s, e), handled + HandledBy(s, e), AttachedBy(attachment, e),
                       before + if escalates && attachment == None then 1 else 0,
                       after + if escalates && attachment != None then 1 else 0)
  {
    if e.Signalled? && Listening(s) {
      SignalIsExact(s, e.signal, handled, attachment, before, after);
    } else {
      assert handled + [] == handled;
      OtherIsExact(s, e, handled, attachment, before, after);
    }
  }

  lemma OtherIsExact(s: State, e: Event, handled: seq<Signal>, attachment: Option<nat>, before: nat, after: nat)
    requires LogIsExact(s, handled, attachment, before, after) && HandledBy(s, e) == []
    ensures LogIsExact(Step(s, e), handled, AttachedBy(attachment, e), before, after)
  {
    hide HasShape;
    if s.shutdown != Exited {
      if e.Attached? && attachment == None && handled != [] {
        StartIsExact(s.(attachment := Some(e.attachment)), handled, e.attachment, before);
      } else if e.StopCallback? && s.shutdown.Queued? {
        ShapeGrows(s.log, attachment, before > 0, after + (if before > 0 then 1 else 0), 0, 0, Stop(s.shutdown.attachment));
        assert IsShuttingDown(Step(s, e), handled, attachment, before, after);
      } else if e.StopSettled? && s.shutdown.Stopping? {
        ShapeGrows(s.log, attachment, before > 0, after + (if before > 0 then 1 else 0), 1, 0, Exit(s.shutdown.code));
        assert IsShuttingDown(Step(s, e), handled, attachment, before, after);
      }
    }
  }

  lemma SignalIsExact(s: State, signal: Signal, handled: seq<Signal>, attachment: Option<nat>, before: nat, after: nat)
    requires LogIsExact(s, handled, attachment, before, after) && Listening(s)
    ensures LogIsExact(Step(s, Signalled(signal)), handled + [signal], attachment,
                       before + if handled != [] && attachment == None then 1 else 0,
                       after + if handled != [] && attachment != None then 1 else 0)
  {
    hide HasShape;
    if handled == [] {
      if attachment != None {
        StartIsExact(s.(receivedSignal := Some(signal)), [] + [signal], attachment.value, before);
      }
    } else if attachment != None {
      ShapeGrows(s.log, attachment, before > 0, after + (if before > 0 then 1 else 0), if s.shutdown.Queued? then 0 else 1, 0,
                 ForceKill(attachment.value));
      assert IsShuttingDown(Step(s, Signalled(signal)), handled + [signal], attachment, before, after + 1);
    }
  }

  /** After any events in any order, the log is exactly what the history asks for. */
  lemma {:induction false} HistoryIsExact(events: seq<Event>, k: nat)
    requires k <= |events|
    ensures LogIsExact(Run(events, k), Handled(events, k), FirstAttachment(events, k),
                       Escalations(events, k, false), Escalations(events, k, true))
  {
    if k > 0 {
      hide LogIsExact;
      HistoryIsExact(events, k - 1);
      StepIsExact(Run(events, k - 1), events[k - 1], Handled(events, k - 1), FirstAttachment(events, k - 1),
                  Escalations(events, k - 1, false), Escalations(events, k - 1, true));
    } else {
      NothingYet();
    }
  }

  lemma NothingYet()
    ensures LogIsExact(INITIAL, [], None, 0, 0)
  {
  }

  /** Stop is called at most once, the process exits at most once and only after that, and the exit
      code is the first handled signal's. */
  lemma StopsAndExitsOnce(events: seq<Event>, k: nat)
    requires k <= |events|
    ensures var log := Run(events, k).log;
            && Count(log, Exits) <= Count(log, Stops) <= 1
            && (Count(log, Exits) == 1 ==> Handled(events, k) != [] && log[|log| - 1] == Exit(ExitCode(Handled(events, k)[0])))
  {
    hide Run, Handled, Escalations, FirstAttachment;
    HistoryIsExact(events, k);
    ShapeOfNothing(None);
  }

  /** A signal is never lost: once one was handled and something is attached, in either order, the
      shutdown is under way; and without a signal nothing is ever done. */
  lemma SignalIsNeverLost(events: seq<Event>, k: nat)
    requires k <= |events|
    ensures Run(events, k).shutdown != NotStarted <==> Handled(events, k) != [] && FirstAttachment(events, k) != None
    ensures Run(events, k).shutdown == NotStarted ==> Run(events, k).log == []
  {
    hide Run, Handled, Escalations, FirstAttachment;
    HistoryIsExact(events, k);
  }

  /** Escalations before the attach coalesce into one force kill, the first effect of all; each one
      after it gives exactly one; and all effects go to the first attachment. */
  lemma EscalationsAreCounted(events: seq<Event>, k: nat)
    requires k <= |events| && FirstAttachment(events, k) != None
    ensures var log, early := Run(events, k).log, Escalations(events, k, false);
            && Count(log, Kills) == Escalations(events, k, true) + (if early > 0 then 1 else 0)
            && (early > 0 ==> log != [] && log[0].ForceKill?)
            && forall i :: 0 <= i < |log| && !log[i].Exit? ==> Some(log[i].attachment) == FirstAttachment(events, k)
  {
    hide Run, Handled, Escalations, FirstAttachment;
    HistoryIsExact(events, k);
    ShapeOfNothing(None);
  }

  /** A signal reaches a handler exactly until dispose is called or the process exits. */
  lemma {:induction false} ListeningExactly(events: seq<Event>, k: nat)
    requires k <= |events|
    ensures Listening(Run(events, k)) <==> Disposed !in events[..k] && Run(events, k).shutdown != Exited
    ensures Run(events, k).shutdown != Exited ==> Run(events, k).armed == (Disposed !in events[..k])
  {
    if k > 0 {
      ListeningExactly(events, k - 1);
      assert events[..k] == events[..k - 1] + [events[k - 1]];
    }
  }

  function Progress(shutdown: Shutdown): nat {
    match shutdown case NotStarted => 0 case Queued(_, _) => 1 case Stopping(_) => 2 case Exited => 3
  }

  lemma {:induction false} ProgressGrows(events: seq<Event>, i: nat, k: nat)
    requires i <= k <= |events|
    ensures Progress(Run(events, i).shutdown) <= Progress(Run(events, k).shutdown)
    decreases k
  {
    if i < k {
      ProgressGrows(events, i, k - 1);
    }
  }

  /** A shutdown under way completes: after the queued callback and the settling of stop the process has
      exited with the first handled signal's code, whatever else happens in between or afterwards. */
  lemma ShutdownCompletes(events: seq<Event>, i: nat, j: nat, k: nat)
    requires i < j < k <= |events| && events[i] == StopCallback && events[j] == StopSettled
    requires Handled(events, i) != [] && FirstAttachment(events, i) != None
    ensures Run(events, k).shutdown == Exited
    ensures var log := Run(events, k).log; Handled(events, k) != [] && log != [] && log[|log| - 1] == Exit(ExitCode(Handled(events, k)[0]))
  {
    hide Run, Handled, FirstAttachment, Escalations, HasShape;
    SignalIsNeverLost(events, i);
    ProgressSteps(events, i);
    ProgressGrows(events, i + 1, j);
    ProgressSteps(events, j);
    ProgressGrows(events, j + 1, k);
    HistoryIsExact(events, k);
  }

  lemma ProgressSteps(events: seq<Event>, i: nat)
    requires i < |events|
    ensures var before, after := Progress(Run(events, i).shutdown), Progress(Run(events, i + 1).shutdown);
            && (events[i] == StopCallback && before >= 1 ==> after >= 2)
            && (events[i] == StopSettled && before >= 2 ==> after == 3)
  {
  }
}
