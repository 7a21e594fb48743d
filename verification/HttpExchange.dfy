/** The benchmark's HTTP request: whichever of its events comes first settles it, and nothing
    settles it again. Response, socket and timer events may come in any order. */
module HttpExchange {
  import opened Sequences

  newtype byte = x: int | 0 <= x < 256

  const MAX_HTTP_BODY_BYTES: nat := 1024 * 1024

  datatype Reason = BodyTooLarge | ResponseAborted | ResponseFailed | RequestFailed | TimedOut

  datatype Event = Data(chunk: seq<byte>) | Aborted | ResponseError | RequestError | Timer | End

  /** What the request does to the outside. */
  datatype Effect = ClearTimer | Destroy | Reject(reason: Reason) | Resolve(body: seq<byte>)

  datatype State = State(settled: bool, chunks: seq<seq<byte>>, bytes: nat, log: seq<Effect>)

  const INITIAL := State(false, [], 0, [])

  function Fail(s: State, reason: Reason): State {
    if s.settled then s
    else s.(settled := true, log := s.log + [ClearTimer, Destroy, Reject(reason)])
  }

  function Step(s: State, e: Event): State {
    match e
    case Data(chunk) =>
      var counted := s.(bytes := s.bytes + |chunk|);
      if counted.bytes > MAX_HTTP_BODY_BYTES then Fail(counted, BodyTooLarge)
      else counted.(chunks := counted.chunks + [chunk])
    case Aborted => Fail(s, ResponseAborted)
    case ResponseError => Fail(s, ResponseFailed)
    case RequestError => Fail(s, RequestFailed)
    case Timer => Fail(s, TimedOut)
    case End =>
      if s.settled then s
      else s.(settled := true, log := s.log + [ClearTimer, Resolve(Flatten(s.chunks))])
  }

  function Run(events: seq<Event>, k: nat): State
    requires k <= |events|
  {
    if k == 0 then INITIAL else Step(Run(events, k - 1), events[k - 1])
  }

  class Exchange {
    var settled: bool
    var chunks: seq<seq<byte>>
    var bytes: nat
    var log: seq<Effect>

    function Abstract(): State
      reads this
    {
      State(settled, chunks, bytes, log)
    }

    constructor ()
      ensures Abstract() == INITIAL
    {
      settled, chunks, bytes, log := false, [], 0, [];
    }

    /** Runs its callback, given by its effects, unless the request is settled already. */
    method Settle(run: seq<Effect>)
      modifies this`settled, this`log
      ensures settled
      ensures log == if old(settled) then old(log) else old(log) + [ClearTimer] + run
    {
      if settled {
        return;
      }
      settled := true;
      log := log + [ClearTimer] + run;
    }

    method Handle(e: Event)
      modifies this
      ensures Abstract() == Step(old(Abstract()), e)
    {
      match e
      case Data(chunk) =>
        bytes := bytes + |chunk|;
        if bytes > MAX_HTTP_BODY_BYTES {
          Settle([Destroy, Reject(BodyTooLarge)]);
          return;
        }
        chunks := chunks + [chunk];
      case Aborted => Settle([Destroy, Reject(ResponseAborted)]);
      case ResponseError => Settle([Destroy, Reject(ResponseFailed)]);
      case RequestError => Settle([Destroy, Reject(RequestFailed)]);
      case Timer => Settle([Destroy, Reject(TimedOut)]);
      case End => Settle([Resolve(Flatten(chunks))]);
    }
  }

  // ---- what decides the outcome ----

  /** The bytes received by the first k events, in order. */
  function Received(events: seq<Event>, k: nat): seq<byte>
    requires k <= |events|
  {
    if k == 0 then []
    else Received(events, k - 1) + if events[k - 1].Data? then events[k - 1].chunk else []
  }

  /** The k-th event can settle the request: it is no data, or the data exceeds the limit. */
  predicate Settles(events: seq<Event>, k: nat)
    requires k < |events|
  {
    events[k].Data? ==> |Received(events, k + 1)| > MAX_HTTP_BODY_BYTES
  }

  ghost predicate IsFirstSettling(events: seq<Event>, k: nat) {
    k < |events| && Settles(events, k) && forall i :: 0 <= i < k ==> !Settles(events, i)
  }

  /** The outcome that belongs to the deciding event. */
  function Outcome(events: seq<Event>, k: nat): seq<Effect>
    requires k < |events|
  {
    match events[k]
    case Data(_) => [ClearTimer, Destroy, Reject(BodyTooLarge)]
    case Aborted => [ClearTimer, Destroy, Reject(ResponseAborted)]
    case ResponseError => [ClearTimer, Destroy, Reject(ResponseFailed)]
    case RequestError => [ClearTimer, Destroy, Reject(RequestFailed)]
    case Timer => [ClearTimer, Destroy, Reject(TimedOut)]
    case End => [ClearTimer, Resolve(Received(events, k))]
  }

  lemma {:induction false} UnsettledState(events: seq<Event>, n: nat)
    requires n <= |events| && forall i :: 0 <= i < n ==> !Settles(events, i)
    ensures var s := Run(events, n); !s.settled && s.log == [] && Flatten(s.chunks) == Received(events, n)
    ensures Run(events, n).bytes == |Received(events, n)| <= MAX_HTTP_BODY_BYTES
  {
    if n > 0 {
      UnsettledState(events, n - 1);
      assert !Settles(events, n - 1);
      FlattenAppend(Run(events, n - 1).chunks, [events[n - 1].chunk]);
    }
  }

  /** Until an event settles the request nothing is done; the first one that does decides the outcome,
      and whatever comes after it changes nothing. */
  lemma {:induction false} FirstEventDecides(events: seq<Event>, n: nat, k: nat)
    requires IsFirstSettling(events, k) && n <= |events|
    ensures Run(events, n).log == if n <= k then [] else Outcome(events, k)
    ensures Run(events, n).settled <==> k < n
  {
    if n <= k {
      UnsettledState(events, n);
    } else if n == k + 1 {
      UnsettledState(events, k);
    } else {
      FirstEventDecides(events, n - 1, k);
    }
  }

  /** Event k settles the request first, is the end of the response, and body is what was received by then. */
  ghost predicate EndsWith(events: seq<Event>, k: nat, body: seq<byte>) {
    IsFirstSettling(events, k) && events[k] == End && body == Received(events, k)
  }

  /** The request resolves exactly when the response ends before anything else settles it, and then
      with every byte received before the end, never more than the limit. */
  lemma ResolvesExactly(events: seq<Event>, body: seq<byte>)
    ensures Resolve(body) in Run(events, |events|).log <==> exists k: nat :: EndsWith(events, k, body)
    ensures Resolve(body) in Run(events, |events|).log ==> |body| <= MAX_HTTP_BODY_BYTES
  {
    hide Run, Received, Settles;
    if k: nat :| k < |events| && Settles(events, k) {
      var first := FirstSettling(events, k);
      FirstEventDecides(events, |events|, first);
      UnsettledState(events, first);
      assert Resolve(body) in Outcome(events, first) <==> EndsWith(events, first, body);
    } else {
      UnsettledState(events, |events|);
    }
  }

  lemma {:induction false} FirstSettling(events: seq<Event>, k: nat) returns (first: nat)
    requires k < |events| && Settles(events, k)
    ensures IsFirstSettling(events, first)
    decreases k
  {
    if i: nat :| i < k && Settles(events, i) {
      first := FirstSettling(events, i);
    } else {
      first := k;
    }
  }
}
