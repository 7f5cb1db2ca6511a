/**
 * The vault and mail streams of `LocalApiClient` (dashboard/src/api/client.ts): no resume point,
 * every failure of a response is swallowed, and the delay starts over only after a connection that
 * has delivered something.
 */
module WatchStream {
  import opened JsText
  import opened EventStream
  import DurableStream
  import DurableStreamLaws

  /** What the stream does with a decoded event: skip it, hand it out, or throw. */
  datatype Use = Skip | HandOut | Refuse

  datatype Read =
    | Chunk(text: string, pending: string, aborted: bool)
    | Done(aborted: bool)
    | Broken(aborted: bool)

  datatype Attempt =
    | OpenFails(aborted: bool, waitAborted: bool)
    | Refused(status: nat, aborted: bool, waitAborted: bool)
    | Bodiless
    | Body(aborted: bool, steps: seq<Read>, waitAborted: bool)

  datatype Op = Open | Deliver(event: Event) | Wait(milliseconds: nat)

  datatype Outcome = Pending | Returned | Failed(status: nat) | Unreadable | AbortReason

  const INITIAL_RETRY: nat := 750

  datatype Watcher = Watcher(rt: Runtime, use: Event -> Use, server: nat -> Attempt)

  // ----- one response

  /** The state inside one response; `failed` once something was thrown inside the `try`. */
  datatype Connection = Connection(trace: seq<Op>, delivered: bool, buffer: string, pending: string, failed: bool)

  /** `accept`: hand out the events of a batch up to the first that is refused. */
  function Accept(w: Watcher, c: Connection, events: seq<Event>): Connection
    decreases |events|
  {
    if events == [] then c
    else
      match w.use(events[0])
      case Skip => Accept(w, c, events[1..])
      case HandOut => Accept(w, c.(trace := c.trace + [Deliver(events[0])], delivered := true), events[1..])
      case Refuse => c.(failed := true)
  }

  function Feed(w: Watcher, c: Connection, text: string): Connection {
    var d := Drain(w.rt, c.buffer + text);
    var c' := c.(buffer := d.rest);
    if d.fault.Some? then c'.(failed := true) else Accept(w, c', d.events)
  }

  function Flush(w: Watcher, c: Connection): Connection {
    match FlushOutcome(w.rt, c.buffer)
    case Error(_) => c.(buffer := "", failed := true)
    case Events(events) => Accept(w, c.(buffer := ""), events)
  }

  function Close(w: Watcher, c: Connection): Connection {
    var c' := Feed(w, c, c.pending);
    if c'.failed then c' else Flush(w, c')
  }

  datatype Stop = Hung(c: Connection) | Quit(c: Connection) | Over(c: Connection, aborted: bool)

  /** The `catch` around a response: an error after an abort ends the stream, any other is dropped. */
  function Caught(c: Connection, aborted: bool): Stop {
    if c.failed && aborted then Quit(c) else Over(c, aborted)
  }

  function ReadBody(w: Watcher, c: Connection, aborted: bool, steps: seq<Read>): Stop
    decreases |steps|
  {
    if aborted then Caught(Close(w, c), true)
    else if steps == [] then Hung(c)
    else
      match steps[0]
      case Done(nowAborted) => Caught(Close(w, c), nowAborted)
      case Broken(nowAborted) => Caught(c.(failed := true), nowAborted)
      case Chunk(text, pending, nowAborted) =>
        var c' := Feed(w, c.(pending := pending), text);
        if c'.failed then Caught(c', nowAborted) else ReadBody(w, c', nowAborted, steps[1..])
  }

  // ----- one attempt after another

  datatype Session = Session(retry: nat, trace: seq<Op>)

  datatype Turn = Ends(outcome: Outcome, s: Session) | Pauses(s: Session, waitAborted: bool)

  function Attempted(w: Watcher, s: Session, attempt: Attempt): Turn {
    match attempt
    case OpenFails(aborted, waitAborted) => if aborted then Ends(Returned, s) else Pauses(s, waitAborted)
    case Refused(status, aborted, waitAborted) =>
      if status !in DurableStream.TRANSIENT_STATUSES then Ends(Failed(status), s)
      else if aborted then Ends(AbortReason, s)
      else Pauses(s, waitAborted)
    case Bodiless => Ends(Unreadable, s)
    case Body(aborted, steps, waitAborted) =>
      match ReadBody(w, Connection(s.trace, false, "", "", false), aborted, steps)
      case Hung(c) => Ends(Pending, Session(s.retry, c.trace))
      case Quit(c) => Ends(Returned, Session(s.retry, c.trace))
      case Over(c, nowAborted) =>
        var s' := Session(if c.delivered then INITIAL_RETRY else s.retry, c.trace);
        if nowAborted then Ends(Returned, s') else Pauses(s', waitAborted)
  }

  function Backed(s: Session): Session {
    Session(DurableStream.Min(DurableStream.MAX_RETRY, s.retry * 2), s.trace + [Wait(s.retry)])
  }

  function Run(w: Watcher, i: nat, horizon: nat, s: Session): (Outcome, Session)
    requires i <= horizon
    decreases horizon - i
  {
    if i == horizon then (Pending, s)
    else
      match Attempted(w, Session(s.retry, s.trace + [Open]), w.server(i))
      case Ends(outcome, s') => (outcome, s')
      case Pauses(s', waitAborted) =>
        if waitAborted then (AbortReason, Backed(s')) else Run(w, i + 1, horizon, Backed(s'))
  }

  // ----- the code

  lemma AcceptStep(w: Watcher, c: Connection, events: seq<Event>, k: nat)
    requires k < |events|
    ensures Accept(w, c, events[k..]) ==
      match w.use(events[k])
      case Skip => Accept(w, c, events[k + 1..])
      case HandOut => Accept(w, c.(trace := c.trace + [Deliver(events[k])], delivered := true), events[k + 1..])
      case Refuse => c.(failed := true)
  {
    assert events[k..][1..] == events[k + 1..];
  }

  /** The `accept` closure of a stream. */
  method AcceptAll(w: Watcher, ghost c: Connection, events: seq<Event>, trace0: seq<Op>, delivered0: bool)
    returns (trace: seq<Op>, delivered: bool, refused: bool)
    requires c.trace == trace0 && c.delivered == delivered0 && !c.failed
    ensures Accept(w, c, events) == c.(trace := trace, delivered := delivered, failed := refused)
  {
    trace, delivered := trace0, delivered0;
    assert events[0..] == events;
    for k := 0 to |events|
      invariant Accept(w, c, events)
             == Accept(w, c.(trace := trace, delivered := delivered), events[k..])
    {
      AcceptStep(w, c.(trace := trace, delivered := delivered), events, k);
      var use := w.use(events[k]);
      match use {
        case Skip =>
        case HandOut =>
          delivered := true;
          trace := trace + [Deliver(events[k])];
        case Refuse =>
          return trace, delivered, true;
      }
    }
    return trace, delivered, false;
  }

  ghost function Now(decoder: EventStreamDecoder, trace: seq<Op>, delivered: bool, pending: string, failed: bool): Connection
    reads decoder
  {
    Connection(trace, delivered, decoder.buffer, pending, failed)
  }

  method PushText(w: Watcher, decoder: EventStreamDecoder, text: string, trace0: seq<Op>, delivered0: bool, ghost pending: string)
    returns (trace: seq<Op>, delivered: bool, failed: bool)
    modifies decoder
    ensures Now(decoder, trace, delivered, pending, failed)
         == Feed(w, old(Now(decoder, trace0, delivered0, pending, false)), text)
  {
    hide Accept, Drain;
    var result := decoder.Push(w.rt, text);
    if result.Error? {
      return trace0, delivered0, true;
    }
    trace, delivered, failed :=
      AcceptAll(w, Now(decoder, trace0, delivered0, pending, false), result.events, trace0, delivered0);
  }

  method CloseBody(w: Watcher, decoder: EventStreamDecoder, pending: string, trace0: seq<Op>, delivered0: bool)
    returns (trace: seq<Op>, delivered: bool, failed: bool)
    modifies decoder
    ensures Now(decoder, trace, delivered, pending, failed)
         == Close(w, old(Now(decoder, trace0, delivered0, pending, false)))
  {
    hide Accept, Feed, FlushOutcome;
    trace, delivered, failed := PushText(w, decoder, pending, trace0, delivered0, pending);
    if failed {
      return;
    }
    var result := decoder.Finish(w.rt);
    if result.Error? {
      return trace, delivered, true;
    }
    trace, delivered, failed :=
      AcceptAll(w, Now(decoder, trace, delivered, pending, false), result.events, trace, delivered);
  }

  /** The read loop of one response, inside its `try`; `hung` if the stream is still open. */
  method ReadResponse(w: Watcher, aborted0: bool, steps: seq<Read>, trace0: seq<Op>)
    returns (hung: bool, failed: bool, aborted: bool, delivered: bool, trace: seq<Op>, ghost last: Connection)
    ensures last.trace == trace && last.delivered == delivered && last.failed == failed
    ensures ReadBody(w, Connection(trace0, false, "", "", false), aborted0, steps)
         == if hung then Hung(last) else Caught(last, aborted)
  {
    hide Feed, Close;
    var decoder := new EventStreamDecoder();
    var pending, k := "", 0;
    hung, failed, aborted, delivered, trace := false, false, aborted0, false, trace0;
    ghost var goal := ReadBody(w, Now(decoder, trace, delivered, pending, false), aborted0, steps);
    while !aborted
      invariant k <= |steps| && !failed && !hung
      invariant goal == ReadBody(w, Now(decoder, trace, delivered, pending, false), aborted, steps[k..])
      decreases |steps| - k
    {
      if k == |steps| {
        last := Now(decoder, trace, delivered, pending, false);
        return true, false, aborted, delivered, trace, last;
      }
      var step := steps[k];
      assert steps[k..][0] == step && steps[k..][1..] == steps[k + 1..];
      k := k + 1;
      match step {
        case Done(nowAborted) =>
          trace, delivered, failed := CloseBody(w, decoder, pending, trace, delivered);
          last := Now(decoder, trace, delivered, pending, failed);
          return false, failed, nowAborted, delivered, trace, last;
        case Broken(nowAborted) =>
          last := Now(decoder, trace, delivered, pending, true);
          return false, true, nowAborted, delivered, trace, last;
        case Chunk(text, pending', nowAborted) =>
          pending := pending';
          trace, delivered, failed := PushText(w, decoder, text, trace, delivered, pending);
          aborted := nowAborted;
          if failed {
            last := Now(decoder, trace, delivered, pending, true);
            return false, true, aborted, delivered, trace, last;
          }
      }
    }
    trace, delivered, failed := CloseBody(w, decoder, pending, trace, delivered);
    last := Now(decoder, trace, delivered, pending, failed);
  }

  /** `streamVaultEvents` and `streamMail`, observed for at most `horizon` fetches. */
  method Watch(w: Watcher, horizon: nat) returns (outcome: Outcome, trace: seq<Op>)
    ensures var (outcome', s) := Run(w, 0, horizon, Session(INITIAL_RETRY, [])); outcome == outcome' && trace == s.trace
  {
    hide ReadBody;
    var retryDelay: nat, i: nat := 750, 0;
    trace := [];
    ghost var goal := Run(w, 0, horizon, Session(retryDelay, trace));
    while true
      invariant i <= horizon
      invariant goal == Run(w, i, horizon, Session(retryDelay, trace))
      decreases horizon - i
    {
      if i == horizon {
        return Pending, trace;
      }
      trace := trace + [Open];
      var attempt := w.server(i);
      i := i + 1;
      var waitAborted;
      match attempt {
        case OpenFails(aborted, waitAborted') =>
          if aborted {
            return Returned, trace;
          }
          waitAborted := waitAborted';
        case Refused(status, aborted, waitAborted') =>
          if status !in DurableStream.TRANSIENT_STATUSES {
            return Failed(status), trace;
          }
          if aborted {
            return AbortReason, trace;
          }
          waitAborted := waitAborted';
        case Bodiless =>
          return Unreadable, trace;
        case Body(aborted0, steps, waitAborted') =>
          var hung, failed, aborted, delivered;
          ghost var last;
          hung, failed, aborted, delivered, trace, last := ReadResponse(w, aborted0, steps, trace);
          if hung {
            return Pending, trace;
          }
          if failed && aborted {
            return Returned, trace;
          }
          if delivered {
            retryDelay := 750;
          }
          if aborted {
            return Returned, trace;
          }
          waitAborted := waitAborted';
      }
      trace := trace + [Wait(retryDelay)];
      retryDelay := DurableStream.Min(15_000, retryDelay * 2);
      if waitAborted {
        return AbortReason, trace;
      }
    }
  }

  // ----- the law of the delays

  /** The waits since the last event that was handed out. */
  function WaitsSinceDelivery(trace: seq<Op>): nat {
    if trace == [] then 0
    else
      match trace[|trace| - 1]
      case Open => WaitsSinceDelivery(trace[..|trace| - 1])
      case Deliver(_) => 0
      case Wait(_) => WaitsSinceDelivery(trace[..|trace| - 1]) + 1
  }

  ghost predicate WaitsFollowBackoff(trace: seq<Op>) {
    forall k | 0 <= k < |trace| && trace[k].Wait? ::
      trace[k].milliseconds == DurableStreamLaws.Backoff(750, WaitsSinceDelivery(trace[..k]))
  }

  ghost predicate OnSchedule(s: Session) {
    && WaitsFollowBackoff(s.trace)
    && s.retry == DurableStreamLaws.Backoff(INITIAL_RETRY, WaitsSinceDelivery(s.trace))
  }

  lemma AppendOp(trace: seq<Op>, op: Op)
    requires WaitsFollowBackoff(trace)
    requires op.Wait? ==> op.milliseconds == DurableStreamLaws.Backoff(INITIAL_RETRY, WaitsSinceDelivery(trace))
    ensures WaitsFollowBackoff(trace + [op])
    ensures WaitsSinceDelivery(trace + [op])
         == if op.Wait? then WaitsSinceDelivery(trace) + 1 else if op.Deliver? then 0 else WaitsSinceDelivery(trace)
  {
    var t := trace + [op];
    assert t[..|trace|] == trace;
    assert WaitsSinceDelivery(t) == if op.Wait? then WaitsSinceDelivery(trace) + 1
                                    else if op.Deliver? then 0 else WaitsSinceDelivery(trace);
    hide WaitsSinceDelivery, DurableStreamLaws.Backoff;
    forall k | 0 <= k < |t| && t[k].Wait?
      ensures t[k].milliseconds == DurableStreamLaws.Backoff(INITIAL_RETRY, WaitsSinceDelivery(t[..k]))
    {
      assert t[..k] == trace[..k];
      assert trace[..|trace|] == trace;
    }
  }

  /** A response keeps the law, and `delivered` tells whether the count has started over. */
  ghost predicate Grows(c: Connection, c': Connection) {
    && (WaitsFollowBackoff(c.trace) ==> WaitsFollowBackoff(c'.trace))
    && (c.delivered ==> c'.delivered)
    && (c'.delivered && !c.delivered ==> WaitsSinceDelivery(c'.trace) == 0)
    && (c'.delivered && c.delivered && WaitsSinceDelivery(c.trace) == 0 ==> WaitsSinceDelivery(c'.trace) == 0)
    && (!c'.delivered ==> c'.trace == c.trace)
  }

  lemma {:induction false} AcceptGrows(w: Watcher, c: Connection, events: seq<Event>)
    ensures Grows(c, Accept(w, c, events))
    decreases |events|
  {
    if events != [] {
      match w.use(events[0])
      case Skip => AcceptGrows(w, c, events[1..]);
      case HandOut =>
        var c1 := c.(trace := c.trace + [Deliver(events[0])], delivered := true);
        if WaitsFollowBackoff(c.trace) {
          AppendOp(c.trace, Deliver(events[0]));
        }
        assert c1.trace[..|c.trace|] == c.trace;
        assert WaitsSinceDelivery(c1.trace) == 0;
        hide WaitsFollowBackoff, WaitsSinceDelivery;
        AcceptGrows(w, c1, events[1..]);
      case Refuse =>
    }
  }

  lemma FeedGrows(w: Watcher, c: Connection, text: string)
    ensures Grows(c, Feed(w, c, text))
  {
    hide WaitsFollowBackoff, WaitsSinceDelivery, Drain, Accept;
    var d := Drain(w.rt, c.buffer + text);
    AcceptGrows(w, c.(buffer := d.rest), d.events);
  }

  lemma CloseGrows(w: Watcher, c: Connection)
    ensures Grows(c, Close(w, c))
  {
    hide WaitsFollowBackoff, WaitsSinceDelivery, FlushOutcome, Feed, Accept;
    FeedGrows(w, c, c.pending);
    var c' := Feed(w, c, c.pending);
    if FlushOutcome(w.rt, c'.buffer).Events? {
      AcceptGrows(w, c'.(buffer := ""), FlushOutcome(w.rt, c'.buffer).events);
    }
  }

  lemma {:induction false} BodyGrows(w: Watcher, c: Connection, aborted: bool, steps: seq<Read>)
    ensures Grows(c, ReadBody(w, c, aborted, steps).c)
    decreases |steps|
  {
    hide WaitsFollowBackoff, WaitsSinceDelivery, Feed, Close;
    CloseGrows(w, c);
    if !aborted && steps != [] && steps[0].Chunk? {
      var c0 := c.(pending := steps[0].pending);
      FeedGrows(w, c0, steps[0].text);
      BodyGrows(w, Feed(w, c0, steps[0].text), steps[0].aborted, steps[1..]);
    }
  }

  /**
   * The m-th wait since the last event that was handed out (m counted from 0) lasts min(15000, 750 *
   * 2^m): a connection that opens, or even sends comments or unknown events, does not start it over.
   */
  lemma {:induction false} DelaysFollowDeliveries(w: Watcher, i: nat, horizon: nat, s: Session)
    requires i <= horizon && OnSchedule(s)
    ensures var (_, s') := Run(w, i, horizon, s); WaitsFollowBackoff(s'.trace)
    decreases horizon - i
  {
    hide WaitsFollowBackoff, WaitsSinceDelivery, DurableStreamLaws.Backoff, Attempted;
    if i < horizon {
      AttemptOnSchedule(w, s, w.server(i));
      var turn := Attempted(w, Session(s.retry, s.trace + [Open]), w.server(i));
      if turn.Pauses? {
        AppendOp(turn.s.trace, Wait(turn.s.retry));
        DurableStreamLaws.BackoffDoubles(INITIAL_RETRY, WaitsSinceDelivery(turn.s.trace));
        if !turn.waitAborted {
          DelaysFollowDeliveries(w, i + 1, horizon, Backed(turn.s));
        }
      }
    }
  }

  lemma AttemptOnSchedule(w: Watcher, s: Session, attempt: Attempt)
    requires OnSchedule(s)
    ensures var turn := Attempted(w, Session(s.retry, s.trace + [Open]), attempt);
      WaitsFollowBackoff(turn.s.trace) && (turn.Pauses? ==> OnSchedule(turn.s))
  {
    hide WaitsFollowBackoff, WaitsSinceDelivery, ReadBody;
    AppendOp(s.trace, Open);
    if attempt.Body? {
      BodyGrows(w, Connection(s.trace + [Open], false, "", "", false), attempt.aborted, attempt.steps);
      assert DurableStreamLaws.Backoff(INITIAL_RETRY, 0) == INITIAL_RETRY;
    }
  }

  /** The law holds of every call. */
  lemma EveryWatchIsOnSchedule(w: Watcher, horizon: nat)
    ensures var (_, s) := Run(w, 0, horizon, Session(INITIAL_RETRY, [])); WaitsFollowBackoff(s.trace)
  {
    DelaysFollowDeliveries(w, 0, horizon, Session(INITIAL_RETRY, []));
  }

  // ----- what ends the stream

  /** A signal that is aborted stays aborted, up to the wait behind the response. */
  predicate StaysAborted(aborted: bool, steps: seq<Read>, last: bool)
    decreases |steps|
  {
    if steps == [] then aborted ==> last
    else (aborted ==> steps[0].aborted) && StaysAborted(steps[0].aborted, steps[1..], last)
  }

  /** The flags of an attempt are those of one abort signal. */
  predicate OneSignal(attempt: Attempt) {
    match attempt
    case OpenFails(aborted, waitAborted) => aborted ==> waitAborted
    case Refused(_, aborted, waitAborted) => aborted ==> waitAborted
    case Bodiless => true
    case Body(aborted, steps, waitAborted) => StaysAborted(aborted, steps, waitAborted)
  }

  /** The response stays open and sends nothing more. */
  predicate Hangs(w: Watcher, attempt: Attempt) {
    attempt.Body? && ReadBody(w, Connection([], false, "", "", false), attempt.aborted, attempt.steps).Hung?
  }

  /** No body, a status that is not transient, or an abort before the next attempt. */
  predicate IsLast(attempt: Attempt) {
    match attempt
    case OpenFails(_, waitAborted) => waitAborted
    case Refused(status, _, waitAborted) => status !in {408, 425, 429, 500, 502, 503, 504} || waitAborted
    case Bodiless => true
    case Body(_, _, waitAborted) => waitAborted
  }

  lemma {:induction false} AbortLasts(aborted: bool, steps: seq<Read>, last: bool)
    requires StaysAborted(aborted, steps, last) && aborted
    ensures last
    decreases |steps|
  {
    if steps != [] {
      AbortLasts(steps[0].aborted, steps[1..], last);
    }
  }

  /** A response is left for good only after an abort. */
  lemma {:induction false} BodyEndsByAbort(w: Watcher, c: Connection, aborted: bool, steps: seq<Read>, last: bool)
    requires StaysAborted(aborted, steps, last)
    ensures var stop := ReadBody(w, c, aborted, steps); stop.Quit? || (stop.Over? && stop.aborted) ==> last
    decreases |steps|
  {
    hide Feed, Close;
    if aborted {
      AbortLasts(aborted, steps, last);
    } else if steps != [] {
      if steps[0].aborted {
        AbortLasts(steps[0].aborted, steps[1..], last);
      }
      if steps[0].Chunk? {
        BodyEndsByAbort(w, Feed(w, c.(pending := steps[0].pending), steps[0].text), steps[0].aborted, steps[1..], last);
      }
    }
  }

  /** Two states that read the rest of a response alike. */
  ghost predicate Alike(c: Connection, d: Connection) {
    c.buffer == d.buffer && c.pending == d.pending && c.failed == d.failed
  }

  lemma {:induction false} AcceptAlike(w: Watcher, c: Connection, d: Connection, events: seq<Event>)
    requires Alike(c, d)
    ensures Alike(Accept(w, c, events), Accept(w, d, events))
    decreases |events|
  {
    if events != [] {
      match w.use(events[0])
      case Skip => AcceptAlike(w, c, d, events[1..]);
      case HandOut =>
        AcceptAlike(w, c.(trace := c.trace + [Deliver(events[0])], delivered := true),
                    d.(trace := d.trace + [Deliver(events[0])], delivered := true), events[1..]);
      case Refuse =>
    }
  }

  lemma {:induction false} HungAlike(w: Watcher, c: Connection, d: Connection, aborted: bool, steps: seq<Read>)
    requires Alike(c, d)
    ensures ReadBody(w, c, aborted, steps).Hung? <==> ReadBody(w, d, aborted, steps).Hung?
    decreases |steps|
  {
    hide Accept, Drain, Close;
    if !aborted && steps != [] && steps[0].Chunk? {
      var c0, d0 := c.(pending := steps[0].pending), d.(pending := steps[0].pending);
      var drained := Drain(w.rt, c.buffer + steps[0].text);
      AcceptAlike(w, c0.(buffer := drained.rest), d0.(buffer := drained.rest), drained.events);
      HungAlike(w, Feed(w, c0, steps[0].text), Feed(w, d0, steps[0].text), steps[0].aborted, steps[1..]);
    }
  }

  /** One attempt: it hangs, or it is the last, or the stream goes on. */
  lemma AttemptGoesOn(w: Watcher, s: Session, attempt: Attempt)
    requires OneSignal(attempt)
    ensures var turn := Attempted(w, s, attempt);
      if Hangs(w, attempt) then turn.Ends? && turn.outcome == Pending
      else if IsLast(attempt) then (turn.Ends? && turn.outcome != Pending) || (turn.Pauses? && turn.waitAborted)
      else turn.Pauses? && !turn.waitAborted
  {
    hide ReadBody;
    if attempt.Body? {
      var c := Connection(s.trace, false, "", "", false);
      HungAlike(w, c, Connection([], false, "", "", false), attempt.aborted, attempt.steps);
      BodyEndsByAbort(w, c, attempt.aborted, attempt.steps, attempt.waitAborted);
    }
  }

  /** Attempt k is the last, and none before it from the i-th on was, or hangs. */
  ghost predicate EndsAt(w: Watcher, i: nat, k: nat) {
    && i <= k && IsLast(w.server(k)) && !Hangs(w, w.server(k))
    && forall j: nat | i <= j < k :: !IsLast(w.server(j)) && !Hangs(w, w.server(j))
  }

  ghost predicate EndsBefore(w: Watcher, i: nat, horizon: nat) {
    exists k: nat | k < horizon :: EndsAt(w, i, k)
  }

  /**
   * Nothing that a response contains ends the stream, not even a malformed frame or an event that is
   * refused: whatever mix of failed opens, refusals and responses comes, it ends exactly if an
   * attempt is answered without a body or with a status that is not transient, or if it is aborted,
   * and no response before that stays open without a word.
   */
  lemma {:induction false} OnlyTheServerEndsIt(w: Watcher, i: nat, horizon: nat, s: Session)
    requires i <= horizon
    requires forall k: nat | i <= k < horizon :: OneSignal(w.server(k))
    ensures Run(w, i, horizon, s).0 != Pending <==> EndsBefore(w, i, horizon)
    decreases horizon - i
  {
    hide Attempted, IsLast, Hangs, OneSignal;
    if i < horizon {
      var attempt := w.server(i);
      var s1 := Session(s.retry, s.trace + [Open]);
      AttemptGoesOn(w, s1, attempt);
      var turn := Attempted(w, s1, attempt);
      if IsLast(attempt) && !Hangs(w, attempt) {
        assert EndsAt(w, i, i);
      } else if !IsLast(attempt) && !Hangs(w, attempt) {
        OnlyTheServerEndsIt(w, i + 1, horizon, Backed(turn.s));
        EndsLater(w, i, i + 1, horizon);
      } else {
        assert forall k: nat :: EndsAt(w, i, k) ==> !Hangs(w, w.server(i));
      }
    }
  }

  lemma EndsLater(w: Watcher, i: nat, next: nat, horizon: nat)
    requires next == i + 1 && !IsLast(w.server(i)) && !Hangs(w, w.server(i))
    ensures EndsBefore(w, i, horizon) <==> EndsBefore(w, next, horizon)
  {
    hide IsLast, Hangs;
    forall k: nat
      ensures EndsAt(w, i, k) <==> EndsAt(w, next, k)
    {
      assert EndsAt(w, i, k) ==> k != i;
    }
  }
}
