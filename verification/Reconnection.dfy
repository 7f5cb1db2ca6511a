/**
 * When a call of the reconnecting reader ends, and that it goes on trying otherwise: told from what
 * the environment does and from the whole text of a response, whatever its chunks.
 */
module Reconnection {
  import opened JsText
  import opened EventStream
  import opened EventCursors
  import opened DurableStream
  import opened DurableStreamLaws
  import opened ExactlyOnce

  // ----- one response, as a text

  /** What stops the reading of a response, and the text that has arrived by then. */
  datatype Leaving =
    | Closes(at: string, pending: string, aborted: bool)
    | Spoilt(aborted: bool, fault: Fault)
    | Breaks(at: string, transport: bool, aborted: bool)
    | StaysOpen

  /** One of the events is new to the cursor and of a terminal type. */
  ghost predicate BringsTerminal(types: set<string>, c0: Cursor, events: seq<Event>) {
    exists e | e in Accept(c0, events).accepted :: e.kind in types
  }

  ghost function Leave(rt: Runtime, types: set<string>, c0: Cursor, arrived: string, pending: string, aborted: bool, steps: seq<Read>)
    : Leaving
    decreases |steps|
  {
    if aborted || BringsTerminal(types, c0, Drain(rt, arrived).events) then Closes(arrived, pending, aborted)
    else if steps == [] then StaysOpen
    else
      match steps[0]
      case Done(nowAborted) => Closes(arrived, pending, nowAborted)
      case Broken(transport, nowAborted) => Breaks(arrived, transport, nowAborted)
      case Chunk(text, nowPending, nowAborted) =>
        var d := Drain(rt, arrived + text);
        if d.fault.Some? then Spoilt(nowAborted, d.fault.value)
        else Leave(rt, types, c0, arrived + text, nowPending, nowAborted, steps[1..])
  }

  ghost function LeaveOf(rt: Runtime, types: set<string>, c0: Cursor, attempt: Attempt): Leaving
    requires attempt.Body?
  {
    Leave(rt, types, c0, "", "", attempt.aborted, attempt.steps)
  }

  /** The connection has read `arrived`, in whatever pieces, from a cursor in state c0. */
  ghost predicate HasRead(rt: Runtime, types: set<string>, c0: Cursor, arrived: string, c: Connection) {
    var d := Drain(rt, arrived);
    && d.fault == None && c.buffer == d.rest
    && c.cursor == Accept(c0, d.events).cursor
    && (c.terminal <==> BringsTerminal(types, c0, d.events))
  }

  lemma TerminalAppend(types: set<string>, c0: Cursor, a: seq<Event>, b: seq<Event>)
    ensures BringsTerminal(types, c0, a + b)
       <==> BringsTerminal(types, c0, a) || HasTerminal(types, Accept(Accept(c0, a).cursor, b).accepted)
  {
    AcceptAppend(c0, a, b);
    hide Accept;
    var first := Accept(c0, a);
    var second := Accept(first.cursor, b);
    assert forall e :: e in first.accepted + second.accepted <==> e in first.accepted || e in second.accepted;
  }

  lemma HandAppends(types: set<string>, c0: Cursor, a: seq<Event>, c: Connection, b: seq<Event>)
    requires c.cursor == Accept(c0, a).cursor && (c.terminal <==> BringsTerminal(types, c0, a))
    ensures var c' := Hand(types, c, b);
      && c'.cursor == Accept(c0, a + b).cursor && (c'.terminal <==> BringsTerminal(types, c0, a + b))
      && c'.buffer == c.buffer && c'.pending == c.pending
  {
    TerminalAppend(types, c0, a, b);
    AcceptAppend(c0, a, b);
    hide Accept, BringsTerminal, HasTerminal;
  }

  /** A chunk: an error of the text up to its end, or one more piece read. */
  lemma FeedReads(rt: Runtime, types: set<string>, c0: Cursor, arrived: string, c: Connection, text: string)
    requires HasRead(rt, types, c0, arrived, c)
    ensures var fed, d := Feed(rt, types, c, text), Drain(rt, arrived + text);
      && (fed.Thrown? <==> d.fault.Some?)
      && (fed.Thrown? ==> d.fault == Some(fed.fault))
      && (fed.Fed? ==> HasRead(rt, types, c0, arrived + text, fed.c) && fed.c.pending == c.pending)
  {
    hide Drain, Accept, BringsTerminal, Hand;
    DrainAppend(rt, arrived, text);
    var d, e := Drain(rt, arrived), Drain(rt, c.buffer + text);
    HandAppends(types, c0, d.events, c.(buffer := e.rest), e.events);
  }

  /** Closing a response that has sent `arrived` in all is decoding that text as a whole. */
  lemma CloseReads(rt: Runtime, types: set<string>, c0: Cursor, arrived: string, c: Connection)
    requires HasRead(rt, types, c0, arrived, c)
    ensures var closed, whole := Close(rt, types, c), WholeOutcome(rt, arrived + c.pending);
      && (closed.Thrown? <==> whole.Error?)
      && (closed.Thrown? ==> closed.fault == whole.fault)
      && (closed.Fed? ==>
            && closed.c.cursor == Accept(c0, whole.events).cursor
            && (closed.c.terminal <==> BringsTerminal(types, c0, whole.events)))
  {
    FeedReads(rt, types, c0, arrived, c, c.pending);
    hide Drain, Accept, BringsTerminal, Hand, FlushOutcome;
    var fed, d := Feed(rt, types, c, c.pending), Drain(rt, arrived + c.pending);
    if fed.Fed? && FlushOutcome(rt, d.rest).Events? {
      HandAppends(types, c0, d.events, fed.c.(buffer := ""), FlushOutcome(rt, d.rest).events);
    }
  }

  /** How reading a response stops, for every way of cutting it into chunks. */
  lemma {:induction false} BodyLeaves(rt: Runtime, types: set<string>, c0: Cursor, arrived: string, c: Connection,
                                      aborted: bool, steps: seq<Read>)
    requires HasRead(rt, types, c0, arrived, c)
    ensures var stop, leaving := ReadBody(rt, types, c, aborted, steps), Leave(rt, types, c0, arrived, c.pending, aborted, steps);
      match leaving
      case StaysOpen => stop.Hung?
      case Spoilt(nowAborted, fault) =>
        if nowAborted then stop.Quit? else stop.Rejected? && stop.failure == InvalidEvent(fault)
      case Breaks(at, transport, nowAborted) =>
        if nowAborted then stop.Quit?
        else if !transport then stop.Rejected? && stop.failure == ReadError
        else
          && stop.Over? && !stop.aborted && !stop.c.terminal
          && stop.c.cursor == Accept(c0, Drain(rt, at).events).cursor
      case Closes(at, pending, nowAborted) =>
        var whole := WholeOutcome(rt, at + pending);
        if whole.Error? then stop.Rejected? && stop.failure == InvalidEvent(whole.fault)
        else
          && stop.Over? && stop.aborted == nowAborted
          && (stop.c.terminal <==> BringsTerminal(types, c0, whole.events))
          && stop.c.cursor == Accept(c0, whole.events).cursor
    decreases |steps|
  {
    hide Drain, Accept, BringsTerminal, Feed, Close, WholeOutcome;
    if aborted || c.terminal || (steps != [] && steps[0].Done?) {
      CloseReads(rt, types, c0, arrived, c);
    } else if steps != [] && steps[0].Chunk? {
      var c1 := c.(pending := steps[0].pending);
      FeedReads(rt, types, c0, arrived, c1, steps[0].text);
      var fed := Feed(rt, types, c1, steps[0].text);
      if fed.Fed? {
        BodyLeaves(rt, types, c0, arrived + steps[0].text, fed.c, steps[0].aborted, steps[1..]);
      }
    }
  }

  // ----- one attempt

  /** The response stays open and nothing more comes. */
  ghost predicate Stays(rt: Runtime, o: Options, c0: Cursor, attempt: Attempt) {
    attempt.Body? && LeaveOf(rt, o.terminalTypes, c0, attempt).StaysOpen?
  }

  /**
   * The causes that end a call: a failure to open or to read that is not the transport's, a status
   * that is not transient, no body, an abort, a terminal event, an error in the events.
   */
  ghost predicate EndsCall(rt: Runtime, o: Options, c0: Cursor, attempt: Attempt) {
    match attempt
    case OpenFails(transport, aborted, waitAborted) => !transport || aborted || waitAborted
    case Refused(status, aborted, waitAborted) =>
      status !in {408, 425, 429, 500, 502, 503, 504} || aborted || waitAborted
    case Bodiless => true
    case Body(_, _, waitAborted) =>
      match LeaveOf(rt, o.terminalTypes, c0, attempt)
      case StaysOpen => false
      case Spoilt(_, _) => true
      case Breaks(_, transport, aborted) => !transport || aborted || waitAborted
      case Closes(at, pending, aborted) =>
        var whole := WholeOutcome(rt, at + pending);
        whole.Error? || aborted || waitAborted || BringsTerminal(o.terminalTypes, c0, whole.events)
  }

  /** What the call comes to then. */
  ghost function Verdict(rt: Runtime, o: Options, c0: Cursor, attempt: Attempt): Outcome {
    match attempt
    case OpenFails(transport, aborted, _) =>
      if aborted then Returned else if !transport then Failed(OpenError) else Failed(AbortReason)
    case Refused(status, _, _) =>
      if status !in {408, 425, 429, 500, 502, 503, 504} then Failed(StatusError(status)) else Failed(AbortReason)
    case Bodiless => Failed(Unreadable)
    case Body(_, _, _) =>
      match LeaveOf(rt, o.terminalTypes, c0, attempt)
      case StaysOpen => Pending
      case Spoilt(aborted, fault) => if aborted then Returned else Failed(InvalidEvent(fault))
      case Breaks(_, transport, aborted) =>
        if aborted then Returned else if !transport then Failed(ReadError) else Failed(AbortReason)
      case Closes(at, pending, aborted) =>
        var whole := WholeOutcome(rt, at + pending);
        if whole.Error? then Failed(InvalidEvent(whole.fault))
        else if aborted || BringsTerminal(o.terminalTypes, c0, whole.events) then Returned
        else Failed(AbortReason)
  }

  /** The cursor after an attempt that does not end the call. */
  ghost function CursorAfter(rt: Runtime, o: Options, c0: Cursor, attempt: Attempt): Cursor {
    if !attempt.Body? then c0
    else
      match LeaveOf(rt, o.terminalTypes, c0, attempt)
      case Breaks(at, _, _) => Accept(c0, Drain(rt, at).events).cursor
      case Closes(at, pending, _) =>
        var whole := WholeOutcome(rt, at + pending);
        if whole.Error? then c0 else Accept(c0, whole.events).cursor
      case _ => c0
  }

  lemma AttemptGoesOn(rt: Runtime, o: Options, s: Session, id: nat, attempt: Attempt)
    requires !s.terminal
    ensures var turn := Attempted(rt, o, Observe(s, Open(id)), attempt);
      if Stays(rt, o, s.cursor, attempt) then turn.Ends? && turn.outcome == Pending
      else if EndsCall(rt, o, s.cursor, attempt) then
        var verdict := Verdict(rt, o, s.cursor, attempt);
        && verdict != Pending
        && (if turn.Ends? then turn.outcome == verdict else turn.waitAborted && verdict == Failed(AbortReason))
      else
        && turn.Pauses? && !turn.waitAborted && !turn.s.terminal
        && turn.s.cursor == CursorAfter(rt, o, s.cursor, attempt)
  {
    hide ReadBody, Leave, Drain, Accept, BringsTerminal, WholeOutcome;
    if attempt.Body? {
      var c := Connection(s.cursor, false, s.trace + [Open(id)] + [Connected], "", "");
      StartsReading(rt, o.terminalTypes, c);
      BodyLeaves(rt, o.terminalTypes, s.cursor, "", c, attempt.aborted, attempt.steps);
    }
  }

  lemma StartsReading(rt: Runtime, types: set<string>, c: Connection)
    requires c.buffer == "" && !c.terminal
    ensures HasRead(rt, types, c.cursor, "", c)
  {
    assert Drain(rt, "") == Drained([], "", None);
    AcceptNothing(c.cursor);
  }

  // ----- the whole call

  /** The outcome of a call, told from the environment and the cursor it starts with. */
  ghost function Fate(rt: Runtime, o: Options, server: Server, i: nat, horizon: nat, cursor: Cursor): Outcome
    requires i <= horizon
    decreases horizon - i
  {
    if i == horizon then Pending
    else
      var attempt := server(i, Max(o.after, cursor.position));
      if Stays(rt, o, cursor, attempt) then Pending
      else if EndsCall(rt, o, cursor, attempt) then Verdict(rt, o, cursor, attempt)
      else Fate(rt, o, server, i + 1, horizon, CursorAfter(rt, o, cursor, attempt))
  }

  /** Some attempt before the horizon ends the call, and none before it stays open. */
  ghost predicate EndsWithin(rt: Runtime, o: Options, server: Server, i: nat, horizon: nat, cursor: Cursor)
    requires i <= horizon
    decreases horizon - i
  {
    && i < horizon
    && var attempt := server(i, Max(o.after, cursor.position));
    && !Stays(rt, o, cursor, attempt)
    && (EndsCall(rt, o, cursor, attempt)
        || EndsWithin(rt, o, server, i + 1, horizon, CursorAfter(rt, o, cursor, attempt)))
  }

  /** Some attempt before the horizon stays open, and none before it ends the call. */
  ghost predicate StaysWithin(rt: Runtime, o: Options, server: Server, i: nat, horizon: nat, cursor: Cursor)
    requires i <= horizon
    decreases horizon - i
  {
    && i < horizon
    && var attempt := server(i, Max(o.after, cursor.position));
       Stays(rt, o, cursor, attempt)
       || (!EndsCall(rt, o, cursor, attempt)
           && StaysWithin(rt, o, server, i + 1, horizon, CursorAfter(rt, o, cursor, attempt)))
  }

  /**
   * Against any server a call ends exactly if one of the causes comes, and with the outcome that the
   * cause has. A connection that is lost while it opens or while it is read, a transient status and
   * a response that ends are none of them.
   */
  lemma {:induction false} EndsExactlyWhen(rt: Runtime, o: Options, server: Server, i: nat, horizon: nat, s: Session)
    requires i <= horizon && !s.terminal
    ensures var (outcome, _) := Run(rt, o, server, i, horizon, s);
      && outcome == Fate(rt, o, server, i, horizon, s.cursor)
      && (outcome != Pending <==> EndsWithin(rt, o, server, i, horizon, s.cursor))
    decreases horizon - i
  {
    hide Attempted, Stays, EndsCall, Verdict, CursorAfter;
    if i < horizon {
      var id := Position(o, s);
      AttemptGoesOn(rt, o, s, id, server(i, id));
      var turn := Attempted(rt, o, Observe(s, Open(id)), server(i, id));
      if turn.Pauses? && !turn.waitAborted {
        EndsExactlyWhen(rt, o, server, i + 1, horizon, Backed(turn.s));
      }
    }
  }

  // ----- what it does meanwhile

  /** An operation follows on the one before it. */
  predicate FollowsOn(trace: seq<Op>, k: nat)
    requires k < |trace|
  {
    match trace[k]
    case Open(_) => k == 0 || trace[k - 1].Wait?
    case Connected => k > 0 && trace[k - 1].Open?
    case Deliver(_) => k > 0 && (trace[k - 1].Connected? || trace[k - 1].Deliver?)
    case Wait(_) => k > 0 && !trace[k - 1].Wait?
  }

  ghost predicate InStep(trace: seq<Op>) {
    forall k | 0 <= k < |trace| :: FollowsOn(trace, k)
  }

  /** Nothing is under way: a call that starts, or one that has just waited. */
  predicate Rested(trace: seq<Op>) {
    trace == [] || trace[|trace| - 1].Wait?
  }

  lemma InStepAppend(trace: seq<Op>, op: Op)
    requires InStep(trace) && FollowsOn(trace + [op], |trace|)
    ensures InStep(trace + [op])
  {
    var t := trace + [op];
    forall k | 0 <= k < |t| ensures FollowsOn(t, k) {
      if k < |trace| {
        assert FollowsOn(trace, k);
      }
    }
  }

  lemma {:induction false} InStepDeliveries(trace: seq<Op>, events: seq<Event>)
    requires InStep(trace) && trace != [] && trace[|trace| - 1].Connected?
    ensures var t := trace + Deliveries(events);
      InStep(t) && t != [] && (t[|t| - 1].Connected? || t[|t| - 1].Deliver?)
  {
    hide FollowsOn;
    if events == [] {
      assert trace + Deliveries(events) == trace;
    } else {
      var init, last := events[..|events| - 1], events[|events| - 1];
      InStepDeliveries(trace, init);
      var t := trace + Deliveries(init);
      assert trace + Deliveries(events) == t + [Deliver(last)];
      DeliverFollows(t, last);
      InStepAppend(t, Deliver(last));
    }
  }

  lemma DeliverFollows(t: seq<Op>, e: Event)
    requires t != [] && (t[|t| - 1].Connected? || t[|t| - 1].Deliver?)
    ensures FollowsOn(t + [Deliver(e)], |t|)
  {
  }

  lemma OpenInStep(trace: seq<Op>, id: nat)
    requires InStep(trace) && Rested(trace)
    ensures InStep(trace + [Open(id)])
  {
    hide InStep;
    InStepAppend(trace, Open(id));
  }

  lemma ConnectedInStep(trace: seq<Op>)
    requires InStep(trace) && trace != [] && trace[|trace| - 1].Open?
    ensures InStep(trace + [Connected])
  {
    hide InStep;
    InStepAppend(trace, Connected);
  }

  lemma WaitInStep(trace: seq<Op>, milliseconds: nat)
    requires InStep(trace) && trace != [] && !trace[|trace| - 1].Wait?
    ensures InStep(trace + [Wait(milliseconds)])
  {
    hide InStep;
    InStepAppend(trace, Wait(milliseconds));
  }

  lemma ResponseInStep(rt: Runtime, types: set<string>, trace: seq<Op>, cursor: Cursor, aborted: bool, steps: seq<Read>)
    requires InStep(trace) && trace != [] && trace[|trace| - 1].Open?
    ensures var c := Connection(cursor, false, trace + [Connected], "", "");
      var t := ReadBody(rt, types, c, aborted, steps).c.trace;
      InStep(t) && t != [] && !t[|t| - 1].Wait? && OpenIds(t) == OpenIds(trace)
  {
    hide ReadBody, InStep, OpenIds, Delivered, Deliveries, FollowsOn, Extends, HasTerminal;
    var c := Connection(cursor, false, trace + [Connected], "", "");
    ConnectedInStep(trace);
    DeliveredAppendOp(trace, Connected);
    var events := BodyDelivers(rt, types, c, aborted, steps);
    InStepDeliveries(c.trace, events);
    DeliveredAppend(c.trace, events);
  }

  lemma AttemptInStep(rt: Runtime, o: Options, s: Session, id: nat, attempt: Attempt)
    requires InStep(s.trace) && Rested(s.trace)
    ensures var t := Attempted(rt, o, Observe(s, Open(id)), attempt).s.trace;
      && InStep(t) && t != [] && !t[|t| - 1].Wait?
      && OpenIds(t) == OpenIds(s.trace) + [id]
  {
    hide ReadBody, InStep, OpenIds, Delivered;
    OpenInStep(s.trace, id);
    DeliveredAppendOp(s.trace, Open(id));
    if attempt.Body? {
      ResponseInStep(rt, o.terminalTypes, s.trace + [Open(id)], s.cursor, attempt.aborted, attempt.steps);
    }
  }

  /**
   * A call that neither ends nor hangs makes all its attempts: one open each, and a wait behind each
   * of them before the next. At any time opens, connections, deliveries and waits come in turn.
   */
  lemma {:induction false} KeepsTrying(rt: Runtime, o: Options, server: Server, i: nat, horizon: nat, s: Session)
    requires i <= horizon && !s.terminal && InStep(s.trace) && Rested(s.trace)
    ensures var (_, s') := Run(rt, o, server, i, horizon, s);
      && InStep(s'.trace)
      && (!EndsWithin(rt, o, server, i, horizon, s.cursor) && !StaysWithin(rt, o, server, i, horizon, s.cursor) ==>
            Rested(s'.trace) && |OpenIds(s'.trace)| == |OpenIds(s.trace)| + (horizon - i))
    decreases horizon - i
  {
    hide Attempted, Stays, EndsCall, CursorAfter, InStep, OpenIds, Delivered;
    if i < horizon {
      var id := Position(o, s);
      AttemptGoesOn(rt, o, s, id, server(i, id));
      AttemptInStep(rt, o, s, id, server(i, id));
      var turn := Attempted(rt, o, Observe(s, Open(id)), server(i, id));
      if turn.Pauses? {
        DeliveredAppendOp(turn.s.trace, Wait(turn.s.retry));
        WaitInStep(turn.s.trace, turn.s.retry);
        if !turn.waitAborted {
          KeepsTrying(rt, o, server, i + 1, horizon, Backed(turn.s));
        }
      }
    }
  }

  /** Both for a whole call. */
  lemma CallEndsExactlyWhen(rt: Runtime, o: Options, server: Server, horizon: nat, cursor: Cursor)
    ensures var (outcome, s) := Run(rt, o, server, 0, horizon, Start(o, cursor));
      && outcome == Fate(rt, o, server, 0, horizon, cursor)
      && (outcome != Pending <==> EndsWithin(rt, o, server, 0, horizon, cursor))
      && InStep(s.trace)
      && (outcome == Pending && !StaysWithin(rt, o, server, 0, horizon, cursor) ==>
            Rested(s.trace) && |OpenIds(s.trace)| == horizon)
  {
    EndsExactlyWhen(rt, o, server, 0, horizon, Start(o, cursor));
    KeepsTrying(rt, o, server, 0, horizon, Start(o, cursor));
  }

  // ----- a network that is down

  /** An attempt that the transport loses, while it opens, with a transient status, or before any text. */
  predicate IsLost(attempt: Attempt) {
    match attempt
    case OpenFails(transport, aborted, waitAborted) => transport && !aborted && !waitAborted
    case Refused(status, aborted, waitAborted) =>
      status in {408, 425, 429, 500, 502, 503, 504} && !aborted && !waitAborted
    case Bodiless => false
    case Body(aborted, steps, waitAborted) => !aborted && LostBeforeText(steps) && !waitAborted
  }

  predicate LostBeforeText(steps: seq<Read>)
    decreases |steps|
  {
    && steps != []
    && match steps[0]
       case Chunk(text, _, aborted) => text == "" && !aborted && LostBeforeText(steps[1..])
       case Done(_) => false
       case Broken(transport, aborted) => transport && !aborted
  }

  lemma {:induction false} NothingBeforeLoss(rt: Runtime, types: set<string>, c0: Cursor, pending: string, steps: seq<Read>)
    requires LostBeforeText(steps)
    ensures Leave(rt, types, c0, "", pending, false, steps) == Breaks("", true, false)
    decreases |steps|
  {
    assert Drain(rt, "") == Drained([], "", None);
    AcceptNothing(c0);
    if steps[0].Chunk? {
      assert "" + steps[0].text == "";
      NothingBeforeLoss(rt, types, c0, steps[0].pending, steps[1..]);
    }
  }

  lemma LostGoesOn(rt: Runtime, o: Options, c0: Cursor, attempt: Attempt)
    requires IsLost(attempt)
    ensures !Stays(rt, o, c0, attempt) && !EndsCall(rt, o, c0, attempt)
  {
    hide Leave;
    if attempt.Body? {
      NothingBeforeLoss(rt, o.terminalTypes, c0, "", attempt.steps);
    }
  }

  lemma {:induction false} LostNeverEnds(rt: Runtime, o: Options, server: Server, i: nat, horizon: nat, cursor: Cursor)
    requires i <= horizon
    requires forall k: nat, n: nat :: IsLost(server(k, n))
    ensures !EndsWithin(rt, o, server, i, horizon, cursor) && !StaysWithin(rt, o, server, i, horizon, cursor)
    decreases horizon - i
  {
    hide IsLost, Stays, EndsCall, CursorAfter;
    if i < horizon {
      var attempt := server(i, Max(o.after, cursor.position));
      LostGoesOn(rt, o, cursor, attempt);
      LostNeverEnds(rt, o, server, i + 1, horizon, CursorAfter(rt, o, cursor, attempt));
    }
  }

  /** While the network is down the reader neither gives up nor fails: it opens again, as often as it is observed. */
  lemma LostNetworkIsRetried(rt: Runtime, o: Options, server: Server, horizon: nat, cursor: Cursor)
    requires forall k: nat, n: nat :: IsLost(server(k, n))
    ensures var (outcome, s) := Run(rt, o, server, 0, horizon, Start(o, cursor));
      outcome == Pending && |OpenIds(s.trace)| == horizon
  {
    hide Run, IsLost;
    LostNeverEnds(rt, o, server, 0, horizon, cursor);
    CallEndsExactlyWhen(rt, o, server, horizon, cursor);
  }
}
