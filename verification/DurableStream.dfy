/**
 * The reconnecting reader of dashboard/src/api/reconnectable-stream.ts.
 *
 * The environment is a function: it answers the i-th `open`, made with a given Last-Event-ID, with
 * an attempt. Every await point of an attempt says whether the signal is aborted once it is over.
 * What the reader does is a list of operations in the order in which they happen.
 */
module DurableStream {
  import opened JsText
  import opened EventStream
  import opened EventCursors

  /**
   * One `reader.read()`. A chunk carries the text it decodes to, and the text that the byte decoder
   * would flush if the stream stopped after it.
   */
  datatype Read =
    | Chunk(text: string, pending: string, aborted: bool)
    | Done(aborted: bool)
    | Broken(transport: bool, aborted: bool)

  datatype Attempt =
    | OpenFails(transport: bool, aborted: bool, waitAborted: bool)
    | Refused(status: nat, aborted: bool, waitAborted: bool)
    | Bodiless
    | Body(aborted: bool, steps: seq<Read>, waitAborted: bool)

  type Server = (nat, nat) -> Attempt

  datatype Op = Open(lastEventId: nat) | Connected | Deliver(event: Event) | Wait(milliseconds: nat)

  datatype Failure =
    | OpenError
    | StatusError(status: nat)
    | Unreadable
    | ReadError
    | InvalidEvent(fault: Fault)
    | AbortReason

  /** The state of the promise: still pending, resolved, or rejected. */
  datatype Outcome = Pending | Returned | Failed(failure: Failure)

  const TRANSIENT_STATUSES: set<nat> := {408, 425, 429, 500, 502, 503, 504}

  const MAX_RETRY: nat := 15_000

  function Min(a: nat, b: nat): nat {
    if a < b then a else b
  }

  datatype Options = Options(after: nat, terminalTypes: set<string>, initialRetryMs: nat)

  // ----- one response

  datatype Connection =
    Connection(cursor: Cursor, terminal: bool, trace: seq<Op>, buffer: string, pending: string)

  function Deliveries(events: seq<Event>): seq<Op> {
    if events == [] then [] else Deliveries(events[..|events| - 1]) + [Deliver(events[|events| - 1])]
  }

  predicate HasTerminal(types: set<string>, events: seq<Event>) {
    exists e | e in events :: e.kind in types
  }

  /** `deliver`: filter a batch and hand out what is left of it. */
  function Hand(types: set<string>, c: Connection, events: seq<Event>): Connection {
    var a := Accept(c.cursor, events);
    c.(cursor := a.cursor,
       terminal := c.terminal || HasTerminal(types, a.accepted),
       trace := c.trace + Deliveries(a.accepted))
  }

  datatype Fed = Fed(c: Connection) | Thrown(c: Connection, fault: Fault)

  function Feed(rt: Runtime, types: set<string>, c: Connection, text: string): Fed {
    var d := Drain(rt, c.buffer + text);
    var c' := c.(buffer := d.rest);
    if d.fault.Some? then Thrown(c', d.fault.value) else Fed(Hand(types, c', d.events))
  }

  /** After the last read of a response that was not interrupted. */
  function Close(rt: Runtime, types: set<string>, c: Connection): Fed {
    match Feed(rt, types, c, c.pending)
    case Thrown(c', fault) => Thrown(c', fault)
    case Fed(c') =>
      match FlushOutcome(rt, c'.buffer)
      case Error(fault) => Thrown(c'.(buffer := ""), fault)
      case Events(events) => Fed(Hand(types, c'.(buffer := ""), events))
  }

  datatype Stop =
    | Hung(c: Connection)
    | Quit(c: Connection)
    | Rejected(c: Connection, failure: Failure)
    | Over(c: Connection, aborted: bool)

  function Finish(rt: Runtime, types: set<string>, c: Connection, aborted: bool): Stop {
    match Close(rt, types, c)
    case Thrown(c', fault) => Rejected(c', InvalidEvent(fault))
    case Fed(c') => Over(c', aborted)
  }

  function ReadBody(rt: Runtime, types: set<string>, c: Connection, aborted: bool, steps: seq<Read>): Stop
    decreases |steps|
  {
    if aborted || c.terminal then Finish(rt, types, c, aborted)
    else if steps == [] then Hung(c)
    else
      match steps[0]
      case Done(nowAborted) => Finish(rt, types, c, nowAborted)
      case Broken(transport, nowAborted) =>
        if nowAborted then Quit(c)
        else if transport then Over(c, false)
        else Rejected(c, ReadError)
      case Chunk(text, pending, nowAborted) =>
        match Feed(rt, types, c.(pending := pending), text)
        case Thrown(c', fault) => if nowAborted then Quit(c') else Rejected(c', InvalidEvent(fault))
        case Fed(c') => ReadBody(rt, types, c', nowAborted, steps[1..])
  }

  // ----- one attempt after another

  datatype Session = Session(cursor: Cursor, retry: nat, terminal: bool, trace: seq<Op>)

  function Observe(s: Session, op: Op): Session {
    s.(trace := s.trace + [op])
  }

  function AfterConnection(s: Session, c: Connection): Session {
    s.(cursor := c.cursor, terminal := c.terminal, trace := c.trace)
  }

  /** How one attempt ends: the promise settles or hangs, or the reader pauses before the next. */
  datatype Turn = Ends(outcome: Outcome, s: Session) | Pauses(s: Session, waitAborted: bool)

  function Attempted(rt: Runtime, o: Options, s: Session, attempt: Attempt): Turn {
    match attempt
    case OpenFails(transport, aborted, waitAborted) =>
      if aborted then Ends(Returned, s)
      else if !transport then Ends(Failed(OpenError), s)
      else Pauses(s, waitAborted)
    case Refused(status, aborted, waitAborted) =>
      if status !in TRANSIENT_STATUSES then Ends(Failed(StatusError(status)), s)
      else if aborted then Ends(Failed(AbortReason), s)
      else Pauses(s, waitAborted)
    case Bodiless => Ends(Failed(Unreadable), s)
    case Body(aborted, steps, waitAborted) =>
      var s' := Observe(s.(retry := o.initialRetryMs), Connected);
      var c := Connection(s'.cursor, false, s'.trace, "", "");
      match ReadBody(rt, o.terminalTypes, c, aborted, steps)
      case Hung(c') => Ends(Pending, AfterConnection(s', c'))
      case Quit(c') => Ends(Returned, AfterConnection(s', c'))
      case Rejected(c', failure) => Ends(Failed(failure), AfterConnection(s', c'))
      case Over(c', nowAborted) =>
        if nowAborted || c'.terminal then Ends(Returned, AfterConnection(s', c'))
        else Pauses(AfterConnection(s', c'), waitAborted)
  }

  function Backed(s: Session): Session {
    Observe(s.(retry := Min(MAX_RETRY, s.retry * 2)), Wait(s.retry))
  }

  function Position(o: Options, s: Session): nat {
    Max(o.after, s.cursor.position)
  }

  /** The run of the reader from attempt i on, observed for `horizon` attempts in all. */
  function Run(rt: Runtime, o: Options, server: Server, i: nat, horizon: nat, s: Session): (Outcome, Session)
    requires i <= horizon
    decreases horizon - i
  {
    if s.terminal then (Returned, s)
    else if i == horizon then (Pending, s)
    else
      var id := Position(o, s);
      match Attempted(rt, o, Observe(s, Open(id)), server(i, id))
      case Ends(outcome, s') => (outcome, s')
      case Pauses(s', waitAborted) =>
        if waitAborted then (Failed(AbortReason), Backed(s'))
        else Run(rt, o, server, i + 1, horizon, Backed(s'))
  }

  function Start(o: Options, cursor: Cursor): Session {
    Session(cursor, o.initialRetryMs, false, [])
  }

  // ----- the code

  lemma DeliveriesOfPrefix(events: seq<Event>, k: nat)
    requires k < |events|
    ensures Deliveries(events[..k + 1]) == Deliveries(events[..k]) + [Deliver(events[k])]
  {
    assert events[..k + 1][..k] == events[..k];
  }

  /** The `deliver` closure: what it hands out, and whether that held a terminal event. */
  method DeliverAll(cursor: EventCursor, types: set<string>, events: seq<Event>)
    returns (trace: seq<Op>, terminal: bool)
    modifies cursor
    ensures var a := Accept(old(cursor.State()), events);
      && cursor.State() == a.cursor
      && trace == Deliveries(a.accepted)
      && terminal == HasTerminal(types, a.accepted)
  {
    hide Accept;
    trace, terminal := [], false;
    var accepted := cursor.AcceptEvents(events);
    for k := 0 to |accepted|
      invariant cursor.State() == Accept(old(cursor.State()), events).cursor
      invariant trace == Deliveries(accepted[..k])
      invariant terminal == HasTerminal(types, accepted[..k])
    {
      DeliveriesOfPrefix(accepted, k);
      assert accepted[..k + 1] == accepted[..k] + [accepted[k]];
      trace := trace + [Deliver(accepted[k])];
      if accepted[k].kind in types {
        terminal := true;
      }
    }
    assert accepted[..|accepted|] == accepted;
  }

  /** The state of a connection that is being read. */
  ghost function Now(cursor: EventCursor, decoder: EventStreamDecoder, terminal: bool, trace: seq<Op>, pending: string)
    : Connection
    reads cursor, decoder
  {
    Connection(cursor.State(), terminal, trace, decoder.buffer, pending)
  }

  /** `deliver(decoder.push(text))`. */
  method PushText(rt: Runtime, types: set<string>, cursor: EventCursor, decoder: EventStreamDecoder,
                  text: string, terminal: bool, trace: seq<Op>, ghost pending: string)
    returns (fault: Option<Fault>, terminal': bool, trace': seq<Op>)
    modifies cursor, decoder
    ensures var c := Now(cursor, decoder, terminal', trace', pending);
      Feed(rt, types, old(Now(cursor, decoder, terminal, trace, pending)), text)
        == if fault.Some? then Thrown(c, fault.value) else Fed(c)
  {
    hide Accept, Drain, HasTerminal;
    var result := decoder.Push(rt, text);
    if result.Error? {
      return Some(result.fault), terminal, trace;
    }
    var ops, sawTerminal := DeliverAll(cursor, types, result.events);
    return None, terminal || sawTerminal, trace + ops;
  }

  /** The two `deliver` calls after the read loop. */
  method CloseBody(rt: Runtime, types: set<string>, cursor: EventCursor, decoder: EventStreamDecoder,
                   pending: string, terminal: bool, trace: seq<Op>)
    returns (fault: Option<Fault>, terminal': bool, trace': seq<Op>)
    modifies cursor, decoder
    ensures var c := Now(cursor, decoder, terminal', trace', pending);
      Close(rt, types, old(Now(cursor, decoder, terminal, trace, pending)))
        == if fault.Some? then Thrown(c, fault.value) else Fed(c)
  {
    hide Accept, Drain, HasTerminal, FlushOutcome, Feed;
    fault, terminal', trace' := PushText(rt, types, cursor, decoder, pending, terminal, trace, pending);
    if fault.Some? {
      return;
    }
    var result := decoder.Finish(rt);
    if result.Error? {
      return Some(result.fault), terminal', trace';
    }
    var ops, sawTerminal := DeliverAll(cursor, types, result.events);
    return None, terminal' || sawTerminal, trace' + ops;
  }

  /** How the read loop of one response ends. */
  datatype Exit = Suspended | Left | Rejecting(failure: Failure) | Resumable(aborted: bool)

  ghost function StopOf(exit: Exit, c: Connection): Stop {
    match exit
    case Suspended => Hung(c)
    case Left => Quit(c)
    case Rejecting(failure) => Rejected(c, failure)
    case Resumable(aborted) => Over(c, aborted)
  }

  method ReadResponse(rt: Runtime, types: set<string>, cursor: EventCursor, aborted0: bool, steps: seq<Read>, trace0: seq<Op>)
    returns (exit: Exit, terminal: bool, trace: seq<Op>, ghost last: Connection)
    modifies cursor
    ensures last.cursor == cursor.State() && last.terminal == terminal && last.trace == trace
    ensures StopOf(exit, last)
         == ReadBody(rt, types, Connection(old(cursor.State()), false, trace0, "", ""), aborted0, steps)
  {
    hide Feed, Close;
    var decoder := new EventStreamDecoder();
    var pending, interrupted, aborted, k := "", false, aborted0, 0;
    terminal, trace := false, trace0;
    ghost var goal := ReadBody(rt, types, Now(cursor, decoder, terminal, trace, pending), aborted0, steps);
    while !aborted && !terminal
      invariant k <= |steps| && !interrupted
      invariant goal == ReadBody(rt, types, Now(cursor, decoder, terminal, trace, pending), aborted, steps[k..])
      invariant fresh(decoder)
      decreases |steps| - k
    {
      if k == |steps| {
        last := Now(cursor, decoder, terminal, trace, pending);
        return Suspended, terminal, trace, last;
      }
      var step := steps[k];
      assert steps[k..][0] == step && steps[k..][1..] == steps[k + 1..];
      k := k + 1;
      match step {
        case Done(nowAborted) =>
          aborted := nowAborted;
          break;
        case Broken(transport, nowAborted) =>
          last := Now(cursor, decoder, terminal, trace, pending);
          if nowAborted {
            return Left, terminal, trace, last;
          }
          if !transport {
            return Rejecting(ReadError), terminal, trace, last;
          }
          interrupted := true;
          break;
        case Chunk(text, pending', nowAborted) =>
          var fault;
          pending := pending';
          fault, terminal, trace := PushText(rt, types, cursor, decoder, text, terminal, trace, pending);
          if fault.Some? {
            last := Now(cursor, decoder, terminal, trace, pending);
            return if nowAborted then Left else Rejecting(InvalidEvent(fault.value)), terminal, trace, last;
          }
          aborted := nowAborted;
      }
    }
    if !interrupted {
      assert goal == Finish(rt, types, Now(cursor, decoder, terminal, trace, pending), aborted);
      var fault;
      fault, terminal, trace := CloseBody(rt, types, cursor, decoder, pending, terminal, trace);
      if fault.Some? {
        last := Now(cursor, decoder, terminal, trace, pending);
        return Rejecting(InvalidEvent(fault.value)), terminal, trace, last;
      }
    }
    last := Now(cursor, decoder, terminal, trace, pending);
    return Resumable(aborted), terminal, trace, last;
  }

  /** `streamDurableEvents`, observed for at most `horizon` calls of `open`. */
  method StreamDurableEvents(rt: Runtime, options: Options, cursor: EventCursor, server: Server, horizon: nat)
    returns (outcome: Outcome, trace: seq<Op>)
    modifies cursor
    ensures var (outcome', s) := Run(rt, options, server, 0, horizon, Start(options, old(cursor.State())));
      outcome == outcome' && trace == s.trace && cursor.State() == s.cursor
  {
    hide ReadBody, Accept;
    var retryMs, terminal, i := options.initialRetryMs, false, 0;
    trace := [];
    ghost var goal := Run(rt, options, server, 0, horizon, Start(options, cursor.State()));
    while !terminal
      invariant i <= horizon
      invariant goal == Run(rt, options, server, i, horizon, Session(cursor.State(), retryMs, terminal, trace))
      decreases horizon - i
    {
      if i == horizon {
        return Pending, trace;
      }
      var id := Max(options.after, cursor.cursor);
      trace := trace + [Open(id)];
      var attempt := server(i, id);
      i := i + 1;
      var waitAborted := false;
      match attempt {
        case OpenFails(transport, aborted, waitAborted') =>
          if aborted {
            return Returned, trace;
          }
          if !transport {
            return Failed(OpenError), trace;
          }
          waitAborted := waitAborted';
        case Refused(status, aborted, waitAborted') =>
          if status !in TRANSIENT_STATUSES {
            return Failed(StatusError(status)), trace;
          }
          if aborted {
            return Failed(AbortReason), trace;
          }
          waitAborted := waitAborted';
        case Bodiless =>
          return Failed(Unreadable), trace;
        case Body(aborted, steps, waitAborted') =>
          retryMs := options.initialRetryMs;
          trace := trace + [Connected];
          var exit;
          ghost var last;
          exit, terminal, trace, last := ReadResponse(rt, options.terminalTypes, cursor, aborted, steps, trace);
          match exit {
            case Suspended => return Pending, trace;
            case Left => return Returned, trace;
            case Rejecting(failure) => return Failed(failure), trace;
            case Resumable(nowAborted) =>
              if nowAborted || terminal {
                return Returned, trace;
              }
          }
          waitAborted := waitAborted';
      }
      trace := trace + [Wait(retryMs)];
      retryMs := Min(MAX_RETRY, retryMs * 2);
      if waitAborted {
        return Failed(AbortReason), trace;
      }
    }
    return Returned, trace;
  }
}
