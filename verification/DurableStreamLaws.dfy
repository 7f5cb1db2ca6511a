/** What every run of the reconnecting reader does, first against any server, then against an honest one. */
module DurableStreamLaws {
  import opened JsText
  import opened EventStream
  import opened EventCursors
  import opened EventWire
  import opened DurableStream

  // ----- any server: backoff and termination

  function Pow2(m: nat): nat {
    if m == 0 then 1 else 2 * Pow2(m - 1)
  }

  /** The m-th wait since the last successful open. */
  function Backoff(initial: nat, m: nat): nat {
    if m == 0 then initial else Min(15_000, initial * Pow2(m))
  }

  lemma BackoffDoubles(initial: nat, m: nat)
    ensures Min(MAX_RETRY, Backoff(initial, m) * 2) == Backoff(initial, m + 1)
  {
    assert initial * Pow2(m + 1) == (initial * Pow2(m)) * 2;
  }

  lemma BackoffClosedForm(initial: nat, m: nat)
    requires initial <= MAX_RETRY
    ensures Backoff(initial, m) == Min(MAX_RETRY, initial * Pow2(m))
  {
  }

  function WaitsSinceConnected(trace: seq<Op>): nat {
    if trace == [] then 0
    else
      match trace[|trace| - 1]
      case Connected => 0
      case Wait(_) => WaitsSinceConnected(trace[..|trace| - 1]) + 1
      case _ => WaitsSinceConnected(trace[..|trace| - 1])
  }

  ghost predicate WaitsFollowBackoff(initial: nat, trace: seq<Op>) {
    forall k | 0 <= k < |trace| && trace[k].Wait? ::
      trace[k].milliseconds == Backoff(initial, WaitsSinceConnected(trace[..k]))
  }

  predicate IsTerminal(types: set<string>, op: Op) {
    op.Deliver? && op.event.kind in types
  }

  /** Once a terminal event is out, nothing but events of the same response follows. */
  ghost predicate TerminalEndsRun(types: set<string>, trace: seq<Op>) {
    forall j, k | 0 <= j < k < |trace| && IsTerminal(types, trace[j]) :: trace[k].Deliver?
  }

  /** At the head of the attempt loop. */
  ghost predicate AtHead(o: Options, s: Session) {
    && WaitsFollowBackoff(o.initialRetryMs, s.trace)
    && s.retry == Backoff(o.initialRetryMs, WaitsSinceConnected(s.trace))
    && !s.terminal
    && forall op | op in s.trace :: !IsTerminal(o.terminalTypes, op)
  }

  ghost predicate Lawful(o: Options, trace: seq<Op>) {
    WaitsFollowBackoff(o.initialRetryMs, trace) && TerminalEndsRun(o.terminalTypes, trace)
  }

  lemma {:induction false} DeliveriesOnly(events: seq<Event>)
    ensures |Deliveries(events)| == |events|
    ensures forall k | 0 <= k < |events| :: Deliveries(events)[k] == Deliver(events[k])
  {
    if events != [] {
      DeliveriesOnly(events[..|events| - 1]);
    }
  }

  lemma {:induction false} DeliveriesAppend(a: seq<Event>, b: seq<Event>)
    ensures Deliveries(a + b) == Deliveries(a) + Deliveries(b)
  {
    DeliveriesOnly(a);
    DeliveriesOnly(b);
    DeliveriesOnly(a + b);
  }

  lemma {:induction false} WaitsAcrossDeliveries(trace: seq<Op>, events: seq<Event>)
    ensures WaitsSinceConnected(trace + Deliveries(events)) == WaitsSinceConnected(trace)
  {
    if events == [] {
      assert trace + Deliveries(events) == trace;
    } else {
      var init := events[..|events| - 1];
      WaitsAcrossDeliveries(trace, init);
      assert (trace + Deliveries(events))[..|trace + Deliveries(events)| - 1] == trace + Deliveries(init);
    }
  }

  lemma LawfulAppendOp(o: Options, trace: seq<Op>, op: Op)
    requires WaitsFollowBackoff(o.initialRetryMs, trace)
    requires forall p | p in trace :: !IsTerminal(o.terminalTypes, p)
    requires op.Wait? ==> op.milliseconds == Backoff(o.initialRetryMs, WaitsSinceConnected(trace))
    ensures Lawful(o, trace + [op])
  {
    hide WaitsSinceConnected, Backoff;
    var t := trace + [op];
    forall k | 0 <= k < |t| && t[k].Wait?
      ensures t[k].milliseconds == Backoff(o.initialRetryMs, WaitsSinceConnected(t[..k]))
    {
      assert t[..k] == trace[..k];
      assert trace[..|trace|] == trace;
    }
  }

  lemma LawfulAppendDeliveries(o: Options, trace: seq<Op>, events: seq<Event>)
    requires WaitsFollowBackoff(o.initialRetryMs, trace)
    requires forall p | p in trace :: !IsTerminal(o.terminalTypes, p)
    ensures Lawful(o, trace + Deliveries(events))
    ensures (forall op | op in trace + Deliveries(events) :: !IsTerminal(o.terminalTypes, op))
        <==> !HasTerminal(o.terminalTypes, events)
  {
    hide WaitsSinceConnected, Backoff;
    DeliveriesOnly(events);
    var t := trace + Deliveries(events);
    forall k | 0 <= k < |t| && t[k].Wait?
      ensures t[k].milliseconds == Backoff(o.initialRetryMs, WaitsSinceConnected(t[..k]))
    {
      assert k < |trace|;
      assert t[..k] == trace[..k];
    }
    forall k | 0 <= k < |events| ensures Deliveries(events)[k] in t {
      assert t[|trace| + k] == Deliveries(events)[k];
    }
  }

  /**
   * A response adds deliveries only, sets the terminal flag exactly when one of them is terminal, and
   * has the cursor remember each of them, none for the second time.
   */
  ghost predicate Delivers(types: set<string>, c: Connection, c': Connection, events: seq<Event>) {
    && c'.trace == c.trace + Deliveries(events)
    && (c'.terminal <==> c.terminal || HasTerminal(types, events))
    && Extends(c.cursor, c'.cursor, events)
  }

  lemma DeliversNothing(types: set<string>, c: Connection, c': Connection)
    requires c'.trace == c.trace && c'.terminal == c.terminal && c'.cursor == c.cursor
    ensures Delivers(types, c, c', [])
  {
    ExtendsNothing(c.cursor);
    assert c.trace + Deliveries([]) == c.trace;
  }

  lemma DeliversTwice(types: set<string>, c: Connection, c1: Connection, c2: Connection, a: seq<Event>, b: seq<Event>)
    requires Delivers(types, c, c1, a) && Delivers(types, c1, c2, b)
    ensures Delivers(types, c, c2, a + b)
  {
    hide Extends;
    ExtendsTwice(c.cursor, c1.cursor, c2.cursor, a, b);
    DeliveriesAppend(a, b);
    assert (c.trace + Deliveries(a)) + Deliveries(b) == c.trace + (Deliveries(a) + Deliveries(b));
    assert HasTerminal(types, a + b) <==> HasTerminal(types, a) || HasTerminal(types, b) by {
      assert forall e :: e in a + b <==> e in a || e in b;
    }
  }

  lemma FeedDelivers(rt: Runtime, types: set<string>, c: Connection, text: string) returns (events: seq<Event>)
    ensures Delivers(types, c, Feed(rt, types, c, text).c, events)
  {
    hide Drain, Accept, HasTerminal, Extends;
    var d := Drain(rt, c.buffer + text);
    if d.fault.Some? {
      events := [];
      DeliversNothing(types, c, Feed(rt, types, c, text).c);
    } else {
      AcceptExtends(c.cursor, d.events);
      events := Accept(c.cursor, d.events).accepted;
    }
  }

  lemma CloseDelivers(rt: Runtime, types: set<string>, c: Connection) returns (events: seq<Event>)
    ensures Delivers(types, c, Close(rt, types, c).c, events)
  {
    hide Feed, Accept, HasTerminal, FlushOutcome, Delivers;
    events := FeedDelivers(rt, types, c, c.pending);
    var fed := Feed(rt, types, c, c.pending);
    if fed.Fed? && FlushOutcome(rt, fed.c.buffer).Events? {
      var c1, c2 := fed.c, fed.c.(buffer := "");
      var more := Accept(c1.cursor, FlushOutcome(rt, c1.buffer).events).accepted;
      HandDelivers(types, c1, c2, FlushOutcome(rt, c1.buffer).events);
      DeliversTwice(types, c, c1, Close(rt, types, c).c, events, more);
      events := events + more;
    } else if fed.Fed? {
      SameDeliveries(types, c, fed.c, Close(rt, types, c).c, events);
    }
  }

  lemma HandDelivers(types: set<string>, c: Connection, c': Connection, events: seq<Event>)
    requires c'.trace == c.trace && c'.terminal == c.terminal && c'.cursor == c.cursor
    ensures Delivers(types, c, Hand(types, c', events), Accept(c.cursor, events).accepted)
  {
    hide Accept, Extends;
    AcceptExtends(c.cursor, events);
  }

  lemma SameDeliveries(types: set<string>, c: Connection, c1: Connection, c2: Connection, events: seq<Event>)
    requires Delivers(types, c, c1, events)
    requires c1.trace == c2.trace && c1.terminal == c2.terminal && c1.cursor == c2.cursor
    ensures Delivers(types, c, c2, events)
  {
  }

  lemma {:induction false} BodyDelivers(rt: Runtime, types: set<string>, c: Connection, aborted: bool, steps: seq<Read>)
    returns (events: seq<Event>)
    ensures Delivers(types, c, ReadBody(rt, types, c, aborted, steps).c, events)
    decreases |steps|
  {
    hide Feed, Close, Delivers;
    var stop := ReadBody(rt, types, c, aborted, steps);
    if aborted || c.terminal || (steps != [] && steps[0].Done?) {
      events := CloseDelivers(rt, types, c);
    } else if steps == [] || steps[0].Broken? {
      events := [];
      DeliversNothing(types, c, stop.c);
    } else {
      var c0 := c.(pending := steps[0].pending);
      var fed := Feed(rt, types, c0, steps[0].text);
      DeliversNothing(types, c, c0);
      events := FeedDelivers(rt, types, c0, steps[0].text);
      DeliversTwice(types, c, c0, fed.c, [], events);
      assert [] + events == events;
      if fed.Fed? {
        var more := BodyDelivers(rt, types, fed.c, steps[0].aborted, steps[1..]);
        DeliversTwice(types, c, fed.c, stop.c, events, more);
        events := events + more;
      }
    }
  }

  lemma AttemptLaws(rt: Runtime, o: Options, s: Session, id: nat, attempt: Attempt)
    requires AtHead(o, s)
    ensures var turn := Attempted(rt, o, Observe(s, Open(id)), attempt);
      && Lawful(o, turn.s.trace)
      && (turn.Pauses? ==> AtHead(o, turn.s))
  {
    hide ReadBody, Delivers;
    var s1 := Observe(s, Open(id));
    LawfulAppendOp(o, s.trace, Open(id));
    assert s1.trace[..|s.trace|] == s.trace;
    assert AtHead(o, s1);
    if attempt.Body? {
      var s2 := Observe(s1.(retry := o.initialRetryMs), Connected);
      LawfulAppendOp(o, s1.trace, Connected);
      assert s2.trace[..|s1.trace|] == s1.trace;
      assert AtHead(o, s2);
      var c := Connection(s2.cursor, false, s2.trace, "", "");
      var events := BodyDelivers(rt, o.terminalTypes, c, attempt.aborted, attempt.steps);
      BodyLaws(rt, o, s2, c, attempt, events);
    }
  }

  lemma BodyLaws(rt: Runtime, o: Options, s: Session, c: Connection, attempt: Attempt, events: seq<Event>)
    requires AtHead(o, s) && c == Connection(s.cursor, false, s.trace, "", "") && attempt.Body?
    requires Delivers(o.terminalTypes, c, ReadBody(rt, o.terminalTypes, c, attempt.aborted, attempt.steps).c, events)
    ensures var c' := ReadBody(rt, o.terminalTypes, c, attempt.aborted, attempt.steps).c;
      && Lawful(o, c'.trace)
      && (!c'.terminal ==> AtHead(o, AfterConnection(s, c')))
  {
    hide ReadBody, Extends;
    LawfulAppendDeliveries(o, s.trace, events);
    WaitsAcrossDeliveries(s.trace, events);
  }

  /**
   * Against any server and any schedule: the m-th wait since the last successful open (m counted
   * from 0) lasts r for m = 0 and min(15000, r * 2^m) after that, and once a terminal event has been
   * handed out there is no open, connection or wait any more.
   */
  lemma {:induction false} RunLaws(rt: Runtime, o: Options, server: Server, i: nat, horizon: nat, s: Session)
    requires i <= horizon && AtHead(o, s)
    ensures var (_, s') := Run(rt, o, server, i, horizon, s); Lawful(o, s'.trace)
    decreases horizon - i
  {
    hide Attempted, Lawful;
    LawfulHead(o, s);
    if i < horizon {
      var id := Position(o, s);
      AttemptLaws(rt, o, s, id, server(i, id));
      var turn := Attempted(rt, o, Observe(s, Open(id)), server(i, id));
      if turn.Pauses? {
        PauseLaws(o, turn.s);
        if !turn.waitAborted {
          RunLaws(rt, o, server, i + 1, horizon, Backed(turn.s));
        }
      }
    }
  }

  lemma LawfulHead(o: Options, s: Session)
    requires AtHead(o, s)
    ensures Lawful(o, s.trace)
  {
  }

  lemma PauseLaws(o: Options, s: Session)
    requires AtHead(o, s)
    ensures AtHead(o, Backed(s)) && Lawful(o, Backed(s).trace)
  {
    hide Backoff, WaitsFollowBackoff, TerminalEndsRun;
    LawfulAppendOp(o, s.trace, Wait(s.retry));
    BackoffDoubles(o.initialRetryMs, WaitsSinceConnected(s.trace));
    assert Backed(s).trace[..|s.trace|] == s.trace;
  }

  /** The laws hold of every call. */
  lemma EveryRunIsLawful(rt: Runtime, o: Options, server: Server, horizon: nat, cursor: Cursor)
    ensures var (_, s) := Run(rt, o, server, 0, horizon, Start(o, cursor)); Lawful(o, s.trace)
  {
    RunLaws(rt, o, server, 0, horizon, Start(o, cursor));
  }

  // ----- an honest server

  /** The part of the log above a Last-Event-ID. */
  function Above(log: seq<WireEvent>, n: nat): seq<WireEvent> {
    if log == [] then []
    else (if log[0].id > n then [log[0]] else []) + Above(log[1..], n)
  }

  ghost predicate StrictlyIncreasing(log: seq<WireEvent>) {
    forall i, j | 0 <= i < j < |log| :: log[i].id < log[j].id
  }

  /** The chunks of a response are cut from `text`, anywhere, and stop anywhere. */
  predicate Served(steps: seq<Read>, arrived: string, text: string)
    decreases |steps|
  {
    if steps == [] || !steps[0].Chunk? then true
    else
      var now := arrived + steps[0].text;
      && now <= text
      && FlushedAfter(text, now, steps[0].pending)
      && Served(steps[1..], now, text)
  }

  /** The chunks that are read before an abort make up all of `text`. */
  predicate ServedWhole(steps: seq<Read>, arrived: string, text: string)
    decreases |steps|
  {
    if arrived == text then true
    else if steps == [] || !steps[0].Chunk? then false
    else
      var now := arrived + steps[0].text;
      now == text || (!steps[0].aborted && ServedWhole(steps[1..], now, text))
  }

  /** The frames that the server sends in reply to attempt i with Last-Event-ID n. */
  type Frames = (nat, nat) -> seq<Item>

  /** Frames that the laws below speak of. */
  ghost predicate GoodFrames(rt: Runtime, items: seq<Item>) {
    && ValidItems(rt, items) && FailsAtMostLast(items) && Delimited(rt, items)
    && forall e | e in EventsOf(items) :: Encodable(rt, e)
  }

  /**
   * The frames carry the events of the log above n, in order, with comments anywhere: all of them,
   * or some of them and then a failure frame.
   */
  ghost predicate Faithful(rt: Runtime, log: seq<WireEvent>, n: nat, items: seq<Item>) {
    && ValidItems(rt, items) && FailsAtMostLast(items) && Delimited(rt, items)
    && EventsOf(items) <= Above(log, n)
    && (!EndsInFailure(items) ==> EventsOf(items) == Above(log, n))
  }

  ghost predicate Honest(rt: Runtime, log: seq<WireEvent>, server: Server, frames: Frames) {
    forall i: nat, n: nat | server(i, n).Body? ::
      Faithful(rt, log, n, frames(i, n)) && Served(server(i, n).steps, "", Encode(frames(i, n)))
  }

  // ----- reading one honest response

  /** The connection has handed out `events`, in order, and nothing else. */
  ghost predicate HandedOut(types: set<string>, t0: seq<Op>, p0: nat, events: seq<Event>, c: Connection) {
    && c.trace == t0 + Deliveries(events)
    && c.terminal == HasTerminal(types, events)
    && Consistent(c.cursor)
    && c.cursor.position == Reached(p0, events)
  }

  /** New events pass the cursor unchanged. */
  lemma HandKeepsOrder(types: set<string>, t0: seq<Op>, p0: nat, events: seq<Event>, more: seq<Event>, c: Connection)
    requires HandedOut(types, t0, p0, events, c)
    requires IncreasingFrom(p0, events + more)
    ensures HandedOut(types, t0, p0, events + more, Hand(types, c, more))
  {
    hide Consistent, Accept, HasTerminal, Hand, Deliveries;
    RestIncreases(p0, events, more);
    AcceptNew(c.cursor, more);
    HandNew(types, c, more);
    DeliveriesAppend(events, more);
    assert (t0 + Deliveries(events)) + Deliveries(more) == t0 + (Deliveries(events) + Deliveries(more));
    HasTerminalAppend(types, events, more);
    ReachedAppend(p0, events, more);
  }

  lemma HandNew(types: set<string>, c: Connection, more: seq<Event>)
    requires Accept(c.cursor, more).accepted == more
    ensures var c' := Hand(types, c, more);
      && c'.trace == c.trace + Deliveries(more)
      && c'.terminal == (c.terminal || HasTerminal(types, more))
      && c'.cursor == Accept(c.cursor, more).cursor
  {
  }

  lemma HasTerminalAppend(types: set<string>, a: seq<Event>, b: seq<Event>)
    ensures HasTerminal(types, a + b) <==> HasTerminal(types, a) || HasTerminal(types, b)
  {
    assert forall e :: e in a + b <==> e in a || e in b;
  }

  lemma ReachedAppend(p0: nat, a: seq<Event>, b: seq<Event>)
    ensures Reached(p0, a + b) == Reached(Reached(p0, a), b)
  {
    if b == [] {
      assert a + b == a;
    }
  }

  lemma RestIncreases(p0: nat, events: seq<Event>, more: seq<Event>)
    requires IncreasingFrom(p0, events + more)
    ensures IncreasingFrom(Reached(p0, events), more)
  {
    var all := events + more;
    assert forall k | 0 <= k < |more| :: more[k] == all[|events| + k];
    if events != [] {
      assert all[|events| - 1] == events[|events| - 1];
    } else {
      assert all == more;
    }
  }

  lemma HandedOutPending(types: set<string>, t0: seq<Op>, p0: nat, events: seq<Event>, c: Connection, c': Connection)
    requires HandedOut(types, t0, p0, events, c)
    requires c' == c.(buffer := c'.buffer, pending := c'.pending)
    ensures HandedOut(types, t0, p0, events, c')
  {
  }

  /** In the middle of an honest response, of which `arrived` has been read. */
  ghost predicate Reading(rt: Runtime, types: set<string>, items: seq<Item>, t0: seq<Op>, p0: nat, arrived: string, c: Connection) {
    && FlushedAfter(Encode(items), arrived, c.pending)
    && Drain(rt, arrived).fault == None
    && c.buffer == Drain(rt, arrived).rest
    && HandedOut(types, t0, p0, Drain(rt, arrived).events, c)
  }

  /**
   * A chunk of an honest response raises an error exactly if it completes a failure frame; the events
   * that came with it are then not handed out.
   */
  lemma FeedHonest(rt: Runtime, types: set<string>, items: seq<Item>, t0: seq<Op>, p0: nat, arrived: string,
                   c: Connection, text: string, pending: string)
    requires GoodFrames(rt, items)
    requires IncreasingFrom(p0, DecodedAll(rt, EventsOf(items)))
    requires Reading(rt, types, items, t0, p0, arrived, c)
    requires FlushedAfter(Encode(items), arrived + text, pending)
    ensures var fed := Feed(rt, types, c.(pending := pending), text);
      && (fed.Thrown? <==> arrived + text == Encode(items) && EndsInFailure(items))
      && (if fed.Fed? then Reading(rt, types, items, t0, p0, arrived + text, fed.c)
          else fed.fault == InvalidCursor && HandedOut(types, t0, p0, Drain(rt, arrived).events, fed.c))
  {
    hide Drain, Encodable, HandedOut, Encode, IncreasingFrom, ValidItems, Delimited, DecodedAll, Hand, FailsAtMostLast,
      EndsInFailure;
    var sent := DecodedAll(rt, EventsOf(items));
    DrainAppend(rt, arrived, text);
    NoCorruptedDelivery(rt, items, arrived, c.pending);
    NoCorruptedDelivery(rt, items, arrived + text, pending);
    var d, e := Drain(rt, arrived), Drain(rt, c.buffer + text);
    assert Drain(rt, arrived + text) == Prepend(d.events, e);
    var c1 := c.(pending := pending, buffer := e.rest);
    HandedOutPending(types, t0, p0, d.events, c, c1);
    if e.fault.None? {
      PrefixIncreases(p0, sent, d.events + e.events);
      HandKeepsOrder(types, t0, p0, d.events, e.events, c1);
      HandKeepsBuffer(types, c1, e.events);
    }
  }

  lemma HandKeepsBuffer(types: set<string>, c: Connection, events: seq<Event>)
    ensures Hand(types, c, events).buffer == c.buffer && Hand(types, c, events).pending == c.pending
  {
  }

  lemma PrefixIncreases(p0: nat, sent: seq<Event>, got: seq<Event>)
    requires IncreasingFrom(p0, sent) && got <= sent
    ensures IncreasingFrom(p0, got)
  {
    assert forall e | e in got :: e in sent;
  }

  /**
   * A response that is over, or that is left alone after a terminal event or an abort. Closing it
   * raises an error exactly if it was left in a torn frame.
   */
  lemma CloseHonest(rt: Runtime, types: set<string>, items: seq<Item>, t0: seq<Op>, p0: nat, arrived: string, c: Connection)
    returns (events: seq<Event>)
    requires GoodFrames(rt, items)
    requires IncreasingFrom(p0, DecodedAll(rt, EventsOf(items)))
    requires Reading(rt, types, items, t0, p0, arrived, c)
    ensures Drain(rt, arrived).events <= events <= DecodedAll(rt, EventsOf(items))
    ensures HandedOut(types, t0, p0, events, Close(rt, types, c).c)
    ensures Close(rt, types, c).Thrown? <==> TornIn(items, arrived)
    ensures Close(rt, types, c).Thrown? ==> events == Drain(rt, arrived).events
  {
    hide Drain, Encodable, HandedOut, Encode, IncreasingFrom, ValidItems, Delimited, FlushOutcome, DecodedAll,
      FailsAtMostLast, EndsInFailure, TornIn;
    var sent := DecodedAll(rt, EventsOf(items));
    NoCorruptedDelivery(rt, items, arrived, c.pending);
    var d := Drain(rt, arrived);
    var flushed := d.rest + c.pending;
    PrefixIncreases(p0, sent, d.events);
    var c1 := c.(buffer := flushed);
    HandedOutPending(types, t0, p0, d.events, c, c1);
    assert d.events + [] == d.events;
    HandKeepsOrder(types, t0, p0, d.events, [], c1);
    var c2 := Hand(types, c1, []);
    HandKeepsBuffer(types, c1, []);
    assert Feed(rt, types, c, c.pending) == Fed(c2);
    var c3 := c2.(buffer := "");
    HandedOutPending(types, t0, p0, d.events, c2, c3);
    var last := FlushOutcome(rt, flushed);
    if last.Events? {
      events := d.events + last.events;
      PrefixIncreases(p0, sent, events);
      HandKeepsOrder(types, t0, p0, d.events, last.events, c3);
    } else {
      events := d.events;
    }
  }

  /** All the text has been read while nothing stopped the reader. */
  predicate ReadsWhole(aborted: bool, steps: seq<Read>, arrived: string, text: string) {
    (!aborted || arrived == text) && ServedWhole(steps, arrived, text)
  }

  /** Everything that one honest response hands out is a beginning of what it was sent. */
  lemma {:induction false} BodyHonest(rt: Runtime, types: set<string>, items: seq<Item>, t0: seq<Op>, p0: nat,
                                      arrived: string, c: Connection, aborted: bool, steps: seq<Read>)
    returns (events: seq<Event>)
    requires GoodFrames(rt, items)
    requires IncreasingFrom(p0, DecodedAll(rt, EventsOf(items)))
    requires Reading(rt, types, items, t0, p0, arrived, c)
    requires Served(steps, arrived, Encode(items))
    ensures events <= DecodedAll(rt, EventsOf(items))
    ensures var stop := ReadBody(rt, types, c, aborted, steps);
      && HandedOut(types, t0, p0, events, stop.c)
      && (ReadsWhole(aborted, steps, arrived, Encode(items)) && !EndsInFailure(items) ==>
            stop.c.terminal || events == DecodedAll(rt, EventsOf(items)))
    decreases |steps|
  {
    hide Drain, Encode, IncreasingFrom, GoodFrames, Feed, Close, DecodedAll, HandedOut, EndsInFailure;
    if !aborted && !c.terminal && steps != [] && steps[0].Chunk? {
      FeedHonest(rt, types, items, t0, p0, arrived, c, steps[0].text, steps[0].pending);
      var fed := Feed(rt, types, c.(pending := steps[0].pending), steps[0].text);
      var now := arrived + steps[0].text;
      if fed.Fed? {
        events := BodyHonest(rt, types, items, t0, p0, now, fed.c, steps[0].aborted, steps[1..]);
        assert Encode(items) == arrived ==> now == arrived;
      } else {
        events := Drain(rt, arrived).events;
        ArrivedIsSent(rt, items, arrived, c.pending);
      }
    } else {
      events := BodyOver(rt, types, items, t0, p0, arrived, c, aborted, steps);
    }
  }

  lemma ArrivedIsSent(rt: Runtime, items: seq<Item>, arrived: string, pending: string)
    requires GoodFrames(rt, items) && FlushedAfter(Encode(items), arrived, pending)
    ensures Drain(rt, arrived).events <= DecodedAll(rt, EventsOf(items))
  {
    hide Drain, Encode, DecodedAll, ValidItems, Delimited, Encodable, FailsAtMostLast, EndsInFailure, FlushedAfter;
    NoCorruptedDelivery(rt, items, arrived, pending);
  }

  lemma BodyOver(rt: Runtime, types: set<string>, items: seq<Item>, t0: seq<Op>, p0: nat,
                 arrived: string, c: Connection, aborted: bool, steps: seq<Read>)
    returns (events: seq<Event>)
    requires GoodFrames(rt, items)
    requires IncreasingFrom(p0, DecodedAll(rt, EventsOf(items)))
    requires Reading(rt, types, items, t0, p0, arrived, c)
    requires aborted || c.terminal || steps == [] || !steps[0].Chunk?
    ensures events <= DecodedAll(rt, EventsOf(items))
    ensures var stop := ReadBody(rt, types, c, aborted, steps);
      && HandedOut(types, t0, p0, events, stop.c)
      && (ReadsWhole(aborted, steps, arrived, Encode(items)) && !EndsInFailure(items) ==>
            stop.c.terminal || events == DecodedAll(rt, EventsOf(items)))
  {
    hide Drain, Encode, IncreasingFrom, GoodFrames, Feed, Close, HasTerminal, DecodedAll, Consistent, EndsInFailure;
    ArrivedIsSent(rt, items, arrived, c.pending);
    if arrived == Encode(items) && !EndsInFailure(items) {
      WholeStream(rt, items);
    }
    if aborted || c.terminal || (steps != [] && steps[0].Done?) {
      events := CloseHonest(rt, types, items, t0, p0, arrived, c);
      if c.terminal {
        TerminalStays(types, Drain(rt, arrived).events, events);
      }
    } else {
      events := Drain(rt, arrived).events;
    }
  }

  lemma WholeStream(rt: Runtime, items: seq<Item>)
    requires GoodFrames(rt, items) && !EndsInFailure(items)
    ensures Drain(rt, Encode(items)).events == DecodedAll(rt, EventsOf(items))
  {
    RoundTrip(rt, items);
  }

  lemma TerminalStays(types: set<string>, a: seq<Event>, b: seq<Event>)
    requires a <= b && HasTerminal(types, a)
    ensures HasTerminal(types, b)
  {
    assert forall e | e in a :: e in b;
  }

  /**
   * A failure frame that arrives whole rejects the call for good, with a cursor error, unless a
   * terminal event or an abort came first: the reader does not try again.
   */
  lemma {:induction false} FailureRejects(rt: Runtime, types: set<string>, items: seq<Item>, t0: seq<Op>, p0: nat,
                                          arrived: string, c: Connection, steps: seq<Read>)
    requires GoodFrames(rt, items) && EndsInFailure(items)
    requires IncreasingFrom(p0, DecodedAll(rt, EventsOf(items)))
    requires Reading(rt, types, items, t0, p0, arrived, c)
    requires Served(steps, arrived, Encode(items)) && ServedWhole(steps, arrived, Encode(items))
    ensures var stop := ReadBody(rt, types, c, false, steps);
      stop.c.terminal || stop.Quit? || (stop.Rejected? && stop.failure == InvalidEvent(InvalidCursor))
    decreases |steps|
  {
    hide Drain, Encode, IncreasingFrom, GoodFrames, DecodedAll, HandedOut, EndsInFailure, Hand;
    NothingFailedYet(rt, types, items, t0, p0, arrived, c);
    if c.terminal {
      var events := BodyDelivers(rt, types, c, false, steps);
    } else {
      FeedHonest(rt, types, items, t0, p0, arrived, c, steps[0].text, steps[0].pending);
      var fed := Feed(rt, types, c.(pending := steps[0].pending), steps[0].text);
      if fed.Fed? {
        FailureRejects(rt, types, items, t0, p0, arrived + steps[0].text, fed.c, steps[1..]);
      }
    }
  }

  /** While a response is being read, its failure frame is not complete. */
  lemma NothingFailedYet(rt: Runtime, types: set<string>, items: seq<Item>, t0: seq<Op>, p0: nat, arrived: string, c: Connection)
    requires GoodFrames(rt, items) && EndsInFailure(items)
    requires Reading(rt, types, items, t0, p0, arrived, c)
    ensures arrived != Encode(items)
  {
    hide Drain, Encode, Encodable, DecodedAll, HandedOut, EndsInFailure, ValidItems, Delimited, FailsAtMostLast;
    NoCorruptedDelivery(rt, items, arrived, c.pending);
  }
}
