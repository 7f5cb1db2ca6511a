/**
 * When a call of the reconnecting reader is rejected because of what a response contains: a failure
 * frame, or a response that is left inside a frame. Both reject for good; neither reconnects.
 */
module Rejections {
  import opened JsText
  import opened EventStream
  import opened EventCursors
  import opened EventWire
  import opened DurableStream
  import opened DurableStreamLaws
  import opened ExactlyOnce

  // ----- one response

  /**
   * How reading a response ends: it is closed after some text, at its end or behind a terminal event
   * or an abort; a chunk completes its failure frame; or it is interrupted, or still open.
   */
  datatype Leaving = Closes(at: string) | Fails(aborted: bool) | Breaks

  function Leave(rt: Runtime, types: set<string>, items: seq<Item>, arrived: string, aborted: bool, steps: seq<Read>): Leaving
    decreases |steps|
  {
    if aborted || HasTerminal(types, Drain(rt, arrived).events) then Closes(arrived)
    else if steps == [] then Breaks
    else
      match steps[0]
      case Done(_) => Closes(arrived)
      case Broken(_, _) => Breaks
      case Chunk(text, _, nowAborted) =>
        if EndsInFailure(items) && arrived + text == Encode(items) then Fails(nowAborted)
        else Leave(rt, types, items, arrived + text, nowAborted, steps[1..])
  }

  /** The frames that were sent and where the response was left make the call fail. */
  predicate Spoils(items: seq<Item>, leaving: Leaving) {
    match leaving
    case Closes(at) => TornIn(items, at)
    case Fails(aborted) => !aborted
    case Breaks => false
  }

  predicate IsEventError(stop: Stop) {
    stop.Rejected? && stop.failure.InvalidEvent?
  }

  /**
   * An honest response rejects the call exactly if it is closed inside a torn frame, or completes its
   * failure frame before an abort. Once a terminal event is out there is no third way to end.
   */
  lemma {:induction false} BodyRejects(rt: Runtime, types: set<string>, items: seq<Item>, t0: seq<Op>, p0: nat,
                                       arrived: string, c: Connection, aborted: bool, steps: seq<Read>)
    requires GoodFrames(rt, items)
    requires IncreasingFrom(p0, DecodedAll(rt, EventsOf(items)))
    requires Reading(rt, types, items, t0, p0, arrived, c)
    requires Served(steps, arrived, Encode(items))
    ensures var stop := ReadBody(rt, types, c, aborted, steps);
      && (IsEventError(stop) <==> Spoils(items, Leave(rt, types, items, arrived, aborted, steps)))
      && (stop.c.terminal ==> stop.Over? || IsEventError(stop))
    decreases |steps|
  {
    hide Drain, Encode, IncreasingFrom, GoodFrames, Feed, Close, HasTerminal, DecodedAll, EndsInFailure, TornIn, Consistent,
      FlushedAfter;
    if aborted || c.terminal || (steps != [] && steps[0].Done?) {
      var events := CloseHonest(rt, types, items, t0, p0, arrived, c);
    } else if steps != [] && steps[0].Chunk? {
      FeedHonest(rt, types, items, t0, p0, arrived, c, steps[0].text, steps[0].pending);
      var fed := Feed(rt, types, c.(pending := steps[0].pending), steps[0].text);
      if fed.Fed? {
        BodyRejects(rt, types, items, t0, p0, arrived + steps[0].text, fed.c, steps[0].aborted, steps[1..]);
      }
    }
  }

  // ----- one attempt after another

  /** Attempt k is a response that makes the call fail. */
  predicate AttemptSpoils(rt: Runtime, types: set<string>, server: Server, frames: Frames, k: nat, id: nat) {
    var attempt := server(k, id);
    attempt.Body? && Spoils(frames(k, id), Leave(rt, types, frames(k, id), "", attempt.aborted, attempt.steps))
  }

  lemma AttemptRejects(rt: Runtime, o: Options, log: seq<WireEvent>, start: nat, server: Server, frames: Frames, i: nat, s: Session)
    requires ValidLog(rt, log) && Honest(rt, log, server, frames)
    requires AtOpen(rt, o, log, start, i, s) && !s.terminal
    ensures var id := Position(o, s);
      var turn := Attempted(rt, o, Observe(s, Open(id)), server(i, id));
      var spoils := AttemptSpoils(rt, o.terminalTypes, server, frames, i, id);
      && (turn.Ends? && turn.outcome.Failed? && turn.outcome.failure.InvalidEvent? <==> spoils)
      && (turn.s.terminal ==> turn.Ends? && (turn.outcome == Returned || spoils))
  {
    hide ReadBody, Leave, Spoils, Encodable, Encode, IncreasingFrom, Delivered, OpenIds, Served, Reading, Reached, DecodedAll,
      ValidLog, Owed, Above, EndsInFailure, FailsAtMostLast, ValidItems, Delimited;
    var id := Position(o, s);
    var attempt := server(i, id);
    if attempt.Body? {
      var c := Connection(s.cursor, false, s.trace + [Open(id)] + [Connected], "", "");
      var items := frames(i, id);
      EventsOfValid(rt, items);
      SentIsOwed(rt, log, id, c.cursor.position, EventsOf(items));
      ReadingStarts(rt, o.terminalTypes, items, c);
      BodyRejects(rt, o.terminalTypes, items, c.trace, c.cursor.position, "", c, attempt.aborted, attempt.steps);
    }
  }

  /** The last attempt of a run makes the call fail. */
  ghost predicate LastSpoils(rt: Runtime, types: set<string>, server: Server, frames: Frames, trace: seq<Op>) {
    var ids := OpenIds(trace);
    ids != [] && AttemptSpoils(rt, types, server, frames, |ids| - 1, ids[|ids| - 1])
  }

  /**
   * Against an honest server a call is rejected with an event error exactly if its last response was
   * closed inside a torn frame or completed a failure frame. A call that has handed out a terminal
   * event resolves, or is rejected for that reason.
   */
  lemma {:induction false} RejectsExactlyWhen(rt: Runtime, o: Options, log: seq<WireEvent>, start: nat, server: Server,
                                              frames: Frames, i: nat, horizon: nat, s: Session)
    requires i <= horizon
    requires ValidLog(rt, log) && Honest(rt, log, server, frames)
    requires AtOpen(rt, o, log, start, i, s) && OpensResume(start, s.trace) && !s.terminal
    requires !LastSpoils(rt, o.terminalTypes, server, frames, s.trace)
    ensures var (outcome, s') := Run(rt, o, server, i, horizon, s);
      var spoils := LastSpoils(rt, o.terminalTypes, server, frames, s'.trace);
      && (outcome.Failed? && outcome.failure.InvalidEvent? <==> spoils)
      && (s'.terminal ==> outcome == Returned || spoils)
    decreases horizon - i
  {
    hide Attempted, AttemptSpoils, Delivered, Reached, OpenIds, OpensResume, Owed, Consistent, ServesToTheEnd, ValidLog, Honest;
    if i < horizon {
      var id := Position(o, s);
      AttemptOnTrack(rt, o, log, start, server, frames, i, s);
      AttemptRejects(rt, o, log, start, server, frames, i, s);
      var turn := Attempted(rt, o, Observe(s, Open(id)), server(i, id));
      DeliveredAppendOp(s.trace, Open(id));
      OpenIdsGrow(s.trace + [Open(id)], turn.s.trace);
      if turn.Pauses? {
        DeliveredAppendOp(turn.s.trace, Wait(turn.s.retry));
        OpensResumeAppend(start, turn.s.trace, [Wait(turn.s.retry)]);
        if !turn.waitAborted {
          RejectsExactlyWhen(rt, o, log, start, server, frames, i + 1, horizon, Backed(turn.s));
        }
      }
    }
  }

  /** The same for a whole call. */
  lemma CallRejectsExactlyWhen(rt: Runtime, o: Options, log: seq<WireEvent>, server: Server, frames: Frames, horizon: nat, cursor: Cursor)
    requires ValidLog(rt, log) && Honest(rt, log, server, frames) && Consistent(cursor)
    ensures var (outcome, s) := Run(rt, o, server, 0, horizon, Start(o, cursor));
      var spoils := LastSpoils(rt, o.terminalTypes, server, frames, s.trace);
      && (outcome.Failed? && outcome.failure.InvalidEvent? <==> spoils)
      && (s.terminal ==> outcome == Returned || spoils)
  {
    hide Owed, Consistent, ValidLog, Honest;
    var start := Max(o.after, cursor.position);
    var all := Owed(rt, log, start);
    assert [] + all == all;
    RejectsExactlyWhen(rt, o, log, start, server, frames, 0, horizon, Start(o, cursor));
  }

  // ----- responses that do so

  /** One response, cut short: the text arrives in one piece, and the stream ends cleanly behind it. */
  function Once(text: string): Server {
    (i: nat, n: nat) => if n == 0 then Body(false, [Chunk(text, "", false), Done(false)], false) else Bodiless
  }

  function Same(items: seq<Item>): Frames {
    (i: nat, n: nat) => items
  }

  function Written(log: seq<WireEvent>): seq<Item> {
    seq(|log|, k requires 0 <= k < |log| => EventItem(log[k], "\n"))
  }

  lemma {:induction false} WrittenCarries(log: seq<WireEvent>)
    ensures EventsOf(Written(log)) == log
  {
    if log != [] {
      assert Written(log)[1..] == Written(log[1..]);
      WrittenCarries(log[1..]);
    }
  }

  ghost predicate Sendable(rt: Runtime, log: seq<WireEvent>) {
    && ValidLog(rt, log)
    && (forall e | e in log :: SelfDelimiting(rt, e.payload) && e.id > 0)
  }

  lemma WrittenIsFaithful(rt: Runtime, log: seq<WireEvent>)
    requires Sendable(rt, log)
    ensures Faithful(rt, log, 0, Written(log)) && !EndsInFailure(Written(log))
  {
    hide Encodable, SelfDelimiting, Above;
    WrittenCarries(log);
    NothingBelow(log, 0);
  }

  lemma OnceIsHonest(rt: Runtime, log: seq<WireEvent>, text: string)
    requires Sendable(rt, log) && text <= Encode(Written(log))
    ensures Honest(rt, log, Once(text), Same(Written(log)))
  {
    hide Encode, Faithful, Sendable, Written;
    WrittenIsFaithful(rt, log);
    assert "" + text == text;
    var steps := [Chunk(text, "", false), Done(false)];
    assert steps[1..] == [Done(false)];
    assert Served(steps[1..], text, Encode(Written(log)));
    assert Served(steps, "", Encode(Written(log)));
  }

  /**
   * A log that is sent only up to a torn frame rejects the call, although what is missing is still
   * owed, and even if a terminal event has been handed out.
   */
  lemma TornLogRejects(rt: Runtime, types: set<string>, retry: nat, log: seq<WireEvent>, text: string)
    requires Sendable(rt, log)
    requires text <= Encode(Written(log)) && TornIn(Written(log), text)
    ensures var o := Options(0, types, retry);
      var (outcome, s) := Run(rt, o, Once(text), 0, 1, Start(o, Fresh));
      && outcome.Failed? && outcome.failure.InvalidEvent?
      && Delivered(s.trace) == Drain(rt, text).events
  {
    hide Encodable, SelfDelimiting, Encode, TornIn, Drain, Owed, Above, Written, Delivered, ReadBody;
    var t0 := [Open(0), Connected];
    var c := Connection(Fresh, false, t0, "", "");
    var steps := [Chunk(text, "", false), Done(false)];
    OnceStops(rt, types, log, text, c);
    assert ([] + [Open(0)]) + [Connected] == t0;
    TraceOfOnce(Drain(rt, text).events, t0, ReadBody(rt, types, c, false, steps).c.trace);
  }

  lemma OnceStops(rt: Runtime, types: set<string>, log: seq<WireEvent>, text: string, c: Connection)
    requires Sendable(rt, log)
    requires text <= Encode(Written(log)) && TornIn(Written(log), text)
    requires c == Connection(Fresh, false, c.trace, "", "")
    ensures var stop := ReadBody(rt, types, c, false, [Chunk(text, "", false), Done(false)]);
      IsEventError(stop) && stop.c.trace == c.trace + Deliveries(Drain(rt, text).events)
  {
    hide Encodable, SelfDelimiting, Encode, TornIn, Drain, Owed, Above, Written, Feed, Close, Deliveries, DecodedAll,
      IncreasingFrom;
    var items, steps := Written(log), [Chunk(text, "", false), Done(false)];
    WrittenIsFaithful(rt, log);
    EventsOfValid(rt, items);
    SentIsOwed(rt, log, 0, 0, EventsOf(items));
    ReadingStarts(rt, types, items, c);
    assert "" + text == text;
    FeedHonest(rt, types, items, c.trace, 0, "", c, text, "");
    var c1 := Feed(rt, types, c, text).c;
    assert c.(pending := "") == c;
    var events := CloseHonest(rt, types, items, c.trace, 0, text, c1);
    assert steps[1..] == [Done(false)];
    assert ReadBody(rt, types, c, false, steps) == ReadBody(rt, types, c1, false, steps[1..]);
    assert ReadBody(rt, types, c1, false, steps[1..]) == Finish(rt, types, c1, false);
  }

  lemma TraceOfOnce(events: seq<Event>, t0: seq<Op>, trace: seq<Op>)
    requires t0 == [Open(0), Connected] && trace == t0 + Deliveries(events)
    ensures Delivered(trace) == events
  {
    hide Deliveries;
    DeliveredAppend(t0, events);
    assert t0[..1] == [Open(0)] && t0[..1][..0] == [];
    assert Delivered(t0[..1]) == [];
    assert [] + events == events;
  }

  lemma FailureIsGood(rt: Runtime, log: seq<WireEvent>, failure: Item)
    requires failure.FailureItem? && ValidItem(rt, failure)
    ensures var items := [failure];
      GoodFrames(rt, items) && EndsInFailure(items) && EventsOf(items) == [] && Faithful(rt, log, 0, items)
  {
    hide Above, ValidItem;
    var items := [failure];
    assert items[0] == failure && items[1..] == [];
    assert EventsOf(items[1..]) == [];
    assert EventsOf(items) == [];
    assert ValidItems(rt, items) && FailsAtMostLast(items) && Delimited(rt, items);
  }

  /** Whatever the log still holds: a replay that fails at once rejects the call, with nothing handed out. */
  lemma FailedReplayRejects(rt: Runtime, types: set<string>, retry: nat, log: seq<WireEvent>, failure: Item)
    requires failure.FailureItem? && ValidItem(rt, failure)
    ensures var items, o := [failure], Options(0, types, retry);
      var (outcome, s) := Run(rt, o, Once(Encode(items)), 0, 1, Start(o, Fresh));
      && Honest(rt, log, Once(Encode(items)), Same(items))
      && outcome == Failed(InvalidEvent(InvalidCursor)) && Delivered(s.trace) == []
  {
    hide Encode, Drain, Delivered, ReadBody, Faithful, GoodFrames, EventsOf, EndsInFailure, ValidItem;
    var items, t0 := [failure], [Open(0), Connected];
    var text := Encode(items);
    var c := Connection(Fresh, false, t0, "", "");
    FailureIsGood(rt, log, failure);
    FailureStops(rt, types, items, text, c);
    assert ([] + [Open(0)]) + [Connected] == t0;
    TraceOfOnce([], t0, t0 + Deliveries([]));
    assert "" + text == text;
    var steps := [Chunk(text, "", false), Done(false)];
    assert steps[1..] == [Done(false)];
    assert Served(steps[1..], text, text) && Served(steps, "", text);
  }

  lemma FailureStops(rt: Runtime, types: set<string>, items: seq<Item>, text: string, c: Connection)
    requires GoodFrames(rt, items) && EndsInFailure(items) && EventsOf(items) == [] && text == Encode(items)
    requires c == Connection(Fresh, false, c.trace, "", "")
    ensures var stop := ReadBody(rt, types, c, false, [Chunk(text, "", false), Done(false)]);
      stop.Rejected? && stop.failure == InvalidEvent(InvalidCursor) && stop.c.trace == c.trace + Deliveries([])
  {
    hide Encode, Drain, EndsInFailure, Deliveries, EventsOf, Feed, FailsAtMostLast, ValidItems, Delimited, Encodable;
    ReadingStarts(rt, types, items, c);
    NothingToDrain(rt, "");
    assert "" + text == text && c.(pending := "") == c;
    FeedHonest(rt, types, items, c.trace, 0, "", c, text, "");
  }

  /** Two ids and one object, as `Number` and `JSON.parse` read them. */
  function SmallRuntime(): Runtime {
    Runtime(t => if t == "1" then Integral(1) else if t == "2" then Integral(2) else NonIntegral,
            t => if t == "{}" then Object("{}") else Malformed)
  }

  lemma SmallEvents(first: string, second: string)
    requires Plain(first) && Trimmed(first) && Plain(second) && Trimmed(second)
    ensures Sendable(SmallRuntime(), [WireEvent(1, first, "{}"), WireEvent(2, second, "{}")])
    ensures Encodable(SmallRuntime(), WireEvent(1, first, "{}"))
    ensures Decoded(SmallRuntime(), WireEvent(1, first, "{}")) == Event(1, first, "{}")
  {
    assert Decimal(1) == "1" && Decimal(2) == "2";
    var rt := SmallRuntime();
    forall cut: string | cut < "{}"
      ensures !rt.json(cut).Object? && !rt.json(cut + MARK).Object?
    {
      assert |cut| < 2;
      if |cut| == 1 {
        assert (cut + MARK)[1] == '\U{FFFD}';
      }
    }
  }

  /** The stream ends cleanly inside the first frame: the call is rejected, and nothing has come of it. */
  lemma CleanEndInsideFrame()
    ensures var o := Options(0, {"run.completed"}, 750);
      var (outcome, s) := Run(SmallRuntime(), o, Once("id: 1"), 0, 1, Start(o, Fresh));
      outcome.Failed? && outcome.failure.InvalidEvent? && Delivered(s.trace) == []
  {
    assert Decimal(1) == "1";
    SmallEvents("run.started", "run.completed");
    hide Run, Sendable, SmallRuntime, Delivered, Once, TornIn, Drain, Encode, Written, Start;
    var rt, log := SmallRuntime(), [WireEvent(1, "run.started", "{}"), WireEvent(2, "run.completed", "{}")];
    TornFirst(rt, log, "id: 1");
    TornLogRejects(rt, {"run.completed"}, 750, log, "id: 1");
  }

  /** A beginning of the first line is torn once `id:` is there. */
  lemma CutOfFirstLine(item: Item, cut: string, more: string)
    requires item.EventItem? && cut <= "id: " + Decimal(item.event.id) && |cut| >= 3
    ensures cut < Text(item) && Torn(item, cut) && cut <= Text(item) + more
  {
    var lines := Lines(item);
    var tail := item.eol + JoinWith(lines[1..], item.eol);
    assert JoinWith(lines, item.eol) == lines[0] + tail;
    assert |tail| > 0 by {
      assert lines[1..][0] == lines[1];
    }
    assert Text(item) == lines[0] + (tail + (item.eol + item.eol));
    assert lines[0] == cut + lines[0][|cut|..];
  }

  lemma TornFirst(rt: Runtime, log: seq<WireEvent>, cut: string)
    requires Sendable(rt, log) && log != [] && cut <= "id: " + Decimal(log[0].id) && |cut| >= 3
    ensures var items := Written(log);
      cut <= Encode(items) && TornIn(items, cut) && Drain(rt, cut) == Drained([], cut, None)
  {
    var items := Written(log);
    var item := items[0];
    assert log[0] in log;
    assert ValidItem(rt, item);
    hide Sendable, Drain, FrameBoundary, Torn, Text, ValidItem;
    CutOfFirstLine(item, cut, Encode(items[1..]));
    CutHasNoBoundary(rt, item, cut);
    DrainDone(rt, cut);
  }

  /** Behind the frame of the first event, the second frame is torn. */
  lemma TornSecond(rt: Runtime, log: seq<WireEvent>, cut: string)
    requires Sendable(rt, log) && |log| == 2 && cut <= "id: " + Decimal(log[1].id) && |cut| >= 3
    requires Encodable(rt, log[0])
    ensures var items := Written(log);
      var text := Text(items[0]) + cut;
      text <= Encode(items) && TornIn(items, text) && Drain(rt, text).events == [Decoded(rt, log[0])]
  {
    var items := Written(log);
    assert log[0] in log && log[1] in log;
    assert ValidItem(rt, items[0]) && ValidItem(rt, items[1]);
    hide Sendable, Drain, FrameBoundary, Torn, Text, ValidItem;
    var rest := items[1..];
    assert rest == [items[1]] && rest[1..] == [];
    CutOfFirstLine(items[1], cut, "");
    assert Encode(rest) == Text(items[1]) + "";
    CutHasNoBoundary(rt, items[1], cut);
    DrainDone(rt, cut);
    DrainItem(rt, items[0], cut);
    var text := Text(items[0]) + cut;
    assert text[|Text(items[0])|..] == cut;
    assert Encode(items) == Text(items[0]) + Encode(rest);
    BeginsWith(Text(items[0]), cut, Encode(rest));
  }

  /** A frame has begun behind the terminal event: the event is out, and the call is rejected all the same. */
  lemma TerminalThenTorn()
    ensures var o := Options(0, {"run.completed"}, 750);
      var text := Text(EventItem(WireEvent(1, "run.completed", "{}"), "\n")) + "id:";
      var (outcome, s) := Run(SmallRuntime(), o, Once(text), 0, 1, Start(o, Fresh));
      && outcome.Failed? && outcome.failure.InvalidEvent?
      && Delivered(s.trace) == [Event(1, "run.completed", "{}")]
  {
    SmallEvents("run.completed", "run.late");
    hide Run, Sendable, SmallRuntime, Delivered, Once, TornIn, Drain, Encode, Start, Text, Encodable, Decoded;
    var rt, log := SmallRuntime(), [WireEvent(1, "run.completed", "{}"), WireEvent(2, "run.late", "{}")];
    TornSecond(rt, log, "id:");
    assert Written(log)[0] == EventItem(log[0], "\n");
    TornLogRejects(rt, {"run.completed"}, 750, log, Text(EventItem(log[0], "\n")) + "id:");
  }
}
