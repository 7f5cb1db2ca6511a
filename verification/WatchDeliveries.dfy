/**
 * What the vault and mail streams hand out: told from the text of the responses, whatever their
 * chunks, and from the frames that Core writes.
 */
module WatchDeliveries {
  import opened JsText
  import opened EventStream
  import opened EventWire
  import opened WatchStream
  import DurableStreamLaws

  // ----- the two streams

  /** `streamVaultEvents` hands out three types of events and passes over all others. */
  function VaultUse(e: Event): Use {
    if e.kind in {"vault.ready", "vault.changed", "vault.unavailable"} then HandOut else Skip
  }

  /** `streamMail` hands out snapshots; one that is not valid makes it throw. */
  function MailUse(valid: string -> bool): Event -> Use {
    (e: Event) => if e.kind != "mail.snapshot" then Skip else if valid(e.data) then HandOut else Refuse
  }

  // ----- which events are handed out

  /** The events that are used, in order, up to the first that is refused. */
  function Handed(use: Event -> Use, events: seq<Event>): seq<Event>
    decreases |events|
  {
    if events == [] then []
    else
      match use(events[0])
      case Skip => Handed(use, events[1..])
      case HandOut => [events[0]] + Handed(use, events[1..])
      case Refuse => []
  }

  predicate Refuses(use: Event -> Use, events: seq<Event>) {
    exists e | e in events :: use(e).Refuse?
  }

  function OfTypes(types: set<string>, events: seq<Event>): seq<Event>
    decreases |events|
  {
    if events == [] then []
    else (if events[0].kind in types then [events[0]] else []) + OfTypes(types, events[1..])
  }

  lemma {:induction false} VaultHandsOut(events: seq<Event>)
    ensures Handed(VaultUse, events) == OfTypes({"vault.ready", "vault.changed", "vault.unavailable"}, events)
    ensures !Refuses(VaultUse, events)
    decreases |events|
  {
    if events != [] {
      VaultHandsOut(events[1..]);
    }
  }

  /** Snapshots come out in order, all of them if they are valid. */
  lemma {:induction false} MailHandsOut(valid: string -> bool, events: seq<Event>)
    requires forall e | e in events && e.kind == "mail.snapshot" :: valid(e.data)
    ensures Handed(MailUse(valid), events) == OfTypes({"mail.snapshot"}, events)
    ensures !Refuses(MailUse(valid), events)
    decreases |events|
  {
    if events != [] {
      MailHandsOut(valid, events[1..]);
    }
  }

  /** A snapshot that is not valid ends what its response hands out. */
  lemma {:induction false} MailStopsAt(valid: string -> bool, before: seq<Event>, bad: Event, behind: seq<Event>)
    requires bad.kind == "mail.snapshot" && !valid(bad.data)
    ensures Handed(MailUse(valid), before + [bad] + behind) == Handed(MailUse(valid), before)
    decreases |before|
  {
    var all := before + [bad] + behind;
    if before != [] {
      assert all[1..] == before[1..] + [bad] + behind;
      MailStopsAt(valid, before[1..], bad, behind);
    }
  }

  lemma {:induction false} HandedAppend(use: Event -> Use, a: seq<Event>, b: seq<Event>)
    ensures Handed(use, a + b) == if Refuses(use, a) then Handed(use, a) else Handed(use, a) + Handed(use, b)
    ensures Refuses(use, a + b) <==> Refuses(use, a) || Refuses(use, b)
    decreases |a|
  {
    RefusesAppend(use, a, b);
    if a == [] {
      assert a + b == b;
    } else {
      assert (a + b)[1..] == a[1..] + b;
      HandedAppend(use, a[1..], b);
      RefusesFirst(use, a);
      hide Refuses;
      assert [a[0]] + (Handed(use, a[1..]) + Handed(use, b)) == ([a[0]] + Handed(use, a[1..])) + Handed(use, b);
    }
  }

  lemma RefusesAppend(use: Event -> Use, a: seq<Event>, b: seq<Event>)
    ensures Refuses(use, a + b) <==> Refuses(use, a) || Refuses(use, b)
  {
    assert forall e :: e in a + b <==> e in a || e in b;
  }

  lemma RefusesFirst(use: Event -> Use, a: seq<Event>)
    requires a != []
    ensures Refuses(use, a) <==> use(a[0]).Refuse? || Refuses(use, a[1..])
  {
    assert a == [a[0]] + a[1..];
    assert forall e :: e in a <==> e == a[0] || e in a[1..];
  }

  /** A longer list hands out no less. */
  lemma HandedGrows(use: Event -> Use, a: seq<Event>, b: seq<Event>)
    requires a <= b
    ensures Handed(use, a) <= Handed(use, b)
    ensures Refuses(use, a) ==> Handed(use, a) == Handed(use, b)
  {
    HandedAppend(use, a, b[|a|..]);
    assert b == a + b[|a|..];
  }

  // ----- one response, as a text

  /** What is handed out when a response is closed after `arrived`. */
  function ClosedGives(w: Watcher, arrived: string, pending: string): seq<Event> {
    var d := Drain(w.rt, arrived + pending);
    if d.fault.Some? then Handed(w.use, Drain(w.rt, arrived).events)
    else
      match FlushOutcome(w.rt, d.rest)
      case Error(_) => Handed(w.use, d.events)
      case Events(last) => Handed(w.use, d.events + last)
  }

  /** What a response hands out from the point where `arrived` has been read, in all. */
  function Given(w: Watcher, arrived: string, pending: string, aborted: bool, steps: seq<Read>): seq<Event>
    decreases |steps|
  {
    if aborted then ClosedGives(w, arrived, pending)
    else if steps == [] then Handed(w.use, Drain(w.rt, arrived).events)
    else
      match steps[0]
      case Done(_) => ClosedGives(w, arrived, pending)
      case Broken(_) => Handed(w.use, Drain(w.rt, arrived).events)
      case Chunk(text, nowPending, nowAborted) =>
        var d := Drain(w.rt, arrived + text);
        if d.fault.Some? then Handed(w.use, Drain(w.rt, arrived).events)
        else if Refuses(w.use, d.events) then Handed(w.use, d.events)
        else Given(w, arrived + text, nowPending, nowAborted, steps[1..])
  }

  function Delivered(trace: seq<Op>): seq<Event> {
    if trace == [] then []
    else
      var before := Delivered(trace[..|trace| - 1]);
      if trace[|trace| - 1].Deliver? then before + [trace[|trace| - 1].event] else before
  }

  function Opens(trace: seq<Op>): nat {
    if trace == [] then 0
    else Opens(trace[..|trace| - 1]) + (if trace[|trace| - 1].Open? then 1 else 0)
  }

  lemma DeliveredAppendOp(trace: seq<Op>, op: Op)
    ensures Delivered(trace + [op]) == if op.Deliver? then Delivered(trace) + [op.event] else Delivered(trace)
    ensures Opens(trace + [op]) == Opens(trace) + (if op.Open? then 1 else 0)
  {
    assert (trace + [op])[..|trace|] == trace;
  }

  lemma {:induction false} AcceptHandsOut(w: Watcher, c: Connection, events: seq<Event>)
    requires !c.failed
    ensures var c' := Accept(w, c, events);
      && Delivered(c'.trace) == Delivered(c.trace) + Handed(w.use, events)
      && Opens(c'.trace) == Opens(c.trace)
      && (c'.failed <==> Refuses(w.use, events))
      && c'.buffer == c.buffer && c'.pending == c.pending
    decreases |events|
  {
    if events != [] {
      RefusesFirst(w.use, events);
      hide Delivered, Opens, Refuses;
      assert Handed(w.use, events) ==
        match w.use(events[0])
        case Skip => Handed(w.use, events[1..])
        case HandOut => [events[0]] + Handed(w.use, events[1..])
        case Refuse => [];
      match w.use(events[0])
      case Skip => AcceptHandsOut(w, c, events[1..]);
      case HandOut =>
        DeliveredAppendOp(c.trace, Deliver(events[0]));
        AcceptHandsOut(w, c.(trace := c.trace + [Deliver(events[0])], delivered := true), events[1..]);
        assert (Delivered(c.trace) + [events[0]]) + Handed(w.use, events[1..])
            == Delivered(c.trace) + ([events[0]] + Handed(w.use, events[1..]));
      case Refuse =>
    }
  }

  /** The connection has read `arrived`, with nothing refused, and handed out what was in it. */
  ghost predicate HasRead(w: Watcher, before: seq<Event>, arrived: string, c: Connection) {
    var d := Drain(w.rt, arrived);
    && d.fault == None && c.buffer == d.rest && !c.failed
    && !Refuses(w.use, d.events)
    && Delivered(c.trace) == before + Handed(w.use, d.events)
  }

  lemma FeedReads(w: Watcher, before: seq<Event>, arrived: string, c: Connection, text: string)
    requires HasRead(w, before, arrived, c)
    ensures var c', d := Feed(w, c, text), Drain(w.rt, arrived + text);
      && Opens(c'.trace) == Opens(c.trace) && c'.pending == c.pending
      && (if d.fault.Some? then c'.failed && Delivered(c'.trace) == Delivered(c.trace)
          else if Refuses(w.use, d.events) then c'.failed && Delivered(c'.trace) == before + Handed(w.use, d.events)
          else HasRead(w, before, arrived + text, c'))
  {
    hide Drain, Accept, Refuses, Delivered, Opens, Handed;
    DrainAppend(w.rt, arrived, text);
    var d, e := Drain(w.rt, arrived), Drain(w.rt, c.buffer + text);
    if e.fault.None? {
      AcceptHandsOut(w, c.(buffer := e.rest), e.events);
      HandedAppend(w.use, d.events, e.events);
      assert before + (Handed(w.use, d.events) + Handed(w.use, e.events))
          == (before + Handed(w.use, d.events)) + Handed(w.use, e.events);
    }
  }

  lemma CloseReads(w: Watcher, before: seq<Event>, arrived: string, c: Connection)
    requires HasRead(w, before, arrived, c)
    ensures var c' := Close(w, c);
      Delivered(c'.trace) == before + ClosedGives(w, arrived, c.pending) && Opens(c'.trace) == Opens(c.trace)
  {
    hide Drain, Feed, Flush, Refuses, Delivered, Opens, Handed, FlushOutcome;
    FeedReads(w, before, arrived, c, c.pending);
    var c1, d := Feed(w, c, c.pending), Drain(w.rt, arrived + c.pending);
    if d.fault.None? {
      var flushed := FlushOutcome(w.rt, d.rest);
      if flushed.Events? {
        HandedAppend(w.use, d.events, flushed.events);
      }
      if !Refuses(w.use, d.events) {
        FlushReads(w, before, d, c1);
      }
    }
  }

  lemma FlushReads(w: Watcher, before: seq<Event>, d: Drained, c: Connection)
    requires !c.failed && c.buffer == d.rest && Delivered(c.trace) == before + Handed(w.use, d.events)
    requires !Refuses(w.use, d.events)
    ensures var c', flushed := Flush(w, c), FlushOutcome(w.rt, d.rest);
      && Opens(c'.trace) == Opens(c.trace)
      && Delivered(c'.trace)
         == before + if flushed.Events? then Handed(w.use, d.events + flushed.events) else Handed(w.use, d.events)
  {
    hide Accept, Refuses, Delivered, Opens, Handed, FlushOutcome;
    var flushed := FlushOutcome(w.rt, d.rest);
    if flushed.Events? {
      AcceptHandsOut(w, c.(buffer := ""), flushed.events);
      HandedAppend(w.use, d.events, flushed.events);
      assert before + (Handed(w.use, d.events) + Handed(w.use, flushed.events))
          == (before + Handed(w.use, d.events)) + Handed(w.use, flushed.events);
    }
  }

  /** What one response hands out, for every way of cutting it into chunks. */
  lemma {:induction false} BodyHandsOut(w: Watcher, before: seq<Event>, arrived: string, c: Connection, aborted: bool, steps: seq<Read>)
    requires HasRead(w, before, arrived, c)
    ensures var c' := ReadBody(w, c, aborted, steps).c;
      Delivered(c'.trace) == before + Given(w, arrived, c.pending, aborted, steps) && Opens(c'.trace) == Opens(c.trace)
    decreases |steps|
  {
    hide Drain, Feed, Close, Refuses, Delivered, Opens, Handed, ClosedGives;
    if aborted || (steps != [] && steps[0].Done?) {
      CloseReads(w, before, arrived, c);
    } else if steps != [] && steps[0].Chunk? {
      var c0 := c.(pending := steps[0].pending);
      FeedReads(w, before, arrived, c0, steps[0].text);
      var c1, d := Feed(w, c0, steps[0].text), Drain(w.rt, arrived + steps[0].text);
      if d.fault.None? && !Refuses(w.use, d.events) {
        BodyHandsOut(w, before, arrived + steps[0].text, c1, steps[0].aborted, steps[1..]);
      }
    }
  }

  // ----- a run

  function Response(w: Watcher, attempt: Attempt): seq<Event> {
    if attempt.Body? then Given(w, "", "", attempt.aborted, attempt.steps) else []
  }

  /** What n attempts from the i-th on hand out. */
  function Responses(w: Watcher, i: nat, n: nat): seq<Event>
    decreases n
  {
    if n == 0 then [] else Response(w, w.server(i)) + Responses(w, i + 1, n - 1)
  }

  lemma AttemptHandsOut(w: Watcher, s: Session, attempt: Attempt)
    ensures var t := Attempted(w, Session(s.retry, s.trace + [Open]), attempt).s.trace;
      Delivered(t) == Delivered(s.trace) + Response(w, attempt) && Opens(t) == Opens(s.trace) + 1
  {
    hide ReadBody, Delivered, Opens, Given;
    DeliveredAppendOp(s.trace, Open);
    if attempt.Body? {
      var c := Connection(s.trace + [Open], false, "", "", false);
      NothingRead(w, c);
      BodyHandsOut(w, Delivered(c.trace), "", c, attempt.aborted, attempt.steps);
    } else {
      assert Delivered(s.trace) + [] == Delivered(s.trace);
    }
  }

  lemma NothingRead(w: Watcher, c: Connection)
    requires c.buffer == "" && !c.failed
    ensures HasRead(w, Delivered(c.trace), "", c)
  {
    assert Drain(w.rt, "") == Drained([], "", None);
    assert Delivered(c.trace) + [] == Delivered(c.trace);
  }

  lemma ResponsesUnfold(w: Watcher, i: nat, m: nat, before: seq<Event>)
    ensures (before + Response(w, w.server(i))) + Responses(w, i + 1, m) == before + Responses(w, i, m + 1)
    ensures before + Responses(w, i, 0) == before
    ensures before + Responses(w, i, 1) == before + Response(w, w.server(i))
  {
    hide Response;
    assert Responses(w, i, m + 1) == Response(w, w.server(i)) + Responses(w, i + 1, m);
    assert Responses(w, i, 1) == Response(w, w.server(i)) + Responses(w, i + 1, 0);
  }

  /** A run hands out what its responses give, one after the other, and nothing else. */
  lemma {:induction false} RunHandsOut(w: Watcher, i: nat, horizon: nat, s: Session) returns (n: nat)
    requires i <= horizon
    ensures var (_, s') := Run(w, i, horizon, s);
      && Opens(s'.trace) == Opens(s.trace) + n
      && Delivered(s'.trace) == Delivered(s.trace) + Responses(w, i, n)
    decreases horizon - i
  {
    hide Attempted, Delivered, Opens, Response, Responses;
    ResponsesUnfold(w, i, 0, Delivered(s.trace));
    if i == horizon {
      n := 0;
    } else {
      AttemptHandsOut(w, s, w.server(i));
      var turn := Attempted(w, Session(s.retry, s.trace + [Open]), w.server(i));
      n := 1;
      if turn.Pauses? {
        DeliveredAppendOp(turn.s.trace, Wait(turn.s.retry));
        if !turn.waitAborted {
          var m := RunHandsOut(w, i + 1, horizon, Backed(turn.s));
          n := m + 1;
          ResponsesUnfold(w, i, m, Delivered(s.trace));
        }
      }
    }
  }

  /** The same for a whole call. */
  lemma WatchHandsOut(w: Watcher, horizon: nat)
    ensures var (_, s) := Run(w, 0, horizon, Session(INITIAL_RETRY, []));
      Delivered(s.trace) == Responses(w, 0, Opens(s.trace))
  {
    hide Run, Responses;
    var n := RunHandsOut(w, 0, horizon, Session(INITIAL_RETRY, []));
    var (_, s) := Run(w, 0, horizon, Session(INITIAL_RETRY, []));
    assert Delivered([]) == [] && Opens([]) == 0;
    assert [] + Responses(w, 0, n) == Responses(w, 0, n);
  }

  // ----- the frames that Core writes

  /** Chunks that are read without an abort, and the text they make up. */
  predicate ChunksOf(steps: seq<Read>, text: string)
    decreases |steps|
  {
    if steps == [] then text == ""
    else steps[0].Chunk? && !steps[0].aborted && steps[0].text <= text && ChunksOf(steps[1..], text[|steps[0].text|..])
  }

  function LastPending(pending: string, steps: seq<Read>): string {
    if steps != [] && steps[|steps| - 1].Chunk? then steps[|steps| - 1].pending else pending
  }

  /** However a text without an error is cut, its chunks hand out what is in it. */
  lemma {:induction false} ChunksGive(w: Watcher, arrived: string, pending: string, steps: seq<Read>, text: string, end: seq<Read>)
    requires ChunksOf(steps, text) && Drain(w.rt, arrived + text).fault.None? && !Refuses(w.use, Drain(w.rt, arrived).events)
    requires end == [] || (|end| == 1 && !end[0].Chunk?)
    ensures Given(w, arrived, pending, false, steps + end) ==
      if end != [] && end[0].Done? && !Refuses(w.use, Drain(w.rt, arrived + text).events) then
        ClosedGives(w, arrived + text, LastPending(pending, steps))
      else Handed(w.use, Drain(w.rt, arrived + text).events)
    decreases |steps|
  {
    hide Drain, Refuses, Handed, ClosedGives;
    if steps == [] {
      assert steps + end == end && arrived + text == arrived;
    } else {
      var head, tail := steps[0].text, text[|steps[0].text|..];
      var all := steps + end;
      assert all[0] == steps[0] && all[1..] == steps[1..] + end;
      assert arrived + text == (arrived + head) + tail;
      DrainAppend(w.rt, arrived + head, tail);
      var d, whole := Drain(w.rt, arrived + head), Drain(w.rt, arrived + text);
      assert d.fault.None? && d.events <= whole.events;
      if Refuses(w.use, d.events) {
        HandedGrows(w.use, d.events, whole.events);
        assert Refuses(w.use, whole.events) by {
          MoreRefuses(w.use, d.events, whole.events);
        }
      } else {
        ChunksGive(w, arrived + head, steps[0].pending, steps[1..], tail, end);
        assert LastPending(pending, steps) == LastPending(steps[0].pending, steps[1..]) by {
          ChunksAreChunks(steps[1..], tail);
        }
      }
    }
  }

  lemma {:induction false} ChunksAreChunks(steps: seq<Read>, text: string)
    requires ChunksOf(steps, text)
    ensures forall step | step in steps :: step.Chunk?
    decreases |steps|
  {
    if steps != [] {
      ChunksAreChunks(steps[1..], text[|steps[0].text|..]);
    }
  }

  lemma MoreRefuses(use: Event -> Use, a: seq<Event>, b: seq<Event>)
    requires a <= b && Refuses(use, a)
    ensures Refuses(use, b)
  {
    var e :| e in a && use(e).Refuse?;
    assert e in b;
  }

  /** The complete frames of what has arrived, and the frame it stops in if that can be read as it is. */
  ghost function Arrived(rt: Runtime, items: seq<Item>, arrived: string, k: nat, closed: bool): seq<Event>
    requires DrainedUpTo(rt, items, arrived, k)
  {
    DecodedAll(rt, EventsOf(items[..k]))
    + if closed && k < |items| && items[k].EventItem? && Encodable(rt, items[k].event)
         && Readable(items[k], arrived[|Encode(items[..k])|..])
      then [Decoded(rt, items[k].event)] else []
  }

  /**
   * A response that Core writes, of which `arrived` has come, anywhere between its first and last
   * character: as long as it stays open or breaks, exactly the events of its complete frames are
   * handed out, those that are used, in order, up to the first that is refused. If it ends there, the
   * frame it stops in counts too if its data line is complete.
   */
  lemma ResponseHandsOut(w: Watcher, items: seq<Item>, steps: seq<Read>, arrived: string, end: seq<Read>) returns (k: nat)
    requires DurableStreamLaws.GoodFrames(w.rt, items)
    requires ChunksOf(steps, arrived) && FlushedAfter(Encode(items), arrived, LastPending("", steps))
    requires arrived == Encode(items) ==> !EndsInFailure(items)
    requires end == [] || (|end| == 1 && !end[0].Chunk?)
    ensures DrainedUpTo(w.rt, items, arrived, k) && (k == |items| <==> arrived == Encode(items))
    ensures var closed := end != [] && end[0].Done?;
      Given(w, "", "", false, steps + end) == Handed(w.use, Arrived(w.rt, items, arrived, k, closed))
  {
    hide Drain, Encode, Encodable, DecodedAll, EventsOf, Refuses, Handed, FlushOutcome, ValidItems, FailsAtMostLast, Delimited,
      Readable, Torn, EndsInFailure, Given, ClosedGives;
    k := StopAnywhere(w.rt, items, arrived, LastPending("", steps));
    assert "" + arrived == arrived;
    NothingRefused(w);
    ChunksGive(w, "", "", steps, arrived, end);
    var closed := end != [] && end[0].Done?;
    var all, done := Arrived(w.rt, items, arrived, k, closed), Drain(w.rt, arrived).events;
    assert done + [] == done;
    if closed {
      ClosedResponse(w, items, arrived, LastPending("", steps), k);
      if Refuses(w.use, done) {
        HandedGrows(w.use, done, all);
      }
    }
  }

  lemma NothingRefused(w: Watcher)
    ensures Drain(w.rt, "") == Drained([], "", None) && !Refuses(w.use, Drain(w.rt, "").events)
  {
  }

  lemma ClosedResponse(w: Watcher, items: seq<Item>, arrived: string, pending: string, k: nat)
    requires StoppedIn(w.rt, items, arrived, pending, k) && FaultAt(items, k) == None
    ensures ClosedGives(w, arrived, pending) == Handed(w.use, Arrived(w.rt, items, arrived, k, true))
    ensures Drain(w.rt, arrived).events <= Arrived(w.rt, items, arrived, k, true)
  {
    hide Drain, Encode, Encodable, DecodedAll, EventsOf, Refuses, Handed, FlushOutcome, Readable, Torn;
    var rt := w.rt;
    var d := Drain(rt, arrived);
    DrainAppend(rt, arrived, pending);
    assert Drain(rt, arrived + pending) == Drained(d.events + [], d.rest + pending, None);
    assert d.events + [] == d.events;
  }

  /** A well-formed response that is read to its end hands out everything in it. */
  lemma WholeResponseHandsOut(w: Watcher, items: seq<Item>, steps: seq<Read>, end: seq<Read>)
    requires DurableStreamLaws.GoodFrames(w.rt, items) && !EndsInFailure(items)
    requires ChunksOf(steps, Encode(items)) && LastPending("", steps) == ""
    requires end == [] || (|end| == 1 && !end[0].Chunk?)
    ensures Given(w, "", "", false, steps + end) == Handed(w.use, DecodedAll(w.rt, EventsOf(items)))
  {
    hide Drain, Encode, Encodable, DecodedAll, EventsOf, Handed, ValidItems, FailsAtMostLast, Delimited, EndsInFailure, Given,
      DrainedUpTo;
    var k := ResponseHandsOut(w, items, steps, Encode(items), end);
    assert items[..k] == items;
    var sent := DecodedAll(w.rt, EventsOf(items));
    assert sent + [] == sent;
  }

  /** One complete frame of a change in the vault is handed out. */
  lemma VaultChangeIsHandedOut(rt: Runtime, e: WireEvent, server: nat -> Attempt)
    requires Encodable(rt, e) && SelfDelimiting(rt, e.payload) && e.kind == "vault.changed"
    requires server(0) == Body(false, [Chunk(Text(EventItem(e, "\n")), "", false), Done(false)], false)
    ensures var w := Watcher(rt, VaultUse, server);
      var (_, s) := Run(w, 0, 1, Session(750, []));
      Delivered(s.trace) == [Decoded(rt, e)]
  {
    hide Text, Encodable, SelfDelimiting, Run, Encode, Given, EventsOf, DecodedAll, Responses, Response, ValidItems, Delimited;
    var w, item := Watcher(rt, VaultUse, server), EventItem(e, "\n");
    var text := Text(item);
    OneFrame(rt, e, item);
    OneChunk(text);
    WholeResponseHandsOut(w, [item], [Chunk(text, "", false)], [Done(false)]);
    assert [Chunk(text, "", false)] + [Done(false)] == [Chunk(text, "", false), Done(false)];
    WatchHandsOut(w, 1);
    OneOpen(w);
    ResponsesUnfold(w, 0, 0, []);
    OneResponse(w);
    assert Handed(VaultUse, [Decoded(rt, e)]) == [Decoded(rt, e)];
  }

  lemma OneFrame(rt: Runtime, e: WireEvent, item: Item)
    requires Encodable(rt, e) && SelfDelimiting(rt, e.payload) && item == EventItem(e, "\n")
    ensures DurableStreamLaws.GoodFrames(rt, [item]) && !EndsInFailure([item])
    ensures Encode([item]) == Text(item) && DecodedAll(rt, EventsOf([item])) == [Decoded(rt, e)]
  {
    hide Encodable, SelfDelimiting, Text;
    assert [item][1..] == [] && Encode([item]) == Text(item) + "" == Text(item);
    assert EventsOf([item]) == [e] + [] == [e];
    assert ValidItem(rt, item);
  }

  lemma OneChunk(text: string)
    ensures ChunksOf([Chunk(text, "", false)], text) && LastPending("", [Chunk(text, "", false)]) == ""
  {
    assert [Chunk(text, "", false)][1..] == [] && text[|text|..] == "";
  }

  lemma OneResponse(w: Watcher)
    requires w.server(0).Body?
    ensures Responses(w, 0, 1) == Given(w, "", "", w.server(0).aborted, w.server(0).steps)
  {
    hide Given;
    assert Responses(w, 0, 1) == Response(w, w.server(0)) + Responses(w, 1, 0);
  }

  lemma OneOpen(w: Watcher)
    requires w.server(0).Body?
    ensures var (_, s) := Run(w, 0, 1, Session(750, [])); Opens(s.trace) == 1
  {
    hide Attempted, Opens, Delivered, Response;
    AttemptHandsOut(w, Session(750, []), w.server(0));
    var turn := Attempted(w, Session(750, [] + [Open]), w.server(0));
    assert Opens([]) == 0 by {
      NoOpens();
    }
    DeliveredAppendOp(turn.s.trace, Wait(turn.s.retry));
  }

  lemma NoOpens()
    ensures Opens([]) == 0
  {
  }
}
