/** Resuming against an honest server: nothing is lost, repeated or reordered. */
module ExactlyOnce {
  import opened JsText
  import opened EventStream
  import opened EventCursors
  import opened EventWire
  import opened DurableStream
  import opened DurableStreamLaws

  // ----- reading a trace

  function Delivered(trace: seq<Op>): seq<Event> {
    if trace == [] then []
    else
      var before := Delivered(trace[..|trace| - 1]);
      if trace[|trace| - 1].Deliver? then before + [trace[|trace| - 1].event] else before
  }

  function OpenIds(trace: seq<Op>): seq<nat> {
    if trace == [] then []
    else
      var before := OpenIds(trace[..|trace| - 1]);
      if trace[|trace| - 1].Open? then before + [trace[|trace| - 1].lastEventId] else before
  }

  lemma DeliveredAppendOp(trace: seq<Op>, op: Op)
    ensures Delivered(trace + [op]) == if op.Deliver? then Delivered(trace) + [op.event] else Delivered(trace)
    ensures OpenIds(trace + [op]) == if op.Open? then OpenIds(trace) + [op.lastEventId] else OpenIds(trace)
  {
    assert (trace + [op])[..|trace|] == trace;
  }

  lemma DeliveredOneMore(trace: seq<Op>, ops: seq<Op>, events: seq<Event>, last: Event)
    requires Delivered(trace + ops) == Delivered(trace) + events && OpenIds(trace + ops) == OpenIds(trace)
    ensures Delivered(trace + (ops + [Deliver(last)])) == Delivered(trace) + (events + [last])
    ensures OpenIds(trace + (ops + [Deliver(last)])) == OpenIds(trace)
  {
    hide Delivered, OpenIds;
    assert trace + (ops + [Deliver(last)]) == (trace + ops) + [Deliver(last)];
    DeliveredAppendOp(trace + ops, Deliver(last));
  }

  lemma {:induction false} DeliveredAppend(trace: seq<Op>, events: seq<Event>)
    ensures Delivered(trace + Deliveries(events)) == Delivered(trace) + events
    ensures OpenIds(trace + Deliveries(events)) == OpenIds(trace)
  {
    hide Delivered, OpenIds;
    if events == [] {
      assert trace + Deliveries(events) == trace;
      assert Delivered(trace) + events == Delivered(trace);
    } else {
      var init, last := events[..|events| - 1], events[|events| - 1];
      assert events == init + [last];
      assert Deliveries(events) == Deliveries(init) + [Deliver(last)];
      hide Deliveries;
      DeliveredAppend(trace, init);
      DeliveredOneMore(trace, Deliveries(init), init, last);
    }
  }

  lemma {:induction false} OpenIdsGrow(a: seq<Op>, b: seq<Op>)
    requires a <= b
    ensures OpenIds(a) <= OpenIds(b) && Delivered(a) <= Delivered(b)
    decreases |b|
  {
    if a == b {
    } else {
      assert a <= b[..|b| - 1];
      OpenIdsGrow(a, b[..|b| - 1]);
    }
  }

  // ----- any server: at most once

  lemma AttemptAtMostOnce(rt: Runtime, o: Options, s: Session, id: nat, attempt: Attempt, first: Cursor)
    requires Extends(first, s.cursor, Delivered(s.trace))
    ensures var turn := Attempted(rt, o, Observe(s, Open(id)), attempt);
      Extends(first, turn.s.cursor, Delivered(turn.s.trace))
  {
    hide ReadBody, Delivered, Extends, HasTerminal;
    DeliveredAppendOp(s.trace, Open(id));
    if attempt.Body? {
      var trace := s.trace + [Open(id)] + [Connected];
      DeliveredAppendOp(s.trace + [Open(id)], Connected);
      var c := Connection(s.cursor, false, trace, "", "");
      var events := BodyDelivers(rt, o.terminalTypes, c, attempt.aborted, attempt.steps);
      var c' := ReadBody(rt, o.terminalTypes, c, attempt.aborted, attempt.steps).c;
      DeliveredAppend(trace, events);
      ExtendsTwice(first, s.cursor, c'.cursor, Delivered(s.trace), events);
    }
  }

  /**
   * Against any server, even one that replays or reorders: no (id, type) pair is handed out twice by
   * a call, none that the cursor already remembered, and the cursor remembers each of them.
   */
  lemma {:induction false} RunAtMostOnce(rt: Runtime, o: Options, server: Server, i: nat, horizon: nat, s: Session, first: Cursor)
    requires i <= horizon && Extends(first, s.cursor, Delivered(s.trace))
    ensures var (_, s') := Run(rt, o, server, i, horizon, s); Extends(first, s'.cursor, Delivered(s'.trace))
    decreases horizon - i
  {
    hide Attempted, Delivered, Extends;
    if i < horizon {
      var id := Position(o, s);
      AttemptAtMostOnce(rt, o, s, id, server(i, id), first);
      var turn := Attempted(rt, o, Observe(s, Open(id)), server(i, id));
      if turn.Pauses? {
        DeliveredAppendOp(turn.s.trace, Wait(turn.s.retry));
        if !turn.waitAborted {
          RunAtMostOnce(rt, o, server, i + 1, horizon, Backed(turn.s), first);
        }
      }
    }
  }

  lemma StreamAtMostOnce(rt: Runtime, o: Options, server: Server, horizon: nat, cursor: Cursor)
    ensures var (_, s) := Run(rt, o, server, 0, horizon, Start(o, cursor));
      && PairwiseDistinct(Delivered(s.trace))
      && cursor.seen !! Keys(Delivered(s.trace))
      && s.cursor.seen == cursor.seen + Keys(Delivered(s.trace))
  {
    hide Run, PairwiseDistinct;
    ExtendsNothing(cursor);
    RunAtMostOnce(rt, o, server, 0, horizon, Start(o, cursor), cursor);
  }

  // ----- the log

  ghost predicate ValidLog(rt: Runtime, log: seq<WireEvent>) {
    StrictlyIncreasing(log) && forall e | e in log :: Encodable(rt, e)
  }

  lemma {:induction false} AboveFacts(log: seq<WireEvent>, n: nat)
    requires StrictlyIncreasing(log)
    ensures StrictlyIncreasing(Above(log, n))
    ensures forall e :: e in Above(log, n) <==> e in log && e.id > n
  {
    if log != [] {
      var first, later := log[0], log[1..];
      var rest := Above(later, n);
      TailIncreases(log);
      AboveFacts(later, n);
      assert log == [first] + later;
      AboveOfCons(first, later, n);
      hide Above, StrictlyIncreasing;
      if first.id > n {
        IncreasingCons(first, rest);
      } else {
        assert [] + rest == rest;
      }
    }
  }

  lemma TailIncreases(log: seq<WireEvent>)
    requires log != [] && StrictlyIncreasing(log)
    ensures StrictlyIncreasing(log[1..]) && forall e | e in log[1..] :: log[0].id < e.id
  {
    forall e | e in log[1..] ensures log[0].id < e.id {
      var k :| 0 <= k < |log[1..]| && log[1..][k] == e;
      assert log[k + 1] == e;
    }
  }

  function IdAt(n: nat, log: seq<WireEvent>, m: nat): nat
    requires m <= |log|
  {
    if m == 0 then n else log[m - 1].id
  }

  lemma {:induction false} AboveTwice(log: seq<WireEvent>, n: nat, m: nat)
    requires n <= m
    ensures Above(log, m) == Above(Above(log, n), m)
  {
    if log != [] {
      AboveTwice(log[1..], n, m);
      var rest := Above(log[1..], n);
      if log[0].id > n {
        assert Above(log, n) == [log[0]] + rest;
        assert ([log[0]] + rest)[1..] == rest;
      } else {
        assert Above(log, n) == rest;
      }
    }
  }

  lemma {:induction false} AboveOfIncreasing(log: seq<WireEvent>, m: nat)
    requires StrictlyIncreasing(log) && 0 < m <= |log|
    ensures Above(log, log[m - 1].id) == log[m..]
  {
    var rest := log[1..];
    assert forall k | 0 <= k < |rest| :: rest[k] == log[k + 1];
    if m == 1 {
      NothingBelow(rest, log[0].id);
    } else {
      AboveOfIncreasing(rest, m - 1);
    }
  }

  lemma {:induction false} NothingBelow(log: seq<WireEvent>, n: nat)
    requires forall e | e in log :: e.id > n
    ensures Above(log, n) == log
  {
    if log != [] {
      NothingBelow(log[1..], n);
    }
  }

  /** Asking again from the last of the first m events gives exactly the events after them. */
  lemma AboveResumes(log: seq<WireEvent>, n: nat, m: nat)
    requires StrictlyIncreasing(log) && m <= |Above(log, n)|
    ensures Above(log, IdAt(n, Above(log, n), m)) == Above(log, n)[m..]
  {
    AboveFacts(log, n);
    if m > 0 {
      var above := Above(log, n);
      assert above[m - 1] in above;
      AboveTwice(log, n, above[m - 1].id);
      AboveOfIncreasing(above, m);
    }
  }

  // ----- how Core answers a Last-Event-ID

  function Take<T>(s: seq<T>, n: nat): seq<T> {
    if |s| <= n then s else s[..n]
  }

  lemma TakeTwice<T>(s: seq<T>, m: nat, n: nat)
    ensures Take(s, m) + Take(s[|Take(s, m)|..], n) == Take(s, m + n)
  {
  }

  /** `events_after`: the first events above n. */
  function Page(log: seq<WireEvent>, n: nat, limit: nat): seq<WireEvent> {
    Take(Above(log, n), limit)
  }

  /** One page after another, each asked for from the last event of the one before. */
  function Pages(log: seq<WireEvent>, n: nat, limits: seq<nat>): seq<WireEvent>
    decreases |limits|
  {
    if limits == [] then []
    else
      var page := Page(log, n, limits[0]);
      page + Pages(log, IdAt(n, page, |page|), limits[1..])
  }

  lemma PageEnds(n: nat, above: seq<WireEvent>, limit: nat)
    ensures var page := Take(above, limit); |page| <= |above| && IdAt(n, page, |page|) == IdAt(n, above, |page|)
  {
  }

  function Sum(limits: seq<nat>): nat {
    if limits == [] then 0 else limits[0] + Sum(limits[1..])
  }

  /** Reading the log in pages, of whatever sizes, is reading it at once. */
  lemma {:induction false} PagesAreOnePage(log: seq<WireEvent>, n: nat, limits: seq<nat>)
    requires StrictlyIncreasing(log)
    ensures Pages(log, n, limits) == Page(log, n, Sum(limits))
    decreases |limits|
  {
    hide Above, StrictlyIncreasing;
    if limits != [] {
      var above, page := Above(log, n), Page(log, n, limits[0]);
      var m := |page|;
      AboveResumes(log, n, m);
      PageEnds(n, above, limits[0]);
      PagesAreOnePage(log, IdAt(n, above, m), limits[1..]);
      hide Take;
      TakeTwice(above, limits[0], Sum(limits[1..]));
    }
  }

  /** The log of a run whose events up to the id of a snapshot have been compacted into it. */
  function Compacted(log: seq<WireEvent>, snapshot: Option<WireEvent>): seq<WireEvent> {
    if snapshot.None? then log else [snapshot.value] + Above(log, snapshot.value.id)
  }

  /** `replay_window`: a snapshot that covers more than the reader has comes first. */
  function ReplayWindow(log: seq<WireEvent>, snapshot: Option<WireEvent>, n: nat): seq<WireEvent> {
    if snapshot.Some? && snapshot.value.id > n then [snapshot.value] + Above(log, snapshot.value.id) else Above(log, n)
  }

  /** Replaying with a snapshot is reading the compacted log, which is a log like any other. */
  lemma ReplayIsAbove(log: seq<WireEvent>, snapshot: Option<WireEvent>, n: nat)
    requires StrictlyIncreasing(log)
    ensures StrictlyIncreasing(Compacted(log, snapshot))
    ensures ReplayWindow(log, snapshot, n) == Above(Compacted(log, snapshot), n)
  {
    hide Above, StrictlyIncreasing;
    if snapshot.Some? {
      var covered := snapshot.value.id;
      var rest := Above(log, covered);
      AboveFacts(log, covered);
      IncreasingCons(snapshot.value, rest);
      AboveOfCons(snapshot.value, rest, n);
      if covered > n {
        NothingBelow(rest, n);
      } else {
        AboveTwice(log, covered, n);
      }
    }
  }

  lemma IncreasingCons(first: WireEvent, rest: seq<WireEvent>)
    requires StrictlyIncreasing(rest) && forall e | e in rest :: e.id > first.id
    ensures StrictlyIncreasing([first] + rest)
  {
    assert forall k | 0 <= k < |rest| :: rest[k] in rest;
  }

  lemma AboveOfCons(first: WireEvent, rest: seq<WireEvent>, n: nat)
    ensures Above([first] + rest, n) == (if first.id > n then [first] else []) + Above(rest, n)
  {
    assert ([first] + rest)[1..] == rest;
  }

  // ----- what is owed

  /** What the server still owes a reader at position n. */
  function Owed(rt: Runtime, log: seq<WireEvent>, n: nat): seq<Event>
    requires ValidLog(rt, log)
  {
    AboveFacts(log, n);
    DecodedAll(rt, Above(log, n))
  }

  lemma OwedIncreases(rt: Runtime, log: seq<WireEvent>, n: nat)
    requires ValidLog(rt, log)
    ensures IncreasingFrom(n, Owed(rt, log, n))
  {
    hide Encodable;
    AboveFacts(log, n);
    var above, owed := Above(log, n), Owed(rt, log, n);
    assert forall k | 0 <= k < |owed| :: owed[k].id == above[k].id;
    forall e | e in owed ensures e.id > n {
      var k :| 0 <= k < |owed| && owed[k] == e;
      assert above[k] in above;
    }
  }

  /** After the events `got` of what was owed, the rest of it is owed. */
  lemma OwedResumes(rt: Runtime, log: seq<WireEvent>, n: nat, got: seq<Event>)
    requires ValidLog(rt, log) && got <= Owed(rt, log, n)
    ensures Owed(rt, log, Reached(n, got)) == Owed(rt, log, n)[|got|..]
  {
    hide Encodable, Above, DecodedAll, StrictlyIncreasing, Reached;
    AboveFacts(log, n);
    var above := Above(log, n);
    AboveResumes(log, n, |got|);
    ReachedIsIdAt(rt, n, above, got);
    DecodedAllDrop(rt, above, |got|);
  }

  lemma ReachedIsIdAt(rt: Runtime, n: nat, above: seq<WireEvent>, got: seq<Event>)
    requires forall e | e in above :: Encodable(rt, e)
    requires got <= DecodedAll(rt, above)
    ensures Reached(n, got) == IdAt(n, above, |got|)
  {
    hide Encodable;
    if got != [] {
      assert got[|got| - 1] == Decoded(rt, above[|got| - 1]);
    }
  }

  lemma DecodedAllDrop(rt: Runtime, es: seq<WireEvent>, m: nat)
    requires m <= |es| && forall e | e in es :: Encodable(rt, e)
    ensures DecodedAll(rt, es[m..]) == DecodedAll(rt, es)[m..]
  {
    hide Encodable;
  }

  // ----- the run

  /**
   * Before an open: the reader stands at the last event it has handed out, and what it has handed
   * out together with what it is still owed is all there was to read.
   */
  ghost predicate AtOpen(rt: Runtime, o: Options, log: seq<WireEvent>, start: nat, i: nat, s: Session)
    requires ValidLog(rt, log)
  {
    && Consistent(s.cursor)
    && |OpenIds(s.trace)| == i
    && Position(o, s) == Reached(start, Delivered(s.trace))
    && Delivered(s.trace) + Owed(rt, log, Position(o, s)) == Owed(rt, log, start)
  }

  /** What one honest response hands out is a beginning of what was owed. */
  lemma BodyFromLog(rt: Runtime, types: set<string>, log: seq<WireEvent>, n: nat, items: seq<Item>,
                    c: Connection, aborted: bool, steps: seq<Read>)
    returns (events: seq<Event>)
    requires ValidLog(rt, log) && Consistent(c.cursor) && c.cursor.position <= n
    requires Faithful(rt, log, n, items) && Served(steps, "", Encode(items))
    requires c == Connection(c.cursor, false, c.trace, "", "")
    ensures events <= Owed(rt, log, n)
    ensures var stop := ReadBody(rt, types, c, aborted, steps);
      && HandedOut(types, c.trace, c.cursor.position, events, stop.c)
      && (ReadsWhole(aborted, steps, "", Encode(items)) && !EndsInFailure(items) ==>
            stop.c.terminal || events == Owed(rt, log, n))
  {
    hide Encodable, Encode, ReadBody, EndsInFailure, FailsAtMostLast, IncreasingFrom, HandedOut, Reading;
    EventsOfValid(rt, items);
    SentIsOwed(rt, log, n, c.cursor.position, EventsOf(items));
    ReadingStarts(rt, types, items, c);
    events := BodyHonest(rt, types, items, c.trace, c.cursor.position, "", c, aborted, steps);
  }

  /** A beginning of the log above n is a beginning of what is owed. */
  lemma SentIsOwed(rt: Runtime, log: seq<WireEvent>, n: nat, p0: nat, sent: seq<WireEvent>)
    requires ValidLog(rt, log) && p0 <= n
    requires sent <= Above(log, n) && forall e | e in sent :: Encodable(rt, e)
    ensures DecodedAll(rt, sent) <= Owed(rt, log, n)
    ensures sent == Above(log, n) ==> DecodedAll(rt, sent) == Owed(rt, log, n)
    ensures IncreasingFrom(p0, DecodedAll(rt, sent))
  {
    hide Encodable, IncreasingFrom;
    AboveFacts(log, n);
    OwedIncreases(rt, log, n);
    IncreasingFromBelow(p0, n, Owed(rt, log, n));
    PrefixIncreases(p0, Owed(rt, log, n), DecodedAll(rt, sent));
  }

  lemma SplitOff<T>(before: seq<T>, sent: seq<T>, events: seq<T>)
    requires events <= sent
    ensures before + sent == (before + events) + sent[|events|..]
  {
    assert sent == events + sent[|events|..];
  }

  /** One honest response moves the reader along the log. */
  lemma BodyOnTrack(rt: Runtime, o: Options, log: seq<WireEvent>, start: nat, i: nat, s: Session,
                    items: seq<Item>, c: Connection, aborted: bool, steps: seq<Read>)
    requires ValidLog(rt, log) && AtOpen(rt, o, log, start, i, s)
    requires Faithful(rt, log, Position(o, s), items) && Served(steps, "", Encode(items))
    requires c == Connection(s.cursor, false, s.trace, "", "")
    ensures var stop := ReadBody(rt, o.terminalTypes, c, aborted, steps);
      && s.trace <= stop.c.trace
      && AtOpen(rt, o, log, start, i, AfterConnection(s, stop.c))
      && (ReadsWhole(aborted, steps, "", Encode(items)) && !EndsInFailure(items) ==>
            stop.c.terminal || Delivered(stop.c.trace) == Owed(rt, log, start))
  {
    hide ReadBody, Delivered, OpenIds, IncreasingFrom, HasTerminal, Owed, ReadsWhole, EndsInFailure, Served, Faithful, ValidLog,
      Consistent, Reached;
    var n, p0 := Position(o, s), s.cursor.position;
    var sent := Owed(rt, log, n);
    var events := BodyFromLog(rt, o.terminalTypes, log, n, items, c, aborted, steps);
    var stop := ReadBody(rt, o.terminalTypes, c, aborted, steps);
    DeliveredAppend(s.trace, events);
    OwedIncreases(rt, log, n);
    OwedResumes(rt, log, n, events);
    ReachedPosition(o.after, p0, n, sent, events);
    ReachedAppend(start, Delivered(s.trace), events);
    SplitOff(Delivered(s.trace), sent, events);
  }

  lemma IncreasingFromBelow(p0: nat, n: nat, events: seq<Event>)
    requires p0 <= n && IncreasingFrom(n, events)
    ensures IncreasingFrom(p0, events)
  {
  }

  lemma ReachedPosition(after: nat, p0: nat, n: nat, sent: seq<Event>, events: seq<Event>)
    requires n == Max(after, p0) && IncreasingFrom(n, sent) && events <= sent
    ensures Max(after, Reached(p0, events)) == Reached(n, events)
  {
    if events != [] {
      assert events[|events| - 1] == sent[|events| - 1] && sent[|events| - 1] in sent;
    }
  }

  lemma ReadingStarts(rt: Runtime, types: set<string>, items: seq<Item>, c: Connection)
    requires c == Connection(c.cursor, false, c.trace, "", "") && Consistent(c.cursor)
    ensures Reading(rt, types, items, c.trace, c.cursor.position, "", c)
  {
    hide Encode;
    NothingToDrain(rt, "");
    assert c.trace + Deliveries([]) == c.trace;
  }

  /** The cursor stands at the last event handed out, so that another call goes on behind it. */
  ghost predicate Standing(o: Options, start: nat, s: Session) {
    Consistent(s.cursor) && Position(o, s) == Reached(start, Delivered(s.trace))
  }

  /** Attempt k was served to the end of the log without a failure, and nothing stopped the reader before that. */
  ghost predicate ServesToTheEnd(server: Server, frames: Frames, k: nat, id: nat) {
    var attempt := server(k, id);
    attempt.Body? && !EndsInFailure(frames(k, id)) && ReadsWhole(attempt.aborted, attempt.steps, "", Encode(frames(k, id)))
  }

  /** Every open resumes at the last event handed out before it. */
  ghost predicate OpensResume(start: nat, trace: seq<Op>) {
    forall k | 0 <= k < |trace| && trace[k].Open? ::
      trace[k].lastEventId == Reached(start, Delivered(trace[..k]))
  }

  /** Attempts before the i-th left nothing out, or ended the run. */
  ghost predicate EndReached(rt: Runtime, log: seq<WireEvent>, start: nat, server: Server, frames: Frames, i: nat, s: Session)
    requires ValidLog(rt, log)
  {
    forall k | i <= k < |OpenIds(s.trace)| && ServesToTheEnd(server, frames, k, OpenIds(s.trace)[k]) ::
      s.terminal || Delivered(s.trace) == Owed(rt, log, start)
  }

  lemma OpensResumeAppend(start: nat, trace: seq<Op>, ops: seq<Op>)
    requires OpensResume(start, trace)
    requires forall k | 0 <= k < |ops| && ops[k].Open? :: k == 0 && ops[k].lastEventId == Reached(start, Delivered(trace))
    ensures OpensResume(start, trace + ops)
  {
    hide Delivered, Reached;
    var t := trace + ops;
    forall k | 0 <= k < |t| && t[k].Open?
      ensures t[k].lastEventId == Reached(start, Delivered(t[..k]))
    {
      if k < |trace| {
        assert t[..k] == trace[..k];
      } else {
        assert t[k] == ops[k - |trace|];
        assert t[..|trace|] == trace;
      }
    }
  }

  /** One attempt: still on track, and at the end of the log if the attempt was served to it. */
  lemma AttemptOnTrack(rt: Runtime, o: Options, log: seq<WireEvent>, start: nat, server: Server, frames: Frames,
                       i: nat, s: Session)
    requires ValidLog(rt, log) && Honest(rt, log, server, frames)
    requires AtOpen(rt, o, log, start, i, s) && OpensResume(start, s.trace)
    ensures var id := Position(o, s);
      var turn := Attempted(rt, o, Observe(s, Open(id)), server(i, id));
      && s.trace + [Open(id)] <= turn.s.trace
      && AtOpen(rt, o, log, start, i + 1, turn.s)
      && OpensResume(start, turn.s.trace)
      && (ServesToTheEnd(server, frames, i, id) ==> turn.s.terminal || Delivered(turn.s.trace) == Owed(rt, log, start))
  {
    hide ReadBody, Delivered, Reached, OpenIds, OpensResume, Owed, Consistent, ReadsWhole, Served, Faithful, ValidLog;
    var id := Position(o, s);
    var s1 := Observe(s, Open(id));
    DeliveredAppendOp(s.trace, Open(id));
    OpensResumeAppend(start, s.trace, [Open(id)]);
    assert AtOpen(rt, o, log, start, i + 1, s1);
    var attempt := server(i, id);
    if attempt.Body? {
      var s2 := Observe(s1.(retry := o.initialRetryMs), Connected);
      DeliveredAppendOp(s1.trace, Connected);
      OpensResumeAppend(start, s1.trace, [Connected]);
      var c := Connection(s2.cursor, false, s2.trace, "", "");
      BodyOnTrack(rt, o, log, start, i + 1, s2, frames(i, id), c, attempt.aborted, attempt.steps);
      var events := BodyDelivers(rt, o.terminalTypes, c, attempt.aborted, attempt.steps);
      DeliveriesOnly(events);
      OpensResumeAppend(start, s2.trace, Deliveries(events));
    }
  }

  /**
   * Exactly once: with a log of strictly increasing ids and a server that answers Last-Event-ID n
   * with the events above n in order, after every schedule of failed opens, refusals, chunkings,
   * interruptions, failure frames, aborts and ends of stream at any point, even inside a character,
   *  - the events handed out are a prefix of the log above the starting position;
   *  - every open asks for what follows the last event handed out, and so would the next call;
   *  - once one response has been read to the end of the log, all of it has been handed out, unless
   *    a terminal event stopped the reader earlier.
   */
  lemma {:induction false} RunOnTrack(rt: Runtime, o: Options, log: seq<WireEvent>, start: nat, server: Server,
                                      frames: Frames, i: nat, horizon: nat, s: Session)
    requires i <= horizon
    requires ValidLog(rt, log) && Honest(rt, log, server, frames)
    requires AtOpen(rt, o, log, start, i, s) && OpensResume(start, s.trace)
    ensures var (_, s') := Run(rt, o, server, i, horizon, s);
      && s.trace <= s'.trace
      && Delivered(s'.trace) <= Owed(rt, log, start)
      && OpensResume(start, s'.trace)
      && Standing(o, start, s')
      && EndReached(rt, log, start, server, frames, i, s')
    decreases horizon - i
  {
    hide Attempted, Delivered, Reached, OpenIds, OpensResume, Owed, Consistent, ServesToTheEnd, ValidLog, Honest;
    if i < horizon && !s.terminal {
      var id := Position(o, s);
      AttemptOnTrack(rt, o, log, start, server, frames, i, s);
      var turn := Attempted(rt, o, Observe(s, Open(id)), server(i, id));
      var (_, s') := Run(rt, o, server, i, horizon, s);
      if turn.Pauses? {
        var s2 := Backed(turn.s);
        DeliveredAppendOp(turn.s.trace, Wait(turn.s.retry));
        OpensResumeAppend(start, turn.s.trace, [Wait(turn.s.retry)]);
        if !turn.waitAborted {
          RunOnTrack(rt, o, log, start, server, frames, i + 1, horizon, s2);
          OpenIdsGrow(s2.trace, s'.trace);
        }
      }
      DeliveredAppendOp(s.trace, Open(id));
      OpenIdsGrow(s.trace + [Open(id)], s'.trace);
    }
  }

  /** The same for a whole call, from any cursor that earlier reads of the run have left behind. */
  lemma ExactlyOnce(rt: Runtime, o: Options, log: seq<WireEvent>, server: Server, frames: Frames, horizon: nat, cursor: Cursor)
    requires ValidLog(rt, log) && Honest(rt, log, server, frames)
    requires Consistent(cursor)
    ensures var start := Max(o.after, cursor.position);
      var (_, s) := Run(rt, o, server, 0, horizon, Start(o, cursor));
      && Delivered(s.trace) <= Owed(rt, log, start)
      && OpensResume(start, s.trace)
      && Standing(o, start, s)
      && EndReached(rt, log, start, server, frames, 0, s)
  {
    hide Owed, Consistent, ValidLog, Honest;
    var start := Max(o.after, cursor.position);
    var all := Owed(rt, log, start);
    assert [] + all == all;
    RunOnTrack(rt, o, log, start, server, frames, 0, horizon, Start(o, cursor));
  }

  /**
   * Two calls on one cursor, the second from the position that the first has left, however the first
   * ended, a failure frame included: together they hand out the log above the start once, and all of
   * it when a response of the second call has been read to the end.
   */
  lemma NextCallGoesOn(rt: Runtime, log: seq<WireEvent>, o: Options, server: Server, frames: Frames, horizon: nat, cursor: Cursor,
                       o': Options, server': Server, frames': Frames, horizon': nat)
    requires ValidLog(rt, log) && Honest(rt, log, server, frames) && Honest(rt, log, server', frames')
    requires Consistent(cursor)
    requires var (_, s) := Run(rt, o, server, 0, horizon, Start(o, cursor)); Position(o', s) == Position(o, s)
    ensures var start := Max(o.after, cursor.position);
      var (_, s) := Run(rt, o, server, 0, horizon, Start(o, cursor));
      var (_, s') := Run(rt, o', server', 0, horizon', Start(o', s.cursor));
      var got := Delivered(s.trace) + Delivered(s'.trace);
      && got <= Owed(rt, log, start)
      && (forall k | 0 <= k < |OpenIds(s'.trace)| && ServesToTheEnd(server', frames', k, OpenIds(s'.trace)[k]) ::
            s'.terminal || got == Owed(rt, log, start))
  {
    hide Owed, Consistent, ValidLog, Honest, Run, Delivered, Reached, OpensResume, ServesToTheEnd, OpenIds;
    var start := Max(o.after, cursor.position);
    var (_, s) := Run(rt, o, server, 0, horizon, Start(o, cursor));
    ExactlyOnce(rt, o, log, server, frames, horizon, cursor);
    ExactlyOnce(rt, o', log, server', frames', horizon', s.cursor);
    OwedResumes(rt, log, start, Delivered(s.trace));
    var owed := Owed(rt, log, start);
    assert owed == Delivered(s.trace) + owed[|Delivered(s.trace)|..];
  }

  // ----- the end of the run

  /** Only the last event of the log ends a run. */
  ghost predicate TerminalIsLast(types: set<string>, log: seq<WireEvent>) {
    forall k | 0 <= k < |log| - 1 :: log[k].kind !in types
  }

  ghost predicate OnlyLastIsTerminal(types: set<string>, sent: seq<Event>) {
    forall k | 0 <= k < |sent| - 1 :: sent[k].kind !in types
  }

  lemma {:induction false} AboveKeepsLast(types: set<string>, log: seq<WireEvent>, n: nat)
    requires TerminalIsLast(types, log)
    ensures TerminalIsLast(types, Above(log, n))
    ensures forall e | e in Above(log, n) :: e in log
  {
    if log != [] {
      var rest := log[1..];
      assert forall k | 0 <= k < |rest| :: rest[k] == log[k + 1];
      AboveKeepsLast(types, rest, n);
      if rest == [] {
        assert Above(rest, n) == [];
      }
    }
  }

  lemma OwedKeepsLast(rt: Runtime, types: set<string>, log: seq<WireEvent>, n: nat)
    requires ValidLog(rt, log) && TerminalIsLast(types, log)
    ensures OnlyLastIsTerminal(types, Owed(rt, log, n))
  {
    hide Encodable;
    AboveKeepsLast(types, log, n);
  }

  /** When every event is out, what is left of the response is comments: finishing it is silent. */
  lemma FlushAfterLast(rt: Runtime, items: seq<Item>, arrived: string, flushed: string)
    requires GoodFrames(rt, items) && !EndsInFailure(items)
    requires FlushedAfter(Encode(items), arrived, flushed)
    requires |Drain(rt, arrived).events| == |EventsOf(items)|
    ensures FlushOutcome(rt, Drain(rt, arrived).rest + flushed) == Events([])
  {
    hide FrameMeaning, Drain, Encodable, Trim, FlushOutcome, DecodedAll, Text, SelfDelimiting;
    var k := DrainCut(rt, items, arrived);
    var rest := Drain(rt, arrived).rest;
    if k < |items| {
      OnlyCommentsLeft(rt, items, k);
      CutOfItem(rt, items, k, arrived, rest, flushed);
      CutMeaning(rt, items[k], rest, flushed);
      SilentFlush(rt, rest + flushed);
    } else {
      NothingLeft(items, k, arrived, rest, flushed);
      NothingToFlush(rt);
    }
  }

  lemma OnlyCommentsLeft(rt: Runtime, items: seq<Item>, k: nat)
    requires k < |items| && ValidItems(rt, items) && FailsAtMostLast(items) && !EndsInFailure(items)
    requires |EventsOf(items[..k])| == |EventsOf(items)|
    ensures items[k].CommentItem? && ValidItem(rt, items[k])
  {
    hide ValidItem;
    assert items[..k] + items[k..] == items;
    EventsOfAppend(items[..k], items[k..]);
  }

  /** What a response still misses, seen from the frame it stopped in. */
  lemma CutOfItem(rt: Runtime, items: seq<Item>, k: nat, arrived: string, rest: string, flushed: string)
    requires k < |items| && FlushedAfter(Encode(items), arrived, flushed) && Encode(items[..k]) <= arrived
    requires rest == arrived[|Encode(items[..k])|..] && rest < Text(items[k])
    ensures FlushedAfter(Text(items[k]), rest, flushed)
  {
    hide Text, Encode;
    CutInsideItem(items, k, arrived, rest);
  }

  lemma NothingLeft(items: seq<Item>, k: nat, arrived: string, rest: string, flushed: string)
    requires k == |items| && FlushedAfter(Encode(items), arrived, flushed) && Encode(items[..k]) <= arrived
    requires rest == arrived[|Encode(items[..k])|..]
    ensures rest + flushed == ""
  {
    hide Encode;
    assert items[..k] == items;
  }

  lemma SilentFlush(rt: Runtime, frame: string)
    requires FrameMeaning(rt, frame) == Silent
    ensures FlushOutcome(rt, frame) == Events([])
  {
  }

  /** The terminal event of an honest response is its last one. */
  lemma TerminalMeansAll(types: set<string>, sent: seq<Event>, got: seq<Event>)
    requires OnlyLastIsTerminal(types, sent) && got <= sent && HasTerminal(types, got)
    ensures got == sent
  {
    var e :| e in got && e.kind in types;
    var k :| 0 <= k < |got| && got[k] == e;
    assert sent[k] == e;
  }

  lemma CloseAfterTerminal(rt: Runtime, types: set<string>, items: seq<Item>, t0: seq<Op>, p0: nat,
                           arrived: string, c: Connection)
    requires GoodFrames(rt, items) && !EndsInFailure(items)
    requires OnlyLastIsTerminal(types, DecodedAll(rt, EventsOf(items)))
    requires Reading(rt, types, items, t0, p0, arrived, c)
    ensures var closed := Close(rt, types, c); closed.c.terminal ==> closed.Fed?
  {
    hide Drain, Encodable, Encode, IncreasingFrom, ValidItems, Delimited, FlushOutcome, DecodedAll, OnlyLastIsTerminal,
      HasTerminal, FlushedAfter;
    NoCorruptedDelivery(rt, items, arrived, c.pending);
    var d := Drain(rt, arrived);
    NothingToHand(types, c.(buffer := d.rest + c.pending));
    if c.terminal {
      TerminalMeansAll(types, DecodedAll(rt, EventsOf(items)), d.events);
      FlushAfterLast(rt, items, arrived, c.pending);
    }
  }

  lemma NothingToHand(types: set<string>, c: Connection)
    ensures Hand(types, c, []).terminal == c.terminal
    ensures Hand(types, c, []).buffer == c.buffer
  {
    AcceptNothing(c.cursor);
  }

  lemma {:induction false} BodyAfterTerminal(rt: Runtime, types: set<string>, items: seq<Item>, t0: seq<Op>, p0: nat,
                                             arrived: string, c: Connection, aborted: bool, steps: seq<Read>)
    requires GoodFrames(rt, items) && !EndsInFailure(items)
    requires IncreasingFrom(p0, DecodedAll(rt, EventsOf(items)))
    requires OnlyLastIsTerminal(types, DecodedAll(rt, EventsOf(items)))
    requires Reading(rt, types, items, t0, p0, arrived, c)
    requires Served(steps, arrived, Encode(items))
    ensures var stop := ReadBody(rt, types, c, aborted, steps); stop.c.terminal ==> stop.Over?
    decreases |steps|
  {
    hide Drain, Encodable, Encode, IncreasingFrom, ValidItems, Delimited, Feed, Close, DecodedAll, OnlyLastIsTerminal,
      HandedOut;
    if aborted || c.terminal || (steps != [] && steps[0].Done?) {
      CloseAfterTerminal(rt, types, items, t0, p0, arrived, c);
    } else if steps != [] && steps[0].Chunk? {
      FeedHonest(rt, types, items, t0, p0, arrived, c, steps[0].text, steps[0].pending);
      var c1 := Feed(rt, types, c.(pending := steps[0].pending), steps[0].text).c;
      BodyAfterTerminal(rt, types, items, t0, p0, arrived + steps[0].text, c1, steps[0].aborted, steps[1..]);
    }
  }

  ghost predicate NeverFails(frames: Frames) {
    forall i: nat, n: nat :: !EndsInFailure(frames(i, n))
  }

  /** A call that has handed out the terminal event of an honest log resolves: it neither hangs nor throws. */
  lemma {:induction false} TerminalResolves(rt: Runtime, o: Options, log: seq<WireEvent>, start: nat, server: Server,
                                            frames: Frames, i: nat, horizon: nat, s: Session)
    requires i <= horizon
    requires ValidLog(rt, log) && Honest(rt, log, server, frames) && NeverFails(frames) && TerminalIsLast(o.terminalTypes, log)
    requires AtOpen(rt, o, log, start, i, s) && OpensResume(start, s.trace)
    ensures var (outcome, s') := Run(rt, o, server, i, horizon, s); s'.terminal ==> outcome == Returned
    decreases horizon - i
  {
    hide Attempted, Delivered, Reached, OpenIds, OpensResume, Owed, Consistent, ServesToTheEnd, ValidLog, Honest;
    if i < horizon && !s.terminal {
      var id := Position(o, s);
      AttemptOnTrack(rt, o, log, start, server, frames, i, s);
      AttemptAfterTerminal(rt, o, log, start, server, frames, i, s);
      var turn := Attempted(rt, o, Observe(s, Open(id)), server(i, id));
      if turn.Pauses? && !turn.waitAborted {
        DeliveredAppendOp(turn.s.trace, Wait(turn.s.retry));
        OpensResumeAppend(start, turn.s.trace, [Wait(turn.s.retry)]);
        TerminalResolves(rt, o, log, start, server, frames, i + 1, horizon, Backed(turn.s));
      }
    }
  }

  lemma AttemptAfterTerminal(rt: Runtime, o: Options, log: seq<WireEvent>, start: nat, server: Server, frames: Frames,
                             i: nat, s: Session)
    requires ValidLog(rt, log) && Honest(rt, log, server, frames) && NeverFails(frames) && TerminalIsLast(o.terminalTypes, log)
    requires AtOpen(rt, o, log, start, i, s) && !s.terminal
    ensures var id := Position(o, s);
      var turn := Attempted(rt, o, Observe(s, Open(id)), server(i, id));
      turn.s.terminal ==> turn.Ends? && turn.outcome == Returned
  {
    hide ReadBody, Encodable, Encode, IncreasingFrom, Delivered, OpenIds, Served, Reading, Reached;
    var id := Position(o, s);
    var attempt := server(i, id);
    if attempt.Body? {
      var c := Connection(s.cursor, false, s.trace + [Open(id)] + [Connected], "", "");
      var items := frames(i, id);
      EventsOfValid(rt, items);
      OwedIncreases(rt, log, id);
      OwedKeepsLast(rt, o.terminalTypes, log, id);
      IncreasingFromBelow(c.cursor.position, id, Owed(rt, log, id));
      ReadingStarts(rt, o.terminalTypes, items, c);
      BodyAfterTerminal(rt, o.terminalTypes, items, c.trace, c.cursor.position, "", c, attempt.aborted, attempt.steps);
    }
  }
}
