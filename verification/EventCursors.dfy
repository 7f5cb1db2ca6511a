/** The resume point and the duplicate filter of one run: `EventCursor` in dashboard/src/api/events.ts. */
module EventCursors {
  import opened JsText
  import opened EventStream

  /** The textual key that `acceptEvents` remembers. */
  function Identity(e: Event): string {
    Decimal(e.id) + ":" + e.kind
  }

  /** The first colon of a key ends the digits of the id. */
  lemma ColonAfterDigits(e: Event)
    ensures var n, s := |Decimal(e.id)|, Identity(e);
      n < |s| && s[n] == ':' && forall i | 0 <= i < n :: s[i] != ':'
  {
    var d := Decimal(e.id);
    assert forall i | 0 <= i < |d| :: Identity(e)[i] == d[i] && d[i] in d;
  }

  /** The key determines the pair it was made from, although a type may contain colons and digits. */
  lemma {:induction false} IdentityInjective(a: Event, b: Event)
    requires Identity(a) == Identity(b)
    ensures a.id == b.id && a.kind == b.kind
  {
    var s, t := Identity(a), Identity(b);
    var m, n := |Decimal(a.id)|, |Decimal(b.id)|;
    assert s[m] == ':' && t[n] == ':';
    ColonAfterDigits(a);
    ColonAfterDigits(b);
    assert Decimal(a.id) == s[..m] == t[..n] == Decimal(b.id);
    DecimalInjective(a.id, b.id);
    assert a.kind == s[m + 1..] && b.kind == t[n + 1..];
  }

  datatype Cursor = Cursor(seen: set<string>, position: nat)

  const Fresh: Cursor := Cursor({}, 0)

  function Max(a: nat, b: nat): nat {
    if a < b then b else a
  }

  datatype Acceptance = Acceptance(cursor: Cursor, accepted: seq<Event>)

  /** Filtering a batch from front to back. */
  function Accept(c: Cursor, events: seq<Event>): Acceptance {
    if events == [] then Acceptance(c, [])
    else
      var last := events[|events| - 1];
      var before := Accept(c, events[..|events| - 1]);
      if Identity(last) in before.cursor.seen then before
      else Acceptance(Cursor(before.cursor.seen + {Identity(last)}, Max(before.cursor.position, last.id)),
                      before.accepted + [last])
  }

  class EventCursor {
    var seen: set<string>
    var cursor: nat

    function State(): Cursor
      reads this
    {
      Cursor(seen, cursor)
    }

    constructor ()
      ensures State() == Fresh
    {
      seen := {};
      cursor := 0;
    }

    method AcceptEvents(events: seq<Event>) returns (accepted: seq<Event>)
      modifies this
      ensures Acceptance(State(), accepted) == Accept(old(State()), events)
    {
      accepted := [];
      for i := 0 to |events|
        invariant Acceptance(State(), accepted) == Accept(old(State()), events[..i])
      {
        assert events[..i + 1][..i] == events[..i];
        var event := events[i];
        var identity := Identity(event);
        if identity in seen {
          continue;
        }
        seen := seen + {identity};
        cursor := if cursor < event.id then event.id else cursor;
        accepted := accepted + [event];
      }
      assert events[..|events|] == events;
    }

    /** `accept`: decode a whole body, then filter it. A decoding error leaves the cursor alone. */
    method AcceptPayload(rt: Runtime, payload: string) returns (result: Result)
      modifies this
      ensures match WholeOutcome(rt, payload)
        case Error(fault) => result == Error(fault) && State() == old(State())
        case Events(events) =>
          result.Events? && Acceptance(State(), result.events) == Accept(old(State()), events)
    {
      var parsed := ParseEventStream(rt, payload);
      if parsed.Error? {
        return parsed;
      }
      var accepted := AcceptEvents(parsed.events);
      return Events(accepted);
    }
  }

  // ----- one batch after another

  lemma {:induction false} AcceptAppend(c: Cursor, a: seq<Event>, b: seq<Event>)
    ensures var first := Accept(c, a);
      var second := Accept(first.cursor, b);
      Accept(c, a + b) == Acceptance(second.cursor, first.accepted + second.accepted)
    decreases |b|
  {
    if b == [] {
      assert a + b == a;
    } else {
      assert (a + b)[..|a + b| - 1] == a + b[..|b| - 1];
      AcceptAppend(c, a, b[..|b| - 1]);
    }
  }

  /** All batches that ever go through one cursor, whoever asked for them. */
  function AcceptBatches(c: Cursor, batches: seq<seq<Event>>): (Cursor, seq<seq<Event>>)
    decreases |batches|
  {
    if batches == [] then (c, [])
    else
      var first := Accept(c, batches[0]);
      var (last, rest) := AcceptBatches(first.cursor, batches[1..]);
      (last, [first.accepted] + rest)
  }

  function Flatten(batches: seq<seq<Event>>): seq<Event> {
    if batches == [] then [] else batches[0] + Flatten(batches[1..])
  }

  lemma {:induction false} BatchesAreOneBatch(c: Cursor, batches: seq<seq<Event>>)
    ensures var (last, accepted) := AcceptBatches(c, batches);
      Accept(c, Flatten(batches)) == Acceptance(last, Flatten(accepted))
    decreases |batches|
  {
    hide Accept;
    if batches == [] {
      AcceptNothing(c);
    } else {
      var first := Accept(c, batches[0]);
      var (last, rest) := AcceptBatches(first.cursor, batches[1..]);
      BatchesAreOneBatch(first.cursor, batches[1..]);
      AcceptAppend(c, batches[0], Flatten(batches[1..]));
      assert ([first.accepted] + rest)[1..] == rest;
    }
  }

  lemma AcceptNothing(c: Cursor)
    ensures Accept(c, []) == Acceptance(c, [])
  {
  }

  ghost predicate SameKey(a: Event, b: Event) {
    a.id == b.id && a.kind == b.kind
  }

  ghost predicate PairwiseDistinct(events: seq<Event>) {
    forall i, j | 0 <= i < j < |events| :: !SameKey(events[i], events[j])
  }

  ghost function Keys(events: seq<Event>): set<string> {
    set e | e in events :: Identity(e)
  }

  lemma KeysAppend(events: seq<Event>, e: Event)
    ensures Keys(events + [e]) == Keys(events) + {Identity(e)}
  {
    hide Identity;
    assert forall x :: x in events + [e] <==> x in events || x == e;
  }

  /** What is remembered: what was remembered before, and what was handed out since. */
  lemma {:induction false} AcceptedKeys(c: Cursor, events: seq<Event>)
    ensures var a := Accept(c, events);
      && a.cursor.seen == c.seen + Keys(a.accepted)
      && Keys(events) <= a.cursor.seen
      && c.seen !! Keys(a.accepted)
  {
    hide Identity;
    if events != [] {
      var last := events[|events| - 1];
      var init := events[..|events| - 1];
      assert events == init + [last];
      AcceptedKeys(c, init);
      KeysAppend(init, last);
      KeysAppend(Accept(c, init).accepted, last);
    }
  }

  lemma {:induction false} AcceptedDistinct(c: Cursor, events: seq<Event>)
    ensures var a := Accept(c, events);
      PairwiseDistinct(a.accepted) && forall e | e in a.accepted :: e in events
  {
    hide Identity;
    if events != [] {
      var last := events[|events| - 1];
      var init := events[..|events| - 1];
      assert events == init + [last];
      AcceptedDistinct(c, init);
      AcceptedKeys(c, init);
      var before := Accept(c, init);
      if Identity(last) !in before.cursor.seen {
        forall e | e in before.accepted ensures !SameKey(e, last) {
          assert Identity(e) in Keys(before.accepted);
          if SameKey(e, last) {
            SameKeySameIdentity(e, last);
          }
        }
      }
    }
  }

  lemma SameKeySameIdentity(a: Event, b: Event)
    ensures SameKey(a, b) <==> Identity(a) == Identity(b)
  {
    if Identity(a) == Identity(b) {
      IdentityInjective(a, b);
    }
  }

  /** The largest of the ids, or n. */
  function MaxId(n: nat, events: seq<Event>): nat {
    if events == [] then n else Max(MaxId(n, events[..|events| - 1]), events[|events| - 1].id)
  }

  lemma {:induction false} PositionIsMaxId(c: Cursor, events: seq<Event>)
    ensures var a := Accept(c, events);
      a.cursor.position == MaxId(c.position, a.accepted) && c.position <= a.cursor.position
  {
    hide Identity;
    if events != [] {
      var init := events[..|events| - 1];
      PositionIsMaxId(c, init);
      assert (Accept(c, init).accepted + [events[|events| - 1]])[..|Accept(c, init).accepted|] == Accept(c, init).accepted;
    }
  }

  /** Every remembered key belongs to an event at or below the position. */
  ghost predicate Consistent(c: Cursor) {
    forall e: Event :: Identity(e) in c.seen ==> e.id <= c.position
  }

  lemma {:induction false} AcceptKeepsConsistent(c: Cursor, events: seq<Event>)
    requires Consistent(c)
    ensures Consistent(Accept(c, events).cursor)
  {
    hide Identity;
    if events != [] {
      var last := events[|events| - 1];
      AcceptKeepsConsistent(c, events[..|events| - 1]);
      forall e: Event ensures SameKey(e, last) <==> Identity(e) == Identity(last) {
        SameKeySameIdentity(e, last);
      }
    }
  }

  /**
   * At most once over the life of a cursor: over any mix of one-shot and streaming reads of a run,
   * even if the server replays or reorders, no (id, type) pair is handed out twice, the position
   * is the largest id handed out, and every (id, type) pair that was offered has been handed out.
   */
  lemma AtMostOnce(batches: seq<seq<Event>>)
    ensures var (last, accepted) := AcceptBatches(Fresh, batches);
      && PairwiseDistinct(Flatten(accepted))
      && last.position == MaxId(0, Flatten(accepted))
      && Consistent(last)
      && (forall e | e in Flatten(batches) ::
            exists a :: a in Flatten(accepted) && SameKey(a, e))
      && (forall a | a in Flatten(accepted) :: a in Flatten(batches))
  {
    hide Identity, Accept;
    var all := Flatten(batches);
    BatchesAreOneBatch(Fresh, batches);
    AcceptedKeys(Fresh, all);
    AcceptedDistinct(Fresh, all);
    PositionIsMaxId(Fresh, all);
    AcceptKeepsConsistent(Fresh, all);
    var a := Accept(Fresh, all);
    forall e | e in all ensures exists x :: x in a.accepted && SameKey(x, e) {
      assert Identity(e) in Keys(all);
      var x :| x in a.accepted && Identity(x) == Identity(e);
      SameKeySameIdentity(x, e);
    }
  }

  /** Handing out `events` is what has happened to the memory between two states of a cursor. */
  ghost predicate Extends(c: Cursor, c': Cursor, events: seq<Event>) {
    c'.seen == c.seen + Keys(events) && c.seen !! Keys(events) && PairwiseDistinct(events)
  }

  lemma AcceptExtends(c: Cursor, events: seq<Event>)
    ensures Extends(c, Accept(c, events).cursor, Accept(c, events).accepted)
  {
    hide Accept, Identity, PairwiseDistinct;
    AcceptedKeys(c, events);
    AcceptedDistinct(c, events);
  }

  lemma ExtendsNothing(c: Cursor)
    ensures Extends(c, c, [])
  {
    assert Keys([]) == {};
  }

  lemma ExtendsTwice(c: Cursor, c1: Cursor, c2: Cursor, a: seq<Event>, b: seq<Event>)
    requires Extends(c, c1, a) && Extends(c1, c2, b)
    ensures Extends(c, c2, a + b)
  {
    hide Identity;
    assert Keys(a + b) == Keys(a) + Keys(b) by {
      assert forall e :: e in a + b <==> e in a || e in b;
    }
    forall i, j | 0 <= i < j < |a + b| ensures !SameKey((a + b)[i], (a + b)[j]) {
      var e, f := (a + b)[i], (a + b)[j];
      if i < |a| && j >= |a| {
        assert e == a[i] && f == b[j - |a|];
        assert Identity(e) in Keys(a) && Identity(f) in Keys(b);
        SameKeySameIdentity(e, f);
      } else if j < |a| {
        assert e == a[i] && f == a[j];
      } else {
        assert e == b[i - |a|] && f == b[j - |a|];
      }
    }
  }

  // ----- a batch above the position

  ghost predicate IncreasingFrom(n: nat, events: seq<Event>) {
    && (forall e | e in events :: e.id > n)
    && (forall i, j | 0 <= i < j < |events| :: events[i].id < events[j].id)
  }

  function Reached(n: nat, events: seq<Event>): nat {
    if events == [] then n else events[|events| - 1].id
  }

  lemma LastIsAbove(n: nat, events: seq<Event>)
    requires events != [] && IncreasingFrom(n, events)
    ensures Reached(n, events[..|events| - 1]) < events[|events| - 1].id
  {
    assert events[|events| - 1] in events;
  }

  lemma AcceptOneNew(c: Cursor, init: seq<Event>, last: Event)
    requires Consistent(Accept(c, init).cursor) && Accept(c, init).cursor.position < last.id
    ensures var a, a' := Accept(c, init), Accept(c, init + [last]);
      a'.accepted == a.accepted + [last] && a'.cursor.position == last.id && Consistent(a'.cursor)
  {
    hide Identity;
    assert (init + [last])[..|init|] == init;
    assert Identity(last) !in Accept(c, init).cursor.seen;
    AcceptKeepsConsistent(Accept(c, init).cursor, [last]);
    AcceptAppend(c, init, [last]);
  }

  lemma InitIncreases(n: nat, events: seq<Event>)
    requires events != [] && IncreasingFrom(n, events)
    ensures IncreasingFrom(n, events[..|events| - 1])
  {
    assert forall e | e in events[..|events| - 1] :: e in events;
  }

  /** New events in order pass the filter unchanged and move the position to the last of them. */
  lemma {:induction false} AcceptNew(c: Cursor, events: seq<Event>)
    requires Consistent(c) && IncreasingFrom(c.position, events)
    ensures var a := Accept(c, events);
      a.accepted == events && a.cursor.position == Reached(c.position, events) && Consistent(a.cursor)
  {
    hide Identity, Accept, Consistent, IncreasingFrom;
    if events == [] {
      AcceptNothing(c);
    } else {
      var n := |events| - 1;
      var init, last := events[..n], events[n];
      InitIncreases(c.position, events);
      AcceptNew(c, init);
      LastIsAbove(c.position, events);
      AcceptOneNew(c, init, last);
      assert events == init + [last];
    }
  }

  /** Two events that share an id and differ in type are both handed out. */
  lemma OneIdTwoTypes(first: Event, second: Event)
    requires first.id == second.id && first.kind != second.kind
    ensures Accept(Fresh, [first, second]).accepted == [first, second]
  {
    SameKeySameIdentity(first, second);
    assert [first, second][..1] == [first] && [first][..0] == [];
    hide Identity;
    assert Accept(Fresh, [first]) == Acceptance(Cursor({Identity(first)}, first.id), [first]) by {
      assert Accept(Fresh, [first][..0]) == Acceptance(Fresh, []);
      assert {} + {Identity(first)} == {Identity(first)};
    }
  }

  // ----- several readers of one log

  /** log[i..j], as one reader passes it to the cursor. */
  datatype Piece = Piece(i: nat, j: nat)

  /** The cursor has been given log[lo..hi], and stands at the end of it. */
  ghost predicate StandsAt(c: Cursor, log: seq<Event>, lo: nat, hi: nat) {
    && lo <= hi <= |log|
    && Consistent(c)
    && Keys(log[lo..hi]) <= c.seen
    && IncreasingFrom(c.position, log[hi..])
  }

  /** Each piece starts at or before the event that the cursor waits for, as a reply to its position does. */
  predicate InTurn(log: seq<Event>, lo: nat, hi: nat, pieces: seq<Piece>)
    decreases |pieces|
  {
    pieces == [] ||
      (lo <= pieces[0].i <= hi && pieces[0].i <= pieces[0].j <= |log| && InTurn(log, lo, Max(hi, pieces[0].j), pieces[1..]))
  }

  function Furthest(hi: nat, pieces: seq<Piece>): nat
    decreases |pieces|
  {
    if pieces == [] then hi else Furthest(Max(hi, pieces[0].j), pieces[1..])
  }

  function Batches(log: seq<Event>, pieces: seq<Piece>): (batches: seq<seq<Event>>)
    requires forall p | p in pieces :: p.i <= p.j <= |log|
    ensures |batches| == |pieces|
  {
    seq(|pieces|, k requires 0 <= k < |pieces| => log[pieces[k].i..pieces[k].j])
  }

  lemma {:induction false} AcceptSeen(c: Cursor, events: seq<Event>)
    requires Keys(events) <= c.seen
    ensures Accept(c, events) == Acceptance(c, [])
  {
    hide Identity;
    if events != [] {
      var init, last := events[..|events| - 1], events[|events| - 1];
      assert events == init + [last];
      KeysAppend(init, last);
      AcceptSeen(c, init);
    }
  }

  lemma KeysWithin(part: seq<Event>, whole: seq<Event>)
    requires forall e | e in part :: e in whole
    ensures Keys(part) <= Keys(whole)
  {
    hide Identity;
  }

  lemma SliceWithin(log: seq<Event>, lo: nat, i: nat, j: nat, hi: nat)
    requires lo <= i <= j <= hi <= |log|
    ensures Keys(log[i..j]) <= Keys(log[lo..hi])
  {
    hide Keys;
    forall e | e in log[i..j] ensures e in log[lo..hi] {
      var k :| 0 <= k < j - i && log[i..j][k] == e;
      assert log[lo..hi][i - lo + k] == e;
    }
    KeysWithin(log[i..j], log[lo..hi]);
  }

  /** A piece that starts in turn is handed out from where the cursor stands. */
  lemma AcceptPiece(c: Cursor, log: seq<Event>, lo: nat, hi: nat, p: Piece)
    requires StandsAt(c, log, lo, hi) && lo <= p.i <= hi && p.i <= p.j <= |log|
    ensures var a, end := Accept(c, log[p.i..p.j]), Max(hi, p.j);
      a.accepted == log[hi..end] && StandsAt(a.cursor, log, lo, end)
  {
    hide Accept, Consistent, Keys, IncreasingFrom, Reached;
    if p.j <= hi {
      SliceWithin(log, lo, p.i, p.j, hi);
      AcceptSeen(c, log[p.i..p.j]);
    } else {
      var known, unseen := log[p.i..hi], log[hi..p.j];
      assert log[p.i..p.j] == known + unseen;
      SliceWithin(log, lo, p.i, hi, hi);
      AcceptSeen(c, known);
      AcceptAppend(c, known, unseen);
      assert [] + unseen == unseen;
      var rest := log[hi..];
      assert rest == unseen + log[p.j..];
      SplitIncreasing(c.position, unseen, log[p.j..]);
      AcceptNew(c, unseen);
      AcceptedKeys(c, unseen);
      KeysOfBoth(log, lo, hi, p.j);
    }
  }

  lemma KeysOfBoth(log: seq<Event>, lo: nat, hi: nat, end: nat)
    requires lo <= hi <= end <= |log|
    ensures Keys(log[lo..end]) == Keys(log[lo..hi]) + Keys(log[hi..end])
  {
    hide Identity;
    assert log[lo..end] == log[lo..hi] + log[hi..end];
    assert forall e :: e in log[lo..end] <==> e in log[lo..hi] || e in log[hi..end];
  }

  lemma SplitIncreasing(n: nat, a: seq<Event>, b: seq<Event>)
    requires IncreasingFrom(n, a + b)
    ensures IncreasingFrom(n, a) && IncreasingFrom(Reached(n, a), b)
  {
    var all := a + b;
    assert forall k | 0 <= k < |a| :: a[k] == all[k] && all[k] in all;
    assert forall k | 0 <= k < |b| :: b[k] == all[|a| + k] && all[|a| + k] in all;
  }

  /**
   * Readers that share a cursor, one-shot and streaming, in any interleaving: as long as each reads
   * the log onwards from where the cursor stood when it asked, or from further back, all of them
   * together hand out the log once, in order, without a gap.
   */
  lemma {:induction false} SharedCursorMissesNothing(c: Cursor, log: seq<Event>, lo: nat, hi: nat, pieces: seq<Piece>)
    requires StandsAt(c, log, lo, hi) && InTurn(log, lo, hi, pieces)
    ensures forall p | p in pieces :: p.i <= p.j <= |log|
    ensures hi <= Furthest(hi, pieces) <= |log|
    ensures var (last, accepted) := AcceptBatches(c, Batches(log, pieces));
      Flatten(accepted) == log[hi..Furthest(hi, pieces)] && StandsAt(last, log, lo, Furthest(hi, pieces))
    decreases |pieces|
  {
    hide StandsAt, Accept;
    HiFits(c, log, lo, hi);
    if pieces == [] {
      assert Batches(log, pieces) == [] && log[hi..hi] == [];
    } else {
      var p, rest := pieces[0], pieces[1..];
      var end := Max(hi, p.j);
      AcceptPiece(c, log, lo, hi, p);
      var first := Accept(c, log[p.i..p.j]);
      SharedCursorMissesNothing(first.cursor, log, lo, end, rest);
      assert pieces == [p] + rest;
      BatchesInTurn(c, log[p.i..p.j], Batches(log, rest));
      assert Batches(log, pieces) == [log[p.i..p.j]] + Batches(log, rest);
      hide Batches, AcceptBatches, Flatten, InTurn;
      assert log[hi..end] + log[end..Furthest(end, rest)] == log[hi..Furthest(end, rest)];
    }
  }

  lemma HiFits(c: Cursor, log: seq<Event>, lo: nat, hi: nat)
    requires StandsAt(c, log, lo, hi)
    ensures hi <= |log|
  {
  }

  lemma BatchesInTurn(c: Cursor, batch: seq<Event>, batches: seq<seq<Event>>)
    ensures var first := Accept(c, batch);
      var (last, accepted) := AcceptBatches(first.cursor, batches);
      && AcceptBatches(c, [batch] + batches) == (last, [first.accepted] + accepted)
      && Flatten([first.accepted] + accepted) == first.accepted + Flatten(accepted)
  {
    hide Accept;
    assert ([batch] + batches)[1..] == batches;
    var first := Accept(c, batch);
    var (last, accepted) := AcceptBatches(first.cursor, batches);
    assert ([first.accepted] + accepted)[1..] == accepted;
  }
}
