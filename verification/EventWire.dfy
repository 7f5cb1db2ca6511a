/**
 * The text that Core writes on an event stream, and what the decoder makes of it when it arrives
 * whole and when it stops anywhere: section 9.2 of the WHATWG HTML Living Standard, restricted to
 * the frames that Core emits (rust/crates/restork-api/src/lib.rs).
 */
module EventWire {
  import opened JsText
  import opened EventStream

  datatype WireEvent = WireEvent(id: nat, kind: string, payload: string)

  /**
   * A frame: one event; comment lines only (none of them: a frame with no text at all); or the frame
   * without an id that tells that Core cannot go on.
   */
  datatype Item =
    | EventItem(event: WireEvent, eol: string)
    | CommentItem(comments: seq<string>, eol: string)
    | FailureItem(kind: string, payload: string, eol: string)

  function Lines(item: Item): seq<string> {
    match item
    case EventItem(e, _) => ["id: " + Decimal(e.id), "event: " + e.kind, "data: " + e.payload]
    case CommentItem(comments, _) => if comments == [] then [""] else comments
    case FailureItem(kind, payload, _) => ["event: " + kind, "data: " + payload]
  }

  function JoinWith(lines: seq<string>, eol: string): string
    requires lines != []
  {
    if |lines| == 1 then lines[0] else lines[0] + (eol + JoinWith(lines[1..], eol))
  }

  function Text(item: Item): string {
    JoinWith(Lines(item), item.eol) + (item.eol + item.eol)
  }

  function Encode(items: seq<Item>): string {
    if items == [] then "" else Text(items[0]) + Encode(items[1..])
  }

  function EventsOf(items: seq<Item>): seq<WireEvent> {
    if items == [] then []
    else (if items[0].EventItem? then [items[0].event] else []) + EventsOf(items[1..])
  }

  // ----- what a well-formed frame is

  predicate Plain(s: string) {
    '\n' !in s && '\r' !in s
  }

  predicate IsEol(s: string) {
    s == "\n" || s == "\r\n"
  }

  /** The event survives encoding: a safe cursor, a trimmed one-line type, a one-line JSON object. */
  predicate Encodable(rt: Runtime, e: WireEvent) {
    && e.id <= MAX_SAFE_INTEGER
    && rt.number(Decimal(e.id)) == Integral(e.id)
    && Plain(e.kind) && Trimmed(e.kind)
    && Plain(e.payload) && e.payload != "" && !IsSpace(e.payload[0])
    && rt.json(e.payload).Object?
  }

  /** U+FFFD: what a byte decoder flushes for an unfinished multi-byte character. */
  const MARK: string := "\U{FFFD}"

  /** JSON objects are self-delimiting: no text that stops inside one is an object. */
  ghost predicate SelfDelimiting(rt: Runtime, payload: string) {
    forall cut: string :: cut < payload ==> !rt.json(cut).Object? && !rt.json(cut + MARK).Object?
  }

  predicate ValidItem(rt: Runtime, item: Item) {
    && IsEol(item.eol)
    && match item
       case EventItem(e, _) => Encodable(rt, e)
       case CommentItem(comments, _) => forall c | c in comments :: Plain(c) && ":" <= c
       case FailureItem(kind, payload, _) => Plain(kind) && Plain(payload)
  }

  predicate EndsInFailure(items: seq<Item>) {
    items != [] && items[|items| - 1].FailureItem?
  }

  /** Core sends nothing behind a failure frame. */
  predicate FailsAtMostLast(items: seq<Item>) {
    forall k | 0 <= k < |items| - 1 :: !items[k].FailureItem?
  }

  predicate ValidItems(rt: Runtime, items: seq<Item>) {
    forall item | item in items :: ValidItem(rt, item)
  }

  ghost predicate Delimited(rt: Runtime, items: seq<Item>) {
    forall item | item in items :: item.EventItem? ==> SelfDelimiting(rt, item.event.payload)
  }

  function Decoded(rt: Runtime, e: WireEvent): Event
    requires Encodable(rt, e)
  {
    Event(e.id, e.kind, rt.json(e.payload).value)
  }

  function DecodedAll(rt: Runtime, es: seq<WireEvent>): (r: seq<Event>)
    requires forall e | e in es :: Encodable(rt, e)
    ensures |r| == |es|
  {
    seq(|es|, i requires 0 <= i < |es| => Decoded(rt, es[i]))
  }

  lemma {:induction false} EventsOfValid(rt: Runtime, items: seq<Item>)
    requires ValidItems(rt, items)
    ensures forall e | e in EventsOf(items) :: Encodable(rt, e)
  {
    hide Encodable;
    if items != [] {
      assert ValidItem(rt, items[0]);
      EventsOfValid(rt, items[1..]);
    }
  }

  // ----- lines

  lemma {:induction false} SplitPlain(p: string, x: string)
    requires Plain(p)
    ensures var rest := SplitLines(x); SplitLines(p + x) == [p + rest[0]] + rest[1..]
  {
    var rest := SplitLines(x);
    if p == "" {
      assert p + x == x;
      assert p + rest[0] == rest[0];
      assert rest == [rest[0]] + rest[1..];
    } else {
      assert (p + x)[1..] == p[1..] + x;
      SplitPlain(p[1..], x);
      assert LineEnd(p + x) == 0 by {
        assert p[0] in p;
      }
      assert [p[0]] + (p[1..] + SplitLines(x)[0]) == p + SplitLines(x)[0];
    }
  }

  lemma SplitEol(p: string, eol: string, x: string)
    requires Plain(p) && IsEol(eol)
    ensures SplitLines(p + (eol + x)) == [p] + SplitLines(x)
  {
    assert (eol + x)[|eol|..] == x;
    assert LineEnd(eol + x) == |eol|;
    assert SplitLines(eol + x) == [""] + SplitLines(x);
    SplitPlain(p, eol + x);
    assert p + "" == p;
    assert ([""] + SplitLines(x))[1..] == SplitLines(x);
  }

  lemma SplitSingle(p: string, tail: string)
    requires Plain(p) && (tail == "" || tail == "\r")
    ensures SplitLines(p + tail) == [p + tail]
  {
    if tail == "\r" {
      assert LineEnd(tail) == 0 && tail[1..] == "";
      assert SplitLines(tail[1..]) == [""];
      assert SplitLines(tail) == [[tail[0]] + ""] + [""][1..];
      assert [tail[0]] + "" == tail && [""][1..] == [];
    }
    SplitPlain(p, tail);
  }

  lemma {:induction false} SplitJoined(lines: seq<string>, eol: string)
    requires lines != [] && IsEol(eol) && forall l | l in lines :: Plain(l)
    ensures SplitLines(JoinWith(lines, eol)) == lines
  {
    if |lines| == 1 {
      SplitSingle(lines[0], "");
      assert lines[0] + "" == lines[0];
    } else {
      SplitEol(lines[0], eol, JoinWith(lines[1..], eol));
      SplitJoined(lines[1..], eol);
    }
  }

  // ----- frames

  /** No boundary starts inside plain text. */
  lemma {:induction false} BoundarySkipsPlain(p: string, x: string)
    requires Plain(p)
    ensures FrameBoundary(p + x) == Shift(|p|, FrameBoundary(x))
  {
    hide FrameBoundary;
    if p == "" {
      assert p + x == x;
    } else {
      assert (p + x)[1..] == p[1..] + x;
      assert p[0] in p;
      assert BlankLine(p + x) == 0;
      BoundaryMovesOn(p + x);
      BoundarySkipsPlain(p[1..], x);
    }
  }

  lemma ShiftTwice(a: nat, b: nat, boundary: Option<Boundary>)
    ensures Shift(a, Shift(b, boundary)) == Shift(a + b, boundary)
  {
  }

  lemma BoundarySkipsFeed(y: string)
    requires LineEnd(y) == 0
    ensures FrameBoundary("\n" + y) == Shift(1, FrameBoundary(y))
  {
    hide FrameBoundary;
    var s := "\n" + y;
    assert s[1..] == y;
    BoundaryMovesOn(s);
  }

  lemma BoundarySkipsReturn(y: string)
    requires LineEnd(y) == 0
    ensures FrameBoundary("\r\n" + y) == Shift(1, FrameBoundary("\n" + y))
  {
    hide FrameBoundary;
    var s := "\r\n" + y;
    assert s[1..] == "\n" + y && s[2..] == y;
    BoundaryMovesOn(s);
  }

  lemma BoundarySkipsEol(eol: string, c: char, x: string)
    requires IsEol(eol) && c != '\n' && c != '\r'
    ensures FrameBoundary(eol + ([c] + x)) == Shift(|eol|, FrameBoundary([c] + x))
  {
    var y := [c] + x;
    assert LineEnd(y) == 0;
    hide FrameBoundary, LineEnd;
    BoundarySkipsFeed(y);
    BoundarySkipsReturn(y);
    ShiftTwice(1, 1, FrameBoundary(y));
    assert eol == "\n" || eol == "\r\n";
  }

  lemma BoundaryAtStart(eol: string, x: string)
    requires IsEol(eol)
    ensures FrameBoundary((eol + eol) + x) == Some(Boundary(0, 2 * |eol|))
  {
    var s := (eol + eol) + x;
    assert s[|eol|..] == eol + x;
    assert LineEnd(s) == |eol| && LineEnd(eol + x) == |eol|;
  }

  /** The first boundary of an encoded frame is the blank line that ends it, whatever follows. */
  lemma {:induction false} BoundaryOfJoined(lines: seq<string>, eol: string, x: string)
    requires lines != [] && IsEol(eol)
    requires forall l | l in lines :: Plain(l)
    requires |lines| > 1 ==> "" !in lines
    ensures FrameBoundary(JoinWith(lines, eol) + (eol + eol) + x)
         == Some(Boundary(|JoinWith(lines, eol)|, 2 * |eol|))
  {
    hide FrameBoundary;
    var end := (eol + eol) + x;
    if |lines| == 1 {
      assert JoinWith(lines, eol) + (eol + eol) + x == lines[0] + end;
      BoundarySkipsPlain(lines[0], end);
      BoundaryAtStart(eol, x);
    } else {
      var tail := JoinWith(lines[1..], eol);
      var after := tail + (eol + eol) + x;
      BoundaryOfJoined(lines[1..], eol, x);
      assert JoinWith(lines, eol) + (eol + eol) + x == lines[0] + (eol + after);
      assert lines[1] in lines && lines[1] != "" && lines[1][0] in lines[1];
      assert tail[0] == lines[1][0];
      assert after == [lines[1][0]] + after[1..];
      BoundarySkipsPlain(lines[0], eol + after);
      BoundarySkipsEol(eol, lines[1][0], after[1..]);
    }
  }

  lemma LinesArePlain(rt: Runtime, item: Item)
    requires ValidItem(rt, item)
    ensures var lines := Lines(item);
      && (forall l | l in lines :: Plain(l))
      && (|lines| > 1 ==> "" !in lines)
  {
    match item
    case EventItem(e, _) =>
      assert Plain(Decimal(e.id));
    case CommentItem(comments, _) =>
    case FailureItem(kind, payload, _) =>
  }

  // ----- the fields of a frame

  lemma {:induction false} NoLineStarts(lines: seq<string>, name: string)
    requires forall l | l in lines :: !(name <= Cook(l))
    ensures Values(lines, name) == []
  {
    hide Cook;
    if lines != [] {
      NoLineStarts(lines[..|lines| - 1], name);
    }
  }

  lemma {:induction false} OneLineStarts(lines: seq<string>, k: nat, name: string)
    requires k < |lines| && name <= Cook(lines[k])
    requires forall i | 0 <= i < |lines| && i != k :: !(name <= Cook(lines[i]))
    ensures Values(lines, name) == [Cook(lines[k])[|name|..]]
  {
    hide Cook;
    var last := |lines| - 1;
    if k == last {
      NoLineStarts(lines[..last], name);
    } else {
      OneLineStarts(lines[..last], k, name);
    }
  }

  lemma CookPlain(line: string)
    requires Plain(line)
    ensures Cook(line) == line
  {
    if line != "" {
      assert line[|line| - 1] in line;
    }
  }

  lemma StartsOnlyOne(line: string, name: string, other: string)
    requires name <= line && name != "" && other != "" && name[0] != other[0]
    ensures !(other <= line)
  {
    assert line[0] == name[0];
  }

  /** Three lines with one field each. */
  lemma FieldsOfThree(lines: seq<string>, id: string, kind: string, value: string)
    requires 3 <= |lines| <= 4
    requires Cook(lines[0]) == "id:" + id
    requires Cook(lines[1]) == "event:" + kind
    requires Cook(lines[2]) == "data:" + value
    requires |lines| == 4 ==> Cook(lines[3]) == ""
    ensures Values(lines, "id:") == [id]
    ensures Values(lines, "event:") == [kind]
    ensures Values(lines, "data:") == [value]
  {
    hide Cook, Values;
    var a, b, c := Cook(lines[0]), Cook(lines[1]), Cook(lines[2]);
    StartsOnlyOne(a, "id:", "event:");
    StartsOnlyOne(a, "id:", "data:");
    StartsOnlyOne(b, "event:", "id:");
    StartsOnlyOne(b, "event:", "data:");
    StartsOnlyOne(c, "data:", "id:");
    StartsOnlyOne(c, "data:", "event:");
    OneLineStarts(lines, 0, "id:");
    OneLineStarts(lines, 1, "event:");
    OneLineStarts(lines, 2, "data:");
  }

  /** Three lines, the third with the data, and nothing else of note. */
  lemma EventLinesMeaning(rt: Runtime, e: WireEvent, lines: seq<string>, value: string)
    requires Encodable(rt, e)
    requires 3 <= |lines| <= 4
    requires lines[0] == "id: " + Decimal(e.id) && lines[1] == "event: " + e.kind
    requires Cook(lines[2]) == "data:" + value
    requires |lines| == 4 ==> Cook(lines[3]) == ""
    ensures LinesMeaning(rt, lines) == Interpret(rt, Some(Integral(e.id)), e.kind, [TrimStart(value)])
  {
    var id, kind := " " + Decimal(e.id), " " + e.kind;
    CookPlain(lines[0]);
    CookPlain(lines[1]);
    assert lines[0] == "id:" + id;
    assert lines[1] == "event:" + kind;
    DigitsAreTrimmed(e.id);
    TrimOfTrimmed(Decimal(e.id));
    TrimOfTrimmed(e.kind);
    hide Cook, Trim, TrimStart, Interpret, Values, IsSpace;
    FieldsOfThree(lines, id, kind, value);
    assert TrimStarts([value]) == [TrimStart(value)];
  }

  /** Without a data line no event comes out, whatever `Number` makes of the id. */
  lemma NoDataNoEvent(rt: Runtime, lines: seq<string>)
    requires forall l | l in lines :: !("data:" <= Cook(l))
    requires !rt.json("").Object?
    ensures !LinesMeaning(rt, lines).Emits?
  {
    hide Cook, Trim;
    NoLineStarts(lines, "data:");
    assert TrimStarts([]) == [];
  }

  lemma DigitsAreTrimmed(n: nat)
    ensures Trimmed(Decimal(n))
  {
    var d := Decimal(n);
    assert d[0] in d && d[|d| - 1] in d;
  }

  lemma EventMeaning(rt: Runtime, e: WireEvent, lines: seq<string>)
    requires Encodable(rt, e)
    requires 3 <= |lines| <= 4
    requires lines[0] == "id: " + Decimal(e.id) && lines[1] == "event: " + e.kind
    requires Cook(lines[2]) == "data: " + e.payload
    requires |lines| == 4 ==> Cook(lines[3]) == ""
    ensures LinesMeaning(rt, lines) == Emits(Decoded(rt, e))
  {
    var value := " " + e.payload;
    assert "data: " + e.payload == "data:" + value;
    EventLinesMeaning(rt, e, lines, value);
    assert value[1..] == e.payload;
    assert TrimStart(value) == e.payload;
  }

  lemma SilentLines(rt: Runtime, lines: seq<string>)
    requires forall l | l in lines :: Cook(l) == "" || Cook(l)[0] == ':'
    ensures LinesMeaning(rt, lines) == Silent
  {
    hide Cook, Trim;
    NoLineStarts(lines, "id:");
    NoLineStarts(lines, "event:");
    NoLineStarts(lines, "data:");
    assert TrimStarts([]) == [];
  }

  /** A whole frame means its event, or nothing. */
  lemma ItemMeaning(rt: Runtime, item: Item)
    requires ValidItem(rt, item)
    ensures FrameMeaning(rt, JoinWith(Lines(item), item.eol))
         == if item.EventItem? then Emits(Decoded(rt, item.event))
            else if item.CommentItem? then Silent
            else Throws(InvalidCursor)
  {
    var lines := Lines(item);
    LinesArePlain(rt, item);
    SplitJoined(lines, item.eol);
    forall l | l in lines ensures Cook(l) == l {
      CookPlain(l);
    }
    hide Cook, Encodable, LinesMeaning, SplitLines;
    if item.EventItem? {
      assert lines[2] in lines;
      EventMeaning(rt, item.event, lines);
    } else if item.CommentItem? {
      SilentLines(rt, lines);
    } else {
      assert lines[0] in lines && lines[1] in lines;
      FailureMeaning(rt, item.kind, item.payload, lines);
    }
  }

  /** A type and data, but no id. */
  lemma FailureMeaning(rt: Runtime, kind: string, payload: string, lines: seq<string>)
    requires lines == ["event: " + kind, "data: " + payload]
    requires Cook(lines[0]) == lines[0] && Cook(lines[1]) == lines[1]
    ensures LinesMeaning(rt, lines) == Throws(InvalidCursor)
  {
    StartsOnlyOne(lines[0], "event:", "id:");
    StartsOnlyOne(lines[1], "data:", "id:");
    StartsOnlyOne(lines[0], "event:", "data:");
    hide Cook, Trim, TrimStart, JoinLines, Values;
    NoLineStarts(lines, "id:");
    OneLineStarts(lines, 1, "data:");
    assert |TrimStarts(Values(lines, "data:"))| == 1;
  }

  // ----- round trip

  lemma DrainItem(rt: Runtime, item: Item, x: string)
    requires ValidItem(rt, item)
    ensures Drain(rt, Text(item) + x)
         == if item.EventItem? then Prepend([Decoded(rt, item.event)], Drain(rt, x))
            else if item.CommentItem? then Drain(rt, x)
            else Drained([], x, Some(InvalidCursor))
  {
    hide FrameBoundary, FrameMeaning, Drain, Encodable;
    var lines, eol := Lines(item), item.eol;
    LinesArePlain(rt, item);
    BoundaryOfJoined(lines, eol, x);
    ItemMeaning(rt, item);
    var s := Text(item) + x;
    var frame := JoinWith(lines, eol);
    assert s[..|frame|] == frame;
    assert s[|frame| + 2 * |eol|..] == x;
    DrainUnfold(rt, s);
  }

  lemma DecodedAllCons(rt: Runtime, item: Item, items: seq<Item>)
    requires ValidItem(rt, item) && ValidItems(rt, items)
    requires forall e | e in EventsOf(items) :: Encodable(rt, e)
    requires forall e | e in EventsOf([item] + items) :: Encodable(rt, e)
    ensures DecodedAll(rt, EventsOf([item] + items))
         == (if item.EventItem? then [Decoded(rt, item.event)] else []) + DecodedAll(rt, EventsOf(items))
  {
    hide Encodable;
    assert ([item] + items)[1..] == items;
  }

  /**
   * Encoding any list of events, with LF or CRLF line ends and comment-only or empty frames in
   * between, and decoding the text gives exactly that list and leaves nothing in the buffer.
   */
  lemma RoundTrip(rt: Runtime, items: seq<Item>)
    requires ValidItems(rt, items) && FailsAtMostLast(items) && !EndsInFailure(items)
    ensures forall e | e in EventsOf(items) :: Encodable(rt, e)
    ensures Drain(rt, Encode(items)) == Drained(DecodedAll(rt, EventsOf(items)), "", None)
    ensures WholeOutcome(rt, Encode(items)) == Events(DecodedAll(rt, EventsOf(items)))
  {
    hide FrameBoundary, FrameMeaning, Drain, Encodable;
    EventsOfValid(rt, items);
    DrainEncoded(rt, items);
    var all := DecodedAll(rt, EventsOf(items));
    assert all + [] == all;
  }

  lemma {:induction false} DrainEncoded(rt: Runtime, items: seq<Item>)
    requires ValidItems(rt, items) && FailsAtMostLast(items) && !EndsInFailure(items)
    requires forall e | e in EventsOf(items) :: Encodable(rt, e)
    ensures Drain(rt, Encode(items)) == Drained(DecodedAll(rt, EventsOf(items)), "", None)
  {
    hide FrameBoundary, FrameMeaning, Drain, Encodable;
    if items == [] {
      NothingToDrain(rt, "");
    } else {
      assert ValidItem(rt, items[0]);
      EventsOfValid(rt, items[1..]);
      FailuresOfTail(items);
      DrainEncoded(rt, items[1..]);
      DrainItem(rt, items[0], Encode(items[1..]));
      DecodedAllCons(rt, items[0], items[1..]);
      assert [items[0]] + items[1..] == items;
    }
  }

  lemma FailuresOfTail(items: seq<Item>)
    requires items != [] && FailsAtMostLast(items)
    ensures FailsAtMostLast(items[1..])
    ensures |items| > 1 ==> !items[0].FailureItem? && EndsInFailure(items[1..]) == EndsInFailure(items)
    ensures |items| == 1 ==> EndsInFailure(items) == items[0].FailureItem?
  {
    var tail := items[1..];
    assert forall k | 0 <= k < |tail| :: tail[k] == items[k + 1];
  }

  /** The error that a stream raises once all of it has arrived, or has arrived up to frame k. */
  function FaultAt(items: seq<Item>, k: nat): Option<Fault> {
    if k == |items| && EndsInFailure(items) then Some(InvalidCursor) else None
  }

  /**
   * What has arrived of an encoded stream: the events of the first k frames are out, and the buffer
   * holds the beginning of frame k. A failure frame raises its error only when all of it has arrived.
   */
  ghost predicate DrainedUpTo(rt: Runtime, items: seq<Item>, arrived: string, k: nat) {
    && k <= |items|
    && (forall e | e in EventsOf(items[..k]) :: Encodable(rt, e))
    && Encode(items[..k]) <= arrived
    && var rest := arrived[|Encode(items[..k])|..];
    && Drain(rt, arrived) == Drained(DecodedAll(rt, EventsOf(items[..k])), rest, FaultAt(items, k))
    && (if k < |items| then rest < Text(items[k]) else rest == "")
  }

  /** Wherever a stream stops, it stops inside some frame k, or behind the last one. */
  lemma {:induction false} DrainCut(rt: Runtime, items: seq<Item>, arrived: string) returns (k: nat)
    requires ValidItems(rt, items) && FailsAtMostLast(items)
    requires arrived <= Encode(items)
    ensures DrainedUpTo(rt, items, arrived, k)
  {
    hide FrameBoundary, FrameMeaning, Drain, Encodable, Text, DecodedAll;
    if items == [] {
      k := 0;
      NothingToDrain(rt, "");
      return;
    }
    var head := Text(items[0]);
    assert ValidItem(rt, items[0]);
    if |arrived| < |head| {
      k := 0;
      assert items[..0] == [];
      assert arrived == Encode(items)[..|arrived|] == head[..|arrived|];
      CutHasNoBoundary(rt, items[0], arrived);
      DrainDone(rt, arrived);
    } else {
      hide DrainedUpTo;
      var tail := arrived[|head|..];
      assert arrived == head + tail;
      FailuresOfTail(items);
      var j := DrainCut(rt, items[1..], tail);
      DrainedPast(rt, items, tail, j);
      k := j + 1;
    }
  }

  lemma DrainedPast(rt: Runtime, items: seq<Item>, tail: string, j: nat)
    requires items != [] && ValidItems(rt, items) && FailsAtMostLast(items)
    requires DrainedUpTo(rt, items[1..], tail, j)
    ensures DrainedUpTo(rt, items, Text(items[0]) + tail, j + 1)
  {
    hide FrameBoundary, FrameMeaning, Drain, Encodable, Text, DecodedAll, ValidItem, EndsInFailure, FailsAtMostLast, Encode,
      EventsOf, FaultAt;
    var head, done := items[0], items[1..][..j];
    assert items[..j + 1] == [head] + done;
    assert ValidItem(rt, head);
    EventsOfValid(rt, items[..j + 1]);
    DrainItem(rt, head, tail);
    DecodedAllCons(rt, head, done);
    EncodeCons(head, done);
    DropPast(Text(head), tail, |Encode(done)|);
    FaultPast(items, j);
    if head.FailureItem? {
      NothingSent(rt, done);
      assert tail == "";
    }
  }

  lemma EncodeCons(head: Item, items: seq<Item>)
    ensures Encode([head] + items) == Text(head) + Encode(items)
  {
    hide Text;
    assert ([head] + items)[1..] == items;
  }

  lemma NothingSent(rt: Runtime, items: seq<Item>)
    requires items == []
    ensures Encode(items) == "" && EventsOf(items) == [] && DecodedAll(rt, EventsOf(items)) == []
  {
  }

  /** Reading past the first frame does not change which error a stream raises, unless that frame is the failure. */
  lemma FaultPast(items: seq<Item>, j: nat)
    requires items != [] && FailsAtMostLast(items) && j <= |items[1..]|
    ensures FaultAt(items, j + 1) == if items[0].FailureItem? then Some(InvalidCursor) else FaultAt(items[1..], j)
    ensures items[0].FailureItem? ==> |items| == 1
  {
    FailuresOfTail(items);
  }

  lemma DropPast(head: string, tail: string, n: nat)
    requires n <= |tail|
    ensures (head + tail)[|head| + n..] == tail[n..]
    ensures forall p: string :: p <= tail && |p| == n ==> head + p <= head + tail
  {
    assert (head + tail)[|head| + n..] == tail[n..];
    forall p: string | p <= tail && |p| == n
      ensures head + p <= head + tail
    {
      assert p == tail[..n];
      assert head + p == (head + tail)[..|head| + n];
    }
  }

  lemma NothingToDrain(rt: Runtime, s: string)
    requires s == ""
    ensures Drain(rt, s) == Drained([], "", None)
  {
  }

  /** A frame that is not complete has no boundary yet. */
  lemma CutHasNoBoundary(rt: Runtime, item: Item, cut: string)
    requires ValidItem(rt, item) && cut < Text(item)
    ensures FrameBoundary(cut).None?
  {
    hide FrameBoundary, Encodable;
    if FrameBoundary(cut).Some? {
      var rest := Text(item)[|cut|..];
      assert Text(item) + "" == Text(item);
      assert cut + rest == Text(item);
      BoundaryStable(cut, rest);
      BoundaryFits(cut);
      LinesArePlain(rt, item);
      BoundaryOfJoined(Lines(item), item.eol, "");
      assert false;
    }
  }

  // ----- a stream that stops inside a frame

  function Ended(lines: seq<string>, eol: string): string
    requires lines != []
  {
    JoinWith(lines, eol) + (eol + eol)
  }

  /** Where line k starts. */
  function Offset(lines: seq<string>, eol: string, k: nat): nat
    requires k <= |lines|
  {
    if k == 0 then 0 else |lines[0]| + |eol| + Offset(lines[1..], eol, k - 1)
  }

  function Upto(line: string, n: nat): string {
    if n <= |line| then line[..n] else line
  }

  lemma PlainPrefix(p: string, n: nat, flushed: string)
    requires Plain(p) && n <= |p| && (flushed == "" || flushed == MARK)
    ensures Plain(p[..n] + flushed)
  {
    assert forall i | 0 <= i < n :: p[..n][i] == p[i] && p[i] in p;
  }

  /** What follows the first line and its end. */
  function AfterFirst(lines: seq<string>, eol: string): string
    requires lines != []
  {
    if |lines| == 1 then eol else Ended(lines[1..], eol)
  }

  lemma EndedUnfold(lines: seq<string>, eol: string)
    requires lines != []
    ensures Ended(lines, eol) == lines[0] + (eol + AfterFirst(lines, eol))
  {
    if |lines| > 1 {
      assert JoinWith(lines, eol) == lines[0] + (eol + JoinWith(lines[1..], eol));
    }
  }

  lemma EmptyIsPlain()
    ensures Plain("")
  {
  }

  /** A cut in the first line or in its end. */
  lemma SplitFirstLine(line: string, eol: string, cut: string)
    requires Plain(line) && IsEol(eol) && cut < line + eol
    ensures SplitLines(cut) == [cut] && Cook(cut) == Upto(line, |cut|)
  {
    hide SplitLines;
    if |cut| <= |line| {
      assert cut == line[..|cut|];
      PlainPrefix(line, |cut|, "");
      assert cut + "" == cut;
      SplitSingle(cut, "");
      CookPlain(cut);
    } else {
      assert cut == line + "\r";
      SplitSingle(line, "\r");
    }
  }

  /** The lines of a frame that stops early: some whole lines and the beginning of the next. */
  lemma {:induction false} SplitCut(lines: seq<string>, eol: string, cut: string) returns (k: nat, last: string)
    requires lines != [] && IsEol(eol) && forall l | l in lines :: Plain(l)
    requires cut < Ended(lines, eol)
    ensures k <= |lines| && SplitLines(cut) == lines[..k] + [last]
    ensures var line := if k < |lines| then lines[k] else "";
      Cook(last) == Upto(line, |last|) && |last| < |line| + |eol|
    ensures |cut| == Offset(lines, eol, k) + |last|
  {
    hide SplitLines, Cook, JoinWith, Ended, Plain;
    var line, tail := lines[0], AfterFirst(lines, eol);
    assert line in lines;
    EndedUnfold(lines, eol);
    var n := |line| + |eol|;
    if |cut| < n {
      k, last := 0, cut;
      assert cut < line + eol;
      SplitFirstLine(line, eol, cut);
    } else {
      var more := cut[n..];
      assert cut == line + (eol + more);
      assert more < tail;
      SplitEol(line, eol, more);
      if |lines| == 1 {
        k, last := 1, more;
        EmptyIsPlain();
        assert more < "" + eol;
        SplitFirstLine("", eol, more);
      } else {
        var j;
        j, last := SplitCut(lines[1..], eol, more);
        k := j + 1;
        SnocPrefix(lines, j, last);
      }
    }
  }

  lemma SnocPrefix(lines: seq<string>, j: nat, last: string)
    requires lines != [] && j <= |lines[1..]|
    ensures [lines[0]] + (lines[1..][..j] + [last]) == lines[..j + 1] + [last]
  {
  }

  lemma EolIsAscii(eol: string)
    requires IsEol(eol)
    ensures forall i | 0 <= i < |eol| :: eol[i] < '\U{80}'
  {
  }

  /** The end of a line holds no character outside ASCII. */
  lemma NotInEol(text: string, line: string, eol: string, tail: string, n: nat)
    requires IsEol(eol) && text == line + (eol + tail)
    requires n < |text| && text[n] >= '\U{80}'
    ensures n < |line| || n >= |line| + |eol|
    ensures n >= |line| + |eol| ==> n - |line| - |eol| < |tail| && tail[n - |line| - |eol|] == text[n]
  {
    assert forall i | |line| <= i < |line| + |eol| :: text[i] == eol[i - |line|] < '\U{80}';
  }

  /** The same with a replacement mark where the next character is not ASCII. */
  lemma {:induction false} SplitMarkedCut(lines: seq<string>, eol: string, cut: string) returns (k: nat, last: string)
    requires lines != [] && IsEol(eol) && forall l | l in lines :: Plain(l)
    requires cut < Ended(lines, eol) && Ended(lines, eol)[|cut|] >= '\U{80}'
    ensures k < |lines| && SplitLines(cut + MARK) == lines[..k] + [last + MARK]
    ensures last < lines[k] && lines[k][|last|] >= '\U{80}'
    ensures |cut| == Offset(lines, eol, k) + |last|
  {
    hide SplitLines, JoinWith, Ended, Plain;
    var line, tail := lines[0], AfterFirst(lines, eol);
    assert line in lines;
    EndedUnfold(lines, eol);
    NotInEol(Ended(lines, eol), line, eol, tail, |cut|);
    if |cut| < |line| {
      k, last := 0, cut;
      assert cut == line[..|cut|];
      PlainPrefix(line, |cut|, MARK);
      SplitSingle(cut + MARK, "");
      assert (cut + MARK) + "" == cut + MARK;
    } else {
      var more := cut[|line| + |eol|..];
      assert cut + MARK == line + (eol + (more + MARK));
      SplitEol(line, eol, more + MARK);
      EolIsAscii(eol);
      if |lines| == 1 {
        assert false;
      } else {
        var j;
        j, last := SplitMarkedCut(lines[1..], eol, more);
        k := j + 1;
        SnocPrefix(lines, j, last + MARK);
      }
    }
  }

  /** What a byte decoder flushes after `cut`: nothing, or a mark inside a multi-byte character. */
  predicate FlushedAfter(text: string, cut: string, flushed: string) {
    && cut <= text
    && (flushed == "" || (flushed == MARK && cut < text && text[|cut|] >= '\U{80}'))
  }

  /** The lines of a cut: some whole lines, and a last one that began as line k. */
  ghost predicate IsCutOf(lines: seq<string>, eol: string, cut: string, flushed: string, k: nat, tail: string, got: seq<string>) {
    && k <= |lines| && |got| == k + 1 && got[..k] == lines[..k] && Cook(got[k]) == tail
    && |cut| + |flushed| == Offset(lines, eol, k) + |got[k]|
    && (forall l | l in lines :: Cook(l) == l)
    && var line := if k < |lines| then lines[k] else "";
    && |got[k]| < |line| + |eol|
    && if flushed == "" then tail == Upto(line, |got[k]|)
       else flushed == MARK && got[k] == tail && exists c: string :: c < line && line[|c|] >= '\U{80}' && tail == c + MARK
  }

  lemma LinesOfCut(rt: Runtime, item: Item, cut: string, flushed: string) returns (k: nat, tail: string)
    requires ValidItem(rt, item)
    requires cut < Text(item) && FlushedAfter(Text(item), cut, flushed)
    ensures IsCutOf(Lines(item), item.eol, cut, flushed, k, tail, SplitLines(cut + flushed))
  {
    LinesArePlain(rt, item);
    var lines := Lines(item);
    forall l | l in lines ensures Cook(l) == l {
      CookPlain(l);
    }
    hide Cook, SplitLines, JoinWith, Lines, Plain, IsCutOf;
    if flushed == "" {
      k, tail := LinesOfPlainCut(lines, item.eol, cut);
      assert cut + flushed == cut;
    } else {
      k, tail := LinesOfMarkedCut(lines, item.eol, cut);
    }
  }

  lemma LinesOfPlainCut(lines: seq<string>, eol: string, cut: string) returns (k: nat, tail: string)
    requires lines != [] && IsEol(eol) && forall l | l in lines :: Plain(l) && Cook(l) == l
    requires cut < Ended(lines, eol)
    ensures IsCutOf(lines, eol, cut, "", k, tail, SplitLines(cut))
  {
    hide Cook, SplitLines, Ended, Plain, Offset;
    var last;
    k, last := SplitCut(lines, eol, cut);
    tail := Cook(last);
  }

  lemma LinesOfMarkedCut(lines: seq<string>, eol: string, cut: string) returns (k: nat, tail: string)
    requires lines != [] && IsEol(eol) && forall l | l in lines :: Plain(l) && Cook(l) == l
    requires cut < Ended(lines, eol) && Ended(lines, eol)[|cut|] >= '\U{80}'
    ensures IsCutOf(lines, eol, cut, MARK, k, tail, SplitLines(cut + MARK))
  {
    hide Cook, SplitLines, Ended, Plain, Offset;
    var last;
    k, last := SplitMarkedCut(lines, eol, cut);
    assert lines[k] in lines && last == lines[k][..|last|];
    PlainPrefix(lines[k], |last|, MARK);
    CookPlain(last + MARK);
    tail := last + MARK;
  }

  /** All of the frame but its blank line has arrived, and perhaps some of that. */
  predicate Readable(item: Item, cut: string) {
    item.EventItem? && |JoinWith(Lines(item), item.eol)| <= |cut|
  }

  /**
   * The cut is an error: of an event, at least `id:` has arrived, and not the whole data line; of a
   * failure frame, at least its data line has begun.
   */
  predicate Torn(item: Item, cut: string) {
    match item
    case EventItem(_, _) => 3 <= |cut| < |JoinWith(Lines(item), item.eol)|
    case CommentItem(_, _) => false
    case FailureItem(kind, _, eol) => |"event: " + kind + eol + "data:"| <= |cut|
  }

  /**
   * A frame that stops early never turns into another event. It means its own event exactly when its
   * data line is complete, raises an error exactly when it is torn, and means nothing otherwise.
   */
  lemma CutMeaning(rt: Runtime, item: Item, cut: string, flushed: string)
    requires ValidItem(rt, item)
    requires item.EventItem? ==> SelfDelimiting(rt, item.event.payload)
    requires cut < Text(item) && FlushedAfter(Text(item), cut, flushed)
    ensures var m := FrameMeaning(rt, cut + flushed);
      && (m.Emits? <==> Readable(item, cut))
      && (m.Emits? ==> m.event == Decoded(rt, item.event))
      && (m.Throws? <==> Torn(item, cut))
  {
    hide Cook, SplitLines, Lines, IsCutOf, Encodable, SelfDelimiting, LinesMeaning, JoinWith;
    var k, tail := LinesOfCut(rt, item, cut, flushed);
    var got := SplitLines(cut + flushed);
    if item.CommentItem? {
      CutComment(rt, item, cut, flushed, k, tail, got);
    } else if item.FailureItem? {
      CutFailure(rt, item, cut, flushed, k, tail, got);
    } else {
      CutEvent(rt, item.event, item.eol, cut, flushed, k, tail, got);
      CutEventSilent(rt, item.event, item.eol, cut, flushed, k, tail, got);
      JoinedThree(item);
    }
  }

  lemma JoinedThree(item: Item)
    requires item.EventItem?
    ensures |JoinWith(Lines(item), item.eol)| >= 3
  {
    JoinedLength(Lines(item), item.eol);
    OffsetGrows(Lines(item), item.eol, 2);
  }

  lemma CutComment(rt: Runtime, item: Item, cut: string, flushed: string, k: nat, tail: string, got: seq<string>)
    requires ValidItem(rt, item) && item.CommentItem?
    requires IsCutOf(Lines(item), item.eol, cut, flushed, k, tail, got)
    ensures LinesMeaning(rt, got) == Silent
  {
    hide Cook, LinesMeaning, Offset;
    var lines := Lines(item);
    forall l | l in got ensures Cook(l) == "" || Cook(l)[0] == ':' {
      var i :| 0 <= i < |got| && got[i] == l;
      if i < k {
        assert got[..k][i] == lines[i] && lines[i] in lines;
        assert l == "" || l[0] == ':';
      } else {
        assert k < |lines| ==> lines[k] in lines;
        assert k < |lines| ==> lines[k] == "" || lines[k][0] == ':';
      }
    }
    SilentLines(rt, got);
  }

  /** Without an id line no event comes out: a cut failure frame is an error once it has data. */
  lemma CutFailure(rt: Runtime, item: Item, cut: string, flushed: string, k: nat, tail: string, got: seq<string>)
    requires item.FailureItem? && IsCutOf(Lines(item), item.eol, cut, flushed, k, tail, got)
    ensures var m := LinesMeaning(rt, got); !m.Emits? && (m.Throws? <==> Torn(item, cut))
  {
    hide Cook, IsCutOf, LinesMeaning, Torn, Lines;
    NoIdInFailure(item, cut, flushed, k, tail, got);
    DataInFailure(item, cut, flushed, k, tail, got);
    LinesWithoutId(rt, got);
    NoIdNoEvent(rt, got);
  }

  lemma NoIdNoEvent(rt: Runtime, lines: seq<string>)
    requires forall l | l in lines :: !("id:" <= Cook(l))
    ensures !LinesMeaning(rt, lines).Emits?
  {
    hide Cook, Values, Trim, TrimStart, JoinLines;
    NoValuesIff(lines, "id:");
  }

  lemma NoIdInFailure(item: Item, cut: string, flushed: string, k: nat, tail: string, got: seq<string>)
    requires item.FailureItem? && IsCutOf(Lines(item), item.eol, cut, flushed, k, tail, got)
    ensures forall l | l in got :: !("id:" <= Cook(l))
  {
    hide Cook, Offset;
    var lines := Lines(item);
    assert lines[0][0] == 'e' && lines[1][0] == 'd';
    assert lines[0] in lines && lines[1] in lines;
    forall l | l in got ensures !("id:" <= Cook(l)) {
      var i :| 0 <= i < |got| && got[i] == l;
      if i < k {
        assert got[..k][i] == lines[i] && Cook(l)[0] in {'e', 'd'};
      } else {
        assert tail != "" ==> tail[0] in {'e', 'd', '\U{FFFD}'};
      }
    }
  }

  lemma DataInFailure(item: Item, cut: string, flushed: string, k: nat, tail: string, got: seq<string>)
    requires item.FailureItem? && IsCutOf(Lines(item), item.eol, cut, flushed, k, tail, got)
    ensures Torn(item, cut) <==> exists l | l in got :: "data:" <= Cook(l)
  {
    TornWhen(item, cut, flushed, k, tail, got);
    hide Cook, Offset, Torn;
    var lines := Lines(item);
    assert lines[0][0] == 'e' && lines[0] in lines && lines[1] in lines;
    assert !("data:" <= Cook(lines[0]));
    if k == 0 {
      assert tail != "" ==> tail[0] in {'e', '\U{FFFD}'};
      assert got == [got[0]];
    } else if k == 1 {
      assert got == [got[0], got[1]] && got[0] == got[..k][0] == lines[0];
      DataLineBegins(item.payload, flushed, tail, |got[1]|);
      assert got[1] in got && Cook(got[1]) == tail;
    } else {
      assert got[1] == got[..k][1] == lines[1] && got[1] in got;
    }
  }

  lemma TornWhen(item: Item, cut: string, flushed: string, k: nat, tail: string, got: seq<string>)
    requires item.FailureItem? && IsCutOf(Lines(item), item.eol, cut, flushed, k, tail, got)
    ensures Torn(item, cut) <==> k == 2 || (k == 1 && |got[1]| - |flushed| >= 5)
  {
    var lines, eol := Lines(item), item.eol;
    OffsetStart(lines, eol);
    OffsetStep(lines, eol, 0);
    OffsetStep(lines, eol, 1);
    hide Cook, Offset;
    assert |"event: " + item.kind + eol + "data:"| == |lines[0]| + |eol| + 5;
  }

  /** A data line that stops early has its field name exactly when five characters are there. */
  lemma DataLineBegins(payload: string, flushed: string, tail: string, n: nat)
    requires var line := "data: " + payload;
      if flushed == "" then tail == Upto(line, n)
      else n == |tail| && exists c: string :: c < line && line[|c|] >= '\U{80}' && tail == c + MARK
    ensures "data:" <= tail <==> n >= 5
    ensures flushed != "" ==> n > 5
  {
    var line := "data: " + payload;
    if flushed == "" {
      if n >= 5 {
        assert tail[..5] == line[..5] == "data:";
      }
    } else {
      var c: string :| c < line && line[|c|] >= '\U{80}' && tail == c + MARK;
      AsciiBeforePayload(payload, |c|);
      assert tail[..5] == line[..5] == "data:";
    }
  }

  lemma OffsetStart(lines: seq<string>, eol: string)
    ensures Offset(lines, eol, 0) == 0
  {
  }

  lemma {:induction false} OffsetStep(lines: seq<string>, eol: string, k: nat)
    requires k < |lines|
    ensures Offset(lines, eol, k + 1) == Offset(lines, eol, k) + |lines[k]| + |eol|
  {
    if k > 0 {
      OffsetStep(lines[1..], eol, k - 1);
    }
  }

  lemma {:induction false} JoinedLength(lines: seq<string>, eol: string)
    requires lines != []
    ensures |JoinWith(lines, eol)| == Offset(lines, eol, |lines| - 1) + |lines[|lines| - 1]|
  {
    if |lines| > 1 {
      JoinedLength(lines[1..], eol);
    }
  }

  /** The data line of an event is complete when its line, or a later one, is there in full. */
  lemma ReadableWhen(item: Item, cut: string, flushed: string, k: nat, tail: string, got: seq<string>)
    requires item.EventItem? && IsCutOf(Lines(item), item.eol, cut, flushed, k, tail, got)
    requires k == 2 && flushed != "" ==> tail != Lines(item)[2]
    ensures Readable(item, cut) <==> k == 3 || (k == 2 && tail == Lines(item)[2])
  {
    var lines, eol := Lines(item), item.eol;
    OffsetStart(lines, eol);
    OffsetStep(lines, eol, 0);
    OffsetStep(lines, eol, 1);
    OffsetStep(lines, eol, 2);
    JoinedLength(lines, eol);
    hide Cook, Offset, JoinWith, Lines;
  }

  /** An event comes out of a cut exactly when the data line is complete, and it is the right one. */
  lemma CutEvent(rt: Runtime, e: WireEvent, eol: string, cut: string, flushed: string, k: nat, tail: string, got: seq<string>)
    requires Encodable(rt, e) && SelfDelimiting(rt, e.payload)
    requires IsCutOf(Lines(EventItem(e, eol)), eol, cut, flushed, k, tail, got)
    ensures var m := LinesMeaning(rt, got);
      (m.Emits? <==> Readable(EventItem(e, eol), cut)) && (m.Emits? ==> m.event == Decoded(rt, e))
  {
    var lines := Lines(EventItem(e, eol));
    MarkIsNoEnd(rt, e);
    ReadableWhen(EventItem(e, eol), cut, flushed, k, tail, got);
    hide Cook, LinesMeaning, Encodable, Offset, JoinWith, Readable;
    assert forall i | 0 <= i < k :: got[i] == got[..k][i] == lines[i];
    if k == 3 || (k == 2 && tail == lines[2]) {
      EventMeaning(rt, e, got);
    } else if k < 2 || !("data:" <= tail) {
      NoDataInEvent(EventItem(e, eol), cut, flushed, k, tail, got);
      assert !rt.json("").Object? by {
        PayloadIsNotEmpty(rt, e);
        assert "" < e.payload;
      }
      NoDataNoEvent(rt, got);
    } else {
      CutData(rt, e, flushed, tail, got);
    }
  }

  /** An object does not end with a replacement mark: without the mark it would be cut. */
  lemma MarkIsNoEnd(rt: Runtime, e: WireEvent)
    requires Encodable(rt, e) && SelfDelimiting(rt, e.payload)
    ensures forall c: string :: c < "data: " + e.payload ==> c + MARK != "data: " + e.payload
  {
    hide IsSpace;
    var line, cut := "data: " + e.payload, e.payload[..|e.payload| - 1];
    assert cut < e.payload && cut + MARK != e.payload;
    assert e.payload == cut + [e.payload[|e.payload| - 1]];
    assert line[|line| - 1] != '\U{FFFD}';
    forall c: string | c < line
      ensures c + MARK != line
    {
      assert (c + MARK)[|c|] == '\U{FFFD}';
    }
  }

  lemma NoDataInEvent(item: Item, cut: string, flushed: string, k: nat, tail: string, got: seq<string>)
    requires item.EventItem? && IsCutOf(Lines(item), item.eol, cut, flushed, k, tail, got)
    requires k < 2 || (k == 2 && !("data:" <= tail))
    ensures forall l | l in got :: !("data:" <= Cook(l))
  {
    hide Cook, Offset;
    var lines := Lines(item);
    assert lines[0][0] == 'i' && lines[1][0] == 'e';
    assert lines[0] in lines && lines[1] in lines;
    forall l | l in got ensures !("data:" <= Cook(l)) {
      var i :| 0 <= i < |got| && got[i] == l;
      if i < k {
        assert got[..k][i] == lines[i] && Cook(l)[0] in {'i', 'e'};
      } else if k < 2 {
        assert tail != "" ==> tail[0] in {'i', 'e', '\U{FFFD}'};
      }
    }
  }

  /** A cut event is passed over exactly when not even `id:` has arrived. */
  lemma CutEventSilent(rt: Runtime, e: WireEvent, eol: string, cut: string, flushed: string, k: nat, tail: string, got: seq<string>)
    requires IsCutOf(Lines(EventItem(e, eol)), eol, cut, flushed, k, tail, got)
    requires FlushedAfter(Text(EventItem(e, eol)), cut, flushed)
    ensures LinesMeaning(rt, got).Silent? <==> |cut| < 3
  {
    var item := EventItem(e, eol);
    var lines := Lines(item);
    OffsetStart(lines, eol);
    OffsetStep(lines, eol, 0);
    assert lines[0] in lines && lines[0][..3] == "id:";
    hide Cook, LinesMeaning, Offset, JoinWith;
    if k > 0 {
      assert got[0] == got[..k][0] == lines[0];
      OffsetGrows(lines, eol, k);
      WithId(rt, got, got[0]);
    } else {
      IdIsAscii(e.id);
      assert flushed == "" && |cut| == |got[0]|;
      IdLineBegins(rt, lines[0], |cut|, tail, got);
    }
  }

  lemma IdLineBegins(rt: Runtime, line: string, n: nat, tail: string, got: seq<string>)
    requires "id:" <= line && |got| == 1 && Cook(got[0]) == tail && tail == Upto(line, n)
    ensures LinesMeaning(rt, got).Silent? <==> n < 3
  {
    hide Cook, LinesMeaning;
    if n >= 3 {
      assert tail[..3] == line[..3];
      WithId(rt, got, got[0]);
    } else {
      assert got == [got[0]] && |tail| < 3;
      LinesWithoutId(rt, got);
    }
  }

  lemma {:induction false} OffsetGrows(lines: seq<string>, eol: string, k: nat)
    requires 0 < k <= |lines|
    ensures Offset(lines, eol, k) >= |lines[0]|
  {
  }

  lemma IdIsAscii(id: nat)
    ensures forall i | 0 <= i < |"id: " + Decimal(id)| :: ("id: " + Decimal(id))[i] < '\U{80}'
  {
    var d := Decimal(id);
    assert forall i | 0 <= i < |d| :: d[i] in d;
  }

  /** With an id line, a frame is never passed over. */
  lemma WithId(rt: Runtime, lines: seq<string>, line: string)
    requires line in lines && "id:" <= Cook(line)
    ensures !LinesMeaning(rt, lines).Silent?
  {
    hide Cook, Values, Trim, TrimStart, JoinLines;
    NoValuesIff(lines, "id:");
  }

  lemma PayloadIsNotEmpty(rt: Runtime, e: WireEvent)
    requires Encodable(rt, e)
    ensures e.payload != "" && !IsSpace(e.payload[0])
  {
  }

  /** The stream stops inside the payload. */
  lemma CutData(rt: Runtime, e: WireEvent, flushed: string, tail: string, got: seq<string>)
    requires Encodable(rt, e) && SelfDelimiting(rt, e.payload)
    requires |got| == 3 && got[0] == "id: " + Decimal(e.id) && got[1] == "event: " + e.kind && Cook(got[2]) == tail
    requires var line := "data: " + e.payload;
      "data:" <= tail &&
      (if flushed == "" then tail < line
       else exists c: string :: c < line && line[|c|] >= '\U{80}' && tail == c + MARK)
    ensures !LinesMeaning(rt, got).Emits?
  {
    hide Cook, LinesMeaning, Encodable, SelfDelimiting;
    var value := tail[5..];
    assert tail == "data:" + value;
    EventLinesMeaning(rt, e, got, value);
    PayloadIsNotEmpty(rt, e);
    CutValue(rt, e.payload, flushed, tail);
  }

  /** What is left of the payload is no object. */
  lemma CutValue(rt: Runtime, payload: string, flushed: string, tail: string)
    requires payload != "" && !IsSpace(payload[0]) && SelfDelimiting(rt, payload)
    requires var line := "data: " + payload;
      "data:" <= tail &&
      (if flushed == "" then tail < line
       else exists c: string :: c < line && line[|c|] >= '\U{80}' && tail == c + MARK)
    ensures !rt.json(TrimStart(tail[5..])).Object?
  {
    hide IsSpace;
    var line, value := "data: " + payload, tail[5..];
    if flushed == "" {
      if |tail| > 5 {
        PastTheField(payload, |tail|);
        assert tail == line[..|tail|];
        DataCut(payload, |tail| - 6, "");
        assert payload[..|tail| - 6] + "" == payload[..|tail| - 6];
      } else {
        assert value == "" && "" < payload;
        assert TrimStart(value) == "";
      }
    } else {
      var c: string :| c < line && line[|c|] >= '\U{80}' && tail == c + MARK;
      AsciiBeforePayload(payload, |c|);
      PastTheField(payload, |c|);
      assert c == line[..|c|];
      assert value == c[5..] + MARK;
      assert value == " " + (payload[..|c| - 6] + MARK);
      DataCut(payload, |c| - 6, MARK);
    }
  }

  /** What follows the field name in a prefix of a data line. */
  lemma PastTheField(payload: string, n: nat)
    requires 6 <= n <= |"data: " + payload|
    ensures ("data: " + payload)[..n][5..] == " " + payload[..n - 6]
  {
    var line := "data: " + payload;
    var left, right := line[..n][5..], " " + payload[..n - 6];
    assert |left| == |right|;
    forall i | 0 <= i < |left|
      ensures left[i] == right[i]
    {
      if i == 0 {
        assert line[5] == ' ';
      } else {
        assert line[5 + i] == payload[i - 1];
      }
    }
    assert left == right;
  }

  lemma AsciiBeforePayload(payload: string, n: nat)
    requires n < |"data: " + payload| && ("data: " + payload)[n] >= '\U{80}'
    ensures n >= 6
  {
  }

  lemma DataCut(payload: string, n: nat, flushed: string)
    requires payload != "" && !IsSpace(payload[0]) && n < |payload|
    requires flushed == "" || flushed == MARK
    ensures TrimStart(" " + (payload[..n] + flushed)) == payload[..n] + flushed
    ensures payload[..n] < payload
  {
    var rest := payload[..n] + flushed;
    assert (" " + rest)[1..] == rest;
    assert rest != "" ==> !IsSpace(rest[0]);
    assert TrimStart(rest) == rest;
  }

  // ----- a stream that stops anywhere

  lemma EventsOfUnfold(items: seq<Item>, head: seq<WireEvent>)
    requires items != [] && head == if items[0].EventItem? then [items[0].event] else []
    ensures EventsOf(items) == head + EventsOf(items[1..])
  {
  }

  lemma {:induction false} EventsOfAppend(a: seq<Item>, b: seq<Item>)
    ensures EventsOf(a + b) == EventsOf(a) + EventsOf(b)
  {
    if a == [] {
      assert a + b == b;
    } else {
      hide EventsOf;
      var head := if a[0].EventItem? then [a[0].event] else [];
      assert (a + b)[1..] == a[1..] + b;
      EventsOfAppend(a[1..], b);
      EventsOfUnfold(a, head);
      EventsOfUnfold(a + b, head);
    }
  }

  lemma {:induction false} EncodeAppend(a: seq<Item>, b: seq<Item>)
    ensures Encode(a + b) == Encode(a) + Encode(b)
  {
    if a == [] {
      assert a + b == b;
    } else {
      assert (a + b)[1..] == a[1..] + b;
      EncodeAppend(a[1..], b);
    }
  }

  /** The text after frame k starts with what frame k still misses. */
  lemma CutInsideItem(items: seq<Item>, k: nat, arrived: string, rest: string)
    requires k < |items| && arrived <= Encode(items) && Encode(items[..k]) <= arrived
    requires rest == arrived[|Encode(items[..k])|..] && rest < Text(items[k])
    ensures |arrived| < |Encode(items)| && Encode(items)[|arrived|] == Text(items[k])[|rest|]
  {
    assert items[..k] + items[k..] == items;
    EncodeAppend(items[..k], items[k..]);
    assert Encode(items[k..]) == Text(items[k]) + Encode(items[k..][1..]);
  }

  /** A mark that follows a beginning of a frame completes no boundary. */
  lemma MarkedCutHasNoBoundary(rt: Runtime, item: Item, cut: string)
    requires ValidItem(rt, item) && cut < Text(item)
    ensures FrameBoundary(cut + MARK).None?
  {
    hide Encodable;
    CutHasNoBoundary(rt, item, cut);
    NoBoundaryAppend(cut, '\U{FFFD}');
  }

  lemma {:induction false} NoBoundaryAppend(s: string, c: char)
    requires FrameBoundary(s).None? && c != '\n' && c != '\r'
    ensures FrameBoundary(s + [c]).None?
  {
    var t := s + [c];
    NoBlankLineAppend(s, c);
    if s == "" {
      assert t[1..] == "";
    } else {
      assert t[1..] == s[1..] + [c];
      hide BlankLine;
      NoBoundaryAppend(s[1..], c);
    }
  }

  lemma NoBlankLineAppend(s: string, c: char)
    requires BlankLine(s) == 0 && c != '\n' && c != '\r'
    ensures BlankLine(s + [c]) == 0
  {
    LineEndAppend(s, c);
    var n := LineEnd(s);
    LineEndAppend(s[n..], c);
    hide LineEnd;
    assert (s + [c])[n..] == s[n..] + [c];
  }

  lemma LineEndAppend(s: string, c: char)
    requires c != '\n' && c != '\r'
    ensures LineEnd(s + [c]) == LineEnd(s)
  {
  }

  /** The frame that a stream stops in is torn. */
  predicate TornIn(items: seq<Item>, arrived: string) {
    && items != []
    && var n := |Text(items[0])|;
       if |arrived| < n then Torn(items[0], arrived) else TornIn(items[1..], arrived[n..])
  }

  lemma {:induction false} TornWhere(items: seq<Item>, arrived: string, k: nat)
    requires k <= |items| && Encode(items[..k]) <= arrived
    requires var rest := arrived[|Encode(items[..k])|..]; if k < |items| then |rest| < |Text(items[k])| else rest == ""
    ensures TornIn(items, arrived) <==> k < |items| && Torn(items[k], arrived[|Encode(items[..k])|..])
  {
    hide Text, Torn, Encode;
    if k == 0 {
      assert items[..0] == [] && arrived[0..] == arrived;
      EncodeNothing();
    } else {
      var head, done := Text(items[0]), items[1..][..k - 1];
      assert items[..k] == [items[0]] + done;
      EncodeCons(items[0], done);
      var tail := arrived[|head|..];
      BehindFrame(arrived, head, Encode(done));
      TornWhere(items[1..], tail, k - 1);
      assert items[k..] == items[1..][k - 1..];
    }
  }

  lemma BehindFrame(arrived: string, head: string, done: string)
    requires head + done <= arrived
    ensures done <= arrived[|head|..]
    ensures arrived[|head + done|..] == arrived[|head|..][|done|..]
  {
    assert arrived == (head + done) + arrived[|head + done|..];
  }

  lemma EncodeNothing()
    ensures Encode([]) == ""
  {
  }

  lemma {:induction false} TrimEndKeepsFirst(s: string)
    requires s != "" && !IsSpace(s[0])
    ensures TrimEnd(s) != ""
  {
    if IsSpace(s[|s| - 1]) {
      TrimEndKeepsFirst(s[..|s| - 1]);
    }
  }

  lemma NotBlank(item: Item, cut: string, flushed: string)
    requires cut < Text(item) && (Torn(item, cut) || Readable(item, cut))
    ensures Trim(cut + flushed) != ""
  {
    if item.EventItem? {
      JoinedThree(item);
    }
    TextStarts(item);
    hide Text, JoinWith, Lines;
    assert cut[0] == Text(item)[0];
    assert !IsSpace(cut[0]) && TrimStart(cut + flushed) == cut + flushed;
    TrimEndKeepsFirst(cut + flushed);
  }

  lemma TextStarts(item: Item)
    requires !item.CommentItem?
    ensures Text(item) != "" && Text(item)[0] in {'i', 'e'}
  {
    var lines := Lines(item);
    assert JoinWith(lines, item.eol) == lines[0] + (item.eol + JoinWith(lines[1..], item.eol));
  }

  /** What flushing a response gives that stops inside a frame. */
  ghost predicate FlushGives(rt: Runtime, item: Item, cut: string, last: Result) {
    && (last.Error? <==> Torn(item, cut))
    && (last.Events? && last.events != [] ==>
          item.EventItem? && Readable(item, cut) && Encodable(rt, item.event) && last.events == [Decoded(rt, item.event)])
    && (Readable(item, cut) ==> last.Events? && last.events != [])
  }

  lemma CutFlush(rt: Runtime, item: Item, cut: string, flushed: string)
    requires ValidItem(rt, item)
    requires item.EventItem? ==> SelfDelimiting(rt, item.event.payload)
    requires cut < Text(item) && FlushedAfter(Text(item), cut, flushed)
    ensures FlushGives(rt, item, cut, FlushOutcome(rt, cut + flushed))
  {
    CutMeaning(rt, item, cut, flushed);
    if Torn(item, cut) || Readable(item, cut) {
      NotBlank(item, cut, flushed);
    }
    hide Trim, FrameMeaning, Text, Encodable, SelfDelimiting, Torn;
  }

  /**
   * A stream has stopped behind the first k frames, inside frame k if there is one: their events are
   * out, and finishing gives what the cut frame means.
   */
  ghost predicate StoppedIn(rt: Runtime, items: seq<Item>, arrived: string, flushed: string, k: nat) {
    && DrainedUpTo(rt, items, arrived, k)
    && (k == |items| <==> arrived == Encode(items))
    && (FaultAt(items, k) == None ==>
          var cut := arrived[|Encode(items[..k])|..];
          && Drain(rt, cut + flushed) == Drained([], cut + flushed, None)
          && (if k < |items| then FlushGives(rt, items[k], cut, FlushOutcome(rt, cut + flushed))
              else FlushOutcome(rt, cut + flushed) == Events([])))
  }

  /** Wherever an encoded stream stops, even inside a multi-byte character. */
  lemma StopAnywhere(rt: Runtime, items: seq<Item>, arrived: string, flushed: string) returns (k: nat)
    requires ValidItems(rt, items) && FailsAtMostLast(items) && Delimited(rt, items)
    requires FlushedAfter(Encode(items), arrived, flushed)
    ensures StoppedIn(rt, items, arrived, flushed, k)
  {
    hide FrameBoundary, Drain, Encodable, FlushOutcome, FlushGives, Text;
    k := DrainCut(rt, items, arrived);
    var cut := arrived[|Encode(items[..k])|..];
    if k < |items| {
      var item := items[k];
      assert ValidItem(rt, item);
      CutInsideItem(items, k, arrived, cut);
      if flushed == "" {
        assert cut + flushed == cut;
        CutHasNoBoundary(rt, item, cut);
      } else {
        MarkedCutHasNoBoundary(rt, item, cut);
      }
      DrainDone(rt, cut + flushed);
      CutFlush(rt, item, cut, flushed);
    } else {
      assert items[..k] == items;
      assert arrived == Encode(items) && flushed == "";
      assert cut + flushed == "";
      NothingToDrain(rt, "");
      NothingToFlush(rt);
    }
  }

  lemma NothingToFlush(rt: Runtime)
    ensures FlushOutcome(rt, "") == Events([])
  {
  }

  lemma DecodedAllAppend(rt: Runtime, a: seq<WireEvent>, b: seq<WireEvent>)
    requires forall e | e in a :: Encodable(rt, e)
    requires forall e | e in b :: Encodable(rt, e)
    ensures DecodedAll(rt, a + b) == DecodedAll(rt, a) + DecodedAll(rt, b)
  {
    hide Encodable;
  }

  /**
   * No corrupted delivery: whatever prefix of an encoded stream arrives, and whether or not it
   * stops inside a character, the events handed out up to and including `finish` are a prefix of
   * the events sent, unchanged in id, type and data. Before `finish`, an error is raised exactly by a
   * failure frame that is complete; `finish` raises one exactly if the stream stops in a torn frame.
   */
  lemma NoCorruptedDelivery(rt: Runtime, items: seq<Item>, arrived: string, flushed: string)
    requires ValidItems(rt, items) && FailsAtMostLast(items) && Delimited(rt, items)
    requires FlushedAfter(Encode(items), arrived, flushed)
    ensures forall e | e in EventsOf(items) :: Encodable(rt, e)
    ensures var sent, d := DecodedAll(rt, EventsOf(items)), Drain(rt, arrived);
      && d.events <= sent
      && d.fault == (if arrived == Encode(items) && EndsInFailure(items) then Some(InvalidCursor) else None)
      && (d.fault.None? ==>
            && Drain(rt, d.rest + flushed) == Drained([], d.rest + flushed, None)
            && var last := FlushOutcome(rt, d.rest + flushed);
            && (last.Error? <==> TornIn(items, arrived))
            && (last.Events? ==> d.events + last.events <= sent))
  {
    hide FrameBoundary, Drain, Encodable, FlushOutcome, ValidItems, Delimited, FlushedAfter, DecodedAll, EndsInFailure,
      Torn, TornIn, Text, Readable;
    var k := StopAnywhere(rt, items, arrived, flushed);
    TornWhere(items, arrived, k);
    EventsOfValid(rt, items);
    SentSoFar(rt, items, k);
  }

  /** The events of the first k frames, and that of the next one, begin what was sent. */
  lemma SentSoFar(rt: Runtime, items: seq<Item>, k: nat)
    requires k <= |items| && forall e | e in EventsOf(items) :: Encodable(rt, e)
    ensures forall e | e in EventsOf(items[..k]) :: Encodable(rt, e)
    ensures var sent, done := DecodedAll(rt, EventsOf(items)), DecodedAll(rt, EventsOf(items[..k]));
      && done <= sent && done + [] <= sent
      && (k < |items| && items[k].EventItem? ==>
            Encodable(rt, items[k].event) && done + [Decoded(rt, items[k].event)] <= sent)
  {
    hide Encodable, DecodedAll, EventsOf;
    assert items == items[..k] + items[k..];
    EventsOfAppend(items[..k], items[k..]);
    var a, b := EventsOf(items[..k]), EventsOf(items[k..]);
    assert forall e | e in a + b :: Encodable(rt, e);
    assert (forall e | e in a :: e in a + b) && (forall e | e in b :: e in a + b);
    DecodedAllAppend(rt, a, b);
    var done, rest := DecodedAll(rt, a), DecodedAll(rt, b);
    BeginsWith(done, [], rest);
    if k < |items| && items[k].EventItem? {
      NextEvent(rt, items[k..]);
      BeginsWith(done, [Decoded(rt, items[k].event)], rest);
    }
  }

  lemma BeginsWith<T>(a: seq<T>, x: seq<T>, b: seq<T>)
    requires x <= b
    ensures a <= a + b && a + x <= a + b && a + [] == a
  {
    assert b == x + b[|x|..];
    assert a + b == (a + x) + b[|x|..];
  }

  lemma NextEvent(rt: Runtime, items: seq<Item>)
    requires items != [] && items[0].EventItem? && forall e | e in EventsOf(items) :: Encodable(rt, e)
    ensures Encodable(rt, items[0].event)
    ensures [Decoded(rt, items[0].event)] <= DecodedAll(rt, EventsOf(items))
  {
    hide Encodable;
    assert EventsOf(items)[0] == items[0].event;
  }
}
