/**
 * The event-stream decoder of dashboard/src/api/events.ts: frames are separated by a match of
 * \r?\n\r?\n, lines inside a frame by \r?\n, and an `id` is mandatory for a frame with data.
 */
module EventStream {
  import opened JsText

  /** What `JSON.parse` makes of a text, as far as the decoder looks at it. */
  datatype Parsed = Malformed | NonObject | Object(value: string)

  /** What `Number` makes of a text: an integral double, or anything else (NaN included). */
  datatype Numeric = Integral(value: int) | NonIntegral

  /** The two built-ins the decoder calls; their grammar is not part of the model. */
  datatype Runtime = Runtime(number: string -> Numeric, json: string -> Parsed)

  const MAX_SAFE_INTEGER: int := 9007199254740991

  datatype Event = Event(id: nat, kind: string, data: string)

  datatype Fault = InvalidCursor | InvalidData | NonObjectEvent

  datatype Meaning = Silent | Emits(event: Event) | Throws(fault: Fault)

  // ----- separators

  /** Length of a match of \r?\n\r?\n at the start of s, or 0. */
  function BlankLine(s: string): (n: nat)
    ensures n <= |s|
  {
    var first := LineEnd(s);
    var second := LineEnd(s[first..]);
    if first > 0 && second > 0 then first + second else 0
  }

  datatype Boundary = Boundary(index: nat, length: nat)

  function Shift(k: nat, b: Option<Boundary>): Option<Boundary> {
    match b
    case None => None
    case Some(Boundary(i, n)) => Some(Boundary(k + i, n))
  }

  /** The leftmost match of \r?\n\r?\n. */
  function FrameBoundary(s: string): (b: Option<Boundary>)
    ensures b.Some? ==> b.value.index + b.value.length <= |s| && b.value.length > 0
  {
    if BlankLine(s) > 0 then Some(Boundary(0, BlankLine(s)))
    else if s == "" then None
    else Shift(1, FrameBoundary(s[1..]))
  }

  // ----- one frame

  /** A raw line without the carriage return it may still end with. */
  function Cook(raw: string): string {
    if raw != "" && raw[|raw| - 1] == '\r' then raw[..|raw| - 1] else raw
  }

  /** The values of the field `name`, in order: what follows `name` on each line that starts with it. */
  function Values(lines: seq<string>, name: string): seq<string> {
    if lines == [] then []
    else
      var line := Cook(lines[|lines| - 1]);
      Values(lines[..|lines| - 1], name) + if name <= line then [line[|name|..]] else []
  }

  function TrimStarts(values: seq<string>): (r: seq<string>)
    ensures |r| == |values|
  {
    seq(|values|, i requires 0 <= i < |values| => TrimStart(values[i]))
  }

  function JoinLines(values: seq<string>): string {
    if values == [] then ""
    else if |values| == 1 then values[0]
    else values[0] + "\n" + JoinLines(values[1..])
  }

  /** The last `id` line wins. */
  function LastId(rt: Runtime, ids: seq<string>): Option<Numeric> {
    if ids == [] then None else Some(rt.number(Trim(ids[|ids| - 1])))
  }

  /** The last `event` line wins. */
  function LastKind(kinds: seq<string>): string {
    if kinds == [] then "message" else Trim(kinds[|kinds| - 1])
  }

  /** The checks on the collected fields, in the order in which they are made. */
  function Interpret(rt: Runtime, id: Option<Numeric>, kind: string, data: seq<string>): Meaning {
    if id.None? && data == [] then Silent
    else if id.None? || id.value.NonIntegral? || !(0 <= id.value.value <= MAX_SAFE_INTEGER) then
      Throws(InvalidCursor)
    else
      match rt.json(JoinLines(data))
      case Malformed => Throws(InvalidData)
      case NonObject => Throws(NonObjectEvent)
      case Object(value) => Emits(Event(id.value.value, kind, value))
  }

  function LinesMeaning(rt: Runtime, lines: seq<string>): Meaning {
    Interpret(rt, LastId(rt, Values(lines, "id:")), LastKind(Values(lines, "event:")),
              TrimStarts(Values(lines, "data:")))
  }

  function FrameMeaning(rt: Runtime, frame: string): Meaning {
    LinesMeaning(rt, SplitLines(frame))
  }

  /** One more line adds one value to the field that starts the line, if any. */
  lemma ValuesOfPrefix(lines: seq<string>, i: nat, name: string)
    requires i < |lines|
    ensures var line := Cook(lines[i]);
      Values(lines[..i + 1], name)
        == if name <= line then Values(lines[..i], name) + [line[|name|..]] else Values(lines[..i], name)
  {
    assert lines[..i + 1][..i] == lines[..i];
  }

  lemma NoValues(lines: seq<string>)
    requires lines == []
    ensures forall name :: Values(lines, name) == []
  {
  }

  lemma TrimStartsEmpty()
    ensures TrimStarts([]) == []
  {
  }

  lemma TrimStartsAppend(values: seq<string>, value: string)
    ensures TrimStarts(values + [value]) == TrimStarts(values) + [TrimStart(value)]
  {
  }

  /** The line loop of `parseFrame`, with its early exits for empty lines and comments. */
  method ParseFrame(rt: Runtime, frame: string) returns (meaning: Meaning)
    ensures meaning == FrameMeaning(rt, frame)
  {
    hide Cook, Trim, TrimStart, TrimStarts, SplitLines, Values, Interpret;
    var id: Option<Numeric> := None;
    var kind := "message";
    var data: seq<string> := [];
    var lines := SplitLines(frame);
    assert Values(lines[..0], "id:") == Values(lines[..0], "event:") == Values(lines[..0], "data:") == [] by {
      NoValues(lines[..0]);
    }
    TrimStartsEmpty();
    for i := 0 to |lines|
      invariant id == LastId(rt, Values(lines[..i], "id:"))
      invariant kind == LastKind(Values(lines[..i], "event:"))
      invariant data == TrimStarts(Values(lines[..i], "data:"))
    {
      ValuesOfPrefix(lines, i, "id:");
      ValuesOfPrefix(lines, i, "event:");
      ValuesOfPrefix(lines, i, "data:");
      var line := Cook(lines[i]);
      if line == "" || ":" <= line {
        assert line == "" || line[0] == ':';
        assert !("id:" <= line) && !("event:" <= line) && !("data:" <= line);
        continue;
      }
      if "id:" <= line {
        assert line[0] == 'i';
        id := Some(rt.number(Trim(line[3..])));
      } else if "event:" <= line {
        assert line[0] == 'e';
        kind := Trim(line[6..]);
      } else if "data:" <= line {
        TrimStartsAppend(Values(lines[..i], "data:"), line[5..]);
        data := data + [TrimStart(line[5..])];
      }
    }
    assert lines[..|lines|] == lines;
    meaning := Check(rt, id, kind, data);
  }

  /** The checks at the end of `parseFrame`. */
  method Check(rt: Runtime, id: Option<Numeric>, kind: string, data: seq<string>) returns (meaning: Meaning)
    ensures meaning == Interpret(rt, id, kind, data)
  {
    if id.None? && data == [] {
      return Silent;
    }
    if id.None? || id.value.NonIntegral? || id.value.value > MAX_SAFE_INTEGER || id.value.value < 0 {
      return Throws(InvalidCursor);
    }
    var parsed := rt.json(JoinLines(data));
    match parsed {
      case Malformed => return Throws(InvalidData);
      case NonObject => return Throws(NonObjectEvent);
      case Object(value) => return Emits(Event(id.value.value, kind, value));
    }
  }

  lemma {:induction false} NoValuesIff(lines: seq<string>, name: string)
    ensures Values(lines, name) == [] <==> forall l | l in lines :: !(name <= Cook(l))
  {
    hide Cook;
    if lines != [] {
      var init, last := lines[..|lines| - 1], lines[|lines| - 1];
      assert lines == init + [last];
      NoValuesIff(init, name);
    }
  }

  lemma LinesWithoutId(rt: Runtime, lines: seq<string>)
    ensures LinesMeaning(rt, lines) == Silent <==>
      forall l | l in lines :: !("id:" <= Cook(l)) && !("data:" <= Cook(l))
    ensures (forall l | l in lines :: !("id:" <= Cook(l))) && (exists l | l in lines :: "data:" <= Cook(l)) ==>
      LinesMeaning(rt, lines) == Throws(InvalidCursor)
  {
    hide Cook, Values, Trim, TrimStart, JoinLines;
    NoValuesIff(lines, "id:");
    NoValuesIff(lines, "data:");
    var data := Values(lines, "data:");
    assert |TrimStarts(data)| == |data|;
  }

  /**
   * A frame is skipped exactly when it has neither an id nor data: a type alone is no event. Data
   * without an id is an error, whatever the data; Core sends such a frame when its replay fails.
   */
  lemma FrameWithoutId(rt: Runtime, frame: string)
    ensures var lines := SplitLines(frame);
      && (FrameMeaning(rt, frame) == Silent <==>
            forall l | l in lines :: !("id:" <= Cook(l)) && !("data:" <= Cook(l)))
      && ((forall l | l in lines :: !("id:" <= Cook(l))) && (exists l | l in lines :: "data:" <= Cook(l)) ==>
            FrameMeaning(rt, frame) == Throws(InvalidCursor))
  {
    hide Cook, LinesMeaning, SplitLines;
    LinesWithoutId(rt, SplitLines(frame));
  }

  // ----- the incremental decoder

  /** What a buffer yields: the events of its complete frames up to the first faulty one. */
  datatype Drained = Drained(events: seq<Event>, rest: string, fault: Option<Fault>)

  function Drain(rt: Runtime, buffer: string): Drained
    decreases |buffer|
  {
    match FrameBoundary(buffer)
    case None => Drained([], buffer, None)
    case Some(Boundary(index, length)) =>
      var rest := buffer[index + length..];
      match FrameMeaning(rt, buffer[..index])
      case Throws(fault) => Drained([], rest, Some(fault))
      case Silent => Drain(rt, rest)
      case Emits(event) =>
        Prepend([event], Drain(rt, rest))
  }

  function Prepend(events: seq<Event>, d: Drained): Drained {
    Drained(events + d.events, d.rest, d.fault)
  }

  lemma PrependTwice(a: seq<Event>, b: seq<Event>, d: Drained)
    ensures Prepend(a, Prepend(b, d)) == Prepend(a + b, d)
  {
    assert a + (b + d.events) == (a + b) + d.events;
  }

  lemma PrependNothing(d: Drained)
    ensures Prepend([], d) == d
  {
  }

  lemma BoundaryFits(s: string)
    ensures var b := FrameBoundary(s);
      b.Some? ==> b.value.index + b.value.length <= |s| && b.value.length > 0
  {
  }

  lemma DrainDone(rt: Runtime, buffer: string)
    requires FrameBoundary(buffer).None?
    ensures Drain(rt, buffer) == Drained([], buffer, None)
  {
  }

  lemma DrainUnfold(rt: Runtime, buffer: string)
    requires FrameBoundary(buffer).Some?
    ensures var Boundary(index, length) := FrameBoundary(buffer).value;
      var rest := buffer[index + length..];
      Drain(rt, buffer) ==
        match FrameMeaning(rt, buffer[..index])
        case Throws(fault) => Drained([], rest, Some(fault))
        case Silent => Drain(rt, rest)
        case Emits(event) => Prepend([event], Drain(rt, rest))
  {
    hide FrameMeaning;
  }

  /** Draining frame by frame. */
  lemma DrainStep(rt: Runtime, events: seq<Event>, buffer: string)
    requires FrameBoundary(buffer).Some?
    ensures var Boundary(index, length) := FrameBoundary(buffer).value;
      var rest := buffer[index + length..];
      Prepend(events, Drain(rt, buffer)) ==
        match FrameMeaning(rt, buffer[..index])
        case Throws(fault) => Drained(events, rest, Some(fault))
        case Silent => Prepend(events, Drain(rt, rest))
        case Emits(event) => Prepend(events + [event], Drain(rt, rest))
  {
    hide FrameMeaning, FrameBoundary, Drain;
    BoundaryFits(buffer);
    DrainUnfold(rt, buffer);
    var Boundary(index, length) := FrameBoundary(buffer).value;
    var rest := buffer[index + length..];
    match FrameMeaning(rt, buffer[..index])
    case Throws(_) => assert events + [] == events;
    case Silent =>
    case Emits(event) => PrependTwice(events, [event], Drain(rt, rest));
  }

  /** The outcome of a call: a thrown error discards the events gathered by that call. */
  datatype Result = Events(events: seq<Event>) | Error(fault: Fault)

  function Outcome(d: Drained): Result {
    if d.fault.Some? then Error(d.fault.value) else Events(d.events)
  }

  function FlushOutcome(rt: Runtime, buffer: string): Result {
    if Trim(buffer) == "" then Events([])
    else
      match FrameMeaning(rt, buffer)
      case Silent => Events([])
      case Emits(event) => Events([event])
      case Throws(fault) => Error(fault)
  }

  class EventStreamDecoder {
    var buffer: string

    constructor ()
      ensures buffer == ""
    {
      buffer := "";
    }

    method Push(rt: Runtime, chunk: string) returns (result: Result)
      modifies this
      ensures var d := Drain(rt, old(buffer) + chunk);
        result == Outcome(d) && buffer == d.rest
    {
      hide FrameMeaning, FrameBoundary, Drain;
      buffer := buffer + chunk;
      ghost var goal := Drain(rt, buffer);
      PrependNothing(goal);
      var events: seq<Event> := [];
      var boundary := FrameBoundary(buffer);
      while boundary.Some?
        invariant boundary == FrameBoundary(buffer)
        invariant goal == Prepend(events, Drain(rt, buffer))
        decreases |buffer|
      {
        BoundaryFits(buffer);
        DrainStep(rt, events, buffer);
        var frame := buffer[..boundary.value.index];
        buffer := buffer[boundary.value.index + boundary.value.length..];
        var meaning := ParseFrame(rt, frame);
        match meaning {
          case Throws(fault) => return Error(fault);
          case Silent =>
          case Emits(event) => events := events + [event];
        }
        boundary := FrameBoundary(buffer);
      }
      DrainDone(rt, buffer);
      return Events(events);
    }

    method Finish(rt: Runtime) returns (result: Result)
      modifies this
      ensures result == FlushOutcome(rt, old(buffer)) && buffer == ""
    {
      var frame := buffer;
      buffer := "";
      if Trim(frame) == "" {
        return Events([]);
      }
      var meaning := ParseFrame(rt, frame);
      match meaning {
        case Silent => return Events([]);
        case Emits(event) => return Events([event]);
        case Throws(fault) => return Error(fault);
      }
    }
  }

  /** Decoding a whole body at once, as `parseEventStream` does. */
  function WholeOutcome(rt: Runtime, payload: string): Result {
    var d := Drain(rt, payload);
    if d.fault.Some? then Error(d.fault.value)
    else
      match FlushOutcome(rt, d.rest)
      case Error(fault) => Error(fault)
      case Events(events) => Events(d.events + events)
  }

  method ParseEventStream(rt: Runtime, payload: string) returns (result: Result)
    ensures result == WholeOutcome(rt, payload)
  {
    var decoder := new EventStreamDecoder();
    assert "" + payload == payload;
    var pushed := decoder.Push(rt, payload);
    if pushed.Error? {
      return pushed;
    }
    var flushed := decoder.Finish(rt);
    if flushed.Error? {
      return flushed;
    }
    return Events(pushed.events + flushed.events);
  }

  // ----- chunk invariance

  /** Text that can no longer move: a match found in s is the match found in every extension of s. */
  lemma {:induction false} BoundaryStable(s: string, t: string)
    requires FrameBoundary(s).Some?
    ensures FrameBoundary(s + t) == FrameBoundary(s)
  {
    if BlankLine(s) > 0 {
      BlankLineStays(s, t);
    } else {
      BoundaryMovesOn(s);
      assert (s + t)[1..] == s[1..] + t;
      BoundaryStable(s[1..], t);
      NoNewBlankLine(s, t);
      BoundaryMovesOn(s + t);
    }
  }

  /** The search moves on by one character where no boundary starts. */
  lemma BoundaryMovesOn(s: string)
    requires s != "" && BlankLine(s) == 0
    ensures FrameBoundary(s) == Shift(1, FrameBoundary(s[1..]))
  {
    hide BlankLine;
  }

  lemma BlankLineStays(s: string, t: string)
    requires BlankLine(s) > 0
    ensures BlankLine(s + t) == BlankLine(s) && FrameBoundary(s + t) == FrameBoundary(s)
  {
    var n := LineEnd(s);
    assert (s + t)[n..] == s[n..] + t;
  }

  lemma LineEndStable(s: string, t: string)
    requires |s| >= 2
    ensures LineEnd(s + t) == LineEnd(s)
  {
  }

  /** A blank line that starts at the second character does not stretch back to the first. */
  lemma NoBlankLineBefore(s: string, t: string)
    requires s != "" && BlankLine(s) == 0 && BlankLine(s[1..]) > 0
    ensures BlankLine(s + t) == 0
  {
    hide LineEnd;
    assert |s| >= 2 ==> s[2..] == s[1..][1..];
    LineEndFacts(s);
    LineEndFacts(s[1..]);
    LineEndStable(s, t);
  }

  lemma LineEndFacts(s: string)
    ensures LineEnd(s) <= 2
    ensures s != "" && s[0] == '\n' ==> LineEnd(s) == 1
    ensures LineEnd(s) == 1 ==> s != "" && s[0] == '\n'
    ensures LineEnd(s) == 2 ==> |s| >= 2 && s[1] == '\n'
  {
  }

  /** A boundary further on leaves no room for a longer one that starts before it. */
  lemma NoNewBlankLine(s: string, t: string)
    requires s != "" && BlankLine(s) == 0 && FrameBoundary(s[1..]).Some?
    ensures BlankLine(s + t) == 0
  {
    hide FrameBoundary, LineEnd;
    var x := s[1..];
    if BlankLine(x) > 0 {
      NoBlankLineBefore(s, t);
    } else {
      BoundaryIsLater(x);
      var n := LineEnd(s);
      LineEndFacts(s);
      LineEndStable(s, t);
      LineEndStable(s[n..], t);
      assert (s + t)[n..] == s[n..] + t;
    }
  }

  lemma BoundaryIsLater(x: string)
    requires BlankLine(x) == 0 && FrameBoundary(x).Some?
    ensures |x| >= 3
  {
    hide BlankLine;
    BoundaryMovesOn(x);
    BoundaryHasTwo(x[1..]);
  }

  lemma {:induction false} BoundaryHasTwo(x: string)
    requires FrameBoundary(x).Some?
    ensures |x| >= 2
  {
    if BlankLine(x) == 0 {
      BoundaryHasTwo(x[1..]);
    }
  }

  /** Draining in two steps is draining at once. */
  lemma {:induction false} DrainAppend(rt: Runtime, s: string, t: string)
    ensures Drain(rt, s + t) == Resume(rt, Drain(rt, s), t)
    decreases |s|
  {
    hide FrameMeaning, FrameBoundary, Drain;
    if FrameBoundary(s).None? {
      DrainDone(rt, s);
      PrependNothing(Drain(rt, s + t));
    } else {
      BoundaryFits(s);
      BoundaryStable(s, t);
      var Boundary(i, n) := FrameBoundary(s).value;
      var rest := s[i + n..];
      assert (s + t)[..i] == s[..i];
      assert (s + t)[i + n..] == rest + t;
      DrainAppend(rt, rest, t);
      DrainUnfold(rt, s);
      DrainUnfold(rt, s + t);
      if FrameMeaning(rt, s[..i]).Emits? {
        ResumePrepended(rt, [FrameMeaning(rt, s[..i]).event], Drain(rt, rest), t);
      }
    }
  }

  /** What pushing t does after a push that left d behind. */
  function Resume(rt: Runtime, d: Drained, t: string): Drained {
    if d.fault.Some? then Drained(d.events, d.rest + t, d.fault)
    else Prepend(d.events, Drain(rt, d.rest + t))
  }

  lemma ResumePrepended(rt: Runtime, events: seq<Event>, d: Drained, t: string)
    ensures Resume(rt, Prepend(events, d), t) == Prepend(events, Resume(rt, d, t))
  {
    hide Drain;
    PrependTwice(events, d.events, Drain(rt, d.rest + t));
  }

  /** Pushing the chunks one after the other, stopping at the first error. */
  function PushAll(rt: Runtime, buffer: string, chunks: seq<string>): Drained
    decreases |chunks|
  {
    if chunks == [] then Drained([], buffer, None)
    else
      var d := Drain(rt, buffer + chunks[0]);
      if d.fault.Some? then d
      else
        Prepend(d.events, PushAll(rt, d.rest, chunks[1..]))
  }

  lemma {:induction false} DrainRestIsDry(rt: Runtime, s: string)
    requires Drain(rt, s).fault.None?
    ensures Drain(rt, Drain(rt, s).rest) == Drained([], Drain(rt, s).rest, None)
    decreases |s|
  {
    hide FrameMeaning, FrameBoundary, Drain;
    if FrameBoundary(s).None? {
      DrainDone(rt, s);
    } else {
      BoundaryFits(s);
      DrainUnfold(rt, s);
      var Boundary(i, n) := FrameBoundary(s).value;
      DrainRestIsDry(rt, s[i + n..]);
    }
  }

  /**
   * However a text is cut into chunks, a fresh decoder fails on the chunks exactly when it fails on
   * the whole text, with the same error and the same events before it; when it does not fail, the
   * leftover buffer is the same too.
   */
  lemma ChunkInvariance(rt: Runtime, chunks: seq<string>)
    ensures var parts, whole := PushAll(rt, "", chunks), Drain(rt, Concat(chunks));
      && parts.fault == whole.fault
      && parts.events == whole.events
      && (whole.fault.None? ==> parts.rest == whole.rest)
  {
    PushAllFrom(rt, "", chunks);
    assert "" + Concat(chunks) == Concat(chunks);
  }

  lemma {:induction false} PushAllFrom(rt: Runtime, buffer: string, chunks: seq<string>)
    requires Drain(rt, buffer) == Drained([], buffer, None)
    ensures var parts, whole := PushAll(rt, buffer, chunks), Drain(rt, buffer + Concat(chunks));
      && parts.fault == whole.fault
      && parts.events == whole.events
      && (whole.fault.None? ==> parts.rest == whole.rest)
    decreases |chunks|
  {
    if chunks == [] {
      assert buffer + "" == buffer;
    } else {
      var head, tail := chunks[0], Concat(chunks[1..]);
      assert buffer + (head + tail) == (buffer + head) + tail;
      DrainAppend(rt, buffer + head, tail);
      var d := Drain(rt, buffer + head);
      if d.fault.None? {
        DrainRestIsDry(rt, buffer + head);
        PushAllFrom(rt, d.rest, chunks[1..]);
      }
    }
  }
}
