/**
 * Where a frame ends, and what one with any fields means: ids, types and data in any number and order, comments and
 * other lines between them (section 9.2.6 of the WHATWG HTML Living Standard, as the code deviates
 * from it).
 */
module EventFields {
  import opened JsText
  import opened EventStream
  import opened EventWire

  datatype Field =
    | IdField(text: string)
    | TypeField(text: string)
    | DataField(text: string)
    | Remark(text: string)
    | Other(text: string)

  function LineOf(f: Field): string {
    match f
    case IdField(text) => "id:" + text
    case TypeField(text) => "event:" + text
    case DataField(text) => "data:" + text
    case Remark(text) => ":" + text
    case Other(text) => text
  }

  /** The field fits on a line, and a line of another kind starts with no known name. */
  predicate IsField(f: Field) {
    && Plain(f.text)
    && (f.Other? ==> !("id:" <= f.text) && !("event:" <= f.text) && !("data:" <= f.text))
  }

  function LinesOf(fields: seq<Field>): (lines: seq<string>)
    ensures |lines| == |fields|
  {
    seq(|fields|, k requires 0 <= k < |fields| => LineOf(fields[k]))
  }

  // ----- what the fields say

  function Ids(fields: seq<Field>): seq<string> {
    if fields == [] then []
    else
      var last := fields[|fields| - 1];
      Ids(fields[..|fields| - 1]) + (if last.IdField? then [last.text] else [])
  }

  function Types(fields: seq<Field>): seq<string> {
    if fields == [] then []
    else
      var last := fields[|fields| - 1];
      Types(fields[..|fields| - 1]) + (if last.TypeField? then [last.text] else [])
  }

  function Data(fields: seq<Field>): seq<string> {
    if fields == [] then []
    else
      var last := fields[|fields| - 1];
      Data(fields[..|fields| - 1]) + (if last.DataField? then [last.text] else [])
  }

  /** The data lines without the white space before each, joined by line feeds. */
  function Payload(data: seq<string>): string {
    if data == [] then ""
    else if |data| == 1 then TrimStart(data[0])
    else Payload(data[..|data| - 1]) + "\n" + TrimStart(data[|data| - 1])
  }

  function Last(texts: seq<string>): string
    requires texts != []
  {
    texts[|texts| - 1]
  }

  // ----- the lines of a field

  lemma LineStarts(f: Field)
    requires IsField(f)
    ensures Plain(LineOf(f)) && Cook(LineOf(f)) == LineOf(f)
    ensures "id:" <= LineOf(f) <==> f.IdField?
    ensures "event:" <= LineOf(f) <==> f.TypeField?
    ensures "data:" <= LineOf(f) <==> f.DataField?
  {
    var l := LineOf(f);
    assert Plain(l);
    CookPlain(l);
    match f
    case IdField(_) => assert l[0] == 'i';
    case TypeField(_) => assert l[0] == 'e';
    case DataField(_) => assert l[0] == 'd';
    case Remark(_) => assert l[0] == ':';
    case Other(_) =>
  }

  lemma {:induction false} ValuesOfFields(fields: seq<Field>)
    requires forall f | f in fields :: IsField(f)
    ensures Values(LinesOf(fields), "id:") == Ids(fields)
    ensures Values(LinesOf(fields), "event:") == Types(fields)
    ensures Values(LinesOf(fields), "data:") == Data(fields)
  {
    if fields == [] {
      NoValues(LinesOf(fields));
    } else {
      var init, last := fields[..|fields| - 1], fields[|fields| - 1];
      var lines := LinesOf(fields);
      ValuesOfFields(init);
      LineStarts(last);
      assert lines[..|fields|] == lines && lines[..|fields| - 1] == LinesOf(init) && lines[|fields| - 1] == LineOf(last);
      ValuesOfPrefix(lines, |fields| - 1, "id:");
      ValuesOfPrefix(lines, |fields| - 1, "event:");
      ValuesOfPrefix(lines, |fields| - 1, "data:");
      hide Values, Cook, IsField;
      RestOfLine(last);
      assert Ids(init) + [] == Ids(init) && Types(init) + [] == Types(init) && Data(init) + [] == Data(init);
    }
  }

  lemma RestOfLine(f: Field)
    ensures f.IdField? ==> LineOf(f)[|"id:"|..] == f.text
    ensures f.TypeField? ==> LineOf(f)[|"event:"|..] == f.text
    ensures f.DataField? ==> LineOf(f)[|"data:"|..] == f.text
  {
  }

  lemma {:induction false} JoinSnoc(values: seq<string>, last: string)
    requires values != []
    ensures JoinLines(values + [last]) == JoinLines(values) + "\n" + last
  {
    if |values| > 1 {
      assert (values + [last])[1..] == values[1..] + [last];
      JoinSnoc(values[1..], last);
      assert values[0] + "\n" + (JoinLines(values[1..]) + "\n" + last) == values[0] + "\n" + JoinLines(values[1..]) + "\n" + last;
    } else {
      assert (values + [last])[1..] == [last];
    }
  }

  lemma {:induction false} PayloadIsJoined(data: seq<string>)
    ensures JoinLines(TrimStarts(data)) == Payload(data)
  {
    hide TrimStart;
    if |data| > 1 {
      var init, last := data[..|data| - 1], data[|data| - 1];
      assert data == init + [last];
      TrimStartsAppend(init, last);
      PayloadIsJoined(init);
      hide TrimStarts;
      assert |TrimStarts(init)| == |init|;
      JoinSnoc(TrimStarts(init), TrimStart(last));
    }
  }

  // ----- where a frame ends

  predicate BlankLineAt(s: string, at: nat, n: nat) {
    at + n <= |s| && var m := s[at..at + n]; m == "\n\n" || m == "\r\n\n" || m == "\n\r\n" || m == "\r\n\r\n"
  }

  lemma BlankLineHere(s: string, n: nat)
    ensures BlankLineAt(s, 0, n) <==> n > 0 && BlankLine(s) == n
  {
    if BlankLineAt(s, 0, n) {
      var m := s[..n];
      assert |m| == n && s[0] == m[0] && s[1] == m[1] && (n > 2 ==> s[2] == m[2]) && (n > 3 ==> s[3] == m[3]);
    }
    var first, second := LineEnd(s), LineEnd(s[LineEnd(s)..]);
    if first > 0 && second > 0 {
      var k := first + second;
      assert s[first..][..second] == s[first..k] && s[..k] == s[..first] + s[first..k];
      EndsLine(s);
      EndsLine(s[first..]);
      assert s[0..k] == s[..k];
    }
  }

  lemma EndsLine(s: string)
    ensures LineEnd(s) > 0 ==> s[..LineEnd(s)] == (if LineEnd(s) == 1 then "\n" else "\r\n")
  {
  }

  lemma BlankLineThere(s: string, at: nat, n: nat)
    requires s != "" && at > 0
    ensures BlankLineAt(s, at, n) <==> BlankLineAt(s[1..], at - 1, n)
  {
    if at + n <= |s| {
      assert s[at..at + n] == s[1..][at - 1..at - 1 + n];
    }
  }

  /** A frame ends at the first two line ends in a row, each with or without a carriage return. */
  lemma {:induction false} BoundaryExactly(s: string)
    ensures match FrameBoundary(s)
      case None => forall at, n :: !BlankLineAt(s, at, n)
      case Some(Boundary(at, n)) => BlankLineAt(s, at, n) && forall before: nat, m | before < at :: !BlankLineAt(s, before, m)
  {
    hide BlankLineAt, BlankLine;
    BlankLineHere(s, BlankLine(s));
    if s == "" {
      forall at, n ensures !BlankLineAt(s, at, n) {
        NoBlankLineInNothing(at, n);
      }
    } else if BlankLine(s) == 0 {
      BoundaryExactly(s[1..]);
      var found := FrameBoundary(s[1..]);
      forall at: nat, n | found.None? || at < 1 + found.value.index ensures !BlankLineAt(s, at, n) {
        if at == 0 {
          BlankLineHere(s, n);
        } else {
          BlankLineThere(s, at, n);
        }
      }
      if found.Some? {
        BlankLineThere(s, 1 + found.value.index, found.value.length);
      }
    }
  }

  lemma NoBlankLineInNothing(at: nat, n: nat)
    ensures !BlankLineAt("", at, n)
  {
  }

  // ----- the meaning

  /**
   * The last id and the last type count, `message` stands for a type that is missing, and the data
   * lines are joined. No id and no data is no event; data without an id, or an id that is not an
   * integer from 0 to 2^53 - 1, is an error.
   */
  lemma FieldsMeaning(rt: Runtime, fields: seq<Field>, eol: string)
    requires fields != [] && IsEol(eol) && forall f | f in fields :: IsField(f)
    ensures var ids, types, data := Ids(fields), Types(fields), Data(fields);
      var meaning := FrameMeaning(rt, JoinWith(LinesOf(fields), eol));
      if ids == [] && data == [] then meaning == Silent
      else if ids == [] then meaning == Throws(InvalidCursor)
      else
        match rt.number(Trim(Last(ids)))
        case NonIntegral => meaning == Throws(InvalidCursor)
        case Integral(id) =>
          if id < 0 || id > 9_007_199_254_740_991 then meaning == Throws(InvalidCursor)
          else
            match rt.json(Payload(data))
            case Malformed => meaning == Throws(InvalidData)
            case NonObject => meaning == Throws(NonObjectEvent)
            case Object(value) =>
              meaning == Emits(Event(id, if types == [] then "message" else Trim(Last(types)), value))
  {
    var lines := LinesOf(fields);
    forall l | l in lines ensures Plain(l) {
      var k :| 0 <= k < |lines| && lines[k] == l;
      assert fields[k] in fields;
      LineStarts(fields[k]);
    }
    SplitJoined(lines, eol);
    ValuesOfFields(fields);
    PayloadIsJoined(Data(fields));
    hide Values, Trim, TrimStart, JoinLines, Payload, LinesOf, SplitLines, JoinWith, IsField, Ids, Types, Data;
    assert |TrimStarts(Data(fields))| == |Data(fields)|;
  }
}
