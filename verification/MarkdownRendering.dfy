/**
 * What the Markdown preview makes of a text: which words get which tags, line by line and cell by
 * cell. The HTML is written out; nothing here refers to how the rewrites are done.
 */
module MarkdownRendering {
  import opened JsText
  import opened MarkdownInline

  /** A piece of a line: plain words, or words between markers. */
  datatype Segment =
    | Words(text: string)
    | CodeSpan(text: string)
    | Strong(text: string)
    | Emphasis(text: string)
    | WikiLink(text: string)

  function Source(s: Segment): string {
    match s
    case Words(text) => text
    case CodeSpan(text) => "`" + text + "`"
    case Strong(text) => "**" + text + "**"
    case Emphasis(text) => "*" + text + "*"
    case WikiLink(text) => "[[" + text + "]]"
  }

  function Html(s: Segment): string {
    match s
    case Words(text) => EscapeHtml(text)
    case CodeSpan(text) => "<code>" + EscapeHtml(text) + "</code>"
    case Strong(text) => "<strong>" + EscapeHtml(text) + "</strong>"
    case Emphasis(text) => "<em>" + EscapeHtml(text) + "</em>"
    case WikiLink(text) => "<span class=\"vault-wikilink\">[[" + EscapeHtml(text) + "]]</span>"
  }

  function SourceOf(segments: seq<Segment>): string {
    if segments == [] then "" else Source(segments[0]) + SourceOf(segments[1..])
  }

  function HtmlOf(segments: seq<Segment>): string {
    if segments == [] then "" else Html(segments[0]) + HtmlOf(segments[1..])
  }

  /** No character that means anything in a line. */
  predicate IsPlain(text: string) {
    forall c | c in text :: c !in "`*[]"
  }

  predicate IsSegment(s: Segment) {
    && s.text != "" && IsPlain(s.text)
    && (s.Emphasis? ==> !IsSpace(s.text[0]) && !IsSpace(s.text[|s.text| - 1]) && '\n' !in s.text)
  }

  /** Stars that touch do not tell where one emphasis ends and the next begins. */
  predicate IsLine(segments: seq<Segment>) {
    && (forall s | s in segments :: IsSegment(s))
    && forall k | 0 <= k < |segments| - 1 :: !(segments[k].Emphasis? && segments[k + 1].Emphasis?)
  }

  // ----- escaped words

  lemma EntityKeeps(c: char)
    ensures Entity(c) != ""
    ensures c !in "`*[]" ==> IsPlain(Entity(c))
    ensures c != '\n' ==> '\n' !in Entity(c)
    ensures !IsSpace(c) ==> !IsSpace(Entity(c)[0]) && !IsSpace(Entity(c)[|Entity(c)| - 1])
  {
  }

  lemma {:induction false} EscapeOnceKeeps(text: string)
    ensures IsPlain(text) ==> IsPlain(EscapeOnce(text))
    ensures '\n' !in text ==> '\n' !in EscapeOnce(text)
    ensures text != "" ==> EscapeOnce(text) != ""
    ensures text != "" && !IsSpace(text[0]) ==> !IsSpace(EscapeOnce(text)[0])
    ensures text != "" && !IsSpace(text[|text| - 1]) ==> !IsSpace(EscapeOnce(text)[|EscapeOnce(text)| - 1])
  {
    hide Entity, IsSpace;
    if text != "" {
      var rest := text[1..];
      assert text == [text[0]] + rest;
      EntityKeeps(text[0]);
      EscapeOnceKeeps(rest);
      assert EscapeOnce(text) == Entity(text[0]) + EscapeOnce(rest);
      if rest == "" {
        assert EscapeOnce(text) == Entity(text[0]);
      }
    }
  }

  /** Escaping makes no marker and no white space. */
  lemma EscapeKeeps(text: string)
    ensures IsPlain(text) ==> IsPlain(EscapeHtml(text))
    ensures '\n' !in text ==> '\n' !in EscapeHtml(text)
    ensures text != "" ==> EscapeHtml(text) != ""
    ensures text != "" && !IsSpace(text[0]) ==> !IsSpace(EscapeHtml(text)[0])
    ensures text != "" && !IsSpace(text[|text| - 1]) ==> !IsSpace(EscapeHtml(text)[|EscapeHtml(text)| - 1])
  {
    hide EscapeHtml, EscapeOnce, IsSpace;
    EscapersAgree(text);
    EscapeOnceKeeps(text);
  }

  // ----- one pass after another

  function Rank(s: Segment): nat {
    match s
    case Words(_) => 0
    case CodeSpan(_) => 1
    case Strong(_) => 2
    case Emphasis(_) => 3
    case WikiLink(_) => 4
  }

  /** A segment once the first n passes are over. */
  function Part(s: Segment, n: nat): string {
    if Rank(s) <= n then Html(s)
    else
      match s
      case Words(text) => EscapeHtml(text)
      case CodeSpan(text) => "`" + EscapeHtml(text) + "`"
      case Strong(text) => "**" + EscapeHtml(text) + "**"
      case Emphasis(text) => "*" + EscapeHtml(text) + "*"
      case WikiLink(text) => "[[" + EscapeHtml(text) + "]]"
  }

  function Parts(segments: seq<Segment>, n: nat): string {
    if segments == [] then "" else Part(segments[0], n) + Parts(segments[1..], n)
  }

  function KindOf(n: nat): Kind
    requires 1 <= n <= 4
  {
    if n == 1 then CodeTag else if n == 2 then StrongTag else if n == 3 then EmphasisTag else LinkTag
  }

  lemma EscapeMarker(marker: string)
    requires forall c | c in marker :: c in "`*[]"
    ensures EscapeHtml(marker) == marker
  {
    hide EscapeHtml, EscapeOnce;
    EscapersAgree(marker);
    EscapeOnceMarker(marker);
  }

  lemma {:induction false} EscapeOnceMarker(marker: string)
    requires forall c | c in marker :: c in "`*[]"
    ensures EscapeOnce(marker) == marker
  {
    if marker != "" {
      assert marker[0] in marker;
      assert forall c | c in marker[1..] :: c in marker;
      MarkerIsKept(marker[0]);
      hide Entity;
      EscapeOnceMarker(marker[1..]);
    }
  }

  lemma MarkerIsKept(c: char)
    requires c in "`*[]"
    ensures Entity(c) == [c]
  {
  }

  lemma EscapeMarked(open: string, text: string, close: string)
    requires forall c | c in open + close :: c in "`*[]"
    ensures EscapeHtml(open + text + close) == open + EscapeHtml(text) + close
  {
    hide EscapeHtml;
    assert forall c | c in open :: c in open + close;
    assert forall c | c in close :: c in open + close;
    EscapeHtmlAppend(open + text, close);
    EscapeHtmlAppend(open, text);
    EscapeMarker(open);
    EscapeMarker(close);
  }

  lemma EscapedSource(s: Segment)
    ensures EscapeHtml(Source(s)) == Part(s, 0)
  {
    hide EscapeHtml;
    match s
    case Words(text) =>
    case CodeSpan(text) => EscapeMarked("`", text, "`");
    case Strong(text) => EscapeMarked("**", text, "**");
    case Emphasis(text) => EscapeMarked("*", text, "*");
    case WikiLink(text) => EscapeMarked("[[", text, "]]");
  }

  lemma {:induction false} EscapedLine(segments: seq<Segment>)
    ensures EscapeHtml(SourceOf(segments)) == Parts(segments, 0)
  {
    hide EscapeHtml, Part;
    if segments == [] {
      EscapeMarker("");
    } else {
      EscapeHtmlAppend(Source(segments[0]), SourceOf(segments[1..]));
      EscapedSource(segments[0]);
      EscapedLine(segments[1..]);
    }
  }

  lemma MatchLength(p: Pass, b: string, rest: string)
    requires p.open != "" && p.close != "" && p.close[0] in p.stop && b != "" && forall c | c in b :: c !in p.stop
    requires p.flanked ==> !IsSpace(b[0]) && !IsSpace(b[|b| - 1])
    ensures ContentLength(p, p.open + b + p.close + rest) == |b|
  {
    hide IsSpace, RunLength;
    var s, o := p.open + b + p.close + rest, |p.open|;
    assert s == p.open + (b + (p.close + rest));
    var inner := s[o..];
    assert inner == b + (p.close + rest);
    SkipRun(p.stop, b, p.close + rest);
    RunEnds(p.stop, p.close + rest);
    assert inner[|b|..] == p.close + rest;
    assert inner[0] == b[0] && inner[|b| - 1] == b[|b| - 1];
  }

  /** A match at the start of the text. */
  lemma MatchHere(p: Pass, b: string, rest: string)
    requires p.open != "" && p.close != "" && p.close[0] in p.stop && b != "" && forall c | c in b :: c !in p.stop
    requires p.flanked ==> !IsSpace(b[0]) && !IsSpace(b[|b| - 1])
    ensures Rewrite(p, p.open + b + p.close + rest) == Before(p) + b + Behind(p) + Rewrite(p, rest)
  {
    hide Rewrite, IsSpace, Before, Behind, ContentLength;
    var s, o := p.open + b + p.close + rest, |p.open|;
    MatchLength(p, b, rest);
    RewriteMatch(p, s);
    assert s[o..o + |b|] == b && s[o + |b| + |p.close|..] == rest;
  }

  lemma RunEnds(stop: set<char>, s: string)
    requires s != "" && s[0] in stop
    ensures RunLength(stop, s) == 0
  {
  }

  lemma OwnText(s: Segment, n: nat)
    requires 1 <= n <= 4 && Rank(s) == n
    ensures var p, b := PassFor(KindOf(n)), EscapeHtml(s.text);
      && p.open != "" && p.close != "" && p.close[0] in p.stop
      && (forall c | c in p.stop :: c in "`*[]" || (c == '\n' && p.flanked)) && (p.flanked <==> s.Emphasis?)
      && Part(s, n - 1) == p.open + b + p.close
      && Part(s, n) == Before(p) + b + Behind(p)
  {
    hide EscapeHtml;
    match s
    case CodeSpan(_) =>
    case Strong(_) =>
    case Emphasis(_) =>
    case WikiLink(text) =>
      var b := EscapeHtml(text);
      assert "<span class=\"vault-wikilink\">" + "[[" == "<span class=\"vault-wikilink\">[[";
      assert "]]" + "</span>" == "]]</span>";
  }

  /** The pass of rank n comes upon a segment of its own. */
  lemma OwnSegment(s: Segment, n: nat, rest: string)
    requires IsSegment(s) && 1 <= n <= 4 && Rank(s) == n
    ensures Rewrite(PassFor(KindOf(n)), Part(s, n - 1) + rest) == Part(s, n) + Rewrite(PassFor(KindOf(n)), rest)
  {
    hide Rewrite, EscapeHtml, IsSpace, Part, PassFor, Before, Behind;
    var p, b := PassFor(KindOf(n)), EscapeHtml(s.text);
    EscapeKeeps(s.text);
    OwnText(s, n);
    assert forall c | c in b :: c !in p.stop;
    MatchHere(p, b, rest);
  }

  /** The pass of rank n leaves every other segment alone, but for stars that it might take for its own. */
  lemma OtherSegment(s: Segment, n: nat, rest: string)
    requires IsSegment(s) && 1 <= n <= 4 && Rank(s) != n && !(n == 2 && s.Emphasis?)
    ensures Rewrite(PassFor(KindOf(n)), Part(s, n - 1) + rest) == Part(s, n) + Rewrite(PassFor(KindOf(n)), rest)
  {
    hide Rewrite, EscapeHtml, IsSpace;
    EscapeKeeps(s.text);
    assert Part(s, n - 1) == Part(s, n);
    OpenerIsElsewhere(s, n);
    hide Part;
    SkipText(PassFor(KindOf(n)), Part(s, n), rest);
  }

  lemma NotBetween(c: char, open: string, b: string, close: string)
    requires c !in open && c !in b && c !in close
    ensures c !in open + b + close
  {
  }

  lemma OpenerIsElsewhere(s: Segment, n: nat)
    requires IsPlain(EscapeHtml(s.text)) && 1 <= n <= 4 && Rank(s) != n && !(n == 2 && s.Emphasis?)
    ensures PassFor(KindOf(n)).open[0] !in Part(s, n)
  {
    hide EscapeHtml;
    var b, c := EscapeHtml(s.text), PassFor(KindOf(n)).open[0];
    assert c == '`' || c == '*' || c == '[';
    assert (n == 1 <==> c == '`') && (n == 4 <==> c == '[');
    assert c !in b;
    match s
    case Words(_) =>
    case CodeSpan(_) => NotBetween(c, "<code>", b, "</code>");
    case Strong(_) =>
      NotBetween(c, "<strong>", b, "</strong>");
      if n == 1 {
        NotBetween(c, "**", b, "**");
      }
    case Emphasis(_) =>
      NotBetween(c, "<em>", b, "</em>");
      if n == 1 {
        NotBetween(c, "*", b, "*");
      }
    case WikiLink(_) => NotBetween(c, "[[", b, "]]");
  }

  /** A star that is not followed by another, or is one of three, is no strong text. */
  lemma SkipStar(rest: string)
    requires rest == "" || rest[0] != '*' || (|rest| >= 2 && rest[1] == '*')
    ensures Rewrite(PassFor(StrongTag), "*" + rest) == "*" + Rewrite(PassFor(StrongTag), rest)
  {
    hide Rewrite;
    var p, s := PassFor(StrongTag), "*" + rest;
    assert s[1..] == rest;
    assert ContentLength(p, s) == 0 by {
      if "**" <= s {
        assert s[1] == rest[0] && s[2..] == rest[1..];
      }
    }
    RewriteMovesOn(p, s);
  }

  lemma InStars(b: string, rest: string)
    ensures ("*" + b + "*") + rest == "*" + (b + ("*" + rest))
  {
  }

  lemma SkipStarred(b: string, rest: string)
    requires '*' !in b && b != ""
    requires rest == "" || rest[0] != '*' || (|rest| >= 2 && rest[1] == '*')
    ensures Rewrite(PassFor(StrongTag), "*" + (b + ("*" + rest))) == "*" + (b + ("*" + Rewrite(PassFor(StrongTag), rest)))
  {
    var p, tail := PassFor(StrongTag), "*" + rest;
    assert p.open[0] == '*' && p.open != "";
    assert (b + tail)[0] == b[0] && b[0] in b;
    hide PassFor, Rewrite;
    SkipStar(b + tail);
    SkipText(p, b, tail);
    SkipStar(rest);
  }

  /** The strong pass goes over single stars. */
  lemma SingleStars(s: Segment, rest: string)
    requires IsSegment(s) && s.Emphasis?
    requires rest == "" || rest[0] != '*' || (|rest| >= 2 && rest[1] == '*')
    ensures Rewrite(PassFor(StrongTag), Part(s, 1) + rest) == Part(s, 2) + Rewrite(PassFor(StrongTag), rest)
  {
    EscapeKeeps(s.text);
    hide Rewrite, EscapeHtml, IsSpace, PassFor;
    var b := EscapeHtml(s.text);
    assert Part(s, 1) == Part(s, 2) == "*" + b + "*";
    hide Part;
    InStars(b, rest);
    InStars(b, Rewrite(PassFor(StrongTag), rest));
    SkipStarred(b, rest);
  }

  lemma LineTail(segments: seq<Segment>)
    requires IsLine(segments) && segments != []
    ensures IsLine(segments[1..]) && IsSegment(segments[0])
    ensures segments[0].Emphasis? && |segments| > 1 ==> !segments[1].Emphasis?
  {
    hide IsSegment;
  }

  /** What comes behind an emphasis cannot be taken for more of it. */
  lemma BehindEmphasis(segments: seq<Segment>)
    requires IsLine(segments) && (segments == [] || !segments[0].Emphasis?)
    ensures var rest := Parts(segments, 1); rest == "" || rest[0] != '*' || (|rest| >= 2 && rest[1] == '*')
  {
    hide EscapeHtml, IsSpace;
    if segments != [] {
      var s := segments[0];
      assert IsSegment(s);
      EscapeKeeps(s.text);
      var b := EscapeHtml(s.text);
      assert b[0] in b && b[0] != '*';
      assert Part(s, 1) != "" && Parts(segments, 1)[0] == Part(s, 1)[0];
      if s.Strong? {
        assert Parts(segments, 1)[1] == Part(s, 1)[1] == '*';
      }
    }
  }

  lemma {:induction false} PassOver(segments: seq<Segment>, n: nat)
    requires IsLine(segments) && 1 <= n <= 4
    ensures Rewrite(PassFor(KindOf(n)), Parts(segments, n - 1)) == Parts(segments, n)
    decreases |segments|
  {
    hide Rewrite, IsLine, IsSegment, Part, PassFor;
    if segments == [] {
      NothingToRewrite(PassFor(KindOf(n)));
    } else {
      var s, rest := segments[0], segments[1..];
      LineTail(segments);
      PassOver(rest, n);
      if Rank(s) == n {
        OwnSegment(s, n, Parts(rest, n - 1));
      } else if n == 2 && s.Emphasis? {
        BehindEmphasis(rest);
        SingleStars(s, Parts(rest, 1));
      } else {
        OtherSegment(s, n, Parts(rest, n - 1));
      }
    }
  }

  lemma {:induction false} AllPassed(segments: seq<Segment>)
    ensures Parts(segments, 4) == HtmlOf(segments)
  {
    hide Html;
    if segments != [] {
      AllPassed(segments[1..]);
    }
  }

  /**
   * The inline markup of a line: every piece between markers gets its own tags, in its place, and
   * everything is escaped.
   */
  lemma InlineRenders(segments: seq<Segment>)
    requires IsLine(segments)
    ensures SafeMarkdownInline(SourceOf(segments)) == HtmlOf(segments)
  {
    hide Rewrite, EscapeHtml, Parts, IsLine, SourceOf, HtmlOf, PassFor;
    EscapedLine(segments);
    PassOver(segments, 1);
    PassOver(segments, 2);
    PassOver(segments, 3);
    PassOver(segments, 4);
    AllPassed(segments);
  }

  // ----- one marked piece

  function Around(before: string, s: Segment, behind: string): seq<Segment> {
    (if before == "" then [] else [Words(before)]) + [s] + (if behind == "" then [] else [Words(behind)])
  }

  lemma Cons(s: Segment, rest: seq<Segment>)
    ensures SourceOf([s] + rest) == Source(s) + SourceOf(rest) && HtmlOf([s] + rest) == Html(s) + HtmlOf(rest)
  {
    hide Source, Html;
    assert ([s] + rest)[1..] == rest;
  }

  lemma NoSegments()
    ensures SourceOf([]) == "" && HtmlOf([]) == EscapeHtml("") == ""
  {
    hide EscapeHtml;
    EscapeMarker("");
  }

  lemma SourceAround(before: string, s: Segment, behind: string)
    ensures SourceOf(Around(before, s, behind)) == before + Source(s) + behind
    ensures HtmlOf(Around(before, s, behind)) == EscapeHtml(before) + Html(s) + EscapeHtml(behind)
  {
    hide EscapeHtml, SourceOf, HtmlOf;
    NoSegments();
    var tail := if behind == "" then [] else [Words(behind)];
    if behind != "" {
      Cons(Words(behind), []);
      assert [Words(behind)] + [] == tail;
    }
    assert SourceOf(tail) == behind && HtmlOf(tail) == EscapeHtml(behind);
    Cons(s, tail);
    var rest := [s] + tail;
    if before == "" {
      assert Around(before, s, behind) == rest;
    } else {
      Cons(Words(before), rest);
      assert Around(before, s, behind) == [Words(before)] + rest;
    }
    hide Source, Html;
    assert before + Source(s) + behind == before + (Source(s) + behind);
    assert EscapeHtml(before) + Html(s) + EscapeHtml(behind) == EscapeHtml(before) + (Html(s) + EscapeHtml(behind));
  }

  lemma OneMarkedPiece(before: string, s: Segment, behind: string)
    requires IsPlain(before) && IsSegment(s) && IsPlain(behind)
    ensures SafeMarkdownInline(before + Source(s) + behind) == EscapeHtml(before) + Html(s) + EscapeHtml(behind)
  {
    var segments := Around(before, s, behind);
    assert forall x | x in segments :: x == s || (x.Words? && (x.text == before || x.text == behind) && x.text != "");
    assert IsLine(segments);
    hide SafeMarkdownInline, EscapeHtml, IsLine, Around;
    SourceAround(before, s, behind);
    InlineRenders(segments);
  }

  /** Two stars make strong text, one star emphasis, backticks code, and double brackets stay inside a link. */
  lemma MarkersRender(a: string, b: string, c: string)
    requires IsPlain(a) && IsPlain(b) && b != "" && IsPlain(c)
    ensures SafeMarkdownInline(a + "**" + b + "**" + c)
         == EscapeHtml(a) + "<strong>" + EscapeHtml(b) + "</strong>" + EscapeHtml(c)
    ensures SafeMarkdownInline(a + "`" + b + "`" + c)
         == EscapeHtml(a) + "<code>" + EscapeHtml(b) + "</code>" + EscapeHtml(c)
    ensures SafeMarkdownInline(a + "[[" + b + "]]" + c)
         == EscapeHtml(a) + "<span class=\"vault-wikilink\">[[" + EscapeHtml(b) + "]]</span>" + EscapeHtml(c)
    ensures !IsSpace(b[0]) && !IsSpace(b[|b| - 1]) && '\n' !in b ==>
      SafeMarkdownInline(a + "*" + b + "*" + c) == EscapeHtml(a) + "<em>" + EscapeHtml(b) + "</em>" + EscapeHtml(c)
  {
    hide SafeMarkdownInline, EscapeHtml, IsSpace;
    MarkedPiece(a, "**", b, "**", c, "<strong>", "</strong>", Strong(b));
    MarkedPiece(a, "`", b, "`", c, "<code>", "</code>", CodeSpan(b));
    MarkedPiece(a, "[[", b, "]]", c, "<span class=\"vault-wikilink\">[[", "]]</span>", WikiLink(b));
    assert "<span class=\"vault-wikilink\">" + "[[" == "<span class=\"vault-wikilink\">[[";
    if !IsSpace(b[0]) && !IsSpace(b[|b| - 1]) && '\n' !in b {
      MarkedPiece(a, "*", b, "*", c, "<em>", "</em>", Emphasis(b));
    }
  }

  lemma MarkedPiece(a: string, open: string, b: string, close: string, c: string, start: string, end: string, s: Segment)
    requires IsPlain(a) && IsSegment(s) && IsPlain(c)
    requires Source(s) == open + b + close && Html(s) == start + EscapeHtml(b) + end
    ensures SafeMarkdownInline(a + open + b + close + c) == EscapeHtml(a) + start + EscapeHtml(b) + end + EscapeHtml(c)
  {
    hide SafeMarkdownInline, EscapeHtml, IsSegment, IsPlain, Source, Html;
    OneMarkedPiece(a, s, c);
    assert a + (open + b + close) + c == a + open + b + close + c;
    assert EscapeHtml(a) + (start + EscapeHtml(b) + end) + EscapeHtml(c)
        == EscapeHtml(a) + start + EscapeHtml(b) + end + EscapeHtml(c);
  }

  /** A text without markers is escaped and nothing else. */
  lemma PlainTextIsEscaped(text: string)
    requires IsPlain(text)
    ensures SafeMarkdownInline(text) == EscapeHtml(text)
  {
    hide SafeMarkdownInline, EscapeHtml;
    EscapeMarker("");
    var segments := if text == "" then [] else [Words(text)];
    assert SourceOf(segments) == text && HtmlOf(segments) == EscapeHtml(text) by {
      if text != "" {
        assert segments[1..] == [];
      }
    }
    hide IsSegment, SourceOf, HtmlOf;
    assert IsLine(segments) by {
      if text != "" {
        assert IsSegment(Words(text)) by {
          WordsAreASegment(text);
        }
      }
    }
    InlineRenders(segments);
  }

  lemma WordsAreASegment(text: string)
    requires IsPlain(text) && text != ""
    ensures IsSegment(Words(text))
  {
  }

  /**
   * Why emphases must not touch: the stars between them are taken for strong text, and the outer two
   * for one emphasis.
   */
  lemma TouchingEmphases(a: string, b: string, c: string)
    requires IsSegment(Emphasis(a)) && IsSegment(Emphasis(b)) && IsSegment(Emphasis(c))
    ensures SafeMarkdownInline(SourceOf([Emphasis(a), Emphasis(b), Emphasis(c)]))
         == "<em>" + (EscapeHtml(a) + "<strong>" + EscapeHtml(b) + "</strong>" + EscapeHtml(c)) + "</em>"
  {
    EscapeKeeps(a);
    EscapeKeeps(b);
    EscapeKeeps(c);
    hide Rewrite, EscapeHtml, IsSpace, PassFor;
    var x, y, z := EscapeHtml(a), EscapeHtml(b), EscapeHtml(c);
    var w := x + "<strong>" + y + "</strong>" + z;
    ThreeEmphases(a, b, c);
    NoneOfIt(CodeTag, Starred(x, "**", y, "**", z));
    StrongBetween(x, y, z);
    EmphasisAround(x, y, z);
    assert '[' !in w by {
      NotBetween('[', x, "<strong>", y);
      NotBetween('[', x + "<strong>" + y, "</strong>", z);
    }
    NotBetween('[', "<em>", w, "</em>");
    NoneOfIt(LinkTag, "<em>" + w + "</em>");
  }

  function Starred(x: string, open: string, y: string, close: string, z: string): string {
    "*" + (x + (open + y + close + (z + "*")))
  }

  lemma ThreeEmphases(a: string, b: string, c: string)
    ensures EscapeHtml(SourceOf([Emphasis(a), Emphasis(b), Emphasis(c)]))
         == Starred(EscapeHtml(a), "**", EscapeHtml(b), "**", EscapeHtml(c))
  {
    hide EscapeHtml;
    var segments := [Emphasis(a), Emphasis(b), Emphasis(c)];
    var x, y, z := EscapeHtml(a), EscapeHtml(b), EscapeHtml(c);
    EscapedLine(segments);
    hide Part;
    assert segments[1..] == [Emphasis(b), Emphasis(c)] && segments[1..][1..] == [Emphasis(c)];
    assert Parts([Emphasis(c)], 0) == Part(Emphasis(c), 0) + "";
    assert Parts(segments[1..], 0) == Part(Emphasis(b), 0) + Part(Emphasis(c), 0);
    assert Parts(segments, 0) == Part(Emphasis(a), 0) + (Part(Emphasis(b), 0) + Part(Emphasis(c), 0));
    hide Parts;
    EmphasisPart(a);
    EmphasisPart(b);
    EmphasisPart(c);
    LastStar(z);
    Touch(y, z + "*");
    Touch(x, y + ("**" + (z + "*")));
    Around3("**", y, z + "*");
  }

  lemma EmphasisPart(text: string)
    ensures Part(Emphasis(text), 0) == "*" + EscapeHtml(text) + "*"
  {
  }

  lemma LastStar(z: string)
    ensures "*" + z + "*" == "*" + (z + "*")
  {
  }

  lemma Around3(m: string, y: string, r: string)
    ensures m + (y + (m + r)) == m + y + m + r
  {
  }

  /** Two stars that touch. */
  lemma Touch(x: string, r: string)
    ensures ("*" + x + "*") + ("*" + r) == "*" + (x + ("**" + r))
  {
    InStars(x, "*" + r);
    assert "*" + ("*" + r) == "**" + r;
  }

  lemma NoneOfIt(kind: Kind, s: string)
    requires (kind.CodeTag? && '`' !in s) || (kind.LinkTag? && '[' !in s)
    ensures Rewrite(PassFor(kind), s) == s
  {
    hide Rewrite;
    SkipText(PassFor(kind), s, "");
    NothingToRewrite(PassFor(kind));
    assert s + "" == s;
  }

  lemma StrongBetween(x: string, y: string, z: string)
    requires '*' !in x && x != "" && '*' !in y && y != "" && '*' !in z
    ensures Rewrite(PassFor(StrongTag), Starred(x, "**", y, "**", z)) == Starred(x, "<strong>", y, "</strong>", z)
  {
    var p, rest := PassFor(StrongTag), z + "*";
    assert p.open == p.close == "**" && p.stop == {'*'} && !p.flanked && Before(p) == "<strong>" && Behind(p) == "</strong>";
    hide PassFor, Rewrite, Before, Behind;
    assert x[0] in x;
    SkipStar(x + ("**" + y + "**" + rest));
    SkipText(p, x, "**" + y + "**" + rest);
    MatchHere(p, y, rest);
    SkipText(p, z, "*");
    assert "*" + "" == "*";
    SkipStar("");
    NothingToRewrite(p);
  }

  lemma EmphasisAround(x: string, y: string, z: string)
    requires x != "" && z != "" && !IsSpace(x[0]) && !IsSpace(z[|z| - 1])
    requires forall c | c in x + y + z :: c != '*' && c != '\n'
    ensures Rewrite(PassFor(EmphasisTag), Starred(x, "<strong>", y, "</strong>", z))
         == "<em>" + (x + "<strong>" + y + "</strong>" + z) + "</em>"
  {
    var p, w := PassFor(EmphasisTag), x + "<strong>" + y + "</strong>" + z;
    assert p.open == p.close == "*" && p.stop == {'*', '\n'} && Before(p) == "<em>" && Behind(p) == "</em>";
    hide PassFor, Rewrite, Before, Behind, IsSpace;
    assert forall c | c in "<strong>" :: c != '*' && c != '\n';
    assert forall c | c in "</strong>" :: c != '*' && c != '\n';
    assert forall c | c in x :: c in x + y + z;
    assert forall c | c in y :: c in x + y + z;
    assert forall c | c in z :: c in x + y + z;
    assert w[0] == x[0] && w[|w| - 1] == z[|z| - 1];
    assert Starred(x, "<strong>", y, "</strong>", z) == "*" + w + "*" + "";
    MatchHere(p, w, "");
    NothingToRewrite(p);
  }

  /** Five characters are written as references, and every other as itself, wherever they stand. */
  lemma EscapedThere(before: string, c: char, behind: string)
    ensures EscapeHtml("") == ""
    ensures EscapeHtml(before + [c] + behind)
         == EscapeHtml(before)
            + (match c case '&' => "&amp;" case '<' => "&lt;" case '>' => "&gt;" case '"' => "&quot;" case '\'' => "&#39;"
               case _ => [c])
            + EscapeHtml(behind)
  {
    EscapersAgree("");
    EscapeHtmlAppend(before + [c], behind);
    EscapeHtmlAppend(before, [c]);
    EscapeHtmlOne(c);
    hide EscapeHtml;
  }
}
