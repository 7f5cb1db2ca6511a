/**
 * The matchers of the Markdown preview against the regular expressions they stand for: each accepts
 * exactly the lines that fall into the parts its expression names, and gives the same groups.
 */
module MarkdownGrammar {
  import opened JsText
  import opened MarkdownInline
  import opened MarkdownMarkup
  import opened MarkdownLines
  import opened MarkdownBlocks
  import opened MarkdownForms
  import opened MarkdownRendering

  // ----- the expressions

  /** \s+(.+)$ with the white space as long as possible: only a text of one character is white space itself. */
  predicate Spaced(space: string, text: string) {
    && space != "" && AllSpace(space)
    && text != "" && OnOneLine(text) && (IsSpace(text[0]) ==> |text| == 1)
  }

  /** ^\s*(?:-{3,}|\*{3,}|_{3,})\s*$ */
  ghost predicate IsRule(line: string) {
    exists before: string, c: char, n: nat, behind: string ::
      AllSpace(before) && c in "-*_" && n >= 3 && AllSpace(behind) && line == before + Repeat(c, n) + behind
  }

  /** ^(#{1,6})\s+(.+)$ */
  ghost predicate IsHeading(line: string, n: nat, text: string) {
    1 <= n <= 6 && exists space: string :: Spaced(space, text) && line == Repeat('#', n) + (space + text)
  }

  function TaskText(indent: string, bullet: char, gap: string, box: char, space: string, text: string): string {
    indent + ([bullet] + (gap + (['[', box, ']'] + (space + text))))
  }

  /** ^\s*[-*]\s+\[([ xX])\]\s+(.+)$ */
  ghost predicate IsTask(line: string, ticked: bool, text: string) {
    exists indent: string, bullet: char, gap: string, box: char, space: string ::
      && AllSpace(indent) && bullet in "-*" && gap != "" && AllSpace(gap) && box in " xX" && ticked == (box in "xX")
      && Spaced(space, text) && line == TaskText(indent, bullet, gap, box, space, text)
  }

  function BulletText(indent: string, bullet: char, space: string, text: string): string {
    indent + ([bullet] + (space + text))
  }

  /** ^\s*[-*+]\s+(.+)$ */
  ghost predicate IsBullet(line: string, text: string) {
    exists indent: string, bullet: char, space: string ::
      AllSpace(indent) && bullet in "-*+" && Spaced(space, text) && line == BulletText(indent, bullet, space, text)
  }

  function OrderedText(indent: string, digits: string, dot: char, space: string, text: string): string {
    indent + (digits + ([dot] + (space + text)))
  }

  /** ^\s*(\d{1,3})[.)]\s+(.+)$ */
  ghost predicate IsOrdered(line: string, digits: string, text: string) {
    && 1 <= |digits| <= 3 && (forall c | c in digits :: '0' <= c <= '9')
    && exists indent: string, dot: char, space: string ::
        AllSpace(indent) && dot in ".)" && Spaced(space, text) && line == OrderedText(indent, digits, dot, space, text)
  }

  function QuoteText(indent: string, gap: string, text: string): string {
    indent + (">" + (gap + text))
  }

  /** ^\s*>\s?(.*)$ */
  ghost predicate IsQuote(line: string, text: string) {
    exists indent: string, gap: string ::
      && AllSpace(indent) && |gap| <= 1 && AllSpace(gap) && OnOneLine(text)
      && (gap == "" && text != "" ==> !IsSpace(text[0])) && line == QuoteText(indent, gap, text)
  }

  /** ^\s*\|.*\|\s*$ */
  ghost predicate IsRow(line: string) {
    exists before: string, inside: string, behind: string ::
      AllSpace(before) && OnOneLine(inside) && AllSpace(behind) && line == before + ("|" + inside + "|") + behind
  }

  /** ^\s*\|(?:\s*:?-{1,}:?\s*\|)+\s*$ */
  ghost predicate IsRuleRow(line: string) {
    exists before: string, cells: seq<string>, behind: string ::
      && AllSpace(before) && cells != [] && (forall c | c in cells :: IsRuleText(c)) && AllSpace(behind)
      && line == before + RowText(cells) + behind
  }

  // ----- runs

  lemma {:induction false} SpaceRunStops(s: string)
    ensures var n := SpaceRun(s);
      AllSpace(s[..n]) && (n < |s| ==> !IsSpace(s[n]))
  {
    hide IsSpace;
    if s != "" && IsSpace(s[0]) {
      SpaceRunStops(s[1..]);
      var n := SpaceRun(s[1..]);
      assert s[..1 + n] == [s[0]] + s[1..][..n];
    }
  }

  lemma {:induction false} SpaceRunOf(space: string, rest: string)
    requires AllSpace(space) && (rest != "" ==> !IsSpace(rest[0]))
    ensures SpaceRun(space + rest) == |space|
  {
    hide IsSpace;
    if space == "" {
      assert space + rest == rest;
    } else {
      assert space[0] in space && (space + rest)[1..] == space[1..] + rest;
      SpaceRunOf(space[1..], rest);
    }
  }

  lemma {:induction false} RunStops(s: string, c: char)
    ensures var n := RunOf(s, c);
      s[..n] == Repeat(c, n) && (n < |s| ==> s[n] != c)
  {
    if s != "" && s[0] == c {
      RunStops(s[1..], c);
    }
  }

  lemma {:induction false} DigitRunStops(s: string)
    ensures var n := DigitRun(s);
      (forall c | c in s[..n] :: '0' <= c <= '9') && (n < |s| ==> !('0' <= s[n] <= '9'))
  {
    if s != "" && IsDigit(s[0]) {
      DigitRunStops(s[1..]);
      var n := DigitRun(s[1..]);
      assert s[..1 + n] == [s[0]] + s[1..][..n];
    }
  }

  lemma {:induction false} DigitRunOf(digits: string, rest: string)
    requires (forall c | c in digits :: '0' <= c <= '9') && (rest != "" ==> !('0' <= rest[0] <= '9'))
    ensures DigitRun(digits + rest) == |digits|
  {
    if digits == "" {
      assert digits + rest == rest;
    } else {
      assert digits[0] in digits && (digits + rest)[1..] == digits[1..] + rest;
      assert forall c | c in digits[1..] :: c in digits;
      DigitRunOf(digits[1..], rest);
    }
  }

  // ----- white space and a text

  lemma SpacedSplits(s: string, text: string) returns (space: string)
    requires SpacedText(s) == Some(text)
    ensures Spaced(space, text) && s == space + text
  {
    hide IsSpace, OnOneLine;
    SpaceRunStops(s);
    var n := SpaceRun(s);
    space := s[..if n < |s| then n else n - 1];
    assert forall c | c in space :: c in s[..n];
  }

  lemma SpacedJoins(space: string, text: string)
    requires Spaced(space, text)
    ensures SpacedText(space + text) == Some(text)
  {
    hide IsSpace, OnOneLine;
    var s := space + text;
    if IsSpace(text[0]) {
      SpaceRunOf(s, "");
      assert s + "" == s;
    } else {
      SpaceRunOf(space, text);
    }
    assert s[|space|..] == text;
  }

  lemma SkipIndent(indent: string, rest: string)
    requires AllSpace(indent) && rest != "" && !IsSpace(rest[0])
    ensures TrimStart(indent + rest) == rest
  {
    hide IsSpace;
    SkipSpace(indent, rest);
  }

  // ----- the matchers

  lemma HeadingExactly(line: string, n: nat, text: string)
    ensures HeadingOf(line) == Some((n, text)) <==> IsHeading(line, n, text)
  {
    hide IsSpace, SpacedText, Spaced;
    if HeadingOf(line) == Some((n, text)) {
      RunStops(line, '#');
      var space := SpacedSplits(line[n..], text);
      assert line == line[..n] + line[n..];
    }
    forall space: string | 1 <= n <= 6 && Spaced(space, text) && line == Repeat('#', n) + (space + text)
      ensures HeadingOf(line) == Some((n, text))
    {
      SpacedJoins(space, text);
      SpacedStart(space, text);
      RunOfRepeat('#', n, space + text);
      assert line[n..] == space + text;
    }
  }

  /** White space is none of the marks. */
  lemma SpacedStart(space: string, text: string)
    requires Spaced(space, text)
    ensures space != "" && IsSpace((space + text)[0]) && (space + text)[0] !in "#[]-*+_>.)" && !IsDigit((space + text)[0])
  {
    assert space[0] in space;
  }

  lemma BulletExactly(line: string, text: string)
    ensures BulletOf(line) == Some(text) <==> IsBullet(line, text)
  {
    hide IsSpace, SpacedText, Spaced, TrimStart;
    if BulletOf(line) == Some(text) {
      var t := TrimStart(line);
      var indent := SplitSpace(line);
      var space := SpacedSplits(t[1..], text);
      assert line == BulletText(indent, t[0], space, text);
    }
    forall indent: string, bullet: char, space: string
      | AllSpace(indent) && bullet in "-*+" && Spaced(space, text) && line == BulletText(indent, bullet, space, text)
      ensures BulletOf(line) == Some(text)
    {
      MarksAreNoSpace();
      var rest := [bullet] + (space + text);
      SkipIndent(indent, rest);
      SpacedJoins(space, text);
      assert rest[1..] == space + text;
    }
  }

  lemma MarksAreNoSpace()
    ensures forall c | c in "-*+>[]|.)" || IsDigit(c) :: !IsSpace(c)
  {
  }

  lemma OrderedExactly(line: string, digits: string, text: string)
    ensures OrderedOf(line) == Some((digits, text)) <==> IsOrdered(line, digits, text)
  {
    hide IsSpace, SpacedText, Spaced, TrimStart;
    if OrderedOf(line) == Some((digits, text)) {
      OrderedSplits(line, digits, text);
    }
    forall indent: string, dot: char, space: string
      | 1 <= |digits| <= 3 && (forall c | c in digits :: '0' <= c <= '9') && AllSpace(indent) && dot in ".)"
        && Spaced(space, text) && line == OrderedText(indent, digits, dot, space, text)
      ensures OrderedOf(line) == Some((digits, text))
    {
      OrderedJoins(indent, digits, dot, space, text);
    }
  }

  lemma OrderedSplits(line: string, digits: string, text: string)
    requires OrderedOf(line) == Some((digits, text))
    ensures IsOrdered(line, digits, text)
  {
    hide IsSpace, SpacedText, Spaced, TrimStart;
    var t := TrimStart(line);
    var n := DigitRun(t);
    DigitRunStops(t);
    var indent := SplitSpace(line);
    var space := SpacedSplits(t[n + 1..], text);
    assert t == digits + ([t[n]] + (space + text));
    assert line == OrderedText(indent, digits, t[n], space, text);
  }

  lemma OrderedJoins(indent: string, digits: string, dot: char, space: string, text: string)
    requires 1 <= |digits| <= 3 && (forall c | c in digits :: '0' <= c <= '9') && AllSpace(indent) && dot in ".)"
    requires Spaced(space, text)
    ensures OrderedOf(OrderedText(indent, digits, dot, space, text)) == Some((digits, text))
  {
    MarksAreNoSpace();
    hide IsSpace, SpacedText, Spaced, TrimStart;
    var rest := digits + ([dot] + (space + text));
    assert rest[0] == digits[0] && digits[0] in digits;
    SkipIndent(indent, rest);
    DigitRunOf(digits, [dot] + (space + text));
    SpacedJoins(space, text);
    assert rest[..|digits|] == digits && rest[|digits|] == dot && rest[|digits| + 1..] == space + text;
  }

  lemma QuoteExactly(line: string, text: string)
    ensures QuoteOf(line) == Some(text) <==> IsQuote(line, text)
  {
    hide IsSpace, OnOneLine, TrimStart;
    if QuoteOf(line) == Some(text) {
      var t := TrimStart(line);
      var indent := SplitSpace(line);
      var gap := if |t| > 1 && IsSpace(t[1]) then [t[1]] else "";
      assert t == ">" + (gap + text);
      assert line == QuoteText(indent, gap, text);
    }
    forall indent: string, gap: string
      | AllSpace(indent) && |gap| <= 1 && AllSpace(gap) && OnOneLine(text)
        && (gap == "" && text != "" ==> !IsSpace(text[0])) && line == QuoteText(indent, gap, text)
      ensures QuoteOf(line) == Some(text)
    {
      MarksAreNoSpace();
      var rest := ">" + (gap + text);
      SkipIndent(indent, rest);
      if gap == "" {
        assert rest[1..] == text;
      } else {
        assert gap[0] in gap && rest[1] == gap[0] && rest[2..] == text;
      }
    }
  }

  lemma TaskExactly(line: string, ticked: bool, text: string)
    ensures TaskOf(line) == Some((ticked, text)) <==> IsTask(line, ticked, text)
  {
    hide IsSpace, SpacedText, Spaced, TrimStart, TaskOf;
    if TaskOf(line) == Some((ticked, text)) {
      TaskSplits(line, ticked, text);
    }
    forall indent: string, bullet: char, gap: string, box: char, space: string
      | AllSpace(indent) && bullet in "-*" && gap != "" && AllSpace(gap) && box in " xX" && ticked == (box in "xX")
        && Spaced(space, text) && line == TaskText(indent, bullet, gap, box, space, text)
      ensures TaskOf(line) == Some((ticked, text))
    {
      TaskJoins(indent, bullet, gap, box, space, text);
    }
  }

  lemma TaskSplits(line: string, ticked: bool, text: string)
    requires TaskOf(line) == Some((ticked, text))
    ensures IsTask(line, ticked, text)
  {
    hide IsSpace, SpacedText, Spaced, TrimStart;
    var t := TrimStart(line);
    var n := SpaceRun(t[1..]);
    var box := t[1 + n..];
    SpaceRunStops(t[1..]);
    var indent := SplitSpace(line);
    var space := SpacedSplits(box[3..], text);
    var gap := t[1..][..n];
    assert box == ['[', box[1], ']'] + (space + text);
    assert t == [t[0]] + (gap + box);
    assert line == TaskText(indent, t[0], gap, box[1], space, text);
  }

  lemma TaskJoins(indent: string, bullet: char, gap: string, box: char, space: string, text: string)
    requires AllSpace(indent) && bullet in "-*" && gap != "" && AllSpace(gap) && box in " xX" && Spaced(space, text)
    ensures TaskOf(TaskText(indent, bullet, gap, box, space, text)) == Some((box in "xX", text))
  {
    MarksAreNoSpace();
    hide IsSpace, SpacedText, Spaced, TrimStart, SpaceRun;
    var inside := ['[', box, ']'] + (space + text);
    var rest := [bullet] + (gap + inside);
    SkipIndent(indent, rest);
    assert rest[1..] == gap + inside;
    SpaceRunOf(gap, inside);
    assert rest[1 + |gap|..] == inside && inside[3..] == space + text;
    SpacedJoins(space, text);
  }

  // ----- rules and rows

  lemma OnlyRepeats(s: string, c: char)
    requires forall d | d in s :: d == c
    ensures s == Repeat(c, |s|)
  {
    forall i | 0 <= i < |s| ensures s[i] == c {
      assert s[i] in s;
    }
  }

  lemma RuleExactly(line: string)
    ensures IsRuleLine(line) <==> IsRule(line)
  {
    hide IsSpace, Trim;
    if IsRuleLine(line) {
      var before, behind := TrimSplits(line);
      var t := Trim(line);
      OnlyRepeats(t, t[0]);
    }
    forall before: string, c: char, n: nat, behind: string
      | AllSpace(before) && c in "-*_" && n >= 3 && AllSpace(behind) && line == before + Repeat(c, n) + behind
      ensures IsRuleLine(line)
    {
      Spaces();
      TrimIsUnique(line, before, Repeat(c, n), behind);
    }
  }

  lemma RowExactly(line: string)
    ensures IsTableRow(line) <==> IsRow(line)
  {
    hide IsSpace, Trim;
    if IsTableRow(line) {
      var before, behind := TrimSplits(line);
      var t := Trim(line);
      assert t == "|" + t[1..|t| - 1] + "|";
    }
    forall before: string, inside: string, behind: string
      | AllSpace(before) && OnOneLine(inside) && AllSpace(behind) && line == before + ("|" + inside + "|") + behind
      ensures IsTableRow(line)
    {
      Spaces();
      TrimIsUnique(line, before, "|" + inside + "|", behind);
    }
  }

  lemma JoinLonger(c: char, cells: seq<string>)
    requires cells != []
    ensures JoinCells([[c] + cells[0]] + cells[1..]) == [c] + JoinCells(cells)
  {
    var longer := [[c] + cells[0]] + cells[1..];
    assert longer[1..] == cells[1..];
    hide JoinCells;
    JoinUnfold(longer);
    JoinUnfold(cells);
  }

  lemma JoinOneMore(cells: seq<string>)
    requires cells != []
    ensures JoinCells([""] + cells) == "|" + JoinCells(cells)
  {
    assert ([""] + cells)[1..] == cells;
    hide JoinCells;
    JoinUnfold([""] + cells);
  }

  lemma JoinUnfold(cells: seq<string>)
    requires cells != []
    ensures JoinCells(cells) == cells[0] + (if |cells| == 1 then "" else "|" + JoinCells(cells[1..]))
  {
  }

  lemma {:induction false} SplitCuts(s: string)
    ensures JoinCells(Split(s, '|')) == s
  {
    hide JoinCells;
    if s == "" {
      JoinUnfold([""]);
    } else {
      var rest := Split(s[1..], '|');
      SplitCuts(s[1..]);
      JoinOneMore(rest);
      JoinLonger(s[0], rest);
      assert s == [s[0]] + s[1..];
    }
  }

  lemma RuleCellSplits(cell: string)
    requires IsRuleCell(cell)
    ensures IsRuleText(cell)
  {
    hide Trim;
    var t := Trim(cell);
    var u := WithoutFirst(t, ':');
    var dashes := WithoutLast(u, ':');
    var left, right := t != u, u != dashes;
    assert t == (if left then ":" else "") + u;
    assert u == dashes + (if right then ":" else "");
    OnlyRepeats(dashes, '-');
    DashesParts(left, |dashes|, right);
  }

  lemma RuleTextHasNoPipe(cell: string)
    requires IsRuleText(cell)
    ensures '|' !in cell
  {
    var left: bool, n: nat, right: bool :| n > 0 && Trim(cell) == Dashes(left, n, right);
    var before, behind := TrimSplits(cell);
    MarksAreNoSpace();
    hide IsSpace, Trim;
    assert '|' !in Dashes(left, n, right);
  }

  lemma RuleRowExactly(line: string)
    ensures IsTableRule(line) <==> IsRuleRow(line)
  {
    hide IsSpace, Trim, Split, IsRuleCell, IsRuleText, RowText;
    if IsTableRule(line) {
      RuleRowSplits(line);
    }
    forall before: string, cells: seq<string>, behind: string
      | AllSpace(before) && cells != [] && (forall c | c in cells :: IsRuleText(c)) && AllSpace(behind)
        && line == before + RowText(cells) + behind
      ensures IsTableRule(line)
    {
      RuleRowJoins(before, cells, behind);
    }
  }

  lemma RuleRowSplits(line: string)
    requires IsTableRule(line)
    ensures IsRuleRow(line)
  {
    hide IsSpace, Trim, Split, IsRuleCell, IsRuleText, JoinCells;
    var before, behind := TrimSplits(line);
    var t := Trim(line);
    var inside := t[1..|t| - 1];
    var cells := Split(inside, '|');
    SplitCuts(inside);
    assert t == "|" + inside + "|";
    forall c | c in cells ensures IsRuleText(c) {
      RuleCellSplits(c);
    }
    assert line == before + RowText(cells) + behind;
  }

  lemma RuleRowJoins(before: string, cells: seq<string>, behind: string)
    requires AllSpace(before) && cells != [] && (forall c | c in cells :: IsRuleText(c)) && AllSpace(behind)
    ensures IsTableRule(before + RowText(cells) + behind)
  {
    hide IsSpace, Trim, Split, IsRuleCell, IsRuleText, JoinCells;
    forall c | c in cells ensures '|' !in c {
      RuleTextHasNoPipe(c);
    }
    RuleIsRule(cells);
    RowEnds(cells);
    MarksAreNoSpace();
    var t := RowText(cells);
    TrimIsUnique(before + t + behind, before, t, behind);
  }

  // ----- inline markup

  /** What may stand between the markers: `([^`]+)`, \*\*([^*]+)\*\*, \*(?!\s)([^*\n]+?)(?<!\s)\*, \[\[([^\]]+)\]\] */
  predicate IsInner(kind: Kind, m: string) {
    && m != ""
    && match kind
      case CodeTag => '`' !in m
      case StrongTag => '*' !in m
      case EmphasisTag => '*' !in m && '\n' !in m && !IsSpace(m[0]) && !IsSpace(m[|m| - 1])
      case LinkTag => ']' !in m
  }

  function InMarkers(kind: Kind, m: string): string {
    match kind
    case CodeTag => "`" + m + "`"
    case StrongTag => "**" + m + "**"
    case EmphasisTag => "*" + m + "*"
    case LinkTag => "[[" + m + "]]"
  }

  function InTags(kind: Kind, m: string): string {
    match kind
    case CodeTag => "<code>" + m + "</code>"
    case StrongTag => "<strong>" + m + "</strong>"
    case EmphasisTag => "<em>" + m + "</em>"
    case LinkTag => "<span class=\"vault-wikilink\">[[" + m + "]]</span>"
  }

  ghost predicate MatchesAt(kind: Kind, s: string) {
    exists m: string :: IsInner(kind, m) && InMarkers(kind, m) <= s
  }

  lemma {:induction false} RunKeepsOut(stop: set<char>, s: string)
    ensures var n := RunLength(stop, s); (forall c | c in s[..n] :: c !in stop) && (n < |s| ==> s[n] in stop)
  {
    if s != "" && s[0] !in stop {
      RunKeepsOut(stop, s[1..]);
      var n := RunLength(stop, s[1..]);
      assert s[..1 + n] == [s[0]] + s[1..][..n];
    }
  }

  lemma InnerIsAllowed(kind: Kind, m: string)
    ensures var p := PassFor(kind);
      IsInner(kind, m) <==>
        m != "" && (forall c | c in m :: c !in p.stop) && (p.flanked ==> !IsSpace(m[0]) && !IsSpace(m[|m| - 1]))
    ensures InMarkers(kind, m) == PassFor(kind).open + m + PassFor(kind).close
    ensures var p := PassFor(kind); p.open != "" && p.close != "" && p.close[0] in p.stop
  {
    hide IsSpace;
  }

  lemma MatchHasParts(kind: Kind, s: string)
    requires ContentLength(PassFor(kind), s) > 0
    ensures MatchesAt(kind, s)
  {
    hide IsSpace, RunLength, PassFor, IsInner, InMarkers;
    var p := PassFor(kind);
    var n := ContentLength(p, s);
    var rest := s[|p.open|..];
    RunKeepsOut(p.stop, rest);
    var m := rest[..n];
    InnerIsAllowed(kind, m);
    assert s == p.open + m + p.close + rest[n + |p.close|..];
    assert IsInner(kind, m) && InMarkers(kind, m) <= s;
  }

  lemma PartsMatch(kind: Kind, s: string, m: string)
    requires IsInner(kind, m) && InMarkers(kind, m) <= s
    ensures ContentLength(PassFor(kind), s) == |m| > 0
  {
    hide IsSpace, PassFor, IsInner, InMarkers, ContentLength;
    InnerIsAllowed(kind, m);
    var p, w := PassFor(kind), InMarkers(kind, m);
    assert s == w + s[|w|..];
    MatchLength(p, m, s[|w|..]);
  }

  /** A pass matches at the start of a text exactly if its regular expression does. */
  lemma MatchExactly(kind: Kind, s: string)
    ensures ContentLength(PassFor(kind), s) > 0 <==> MatchesAt(kind, s)
  {
    hide IsInner, InMarkers, ContentLength;
    if ContentLength(PassFor(kind), s) > 0 {
      MatchHasParts(kind, s);
    }
    forall m: string | IsInner(kind, m) && InMarkers(kind, m) <= s ensures ContentLength(PassFor(kind), s) > 0 {
      PartsMatch(kind, s, m);
    }
  }

  lemma {:induction false} SkipToMatch(kind: Kind, a: string, s: string)
    requires forall i | 0 <= i < |a| :: !MatchesAt(kind, (a + s)[i..])
    ensures Rewrite(PassFor(kind), a + s) == a + Rewrite(PassFor(kind), s)
  {
    hide MatchesAt, ContentLength, PassFor, Rewrite;
    var p := PassFor(kind);
    if a == "" {
      assert a + s == s;
    } else {
      var t := a + s;
      assert t[0..] == t;
      MatchExactly(kind, t);
      RewriteMovesOn(p, t);
      assert t[1..] == a[1..] + s;
      forall i | 0 <= i < |a[1..]| ensures !MatchesAt(kind, (a[1..] + s)[i..]) {
        assert t[i + 1..] == (a[1..] + s)[i..];
      }
      SkipToMatch(kind, a[1..], s);
      FirstBack(a, Rewrite(p, s));
    }
  }

  lemma FirstBack(a: string, s: string)
    requires a != ""
    ensures [a[0]] + (a[1..] + s) == a + s
  {
  }

  /** A pass puts the leftmost match between its tags, and goes on behind it. */
  lemma FirstMatchIsTagged(kind: Kind, a: string, m: string, rest: string)
    requires IsInner(kind, m) && forall i | 0 <= i < |a| :: !MatchesAt(kind, (a + (InMarkers(kind, m) + rest))[i..])
    ensures Rewrite(PassFor(kind), a + (InMarkers(kind, m) + rest)) == a + InTags(kind, m) + Rewrite(PassFor(kind), rest)
  {
    hide IsInner, MatchesAt, Rewrite, IsSpace;
    InnerIsAllowed(kind, m);
    SkipToMatch(kind, a, InMarkers(kind, m) + rest);
    MatchHere(PassFor(kind), m, rest);
    TagsAround(kind, m);
    assert a + (InTags(kind, m) + Rewrite(PassFor(kind), rest)) == a + InTags(kind, m) + Rewrite(PassFor(kind), rest);
  }

  lemma TagsAround(kind: Kind, m: string)
    ensures Before(PassFor(kind)) + m + Behind(PassFor(kind)) == InTags(kind, m)
  {
    match kind
    case LinkTag =>
      LinkTags();
      hide Before, Behind;
      assert "<span class=\"vault-wikilink\">[[" + m + "]]</span>" == InTags(kind, m);
    case _ =>
      var p := PassFor(kind);
      assert Before(p) == TagText(kind, false) && Behind(p) == TagText(kind, true);
  }

  lemma LinkTags()
    ensures Before(PassFor(LinkTag)) == "<span class=\"vault-wikilink\">[["
    ensures Behind(PassFor(LinkTag)) == "]]</span>"
  {
  }

  /** A text without a match stays as it is. */
  lemma NoMatchIsKept(kind: Kind, s: string)
    requires forall i | 0 <= i < |s| :: !MatchesAt(kind, s[i..])
    ensures Rewrite(PassFor(kind), s) == s
  {
    hide MatchesAt, PassFor, Rewrite;
    assert s + "" == s;
    SkipToMatch(kind, s, "");
    NothingToRewrite(PassFor(kind));
  }

  // ----- the HTML of a line

  function Hidden(start: string, marker: string, text: string): string {
    start + marker + "</span><span class=\"vault-markdown-line\">" + SafeMarkdownInline(text) + "</span></p>"
  }

  /** The HTML of every line, tags written out, in the order in which the forms are tried. */
  lemma LineHtml(line: string)
    ensures RenderBlockLine(line) ==
      if Trim(line) == "" then "<div class=\"vault-markdown-space\" aria-hidden=\"true\"></div>"
      else if IsRuleLine(line) then "<hr class=\"vault-rule\" />"
      else if HeadingOf(line).Some? then
        var (n, text) := HeadingOf(line).value;
        var level := Decimal(if n < 6 then n + 1 else 6);
        "<h" + level + ">" + SafeMarkdownInline(text) + "</h" + level + ">"
      else if TaskOf(line).Some? then
        var (ticked, text) := TaskOf(line).value;
        Hidden("<p class=\"vault-task\"><span aria-hidden=\"true\">", if ticked then "\U{2611}" else "\U{2610}", text)
      else if BulletOf(line).Some? then
        Hidden("<p class=\"vault-bullet\"><span aria-hidden=\"true\">", "\U{2022}", BulletOf(line).value)
      else if OrderedOf(line).Some? then
        var (digits, text) := OrderedOf(line).value;
        Hidden("<p class=\"vault-ordered\"><span aria-hidden=\"true\">", digits + ".", text)
      else if QuoteOf(line).Some? then "<blockquote>" + SafeMarkdownInline(QuoteOf(line).value) + "</blockquote>"
      else "<p>" + SafeMarkdownInline(line) + "</p>"
  {
    hide MarkupText, IsRuleLine, HeadingOf, TaskOf, BulletOf, OrderedOf, QuoteOf, Trim, SafeMarkdownInline, EscapeHtml,
      IsSpace, Marked, Decimal;
    if Trim(line) == "" {
      SpaceTag();
      DivEnd();
      Closed("<div class=\"vault-markdown-space\" aria-hidden=\"true\">", "</div>");
    } else if IsRuleLine(line) {
      RuleTag();
    } else if HeadingOf(line).Some? {
      var (n, text) := HeadingOf(line).value;
      HeadingExactly(line, n, text);
      HeadingTags(if n < 6 then n + 1 else 6);
    } else if TaskOf(line).Some? {
      TaskTag();
      TaskHead();
      var (ticked, text) := TaskOf(line).value;
      MarkedLine(Task, "<p class=\"vault-task\">", if ticked then "\U{2611}" else "\U{2610}", text);
    } else if BulletOf(line).Some? {
      BulletTag();
      BulletHead();
      MarkedLine(Bullet, "<p class=\"vault-bullet\">", "\U{2022}", BulletOf(line).value);
    } else if OrderedOf(line).Some? {
      var (digits, text) := OrderedOf(line).value;
      OrderedExactly(line, digits, text);
      DigitsAreNotEscaped(digits);
      OrderedTag();
      OrderedHead();
      MarkedLine(Ordered, "<p class=\"vault-ordered\">", digits + ".", text);
    } else if QuoteOf(line).Some? {
      QuoteTags();
    } else {
      ParagraphTag();
    }
  }
}
