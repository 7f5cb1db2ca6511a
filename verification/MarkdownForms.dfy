/** The HTML of lines, fences and tables with every tag written out, and the cells of a row. */
module MarkdownForms {
  import opened JsText
  import opened MarkdownInline
  import opened MarkdownMarkup
  import opened MarkdownLines
  import opened MarkdownBlocks

  function Repeat(c: char, n: nat): (s: string)
    ensures |s| == n
  {
    seq(n, _ => c)
  }

  // ----- the tags, written out

  lemma StartTag(name: Name, c: Class)
    requires !c.NoClass?
    ensures MarkupText(Classed(name, c)) == "<" + NameText(name) + " class=\"vault-" + ClassText(c) + "\">"
  {
    hide NameText, ClassText;
    var n, k := NameText(name), " class=\"vault-" + ClassText(c) + "\"";
    assert AttributeText(Attribute(c, false, false)) == k;
    assert "<" + (n + k) + ">" == "<" + n + " class=\"vault-" + ClassText(c) + "\">";
  }

  lemma BareTag(name: Name)
    ensures MarkupText(Plain(name)) == "<" + NameText(name) + ">"
    ensures MarkupText(End(name)) == "</" + NameText(name) + ">"
  {
    hide NameText;
    var n := NameText(name);
    assert n + "" == n;
    assert "<" + ("/" + n) + ">" == "</" + n + ">";
  }

  lemma ParagraphTag()
    ensures MarkupText(Plain(P)) == "<p>" && MarkupText(End(P)) == "</p>"
  {
    BareTag(P);
    hide MarkupText;
  }

  lemma ParagraphStart()
    ensures "<" + "p" + " class=\"vault-" == "<p class=\"vault-"
  {
  }

  lemma TaskTag()
    ensures MarkupText(Classed(P, Task)) == "<p class=\"vault-task\">"
  {
    StartTag(P, Task);
    hide MarkupText;
    ParagraphStart();
    TaskText();
  }

  lemma TaskText()
    ensures "<p class=\"vault-" + "task" + "\">" == "<p class=\"vault-task\">"
  {
  }

  lemma BulletTag()
    ensures MarkupText(Classed(P, Bullet)) == "<p class=\"vault-bullet\">"
  {
    StartTag(P, Bullet);
    hide MarkupText;
    ParagraphStart();
    BulletText();
  }

  lemma BulletText()
    ensures "<p class=\"vault-" + "bullet" + "\">" == "<p class=\"vault-bullet\">"
  {
  }

  lemma OrderedTag()
    ensures MarkupText(Classed(P, Ordered)) == "<p class=\"vault-ordered\">"
  {
    StartTag(P, Ordered);
    hide MarkupText;
    ParagraphStart();
    OrderedText();
  }

  lemma OrderedText()
    ensures "<p class=\"vault-" + "ordered" + "\">" == "<p class=\"vault-ordered\">"
  {
  }

  lemma HiddenTag()
    ensures MarkupText(Start(Span, Attribute(NoClass, true, false))) == "<span aria-hidden=\"true\">"
  {
    HiddenAttribute();
    HiddenText();
    hide AttributeText;
  }

  lemma HiddenAttribute()
    ensures AttributeText(Attribute(NoClass, true, false)) == " aria-hidden=\"true\""
  {
    var h := " aria-hidden=\"true\"";
    assert "" + h + "" == h;
  }

  lemma HiddenText()
    ensures "<" + ("span" + " aria-hidden=\"true\"") + ">" == "<span aria-hidden=\"true\">"
  {
  }

  lemma LineTag()
    ensures MarkupText(Classed(Span, MarkdownLine)) == "<span class=\"vault-markdown-line\">"
  {
    StartTag(Span, MarkdownLine);
    LineText();
    hide MarkupText;
    LineStart();
  }

  lemma LineText()
    ensures "<span class=\"vault-" + "markdown-line" + "\">" == "<span class=\"vault-markdown-line\">"
  {
  }

  lemma LineStart()
    ensures "<" + "span" + " class=\"vault-" == "<span class=\"vault-"
  {
  }

  lemma SpanEnd()
    ensures MarkupText(End(Span)) == "</span>"
  {
    BareTag(Span);
    hide MarkupText;
  }

  lemma HiddenDiv(c: Class)
    requires !c.NoClass?
    ensures MarkupText(Start(Div, Attribute(c, true, false)))
         == "<div class=\"vault-" + ClassText(c) + "\" aria-hidden=\"true\">"
  {
    hide ClassText;
    HiddenPieces("<", "div", " class=\"vault-", ClassText(c), "\"", " aria-hidden=\"true\"", ">");
    DivStart();
    DivMiddle();
  }

  lemma HiddenPieces(a: string, name: string, b: string, c: string, d: string, h: string, e: string)
    ensures a + (name + (b + c + d + h + "")) + e == (a + name + b) + c + (d + h + e)
  {
  }

  lemma DivStart()
    ensures "<" + "div" + " class=\"vault-" == "<div class=\"vault-"
  {
  }

  lemma DivMiddle()
    ensures "\"" + " aria-hidden=\"true\"" + ">" == "\" aria-hidden=\"true\">"
  {
  }

  lemma SpaceTag()
    ensures MarkupText(Start(Div, Attribute(Space, true, false))) == "<div class=\"vault-markdown-space\" aria-hidden=\"true\">"
  {
    HiddenDiv(Space);
    hide MarkupText;
    SpaceText();
  }

  lemma SpaceText()
    ensures "<div class=\"vault-" + "markdown-space" + "\" aria-hidden=\"true\">"
         == "<div class=\"vault-markdown-space\" aria-hidden=\"true\">"
  {
  }

  lemma FenceTag()
    ensures MarkupText(Start(Div, Attribute(CodeFence, true, false))) == "<div class=\"vault-code-fence\" aria-hidden=\"true\">"
  {
    HiddenDiv(CodeFence);
    hide MarkupText;
    FenceText();
  }

  lemma FenceText()
    ensures "<div class=\"vault-" + "code-fence" + "\" aria-hidden=\"true\">"
         == "<div class=\"vault-code-fence\" aria-hidden=\"true\">"
  {
  }

  lemma DivEnd()
    ensures MarkupText(End(Div)) == "</div>"
  {
    BareTag(Div);
    hide MarkupText;
  }

  lemma RuleTag()
    ensures MarkupText(Start(Hr, Attribute(Rule, false, true))) == "<hr class=\"vault-rule\" />"
  {
    RulePieces("<", "hr", " class=\"vault-", "rule", "\"", " /", ">");
    RuleStart();
    RuleEnd();
    RuleText();
  }

  lemma RulePieces(a: string, name: string, b: string, c: string, d: string, closed: string, e: string)
    ensures a + (name + (b + c + d + "" + closed)) + e == (a + name + b) + c + (d + closed + e)
  {
  }

  lemma RuleStart()
    ensures "<" + "hr" + " class=\"vault-" == "<hr class=\"vault-"
  {
  }

  lemma RuleEnd()
    ensures "\"" + " /" + ">" == "\" />"
  {
  }

  lemma RuleText()
    ensures "<hr class=\"vault-" + "rule" + "\" />" == "<hr class=\"vault-rule\" />"
  {
  }

  lemma QuoteTags()
    ensures MarkupText(Plain(Blockquote)) == "<blockquote>" && MarkupText(End(Blockquote)) == "</blockquote>"
  {
    BareTag(Blockquote);
    hide MarkupText;
  }

  lemma PreTags()
    ensures MarkupText(Classed(Pre, CodeLine)) == "<pre class=\"vault-code-line\">" && MarkupText(End(Pre)) == "</pre>"
  {
    StartTag(Pre, CodeLine);
    BareTag(Pre);
    hide MarkupText;
    PreStart();
    PreText();
  }

  lemma PreStart()
    ensures "<" + "pre" + " class=\"vault-" == "<pre class=\"vault-"
  {
  }

  lemma PreText()
    ensures "<pre class=\"vault-" + "code-line" + "\">" == "<pre class=\"vault-code-line\">"
  {
  }

  lemma CodeTags()
    ensures MarkupText(Plain(CodeElement)) == "<code>" && MarkupText(End(CodeElement)) == "</code>"
  {
    BareTag(CodeElement);
    hide MarkupText;
  }

  lemma HeadingTags(level: Level)
    ensures MarkupText(Plain(Heading(level))) == "<h" + Decimal(level) + ">"
    ensures MarkupText(End(Heading(level))) == "</h" + Decimal(level) + ">"
  {
    BareTag(Heading(level));
    hide MarkupText, Decimal;
    var d := Decimal(level);
    assert "<" + ("h" + d) + ">" == "<h" + d + ">";
    assert "</" + ("h" + d) + ">" == "</h" + d + ">";
  }

  // ----- runs and white space

  lemma Spaces()
    ensures IsSpace(' ')
    ensures forall c | c in "#-*+_>[|`" :: !IsSpace(c)
    ensures forall c | '0' <= c <= '9' :: !IsSpace(c) && c !in "-*+_#>[|`"
  {
  }

  lemma RunOfRepeat(c: char, n: nat, rest: string)
    requires rest == "" || rest[0] != c
    ensures RunOf(Repeat(c, n) + rest, c) == n
  {
    var s := Repeat(c, n) + rest;
    if n == 0 {
      assert s == rest;
    } else {
      assert s[1..] == Repeat(c, n - 1) + rest;
      RunOfRepeat(c, n - 1, rest);
    }
  }

  // ----- hidden markers

  lemma Closed(start: string, end: string)
    ensures start + "" + end == start + end
  {
  }

  /** What is common to the lines with a hidden marker. */
  lemma MarkedLine(c: Class, tag: string, marker: string, text: string)
    requires MarkupText(Classed(P, c)) == tag
    ensures Marked(c, marker, text)
         == tag + "<span aria-hidden=\"true\">" + marker + "</span><span class=\"vault-markdown-line\">"
            + SafeMarkdownInline(text) + "</span></p>"
  {
    ParagraphTag();
    HiddenTag();
    LineTag();
    SpanEnd();
    hide MarkupText, SafeMarkdownInline;
    Regroup(tag, "<span aria-hidden=\"true\">", marker, "<span class=\"vault-markdown-line\">", SafeMarkdownInline(text),
            "</span>", "</p>");
    EndThenSpan();
    EndThenEnd();
  }

  lemma EndThenSpan()
    ensures "</span>" + "<span class=\"vault-markdown-line\">" == "</span><span class=\"vault-markdown-line\">"
  {
  }

  lemma EndThenEnd()
    ensures "</span>" + "</p>" == "</span></p>"
  {
  }

  lemma Regroup(tag: string, hidden: string, marker: string, span: string, inline: string, end: string, last: string)
    ensures tag + ((hidden + marker + end) + (span + inline + end)) + last
         == tag + hidden + marker + (end + span) + inline + (end + last)
  {
  }

  lemma TaskHead()
    ensures "<p class=\"vault-task\">" + "<span aria-hidden=\"true\">" == "<p class=\"vault-task\"><span aria-hidden=\"true\">"
  {
  }

  lemma BulletHead()
    ensures "<p class=\"vault-bullet\">" + "<span aria-hidden=\"true\">" == "<p class=\"vault-bullet\"><span aria-hidden=\"true\">"
  {
  }

  lemma OrderedHead()
    ensures "<p class=\"vault-ordered\">" + "<span aria-hidden=\"true\">" == "<p class=\"vault-ordered\"><span aria-hidden=\"true\">"
  {
  }

  lemma DigitsAreNotEscaped(digits: string)
    requires forall c | c in digits :: '0' <= c <= '9'
    ensures EscapeHtml(digits) == digits
  {
    hide EscapeHtml, EscapeOnce;
    EscapersAgree(digits);
    DigitsOnce(digits);
  }

  lemma {:induction false} DigitsOnce(digits: string)
    requires forall c | c in digits :: '0' <= c <= '9'
    ensures EscapeOnce(digits) == digits
  {
    hide Entity;
    if digits != "" {
      assert digits[0] in digits;
      assert forall c | c in digits[1..] :: c in digits;
      DigitsOnce(digits[1..]);
      DigitIsKept(digits[0]);
    }
  }

  lemma DigitIsKept(c: char)
    requires '0' <= c <= '9'
    ensures Entity(c) == [c]
  {
  }

  // ----- fences

  /** A fence is white space, three backticks, and anything. */
  lemma FenceLine(line: string)
    ensures IsFence(line) <==>
      exists space: string, rest: string :: line == space + "```" + rest && forall c | c in space :: IsSpace(c)
  {
    hide IsSpace;
    if IsFence(line) {
      var space := SplitSpace(line);
      assert line == space + "```" + TrimStart(line)[3..];
    }
    forall space: string, rest: string | line == space + "```" + rest && forall c | c in space :: IsSpace(c)
      ensures IsFence(line)
    {
      FencedLine(space, rest);
    }
  }

  lemma FencedLine(space: string, rest: string)
    requires forall c | c in space :: IsSpace(c)
    ensures IsFence(space + "```" + rest)
  {
    hide IsSpace;
    assert space + "```" + rest == space + ("```" + rest);
    SkipSpace(space, "```" + rest);
    BacktickIsNoSpace();
    assert TrimStart("```" + rest) == "```" + rest;
  }

  lemma BacktickIsNoSpace()
    ensures !IsSpace('`')
  {
  }

  lemma {:induction false} SplitSpace(line: string) returns (space: string)
    ensures line == space + TrimStart(line) && forall c | c in space :: IsSpace(c)
  {
    hide IsSpace;
    if line != "" && IsSpace(line[0]) {
      var more := SplitSpace(line[1..]);
      space := [line[0]] + more;
    } else {
      space := "";
    }
  }

  lemma {:induction false} SkipSpace(space: string, rest: string)
    requires forall c | c in space :: IsSpace(c)
    ensures TrimStart(space + rest) == TrimStart(rest)
  {
    hide IsSpace;
    if space == "" {
      assert space + rest == rest;
    } else {
      assert space[0] in space;
      assert (space + rest)[1..] == space[1..] + rest;
      SkipSpace(space[1..], rest);
    }
  }

  lemma FencesRender(line: string)
    ensures FenceHtml() == "<div class=\"vault-code-fence\" aria-hidden=\"true\">```</div>"
    ensures RenderFencedLine(line) == "<pre class=\"vault-code-line\"><code>" + EscapeHtml(line) + "</code></pre>"
  {
    FenceTag();
    DivEnd();
    PreTags();
    CodeTags();
    hide MarkupText, EscapeHtml;
    var escaped := EscapeHtml(line);
    assert "<div class=\"vault-code-fence\" aria-hidden=\"true\">" + "```" + "</div>"
        == "<div class=\"vault-code-fence\" aria-hidden=\"true\">```</div>";
    assert "<pre class=\"vault-code-line\">" + ("<code>" + escaped + "</code>") + "</pre>"
        == ("<pre class=\"vault-code-line\">" + "<code>") + escaped + ("</code>" + "</pre>");
    assert "<pre class=\"vault-code-line\">" + "<code>" == "<pre class=\"vault-code-line\"><code>";
  }

  /** Every line outside a table gives one piece of HTML, told from the line and the fences before it. */
  lemma LinePiece(lines: seq<string>, b: Block)
    requires b in Blocks(lines, 0, false) && !b.Table?
    ensures b.at < |lines| && Fits(lines, b)
    ensures var line := lines[b.at];
      BlockHtml(lines, b) ==
        if IsFence(line) then "<div class=\"vault-code-fence\" aria-hidden=\"true\">```</div>"
        else if OddFences(lines, b.at) then "<pre class=\"vault-code-line\"><code>" + EscapeHtml(line) + "</code></pre>"
        else RenderBlockLine(line)
  {
    hide IsFence, Blocks, RenderBlockLine, RenderFencedLine, FenceHtml, EscapeHtml;
    BlocksFit(lines, 0, false);
    KindsAreRight(lines, 0, false, b, b.at);
    FencesRender(lines[b.at]);
  }

  // ----- tables

  function JoinCells(cells: seq<string>): string
    requires cells != []
  {
    if |cells| == 1 then cells[0] else cells[0] + ("|" + JoinCells(cells[1..]))
  }

  /** A row as it is written: pipes around and between its cells. */
  function RowText(cells: seq<string>): string
    requires cells != []
  {
    "|" + JoinCells(cells) + "|"
  }

  predicate NoPipes(cells: seq<string>) {
    forall c | c in cells :: '|' !in c
  }

  lemma {:induction false} SplitCell(p: string, x: string)
    requires '|' !in p
    ensures Split(p + ("|" + x), '|') == [p] + Split(x, '|')
  {
    var s := p + ("|" + x);
    if p == "" {
      assert s == "|" + x && s[0] == '|' && s[1..] == x;
    } else {
      assert p[0] in p && s[0] == p[0] && s[1..] == p[1..] + ("|" + x);
      SplitCell(p[1..], x);
      assert ([p[1..]] + Split(x, '|'))[1..] == Split(x, '|');
      assert [p[0]] + p[1..] == p;
    }
  }

  lemma {:induction false} SplitLast(p: string)
    requires '|' !in p
    ensures Split(p, '|') == [p]
  {
    if p != "" {
      assert p[0] in p;
      SplitLast(p[1..]);
      assert [p[0]] + p[1..] == p && [p[1..]][1..] == [];
    }
  }

  lemma {:induction false} SplitRow(cells: seq<string>)
    requires cells != [] && NoPipes(cells)
    ensures Split(JoinCells(cells), '|') == cells
  {
    assert cells[0] in cells;
    if |cells| == 1 {
      SplitLast(cells[0]);
    } else {
      SplitRow(cells[1..]);
      SplitCell(cells[0], JoinCells(cells[1..]));
    }
  }

  function Trimmings(cells: seq<string>): (r: seq<string>)
    ensures |r| == |cells|
  {
    seq(|cells|, k requires 0 <= k < |cells| => Trim(cells[k]))
  }

  lemma RowEnds(cells: seq<string>)
    requires cells != []
    ensures var t, inside := RowText(cells), JoinCells(cells);
      && |t| >= 2 && t[0] == '|' && t[|t| - 1] == '|' && t[1..] == inside + "|" && t[1..|t| - 1] == inside
      && Trim(t) == t
  {
    Spaces();
    hide IsSpace, JoinCells;
    var t := RowText(cells);
    assert Trimmed(t);
    TrimOfTrimmed(t);
  }

  /** A written row is read back cell by cell, in order, without the white space around each. */
  lemma RowReadBack(cells: seq<string>)
    requires cells != [] && NoPipes(cells)
    ensures TableCells(RowText(cells)) == Trimmings(cells)
  {
    hide JoinCells, Trim, Split;
    RowEnds(cells);
    SplitRow(cells);
    var inside := JoinCells(cells);
    assert (inside + "|")[..|inside|] == inside;
  }

  /** Colons, if any, around one dash or more. */
  ghost predicate IsRuleText(cell: string) {
    exists left: bool, n: nat, right: bool :: n > 0 && Trim(cell) == Dashes(left, n, right)
  }

  function Dashes(left: bool, n: nat, right: bool): string {
    (if left then ":" else "") + Repeat('-', n) + (if right then ":" else "")
  }

  lemma RuleCell(cell: string)
    requires IsRuleText(cell)
    ensures IsRuleCell(cell)
  {
    var left: bool, n: nat, right: bool :| n > 0 && Trim(cell) == Dashes(left, n, right);
    hide Trim, Repeat, Dashes, WithoutFirst, WithoutLast;
    var dashes, end := Repeat('-', n), if right then ":" else "";
    DashesOnly(n);
    DashesParts(left, n, right);
    assert (dashes + end)[0] == dashes[0];
    WithoutFirstColon(left, dashes + end);
    WithoutLastColon(dashes, right);
  }

  lemma DashesParts(left: bool, n: nat, right: bool)
    ensures Dashes(left, n, right) == (if left then ":" else "") + (Repeat('-', n) + if right then ":" else "")
  {
    hide Repeat;
  }

  lemma WithoutFirstColon(left: bool, rest: string)
    requires rest != "" && rest[0] != ':'
    ensures WithoutFirst((if left then ":" else "") + rest, ':') == rest
  {
    assert (":" + rest)[1..] == rest && "" + rest == rest;
  }

  lemma WithoutLastColon(dashes: string, right: bool)
    requires dashes != "" && dashes[|dashes| - 1] != ':'
    ensures WithoutLast(dashes + if right then ":" else "", ':') == dashes
  {
    assert (dashes + ":")[..|dashes|] == dashes && dashes + "" == dashes;
  }

  lemma DashesOnly(n: nat)
    requires n > 0
    ensures var dashes := Repeat('-', n);
      dashes != "" && dashes[0] == '-' && dashes[n - 1] == '-' && forall c | c in dashes :: c == '-'
  {
  }

  /** A written rule is taken for a rule. */
  lemma RuleIsRule(cells: seq<string>)
    requires cells != [] && NoPipes(cells) && forall c | c in cells :: IsRuleText(c)
    ensures IsTableRule(RowText(cells))
  {
    hide JoinCells, Trim, Split, IsRuleCell, IsRuleText;
    RowEnds(cells);
    SplitRow(cells);
    forall c | c in cells ensures IsRuleCell(c) {
      RuleCell(c);
    }
  }

  // ----- the HTML of a table

  function CellsText(start: string, cells: seq<string>, end: string): string {
    if cells == [] then "" else start + SafeMarkdownInline(cells[0]) + end + CellsText(start, cells[1..], end)
  }

  /** A row cut to the width of the header, or filled up with empty cells. */
  function Widened(row: seq<string>, width: nat): (r: seq<string>)
    ensures |r| == width
  {
    if width <= |row| then row[..width] else row + seq(width - |row|, _ => "")
  }

  function BodyText(rows: seq<seq<string>>, width: nat): string {
    if rows == [] then ""
    else "<tr>" + CellsText("<td>", Widened(rows[0], width), "</td>") + "</tr>" + BodyText(rows[1..], width)
  }

  lemma {:induction false} CellsAreText(cells: seq<string>, name: Name)
    ensures CellsHtml(cells, name) == CellsText(MarkupText(Plain(name)), cells, MarkupText(End(name)))
  {
    hide SafeMarkdownInline, MarkupText;
    if cells != [] {
      CellsAreText(cells[1..], name);
    }
  }

  lemma CellMarkup()
    ensures MarkupText(Plain(Td)) == "<td>" && MarkupText(End(Td)) == "</td>"
    ensures MarkupText(Plain(Th)) == "<th>" && MarkupText(End(Th)) == "</th>"
    ensures MarkupText(Plain(Tr)) == "<tr>" && MarkupText(End(Tr)) == "</tr>"
  {
    BareTag(Td);
    BareTag(Th);
    BareTag(Tr);
    hide MarkupText;
  }

  lemma BodyMarkup()
    ensures MarkupText(Plain(Thead)) == "<thead>" && MarkupText(End(Thead)) == "</thead>"
    ensures MarkupText(Plain(Tbody)) == "<tbody>" && MarkupText(End(Tbody)) == "</tbody>"
  {
    BareTag(Thead);
    BareTag(Tbody);
    hide MarkupText;
  }

  lemma TableMarkup()
    ensures MarkupText(Classed(TableElement, VaultTable)) == "<table class=\"vault-table\">"
    ensures MarkupText(End(TableElement)) == "</table>"
  {
    StartTag(TableElement, VaultTable);
    BareTag(TableElement);
    hide MarkupText;
    TableStart();
    TableTagText();
  }

  lemma TableStart()
    ensures "<" + "table" + " class=\"vault-" == "<table class=\"vault-"
  {
  }

  lemma TableTagText()
    ensures "<table class=\"vault-" + "table" + "\">" == "<table class=\"vault-table\">"
  {
  }

  lemma RowIsText(row: seq<string>, width: nat)
    ensures RowHtml(row, width) == "<tr>" + CellsText("<td>", Widened(row, width), "</td>") + "</tr>"
  {
    CellMarkup();
    hide MarkupText, CellsHtml, CellsText;
    assert Padded(row, width) == Widened(row, width);
    CellsAreText(Widened(row, width), Td);
  }

  lemma {:induction false} RowsAreText(rows: seq<seq<string>>, width: nat)
    ensures RowsHtml(rows, width) == BodyText(rows, width)
  {
    hide RowHtml, CellsText, Widened;
    if rows != [] {
      RowIsText(rows[0], width);
      RowsAreText(rows[1..], width);
    }
  }

  function TableText(header: seq<string>, rows: seq<seq<string>>): string {
    "<table class=\"vault-table\">"
    + ("<thead><tr>" + CellsText("<th>", header, "</th>") + "</tr></thead>"
       + ("<tbody>" + BodyText(rows, |header|) + "</tbody>"))
    + "</table>"
  }

  lemma TableIsText(header: seq<string>, rows: seq<seq<string>>)
    ensures TableHtml(header, rows) == TableText(header, rows)
  {
    hide MarkupText, CellsHtml, CellsText, RowsHtml, BodyText;
    CellMarkup();
    BodyMarkup();
    TableMarkup();
    CellsAreText(header, Th);
    RowsAreText(rows, |header|);
    HeadPieces("<thead>", "<tr>", CellsText("<th>", header, "</th>"), "</tr>", "</thead>");
    HeadStart();
    HeadEnd();
  }

  /**
   * A table block, written out: the cells of the first line between header tags, and those of each
   * body row, as many as the header has, between data tags, all of them in their order.
   */
  lemma TableRenders(lines: seq<string>, b: Block, rows: seq<seq<string>>)
    requires b.Table? && Fits(lines, b)
    requires |rows| == b.rows && forall k | 0 <= k < b.rows :: rows[k] == TableCells(lines[b.at + 2 + k])
    ensures BlockHtml(lines, b) == TableText(TableCells(lines[b.at]), rows)
  {
    hide TableCells, TableHtml, TableText;
    assert rows == CellRows(lines, b.at + 2, b.rows);
    TableIsText(TableCells(lines[b.at]), rows);
  }

  lemma HeadPieces(a: string, b: string, c: string, d: string, e: string)
    ensures a + (b + c + d) + e == (a + b) + c + (d + e)
  {
  }

  lemma HeadStart()
    ensures "<thead>" + "<tr>" == "<thead><tr>"
  {
  }

  lemma HeadEnd()
    ensures "</tr>" + "</thead>" == "</tr></thead>"
  {
  }

  // ----- a document without fences and tables

  lemma {:induction false} LineBlocks(lines: seq<string>, at: nat)
    requires at <= |lines| && forall i | 0 <= i < |lines| :: !IsFence(lines[i]) && !IsTableRow(lines[i])
    ensures var blocks := Blocks(lines, at, false);
      |blocks| == |lines| - at && forall k | 0 <= k < |blocks| :: blocks[k] == Line(at + k)
    decreases |lines| - at
  {
    hide IsFence, IsTableRow, IsTableRule;
    if at < |lines| {
      LineBlocks(lines, at + 1);
      assert !IsTableHeader(lines, at);
    }
  }

  lemma {:induction false} PiecesInOrder(lines: seq<string>, blocks: seq<Block>)
    requires AllFit(lines, blocks)
    ensures |BlocksHtml(lines, blocks)| == |blocks|
    ensures forall k | 0 <= k < |blocks| :: Fits(lines, blocks[k]) && BlocksHtml(lines, blocks)[k] == BlockHtml(lines, blocks[k])
  {
    hide BlockHtml;
    if blocks != [] {
      assert blocks[0] in blocks;
      PiecesInOrder(lines, blocks[1..]);
      forall k | 0 <= k < |blocks|
        ensures Fits(lines, blocks[k]) && BlocksHtml(lines, blocks)[k] == BlockHtml(lines, blocks[k])
      {
        if k > 0 {
          assert blocks[k] == blocks[1..][k - 1];
        }
      }
    }
  }

  /** Line by line, in order. */
  lemma LinesRenderInOrder(lines: seq<string>)
    requires forall i | 0 <= i < |lines| :: !IsFence(lines[i]) && !IsTableRow(lines[i])
    ensures AllFit(lines, Blocks(lines, 0, false))
    ensures var pieces := BlocksHtml(lines, Blocks(lines, 0, false));
      |pieces| == |lines| && forall i | 0 <= i < |lines| :: pieces[i] == RenderBlockLine(lines[i])
  {
    hide IsFence, IsTableRow, Blocks, BlocksHtml, RenderBlockLine, AllFit;
    BlocksFit(lines, 0, false);
    LineBlocks(lines, 0);
    PiecesInOrder(lines, Blocks(lines, 0, false));
  }
}
