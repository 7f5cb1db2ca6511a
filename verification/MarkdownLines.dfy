/** One line of the preview: `renderBlockLine` of dashboard/src/ui/markdown.ts, and fenced lines. */
module MarkdownLines {
  import opened JsText
  import opened MarkdownInline
  import opened MarkdownMarkup

  predicate IsLineTerminator(c: char) {
    c == '\n' || c == '\r' || c == '\U{2028}' || c == '\U{2029}'
  }

  /** The text is matched by `.*`. */
  predicate OnOneLine(s: string) {
    forall c | c in s :: !IsLineTerminator(c)
  }

  function SpaceRun(s: string): (n: nat)
    ensures n <= |s|
  {
    if s == "" || !IsSpace(s[0]) then 0 else 1 + SpaceRun(s[1..])
  }

  function RunOf(s: string, c: char): (n: nat)
    ensures n <= |s|
  {
    if s == "" || s[0] != c then 0 else 1 + RunOf(s[1..], c)
  }

  predicate IsDigit(c: char) {
    '0' <= c <= '9'
  }

  function DigitRun(s: string): (n: nat)
    ensures n <= |s|
  {
    if s == "" || !IsDigit(s[0]) then 0 else 1 + DigitRun(s[1..])
  }

  /**
   * The group of \s+(.+)$ on all of s. The white space takes as much as it can; if nothing is left
   * for the group, it gives back its last character.
   */
  function SpacedText(s: string): Option<string> {
    var n := SpaceRun(s);
    var start := if n < |s| then n else n - 1;
    if n == 0 || start == 0 || !OnOneLine(s[start..]) then None else Some(s[start..])
  }

  /** ^\s*(?:-{3,}|\*{3,}|_{3,})\s*$ */
  predicate IsRuleLine(line: string) {
    var t := Trim(line);
    |t| >= 3 && t[0] in "-*_" && forall c | c in t :: c == t[0]
  }

  /** ^(#{1,6})\s+(.+)$ : the number of signs, and the text. */
  function HeadingOf(line: string): Option<(nat, string)> {
    var n := RunOf(line, '#');
    if !(1 <= n <= 6) then None
    else match SpacedText(line[n..]) case None => None case Some(text) => Some((n, text))
  }

  /** ^\s*[-*]\s+\[([ xX])\]\s+(.+)$ : whether it is ticked, and the text. */
  function TaskOf(line: string): Option<(bool, string)> {
    var t := TrimStart(line);
    if t == "" || t[0] !in "-*" then None
    else
      var n := SpaceRun(t[1..]);
      var box := t[1 + n..];
      if n == 0 || |box| < 3 || box[0] != '[' || box[1] !in " xX" || box[2] != ']' then None
      else match SpacedText(box[3..]) case None => None case Some(text) => Some((box[1] != ' ', text))
  }

  /** ^\s*[-*+]\s+(.+)$ */
  function BulletOf(line: string): Option<string> {
    var t := TrimStart(line);
    if t == "" || t[0] !in "-*+" then None else SpacedText(t[1..])
  }

  /** ^\s*(\d{1,3})[.)]\s+(.+)$ : the digits, and the text. */
  function OrderedOf(line: string): Option<(string, string)> {
    var t := TrimStart(line);
    var n := DigitRun(t);
    if !(1 <= n <= 3) || n == |t| || t[n] !in ".)" then None
    else match SpacedText(t[n + 1..]) case None => None case Some(text) => Some((t[..n], text))
  }

  /** ^\s*>\s?(.*)$ */
  function QuoteOf(line: string): Option<string> {
    var t := TrimStart(line);
    if t == "" || t[0] != '>' then None
    else
      var rest := if |t| > 1 && IsSpace(t[1]) then t[2..] else t[1..];
      if OnOneLine(rest) then Some(rest) else None
  }

  function Enclosed(start: Markup, content: string): string {
    MarkupText(start) + content + MarkupText(End(start.name))
  }

  /** A paragraph with a hidden marker and the line. */
  function Marked(c: Class, marker: string, text: string): string {
    Enclosed(Classed(P, c),
      Enclosed(Start(Span, Attribute(NoClass, true, false)), marker)
      + Enclosed(Classed(Span, MarkdownLine), SafeMarkdownInline(text)))
  }

  function RenderBlockLine(line: string): string {
    if Trim(line) == "" then Enclosed(Start(Div, Attribute(Space, true, false)), "")
    else if IsRuleLine(line) then MarkupText(Start(Hr, Attribute(Rule, false, true)))
    else if HeadingOf(line).Some? then
      var (n, text) := HeadingOf(line).value;
      Enclosed(Plain(Heading(if n < 6 then n + 1 else 6)), SafeMarkdownInline(text))
    else if TaskOf(line).Some? then
      var (ticked, text) := TaskOf(line).value;
      Marked(Task, if ticked then "\U{2611}" else "\U{2610}", text)
    else if BulletOf(line).Some? then Marked(Bullet, "\U{2022}", BulletOf(line).value)
    else if OrderedOf(line).Some? then
      var (digits, text) := OrderedOf(line).value;
      Marked(Ordered, EscapeHtml(digits) + ".", text)
    else if QuoteOf(line).Some? then Enclosed(Plain(Blockquote), SafeMarkdownInline(QuoteOf(line).value))
    else Enclosed(Plain(P), SafeMarkdownInline(line))
  }

  function RenderFencedLine(line: string): string {
    Enclosed(Classed(Pre, CodeLine), Enclosed(Plain(CodeElement), EscapeHtml(line)))
  }

  // ----- inertness

  lemma EnclosedIsInert(start: Markup, content: string)
    requires Inert(content)
    ensures Inert(Enclosed(start, content))
  {
    hide Inert, MarkupText;
    MarkupIsInert(start);
    MarkupIsInert(End(start.name));
    InertAppend(MarkupText(start), content);
    InertAppend(MarkupText(start) + content, MarkupText(End(start.name)));
  }

  lemma MarkedIsInert(c: Class, marker: string, text: string)
    requires Inert(marker)
    ensures Inert(Marked(c, marker, text))
  {
    hide Inert, Enclosed, SafeMarkdownInline;
    var hidden, line := Start(Span, Attribute(NoClass, true, false)), Classed(Span, MarkdownLine);
    EnclosedIsInert(hidden, marker);
    InlineMarkupIsInert(text);
    EnclosedIsInert(line, SafeMarkdownInline(text));
    InertAppend(Enclosed(hidden, marker), Enclosed(line, SafeMarkdownInline(text)));
    EnclosedIsInert(Classed(P, c), Enclosed(hidden, marker) + Enclosed(line, SafeMarkdownInline(text)));
  }

  /** Whatever a line is taken for, its HTML is inert. */
  lemma BlockLineIsInert(line: string)
    ensures Inert(RenderBlockLine(line))
  {
    hide Inert, Enclosed, Marked, MarkupText, SafeMarkdownInline, EscapeHtml, IsRuleLine, HeadingOf, TaskOf, BulletOf,
      OrderedOf, QuoteOf, Trim;
    if Trim(line) == "" {
      TextIsInert("");
      EnclosedIsInert(Start(Div, Attribute(Space, true, false)), "");
    } else if IsRuleLine(line) {
      MarkupIsInert(Start(Hr, Attribute(Rule, false, true)));
    } else if HeadingOf(line).Some? {
      var (n, text) := HeadingOf(line).value;
      InlineMarkupIsInert(text);
      HeadingRange(line);
      EnclosedIsInert(Plain(Heading(if n < 6 then n + 1 else 6)), SafeMarkdownInline(text));
    } else if TaskOf(line).Some? {
      var (ticked, text) := TaskOf(line).value;
      var marker := if ticked then "\U{2611}" else "\U{2610}";
      TextIsInert(marker);
      MarkedIsInert(Task, marker, text);
    } else if BulletOf(line).Some? {
      TextIsInert("\U{2022}");
      MarkedIsInert(Bullet, "\U{2022}", BulletOf(line).value);
    } else if OrderedOf(line).Some? {
      var (digits, text) := OrderedOf(line).value;
      EscapedIsInert(digits);
      TextIsInert(".");
      InertAppend(EscapeHtml(digits), ".");
      MarkedIsInert(Ordered, EscapeHtml(digits) + ".", text);
    } else if QuoteOf(line).Some? {
      InlineMarkupIsInert(QuoteOf(line).value);
      EnclosedIsInert(Plain(Blockquote), SafeMarkdownInline(QuoteOf(line).value));
    } else {
      InlineMarkupIsInert(line);
      EnclosedIsInert(Plain(P), SafeMarkdownInline(line));
    }
  }

  lemma HeadingRange(line: string)
    requires HeadingOf(line).Some?
    ensures 1 <= HeadingOf(line).value.0 <= 6
  {
  }

  lemma FencedLineIsInert(line: string)
    ensures Inert(RenderFencedLine(line))
  {
    hide Inert, Enclosed, EscapeHtml;
    EscapedIsInert(line);
    EnclosedIsInert(Plain(CodeElement), EscapeHtml(line));
    EnclosedIsInert(Classed(Pre, CodeLine), Enclosed(Plain(CodeElement), EscapeHtml(line)));
  }
}
