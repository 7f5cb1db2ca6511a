/**
 * Escaping and inline markup of dashboard/src/ui/markdown.ts: five replacements that escape the
 * text, then four that rewrite it, each over the whole output of the one before.
 */
module MarkdownInline {
  import opened JsText

  // ----- escaping

  /** `s.replaceAll(c, text)` for a single character. */
  function ReplaceAll(s: string, c: char, text: string): string {
    if s == "" then "" else (if s[0] == c then text else [s[0]]) + ReplaceAll(s[1..], c, text)
  }

  /** The five replacements, in order. */
  function EscapeHtml(s: string): string {
    ReplaceAll(ReplaceAll(ReplaceAll(ReplaceAll(ReplaceAll(s, '&', "&amp;"), '<', "&lt;"), '>', "&gt;"),
                          '"', "&quot;"), '\'', "&#39;")
  }

  /** The table of the single-pass escaper. */
  function Entity(c: char): string {
    if c == '&' then "&amp;"
    else if c == '<' then "&lt;"
    else if c == '>' then "&gt;"
    else if c == '"' then "&quot;"
    else if c == '\'' then "&#39;"
    else [c]
  }

  /** `value.replace(/[&<>'"]/g, ...)`. */
  function EscapeOnce(s: string): string {
    if s == "" then "" else Entity(s[0]) + EscapeOnce(s[1..])
  }

  lemma {:induction false} ReplaceAllAppend(a: string, b: string, c: char, text: string)
    ensures ReplaceAll(a + b, c, text) == ReplaceAll(a, c, text) + ReplaceAll(b, c, text)
  {
    if a == "" {
      assert a + b == b;
    } else {
      assert (a + b)[1..] == a[1..] + b;
      ReplaceAllAppend(a[1..], b, c, text);
    }
  }

  lemma {:induction false} ReplaceAllAbsent(s: string, c: char, text: string)
    requires c !in s
    ensures ReplaceAll(s, c, text) == s
  {
    if s != "" {
      ReplaceAllAbsent(s[1..], c, text);
    }
  }

  lemma ReplaceAllOne(c: char, text: string)
    ensures ReplaceAll([c], c, text) == text
  {
    assert [c][1..] == "";
    assert text + "" == text;
  }

  lemma EscapeHtmlAppend(a: string, b: string)
    ensures EscapeHtml(a + b) == EscapeHtml(a) + EscapeHtml(b)
  {
    hide ReplaceAll;
    ReplaceAllAppend(a, b, '&', "&amp;");
    var a1, b1 := ReplaceAll(a, '&', "&amp;"), ReplaceAll(b, '&', "&amp;");
    ReplaceAllAppend(a1, b1, '<', "&lt;");
    var a2, b2 := ReplaceAll(a1, '<', "&lt;"), ReplaceAll(b1, '<', "&lt;");
    ReplaceAllAppend(a2, b2, '>', "&gt;");
    var a3, b3 := ReplaceAll(a2, '>', "&gt;"), ReplaceAll(b2, '>', "&gt;");
    ReplaceAllAppend(a3, b3, '"', "&quot;");
    ReplaceAllAppend(ReplaceAll(a3, '"', "&quot;"), ReplaceAll(b3, '"', "&quot;"), '\'', "&#39;");
  }

  lemma EscapeHtmlOne(c: char)
    ensures EscapeHtml([c]) == Entity(c)
  {
    hide ReplaceAll;
    var s := [c];
    if c == '&' {
      ReplaceAllOne(c, "&amp;");
      s := "&amp;";
    } else {
      ReplaceAllAbsent(s, '&', "&amp;");
    }
    if c == '<' {
      ReplaceAllOne(c, "&lt;");
      s := "&lt;";
    } else {
      ReplaceAllAbsent(s, '<', "&lt;");
    }
    if c == '>' {
      ReplaceAllOne(c, "&gt;");
      s := "&gt;";
    } else {
      ReplaceAllAbsent(s, '>', "&gt;");
    }
    if c == '"' {
      ReplaceAllOne(c, "&quot;");
      s := "&quot;";
    } else {
      ReplaceAllAbsent(s, '"', "&quot;");
    }
    if c == '\'' {
      ReplaceAllOne(c, "&#39;");
    } else {
      ReplaceAllAbsent(s, '\'', "&#39;");
    }
  }

  /** The five passes do what the one pass does: no replacement touches the output of another. */
  lemma {:induction false} EscapersAgree(s: string)
    ensures EscapeHtml(s) == EscapeOnce(s)
  {
    if s != "" {
      assert s == [s[0]] + s[1..];
      EscapeHtmlAppend([s[0]], s[1..]);
      EscapeHtmlOne(s[0]);
      EscapersAgree(s[1..]);
    }
  }

  /** The character at the start of s, written as a character reference or not, and its length. */
  function Reference(s: string): (r: (char, nat))
    requires s != ""
    ensures 0 < r.1 <= |s|
  {
    if s[0] != '&' then (s[0], 1)
    else if "&amp;" <= s then ('&', 5)
    else if "&lt;" <= s then ('<', 4)
    else if "&gt;" <= s then ('>', 4)
    else if "&quot;" <= s then ('"', 6)
    else if "&#39;" <= s then ('\'', 5)
    else (s[0], 1)
  }

  /** Reading character references back. */
  function Unescape(s: string): string
    decreases |s|
  {
    if s == "" then "" else var (c, n) := Reference(s); [c] + Unescape(s[n..])
  }

  lemma ReferenceOfEntity(c: char, rest: string)
    ensures Entity(c) != "" && Reference(Entity(c) + rest) == (c, |Entity(c)|)
  {
    var s := Entity(c) + rest;
    assert s[0] == Entity(c)[0];
    if |Entity(c)| > 1 {
      assert s[1] == Entity(c)[1];
    }
    if c == '<' || c == '>' {
      assert s[..4] == Entity(c);
    } else if c == '\'' || c == '&' {
      assert s[..5] == Entity(c);
    } else if c == '"' {
      assert s[..6] == Entity(c);
    }
  }

  lemma UnescapeEntity(c: char, rest: string)
    ensures Unescape(Entity(c) + rest) == [c] + Unescape(rest)
  {
    hide Reference, Entity;
    ReferenceOfEntity(c, rest);
    var s := Entity(c) + rest;
    assert s[|Entity(c)|..] == rest;
    BoundsOfReference(s);
  }

  lemma BoundsOfReference(s: string)
    requires s != ""
    ensures 0 < Reference(s).1 <= |s|
  {
  }

  lemma EntityIsSafe(c: char)
    ensures forall d | d in Entity(c) :: d !in "<>\"'"
  {
  }

  /** Escaping loses nothing and leaves nothing raw; what was escaped can be read back. */
  lemma EscapeIsSafe(s: string)
    ensures Unescape(EscapeHtml(s)) == s
    ensures forall c | c in EscapeHtml(s) :: c !in "<>\"'"
  {
    hide EscapeHtml, EscapeOnce, Unescape;
    EscapersAgree(s);
    EscapeOnceIsSafe(s);
  }

  lemma {:induction false} EscapeOnceIsSafe(s: string)
    ensures Unescape(EscapeOnce(s)) == s
    ensures forall c | c in EscapeOnce(s) :: c !in "<>\"'"
  {
    hide Entity, Reference;
    if s != "" {
      EscapeOnceIsSafe(s[1..]);
      UnescapeEntity(s[0], EscapeOnce(s[1..]));
      EntityIsSafe(s[0]);
    }
  }

  // ----- one rewriting pass

  datatype Kind = CodeTag | StrongTag | EmphasisTag | LinkTag

  /** The fixed tags. */
  function TagText(kind: Kind, closing: bool): string {
    match kind
    case CodeTag => if closing then "</code>" else "<code>"
    case StrongTag => if closing then "</strong>" else "<strong>"
    case EmphasisTag => if closing then "</em>" else "<em>"
    case LinkTag => if closing then "</span>" else "<span class=\"vault-wikilink\">"
  }

  /**
   * A pattern `open content close`: the content is one or more characters outside `stop`, and with
   * `flanked` it neither starts nor ends with white space. The markers may be kept.
   */
  datatype Pass = Pass(kind: Kind, open: string, close: string, stop: set<char>, flanked: bool, keep: bool)

  function PassFor(kind: Kind): Pass {
    match kind
    case CodeTag => Pass(kind, "`", "`", {'`'}, false, false)
    case StrongTag => Pass(kind, "**", "**", {'*'}, false, false)
    case EmphasisTag => Pass(kind, "*", "*", {'*', '\n'}, true, false)
    case LinkTag => Pass(kind, "[[", "]]", {']'}, false, true)
  }

  /**
   * The longest beginning without a stop character. A run `[^...]+` cannot end anywhere else, for
   * the closing marker starts with a stop character.
   */
  function RunLength(stop: set<char>, s: string): (n: nat)
    ensures n <= |s|
  {
    if s == "" || s[0] in stop then 0 else 1 + RunLength(stop, s[1..])
  }

  /** Length of the content of a match at the start of s, or 0. */
  function ContentLength(p: Pass, s: string): (n: nat)
    ensures n > 0 ==> |p.open| + n + |p.close| <= |s|
  {
    if !(p.open <= s) then 0
    else
      var rest := s[|p.open|..];
      var n := RunLength(p.stop, rest);
      if n == 0 || !(p.close <= rest[n..]) then 0
      else if p.flanked && (IsSpace(rest[0]) || IsSpace(rest[n - 1])) then 0
      else n
  }

  function Before(p: Pass): string {
    TagText(p.kind, false) + if p.keep then p.open else ""
  }

  function Behind(p: Pass): string {
    (if p.keep then p.close else "") + TagText(p.kind, true)
  }

  /** A global replacement: leftmost matches, one behind the other. */
  function Rewrite(p: Pass, s: string): string
    decreases |s|
  {
    if s == "" then ""
    else
      var n := ContentLength(p, s);
      if n == 0 then [s[0]] + Rewrite(p, s[1..])
      else
        var o := |p.open|;
        Before(p) + s[o..o + n] + Behind(p) + Rewrite(p, s[o + n + |p.close|..])
  }

  function SafeMarkdownInline(value: string): string {
    Rewrite(PassFor(LinkTag),
      Rewrite(PassFor(EmphasisTag),
        Rewrite(PassFor(StrongTag),
          Rewrite(PassFor(CodeTag), EscapeHtml(value)))))
  }

  // ----- the output as text and whole tags

  datatype Token = Ch(c: char) | Tag(kind: Kind, closing: bool)

  function ShowToken(t: Token): string {
    match t
    case Ch(c) => [c]
    case Tag(kind, closing) => TagText(kind, closing)
  }

  function Show(ts: seq<Token>): string {
    if ts == [] then "" else ShowToken(ts[0]) + Show(ts[1..])
  }

  function TokenText(t: Token): string {
    if t.Ch? then [t.c] else ""
  }

  function TextOf(ts: seq<Token>): string {
    if ts == [] then "" else TokenText(ts[0]) + TextOf(ts[1..])
  }

  function CountTag(ts: seq<Token>, kind: Kind, closing: bool): nat {
    if ts == [] then 0 else (if ts[0] == Tag(kind, closing) then 1 else 0) + CountTag(ts[1..], kind, closing)
  }

  predicate IsClean(t: Token) {
    t.Ch? ==> t.c != '<' && t.c != '>'
  }

  /** Escaped text and template tags only. */
  ghost predicate Clean(ts: seq<Token>) {
    forall t | t in ts :: IsClean(t)
  }

  function Chars(s: string): (ts: seq<Token>)
    ensures |ts| == |s|
  {
    seq(|s|, i requires 0 <= i < |s| => Ch(s[i]))
  }

  lemma {:induction false} CharsShow(s: string)
    ensures Show(Chars(s)) == s && TextOf(Chars(s)) == s
  {
    hide TagText;
    if s != "" {
      assert Chars(s)[1..] == Chars(s[1..]);
      CharsShow(s[1..]);
      assert s == [s[0]] + s[1..];
    }
  }

  lemma {:induction false} CharsHaveNoTag(s: string, kind: Kind, closing: bool)
    ensures CountTag(Chars(s), kind, closing) == 0
  {
    if s != "" {
      assert Chars(s)[1..] == Chars(s[1..]);
      CharsHaveNoTag(s[1..], kind, closing);
    }
  }

  lemma {:induction false} ShowAppend(a: seq<Token>, b: seq<Token>)
    ensures Show(a + b) == Show(a) + Show(b)
  {
    hide ShowToken;
    if a == [] {
      assert a + b == b;
    } else {
      assert (a + b)[1..] == a[1..] + b;
      ShowAppend(a[1..], b);
    }
  }

  lemma {:induction false} TextOfAppend(a: seq<Token>, b: seq<Token>)
    ensures TextOf(a + b) == TextOf(a) + TextOf(b)
  {
    hide TokenText;
    if a == [] {
      assert a + b == b;
    } else {
      assert (a + b)[1..] == a[1..] + b;
      TextOfAppend(a[1..], b);
    }
  }

  lemma {:induction false} CountTagAppend(a: seq<Token>, b: seq<Token>, kind: Kind, closing: bool)
    ensures CountTag(a + b, kind, closing) == CountTag(a, kind, closing) + CountTag(b, kind, closing)
  {
    if a == [] {
      assert a + b == b;
    } else {
      assert (a + b)[1..] == a[1..] + b;
      CountTagAppend(a[1..], b, kind, closing);
    }
  }

  lemma OneToken(t: Token)
    ensures Show([t]) == ShowToken(t)
    ensures TextOf([t]) == if t.Ch? then [t.c] else ""
    ensures forall kind, closing :: CountTag([t], kind, closing) == if t == Tag(kind, closing) then 1 else 0
  {
    hide ShowToken;
    assert [t][1..] == [];
    assert ShowToken(t) + "" == ShowToken(t);
  }

  // ----- what a rewrite may do to the text

  predicate IsMarker(c: char) {
    c == '`' || c == '*'
  }

  function WithoutMarkers(s: string): string {
    if s == "" then "" else (if IsMarker(s[0]) then "" else [s[0]]) + WithoutMarkers(s[1..])
  }

  predicate Subsequence(a: string, b: string)
    decreases |b|
  {
    a == "" || (b != "" && (Subsequence(a, b[1..]) || (a[0] == b[0] && Subsequence(a[1..], b[1..]))))
  }

  /** b is a with some of its backticks and stars left out. */
  predicate DropsMarkers(a: string, b: string) {
    Subsequence(b, a) && WithoutMarkers(a) == WithoutMarkers(b)
  }

  lemma {:induction false} WithoutMarkersAppend(a: string, b: string)
    ensures WithoutMarkers(a + b) == WithoutMarkers(a) + WithoutMarkers(b)
  {
    if a == "" {
      assert a + b == b;
    } else {
      assert (a + b)[1..] == a[1..] + b;
      WithoutMarkersAppend(a[1..], b);
    }
  }

  lemma {:induction false} SubsequenceRefl(a: string)
    ensures Subsequence(a, a)
  {
    if a != "" {
      SubsequenceRefl(a[1..]);
    }
  }

  lemma {:induction false} SubsequenceAppend(a: string, b: string, c: string, d: string)
    requires Subsequence(a, b) && Subsequence(c, d)
    ensures Subsequence(a + c, b + d)
    decreases |b|
  {
    if b == "" {
      assert a + c == c && b + d == d;
    } else {
      assert (b + d)[1..] == b[1..] + d;
      if a == "" || Subsequence(a, b[1..]) {
        SubsequenceAppend(a, b[1..], c, d);
      } else {
        assert (a + c)[1..] == a[1..] + c;
        SubsequenceAppend(a[1..], b[1..], c, d);
      }
    }
  }

  lemma {:induction false} SubsequenceTrans(a: string, b: string, c: string)
    requires Subsequence(a, b) && Subsequence(b, c)
    ensures Subsequence(a, c)
    decreases |c|
  {
    if a != "" {
      if Subsequence(b, c[1..]) {
        SubsequenceTrans(a, b, c[1..]);
      } else if Subsequence(a, b[1..]) {
        SubsequenceTrans(a, b[1..], c[1..]);
      } else {
        SubsequenceTrans(a[1..], b[1..], c[1..]);
      }
    }
  }

  lemma DropsMarkersRefl(a: string)
    ensures DropsMarkers(a, a)
  {
    SubsequenceRefl(a);
  }

  lemma DropsMarkersAppend(a: string, b: string, c: string, d: string)
    requires DropsMarkers(a, b) && DropsMarkers(c, d)
    ensures DropsMarkers(a + c, b + d)
  {
    SubsequenceAppend(b, a, d, c);
    WithoutMarkersAppend(a, c);
    WithoutMarkersAppend(b, d);
  }

  lemma DropsMarkersTrans(a: string, b: string, c: string)
    requires DropsMarkers(a, b) && DropsMarkers(b, c)
    ensures DropsMarkers(a, c)
  {
    SubsequenceTrans(c, b, a);
  }

  // ----- one pass over text and tags

  /** Opening tags of a kind without a closing tag. */
  function Balance(ts: seq<Token>, kind: Kind): int {
    CountTag(ts, kind, false) - CountTag(ts, kind, true)
  }

  lemma BalanceAppend(a: seq<Token>, b: seq<Token>, kind: Kind)
    ensures Balance(a + b, kind) == Balance(a, kind) + Balance(b, kind)
  {
    CountTagAppend(a, b, kind, false);
    CountTagAppend(a, b, kind, true);
  }

  /** What a pass makes of some tokens: whole tags in pairs, and text without some of its markers. */
  ghost predicate Refines(ts: seq<Token>, ts': seq<Token>) {
    && Clean(ts')
    && DropsMarkers(TextOf(ts), TextOf(ts'))
    && forall kind :: Balance(ts', kind) == Balance(ts, kind)
  }

  lemma RefinesRefl(ts: seq<Token>)
    requires Clean(ts)
    ensures Refines(ts, ts)
  {
    DropsMarkersRefl(TextOf(ts));
  }

  lemma RefinesAppend(a: seq<Token>, a': seq<Token>, b: seq<Token>, b': seq<Token>)
    requires Refines(a, a') && Refines(b, b')
    ensures Refines(a + b, a' + b')
  {
    hide DropsMarkers, Balance, TextOf, IsClean;
    TextOfAppend(a, b);
    TextOfAppend(a', b');
    DropsMarkersAppend(TextOf(a), TextOf(a'), TextOf(b), TextOf(b'));
    forall kind ensures Balance(a' + b', kind) == Balance(a + b, kind) {
      BalanceAppend(a, b, kind);
      BalanceAppend(a', b', kind);
    }
    assert forall t :: t in a' + b' ==> t in a' || t in b';
  }

  lemma RefinesTrans(a: seq<Token>, b: seq<Token>, c: seq<Token>)
    requires Refines(a, b) && Refines(b, c)
    ensures Refines(a, c)
  {
    hide DropsMarkers, Balance, TextOf, IsClean;
    DropsMarkersTrans(TextOf(a), TextOf(b), TextOf(c));
  }

  /** The characters that markers are made of, and line feed. */
  predicate IsSpecial(c: char) {
    c == '`' || c == '*' || c == '[' || c == ']' || c == '\n'
  }

  predicate NoSpecial(s: string) {
    forall c | c in s :: !IsSpecial(c)
  }

  predicate AllSpecial(s: string) {
    forall c | c in s :: IsSpecial(c)
  }

  /** A tag is `<`, some text without angle brackets, `>`; it holds no marker. */
  lemma TagFacts(kind: Kind, closing: bool)
    ensures var tag := TagText(kind, closing);
      && |tag| > 1 && tag[0] == '<' && tag[|tag| - 1] == '>'
      && NoSpecial(tag)
      && '<' !in tag[1..] && '>' !in tag[..|tag| - 1]
  {
    var tag := TagText(kind, closing);
    TagInside(kind, closing);
    hide TagText, IsSpecial;
    var inside := tag[1..|tag| - 1];
    assert tag == "<" + inside + ">";
    Brackets(inside);
  }

  /** What is between the angle brackets. */
  lemma TagInside(kind: Kind, closing: bool)
    ensures var tag := TagText(kind, closing);
      && |tag| > 1 && tag[0] == '<' && tag[|tag| - 1] == '>'
      && forall i | 0 < i < |tag| - 1 :: tag[i] != '<' && tag[i] != '>' && !IsSpecial(tag[i])
  {
    match kind
    case CodeTag =>
    case StrongTag =>
    case EmphasisTag =>
    case LinkTag =>
  }

  lemma Brackets(inside: string)
    requires '<' !in inside && '>' !in inside && NoSpecial(inside)
    ensures var tag := "<" + inside + ">";
      NoSpecial(tag) && '<' !in tag[1..] && '>' !in tag[..|tag| - 1]
  {
    var tag := "<" + inside + ">";
    assert tag[1..] == inside + ">";
    assert tag[..|tag| - 1] == "<" + inside;
  }

  predicate GoodPass(p: Pass) {
    && p.open != "" && p.close != "" && AllSpecial(p.open) && AllSpecial(p.close)
    && (forall c | c in p.stop :: IsSpecial(c))
    && (!p.keep ==> AllMarkers(p.open) && AllMarkers(p.close))
  }

  predicate AllMarkers(s: string) {
    forall c | c in s :: IsMarker(c)
  }

  lemma PassesAreGood(kind: Kind)
    ensures GoodPass(PassFor(kind))
  {
  }

  /** The search moves on by one character where nothing matches. */
  lemma RewriteMovesOn(p: Pass, s: string)
    requires s != "" && ContentLength(p, s) == 0
    ensures Rewrite(p, s) == [s[0]] + Rewrite(p, s[1..])
  {
    hide ContentLength;
  }

  /** Text that holds no opening marker is left alone. */
  lemma {:induction false} SkipText(p: Pass, t: string, x: string)
    requires p.open != "" && p.open[0] !in t
    ensures Rewrite(p, t + x) == t + Rewrite(p, x)
  {
    hide Rewrite, RunLength, IsSpace;
    if t == "" {
      assert t + x == x;
    } else {
      assert (t + x)[1..] == t[1..] + x;
      assert t[0] in t;
      RewriteMovesOn(p, t + x);
      SkipText(p, t[1..], x);
    }
  }

  lemma {:induction false} SkipRun(stop: set<char>, t: string, x: string)
    requires forall c | c in t :: c !in stop
    ensures RunLength(stop, t + x) == |t| + RunLength(stop, x)
  {
    if t == "" {
      assert t + x == x;
    } else {
      assert t[0] in t;
      assert (t + x)[1..] == t[1..] + x;
      SkipRun(stop, t[1..], x);
    }
  }

  lemma FirstToken(ts: seq<Token>)
    requires Clean(ts) && ts != []
    ensures Clean([ts[0]]) && Clean(ts[1..])
    ensures Show([ts[0]]) != "" && Show(ts) == Show([ts[0]]) + Show(ts[1..])
    ensures ts[0].Ch? ==> Show([ts[0]]) == [ts[0].c]
    ensures ts[0].Tag? ==> NoSpecial(Show([ts[0]]))
  {
    hide NoSpecial, TagText;
    OneToken(ts[0]);
    if ts[0].Tag? {
      TagFacts(ts[0].kind, ts[0].closing);
    }
  }

  lemma ShowNothing()
    ensures Show([]) == ""
  {
  }

  /** A marker at the start of the output comes from text, not from tags. */
  lemma {:induction false} MarkerIsText(ts: seq<Token>, w: string)
    requires Clean(ts) && w <= Show(ts) && AllSpecial(w)
    ensures |w| <= |ts| && ts[..|w|] == Chars(w)
  {
    hide Show, Clean, IsSpecial;
    if w != "" {
      if ts == [] {
        ShowNothing();
        assert false;
      }
      FirstToken(ts);
      var head := Show([ts[0]]);
      assert w[0] in w && w[0] == head[0] && head[0] in head;
      assert head == [ts[0].c] && Show(ts)[1..] == Show(ts[1..]);
      assert w[1..] <= Show(ts[1..]);
      assert AllSpecial(w[1..]);
      MarkerIsText(ts[1..], w[1..]);
      assert ts[..|w|] == [ts[0]] + ts[1..][..|w| - 1];
      assert Chars(w) == [Ch(w[0])] + Chars(w[1..]);
    }
  }

  lemma RunStops(stop: set<char>, ts: seq<Token>)
    requires ts == [] || (ts[0].Ch? && ts[0].c in stop)
    ensures RunLength(stop, Show(ts)) == 0
  {
  }

  /** A run of content ends between two tokens. */
  lemma {:induction false} RunIsTokens(stop: set<char>, ts: seq<Token>) returns (m: nat)
    requires Clean(ts) && forall c | c in stop :: IsSpecial(c)
    ensures m <= |ts|
    ensures Show(ts[..m]) == Show(ts)[..RunLength(stop, Show(ts))]
    ensures Show(ts[m..]) == Show(ts)[RunLength(stop, Show(ts))..]
  {
    hide Show, RunLength, Clean, TextOf;
    if ts == [] || (ts[0].Ch? && ts[0].c in stop) {
      m := 0;
      ShowNothing();
      assert ts[..0] == [] && ts[0..] == ts;
      RunStops(stop, ts);
    } else {
      var head, rest := [ts[0]], ts[1..];
      FirstToken(ts);
      SkipRun(stop, Show(head), Show(rest));
      var k := RunIsTokens(stop, rest);
      m := k + 1;
      assert ts[..m] == head + rest[..k];
      ShowAppend(head, rest[..k]);
      assert ts[m..] == rest[k..];
    }
  }

  /** Tokens whose text starts with a marker. */
  lemma CutMarker(ts: seq<Token>, w: string) returns (rest: seq<Token>)
    requires Clean(ts) && w <= Show(ts) && AllSpecial(w)
    ensures ts == Chars(w) + rest && Show(rest) == Show(ts)[|w|..] && Clean(rest)
  {
    hide Show, Chars, IsClean;
    MarkerIsText(ts, w);
    rest := ts[|w|..];
    assert ts == Chars(w) + rest;
    ShowAppend(Chars(w), rest);
    CharsShow(w);
  }

  /** A match covers whole tokens: the opening marker, some content, the closing marker. */
  lemma CutMatch(p: Pass, ts: seq<Token>) returns (content: seq<Token>, tail: seq<Token>)
    requires Clean(ts) && GoodPass(p)
    requires p.open <= Show(ts) && p.close <= Show(ts)[|p.open|..][RunLength(p.stop, Show(ts)[|p.open|..])..]
    ensures ts == Chars(p.open) + content + Chars(p.close) + tail
    ensures Clean(content) && Clean(tail) && |Show(tail)| < |Show(ts)|
    ensures var o, n := |p.open|, RunLength(p.stop, Show(ts)[|p.open|..]);
      Show(content) == Show(ts)[o..o + n] && Show(tail) == Show(ts)[o + n + |p.close|..]
  {
    hide Show, Chars, RunLength, IsClean, AllSpecial, AllMarkers, IsSpecial;
    var s, o := Show(ts), |p.open|;
    var n := RunLength(p.stop, s[o..]);
    var inner := CutMarker(ts, p.open);
    var m := RunIsTokens(p.stop, inner);
    content := inner[..m];
    var after := inner[m..];
    assert inner == content + after;
    tail := CutMarker(after, p.close);
    assert s[o..][..n] == s[o..o + n];
    assert s[o..][n..][|p.close|..] == s[o + n + |p.close|..];
  }

  lemma ContentFacts(p: Pass, s: string)
    requires ContentLength(p, s) > 0
    ensures p.open <= s
    ensures var n := RunLength(p.stop, s[|p.open|..]); ContentLength(p, s) == n && p.close <= s[|p.open|..][n..]
  {
    hide IsSpace, RunLength;
  }

  lemma RewriteMatch(p: Pass, s: string)
    requires ContentLength(p, s) > 0
    ensures var o, n := |p.open|, ContentLength(p, s);
      && o + n + |p.close| <= |s|
      && Rewrite(p, s) == Before(p) + s[o..o + n] + Behind(p) + Rewrite(p, s[o + n + |p.close|..])
  {
    hide Before, Behind, RunLength, IsSpace;
  }

  lemma MatchIsTokens(p: Pass, ts: seq<Token>) returns (content: seq<Token>, tail: seq<Token>)
    requires GoodPass(p) && Clean(ts) && ContentLength(p, Show(ts)) > 0
    ensures ts == Chars(p.open) + content + Chars(p.close) + tail
    ensures Clean(content) && Clean(tail) && |Show(tail)| < |Show(ts)|
    ensures Rewrite(p, Show(ts)) == Before(p) + Show(content) + Behind(p) + Rewrite(p, Show(tail))
  {
    hide Show, Chars, ContentLength, Rewrite, RunLength, Clean, Before, Behind, GoodPass;
    var s := Show(ts);
    RewriteMatch(p, s);
    ContentFacts(p, s);
    content, tail := CutMatch(p, ts);
  }

  // ----- the replacement of one match

  function OpeningSide(p: Pass): seq<Token> {
    [Tag(p.kind, false)] + if p.keep then Chars(p.open) else []
  }

  function ClosingSide(p: Pass): seq<Token> {
    (if p.keep then Chars(p.close) else []) + [Tag(p.kind, true)]
  }

  lemma {:induction false} OnlyMarkers(marker: string)
    requires AllMarkers(marker)
    ensures WithoutMarkers(marker) == ""
  {
    if marker != "" {
      assert marker[0] in marker;
      OnlyMarkers(marker[1..]);
    }
  }

  lemma MarkerKeptOrDropped(marker: string, keep: bool)
    requires !keep ==> AllMarkers(marker)
    ensures DropsMarkers(marker, if keep then marker else "")
  {
    if keep {
      DropsMarkersRefl(marker);
    } else {
      OnlyMarkers(marker);
    }
  }

  lemma SidesShow(p: Pass)
    ensures Show(OpeningSide(p)) == Before(p) && Show(ClosingSide(p)) == Behind(p)
    ensures TextOf(OpeningSide(p)) == (if p.keep then p.open else "")
    ensures TextOf(ClosingSide(p)) == (if p.keep then p.close else "")
  {
    hide TagText, Chars;
    var start, end := Tag(p.kind, false), Tag(p.kind, true);
    var open, close := if p.keep then Chars(p.open) else [], if p.keep then Chars(p.close) else [];
    CharsShow(p.open);
    CharsShow(p.close);
    OneToken(start);
    OneToken(end);
    ShowAppend([start], open);
    ShowAppend(close, [end]);
    TextOfAppend([start], open);
    TextOfAppend(close, [end]);
    assert "" + TextOf(open) == TextOf(open);
    assert TextOf(close) + "" == TextOf(close);
  }

  lemma SidesBalance(p: Pass, kind: Kind)
    ensures Balance(OpeningSide(p), kind) + Balance(ClosingSide(p), kind) == 0
  {
    hide Chars, CountTag;
    var start, end := Tag(p.kind, false), Tag(p.kind, true);
    var open, close := if p.keep then Chars(p.open) else Chars(""), if p.keep then Chars(p.close) else Chars("");
    CharsBalance(p.open, kind);
    CharsBalance(p.close, kind);
    CharsBalance("", kind);
    assert Chars("") == [];
    OneToken(start);
    OneToken(end);
    BalanceAppend([start], open, kind);
    BalanceAppend(close, [end], kind);
  }

  lemma CharsBalance(s: string, kind: Kind)
    ensures Balance(Chars(s), kind) == 0
  {
    CharsHaveNoTag(s, kind, false);
    CharsHaveNoTag(s, kind, true);
  }

  lemma CharsClean(s: string)
    requires forall c | c in s :: c != '<' && c != '>'
    ensures Clean(Chars(s))
  {
    assert forall i | 0 <= i < |s| :: s[i] in s;
  }

  lemma SidesClean(p: Pass)
    requires GoodPass(p)
    ensures Clean(OpeningSide(p)) && Clean(ClosingSide(p))
  {
    hide AllMarkers;
    CharsClean(p.open);
    CharsClean(p.close);
  }

  /** Tags around the content, markers kept or dropped. */
  lemma MatchRefines(p: Pass, content: seq<Token>) returns (out: seq<Token>)
    requires GoodPass(p) && Clean(content)
    ensures Show(out) == Before(p) + Show(content) + Behind(p)
    ensures Refines(Chars(p.open) + content + Chars(p.close), out)
  {
    hide DropsMarkers, Balance, Show, TextOf, Chars, OpeningSide, ClosingSide, Before, Behind, IsClean,
      AllMarkers, AllSpecial;
    var left, right := OpeningSide(p), ClosingSide(p);
    var open, close := Chars(p.open), Chars(p.close);
    out := left + content + right;
    SidesShow(p);
    SidesClean(p);
    ShowAppend(left + content, right);
    ShowAppend(left, content);
    TextOfAppend(left + content, right);
    TextOfAppend(left, content);
    TextOfAppend(open + content, close);
    TextOfAppend(open, content);
    CharsShow(p.open);
    CharsShow(p.close);
    MarkerKeptOrDropped(p.open, p.keep);
    MarkerKeptOrDropped(p.close, p.keep);
    DropsMarkersRefl(TextOf(content));
    DropsMarkersAppend(p.open, TextOf(left), TextOf(content), TextOf(content));
    DropsMarkersAppend(p.open + TextOf(content), TextOf(left) + TextOf(content), p.close, TextOf(right));
    forall kind ensures Balance(out, kind) == Balance(open + content + close, kind) {
      SidesBalance(p, kind);
      CharsBalance(p.open, kind);
      CharsBalance(p.close, kind);
      BalanceAppend(left + content, right, kind);
      BalanceAppend(left, content, kind);
      BalanceAppend(open + content, close, kind);
      BalanceAppend(open, content, kind);
    }
    assert forall t :: t in out ==> t in left || t in content || t in right;
  }

  /** Rewriting text and whole tags gives text and whole tags: no pass cuts into an earlier tag. */
  lemma {:induction false} RewriteRefines(p: Pass, ts: seq<Token>) returns (out: seq<Token>)
    requires GoodPass(p) && Clean(ts)
    ensures Rewrite(p, Show(ts)) == Show(out)
    ensures Refines(ts, out)
    decreases |Show(ts)|
  {
    hide Refines, Clean, TextOf, Show, Chars, ContentLength, Rewrite, Before, Behind, GoodPass;
    if ts == [] {
      out := [];
      ShowNothing();
      NothingToRewrite(p);
      EmptyIsClean();
      RefinesRefl([]);
      return;
    }
    var head, rest := [ts[0]], ts[1..];
    assert ts == head + rest;
    FirstToken(ts);
    if ContentLength(p, Show(ts)) == 0 {
      RewriteFirst(p, ts);
      var more := RewriteRefines(p, rest);
      out := head + more;
      ShowAppend(head, more);
      RefinesRefl(head);
      RefinesAppend(head, head, rest, more);
    } else {
      var content, tail := MatchIsTokens(p, ts);
      var pair := MatchRefines(p, content);
      var more := RewriteRefines(p, tail);
      out := pair + more;
      ShowAppend(pair, more);
      RefinesAppend(Chars(p.open) + content + Chars(p.close), pair, tail, more);
    }
  }

  lemma EmptyIsClean()
    ensures Clean([])
  {
  }

  lemma NothingToRewrite(p: Pass)
    ensures Rewrite(p, "") == ""
  {
  }

  /** A first token that no match starts at is copied. */
  lemma RewriteFirst(p: Pass, ts: seq<Token>)
    requires GoodPass(p) && Clean(ts) && ts != [] && ContentLength(p, Show(ts)) == 0
    ensures Rewrite(p, Show(ts)) == Show([ts[0]]) + Rewrite(p, Show(ts[1..]))
  {
    hide Show, Chars, ContentLength, Rewrite, IsSpecial, Clean, AllMarkers;
    FirstToken(ts);
    var head, x := Show([ts[0]]), Show(ts[1..]);
    if ts[0].Tag? {
      assert p.open[0] in p.open;
      SkipText(p, head, x);
    } else {
      RewriteMovesOn(p, Show(ts));
      assert Show(ts)[1..] == x;
    }
  }

  // ----- the whole output

  /** The output of the four passes as text and whole tags. */
  lemma InlineTokens(value: string) returns (ts: seq<Token>)
    ensures SafeMarkdownInline(value) == Show(ts)
    ensures Refines(Chars(EscapeHtml(value)), ts)
  {
    hide Rewrite, EscapeHtml, DropsMarkers, Show, Clean, PassFor, GoodPass, Chars, Balance, TextOf;
    var escaped := EscapeHtml(value);
    var t0 := Chars(escaped);
    EscapeIsSafe(value);
    CharsShow(escaped);
    CharsClean(escaped);
    PassesAreGood(CodeTag);
    PassesAreGood(StrongTag);
    PassesAreGood(EmphasisTag);
    PassesAreGood(LinkTag);
    var t1 := RewriteRefines(PassFor(CodeTag), t0);
    var t2 := RewriteRefines(PassFor(StrongTag), t1);
    var t3 := RewriteRefines(PassFor(EmphasisTag), t2);
    ts := RewriteRefines(PassFor(LinkTag), t3);
    RefinesTrans(t0, t1, t2);
    RefinesTrans(t0, t2, t3);
    RefinesTrans(t0, t3, ts);
  }

  /** Deleting everything from a `<` to the next `>`. */
  function StripTags(s: string, inside: bool): string {
    if s == "" then ""
    else if s[0] == '<' then StripTags(s[1..], true)
    else if inside then StripTags(s[1..], s[0] != '>')
    else [s[0]] + StripTags(s[1..], false)
  }

  function Occurrences(s: string, tag: string): nat {
    if s == "" then 0 else (if tag <= s then 1 else 0) + Occurrences(s[1..], tag)
  }

  predicate StartsWithTag(s: string) {
    exists kind, closing :: TagText(kind, closing) <= s
  }

  /** Every `<` is the start of a template tag. */
  ghost predicate OnlyTemplateTags(s: string) {
    forall i | 0 <= i < |s| && s[i] == '<' :: StartsWithTag(s[i..])
  }

  lemma {:induction false} StripInside(t: string, x: string)
    requires t != "" && t[|t| - 1] == '>' && '<' !in t && '>' !in t[..|t| - 1]
    ensures StripTags(t + x, true) == StripTags(x, false)
  {
    assert (t + x)[1..] == t[1..] + x;
    assert t[0] in t;
    if |t| > 1 {
      assert t[0] == t[..|t| - 1][0];
      assert t[1..][..|t| - 2] == t[..|t| - 1][1..];
      StripInside(t[1..], x);
    } else {
      assert t[1..] + x == x;
    }
  }

  lemma StripToken(t: Token, x: string)
    requires IsClean(t)
    ensures StripTags(ShowToken(t) + x, false) == (if t.Ch? then [t.c] else "") + StripTags(x, false)
  {
    hide TagText;
    var s := ShowToken(t);
    assert (s + x)[1..] == s[1..] + x by {
      if t.Tag? {
        TagFacts(t.kind, t.closing);
      }
    }
    if t.Tag? {
      TagFacts(t.kind, t.closing);
      assert s[1..][..|s| - 2] == s[..|s| - 1][1..];
      StripInside(s[1..], x);
    }
  }

  lemma {:induction false} StripShown(ts: seq<Token>)
    requires Clean(ts)
    ensures StripTags(Show(ts), false) == TextOf(ts)
  {
    hide StripTags, ShowToken, IsClean;
    if ts == [] {
      StripNothing();
    } else {
      StripShown(ts[1..]);
      StripToken(ts[0], Show(ts[1..]));
    }
  }

  lemma StripNothing()
    ensures StripTags("", false) == ""
  {
  }

  lemma {:induction false} NoOccurrence(t: string, x: string, tag: string)
    requires tag != "" && tag[0] == '<' && '<' !in t
    ensures Occurrences(t + x, tag) == Occurrences(x, tag)
  {
    if t == "" {
      assert t + x == x;
    } else {
      assert t[0] in t;
      assert (t + x)[1..] == t[1..] + x;
      NoOccurrence(t[1..], x, tag);
    }
  }

  /** What distinguishes the tags: their first characters. */
  lemma TagsDiffer(kind: Kind, closing: bool, kind': Kind, closing': bool)
    requires kind != kind' || closing != closing'
    ensures var a, b := TagText(kind, closing), TagText(kind', closing');
      |a| >= 4 && |b| >= 4 && (a[1] != b[1] || a[2] != b[2] || a[3] != b[3])
  {
  }

  /** No tag is the beginning of another. */
  lemma TagsArePrefixFree(kind: Kind, closing: bool, kind': Kind, closing': bool, x: string)
    ensures TagText(kind, closing) <= TagText(kind', closing') + x <==> kind == kind' && closing == closing'
  {
    hide TagText;
    var a, b := TagText(kind, closing), TagText(kind', closing');
    if kind != kind' || closing != closing' {
      TagsDiffer(kind, closing, kind', closing');
      assert (b + x)[1] == b[1] && (b + x)[2] == b[2] && (b + x)[3] == b[3];
    }
  }

  lemma OccurrencesInToken(t: Token, x: string, kind: Kind, closing: bool)
    requires IsClean(t)
    ensures Occurrences(ShowToken(t) + x, TagText(kind, closing))
         == (if t == Tag(kind, closing) then 1 else 0) + Occurrences(x, TagText(kind, closing))
  {
    hide TagText;
    var tag := TagText(kind, closing);
    var s := ShowToken(t);
    TagFacts(kind, closing);
    if t.Tag? {
      TagFacts(t.kind, t.closing);
      TagsArePrefixFree(kind, closing, t.kind, t.closing, x);
      assert (s + x)[1..] == s[1..] + x;
      NoOccurrence(s[1..], x, tag);
    } else {
      NoOccurrence(s, x, tag);
    }
  }

  lemma {:induction false} CountShown(ts: seq<Token>, kind: Kind, closing: bool)
    requires Clean(ts)
    ensures Occurrences(Show(ts), TagText(kind, closing)) == CountTag(ts, kind, closing)
  {
    hide TagText, ShowToken, IsClean;
    if ts != [] {
      CountShown(ts[1..], kind, closing);
      hide Occurrences;
      OccurrencesInToken(ts[0], Show(ts[1..]), kind, closing);
    }
  }

  lemma {:induction false} ShownTagsOnly(ts: seq<Token>)
    requires Clean(ts)
    ensures OnlyTemplateTags(Show(ts))
  {
    hide TagText;
    if ts != [] {
      ShownTagsOnly(ts[1..]);
      var head, x := ShowToken(ts[0]), Show(ts[1..]);
      var s := head + x;
      assert IsClean(ts[0]);
      forall i | 0 <= i < |s| && s[i] == '<' ensures StartsWithTag(s[i..]) {
        if i >= |head| {
          assert s[i..] == x[i - |head|..];
        } else {
          assert ts[0].Tag?;
          TagFacts(ts[0].kind, ts[0].closing);
          assert i == 0 by {
            assert forall j | 0 < j < |head| :: head[j] == head[1..][j - 1] && head[j] in head[1..];
          }
          assert TagText(ts[0].kind, ts[0].closing) <= s[0..];
        }
      }
    }
  }

  /**
   * Inline rendering is inert and conservative, for every text: each `<` of the output starts one of
   * the fixed template tags; each kind of tag is opened as often as it is closed; and deleting the
   * tags leaves the escaped text without some of its backticks and stars.
   */
  lemma InlineIsInert(value: string)
    ensures var out := SafeMarkdownInline(value);
      && OnlyTemplateTags(out)
      && (forall kind :: Occurrences(out, TagText(kind, false)) == Occurrences(out, TagText(kind, true)))
      && DropsMarkers(EscapeHtml(value), StripTags(out, false))
  {
    hide SafeMarkdownInline, EscapeHtml, Occurrences, StripTags, DropsMarkers, Show, OnlyTemplateTags, Clean, TagText,
      Chars, TextOf, CountTag;
    var ts := InlineTokens(value);
    ShownTagsOnly(ts);
    StripShown(ts);
    CharsShow(EscapeHtml(value));
    forall kind
      ensures Occurrences(SafeMarkdownInline(value), TagText(kind, false))
           == Occurrences(SafeMarkdownInline(value), TagText(kind, true))
    {
      CountShown(ts, kind, false);
      CountShown(ts, kind, true);
      CharsBalance(EscapeHtml(value), kind);
      assert Balance(ts, kind) == Balance(Chars(EscapeHtml(value)), kind);
    }
  }
}
