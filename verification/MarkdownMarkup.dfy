/** The fixed HTML of the Markdown preview, and texts whose every `<` belongs to it. */
module MarkdownMarkup {
  import opened JsText
  import opened MarkdownInline

  type Level = n: nat | 2 <= n <= 6 witness 2

  datatype Name =
    | Div | Pre | CodeElement | Hr | Heading(level: Level) | P | Span | Blockquote
    | TableElement | Thead | Tbody | Tr | Th | Td

  datatype Class = NoClass | CodeFence | CodeLine | Space | Rule | Task | Bullet | Ordered | MarkdownLine | VaultTable

  datatype Attribute = Attribute(class_: Class, hidden: bool, closed: bool)

  datatype Markup = Start(name: Name, attribute: Attribute) | End(name: Name)

  function NameText(name: Name): string {
    match name
    case Div => "div"
    case Pre => "pre"
    case CodeElement => "code"
    case Hr => "hr"
    case Heading(level) => "h" + Decimal(level)
    case P => "p"
    case Span => "span"
    case Blockquote => "blockquote"
    case TableElement => "table"
    case Thead => "thead"
    case Tbody => "tbody"
    case Tr => "tr"
    case Th => "th"
    case Td => "td"
  }

  function ClassText(c: Class): string {
    match c
    case NoClass => ""
    case CodeFence => "code-fence"
    case CodeLine => "code-line"
    case Space => "markdown-space"
    case Rule => "rule"
    case Task => "task"
    case Bullet => "bullet"
    case Ordered => "ordered"
    case MarkdownLine => "markdown-line"
    case VaultTable => "table"
  }

  /** ` class="vault-..."`, ` aria-hidden="true"` and ` /`, each where it applies. */
  function AttributeText(a: Attribute): string {
    (if a.class_.NoClass? then "" else " class=\"vault-" + ClassText(a.class_) + "\"")
    + (if a.hidden then " aria-hidden=\"true\"" else "")
    + (if a.closed then " /" else "")
  }

  function Plain(name: Name): Markup {
    Start(name, Attribute(NoClass, false, false))
  }

  function Classed(name: Name, c: Class): Markup {
    Start(name, Attribute(c, false, false))
  }

  function MarkupText(m: Markup): string {
    match m
    case Start(name, attribute) => "<" + (NameText(name) + AttributeText(attribute)) + ">"
    case End(name) => "<" + ("/" + NameText(name)) + ">"
  }

  // ----- inert text

  ghost predicate StartsMarkup(s: string) {
    StartsWithTag(s) || exists m :: MarkupText(m) <= s
  }

  /** Every `<` is the start of a fixed tag, of a block or of inline markup. */
  ghost predicate Inert(s: string) {
    forall i | 0 <= i < |s| && s[i] == '<' :: StartsMarkup(s[i..])
  }

  lemma StartsMarkupMore(s: string, t: string)
    requires StartsMarkup(s)
    ensures StartsMarkup(s + t)
  {
    hide MarkupText, TagText;
    if exists m :: MarkupText(m) <= s {
      var m :| MarkupText(m) <= s;
      assert MarkupText(m) <= s + t;
    } else {
      var kind, closing :| TagText(kind, closing) <= s;
      assert TagText(kind, closing) <= s + t;
    }
  }

  lemma InertAppend(a: string, b: string)
    requires Inert(a) && Inert(b)
    ensures Inert(a + b)
  {
    hide StartsMarkup;
    var s := a + b;
    forall i | 0 <= i < |s| && s[i] == '<' ensures StartsMarkup(s[i..]) {
      if i < |a| {
        assert s[i..] == a[i..] + b;
        StartsMarkupMore(a[i..], b);
      } else {
        assert s[i..] == b[i - |a|..];
      }
    }
  }

  lemma TextIsInert(s: string)
    requires '<' !in s
    ensures Inert(s)
  {
  }

  lemma NameIsPlain(name: Name)
    ensures '<' !in NameText(name) && '>' !in NameText(name)
  {
    match name
    case Heading(level) => assert '<' !in Decimal(level) && '>' !in Decimal(level);
    case _ =>
  }

  lemma ClassIsPlain(c: Class)
    ensures '<' !in ClassText(c) && '>' !in ClassText(c)
  {
    match c
    case _ =>
  }

  lemma AttributeIsPlain(a: Attribute)
    ensures '<' !in AttributeText(a) && '>' !in AttributeText(a)
  {
    hide ClassText;
    ClassIsPlain(a.class_);
    PlainPieces(if a.class_.NoClass? then "" else " class=\"vault-" + ClassText(a.class_) + "\"",
                if a.hidden then " aria-hidden=\"true\"" else "",
                if a.closed then " /" else "");
  }

  lemma PlainPieces(a: string, b: string, c: string)
    requires '<' !in a && '>' !in a && '<' !in b && '>' !in b && '<' !in c && '>' !in c
    ensures '<' !in a + b + c && '>' !in a + b + c
  {
  }

  /** One tag: a bracket at each end, and none in between. */
  predicate OneTag(s: string) {
    |s| >= 2 && s[0] == '<' && s[|s| - 1] == '>' && '<' !in s[1..|s| - 1] && '>' !in s[1..|s| - 1]
  }

  lemma MarkupIsOneTag(m: Markup)
    ensures OneTag(MarkupText(m))
  {
    NameIsPlain(m.name);
    if m.Start? {
      AttributeIsPlain(m.attribute);
    }
    hide NameText, AttributeText;
    var s := MarkupText(m);
    var inside := if m.Start? then NameText(m.name) + AttributeText(m.attribute) else "/" + NameText(m.name);
    assert s == "<" + inside + ">";
    assert s[1..|s| - 1] == inside;
  }

  lemma TagIsOneTag(kind: Kind, closing: bool)
    ensures OneTag(TagText(kind, closing))
  {
    hide TagText;
    TagFacts(kind, closing);
    var tag := TagText(kind, closing);
    assert forall j | 0 < j < |tag| - 1 :: tag[j] == tag[1..][j - 1] && tag[j] == tag[..|tag| - 1][j];
  }

  /** Two tags at the same place are the same tag. */
  lemma TagsAtOnePlace(a: string, b: string, s: string)
    requires OneTag(a) && OneTag(b) && a <= s && b <= s
    ensures a == b
  {
    SameLength(a, b, s);
    SameLength(b, a, s);
    assert a == s[..|a|] && b == s[..|b|];
  }

  lemma SameLength(a: string, b: string, s: string)
    requires OneTag(a) && OneTag(b) && a <= s && b <= s
    ensures |a| >= |b|
  {
    assert s[|a| - 1] == a[|a| - 1] == '>';
    forall j | 0 < j < |b| - 1 ensures s[j] != '>' {
      assert s[j] == b[j] == b[1..|b| - 1][j - 1];
    }
  }

  lemma MarkupIsInert(m: Markup)
    ensures Inert(MarkupText(m))
  {
    MarkupIsOneTag(m);
    var s := MarkupText(m);
    hide MarkupText;
    assert forall j | 0 < j < |s| - 1 :: s[j] == s[1..|s| - 1][j - 1];
    assert s[0..] == s && MarkupText(m) <= s;
  }

  // ----- counting tags

  lemma InertTail(s: string)
    requires Inert(s) && s != ""
    ensures Inert(s[1..])
  {
    hide StartsMarkup;
    forall i | 0 <= i < |s[1..]| && s[1..][i] == '<' ensures StartsMarkup(s[1..][i..]) {
      assert s[1..][i..] == s[i + 1..];
    }
  }

  /** A tag that starts in an inert text ends in it. */
  lemma TagWithin(a: string, b: string, tag: string)
    requires Inert(a) && a != "" && OneTag(tag) && tag <= a + b
    ensures tag <= a
  {
    hide MarkupText, TagText;
    assert a[0] == (a + b)[0] == '<' && a[0..] == a;
    assert StartsMarkup(a[0..]);
    var t: string;
    if exists m :: MarkupText(m) <= a {
      var m :| MarkupText(m) <= a;
      MarkupIsOneTag(m);
      t := MarkupText(m);
    } else {
      var kind, closing :| TagText(kind, closing) <= a;
      TagIsOneTag(kind, closing);
      t := TagText(kind, closing);
    }
    assert t <= a + b;
    TagsAtOnePlace(t, tag, a + b);
  }

  /** No tag is made by putting an inert text before another text. */
  lemma {:induction false} OccurrencesAppend(a: string, b: string, tag: string)
    requires Inert(a) && OneTag(tag)
    ensures Occurrences(a + b, tag) == Occurrences(a, tag) + Occurrences(b, tag)
  {
    hide Inert, OneTag;
    if a == "" {
      assert a + b == b;
    } else {
      assert (a + b)[1..] == a[1..] + b;
      InertTail(a);
      OccurrencesAppend(a[1..], b, tag);
      if tag <= a + b {
        TagWithin(a, b, tag);
      }
    }
  }

  /** In a tag there is no other. */
  lemma OccurrencesInTag(t: string, tag: string)
    requires OneTag(t) && OneTag(tag)
    ensures Occurrences(t, tag) == if t == tag then 1 else 0
  {
    var inside := t[1..];
    assert forall i | 0 <= i < |inside| - 1 :: inside[i] == t[1..|t| - 1][i];
    assert '<' !in inside;
    NoOccurrence(inside, "", tag);
    assert inside + "" == inside;
    if tag <= t {
      TagsAtOnePlace(tag, t, t);
    }
  }

  /** The pieces of a template, one behind the other. */
  lemma {:induction false} ConcatIsInert(pieces: seq<string>)
    requires forall piece | piece in pieces :: Inert(piece)
    ensures Inert(Concat(pieces))
  {
    hide Inert;
    if pieces == [] {
      TextIsInert("");
    } else {
      ConcatIsInert(pieces[1..]);
      InertAppend(pieces[0], Concat(pieces[1..]));
    }
  }

  lemma InlineMarkupIsInert(value: string)
    ensures Inert(SafeMarkdownInline(value))
  {
    hide SafeMarkdownInline, StartsWithTag;
    InlineIsInert(value);
    var s := SafeMarkdownInline(value);
    forall i | 0 <= i < |s| && s[i] == '<' ensures StartsMarkup(s[i..]) {
      assert StartsWithTag(s[i..]);
    }
  }

  lemma EscapedIsInert(value: string)
    ensures Inert(EscapeHtml(value))
  {
    hide EscapeHtml;
    EscapeIsSafe(value);
    assert '<' in "<>\"'";
    TextIsInert(EscapeHtml(value));
  }
}
