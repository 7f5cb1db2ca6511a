/**
 * The line loop of `safeMarkdownPreview` in dashboard/src/ui/markdown.ts: fences, fenced lines,
 * tables that take several lines at once, and single lines.
 */
module MarkdownBlocks {
  import opened JsText
  import opened MarkdownInline
  import opened MarkdownMarkup
  import opened MarkdownLines

  // ----- the regular expressions

  /** ^\s*``` */
  predicate IsFence(line: string) {
    "```" <= TrimStart(line)
  }

  /** ^\s*\|.*\|\s*$ : the trimmed line has a pipe at each end, and no line terminator in between. */
  predicate IsTableRow(line: string) {
    var t := Trim(line);
    |t| >= 2 && t[0] == '|' && t[|t| - 1] == '|' && OnOneLine(t)
  }

  function Split(s: string, separator: char): (parts: seq<string>)
    ensures parts != []
  {
    if s == "" then [""]
    else
      var rest := Split(s[1..], separator);
      if s[0] == separator then [""] + rest else [[s[0]] + rest[0]] + rest[1..]
  }

  function WithoutFirst(s: string, c: char): string {
    if s != "" && s[0] == c then s[1..] else s
  }

  function WithoutLast(s: string, c: char): string {
    if s != "" && s[|s| - 1] == c then s[..|s| - 1] else s
  }

  /** \s*:?-{1,}:?\s* */
  predicate IsRuleCell(cell: string) {
    var t := WithoutLast(WithoutFirst(Trim(cell), ':'), ':');
    t != "" && forall c | c in t :: c == '-'
  }

  /** ^\s*\|(?:\s*:?-{1,}:?\s*\|)+\s*$ */
  predicate IsTableRule(line: string) {
    var t := Trim(line);
    && |t| >= 2 && t[0] == '|' && t[|t| - 1] == '|'
    && forall cell | cell in Split(t[1..|t| - 1], '|') :: IsRuleCell(cell)
  }

  predicate IsTableHeader(lines: seq<string>, index: nat) {
    index + 1 < |lines| && IsTableRow(lines[index]) && IsTableRule(lines[index + 1])
  }

  predicate IsBodyRow(line: string) {
    IsTableRow(line) && !IsTableRule(line)
  }

  function TableCells(line: string): (cells: seq<string>)
    ensures cells != []
  {
    var parts := Split(WithoutLast(WithoutFirst(Trim(line), '|'), '|'), '|');
    seq(|parts|, i requires 0 <= i < |parts| => Trim(parts[i]))
  }

  // ----- the blocks

  /** Each block with the line it starts at. */
  datatype Block = Fence(at: nat) | Fenced(at: nat) | Table(at: nat, rows: nat) | Line(at: nat)

  function Span(b: Block): nat {
    if b.Table? then b.rows + 2 else 1
  }

  /** The body rows from a line on. */
  function BodyRows(lines: seq<string>, at: nat): (n: nat)
    ensures at <= |lines| ==> at + n <= |lines|
    decreases |lines| - at
  {
    if at < |lines| && IsBodyRow(lines[at]) then 1 + BodyRows(lines, at + 1) else 0
  }

  function Blocks(lines: seq<string>, at: nat, fenced: bool): seq<Block>
    decreases |lines| - at
  {
    if at >= |lines| then []
    else if IsFence(lines[at]) then [Fence(at)] + Blocks(lines, at + 1, !fenced)
    else if fenced then [Fenced(at)] + Blocks(lines, at + 1, fenced)
    else if IsTableHeader(lines, at) then
      var n := BodyRows(lines, at + 2);
      [Table(at, n)] + Blocks(lines, at + 2 + n, fenced)
    else [Line(at)] + Blocks(lines, at + 1, fenced)
  }

  // ----- rendering

  /** A body row brought to the width of the header: cells beyond it are dropped, missing ones are empty. */
  function Padded(row: seq<string>, width: nat): (r: seq<string>)
    ensures |r| == width
    ensures forall k | 0 <= k < width :: r[k] == if k < |row| then row[k] else ""
  {
    seq(width, k requires 0 <= k < width => if k < |row| then row[k] else "")
  }

  function CellsHtml(cells: seq<string>, name: Name): string {
    if cells == [] then "" else Enclosed(Plain(name), SafeMarkdownInline(cells[0])) + CellsHtml(cells[1..], name)
  }

  function RowHtml(row: seq<string>, width: nat): string {
    Enclosed(Plain(Tr), CellsHtml(Padded(row, width), Td))
  }

  function RowsHtml(rows: seq<seq<string>>, width: nat): string {
    if rows == [] then "" else RowHtml(rows[0], width) + RowsHtml(rows[1..], width)
  }

  function HeadHtml(header: seq<string>): string {
    Enclosed(Plain(Tr), CellsHtml(header, Th))
  }

  function TableHtml(header: seq<string>, rows: seq<seq<string>>): string {
    Enclosed(Classed(TableElement, VaultTable),
      Enclosed(Plain(Thead), HeadHtml(header))
      + Enclosed(Plain(Tbody), RowsHtml(rows, |header|)))
  }

  function FenceHtml(): string {
    Enclosed(Start(Div, Attribute(CodeFence, true, false)), "```")
  }

  function CellRows(lines: seq<string>, at: nat, n: nat): (rows: seq<seq<string>>)
    requires at + n <= |lines|
    ensures |rows| == n
  {
    seq(n, k requires 0 <= k < n => TableCells(lines[at + k]))
  }

  /** The block lies within the lines. */
  predicate Fits(lines: seq<string>, b: Block) {
    b.at + Span(b) <= |lines|
  }

  function BlockHtml(lines: seq<string>, b: Block): string
    requires Fits(lines, b)
  {
    match b
    case Fence(_) => FenceHtml()
    case Fenced(at) => RenderFencedLine(lines[at])
    case Table(at, rows) => TableHtml(TableCells(lines[at]), CellRows(lines, at + 2, rows))
    case Line(at) => RenderBlockLine(lines[at])
  }

  predicate AllFit(lines: seq<string>, blocks: seq<Block>) {
    forall b | b in blocks :: Fits(lines, b)
  }

  function BlocksHtml(lines: seq<string>, blocks: seq<Block>): seq<string>
    requires AllFit(lines, blocks)
  {
    if blocks == [] then [] else [BlockHtml(lines, blocks[0])] + BlocksHtml(lines, blocks[1..])
  }

  lemma {:induction false} BlocksFit(lines: seq<string>, at: nat, fenced: bool)
    ensures AllFit(lines, Blocks(lines, at, fenced))
    decreases |lines| - at
  {
    hide IsFence, IsTableHeader, BodyRows, Blocks;
    if at < |lines| {
      var (b, fenced') := BlockAt(lines, at, fenced);
      if b.Table? {
        RowsFit(lines, at);
      }
      BlocksUnfold(lines, at, fenced);
      BlocksFit(lines, at + Span(b), fenced');
    } else {
      BlocksDone(lines, at, fenced);
    }
  }

  lemma RowsFit(lines: seq<string>, at: nat)
    requires IsTableHeader(lines, at)
    ensures at + 2 + BodyRows(lines, at + 2) <= |lines|
  {
  }

  method RenderTable(lines: seq<string>, start: nat) returns (html: string, nextIndex: nat)
    requires IsTableHeader(lines, start)
    ensures var n := BodyRows(lines, start + 2);
      && nextIndex == start + 2 + n <= |lines|
      && html == TableHtml(TableCells(lines[start]), CellRows(lines, start + 2, n))
  {
    hide IsTableRow, IsTableRule, IsBodyRow, TableCells, TableHtml;
    var header := TableCells(lines[start]);
    var rows: seq<seq<string>> := [];
    var index := start + 2;
    ghost var n := BodyRows(lines, start + 2);
    while index < |lines| && IsBodyRow(lines[index])
      invariant start + 2 <= index <= |lines|
      invariant n == (index - start - 2) + BodyRows(lines, index)
      invariant rows == CellRows(lines, start + 2, index - start - 2)
    {
      rows := rows + [TableCells(lines[index])];
      index := index + 1;
    }
    html := TableHtml(header, rows);
    nextIndex := index;
  }

  /** `safeMarkdownPreview`, before the pieces are joined. */
  method SafeMarkdownPreview(markdown: string) returns (out: seq<string>)
    ensures var lines := SplitLines(markdown);
      && AllFit(lines, Blocks(lines, 0, false))
      && out == BlocksHtml(lines, Blocks(lines, 0, false))
  {
    hide IsFence, IsTableHeader, BodyRows, TableHtml, FenceHtml, RenderBlockLine, RenderFencedLine, Blocks, AllFit,
      BlocksHtml, CellRows, TableCells, SplitLines;
    var lines := SplitLines(markdown);
    out := [];
    var fenced := false;
    var index := 0;
    BlocksFit(lines, 0, false);
    ghost var all := BlocksHtml(lines, Blocks(lines, 0, false));
    while index < |lines|
      invariant index <= |lines|
      invariant AllFit(lines, Blocks(lines, index, fenced))
      invariant all == out + BlocksHtml(lines, Blocks(lines, index, fenced))
    {
      ghost var (b, fenced') := BlockAt(lines, index, fenced);
      BlocksStep(lines, index, fenced, b, Blocks(lines, index + Span(b), fenced'));
      var line := lines[index];
      if IsFence(line) {
        fenced := !fenced;
        out := out + [FenceHtml()];
      } else if fenced {
        out := out + [RenderFencedLine(line)];
      } else if IsTableHeader(lines, index) {
        var html, nextIndex := RenderTable(lines, index);
        out := out + [html];
        index := nextIndex - 1;
      } else {
        out := out + [RenderBlockLine(line)];
      }
      index := index + 1;
    }
    BlocksDone(lines, index, fenced);
    assert out + [] == out;
  }

  lemma BlocksDone(lines: seq<string>, at: nat, fenced: bool)
    requires at >= |lines|
    ensures Blocks(lines, at, fenced) == [] && BlocksHtml(lines, []) == []
  {
  }

  /** The block at a line, and where the next one starts. */
  function BlockAt(lines: seq<string>, at: nat, fenced: bool): (Block, bool)
    requires at < |lines|
  {
    if IsFence(lines[at]) then (Fence(at), !fenced)
    else if fenced then (Fenced(at), fenced)
    else if IsTableHeader(lines, at) then (Table(at, BodyRows(lines, at + 2)), fenced)
    else (Line(at), fenced)
  }

  lemma BlocksStep(lines: seq<string>, at: nat, fenced: bool, b: Block, rest: seq<Block>)
    requires at < |lines| && b == BlockAt(lines, at, fenced).0
    requires rest == Blocks(lines, at + Span(b), BlockAt(lines, at, fenced).1)
    ensures Blocks(lines, at, fenced) == [b] + rest
    ensures Fits(lines, b) && AllFit(lines, rest) && AllFit(lines, Blocks(lines, at, fenced))
    ensures BlocksHtml(lines, Blocks(lines, at, fenced)) == [BlockHtml(lines, b)] + BlocksHtml(lines, rest)
  {
    hide IsFence, IsTableHeader, BodyRows, BlockHtml, Blocks, BlockAt, Fits;
    BlocksUnfold(lines, at, fenced);
    BlocksFit(lines, at, fenced);
    BlocksFit(lines, at + Span(b), BlockAt(lines, at, fenced).1);
    assert b in [b] + rest;
    assert ([b] + rest)[1..] == rest;
  }

  lemma BlocksUnfold(lines: seq<string>, at: nat, fenced: bool)
    requires at < |lines|
    ensures var (b, fenced') := BlockAt(lines, at, fenced);
      Blocks(lines, at, fenced) == [b] + Blocks(lines, at + Span(b), fenced')
  {
    hide IsFence, IsTableHeader, BodyRows;
  }

  // ----- every line in one block

  /** The blocks lie end to end and cover the lines from `at` to the last. */
  ghost predicate Tiles(blocks: seq<Block>, at: nat, end: nat)
    decreases |blocks|
  {
    if blocks == [] then at == end
    else blocks[0].at == at && Tiles(blocks[1..], at + Span(blocks[0]), end)
  }

  predicate Covers(b: Block, i: nat) {
    b.at <= i < b.at + Span(b)
  }

  lemma {:induction false} BlocksTile(lines: seq<string>, at: nat, fenced: bool)
    requires at <= |lines|
    ensures Tiles(Blocks(lines, at, fenced), at, |lines|)
    decreases |lines| - at
  {
    hide IsFence, IsTableHeader, BodyRows;
    if at < |lines| {
      var (b, fenced') := BlockAt(lines, at, fenced);
      if b.Table? {
        RowsFit(lines, at);
      }
      BlocksTile(lines, at + Span(b), fenced');
      assert Blocks(lines, at, fenced) == [b] + Blocks(lines, at + Span(b), fenced');
    }
  }

  lemma {:induction false} TilesCoverOnce(blocks: seq<Block>, at: nat, end: nat, i: nat)
    requires Tiles(blocks, at, end) && at <= i < end
    ensures exists k | 0 <= k < |blocks| :: Covers(blocks[k], i)
    ensures forall j, k | 0 <= j < k < |blocks| :: !(Covers(blocks[j], i) && Covers(blocks[k], i))
    decreases |blocks|
  {
    var next := at + Span(blocks[0]);
    if i < next {
      assert Covers(blocks[0], i);
      TilesStartLate(blocks[1..], next, end);
      assert forall k | 0 < k < |blocks| :: blocks[k] == blocks[1..][k - 1];
    } else {
      TilesCoverOnce(blocks[1..], next, end, i);
      var k :| 0 <= k < |blocks[1..]| && Covers(blocks[1..][k], i);
      assert Covers(blocks[k + 1], i);
      assert forall k | 0 < k < |blocks| :: blocks[k] == blocks[1..][k - 1];
    }
  }

  lemma {:induction false} TilesStartLate(blocks: seq<Block>, at: nat, end: nat)
    requires Tiles(blocks, at, end)
    ensures forall k | 0 <= k < |blocks| :: blocks[k].at >= at
    decreases |blocks|
  {
    if blocks != [] {
      TilesStartLate(blocks[1..], at + Span(blocks[0]), end);
      assert forall k | 0 < k < |blocks| :: blocks[k] == blocks[1..][k - 1];
    }
  }

  // ----- the fence flag is the parity of the fence lines

  /** The number of fence markers before line i is odd. */
  predicate OddFences(lines: seq<string>, i: nat)
    requires i <= |lines|
  {
    i > 0 && (OddFences(lines, i - 1) != IsFence(lines[i - 1]))
  }

  /** A line that starts with a pipe is no fence marker. */
  lemma TableRowIsNoFence(line: string)
    requires IsTableRow(line) || IsTableRule(line)
    ensures !IsFence(line)
  {
    TrimKeepsFirst(line);
  }

  lemma TrimKeepsFirst(s: string)
    requires Trim(s) != ""
    ensures TrimStart(s) != "" && TrimStart(s)[0] == Trim(s)[0]
  {
    TrimEndIsPrefix(TrimStart(s));
  }

  lemma {:induction false} TrimEndIsPrefix(s: string)
    ensures TrimEnd(s) <= s
  {
    hide IsSpace;
    if s != "" && IsSpace(s[|s| - 1]) {
      TrimEndIsPrefix(s[..|s| - 1]);
    }
  }

  lemma {:induction false} BodyRowsAreRows(lines: seq<string>, at: nat, k: nat)
    requires k < BodyRows(lines, at)
    ensures at + k < |lines| && IsBodyRow(lines[at + k])
    decreases k
  {
    hide IsBodyRow;
    if k > 0 {
      BodyRowsAreRows(lines, at + 1, k - 1);
    }
  }

  lemma {:induction false} ParityAcrossRows(lines: seq<string>, lo: nat, hi: nat)
    requires lo <= hi <= |lines| && forall i | lo <= i < hi :: !IsFence(lines[i])
    ensures OddFences(lines, hi) == OddFences(lines, lo)
    decreases hi
  {
    hide IsFence;
    if lo < hi {
      ParityAcrossRows(lines, lo, hi - 1);
    }
  }

  lemma TableHasNoFence(lines: seq<string>, at: nat)
    requires IsTableHeader(lines, at)
    ensures forall i | at <= i < at + 2 + BodyRows(lines, at + 2) :: i < |lines| && !IsFence(lines[i])
  {
    hide IsFence, IsTableRow, IsTableRule;
    forall i | at <= i < at + 2 + BodyRows(lines, at + 2) ensures i < |lines| && !IsFence(lines[i]) {
      if i >= at + 2 {
        BodyRowsAreRows(lines, at + 2, i - at - 2);
      }
      TableRowIsNoFence(lines[i]);
    }
  }

  /** What kind of block line i belongs to, told from the lines alone. */
  ghost predicate RightKind(lines: seq<string>, b: Block, i: nat)
    requires i < |lines|
  {
    && (b.Fence? <==> IsFence(lines[i]))
    && (b.Fenced? <==> !IsFence(lines[i]) && OddFences(lines, i))
  }

  lemma {:induction false} KindsAreRight(lines: seq<string>, at: nat, fenced: bool, b: Block, i: nat)
    requires at <= |lines| && fenced == OddFences(lines, at)
    requires b in Blocks(lines, at, fenced) && Covers(b, i)
    ensures i < |lines| && RightKind(lines, b, i)
    decreases |lines| - at
  {
    hide IsFence, IsTableHeader, BodyRows;
    var (first, fenced') := BlockAt(lines, at, fenced);
    var next := at + Span(first);
    assert Blocks(lines, at, fenced) == [first] + Blocks(lines, next, fenced');
    if first.Table? {
      TableHasNoFence(lines, at);
      RowsFit(lines, at);
      ParityAcrossRows(lines, at, next);
    }
    if b == first {
      if first.Table? {
        ParityAcrossRows(lines, at, i);
      }
    } else {
      KindsAreRight(lines, next, fenced', b, i);
    }
  }

  /**
   * Every line belongs to exactly one block. It is a fence block exactly when the line is a fence
   * marker, and a fenced line exactly when it is none and the number of markers before it is odd:
   * taking several lines at once for a table never swallows a marker.
   */
  lemma BlocksPartition(lines: seq<string>, i: nat)
    requires i < |lines|
    ensures var blocks := Blocks(lines, 0, false);
      && (exists k | 0 <= k < |blocks| :: Covers(blocks[k], i))
      && (forall j, k | 0 <= j < k < |blocks| :: !(Covers(blocks[j], i) && Covers(blocks[k], i)))
      && (forall b | b in blocks && Covers(b, i) :: RightKind(lines, b, i))
  {
    hide IsFence, Blocks;
    BlocksTile(lines, 0, false);
    TilesCoverOnce(Blocks(lines, 0, false), 0, |lines|, i);
    forall b | b in Blocks(lines, 0, false) && Covers(b, i) ensures RightKind(lines, b, i) {
      KindsAreRight(lines, 0, false, b, i);
    }
  }

  /** A row of the table, and no second rule. */
  predicate IsFurtherRow(lines: seq<string>, i: nat) {
    i < |lines| && IsTableRow(lines[i]) && !IsTableRule(lines[i])
  }

  /** A table is a header row, a rule, and all the body rows that follow, up to the first line that is none. */
  lemma TablesAreMaximal(lines: seq<string>, at: nat)
    requires IsTableHeader(lines, at)
    ensures var end := at + 2 + BodyRows(lines, at + 2);
      end <= |lines| && (forall i | at + 2 <= i < end :: IsFurtherRow(lines, i)) && !IsFurtherRow(lines, end)
  {
    hide IsTableRow, IsTableRule;
    RowsFit(lines, at);
    forall i | at + 2 <= i < at + 2 + BodyRows(lines, at + 2) ensures IsFurtherRow(lines, i) {
      BodyRowsAreRows(lines, at + 2, i - at - 2);
    }
    RowsStop(lines, at + 2);
  }

  lemma {:induction false} RowsStop(lines: seq<string>, at: nat)
    requires at <= |lines|
    ensures var end := at + BodyRows(lines, at); end < |lines| ==> !IsBodyRow(lines[end])
    decreases |lines| - at
  {
    hide IsBodyRow;
    if at < |lines| && IsBodyRow(lines[at]) {
      RowsStop(lines, at + 1);
    }
  }

  /** A row with a rule below it, outside code. */
  predicate StartsTable(lines: seq<string>, i: nat) {
    && i + 1 < |lines| && IsTableRow(lines[i]) && IsTableRule(lines[i + 1])
    && !IsFence(lines[i]) && !OddFences(lines, i)
  }

  /** What a block is and where it ends, told from the lines alone. */
  ghost predicate IsExact(lines: seq<string>, b: Block) {
    && b.at < |lines| && Fits(lines, b) && RightKind(lines, b, b.at)
    && (b.Table? <==> StartsTable(lines, b.at))
    && (b.Table? ==>
          && (forall i | b.at + 2 <= i < b.at + 2 + b.rows :: IsFurtherRow(lines, i))
          && !IsFurtherRow(lines, b.at + 2 + b.rows))
  }

  lemma FirstIsExact(lines: seq<string>, at: nat, fenced: bool)
    requires at < |lines| && fenced == OddFences(lines, at)
    ensures IsExact(lines, BlockAt(lines, at, fenced).0)
  {
    hide IsFence, IsTableRow, IsTableRule, BodyRows, OddFences, IsFurtherRow;
    if IsTableHeader(lines, at) {
      TablesAreMaximal(lines, at);
      TableRowIsNoFence(lines[at]);
    }
  }

  lemma {:induction false} EachIsExact(lines: seq<string>, at: nat, fenced: bool, b: Block)
    requires at <= |lines| && fenced == OddFences(lines, at) && b in Blocks(lines, at, fenced)
    ensures IsExact(lines, b)
    decreases |lines| - at
  {
    hide IsFence, IsTableHeader, BodyRows, IsExact;
    var (first, fenced') := BlockAt(lines, at, fenced);
    var next := at + Span(first);
    assert Blocks(lines, at, fenced) == [first] + Blocks(lines, next, fenced');
    FirstIsExact(lines, at, fenced);
    if b != first {
      if first.Table? {
        TableHasNoFence(lines, at);
        RowsFit(lines, at);
        ParityAcrossRows(lines, at, next);
      }
      EachIsExact(lines, next, fenced', b);
    }
  }

  /**
   * The blocks lie end to end from the first line to the last, and each is told from the lines alone:
   * a table starts exactly at a row outside code with a rule below, and takes exactly the rows that follow.
   */
  lemma BlocksExactly(lines: seq<string>)
    ensures var blocks := Blocks(lines, 0, false);
      Tiles(blocks, 0, |lines|) && forall b | b in blocks :: IsExact(lines, b)
  {
    hide IsExact, Blocks;
    BlocksTile(lines, 0, false);
    forall b | b in Blocks(lines, 0, false) ensures IsExact(lines, b) {
      EachIsExact(lines, 0, false, b);
    }
  }

  // ----- the whole preview

  lemma {:induction false} CellsAreInert(cells: seq<string>, name: Name)
    ensures Inert(CellsHtml(cells, name))
  {
    hide Inert, Enclosed, SafeMarkdownInline;
    if cells == [] {
      TextIsInert("");
    } else {
      InlineMarkupIsInert(cells[0]);
      EnclosedIsInert(Plain(name), SafeMarkdownInline(cells[0]));
      CellsAreInert(cells[1..], name);
      InertAppend(Enclosed(Plain(name), SafeMarkdownInline(cells[0])), CellsHtml(cells[1..], name));
    }
  }

  lemma RowIsInert(row: seq<string>, width: nat)
    ensures Inert(RowHtml(row, width))
  {
    hide Inert, Enclosed, CellsHtml;
    CellsAreInert(Padded(row, width), Td);
    EnclosedIsInert(Plain(Tr), CellsHtml(Padded(row, width), Td));
  }

  lemma HeadIsInert(header: seq<string>)
    ensures Inert(HeadHtml(header))
  {
    hide Inert, Enclosed, CellsHtml;
    CellsAreInert(header, Th);
    EnclosedIsInert(Plain(Tr), CellsHtml(header, Th));
  }

  lemma {:induction false} RowsAreInert(rows: seq<seq<string>>, width: nat)
    ensures Inert(RowsHtml(rows, width))
  {
    hide Inert, RowHtml;
    if rows == [] {
      TextIsInert("");
    } else {
      RowIsInert(rows[0], width);
      RowsAreInert(rows[1..], width);
      InertAppend(RowHtml(rows[0], width), RowsHtml(rows[1..], width));
    }
  }

  lemma TableIsInert(header: seq<string>, rows: seq<seq<string>>)
    ensures Inert(TableHtml(header, rows))
  {
    hide Inert, Enclosed, HeadHtml, RowsHtml;
    HeadIsInert(header);
    var head := Enclosed(Plain(Thead), HeadHtml(header));
    EnclosedIsInert(Plain(Thead), HeadHtml(header));
    RowsAreInert(rows, |header|);
    var body := Enclosed(Plain(Tbody), RowsHtml(rows, |header|));
    EnclosedIsInert(Plain(Tbody), RowsHtml(rows, |header|));
    InertAppend(head, body);
    EnclosedIsInert(Classed(TableElement, VaultTable), head + body);
  }

  // ----- the shape of a table

  const TD: string := "<td>"
  const TH: string := "<th>"
  const TR: string := "<tr>"

  /** Tags of tables that inline markup does not have. */
  predicate IsCellTag(tag: string) {
    tag == TD || tag == TH || tag == TR
  }

  lemma InlineHasNoCells(value: string, tag: string)
    requires IsCellTag(tag)
    ensures Occurrences(SafeMarkdownInline(value), tag) == 0
  {
    hide SafeMarkdownInline, EscapeHtml, DropsMarkers, StripTags, Occurrences;
    InlineIsInert(value);
    NoCellTag(SafeMarkdownInline(value), tag);
  }

  lemma {:induction false} NoCellTag(s: string, tag: string)
    requires OnlyTemplateTags(s) && IsCellTag(tag)
    ensures Occurrences(s, tag) == 0
  {
    if s != "" {
      hide StartsWithTag;
      forall i | 0 <= i < |s[1..]| && s[1..][i] == '<' ensures StartsWithTag(s[1..][i..]) {
        assert s[1..][i..] == s[i + 1..];
      }
      NoCellTag(s[1..], tag);
      assert s[0..] == s;
      assert s[0] == '<' ==> StartsWithTag(s);
      CellIsNotInline(s, tag);
    }
  }

  lemma CellIsNotInline(s: string, tag: string)
    requires s != "" && (s[0] == '<' ==> StartsWithTag(s)) && IsCellTag(tag)
    ensures !(tag <= s)
  {
    if s[0] == '<' {
      var kind, closing :| TagText(kind, closing) <= s;
      assert TagText(kind, closing)[1] == s[1] && s[1] != 't';
    }
  }

  lemma CellTags(tag: string)
    requires IsCellTag(tag)
    ensures OneTag(tag)
    ensures tag == TD <==> MarkupText(Plain(Td)) == tag
    ensures tag == TH <==> MarkupText(Plain(Th)) == tag
    ensures tag == TR <==> MarkupText(Plain(Tr)) == tag
  {
    CellTexts();
    assert TD[2] == 'd' && TH[2] == 'h' && TR[2] == 'r';
    hide MarkupText;
  }

  lemma CellTexts()
    ensures MarkupText(Plain(Td)) == TD && MarkupText(Plain(Th)) == TH && MarkupText(Plain(Tr)) == TR
  {
  }

  /** The other tags of a table. */
  lemma OtherTags(tag: string)
    requires IsCellTag(tag)
    ensures MarkupText(Plain(Thead)) != tag && MarkupText(Plain(Tbody)) != tag
    ensures MarkupText(Classed(TableElement, VaultTable)) != tag
  {
    assert MarkupText(Plain(Thead))[3] == 'e' && MarkupText(Plain(Tbody))[2] == 'b';
    assert MarkupText(Classed(TableElement, VaultTable))[2] == 'a';
    assert tag[3] == '>' && tag[2] != 'b' && tag[2] != 'a';
  }

  lemma EndTagDiffers(name: Name, tag: string)
    requires IsCellTag(tag)
    ensures MarkupText(End(name)) != tag
  {
    assert MarkupText(End(name))[1] == '/' && tag[1] == 't';
  }

  /** The tags of an element: its own, and those of its content. */
  lemma OccurrencesEnclosed(start: Markup, content: string, tag: string)
    requires start.Start? && Inert(content) && IsCellTag(tag)
    ensures Occurrences(Enclosed(start, content), tag)
         == (if MarkupText(start) == tag then 1 else 0) + Occurrences(content, tag)
  {
    hide Inert, OneTag, MarkupText, Occurrences, IsCellTag;
    CellTags(tag);
    EndTagDiffers(start.name, tag);
    var open, close := MarkupText(start), MarkupText(End(start.name));
    MarkupIsOneTag(start);
    MarkupIsOneTag(End(start.name));
    MarkupIsInert(start);
    InertAppend(open, content);
    OccurrencesAppend(open, content, tag);
    OccurrencesAppend(open + content, close, tag);
    OccurrencesInTag(open, tag);
    OccurrencesInTag(close, tag);
  }

  lemma {:induction false} CountCells(cells: seq<string>, name: Name, tag: string)
    requires IsCellTag(tag)
    ensures Occurrences(CellsHtml(cells, name), tag) == if MarkupText(Plain(name)) == tag then |cells| else 0
  {
    hide Inert, Enclosed, SafeMarkdownInline, MarkupText, Occurrences, OneTag, IsCellTag;
    CellTags(tag);
    if cells == [] {
      NoTagInNothing(tag);
    } else {
      var content, rest := SafeMarkdownInline(cells[0]), CellsHtml(cells[1..], name);
      InlineMarkupIsInert(cells[0]);
      InlineHasNoCells(cells[0], tag);
      OccurrencesEnclosed(Plain(name), content, tag);
      EnclosedIsInert(Plain(name), content);
      OccurrencesAppend(Enclosed(Plain(name), content), rest, tag);
      CountCells(cells[1..], name, tag);
    }
  }

  lemma NoTagInNothing(tag: string)
    ensures Occurrences("", tag) == 0
  {
  }

  function PerRow(width: nat, tag: string): nat {
    if tag == TD then width else if tag == TR then 1 else 0
  }

  lemma CountRow(row: seq<string>, width: nat, tag: string)
    requires IsCellTag(tag)
    ensures Occurrences(RowHtml(row, width), tag) == PerRow(width, tag)
  {
    hide Inert, Enclosed, MarkupText, Occurrences, OneTag, CellsHtml, Padded;
    CellTags(tag);
    CountCells(Padded(row, width), Td, tag);
    CellsAreInert(Padded(row, width), Td);
    OccurrencesEnclosed(Plain(Tr), CellsHtml(Padded(row, width), Td), tag);
  }

  lemma CountHead(header: seq<string>, tag: string)
    requires IsCellTag(tag)
    ensures Occurrences(HeadHtml(header), tag) == if tag == TH then |header| else if tag == TR then 1 else 0
  {
    hide Inert, Enclosed, MarkupText, Occurrences, OneTag, CellsHtml;
    CellTags(tag);
    CountCells(header, Th, tag);
    CellsAreInert(header, Th);
    OccurrencesEnclosed(Plain(Tr), CellsHtml(header, Th), tag);
  }

  /** Every body row has as many cells as the header, whatever the line of the row has. */
  lemma RowsAreAsWideAsTheHeader(header: seq<string>, row: seq<string>)
    ensures Occurrences(RowHtml(row, |header|), TD) == Occurrences(HeadHtml(header), TH)
  {
    hide Occurrences, RowHtml, HeadHtml;
    CountRow(row, |header|, TD);
    CountHead(header, TH);
  }

  function Times(n: nat, m: nat): nat {
    n * m
  }

  lemma OneMore(n: nat, m: nat)
    ensures Times(n + 1, m) == m + Times(n, m) && Times(0, m) == 0
  {
  }

  lemma {:induction false} CountRows(rows: seq<seq<string>>, width: nat, tag: string)
    requires IsCellTag(tag)
    ensures Occurrences(RowsHtml(rows, width), tag) == Times(|rows|, PerRow(width, tag))
  {
    hide Inert, RowHtml, Occurrences, IsCellTag, OneTag, Times, PerRow;
    if rows == [] {
      NoTagInNothing(tag);
      OneMore(0, PerRow(width, tag));
    } else {
      var head, tail := RowHtml(rows[0], width), RowsHtml(rows[1..], width);
      CellTags(tag);
      RowIsInert(rows[0], width);
      OccurrencesAppend(head, tail, tag);
      CountRow(rows[0], width, tag);
      CountRows(rows[1..], width, tag);
      OneMore(|rows[1..]|, PerRow(width, tag));
    }
  }

  lemma CountTable(header: seq<string>, rows: seq<seq<string>>, tag: string)
    requires IsCellTag(tag)
    ensures Occurrences(TableHtml(header, rows), tag)
         == Occurrences(HeadHtml(header), tag) + Occurrences(RowsHtml(rows, |header|), tag)
  {
    hide Inert, Enclosed, HeadHtml, RowsHtml, MarkupText, Occurrences, OneTag, IsCellTag;
    CellTags(tag);
    OtherTags(tag);
    var head, body := HeadHtml(header), RowsHtml(rows, |header|);
    HeadIsInert(header);
    RowsAreInert(rows, |header|);
    OccurrencesEnclosed(Plain(Thead), head, tag);
    OccurrencesEnclosed(Plain(Tbody), body, tag);
    var thead, tbody := Enclosed(Plain(Thead), head), Enclosed(Plain(Tbody), body);
    EnclosedIsInert(Plain(Thead), head);
    EnclosedIsInert(Plain(Tbody), body);
    InertAppend(thead, tbody);
    OccurrencesAppend(thead, tbody, tag);
    OccurrencesEnclosed(Classed(TableElement, VaultTable), thead + tbody, tag);
  }

  /**
   * The HTML of a table block is rectangular: one row for the header and one for each body row, and
   * in each body row as many cells as the header has.
   */
  lemma TablesAreRectangular(lines: seq<string>, b: Block)
    requires b.Table? && Fits(lines, b)
    ensures var html := BlockHtml(lines, b);
      && Occurrences(html, TH) == |TableCells(lines[b.at])|
      && Occurrences(html, TR) == b.rows + 1
      && Occurrences(html, TD) == b.rows * Occurrences(html, TH)
  {
    hide Occurrences, TableHtml, HeadHtml, RowsHtml, TableCells;
    var header, rows := TableCells(lines[b.at]), CellRows(lines, b.at + 2, b.rows);
    CountTable(header, rows, TH);
    CountTable(header, rows, TR);
    CountTable(header, rows, TD);
    CountHead(header, TH);
    CountHead(header, TR);
    CountHead(header, TD);
    CountRows(rows, |header|, TH);
    CountRows(rows, |header|, TR);
    CountRows(rows, |header|, TD);
  }

  lemma BlockIsInert(lines: seq<string>, b: Block)
    requires Fits(lines, b)
    ensures Inert(BlockHtml(lines, b))
  {
    hide Inert, Enclosed, TableHtml, RenderBlockLine, RenderFencedLine;
    match b
    case Fence(_) =>
      TextIsInert("```");
      EnclosedIsInert(Start(Div, Attribute(CodeFence, true, false)), "```");
    case Fenced(at) => FencedLineIsInert(lines[at]);
    case Table(at, rows) => TableIsInert(TableCells(lines[at]), CellRows(lines, at + 2, rows));
    case Line(at) => BlockLineIsInert(lines[at]);
  }

  lemma {:induction false} BlocksAreInert(lines: seq<string>, blocks: seq<Block>)
    requires AllFit(lines, blocks)
    ensures forall piece | piece in BlocksHtml(lines, blocks) :: Inert(piece)
  {
    hide Inert, BlockHtml;
    if blocks != [] {
      assert blocks[0] in blocks;
      BlockIsInert(lines, blocks[0]);
      BlocksAreInert(lines, blocks[1..]);
    }
  }

  /** The preview of every text is inert: each `<` in it belongs to a fixed tag. */
  lemma PreviewIsInert(markdown: string)
    ensures var lines := SplitLines(markdown);
      AllFit(lines, Blocks(lines, 0, false)) && Inert(Concat(BlocksHtml(lines, Blocks(lines, 0, false))))
  {
    hide Inert, SplitLines, Blocks, AllFit, BlocksHtml;
    var lines := SplitLines(markdown);
    BlocksFit(lines, 0, false);
    BlocksAreInert(lines, Blocks(lines, 0, false));
    ConcatIsInert(BlocksHtml(lines, Blocks(lines, 0, false)));
  }
}
