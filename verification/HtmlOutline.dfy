/** ingestion/html.py against its input alone: which data events reach the document, and as what. The
    functions here read positions off the event list; none of them knows the parser's state. */
module HtmlOutline {
  import opened Wrappers
  import opened Contracts
  import opened Whitespace
  import opened TextAssembly
  import opened HtmlTableRanges
  import opened HtmlAssembly
  import opened HtmlParsing

  predicate IsBlockTag(tag: Tag) {
    tag.HeadingTag? || tag == PTag || tag == LiTag
  }

  predicate IsCellTag(tag: Tag) {
    tag == TdTag || tag == ThTag
  }

  predicate IsHidden(tag: Tag) {
    tag == ScriptTag || tag == StyleTag
  }

  /** How many tables are open before event `i`. */
  function Depth(events: seq<Event>, i: nat): nat
    requires i <= |events|
  {
    if i == 0 then 0
    else if events[i - 1] == StartTag(TableTag) then Depth(events, i - 1) + 1
    else if events[i - 1] == EndTag(TableTag) then Max0(Depth(events, i - 1) - 1)
    else Depth(events, i - 1)
  }

  /** How many scripts and styles are. */
  function Hiding(events: seq<Event>, i: nat): nat
    requires i <= |events|
  {
    if i == 0 then 0
    else
      match events[i - 1]
      case StartTag(tag) => if IsHidden(tag) then Hiding(events, i - 1) + 1 else Hiding(events, i - 1)
      case EndTag(tag) => if IsHidden(tag) then Max0(Hiding(events, i - 1) - 1) else Hiding(events, i - 1)
      case Data(_) => Hiding(events, i - 1)
  }

  /** The last title tag before event `i` is a start tag. */
  predicate InTitle(events: seq<Event>, i: nat)
    requires i <= |events|
  {
    i > 0 && (events[i - 1] == StartTag(TitleTag) || (events[i - 1] != EndTag(TitleTag) && InTitle(events, i - 1)))
  }

  /** The event begins a row, or a cell: such tags have a meaning inside tables only. */
  predicate BeginsRow(events: seq<Event>, i: nat)
    requires i < |events|
  {
    events[i] == StartTag(TrTag) && Depth(events, i) > 0
  }

  predicate BeginsCell(events: seq<Event>, i: nat)
    requires i < |events|
  {
    events[i].StartTag? && IsCellTag(events[i].tag) && Depth(events, i) > 0
  }

  /** The row that is open before event `i`: where it began. */
  function OpenRow(events: seq<Event>, i: nat): (r: Option<nat>)
    requires i <= |events|
    ensures r.Some? ==> r.value < i && BeginsRow(events, r.value)
  {
    if i == 0 then None
    else if BeginsRow(events, i - 1) then Some(i - 1)
    else if events[i - 1] == EndTag(TrTag) && Depth(events, i - 1) > 0 then None
    else OpenRow(events, i - 1)
  }

  /** The cell that is open before event `i`. Its end tag counts only while a row is open. */
  function OpenCell(events: seq<Event>, i: nat): (r: Option<nat>)
    requires i <= |events|
    ensures r.Some? ==> r.value < i && BeginsCell(events, r.value)
  {
    if i == 0 then None
    else if BeginsCell(events, i - 1) then Some(i - 1)
    else if CellMayEnd(events, i - 1) then None
    else OpenCell(events, i - 1)
  }

  predicate CellMayEnd(events: seq<Event>, i: nat)
    requires i < |events|
  {
    events[i].EndTag? && IsCellTag(events[i].tag) && Depth(events, i) > 0 && OpenRow(events, i).Some?
  }

  predicate BeginsBlock(events: seq<Event>, i: nat)
    requires i < |events|
  {
    events[i].StartTag? && IsBlockTag(events[i].tag)
  }

  /** The event ends a block of that tag: its end tag, another block or a table. */
  predicate EndsBlockOf(e: Event, tag: Tag) {
    e == EndTag(tag) || (e.StartTag? && (IsBlockTag(e.tag) || e.tag == TableTag))
  }

  /** The block that is open before event `i`. */
  function OpenBlockAt(events: seq<Event>, i: nat): (r: Option<nat>)
    requires i <= |events|
    ensures r.Some? ==> r.value < i && BeginsBlock(events, r.value)
  {
    if i == 0 then None
    else if BeginsBlock(events, i - 1) then Some(i - 1)
    else
      var earlier := OpenBlockAt(events, i - 1);
      if earlier.Some? && EndsBlockOf(events[i - 1], events[earlier.value].tag) then None else earlier
  }

  /** Data event `i` is read: by the open cell, or else by the open block. */
  predicate Heard(events: seq<Event>, i: nat, inCell: bool)
    requires i < |events|
  {
    && events[i].Data? && Hiding(events, i) == 0 && !InTitle(events, i)
    && (OpenCell(events, i).Some? <==> inCell)
  }

  /** The data of `from..to` that cells read, or that blocks read. */
  function Visible(events: seq<Event>, from: nat, to: nat, inCell: bool): string
    requires to <= |events|
  {
    if to <= from then []
    else Visible(events, from, to - 1, inCell) + if Heard(events, to - 1, inCell) then events[to - 1].text else []
  }

  /** The texts of the cells that end within `from..to`. */
  function Cells(events: seq<Event>, from: nat, to: nat): seq<string>
    requires to <= |events|
  {
    if to <= from then []
    else Cells(events, from, to - 1) + CellEndingAt(events, to - 1)
  }

  function CellEndingAt(events: seq<Event>, i: nat): seq<string>
    requires i < |events|
  {
    var cell := OpenCell(events, i);
    if CellMayEnd(events, i) && cell.Some? then [Collapse(Visible(events, cell.value + 1, i, true))] else []
  }

  /** The rows with a cell that end within `from..to` while `depth` tables are open. */
  function Rows(events: seq<Event>, from: nat, to: nat, depth: nat): seq<seq<string>>
    requires to <= |events|
  {
    if to <= from then []
    else Rows(events, from, to - 1, depth) + if Depth(events, to - 1) == depth then RowEndingAt(events, to - 1) else []
  }

  function RowEndingAt(events: seq<Event>, i: nat): seq<seq<string>>
    requires i < |events|
  {
    var row := OpenRow(events, i);
    if events[i] != EndTag(TrTag) || Depth(events, i) == 0 || row.None? then []
    else
      var cells := Cells(events, row.value + 1, i);
      if cells == [] then [] else [cells]
  }

  /** Where the open table number `n` began. */
  function TableBegin(events: seq<Event>, i: nat, n: nat): (r: nat)
    requires i <= |events| && n < Depth(events, i)
    ensures r < i && events[r] == StartTag(TableTag) && Depth(events, r) == n
  {
    if events[i - 1] == StartTag(TableTag) && n == Depth(events, i - 1) then i - 1 else TableBegin(events, i - 1, n)
  }

  predicate HasRole(tag: Tag, role: LayoutRole) {
    (tag.HeadingTag? && role == HeadingRole) || (tag == PTag && role == ParagraphRole) || (tag == LiTag && role == ListItemRole)
  }

  function RoleOf(tag: Tag): (r: LayoutRole)
    requires IsBlockTag(tag)
    ensures HasRole(tag, r)
  {
    if tag.HeadingTag? then HeadingRole else if tag == PTag then ParagraphRole else ListItemRole
  }

  /** What event `i` adds to the document: the block that it ends, or the table. */
  function Added(events: seq<Event>, i: nat): seq<Item>
    requires i < |events|
  {
    var block := OpenBlockAt(events, i);
    if block.Some? && EndsBlockOf(events[i], events[block.value].tag) then
      var text := Collapse(Visible(events, block.value + 1, i, false));
      if text == [] then [] else [BlockItem(RoleOf(events[block.value].tag), text)]
    else if events[i] == EndTag(TableTag) && Depth(events, i) > 0 then
      var rows := Rows(events, TableBegin(events, i, Depth(events, i) - 1) + 1, i, Depth(events, i));
      if rows == [] then [] else [TableItem(rows)]
    else []
  }

  function Outline(events: seq<Event>, i: nat): seq<Item>
    requires i <= |events|
  {
    if i == 0 then [] else Outline(events, i - 1) + Added(events, i - 1)
  }

  // The parser's state is what the positions say

  predicate TracksDepths(events: seq<Event>, i: nat, s: ParserState)
    requires i <= |events|
  {
    s.ignoredDepth == Hiding(events, i) && s.inTitle == InTitle(events, i) && |s.tableStack| == Depth(events, i)
  }

  predicate TracksCell(events: seq<Event>, i: nat, s: ParserState)
    requires i <= |events|
  {
    match OpenCell(events, i)
    case None => s.currentCell.None?
    case Some(d) => s.currentCell.Some? && Joined(s.currentCell.value) == Visible(events, d + 1, i, true)
  }

  predicate TracksRow(events: seq<Event>, i: nat, s: ParserState)
    requires i <= |events|
  {
    match OpenRow(events, i)
    case None => s.currentRow.None?
    case Some(r) => s.currentRow == Some(Cells(events, r + 1, i))
  }

  predicate TracksBlock(events: seq<Event>, i: nat, s: ParserState)
    requires i <= |events|
  {
    match OpenBlockAt(events, i)
    case None => s.block.None?
    case Some(k) =>
      && s.block.Some? && s.block.value.tag == events[k].tag && s.block.value.role == RoleOf(events[k].tag)
      && Joined(s.block.value.parts) == Visible(events, k + 1, i, false)
  }

  predicate TracksTables(events: seq<Event>, i: nat, s: ParserState)
    requires i <= |events|
  {
    && |s.tableStack| == Depth(events, i)
    && forall n :: 0 <= n < |s.tableStack| ==> s.tableStack[n] == Rows(events, TableBegin(events, i, n) + 1, i, n + 1)
  }

  lemma JoinedSnoc(parts: seq<string>, part: string)
    ensures Joined(parts + [part]) == Joined(parts) + part
  {
    assert (parts + [part])[..|parts|] == parts;
  }

  lemma DepthsStep(events: seq<Event>, i: nat, s: ParserState)
    requires i < |events| && TracksDepths(events, i, s)
    ensures TracksDepths(events, i + 1, Step(s, events[i]))
  {
    hide NormalizeText;
  }

  /** What a step makes of the open cell. */
  lemma CellAfter(s: ParserState, e: Event)
    ensures Step(s, e).currentCell ==
      if e.StartTag? && IsCellTag(e.tag) && s.tableStack != [] then Some([])
      else if e.EndTag? && IsCellTag(e.tag) && s.tableStack != [] && s.currentRow.Some? then None
      else if e.Data? && s.currentCell.Some? && s.ignoredDepth == 0 && !s.inTitle then Some(s.currentCell.value + [e.text])
      else s.currentCell
  {
    hide NormalizeText;
  }

  lemma CellStep(events: seq<Event>, i: nat, s: ParserState)
    requires i < |events| && TracksDepths(events, i, s) && TracksRow(events, i, s) && TracksCell(events, i, s)
    ensures TracksCell(events, i + 1, Step(s, events[i]))
  {
    hide Depth, Hiding, InTitle, Cells, Step;
    CellAfter(s, events[i]);
    if events[i].Data? && s.currentCell.Some? {
      JoinedSnoc(s.currentCell.value, events[i].text);
    }
  }

  /** What a step makes of the open row. */
  lemma RowAfter(s: ParserState, e: Event)
    ensures Step(s, e).currentRow ==
      if e == StartTag(TrTag) && s.tableStack != [] then Some([])
      else if e == EndTag(TrTag) && s.tableStack != [] then None
      else if e.EndTag? && IsCellTag(e.tag) && s.tableStack != [] && s.currentRow.Some? && s.currentCell.Some?
        then Some(s.currentRow.value + [Collapse(Joined(s.currentCell.value))])
      else s.currentRow
  {
    hide Collapse, Joined;
  }

  lemma RowStep(events: seq<Event>, i: nat, s: ParserState)
    requires i < |events| && TracksDepths(events, i, s) && TracksRow(events, i, s) && TracksCell(events, i, s)
    ensures TracksRow(events, i + 1, Step(s, events[i]))
  {
    hide Depth, Hiding, InTitle, Visible, Collapse, Step, Joined;
    RowAfter(s, events[i]);
    if OpenRow(events, i).Some? {
      var r := OpenRow(events, i).value;
      var cells := Cells(events, r + 1, i);
      assert Cells(events, r + 1, i + 1) == cells + CellEndingAt(events, i) && cells + [] == cells;
    }
  }

  /** What a step makes of the open block. */
  lemma BlockAfter(s: ParserState, e: Event)
    ensures Step(s, e).block ==
      if e.StartTag? && IsBlockTag(e.tag) then Some(OpenBlock(e.tag, RoleOf(e.tag), []))
      else if s.block.Some? && IsBlockTag(s.block.value.tag) && EndsBlockOf(e, s.block.value.tag) then None
      else if e == StartTag(TableTag) then None
      else if e.EndTag? && s.block.Some? && !IsBlockTag(s.block.value.tag) then Step(s, e).block
      else if e.Data? && s.block.Some? && s.currentCell.None? && s.ignoredDepth == 0 && !s.inTitle
        then Some(s.block.value.(parts := s.block.value.parts + [e.text]))
      else s.block
  {
    hide NormalizeText;
  }

  lemma BlockStep(events: seq<Event>, i: nat, s: ParserState)
    requires i < |events| && TracksDepths(events, i, s) && TracksCell(events, i, s) && TracksBlock(events, i, s)
    ensures TracksBlock(events, i + 1, Step(s, events[i]))
  {
    hide Depth, Hiding, InTitle, Cells, Step;
    BlockAfter(s, events[i]);
    if events[i].Data? && s.block.Some? {
      JoinedSnoc(s.block.value.parts, events[i].text);
    }
  }

  /** What a step makes of the stack of tables. */
  lemma StackAfter(s: ParserState, e: Event)
    ensures Step(s, e).tableStack ==
      var n := |s.tableStack| - 1;
      if e == StartTag(TableTag) then s.tableStack + [[]]
      else if n >= 0 && e == EndTag(TableTag) then s.tableStack[..n]
      else if n >= 0 && e == EndTag(TrTag) && s.currentRow.Some? && s.currentRow.value != []
        then s.tableStack[..n] + [s.tableStack[n] + [s.currentRow.value]]
      else s.tableStack
  {
    hide NormalizeText;
  }

  lemma TablesStep(events: seq<Event>, i: nat, s: ParserState)
    requires i < |events| && TracksRow(events, i, s) && TracksTables(events, i, s)
    ensures TracksTables(events, i + 1, Step(s, events[i]))
  {
    hide Step, Rows, TracksRow, TableBegin;
    DepthIsStack(events, i, s);
    forall n | 0 <= n < Depth(events, i + 1)
      ensures Step(s, events[i]).tableStack[n] == Rows(events, TableBegin(events, i + 1, n) + 1, i + 1, n + 1)
    {
      if n < Depth(events, i) {
        TableStep(events, i, s, n);
      } else {
        NewTable(events, i, s);
      }
    }
  }

  lemma DepthIsStack(events: seq<Event>, i: nat, s: ParserState)
    requires i < |events| && |s.tableStack| == Depth(events, i)
    ensures |Step(s, events[i]).tableStack| == Depth(events, i + 1) <= Depth(events, i) + 1
  {
    hide Step;
    StackAfter(s, events[i]);
  }

  lemma NewTable(events: seq<Event>, i: nat, s: ParserState)
    requires i < |events| && |s.tableStack| == Depth(events, i) < Depth(events, i + 1)
    ensures var n := Depth(events, i);
      |Step(s, events[i]).tableStack| > n && Step(s, events[i]).tableStack[n] == Rows(events, TableBegin(events, i + 1, n) + 1, i + 1, n + 1)
  {
    hide Step;
    StackAfter(s, events[i]);
  }

  lemma TableStep(events: seq<Event>, i: nat, s: ParserState, n: nat)
    requires i < |events| && TracksRow(events, i, s) && |s.tableStack| == Depth(events, i) && n < Depth(events, i) && n < Depth(events, i + 1)
    requires s.tableStack[n] == Rows(events, TableBegin(events, i, n) + 1, i, n + 1)
    ensures |Step(s, events[i]).tableStack| > n
    ensures Step(s, events[i]).tableStack[n] == Rows(events, TableBegin(events, i + 1, n) + 1, i + 1, n + 1)
  {
    hide Step, Cells;
    StackAfter(s, events[i]);
    var from, rows := TableBegin(events, i, n) + 1, s.tableStack[n];
    assert TableBegin(events, i + 1, n) + 1 == from;
    assert Rows(events, from, i + 1, n + 1) == rows + (if Depth(events, i) == n + 1 then RowEndingAt(events, i) else []);
    assert rows + [] == rows;
  }

  /** What a step emits. */
  lemma ItemsAfter(s: ParserState, e: Event)
    requires s.block.Some? ==> IsBlockTag(s.block.value.tag)
    ensures Step(s, e).items == s.items
      + if s.block.Some? && EndsBlockOf(e, s.block.value.tag) then
          var text := Collapse(Joined(s.block.value.parts));
          if text == [] then [] else [BlockItem(s.block.value.role, text)]
        else if e == EndTag(TableTag) && s.tableStack != [] then
          var rows := s.tableStack[|s.tableStack| - 1];
          if rows == [] then [] else [TableItem(rows)]
        else []
  {
    hide Collapse, Joined;
  }

  lemma ItemsStep(events: seq<Event>, i: nat, s: ParserState)
    requires i < |events| && TracksBlock(events, i, s) && TracksTables(events, i, s)
    ensures Step(s, events[i]).items == s.items + Added(events, i)
  {
    hide Visible, Rows, Step, Collapse, Joined;
    ItemsAfter(s, events[i]);
  }

  /** The parser refines the outline: what it has emitted is what the positions say. */
  lemma {:induction false} RunTracks(events: seq<Event>, i: nat)
    requires i <= |events|
    ensures var s := Run(events[..i]);
      && TracksDepths(events, i, s) && TracksCell(events, i, s) && TracksRow(events, i, s) && TracksBlock(events, i, s)
      && TracksTables(events, i, s) && s.items == Outline(events, i)
  {
    hide Step, TracksDepths, TracksCell, TracksRow, TracksBlock, TracksTables, Added;
    if i == 0 {
      StartTracks(events);
    } else {
      RunTracks(events, i - 1);
      assert events[..i][..i - 1] == events[..i - 1];
      var s := Run(events[..i - 1]);
      DepthsStep(events, i - 1, s);
      CellStep(events, i - 1, s);
      RowStep(events, i - 1, s);
      BlockStep(events, i - 1, s);
      TablesStep(events, i - 1, s);
      ItemsStep(events, i - 1, s);
    }
  }

  lemma StartTracks(events: seq<Event>)
    ensures TracksDepths(events, 0, START) && TracksCell(events, 0, START) && TracksRow(events, 0, START)
    ensures TracksBlock(events, 0, START) && TracksTables(events, 0, START) && Outline(events, 0) == []
  {
  }

  /** The open block exactly: its tag begins a block, and no event since ends it. */
  lemma {:induction false} OpenBlockExactly(events: seq<Event>, i: nat, k: nat)
    requires k < i <= |events|
    ensures OpenBlockAt(events, i) == Some(k) <==>
      BeginsBlock(events, k) && forall j :: k < j < i ==> !EndsBlockOf(events[j], events[k].tag)
  {
    if k < i - 1 {
      OpenBlockExactly(events, i - 1, k);
    }
  }

  /** The open cell exactly: its tag begins a cell, and since then no cell has begun and none could end. */
  lemma {:induction false} OpenCellExactly(events: seq<Event>, i: nat, d: nat)
    requires d < i <= |events|
    ensures OpenCell(events, i) == Some(d) <==>
      BeginsCell(events, d) && forall j :: d < j < i ==> !BeginsCell(events, j) && !CellMayEnd(events, j)
  {
    hide Depth, OpenRow;
    if d < i - 1 {
      OpenCellExactly(events, i - 1, d);
    }
  }

  /** For every event list: the parser emits the outline, event by event. */
  lemma ParsesOutline(events: seq<Event>, i: nat)
    requires i < |events|
    ensures Run(events).items == Outline(events, |events|)
    ensures Run(events[..i + 1]).items == Run(events[..i]).items + Added(events, i)
  {
    hide Run, Added, TracksDepths, TracksCell, TracksRow, TracksBlock, TracksTables;
    assert events[..|events|] == events;
    RunTracks(events, |events|);
    RunTracks(events, i);
    RunTracks(events, i + 1);
  }

  /** When a block ends, its text appears with the words of exactly the data that it has read, in the role
      of its tag; it is dropped when that data is white space. */
  lemma BlockShowsItsData(events: seq<Event>, k: nat, i: nat)
    requires k < i < |events| && BeginsBlock(events, k) && EndsBlockOf(events[i], events[k].tag)
    requires forall j :: k < j < i ==> !EndsBlockOf(events[j], events[k].tag)
    ensures var data, before, after := Visible(events, k + 1, i, false), Run(events[..i]).items, Run(events[..i + 1]).items;
      if AllSpace(data) then after == before
      else
        && |after| == |before| + 1 && after[..|before|] == before && after[|before|].BlockItem?
        && Words(after[|before|].text) == Words(data) && HasRole(events[k].tag, after[|before|].role)
  {
    hide Run, Visible, Outline, BeginsBlock, EndsBlockOf, Added, Words, HasRole;
    ParsesOutline(events, i);
    BlockAdds(events, k, i);
    assert Run(events[..i]).items + [] == Run(events[..i]).items;
  }

  lemma BlockAdds(events: seq<Event>, k: nat, i: nat)
    requires k < i < |events| && BeginsBlock(events, k) && EndsBlockOf(events[i], events[k].tag)
    requires forall j :: k < j < i ==> !EndsBlockOf(events[j], events[k].tag)
    ensures var data := Visible(events, k + 1, i, false);
      if AllSpace(data) then Added(events, i) == []
      else
        && |Added(events, i)| == 1 && Added(events, i)[0].BlockItem?
        && Words(Added(events, i)[0].text) == Words(data) && HasRole(events[k].tag, Added(events, i)[0].role)
  {
    hide Visible, Collapse, Rows, OpenBlockAt;
    OpenBlockExactly(events, i, k);
    var data := Visible(events, k + 1, i, false);
    WordsOfCollapse(data);
    CollapseEmpty(data);
  }

  /** The words of a list of texts, in order. */
  function WordsOf(texts: seq<string>): seq<string> {
    if texts == [] then [] else WordsOf(texts[..|texts| - 1]) + Words(texts[|texts| - 1])
  }

  /** The texts of the items: one for each block and each cell. */
  function ItemTexts(items: seq<Item>): seq<string> {
    if items == [] then []
    else
      ItemTexts(items[..|items| - 1])
      + match items[|items| - 1]
        case BlockItem(_, text) => [text]
        case TableItem(rows) => Flat(rows)
  }

  /** The data, cell by cell, of the cells that end within `from..to`. */
  function CellData(events: seq<Event>, from: nat, to: nat): seq<string>
    requires to <= |events|
  {
    if to <= from then []
    else
      var cell := OpenCell(events, to - 1);
      CellData(events, from, to - 1)
      + if CellMayEnd(events, to - 1) && cell.Some? then [Visible(events, cell.value + 1, to - 1, true)] else []
  }

  /** The data, cell by cell, of the rows that end within `from..to` while `depth` tables are open. */
  function RowData(events: seq<Event>, from: nat, to: nat, depth: nat): seq<string>
    requires to <= |events|
  {
    if to <= from then []
    else
      var row := OpenRow(events, to - 1);
      RowData(events, from, to - 1, depth)
      + if events[to - 1] == EndTag(TrTag) && Depth(events, to - 1) == depth > 0 && row.Some?
        then CellData(events, row.value + 1, to - 1) else []
  }

  /** The data, text by text, of the blocks and tables that end before event `i`. */
  function AllRead(events: seq<Event>, i: nat): seq<string>
    requires i <= |events|
  {
    if i == 0 then []
    else
      var block := OpenBlockAt(events, i - 1);
      AllRead(events, i - 1)
      + if block.Some? && EndsBlockOf(events[i - 1], events[block.value].tag) then [Visible(events, block.value + 1, i - 1, false)]
        else if events[i - 1] == EndTag(TableTag) && Depth(events, i - 1) > 0 then
          RowData(events, TableBegin(events, i - 1, Depth(events, i - 1) - 1) + 1, i - 1, Depth(events, i - 1))
        else []
  }

  lemma {:induction false} WordsOfSum(a: seq<string>, b: seq<string>)
    ensures WordsOf(a + b) == WordsOf(a) + WordsOf(b)
  {
    hide Words;
    if b == [] {
      assert a + b == a;
    } else {
      var front := b[..|b| - 1];
      assert (a + b)[..|a + b| - 1] == a + front;
      WordsOfSum(a, front);
    }
  }

  lemma WordsOfOne(text: string)
    ensures WordsOf([text]) == Words(text) && WordsOf([Collapse(text)]) == Words(text) && WordsOf([]) == []
  {
    hide Words, Collapse;
    WordsOfCollapse(text);
  }

  lemma {:induction false} CellWords(events: seq<Event>, from: nat, to: nat)
    requires to <= |events|
    ensures WordsOf(Cells(events, from, to)) == WordsOf(CellData(events, from, to))
  {
    hide Collapse, Visible, CellMayEnd, WordsOf;
    if from < to {
      CellWords(events, from, to - 1);
      var cell := OpenCell(events, to - 1);
      WordsOfOne("");
      WordsOfSum(Cells(events, from, to - 1), CellEndingAt(events, to - 1));
      if CellMayEnd(events, to - 1) && cell.Some? {
        var data := Visible(events, cell.value + 1, to - 1, true);
        WordsOfOne(data);
        WordsOfSum(CellData(events, from, to - 1), [data]);
      } else {
        WordsOfSum(CellData(events, from, to - 1), []);
      }
    }
  }

  lemma FlatSnoc(rows: seq<seq<string>>, row: seq<string>)
    ensures Flat(rows + [row]) == Flat(rows) + row && rows + [] == rows && Flat(rows) + [] == Flat(rows)
  {
    assert (rows + [row])[..|rows|] == rows;
  }

  lemma {:induction false} RowWords(events: seq<Event>, from: nat, to: nat, depth: nat)
    requires to <= |events| && depth > 0
    ensures WordsOf(Flat(Rows(events, from, to, depth))) == WordsOf(RowData(events, from, to, depth))
  {
    hide Depth, Cells, CellData, WordsOf, Flat;
    NothingFlat();
    if from < to {
      RowWords(events, from, to - 1, depth);
      var earlier, data := Rows(events, from, to - 1, depth), RowData(events, from, to - 1, depth);
      var row := OpenRow(events, to - 1);
      assert earlier + [] == earlier && data + [] == data;
      if events[to - 1] == EndTag(TrTag) && Depth(events, to - 1) == depth && row.Some? {
        CellWords(events, row.value + 1, to - 1);
        RowAdded(earlier, data, Cells(events, row.value + 1, to - 1), CellData(events, row.value + 1, to - 1));
      }
    }
  }

  lemma RowAdded(rows: seq<seq<string>>, data: seq<string>, cells: seq<string>, cellData: seq<string>)
    requires WordsOf(Flat(rows)) == WordsOf(data) && WordsOf(cells) == WordsOf(cellData)
    ensures WordsOf(Flat(rows + if cells == [] then [] else [cells])) == WordsOf(data + cellData)
  {
    hide WordsOf, Flat;
    WordsOfSum(data, cellData);
    FlatSnoc(rows, cells);
    WordsOfSum(Flat(rows), cells);
    if cells == [] {
      assert Flat(rows) + cells == Flat(rows) && rows + [] == rows;
    }
  }

  lemma NothingFlat()
    ensures Flat([]) == []
  {
  }

  lemma ItemTextsSnoc(items: seq<Item>, item: Item)
    ensures ItemTexts(items + [item]) == ItemTexts(items) + (match item case BlockItem(_, text) => [text] case TableItem(rows) => Flat(rows))
    ensures items + [] == items
  {
    hide Flat;
    assert (items + [item])[..|items|] == items;
  }

  /** For every event list: the words that the document shows, in order, are the words of the data that
      the blocks and tables read before they ended. */
  lemma {:induction false} ShowsWhatWasRead(events: seq<Event>, i: nat)
    requires i <= |events|
    ensures WordsOf(ItemTexts(Run(events[..i]).items)) == WordsOf(AllRead(events, i))
  {
    hide Run, WordsOf, ItemTexts, Added;
    RunTracks(events, i) by {
      hide TracksDepths, TracksCell, TracksRow, TracksBlock, TracksTables, Run;
    }
    if i == 0 {
      NoTexts();
    } else {
      ShowsWhatWasRead(events, i - 1);
      RunTracks(events, i - 1);
      AddedWords(events, i - 1, Outline(events, i - 1));
    }
  }

  lemma NoTexts()
    ensures ItemTexts([]) == []
  {
  }

  lemma AddedWords(events: seq<Event>, i: nat, items: seq<Item>)
    requires i < |events|
    requires WordsOf(ItemTexts(items)) == WordsOf(AllRead(events, i))
    ensures WordsOf(ItemTexts(items + Added(events, i))) == WordsOf(AllRead(events, i + 1))
  {
    hide WordsOf, ItemTexts, Visible, Collapse, Rows, RowData, Depth, OpenBlockAt;
    var block := OpenBlockAt(events, i);
    var read := AllRead(events, i);
    assert items + [] == items && read + [] == read;
    if block.Some? && EndsBlockOf(events[i], events[block.value].tag) {
      var data := Visible(events, block.value + 1, i, false);
      WordsOfOne(data);
      WordsOfSum(read, [data]);
      WordsOfSum(ItemTexts(items), [Collapse(data)]);
      ItemTextsSnoc(items, BlockItem(RoleOf(events[block.value].tag), Collapse(data)));
      CollapseEmpty(data);
    } else if events[i] == EndTag(TableTag) && Depth(events, i) > 0 {
      var from, depth := TableBegin(events, i, Depth(events, i) - 1) + 1, Depth(events, i);
      var rows := Rows(events, from, i, depth);
      RowWords(events, from, i, depth);
      WordsOfSum(read, RowData(events, from, i, depth));
      WordsOfSum(ItemTexts(items), Flat(rows));
      ItemTextsSnoc(items, TableItem(rows));
      NothingFlat();
      assert ItemTexts(items) + [] == ItemTexts(items);
    }
  }

  /** All data of `from..to`, seen or not. */
  function DataOf(events: seq<Event>, from: nat, to: nat): string
    requires to <= |events|
  {
    if to <= from then []
    else DataOf(events, from, to - 1) + if events[to - 1].Data? then events[to - 1].text else []
  }

  /** Text and tags that the parser does not know, inline markup for instance. */
  predicate IsInline(e: Event) {
    e.Data? || (e.StartTag? && e.tag.OtherTag?) || (e.EndTag? && e.tag.OtherTag?)
  }

  lemma {:induction false} InlineIsVisible(events: seq<Event>, k: nat, i: nat)
    requires k < i <= |events| && BeginsBlock(events, k) && forall j :: k < j < i ==> IsInline(events[j])
    requires Hiding(events, k) == 0 && !InTitle(events, k) && OpenCell(events, k).None?
    ensures Hiding(events, i) == 0 && !InTitle(events, i) && OpenCell(events, i).None?
    ensures Visible(events, k + 1, i, false) == DataOf(events, k + 1, i)
  {
    hide Depth, OpenRow;
    if k + 1 < i {
      InlineIsVisible(events, k, i - 1);
    }
  }

  /** A block with inline markup only, outside cells, titles and scripts: one block with all of its words,
      across the markup. */
  lemma InlineMarkupJoins(events: seq<Event>, k: nat, i: nat)
    requires k < i < |events| && BeginsBlock(events, k) && events[i] == EndTag(events[k].tag)
    requires forall j :: k < j < i ==> IsInline(events[j])
    requires Hiding(events, k) == 0 && !InTitle(events, k) && OpenCell(events, k).None? && !AllSpace(DataOf(events, k + 1, i))
    ensures var before, after := Run(events[..i]).items, Run(events[..i + 1]).items;
      && |after| == |before| + 1 && after[..|before|] == before && after[|before|].BlockItem?
      && Words(after[|before|].text) == Words(DataOf(events, k + 1, i)) && HasRole(events[k].tag, after[|before|].role)
  {
    hide Run, Visible, DataOf, OpenCell, Hiding, InTitle;
    InlineIsVisible(events, k, i);
    BlockShowsItsData(events, k, i);
  }

  /** When a cell ends, its text has the words of exactly the data read since it began. */
  lemma CellShowsItsData(events: seq<Event>, d: nat, i: nat)
    requires d < i < |events| && BeginsCell(events, d) && CellMayEnd(events, i)
    requires forall j :: d < j < i ==> !BeginsCell(events, j) && !CellMayEnd(events, j)
    ensures |CellEndingAt(events, i)| == 1 && Words(CellEndingAt(events, i)[0]) == Words(Visible(events, d + 1, i, true))
  {
    hide Visible, Collapse, BeginsCell, CellMayEnd, OpenCell;
    OpenCellExactly(events, i, d);
    WordsOfCollapse(Visible(events, d + 1, i, true));
  }

  /** The next tag that begins or may end a cell after position `j` may end one. */
  predicate EndsFirst(events: seq<Event>, j: nat, i: nat)
    requires i < |events|
  {
    j < i && CellMayEnd(events, i) && forall m :: j < m < i ==> !BeginsCell(events, m) && !CellMayEnd(events, m)
  }

  /** What a cell has read is kept exactly when a cell end comes before another cell begins; a row or table
      that ends in between does not end the cell. */
  lemma CellDataIsKeptExactly(events: seq<Event>, j: nat, i: nat)
    requires j < i < |events| && Heard(events, j, true)
    ensures EndsFirst(events, j, i) <==>
      CellMayEnd(events, i) && OpenCell(events, i).Some? && OpenCell(events, i).value < j
  {
    hide Depth, OpenRow, BeginsCell, CellMayEnd, OpenCell, Hiding, InTitle;
    var d := OpenCell(events, j).value;
    OpenCellExactly(events, j, d);
    OpenCellExactly(events, i, d);
    assert !BeginsCell(events, j) && !CellMayEnd(events, j) by {
      DataIsNoTag(events, j);
    }
    if OpenCell(events, i).Some? && OpenCell(events, i).value < j {
      OpenCellExactly(events, i, OpenCell(events, i).value);
      OpenCellExactly(events, j, OpenCell(events, i).value);
    }
  }

  lemma DataIsNoTag(events: seq<Event>, j: nat)
    requires j < |events| && events[j].Data?
    ensures !BeginsCell(events, j) && !CellMayEnd(events, j)
  {
  }

  /** So a cell that is never ended takes all text after it: no block that begins later gets a word. */
  lemma {:induction false} OpenCellTakesAll(events: seq<Event>, i: nat, m: nat)
    requires i <= m <= |events| && OpenCell(events, i).Some? && forall j :: i <= j < m ==> !CellMayEnd(events, j)
    ensures OpenCell(events, m).Some? && Visible(events, i, m, false) == ""
  {
    hide CellMayEnd, BeginsCell;
    if i < m {
      OpenCellTakesAll(events, i, m - 1);
    }
  }

  /** A table whose cell is left to be closed by the row, which HTML permits, and a paragraph. */
  function UnclosedCell(a: string, b: string): seq<Event> {
    [StartTag(TableTag), StartTag(TrTag), StartTag(TdTag), Data(a), EndTag(TrTag), EndTag(TableTag), StartTag(PTag), Data(b), EndTag(PTag)]
  }

  lemma UnclosedCellEmptiesTheDocument(a: string, b: string)
    ensures Run(UnclosedCell(a, b)).items == []
  {
    hide Run, Step;
    var e := UnclosedCell(a, b);
    RunOfNine(e);
    TableTakes(a);
    ParagraphGetsNothing(a, b);
  }

  lemma TableTakes(a: string)
    ensures Step(Step(Step(Step(Step(Step(START, StartTag(TableTag)), StartTag(TrTag)), StartTag(TdTag)), Data(a)), EndTag(TrTag)), EndTag(TableTag))
      == ParserState([], 0, false, None, [], None, Some([a]))
  {
    hide NormalizeText;
    var s0 := Step(START, StartTag(TableTag));
    assert s0 == ParserState([], 0, false, None, [[]], None, None);
    var s1 := Step(Step(s0, StartTag(TrTag)), StartTag(TdTag));
    assert s1 == ParserState([], 0, false, None, [[]], Some([]), Some([]));
    assert [] + [a] == [a];
    var s2 := Step(Step(s1, Data(a)), EndTag(TrTag));
    assert s2 == ParserState([], 0, false, None, [[]], None, Some([a]));
  }

  lemma ParagraphGetsNothing(a: string, b: string)
    ensures Step(Step(Step(ParserState([], 0, false, None, [], None, Some([a])), StartTag(PTag)), Data(b)), EndTag(PTag)).items == []
  {
    hide NormalizeText;
    var s0 := Step(ParserState([], 0, false, None, [], None, Some([a])), StartTag(PTag));
    assert s0 == ParserState([], 0, false, Some(OpenBlock(PTag, ParagraphRole, [])), [], None, Some([a]));
    assert [a] + [b] == [a, b];
    assert Step(s0, Data(b)) == s0.(currentCell := Some([a, b]));
    NothingCollapses();
  }

  lemma NothingCollapses()
    ensures NormalizeText([]) == []
  {
    assert Joined([]) == [] && Words([]) == [];
  }

  lemma RunOfNine(e: seq<Event>)
    requires |e| == 9
    ensures Run(e) == Step(Step(Step(Step(Step(Step(Step(Step(Step(START, e[0]), e[1]), e[2]), e[3]), e[4]), e[5]), e[6]), e[7]), e[8])
  {
    hide Step;
    assert e[..0] == [];
    forall k: nat | k < 9 ensures Run(e[..k + 1]) == Step(Run(e[..k]), e[k]) {
      assert e[..k + 1][..k] == e[..k];
    }
    assert e[..9] == e;
  }
}
