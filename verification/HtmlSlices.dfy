/** The text and the ranges that HTML ingestion emits, against a reference: the blocks and tables
    joined by newlines. */
module HtmlSlices {
  import opened Utf8
  import opened Wrappers
  import opened Contracts
  import opened Whitespace
  import opened BoundaryContracts
  import opened TextAssembly
  import opened IngestedText
  import opened HtmlTables
  import opened HtmlTableRanges
  import opened HtmlAssembly
  import opened HtmlSoundness

  function ItemText(item: Item): string {
    match item
    case BlockItem(role, text) => text
    case TableItem(rows) => TableText(rows)
  }

  /** The items' texts, one below the other. */
  function DocumentText(items: seq<Item>): string {
    if items == [] then []
    else if |items| == 1 then ItemText(items[0])
    else DocumentText(items[..|items| - 1]) + "\n" + ItemText(items[|items| - 1])
  }

  /** The texts of the layout spans: a block is one, a table is one followed by its cells. */
  function SpanTexts(items: seq<Item>): seq<string> {
    if items == [] then []
    else
      var last := items[|items| - 1];
      SpanTexts(items[..|items| - 1])
      + match last case BlockItem(role, text) => [text] case TableItem(rows) => [TableText(rows)] + Flat(rows)
  }

  predicate SliceIs(text: string, r: TextRange, wanted: string) {
    r.startChar <= r.endChar <= |text| && text[r.startChar..r.endChar] == wanted
  }

  predicate SpansAre(text: string, spans: seq<LayoutSpan>, texts: seq<string>) {
    |spans| == |texts| && forall k :: 0 <= k < |spans| ==> SliceIs(text, spans[k].range, texts[k])
  }

  /** A cell shows its entry of the rows, labelled with the first row's entry above it. */
  predicate CellShows(text: string, c: TableCellSpan, rows: seq<seq<string>>) {
    && c.rowIndex < |rows| && c.columnIndex < |rows[c.rowIndex]|
    && SliceIs(text, c.range, rows[c.rowIndex][c.columnIndex])
    && c.headerLabels == if c.rowIndex == 0 || c.columnIndex >= |rows[0]| then [] else [rows[0][c.columnIndex]]
  }

  predicate TableShows(text: string, t: TableSpan, rows: seq<seq<string>>) {
    && SliceIs(text, t.range, TableText(rows)) && |t.cells| == |Flat(rows)|
    && forall k :: 0 <= k < |t.cells| ==> CellShows(text, t.cells[k], rows)
  }

  function TableRows(items: seq<Item>): seq<seq<seq<string>>> {
    if items == [] then []
    else
      var last := items[|items| - 1];
      TableRows(items[..|items| - 1]) + if last.TableItem? then [last.rows] else []
  }

  predicate TablesShow(text: string, tables: seq<TableSpan>, all: seq<seq<seq<string>>>) {
    |tables| == |all| && forall k :: 0 <= k < |tables| ==> TableShows(text, tables[k], all[k])
  }

  lemma SliceStays(text: string, more: string, r: TextRange, wanted: string)
    requires SliceIs(text, r, wanted)
    ensures SliceIs(text + more, r, wanted)
  {
    assert (text + more)[r.startChar..r.endChar] == text[r.startChar..r.endChar];
  }

  lemma SpansStay(text: string, more: string, spans: seq<LayoutSpan>, texts: seq<string>)
    requires SpansAre(text, spans, texts)
    ensures SpansAre(text + more, spans, texts)
  {
    hide SliceIs;
    forall k | 0 <= k < |spans| ensures SliceIs(text + more, spans[k].range, texts[k]) {
      SliceStays(text, more, spans[k].range, texts[k]);
    }
  }

  lemma TableStays(text: string, more: string, t: TableSpan, rows: seq<seq<string>>)
    requires TableShows(text, t, rows)
    ensures TableShows(text + more, t, rows)
  {
    hide SliceIs, TableText, Flat;
    SliceStays(text, more, t.range, TableText(rows));
    forall k | 0 <= k < |t.cells| ensures CellShows(text + more, t.cells[k], rows) {
      assert CellShows(text, t.cells[k], rows);
      SliceStays(text, more, t.cells[k].range, rows[t.cells[k].rowIndex][t.cells[k].columnIndex]);
    }
  }

  lemma TablesStay(text: string, more: string, tables: seq<TableSpan>, all: seq<seq<seq<string>>>)
    requires TablesShow(text, tables, all)
    ensures TablesShow(text + more, tables, all)
  {
    hide TableShows;
    forall k | 0 <= k < |tables| ensures TableShows(text + more, tables[k], all[k]) {
      TableStays(text, more, tables[k], all[k]);
    }
  }

  lemma {:induction false} RecordsAreFlat(a: Assembled, table: nat, rows: seq<seq<string>>, headers: seq<string>)
    ensures var records := Records(a, table, rows, headers);
      |records| == |Flat(rows)| && forall i :: 0 <= i < |records| ==> RecordNames(records[i], rows, Flat(rows)[i], headers)
  {
    hide JoinWithSpace, AppendRows, BeforeRow, CellRange;
    if rows != [] {
      var n := |rows| - 1;
      RecordsAreFlat(a, table, rows[..n], headers);
      var before, records := Records(a, table, rows[..n], headers), Records(a, table, rows, headers);
      RecordsSnoc(a, table, rows, headers);
      forall i | 0 <= i < |records| ensures RecordNames(records[i], rows, Flat(rows)[i], headers) {
        assert i < |before| ==> RecordNames(before[i], rows[..n], Flat(rows[..n])[i], headers);
      }
    }
  }

  predicate RecordNames(r: CellRecord, rows: seq<seq<string>>, cell: string, headers: seq<string>) {
    && r.rowIndex < |rows| && r.columnIndex < |rows[r.rowIndex]| && rows[r.rowIndex][r.columnIndex] == cell
    && r.headerLabels == HeaderLabels(headers, r.rowIndex, r.columnIndex)
  }

  lemma RecordSlice(a: Assembled, table: nat, rows: seq<seq<string>>, i: nat)
    requires rows != [] && AllFilled(rows) && i < |Records(a, table, rows, rows[0])|
    ensures var r, text := Records(a, table, rows, rows[0])[i], AppendRows(a, table, rows).text;
      && i < |Flat(rows)| && r.rowIndex < |rows| && r.columnIndex < |rows[r.rowIndex]|
      && SliceIs(text, r.range, Flat(rows)[i]) && Flat(rows)[i] == rows[r.rowIndex][r.columnIndex]
      && r.headerLabels == HeaderLabels(rows[0], r.rowIndex, r.columnIndex)
  {
    hide AppendRows, Records, AllFilled, Flat, RecordsInOrder;
    var r, text := Records(a, table, rows, rows[0])[i], AppendRows(a, table, rows).text;
    TableRecordsGood(a, table, rows, rows[0]);
    RecordsAreFlat(a, table, rows, rows[0]);
    assert RecordGood(text, |a.text|, rows, r);
    assert RecordNames(r, rows, Flat(rows)[i], rows[0]);
  }

  lemma TableSlice(a: Assembled, table: nat, rows: seq<seq<string>>)
    requires rows != [] && AllFilled(rows)
    ensures SliceIs(AppendRows(a, table, rows).text, TableRange(a, table, rows), TableText(rows))
  {
    hide AppendRows, TableText, AllFilled;
    TableIsItsText(a, table, rows);
  }

  lemma TableIsShown(a: Assembled, table: nat, rows: seq<seq<string>>)
    requires rows != [] && AllFilled(rows)
    ensures TableShows(AppendRows(a, table, rows).text, TableOf(a, table, rows), rows)
  {
    hide AppendRows, TableText, AllFilled, Records, Flat, SliceIs, TableRange, CellShows;
    TableSlice(a, table, rows);
    RecordsAreFlat(a, table, rows, rows[0]);
    var t := TableOf(a, table, rows);
    forall k | 0 <= k < |t.cells| ensures CellShows(AppendRows(a, table, rows).text, t.cells[k], rows) {
      CellIsShown(a, table, rows, k);
    }
  }

  lemma CellIsShown(a: Assembled, table: nat, rows: seq<seq<string>>, k: nat)
    requires rows != [] && AllFilled(rows) && k < |Records(a, table, rows, rows[0])|
    ensures CellShows(AppendRows(a, table, rows).text, TableOf(a, table, rows).cells[k], rows)
  {
    hide AppendRows, AllFilled, Records, Flat, SliceIs, TableRange, HeaderLabels;
    RecordSlice(a, table, rows, k);
    var r := Records(a, table, rows, rows[0])[k];
    HeadersFilled(rows, r.rowIndex, r.columnIndex);
  }

  lemma TableLayoutsAre(a: Assembled, table: nat, rows: seq<seq<string>>)
    requires rows != [] && AllFilled(rows)
    ensures SpansAre(AppendRows(a, table, rows).text, LayoutsOf(a, table, rows), [TableText(rows)] + Flat(rows))
  {
    hide AppendRows, TableText, AllFilled, Records, Flat, SliceIs, TableRange, HeaderLabels;
    TableSlice(a, table, rows);
    RecordsAreFlat(a, table, rows, rows[0]);
    var text, spans, texts := AppendRows(a, table, rows).text, LayoutsOf(a, table, rows), [TableText(rows)] + Flat(rows);
    forall k | 0 <= k < |spans| ensures SliceIs(text, spans[k].range, texts[k]) {
      if k > 0 {
        RecordSlice(a, table, rows, k - 1);
      }
    }
  }

  lemma HeadersFilled(rows: seq<seq<string>>, r: nat, c: nat)
    requires rows != [] && AllFilled(rows)
    ensures HeaderLabels(rows[0], r, c) == if r == 0 || c >= |rows[0]| then [] else [rows[0][c]]
  {
    assert RowFilled(rows[0]);
  }

  /** The invariant of this module. */
  predicate Shows(x: Extraction, items: seq<Item>) {
    && x.ingested.Text() == DocumentText(items) && (items == [] <==> DocumentText(items) == [])
    && SpansAre(x.ingested.Text(), x.ingested.layoutSpans, SpanTexts(items))
    && TablesShow(x.ingested.Text(), x.ingested.tableSpans, TableRows(items))
  }

  /** The text is the items joined by newlines, and each layout span, table and cell slices to its own
      text, in emission order. */
  lemma {:induction false} AssembledShows(items: seq<Item>)
    requires ItemsOk(items)
    ensures var x := Assemble(items); x.Some? ==> Shows(x.value, items)
  {
    hide Shows, AppendItem;
    if items == [] {
      NothingShown();
    } else {
      AssembledShows(items[..|items| - 1]);
      if Assemble(items).Some? {
        AppendShows(Assemble(items[..|items| - 1]).value, items);
      }
    }
  }

  lemma NothingShown()
    ensures Shows(NOTHING_EXTRACTED, [])
  {
  }

  lemma DocumentTextSnoc(items: seq<Item>)
    requires items != []
    ensures var front, last := items[..|items| - 1], ItemText(items[|items| - 1]);
      DocumentText(items) == if front == [] then last else DocumentText(front) + "\n" + last
  {
    hide ItemText;
  }

  lemma SeparatedText(x: Extraction)
    ensures Separated(x).text == if x.ingested.Text() == [] then [] else x.ingested.Text() + "\n"
  {
    hide NextRange;
  }

  lemma SpansConcat(text: string, spans: seq<LayoutSpan>, texts: seq<string>, spans': seq<LayoutSpan>, texts': seq<string>)
    requires SpansAre(text, spans, texts) && SpansAre(text, spans', texts')
    ensures SpansAre(text, spans + spans', texts + texts')
  {
    hide SliceIs;
  }

  lemma TablesSnoc(text: string, tables: seq<TableSpan>, all: seq<seq<seq<string>>>, t: TableSpan, rows: seq<seq<string>>)
    requires TablesShow(text, tables, all) && TableShows(text, t, rows)
    ensures TablesShow(text, tables + [t], all + [rows])
  {
    hide TableShows;
  }

  lemma BlockSlice(a: Assembled, text: string, s: LayoutSpan)
    requires s.range == NextRange(a, text)
    ensures SpansAre(a.text + text, [s], [text])
  {
    hide ByteLength;
  }

  /** What was shown stays shown in a longer text. */
  lemma ShownStays(x: Extraction, items: seq<Item>, more: string)
    requires Shows(x, items)
    ensures SpansAre(x.ingested.Text() + more, x.ingested.layoutSpans, SpanTexts(items))
    ensures TablesShow(x.ingested.Text() + more, x.ingested.tableSpans, TableRows(items))
  {
    hide SpansAre, TablesShow, DocumentText, SpanTexts, TableRows;
    SpansStay(x.ingested.Text(), more, x.ingested.layoutSpans, SpanTexts(items));
    TablesStay(x.ingested.Text(), more, x.ingested.tableSpans, TableRows(items));
  }

  /** The text that an item adds: its own, behind a newline unless it is the first. */
  function Added(x: Extraction, text: string): string {
    (if x.ingested.Text() == [] then "" else "\n") + text
  }

  lemma AddedText(x: Extraction, items: seq<Item>)
    requires items != [] && Shows(x, items[..|items| - 1]) && ItemText(items[|items| - 1]) != []
    ensures DocumentText(items) == x.ingested.Text() + Added(x, ItemText(items[|items| - 1]))
    ensures DocumentText(items) == Separated(x).text + ItemText(items[|items| - 1]) != []
  {
    hide Separated, ItemText, DocumentText, SpansAre, TablesShow;
    var text, last := x.ingested.Text(), ItemText(items[|items| - 1]);
    DocumentTextSnoc(items);
    SeparatedText(x);
    if text == [] {
      assert [] + ("" + last) == last;
    } else {
      Reassociate(text, "\n", last);
    }
  }

  lemma Reassociate(a: string, b: string, c: string)
    ensures a + (b + c) == a + b + c
  {
  }

  lemma AppendShows(x: Extraction, items: seq<Item>)
    requires items != [] && ItemsOk(items) && Shows(x, items[..|items| - 1]) && AppendItem(x, items[|items| - 1]).Some?
    ensures Shows(AppendItem(x, items[|items| - 1]).value, items)
  {
    hide Shows, AppendBlock, AppendTable;
    match items[|items| - 1] {
      case BlockItem(role, text) => BlockShows(x, items);
      case TableItem(rows) => AddedTableShows(x, items);
    }
  }

  lemma BlockShows(x: Extraction, items: seq<Item>)
    requires items != [] && ItemOk(items[|items| - 1]) && items[|items| - 1].BlockItem? && Shows(x, items[..|items| - 1])
    ensures Shows(AppendBlock(x, items[|items| - 1].role, items[|items| - 1].text), items)
  {
    hide DocumentText, SpansAre, TablesShow, Separated, NextRange;
    var last, a := items[|items| - 1], Separated(x);
    AddedText(x, items);
    assert TableRows(items) == TableRows(items[..|items| - 1]);
    ShownStays(x, items[..|items| - 1], Added(x, last.text));
    BlockSlice(a, last.text, LayoutSpan(HtmlBlockSpan(x.blockIndex), 1, last.role, NextRange(a, last.text)));
    SpansConcat(a.text + last.text, x.ingested.layoutSpans, SpanTexts(items[..|items| - 1]),
      [LayoutSpan(HtmlBlockSpan(x.blockIndex), 1, last.role, NextRange(a, last.text))], [last.text]);
  }

  lemma AddedTableShows(x: Extraction, items: seq<Item>)
    requires items != [] && ItemOk(items[|items| - 1]) && items[|items| - 1].TableItem? && Shows(x, items[..|items| - 1])
    requires AllFilled(items[|items| - 1].rows)
    ensures Shows(AppendTable(x, items[|items| - 1].rows), items)
  {
    hide DocumentText, SpansAre, TablesShow, Separated, NextRange, LayoutsOf, TableOf, AppendRows, Flat, TableText, AllFilled;
    var rows, a := items[|items| - 1].rows, Separated(x);
    var text := AppendRows(a, x.tableIndex, rows).text;
    TableTextFilled(rows);
    AddedText(x, items);
    TableIsItsText(a, x.tableIndex, rows);
    ShownStays(x, items[..|items| - 1], Added(x, TableText(rows)));
    TableIsShown(a, x.tableIndex, rows);
    TableLayoutsAre(a, x.tableIndex, rows);
    SpansConcat(text, x.ingested.layoutSpans, SpanTexts(items[..|items| - 1]), LayoutsOf(a, x.tableIndex, rows), [TableText(rows)] + Flat(rows));
    TablesSnoc(text, x.ingested.tableSpans, TableRows(items[..|items| - 1]), TableOf(a, x.tableIndex, rows), rows);
  }

  predicate AllItemsFilled(items: seq<Item>) {
    forall k :: 0 <= k < |items| && items[k].TableItem? ==> AllFilled(items[k].rows)
  }

  /** Assembly fails exactly when some table has an empty row or cell. */
  lemma {:induction false} AssemblesExactly(items: seq<Item>)
    requires ItemsOk(items)
    ensures Assemble(items).Some? <==> AllItemsFilled(items)
  {
    hide AllFilled, AppendBlock, AppendTable;
    if items != [] {
      AssemblesExactly(items[..|items| - 1]);
    }
  }

  /** The roles of the layout spans: a block has its own, a table is followed by its cells. */
  function SpanRoles(items: seq<Item>): seq<LayoutRole> {
    if items == [] then [] else SpanRoles(items[..|items| - 1]) + ItemRoles(items[|items| - 1])
  }

  function ItemRoles(item: Item): seq<LayoutRole> {
    match item
    case BlockItem(role, _) => [role]
    case TableItem(rows) => [TableRole] + seq(|Flat(rows)|, i => TableCellRole)
  }

  /** The layout spans are all on page 1 and have the roles of what was emitted, in order. */
  predicate HasRoles(spans: seq<LayoutSpan>, roles: seq<LayoutRole>) {
    |spans| == |roles| && forall k :: 0 <= k < |spans| ==> spans[k].role == roles[k] && spans[k].pageNumber == 1
  }

  lemma {:induction false} AssembledRoles(items: seq<Item>)
    requires ItemsOk(items)
    ensures Assemble(items).Some? ==> HasRoles(Assemble(items).value.ingested.layoutSpans, SpanRoles(items))
  {
    hide AppendItem, ItemRoles;
    if items != [] {
      var front := items[..|items| - 1];
      AssembledRoles(front);
      if Assemble(items).Some? {
        AppendedRoles(Assemble(front).value, items[|items| - 1]);
      }
    }
  }

  lemma AppendedRoles(x: Extraction, item: Item)
    requires ItemOk(item) && AppendItem(x, item).Some?
    ensures var before, after := x.ingested.layoutSpans, AppendItem(x, item).value.ingested.layoutSpans;
      before <= after && HasRoles(after[|before|..], ItemRoles(item))
  {
    hide AppendRows, Records, Flat, AllFilled, TableOf, NextRange, TableRange, Separated;
    if item.TableItem? {
      RecordsAreFlat(Separated(x), x.tableIndex, item.rows, item.rows[0]);
    }
  }
}
