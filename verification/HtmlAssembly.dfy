/** ingestion/html.py, the emitting half: blocks and tables, one after the other, become an ingested
    text that keeps the invariant. */
module HtmlAssembly {
  import opened Wrappers
  import opened Contracts
  import opened Whitespace
  import opened BoundaryContracts
  import opened Sorting
  import opened TextAssembly
  import opened LayoutBlocks
  import opened IngestedText
  import opened HtmlTables
  import opened HtmlTableRanges

  /** What the parser emits. */
  datatype Item = BlockItem(role: LayoutRole, text: string) | TableItem(rows: seq<seq<string>>)

  /** Blocks hold text and tables hold rows; the parser emits nothing else. */
  predicate ItemOk(item: Item) {
    match item
    case BlockItem(role, text) => text != [] && IsTextRole(role)
    case TableItem(rows) => rows != []
  }

  datatype Extraction = Extraction(ingested: Ingested, blockIndex: nat, tableIndex: nat)

  const NOTHING_EXTRACTED := Extraction(Ingested(Assembled("", []), [], []), 0, 0)

  /** The text with the separator that precedes every block but the first. */
  function Separated(x: Extraction): Assembled {
    var a := x.ingested.assembled;
    if a.text == [] then a else Append(a, "\n", HtmlBlockSeparator(x.blockIndex), Generated)
  }

  /** `_append_block` */
  function AppendBlock(x: Extraction, role: LayoutRole, text: string): Extraction {
    var a, g := Separated(x), x.ingested;
    Extraction(Ingested(Append(a, text, HtmlBlock(x.blockIndex), Unmapped),
        g.layoutSpans + [LayoutSpan(HtmlBlockSpan(x.blockIndex), 1, role, NextRange(a, text))], g.tableSpans),
      x.blockIndex + 1, x.tableIndex)
  }

  /** `_append_table`, when it does not raise */
  function AppendTable(x: Extraction, rows: seq<seq<string>>): Extraction
    requires rows != []
  {
    var a, g := Separated(x), x.ingested;
    Extraction(Ingested(AppendRows(a, x.tableIndex, rows), g.layoutSpans + LayoutsOf(a, x.tableIndex, rows),
        g.tableSpans + [TableOf(a, x.tableIndex, rows)]),
      x.blockIndex + 1, x.tableIndex + 1)
  }

  function AppendItem(x: Extraction, item: Item): Option<Extraction>
    requires ItemOk(item)
  {
    match item
    case BlockItem(role, text) => Some(AppendBlock(x, role, text))
    case TableItem(rows) => if AllFilled(rows) then Some(AppendTable(x, rows)) else None
  }

  predicate ItemsOk(items: seq<Item>) {
    forall k :: 0 <= k < |items| ==> ItemOk(items[k])
  }

  function Assemble(items: seq<Item>): Option<Extraction>
    requires ItemsOk(items)
  {
    if items == [] then Some(NOTHING_EXTRACTED)
    else
      var front := Assemble(items[..|items| - 1]);
      if front.None? then None else AppendItem(front.value, items[|items| - 1])
  }

  // Ids

  datatype IdBounds = IdBounds(separator: nat, block: nat, table: nat, rowSeparator: nat, row: nat)

  predicate IdBelow(id: SegmentId, b: IdBounds) {
    match id
    case HtmlBlockSeparator(k) => k < b.separator
    case HtmlBlock(k) => k < b.block
    case HtmlRowSeparator(t, r) => t < b.table || (t == b.table && r < b.rowSeparator)
    case HtmlRow(t, r) => t < b.table || (t == b.table && r < b.row)
    case _ => false
  }

  predicate IdsBelow(ids: seq<SegmentId>, b: IdBounds) {
    forall k :: 0 <= k < |ids| ==> IdBelow(ids[k], b)
  }

  predicate BoundsGrow(b: IdBounds, c: IdBounds) {
    && b.separator <= c.separator && b.block <= c.block
    && (b.table < c.table || (b.table == c.table && b.rowSeparator <= c.rowSeparator && b.row <= c.row))
  }

  predicate SegmentsNamed(a: Assembled, b: IdBounds) {
    NoRepeats(SegmentIds(a.sourceMap)) && IdsBelow(SegmentIds(a.sourceMap), b)
  }

  lemma AppendNames(a: Assembled, more: string, id: SegmentId, kind: SegmentKind, b: IdBounds, c: IdBounds)
    requires SegmentsNamed(a, b) && BoundsGrow(b, c) && !IdBelow(id, b) && IdBelow(id, c)
    ensures SegmentsNamed(Append(a, more, id, kind), c)
  {
    hide NextRange;
    var before, after := SegmentIds(a.sourceMap), SegmentIds(Append(a, more, id, kind).sourceMap);
    assert after == before + [id];
    forall i | 0 <= i < |before| ensures IdBelow(after[i], c) && after[i] != id {
      assert IdBelow(before[i], b);
    }
  }

  lemma BoundsMayGrow(a: Assembled, b: IdBounds, c: IdBounds)
    requires SegmentsNamed(a, b) && BoundsGrow(b, c)
    ensures SegmentsNamed(a, c)
  {
    hide NoRepeats;
    forall i | 0 <= i < |SegmentIds(a.sourceMap)| ensures IdBelow(SegmentIds(a.sourceMap)[i], c) {
      assert IdBelow(SegmentIds(a.sourceMap)[i], b);
    }
  }

  lemma {:induction false} RowsName(a: Assembled, table: nat, rows: seq<seq<string>>, b: IdBounds)
    requires SegmentsNamed(a, b) && b.table == table && b.rowSeparator == b.row == 0
    ensures SegmentsNamed(AppendRows(a, table, rows), b.(rowSeparator := if rows == [] then 0 else |rows| - 1, row := |rows|))
  {
    hide SegmentsNamed, JoinWithSpace, Append;
    if rows != [] {
      var n := |rows| - 1;
      var front := AppendRows(a, table, rows[..n]);
      RowsName(a, table, rows[..n], b);
      var c := b.(rowSeparator := n, row := n);
      if n > 0 {
        AppendNames(front, "\n", HtmlRowSeparator(table, n - 1), Generated, b.(rowSeparator := n - 1, row := n), c);
      }
      AppendNames(BeforeRow(front, table, n), JoinWithSpace(rows[n]), HtmlRow(table, n), Unmapped, c, c.(row := n + 1));
    }
  }

  predicate LayoutIdBelow(id: LayoutId, block: nat, table: nat) {
    match id
    case HtmlBlockSpan(k) => k < block
    case HtmlTableLayout(t) => t < table
    case HtmlCellLayout(t, r, c) => t < table
    case EmailBodyLayout(inner) => false
  }

  predicate LayoutsNamed(spans: seq<LayoutSpan>, block: nat, table: nat) {
    && NoRepeats(LayoutIdsOf(spans))
    && forall k :: 0 <= k < |spans| ==> LayoutIdBelow(spans[k].spanId, block, table)
  }

  predicate TablesNamed(tables: seq<TableSpan>, table: nat) {
    && NoRepeats(TableIdsOf(tables))
    && forall k :: 0 <= k < |tables| ==> tables[k].tableId.HtmlTableId? && tables[k].tableId.table < table
  }

  /** The ids used so far are unique and will not be used again. */
  predicate Named(x: Extraction) {
    && SegmentsNamed(x.ingested.assembled, IdBounds(x.blockIndex, x.blockIndex, x.tableIndex, 0, 0))
    && LayoutsNamed(x.ingested.layoutSpans, x.blockIndex, x.tableIndex)
    && TablesNamed(x.ingested.tableSpans, x.tableIndex)
  }

  lemma NamedIdsAreUnique(x: Extraction)
    requires Named(x)
    ensures IdsUnique(x.ingested)
  {
  }

  lemma LayoutsNameMore(spans: seq<LayoutSpan>, more: seq<LayoutSpan>, block: nat, table: nat, block': nat, table': nat)
    requires LayoutsNamed(spans, block, table) && LayoutsNamed(more, block', table') && block <= block' && table <= table'
    requires forall k :: 0 <= k < |more| ==> !LayoutIdBelow(more[k].spanId, block, table)
    ensures LayoutsNamed(spans + more, block', table')
  {
    var ids, all := LayoutIdsOf(spans), LayoutIdsOf(spans + more);
    forall i, j | 0 <= i < j < |all| ensures all[i] != all[j] {
      if i >= |spans| {
        assert LayoutIdsOf(more)[i - |spans|] != LayoutIdsOf(more)[j - |spans|];
      } else if j < |spans| {
        assert ids[i] != ids[j];
      } else {
        assert LayoutIdBelow(spans[i].spanId, block, table);
        assert !LayoutIdBelow(more[j - |spans|].spanId, block, table);
      }
    }
    forall k | 0 <= k < |all| ensures LayoutIdBelow((spans + more)[k].spanId, block', table') {
      if k < |spans| {
        assert LayoutIdBelow(spans[k].spanId, block, table);
      } else {
        assert LayoutIdBelow(more[k - |spans|].spanId, block', table');
      }
    }
  }

  lemma TablesNameMore(tables: seq<TableSpan>, t: TableSpan, table: nat)
    requires TablesNamed(tables, table) && t.tableId.HtmlTableId? && t.tableId.table == table
    ensures TablesNamed(tables + [t], table + 1)
  {
    var ids, all := TableIdsOf(tables), TableIdsOf(tables + [t]);
    assert all == ids + [t.tableId];
    assert forall k :: 0 <= k < |ids| ==> ids[k] == tables[k].tableId;
  }

  lemma SeparatedNames(x: Extraction)
    requires Named(x)
    ensures SegmentsNamed(Separated(x), IdBounds(x.blockIndex + 1, x.blockIndex, x.tableIndex, 0, 0))
  {
    hide SegmentsNamed, LayoutsNamed, TablesNamed, Append;
    var b := IdBounds(x.blockIndex, x.blockIndex, x.tableIndex, 0, 0);
    if x.ingested.assembled.text == [] {
      BoundsMayGrow(x.ingested.assembled, b, b.(separator := x.blockIndex + 1));
    } else {
      AppendNames(x.ingested.assembled, "\n", HtmlBlockSeparator(x.blockIndex), Generated, b, b.(separator := x.blockIndex + 1));
    }
  }

  lemma BlockNames(x: Extraction, role: LayoutRole, text: string)
    requires Named(x)
    ensures Named(AppendBlock(x, role, text))
  {
    hide SegmentsNamed, LayoutsNamed, TablesNamed, Append, Separated;
    SeparatedNames(x);
    AppendNames(Separated(x), text, HtmlBlock(x.blockIndex), Unmapped, IdBounds(x.blockIndex + 1, x.blockIndex, x.tableIndex, 0, 0),
      IdBounds(x.blockIndex + 1, x.blockIndex + 1, x.tableIndex, 0, 0));
    var more := [LayoutSpan(HtmlBlockSpan(x.blockIndex), 1, role, NextRange(Separated(x), text))];
    OneLayoutNamed(more, x.blockIndex + 1, x.tableIndex);
    LayoutsNameMore(x.ingested.layoutSpans, more, x.blockIndex, x.tableIndex, x.blockIndex + 1, x.tableIndex);
  }

  lemma OneLayoutNamed(spans: seq<LayoutSpan>, block: nat, table: nat)
    requires |spans| == 1 && LayoutIdBelow(spans[0].spanId, block, table)
    ensures LayoutsNamed(spans, block, table)
  {
  }

  lemma CellLayoutsNamed(table: nat, records: seq<CellRecord>, range: TextRange, block: nat)
    requires RecordsInOrder(records)
    ensures LayoutsNamed([LayoutSpan(HtmlTableLayout(table), 1, TableRole, range)] + CellLayouts(table, records), block, table + 1)
  {
    var spans := [LayoutSpan(HtmlTableLayout(table), 1, TableRole, range)] + CellLayouts(table, records);
    var ids := LayoutIdsOf(spans);
    forall i, j | 0 <= i < j < |ids| ensures ids[i] != ids[j] {
      if i > 0 {
        assert Before(records[i - 1], records[j - 1]);
      }
    }
  }

  lemma TableNames(x: Extraction, rows: seq<seq<string>>)
    requires Named(x) && rows != [] && AllFilled(rows)
    ensures Named(AppendTable(x, rows))
  {
    hide SegmentsNamed, LayoutsNamed, TablesNamed, Append, Separated, AppendRows, Records, CellLayouts, CellSpans, AllFilled, RecordsInOrder, RecordsGood;
    var a, t := Separated(x), x.tableIndex;
    var b := IdBounds(x.blockIndex + 1, x.blockIndex, t, 0, 0);
    SeparatedNames(x);
    RowsName(a, t, rows, b);
    BoundsMayGrow(AppendRows(a, t, rows), b.(rowSeparator := |rows| - 1, row := |rows|), IdBounds(x.blockIndex + 1, x.blockIndex + 1, t + 1, 0, 0));
    TableRecordsGood(a, t, rows, rows[0]);
    CellLayoutsNamed(t, Records(a, t, rows, rows[0]), TableRange(a, t, rows), x.blockIndex + 1);
    TableLayoutsNotBelow(a, t, rows, x.blockIndex);
    LayoutsNameMore(x.ingested.layoutSpans, LayoutsOf(a, t, rows), x.blockIndex, t, x.blockIndex + 1, t + 1);
    TablesNameMore(x.ingested.tableSpans, TableOf(a, t, rows), t);
  }

  lemma TableLayoutsNotBelow(a: Assembled, table: nat, rows: seq<seq<string>>, block: nat)
    requires rows != []
    ensures var spans := LayoutsOf(a, table, rows); forall k :: 0 <= k < |spans| ==> !LayoutIdBelow(spans[k].spanId, block, table)
  {
    hide Records, AppendRows;
  }
}
