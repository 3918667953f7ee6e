/** Every assembled HTML text keeps the ingestion invariant, and each emitted range is its own text. */
module HtmlSoundness {
  import opened Utf8
  import opened Wrappers
  import opened Contracts
  import opened Whitespace
  import opened BoundaryContracts
  import opened Sorting
  import opened TextAssembly
  import opened LayoutBlocks
  import opened IngestedText
  import opened HtmlTables
  import opened HtmlTableRanges
  import opened HtmlAssembly

  /** The invariant without the ids. */
  predicate Placed(g: Ingested) {
    && WellAssembled(g.assembled) && LayoutsAligned(g.Text(), g.layoutSpans)
    && TablesAligned(g.Text(), g.tableSpans) && InOrder(g)
  }

  lemma LayoutsStayAligned(text: string, more: string, spans: seq<LayoutSpan>)
    requires LayoutsAligned(text, spans)
    ensures LayoutsAligned(text + more, spans)
  {
    hide ValidRange, RangeAligned;
    forall s | s in spans ensures GoodRange(text + more, s.range) {
      RangeStaysAligned(text, more, s.range);
    }
  }

  lemma TablesStayAligned(text: string, more: string, tables: seq<TableSpan>)
    requires TablesAligned(text, tables)
    ensures TablesAligned(text + more, tables)
  {
    hide ValidTable, RangeAligned;
    forall t | t in tables ensures RangeAligned(text + more, t.range) && CellsAligned(text + more, t.cells) {
      RangeStaysAligned(text, more, t.range);
      forall c | c in t.cells ensures RangeAligned(text + more, c.range) {
        RangeStaysAligned(text, more, c.range);
      }
    }
  }

  predicate SpansFrom(spans: seq<LayoutSpan>, at: nat) {
    forall s :: s in spans ==> at <= s.range.startChar
  }

  predicate TablesFrom(tables: seq<TableSpan>, at: nat) {
    forall t :: t in tables ==> at <= t.range.startChar
  }

  predicate EndsBy(g: Ingested, at: nat) {
    && (forall s :: s in g.layoutSpans ==> s.range.endChar <= at)
    && (forall t :: t in g.tableSpans ==> t.range.endChar <= at)
  }

  lemma AlignedEndsBy(g: Ingested)
    requires Placed(g)
    ensures EndsBy(g, |g.Text()|)
  {
    hide WellAssembled, InOrder, ValidTable, CellsAligned, PrefixBytes;
  }

  /** What is emitted behind all earlier ranges keeps the order. */
  lemma OrderGrows(g: Ingested, assembled: Assembled, spans: seq<LayoutSpan>, tables: seq<TableSpan>, at: nat)
    requires InOrder(g) && EndsBy(g, at) && SpansFrom(spans, at) && TablesFrom(tables, at)
    requires TextSpansOrdered(spans) && TablesOrdered(tables) && TextApartFromTables(spans, tables)
    ensures InOrder(Ingested(assembled, g.layoutSpans + spans, g.tableSpans + tables))
  {
    TextOrderGrows(g.layoutSpans, spans, at);
    TableOrderGrows(g.tableSpans, tables, at);
    var allSpans, allTables := g.layoutSpans + spans, g.tableSpans + tables;
    forall s, t | s in allSpans && t in allTables && IsTextRole(s.role) ensures Apart(s.range, t.range) {
      assert s in g.layoutSpans || s in spans;
      assert t in g.tableSpans || t in tables;
    }
  }

  lemma TextOrderGrows(old_: seq<LayoutSpan>, new_: seq<LayoutSpan>, at: nat)
    requires TextSpansOrdered(old_) && TextSpansOrdered(new_) && SpansFrom(new_, at)
    requires forall s :: s in old_ ==> s.range.endChar <= at
    ensures TextSpansOrdered(old_ + new_)
  {
    var all := old_ + new_;
    forall i, j | 0 <= i < j < |all| && IsTextRole(all[i].role) && IsTextRole(all[j].role)
      ensures all[i].range.endChar <= all[j].range.startChar
    {
      if i < |old_| <= j {
        assert all[i] in old_ && all[j] in new_;
      } else if i >= |old_| {
        assert all[i] == new_[i - |old_|] && all[j] == new_[j - |old_|];
      }
    }
  }

  lemma TableOrderGrows(old_: seq<TableSpan>, new_: seq<TableSpan>, at: nat)
    requires TablesOrdered(old_) && TablesOrdered(new_) && TablesFrom(new_, at)
    requires forall t :: t in old_ ==> t.range.endChar <= at
    ensures TablesOrdered(old_ + new_)
  {
    var all := old_ + new_;
    forall i, j | 0 <= i < j < |all| ensures all[i].range.endChar <= all[j].range.startChar {
      if i < |old_| <= j {
        assert all[i] in old_ && all[j] in new_;
      } else if i >= |old_| {
        assert all[i] == new_[i - |old_|] && all[j] == new_[j - |old_|];
      }
    }
  }

  lemma SeparatedIsAssembled(x: Extraction)
    requires WellAssembled(x.ingested.assembled)
    ensures WellAssembled(Separated(x)) && x.ingested.Text() <= Separated(x).text
  {
    hide WellAssembled;
    AppendKeepsAssembled(x.ingested.assembled, "\n", HtmlBlockSeparator(x.blockIndex), Generated);
  }

  lemma BlockPlaced(x: Extraction, role: LayoutRole, text: string)
    requires Placed(x.ingested) && text != []
    ensures Placed(AppendBlock(x, role, text).ingested)
  {
    hide WellAssembled, LayoutsAligned, TablesAligned, InOrder, EndsBy, Append, Separated, NextRange;
    var a, g := Separated(x), x.ingested;
    var b := Append(a, text, HtmlBlock(x.blockIndex), Unmapped);
    var more := [LayoutSpan(HtmlBlockSpan(x.blockIndex), 1, role, NextRange(a, text))];
    SeparatedIsAssembled(x);
    AppendKeepsAssembled(a, text, HtmlBlock(x.blockIndex), Unmapped);
    AppendText(a, text, HtmlBlock(x.blockIndex), Unmapped);
    var grown := a.text[|g.Text()|..] + text;
    assert b.text == g.Text() + grown;
    LayoutsStayAligned(g.Text(), grown, g.layoutSpans);
    TablesStayAligned(g.Text(), grown, g.tableSpans);
    OneSpanAligned(a, text, more[0]);
    LayoutsAlignedConcat(b.text, g.layoutSpans, more);
    AlignedEndsBy(g);
    OneSpanOrdered(more, NextRange(a, text), |g.Text()|);
    OrderGrows(g, b, more, [], |g.Text()|);
    assert g.tableSpans + [] == g.tableSpans;
  }

  lemma AppendText(a: Assembled, more: string, id: SegmentId, kind: SegmentKind)
    ensures Append(a, more, id, kind).text == a.text + more && NextRange(a, more).startChar == |a.text|
  {
  }

  lemma OneSpanAligned(a: Assembled, more: string, s: LayoutSpan)
    requires more != [] && s.pageNumber == 1 && s.range == NextRange(a, more)
    ensures LayoutsAligned(a.text + more, [s])
  {
    hide NextRange, RangeAligned, ValidRange;
    NextRangeIsAligned(a, more);
  }

  lemma LayoutsAlignedConcat(text: string, old_: seq<LayoutSpan>, new_: seq<LayoutSpan>)
    requires LayoutsAligned(text, old_) && LayoutsAligned(text, new_)
    ensures LayoutsAligned(text, old_ + new_)
  {
    hide GoodRange;
  }

  lemma OneSpanOrdered(spans: seq<LayoutSpan>, r: TextRange, at: nat)
    requires |spans| == 1 && spans[0].range == r && at <= r.startChar
    ensures SpansFrom(spans, at) && TablesFrom([], at)
    ensures TextSpansOrdered(spans) && TablesOrdered([]) && TextApartFromTables(spans, [])
  {
  }

  lemma {:induction false} RowsAssembled(a: Assembled, table: nat, rows: seq<seq<string>>)
    requires WellAssembled(a) && AllFilled(rows)
    ensures WellAssembled(AppendRows(a, table, rows))
  {
    hide WellAssembled, JoinWithSpace, Append, RowFilled;
    if rows != [] {
      var n := |rows| - 1;
      RowsAssembled(a, table, rows[..n]);
      var front := AppendRows(a, table, rows[..n]);
      if n > 0 {
        AppendKeepsAssembled(front, "\n", HtmlRowSeparator(table, n - 1), Generated);
      }
      JoinEmpty(rows[n]);
      assert RowFilled(rows[n]);
      AppendKeepsAssembled(BeforeRow(front, table, n), JoinWithSpace(rows[n]), HtmlRow(table, n), Unmapped);
    }
  }

  /** The range of the whole table. */
  lemma TableRangeGood(a: Assembled, table: nat, rows: seq<seq<string>>)
    requires rows != [] && AllFilled(rows)
    ensures GoodRange(AppendRows(a, table, rows).text, TableRange(a, table, rows))
    ensures TableRange(a, table, rows).startChar == |a.text|
  {
    hide AppendRows, TableText, Encode, AllFilled;
    TableIsItsText(a, table, rows);
    TableTextFilled(rows);
    NextRangeIsAligned(a, TableText(rows));
    LengthOfAppended(a.text, TableText(rows));
    assert TableRange(a, table, rows) == NextRange(a, TableText(rows));
  }

  lemma TableTextFilled(rows: seq<seq<string>>)
    requires rows != [] && AllFilled(rows)
    ensures TableText(rows) != []
  {
    hide JoinWithSpace;
    assert RowFilled(rows[0]);
    JoinEmpty(rows[0]);
  }

  /** A good range in characters is a contained range in bytes. */
  lemma ContainedRange(text: string, outer: TextRange, inner: TextRange)
    requires RangeAligned(text, outer) && RangeAligned(text, inner)
    requires outer.startChar <= inner.startChar && inner.endChar <= outer.endChar
    ensures Contains(outer, inner)
  {
    hide Encode, PrefixBytes;
    PrefixBytesMonotone(text, outer.startChar, inner.startChar);
    PrefixBytesMonotone(text, inner.endChar, outer.endChar);
  }

  lemma {:induction false} FlatFilled(rows: seq<seq<string>>)
    requires rows != [] && AllFilled(rows)
    ensures Flat(rows) != []
  {
    assert RowFilled(rows[|rows| - 1]);
  }

  /** The emitted table passes its validators. */
  lemma TableIsValid(a: Assembled, table: nat, rows: seq<seq<string>>)
    requires rows != [] && AllFilled(rows)
    ensures var t, text := TableOf(a, table, rows), AppendRows(a, table, rows).text;
      ValidTable(t) && RangeAligned(text, t.range) && CellsAligned(text, t.cells)
  {
    hide AppendRows, Records, RangeAligned, ValidRange, Contains, TableRange, AllFilled, Flat, NoRepeats, CellIdsOf, RecordsInOrder;
    var t, text, records := TableOf(a, table, rows), AppendRows(a, table, rows).text, Records(a, table, rows, rows[0]);
    TableRangeGood(a, table, rows);
    TableRecordsGood(a, table, rows, rows[0]);
    FlatFilled(rows);
    CellIdsDiffer(t.tableId, records);
    forall c | c in t.cells ensures ValidRange(c.range) && Contains(t.range, c.range) && RangeAligned(text, c.range) {
      var i :| 0 <= i < |t.cells| && t.cells[i] == c;
      assert RecordGood(text, |a.text|, rows, records[i]);
      RangeInText(text, c.range);
      RangeEndsText(a, table, rows);
      ContainedRange(text, t.range, c.range);
    }
  }

  lemma RangeEndsText(a: Assembled, table: nat, rows: seq<seq<string>>)
    ensures TableRange(a, table, rows).endChar == |AppendRows(a, table, rows).text|
  {
    hide AppendRows;
  }

  lemma CellIdsDiffer(id: TableId, records: seq<CellRecord>)
    requires RecordsInOrder(records)
    ensures NoRepeats(CellIdsOf(CellSpans(id, records)))
  {
    var ids := CellIdsOf(CellSpans(id, records));
    forall i, j | 0 <= i < j < |ids| ensures ids[i] != ids[j] {
      assert Before(records[i], records[j]);
    }
  }

  lemma TableLayoutsPlaced(a: Assembled, table: nat, rows: seq<seq<string>>)
    requires rows != [] && AllFilled(rows)
    ensures LayoutsAligned(AppendRows(a, table, rows).text, LayoutsOf(a, table, rows))
    ensures SpansFrom(LayoutsOf(a, table, rows), |a.text|)
    ensures forall s :: s in LayoutsOf(a, table, rows) ==> !IsTextRole(s.role)
  {
    hide AppendRows, Records, RangeAligned, ValidRange, TableRange, AllFilled, Flat, RecordsInOrder;
    var spans, text, records := LayoutsOf(a, table, rows), AppendRows(a, table, rows).text, Records(a, table, rows, rows[0]);
    TableRangeGood(a, table, rows);
    TableRecordsGood(a, table, rows, rows[0]);
    forall s | s in spans ensures s.pageNumber == 1 && GoodRange(text, s.range) && |a.text| <= s.range.startChar && !IsTextRole(s.role) {
      var i :| 0 <= i < |spans| && spans[i] == s;
      if i > 0 {
        assert RecordGood(text, |a.text|, rows, records[i - 1]);
      }
    }
  }

  lemma NoTextSpans(spans: seq<LayoutSpan>, t: TableSpan)
    requires forall s :: s in spans ==> !IsTextRole(s.role)
    ensures TextSpansOrdered(spans) && TablesOrdered([t]) && TextApartFromTables(spans, [t])
  {
  }

  lemma TablesAlignedSnoc(text: string, tables: seq<TableSpan>, t: TableSpan)
    requires TablesAligned(text, tables)
    requires t.pageNumber == 1 && ValidTable(t) && RangeAligned(text, t.range) && CellsAligned(text, t.cells)
    ensures TablesAligned(text, tables + [t])
  {
    hide ValidTable, RangeAligned, CellsAligned;
  }

  lemma TablePlaced(x: Extraction, rows: seq<seq<string>>)
    requires Placed(x.ingested) && rows != [] && AllFilled(rows)
    ensures Placed(AppendTable(x, rows).ingested)
  {
    hide WellAssembled, LayoutsAligned, TablesAligned, InOrder, EndsBy, AllFilled, Separated, AppendRows, Records, ValidTable, RangeAligned,
      CellsAligned, LayoutsOf, CellSpans, GoodRange, TextSpansOrdered, TextApartFromTables;
    var a, g := Separated(x), x.ingested;
    var b, spans, t := AppendRows(a, x.tableIndex, rows), LayoutsOf(a, x.tableIndex, rows), TableOf(a, x.tableIndex, rows);
    SeparatedIsAssembled(x);
    RowsAssembled(a, x.tableIndex, rows);
    TableIsItsText(a, x.tableIndex, rows);
    var grown := a.text[|g.Text()|..] + TableText(rows);
    assert b.text == g.Text() + grown;
    LayoutsStayAligned(g.Text(), grown, g.layoutSpans);
    TablesStayAligned(g.Text(), grown, g.tableSpans);
    TableLayoutsPlaced(a, x.tableIndex, rows);
    LayoutsAlignedConcat(b.text, g.layoutSpans, spans);
    TableIsValid(a, x.tableIndex, rows);
    TablesAlignedSnoc(b.text, g.tableSpans, t);
    AlignedEndsBy(g);
    NoTextSpans(spans, t);
    TableRangeGood(a, x.tableIndex, rows);
    OrderGrows(g, b, spans, [t], |g.Text()|);
  }

  /** Whatever blocks and tables the parser emits, the ingested text is sound. */
  lemma {:induction false} AssembledIsSound(items: seq<Item>)
    requires ItemsOk(items)
    ensures var x := Assemble(items); x.Some? ==> Sound(x.value.ingested) && Named(x.value)
  {
    hide Placed, Named, IdsUnique, AppendBlock, AppendTable, Sound;
    if items == [] {
      NothingIsSound();
    } else {
      var front, last := items[..|items| - 1], items[|items| - 1];
      AssembledIsSound(front);
      if Assemble(items).Some? {
        SoundParts(Assemble(front).value.ingested);
        AppendIsSound(Assemble(front).value, last);
      }
    }
  }

  lemma NothingIsSound()
    ensures Sound(NOTHING_EXTRACTED.ingested) && Named(NOTHING_EXTRACTED)
  {
  }

  lemma SoundParts(g: Ingested)
    ensures Sound(g) <==> Placed(g) && IdsUnique(g)
  {
    hide WellAssembled, LayoutsAligned, TablesAligned, InOrder, IdsUnique;
  }

  lemma AppendIsSound(x: Extraction, item: Item)
    requires ItemOk(item) && Placed(x.ingested) && Named(x)
    ensures var y := AppendItem(x, item); y.Some? ==> Sound(y.value.ingested) && Named(y.value)
  {
    hide Placed, Named, IdsUnique, AppendBlock, AppendTable, Sound;
    match item {
      case BlockItem(role, text) =>
        BlockPlaced(x, role, text);
        BlockNames(x, role, text);
        NamedIdsAreUnique(AppendBlock(x, role, text));
        SoundParts(AppendBlock(x, role, text).ingested);
      case TableItem(rows) =>
        if AllFilled(rows) {
          TablePlaced(x, rows);
          TableNames(x, rows);
          NamedIdsAreUnique(AppendTable(x, rows));
          SoundParts(AppendTable(x, rows).ingested);
        }
    }
  }
}
