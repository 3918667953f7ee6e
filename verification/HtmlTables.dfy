/** ingestion/html_tables.py: the rows of a table become lines of text, its cells become ranges. */
module HtmlTables {
  import opened Utf8
  import opened Wrappers
  import opened Contracts
  import opened Whitespace
  import opened BoundaryContracts
  import opened TextAssembly

  datatype CellRecord = CellRecord(rowIndex: nat, columnIndex: nat, range: TextRange, headerLabels: seq<string>)

  /** `_header_labels` */
  function HeaderLabels(headers: seq<string>, rowIndex: nat, columnIndex: nat): seq<string> {
    if rowIndex == 0 || columnIndex >= |headers| || headers[columnIndex] == "" then [] else [headers[columnIndex]]
  }

  /** Where cell `column` starts in the line of its row. */
  function LocalStart(row: seq<string>, column: nat): nat
    requires column <= |row|
  {
    if column == 0 then 0 else LocalStart(row, column - 1) + |row[column - 1]| + 1
  }

  /** Characters `i..j` of a line that is appended to `a` */
  function LineRange(a: Assembled, line: string, i: nat, j: nat): TextRange {
    TextRange(|a.text| + i, |a.text| + j, ByteLength(a.text) + |Encode(Slice(line, 0, i))|, ByteLength(a.text) + |Encode(Slice(line, 0, j))|)
  }

  function CellRange(a: Assembled, row: seq<string>, column: nat): TextRange
    requires column < |row|
  {
    LineRange(a, JoinWithSpace(row), LocalStart(row, column), LocalStart(row, column) + |row[column]|)
  }

  /** The records of the first `upTo` cells of a row that is appended to `a`. */
  function RowRecords(a: Assembled, row: seq<string>, rowIndex: nat, headers: seq<string>, upTo: nat): seq<CellRecord>
    requires upTo <= |row|
  {
    seq(upTo, c requires 0 <= c < upTo => CellRecord(rowIndex, c, CellRange(a, row, c), HeaderLabels(headers, rowIndex, c)))
  }

  function BeforeRow(a: Assembled, table: nat, rowIndex: nat): Assembled {
    if rowIndex == 0 then a else Append(a, "\n", HtmlRowSeparator(table, rowIndex - 1), Generated)
  }

  function AppendRows(a: Assembled, table: nat, rows: seq<seq<string>>): Assembled {
    if rows == [] then a
    else
      var front := AppendRows(a, table, rows[..|rows| - 1]);
      Append(BeforeRow(front, table, |rows| - 1), JoinWithSpace(rows[|rows| - 1]), HtmlRow(table, |rows| - 1), Unmapped)
  }

  function Records(a: Assembled, table: nat, rows: seq<seq<string>>, headers: seq<string>): seq<CellRecord> {
    if rows == [] then []
    else
      var n, last := |rows| - 1, rows[|rows| - 1];
      Records(a, table, rows[..n], headers)
      + RowRecords(BeforeRow(AppendRows(a, table, rows[..n]), table, n), last, n, headers, |last|)
  }

  function TableRange(a: Assembled, table: nat, rows: seq<seq<string>>): TextRange {
    var after := AppendRows(a, table, rows);
    TextRange(|a.text|, |after.text|, ByteLength(a.text), ByteLength(after.text))
  }

  function CellSpans(id: TableId, records: seq<CellRecord>): seq<TableCellSpan> {
    seq(|records|, i requires 0 <= i < |records| =>
      TableCellSpan(HtmlCellId(id, records[i].rowIndex, records[i].columnIndex), records[i].range,
        records[i].rowIndex, records[i].columnIndex, records[i].headerLabels))
  }

  function CellLayouts(table: nat, records: seq<CellRecord>): seq<LayoutSpan> {
    seq(|records|, i requires 0 <= i < |records| =>
      LayoutSpan(HtmlCellLayout(table, records[i].rowIndex, records[i].columnIndex), 1, TableCellRole, records[i].range))
  }

  function TableOf(a: Assembled, table: nat, rows: seq<seq<string>>): TableSpan
    requires rows != []
  {
    var range := TableRange(a, table, rows);
    var id := HtmlTableId(table, range.startChar, range.endChar);
    TableSpan(id, 1, range, CellSpans(id, Records(a, table, rows, rows[0])))
  }

  function LayoutsOf(a: Assembled, table: nat, rows: seq<seq<string>>): seq<LayoutSpan>
    requires rows != []
  {
    [LayoutSpan(HtmlTableLayout(table), 1, TableRole, TableRange(a, table, rows))]
    + CellLayouts(table, Records(a, table, rows, rows[0]))
  }

  predicate RowFilled(row: seq<string>) {
    row != [] && forall c :: 0 <= c < |row| ==> row[c] != []
  }

  predicate AllFilled(rows: seq<seq<string>>) {
    forall k :: 0 <= k < |rows| ==> RowFilled(rows[k])
  }

  lemma JoinEmpty(row: seq<string>)
    ensures JoinWithSpace(row) == [] ==> !RowFilled(row)
    ensures RowFilled(row) ==> JoinWithSpace(row) != []
    ensures row == [] ==> JoinWithSpace(row) == []
  {
    if |row| > 1 {
      assert |JoinWithSpace(row)| > 0;
    }
  }

  /** `append_html_table_rows`: it fails exactly when a row or a cell is empty. */
  method AppendHtmlTableRows(rows: seq<seq<string>>, assembler: TextAssembler, table: nat)
    returns (r: Option<(TableSpan, seq<LayoutSpan>)>)
    requires rows != [] && assembler.Valid()
    modifies assembler
    ensures assembler.Valid()
    ensures r.Some? <==> AllFilled(rows)
    ensures r.Some? ==> assembler.State() == AppendRows(old(assembler.State()), table, rows)
    ensures r.Some? ==> r.value == (TableOf(old(assembler.State()), table, rows), LayoutsOf(old(assembler.State()), table, rows))
  {
    hide JoinWithSpace, CellRange, HeaderLabels, Encode, Append, ByteLength;
    ghost var a := assembler.State();
    var startChar, startByte := assembler.currentChar, assembler.currentByte;
    var headers := rows[0];
    var records: seq<CellRecord> := [];
    for i := 0 to |rows|
      invariant assembler.Valid()
      invariant assembler.State() == AppendRows(a, table, rows[..i])
      invariant records == Records(a, table, rows[..i], headers)
      invariant AllFilled(rows[..i])
    {
      assert rows[..i + 1][..i] == rows[..i];
      if i > 0 {
        var separator := assembler.AddSegment("\n", HtmlRowSeparator(table, i - 1), Generated);
      }
      var row := rows[i];
      var line := JoinWithSpace(row);
      ghost var atRow := assembler.State();
      var rowStartChar, rowStartByte := assembler.currentChar, assembler.currentByte;
      JoinEmpty(row);
      var range := assembler.AddSegment(line, HtmlRow(table, i), Unmapped);
      if range.None? {
        return None;
      }
      var cells := RowCells(atRow, row, i, headers, line, rowStartChar, rowStartByte);
      if cells.None? {
        return None;
      }
      records := records + cells.value;
    }
    assert rows[..|rows|] == rows;
    var id := HtmlTableId(table, startChar, assembler.currentChar);
    var range := TextRange(startChar, assembler.currentChar, startByte, assembler.currentByte);
    return Some((TableSpan(id, 1, range, CellSpans(id, records)),
                 [LayoutSpan(HtmlTableLayout(table), 1, TableRole, range)] + CellLayouts(table, records)));
  }

  /** The loop over the cells of one row. */
  method RowCells(ghost a: Assembled, row: seq<string>, rowIndex: nat, headers: seq<string>, line: string,
                  rowStartChar: nat, rowStartByte: nat) returns (r: Option<seq<CellRecord>>)
    requires line == JoinWithSpace(row) && rowStartChar == |a.text| && rowStartByte == ByteLength(a.text) && row != []
    ensures r.Some? <==> RowFilled(row)
    ensures r.Some? ==> r.value == RowRecords(a, row, rowIndex, headers, |row|)
  {
    hide JoinWithSpace, HeaderLabels, Encode;
    var records: seq<CellRecord> := [];
    var local := 0;
    for c := 0 to |row|
      invariant records == RowRecords(a, row, rowIndex, headers, c)
      invariant local == LocalStart(row, c)
      invariant forall k :: 0 <= k < c ==> row[k] != []
    {
      if row[c] == "" {
        return None;
      }
      var end := local + |row[c]|;
      var range := TextRange(rowStartChar + local, rowStartChar + end,
        rowStartByte + |Encode(Slice(line, 0, local))|, rowStartByte + |Encode(Slice(line, 0, end))|);
      records := records + [CellRecord(rowIndex, c, range, HeaderLabels(headers, rowIndex, c))];
      local := local + |row[c]| + 1;
    }
    return Some(records);
  }
}
