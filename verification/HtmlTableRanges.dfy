/** What the offsets computed in html_tables.py mean: each cell range is its cell's text, in row-major
    order, inside the table. */
module HtmlTableRanges {
  import opened Utf8
  import opened Contracts
  import opened Whitespace
  import opened BoundaryContracts
  import opened TextAssembly
  import opened IngestedText
  import opened HtmlTables

  /** The cells in row-major order. */
  function Flat(rows: seq<seq<string>>): seq<string> {
    if rows == [] then [] else Flat(rows[..|rows| - 1]) + rows[|rows| - 1]
  }

  /** `"\n".join(" ".join(row) for row in rows)` */
  function TableText(rows: seq<seq<string>>): string {
    if rows == [] then []
    else if |rows| == 1 then JoinWithSpace(rows[0])
    else TableText(rows[..|rows| - 1]) + "\n" + JoinWithSpace(rows[|rows| - 1])
  }

  lemma {:induction false} LocalStartAfter(row: seq<string>)
    requires row != []
    ensures LocalStart(row, |row|) == |JoinWithSpace(row)| + 1
  {
    var front := row[..|row| - 1];
    LocalStartOfPrefix(row, |row| - 1);
    if front != [] {
      LocalStartAfter(front);
    }
  }

  lemma {:induction false} LocalStartOfPrefix(row: seq<string>, k: nat)
    requires k <= |row|
    ensures forall c :: 0 <= c <= k ==> LocalStart(row[..k], c) == LocalStart(row, c)
  {
    forall c | 0 <= c <= k ensures LocalStart(row[..k], c) == LocalStart(row, c) {
      SameLocalStart(row, k, c);
    }
  }

  lemma {:induction false} SameLocalStart(row: seq<string>, k: nat, c: nat)
    requires c <= k <= |row|
    ensures LocalStart(row[..k], c) == LocalStart(row, c)
  {
    if c > 0 {
      SameLocalStart(row, k, c - 1);
    }
  }

  /** Cell `c` is found in the line where the running offset says. */
  lemma {:induction false} CellInLine(row: seq<string>, c: nat)
    requires c < |row|
    ensures var line, local := JoinWithSpace(row), LocalStart(row, c);
      local + |row[c]| <= |line| && line[local..local + |row[c]|] == row[c]
    decreases |row|
  {
    var front, last := row[..|row| - 1], row[|row| - 1];
    LocalStartOfPrefix(row, |row| - 1);
    if c < |front| {
      CellInLine(front, c);
    } else if front != [] {
      LocalStartAfter(front);
      assert JoinWithSpace(row) == JoinWithSpace(front) + " " + last;
    }
  }

  /** A cell's record is good: its slice of the text is the cell that its indices name. */
  predicate RecordGood(text: string, from: nat, rows: seq<seq<string>>, r: CellRecord) {
    && r.rowIndex < |rows| && r.columnIndex < |rows[r.rowIndex]|
    && GoodRange(text, r.range) && from <= r.range.startChar
    && text[r.range.startChar..r.range.endChar] == rows[r.rowIndex][r.columnIndex]
  }

  predicate Before(a: CellRecord, b: CellRecord) {
    && (a.rowIndex < b.rowIndex || (a.rowIndex == b.rowIndex && a.columnIndex < b.columnIndex))
    && a.range.endChar < b.range.startChar
  }

  predicate RecordsInOrder(records: seq<CellRecord>) {
    forall i, j :: 0 <= i < j < |records| ==> Before(records[i], records[j])
  }

  predicate RecordsGood(text: string, from: nat, rows: seq<seq<string>>, records: seq<CellRecord>) {
    forall i :: 0 <= i < |records| ==> RecordGood(text, from, rows, records[i])
  }

  lemma PrefixOfLine(a: Assembled, line: string, k: nat)
    requires k <= |line|
    ensures ByteLength(a.text) + |Encode(Slice(line, 0, k))| == PrefixBytes(a.text + line, |a.text| + k)
  {
    assert (a.text + line)[..|a.text| + k] == a.text + line[..k];
    assert Slice(line, 0, k) == line[..k];
    EncodeConcat(a.text, line[..k]);
  }

  lemma LineRangeGood(a: Assembled, line: string, i: nat, j: nat)
    requires i < j <= |line|
    ensures GoodRange(a.text + line, LineRange(a, line, i, j))
  {
    hide Encode, PrefixBytes;
    PrefixOfLine(a, line, i);
    PrefixOfLine(a, line, j);
    PrefixBytesMonotone(a.text + line, |a.text| + i, |a.text| + j);
  }

  lemma RowRecordGood(a: Assembled, row: seq<string>, c: nat)
    requires c < |row| && row[c] != []
    ensures var r, text := CellRange(a, row, c), a.text + JoinWithSpace(row);
      && GoodRange(text, r) && |a.text| <= r.startChar && text[r.startChar..r.endChar] == row[c]
  {
    hide JoinWithSpace, Encode, GoodRange, LocalStart, CellRange;
    var line, local, r := JoinWithSpace(row), LocalStart(row, c), CellRange(a, row, c);
    CellRangeGood(a, row, c);
    CellRangeChars(a, row, c);
    CellInLine(row, c);
    SliceOfConcat(a.text, line, r, local, local + |row[c]|);
    assert (a.text + line)[r.startChar..r.endChar] == line[local..local + |row[c]|];
  }

  lemma CellRangeGood(a: Assembled, row: seq<string>, c: nat)
    requires c < |row| && row[c] != []
    ensures GoodRange(a.text + JoinWithSpace(row), CellRange(a, row, c))
  {
    hide JoinWithSpace, GoodRange, LocalStart, LineRange;
    CellInLine(row, c);
    LineRangeGood(a, JoinWithSpace(row), LocalStart(row, c), LocalStart(row, c) + |row[c]|);
  }

  lemma SliceOfConcat(front: string, back: string, r: TextRange, i: nat, j: nat)
    requires i <= j <= |back| && r.startChar == |front| + i && r.endChar == |front| + j
    ensures (front + back)[r.startChar..r.endChar] == back[i..j]
  {
  }

  lemma {:induction false} LocalStartIncreases(row: seq<string>, c: nat, d: nat)
    requires c < d <= |row|
    ensures LocalStart(row, c) + |row[c]| < LocalStart(row, d)
  {
    if c < d - 1 {
      LocalStartIncreases(row, c, d - 1);
    }
  }

  /** The records of one row are good in the text that ends with that row, and in order. */
  lemma RowRecordsGood(a: Assembled, from: nat, rows: seq<seq<string>>, headers: seq<string>)
    requires rows != [] && RowFilled(rows[|rows| - 1]) && from <= |a.text|
    ensures var row := rows[|rows| - 1];
      var records := RowRecords(a, row, |rows| - 1, headers, |row|);
      RecordsGood(a.text + JoinWithSpace(row), from, rows, records) && RecordsInOrder(records)
  {
    hide JoinWithSpace, GoodRange, CellRange, HeaderLabels;
    var row := rows[|rows| - 1];
    var records := RowRecords(a, row, |rows| - 1, headers, |row|);
    forall c | 0 <= c < |records| ensures RecordGood(a.text + JoinWithSpace(row), from, rows, records[c]) {
      RowRecordGood(a, row, c);
    }
    forall c, d | 0 <= c < d < |records| ensures Before(records[c], records[d]) {
      LocalStartIncreases(row, c, d);
      CellRangeChars(a, row, c);
      CellRangeChars(a, row, d);
    }
  }

  lemma CellRangeChars(a: Assembled, row: seq<string>, c: nat)
    requires c < |row|
    ensures CellRange(a, row, c).startChar == |a.text| + LocalStart(row, c)
    ensures CellRange(a, row, c).endChar == |a.text| + LocalStart(row, c) + |row[c]|
  {
  }

  lemma RecordsStayGood(text: string, more: string, from: nat, front: seq<seq<string>>, rows: seq<seq<string>>,
                        records: seq<CellRecord>)
    requires RecordsGood(text, from, front, records) && front <= rows
    ensures RecordsGood(text + more, from, rows, records)
  {
    hide RangeAligned, ValidRange;
    forall i | 0 <= i < |records| ensures RecordGood(text + more, from, rows, records[i]) {
      assert RecordGood(text, from, front, records[i]);
      RangeStaysAligned(text, more, records[i].range);
      RangeInText(text, records[i].range);
    }
  }

  lemma RangeInText(text: string, r: TextRange)
    requires RangeAligned(text, r)
    ensures r.startChar <= r.endChar <= |text|
  {
  }

  /** All records are of rows before `row` and end before `at`. */
  predicate AllBefore(records: seq<CellRecord>, row: nat, at: nat) {
    forall i :: 0 <= i < |records| ==> records[i].rowIndex < row && records[i].range.endChar < at
  }

  predicate AllFrom(records: seq<CellRecord>, row: nat, at: nat) {
    forall i :: 0 <= i < |records| ==> records[i].rowIndex == row && records[i].range.startChar >= at
  }

  lemma GoodRecordsEnd(text: string, from: nat, rows: seq<seq<string>>, records: seq<CellRecord>)
    requires RecordsGood(text, from, rows, records)
    ensures AllBefore(records, |rows|, |text| + 1)
  {
    hide RangeAligned, ValidRange;
    forall i | 0 <= i < |records| ensures records[i].rowIndex < |rows| && records[i].range.endChar < |text| + 1 {
      assert RecordGood(text, from, rows, records[i]);
      RangeInText(text, records[i].range);
    }
  }

  lemma RowRecordsFrom(a: Assembled, row: seq<string>, rowIndex: nat, headers: seq<string>)
    ensures AllFrom(RowRecords(a, row, rowIndex, headers, |row|), rowIndex, |a.text|)
  {
    hide HeaderLabels, JoinWithSpace, Encode;
  }

  lemma RecordsConcat(text: string, from: nat, rows: seq<seq<string>>, before: seq<CellRecord>, after: seq<CellRecord>, row: nat, at: nat)
    requires RecordsGood(text, from, rows, before) && RecordsGood(text, from, rows, after)
    requires RecordsInOrder(before) && RecordsInOrder(after)
    requires AllBefore(before, row, at) && AllFrom(after, row, at)
    ensures RecordsGood(text, from, rows, before + after) && RecordsInOrder(before + after)
  {
    hide RecordGood;
    var all := before + after;
    forall i, j | 0 <= i < j < |all| ensures Before(all[i], all[j]) {
      if j >= |before| {
        assert all[j] == after[j - |before|];
        if i >= |before| {
          assert Before(after[i - |before|], after[j - |before|]);
        }
      }
    }
  }

  /** The text before row `n` of a table that follows `a`. */
  function AtRow(a: Assembled, table: nat, rows: seq<seq<string>>): Assembled
    requires rows != []
  {
    BeforeRow(AppendRows(a, table, rows[..|rows| - 1]), table, |rows| - 1)
  }

  lemma AppendRowsText(a: Assembled, table: nat, rows: seq<seq<string>>)
    requires rows != []
    ensures AtRow(a, table, rows).text ==
      AppendRows(a, table, rows[..|rows| - 1]).text + (if |rows| == 1 then "" else "\n")
    ensures AppendRows(a, table, rows).text == AtRow(a, table, rows).text + JoinWithSpace(rows[|rows| - 1])
  {
    hide JoinWithSpace, NextRange;
  }

  /** The table's text is its rows, one a line. */
  lemma {:induction false} TableIsItsText(a: Assembled, table: nat, rows: seq<seq<string>>)
    ensures AppendRows(a, table, rows).text == a.text + TableText(rows)
  {
    hide JoinWithSpace, NextRange;
    if rows != [] {
      var front := rows[..|rows| - 1];
      TableIsItsText(a, table, front);
      AppendRowsText(a, table, rows);
      assert |rows| == 1 ==> front == [];
    }
  }

  /** Every cell of the table has one good record, and the records are in row-major and text order. */
  lemma {:induction false} TableRecordsGood(a: Assembled, table: nat, rows: seq<seq<string>>, headers: seq<string>)
    requires AllFilled(rows)
    ensures RecordsGood(AppendRows(a, table, rows).text, |a.text|, rows, Records(a, table, rows, headers))
    ensures RecordsInOrder(Records(a, table, rows, headers)) && |Records(a, table, rows, headers)| == |Flat(rows)|
  {
    hide JoinWithSpace, RecordGood, Before, CellRange, HeaderLabels, RowFilled;
    if rows != [] {
      var n, row := |rows| - 1, rows[|rows| - 1];
      TableRecordsGood(a, table, rows[..n], headers);
      TableStep(a, table, rows, headers);
    }
  }

  lemma TableStep(a: Assembled, table: nat, rows: seq<seq<string>>, headers: seq<string>)
    requires rows != [] && RowFilled(rows[|rows| - 1])
    requires var front := rows[..|rows| - 1]; var before := Records(a, table, front, headers);
      RecordsGood(AppendRows(a, table, front).text, |a.text|, front, before) && RecordsInOrder(before)
    ensures RecordsGood(AppendRows(a, table, rows).text, |a.text|, rows, Records(a, table, rows, headers))
    ensures RecordsInOrder(Records(a, table, rows, headers))
  {
    hide JoinWithSpace, RecordsGood, RecordGood, RecordsInOrder, RowRecords, AppendRows, RowFilled, BeforeRow, AllFrom;
    var front, row, atRow := rows[..|rows| - 1], rows[|rows| - 1], AtRow(a, table, rows);
    var before, after := Records(a, table, front, headers), RowRecords(atRow, row, |rows| - 1, headers, |row|);
    var text, whole := AppendRows(a, table, front).text, AppendRows(a, table, rows).text;
    var separator := if |rows| == 1 then "" else "\n";
    AppendRowsText(a, table, rows);
    assert whole == text + (separator + JoinWithSpace(row));
    RecordsStayGood(text, separator + JoinWithSpace(row), |a.text|, front, rows, before);
    TableIsItsText(a, table, front);
    RowRecordsGood(atRow, |a.text|, rows, headers);
    RowRecordsFrom(atRow, row, |rows| - 1, headers);
    GoodRecordsEnd(text, |a.text|, front, before);
    assert AllBefore(before, |rows| - 1, |atRow.text|) by {
      assert |rows| == 1 ==> before == [];
    }
    RecordsConcat(whole, |a.text|, rows, before, after, |rows| - 1, |atRow.text|);
    RecordsSnoc(a, table, rows, headers);
  }

  lemma RecordsSnoc(a: Assembled, table: nat, rows: seq<seq<string>>, headers: seq<string>)
    requires rows != []
    ensures Records(a, table, rows, headers) == Records(a, table, rows[..|rows| - 1], headers)
      + RowRecords(AtRow(a, table, rows), rows[|rows| - 1], |rows| - 1, headers, |rows[|rows| - 1]|)
  {
  }
}
