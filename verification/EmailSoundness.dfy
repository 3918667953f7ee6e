/** Moving a sound body behind the headers keeps it sound, and every range keeps its text. */
module EmailSoundness {
  import opened Utf8
  import opened Wrappers
  import opened Contracts
  import opened Whitespace
  import opened BoundaryContracts
  import opened Sorting
  import opened TextAssembly
  import opened LayoutBlocks
  import opened IngestedText
  import opened HtmlSlices
  import opened EmailIngestion

  /** A range of the body, moved behind `front`, is the same text. */
  lemma ShiftedRange(front: string, body: string, r: TextRange)
    requires RangeAligned(body, r)
    ensures var s := ShiftRange(r, |front|, ByteLength(front));
      && RangeAligned(front + body, s) && (ValidRange(r) ==> ValidRange(s))
      && (front + body)[s.startChar..s.endChar] == body[r.startChar..r.endChar]
  {
    hide Encode;
    ShiftedPrefix(front, body, r.startChar);
    ShiftedPrefix(front, body, r.endChar);
    assert (front + body)[|front| + r.startChar..|front| + r.endChar] == body[r.startChar..r.endChar];
  }

  lemma ShiftedPrefix(front: string, body: string, k: nat)
    requires k <= |body|
    ensures PrefixBytes(front + body, k + |front|) == PrefixBytes(body, k) + ByteLength(front)
  {
    assert (front + body)[..k + |front|] == front + body[..k];
    EncodeConcat(front, body[..k]);
  }

  lemma ImportKeepsAssembled(a: Assembled, b: Assembled)
    requires WellAssembled(a) && WellAssembled(b)
    ensures WellAssembled(Import(a, b))
  {
    hide RangeAligned, ValidRange, ByteLength;
    var c := Import(a, b);
    LengthOfAppended(a.text, b.text);
    forall k | 0 <= k < |c.sourceMap|
      ensures StartsAtPreviousEnd(c.sourceMap, k) && RangeAligned(c.text, c.sourceMap[k].range)
      ensures ValidRange(c.sourceMap[k].range) && c.sourceMap[k].kind != SourceBacked
    {
      if k < |a.sourceMap| {
        assert StartsAtPreviousEnd(a.sourceMap, k);
        RangeStaysAligned(a.text, b.text, a.sourceMap[k].range);
      } else {
        var j := k - |a.sourceMap|;
        assert StartsAtPreviousEnd(b.sourceMap, j) && b.sourceMap[j] in b.sourceMap;
        ShiftedRange(a.text, b.text, b.sourceMap[j].range);
      }
    }
    ImportEnds(a, b);
  }

  lemma ImportEnds(a: Assembled, b: Assembled)
    requires PreviousEnd(a.sourceMap, |a.sourceMap|) == (|a.text|, ByteLength(a.text))
    requires PreviousEnd(b.sourceMap, |b.sourceMap|) == (|b.text|, ByteLength(b.text))
    ensures PreviousEnd(Import(a, b).sourceMap, |Import(a, b).sourceMap|) == (|Import(a, b).text|, ByteLength(Import(a, b).text))
  {
    hide ByteLength;
    LengthOfAppended(a.text, b.text);
    if b.sourceMap == [] {
      NoBytes();
      assert a.text + [] == a.text;
    }
  }

  lemma NoBytes()
    ensures ByteLength([]) == 0
  {
  }

  lemma HeaderAssembled(a: Assembled, h: Header, position: nat, count: nat)
    requires WellAssembled(a) && Strip(h.value) != []
    ensures WellAssembled(AppendHeader(a, h, position, count))
  {
    hide WellAssembled, Append, Strip, Label;
    LabelIsText(h.place);
    AppendKeepsAssembled(a, Label(h.place), EmailHeaderLabel(h.place), Generated);
    var labelled := Append(a, Label(h.place), EmailHeaderLabel(h.place), Generated);
    AppendKeepsAssembled(labelled, Strip(h.value), EmailHeaderValue(h.place), Unmapped);
    var valued := Append(labelled, Strip(h.value), EmailHeaderValue(h.place), Unmapped);
    AppendKeepsAssembled(valued, if position == count - 1 then "\n\n" else "\n", EmailHeaderSeparator(position), Generated);
  }

  lemma {:induction false} HeadersAssembled(included: seq<Header>, k: nat)
    requires k <= |included| && forall h :: h in included ==> Strip(h.value) != []
    ensures WellAssembled(HeadersUpTo(included, k))
  {
    hide WellAssembled, AppendHeader, Strip;
    if k == 0 {
      NothingAssembled();
    } else {
      HeadersAssembled(included, k - 1);
      HeaderAssembled(HeadersUpTo(included, k - 1), included[k - 1], k - 1, |included|);
    }
  }

  // Ids

  predicate HeaderIdBelow(id: SegmentId, place: nat, position: nat) {
    match id
    case EmailHeaderLabel(h) => h < place
    case EmailHeaderValue(h) => h < place
    case EmailHeaderSeparator(p) => p < position
    case _ => false
  }

  predicate HeadersNamed(a: Assembled, place: nat, position: nat) {
    && NoRepeats(SegmentIds(a.sourceMap))
    && forall k :: 0 <= k < |a.sourceMap| ==> HeaderIdBelow(a.sourceMap[k].segmentId, place, position)
  }

  lemma HeaderNames(a: Assembled, h: Header, place: nat, position: nat, count: nat)
    requires HeadersNamed(a, place, position) && place <= h.place
    ensures HeadersNamed(AppendHeader(a, h, position, count), h.place + 1, position + 1)
  {
    hide Strip, Label, NextRange;
    var before, after := SegmentIds(a.sourceMap), SegmentIds(AppendHeader(a, h, position, count).sourceMap);
    assert after == before + [EmailHeaderLabel(h.place), EmailHeaderValue(h.place), EmailHeaderSeparator(position)];
    forall k | 0 <= k < |before| ensures HeaderIdBelow(before[k], place, position) {
      assert before[k] == a.sourceMap[k].segmentId;
    }
    forall k | 0 <= k < |after| ensures HeaderIdBelow(AppendHeader(a, h, position, count).sourceMap[k].segmentId, h.place + 1, position + 1) {
      assert after[k] == AppendHeader(a, h, position, count).sourceMap[k].segmentId;
    }
  }

  lemma {:induction false} HeadersAreNamed(included: seq<Header>, k: nat)
    requires k <= |included| && forall i, j :: 0 <= i < j < |included| ==> included[i].place < included[j].place
    ensures HeadersNamed(HeadersUpTo(included, k), if k == 0 then 0 else included[k - 1].place + 1, k)
  {
    hide HeadersNamed, AppendHeader;
    if k == 0 {
      assert HeadersNamed(HeadersUpTo(included, 0), 0, 0) by {
        NoHeadersNamed();
      }
    } else {
      HeadersAreNamed(included, k - 1);
      HeaderNames(HeadersUpTo(included, k - 1), included[k - 1], if k == 1 then 0 else included[k - 2].place + 1, k - 1, |included|);
    }
  }

  lemma NoHeadersNamed()
    ensures HeadersNamed(Assembled("", []), 0, 0)
  {
  }

  lemma ImportedIdsDiffer(a: Assembled, b: Assembled, place: nat, position: nat)
    requires HeadersNamed(a, place, position) && NoRepeats(SegmentIds(b.sourceMap))
    ensures NoRepeats(SegmentIds(Import(a, b).sourceMap))
  {
    hide ShiftRange, ByteLength;
    var front, back, ids := SegmentIds(a.sourceMap), SegmentIds(b.sourceMap), SegmentIds(Import(a, b).sourceMap);
    forall k | 0 <= k < |ids| ensures ids[k] == if k < |front| then front[k] else EmailBodySegment(back[k - |front|]) {
    }
    forall i, j | 0 <= i < j < |ids| ensures ids[i] != ids[j] {
      if i < |front| <= j {
        assert HeaderIdBelow(a.sourceMap[i].segmentId, place, position);
      }
    }
  }

  lemma ShiftedIdsDiffer(g: Ingested, chars: nat, bytes: nat)
    requires NoRepeats(LayoutIdsOf(g.layoutSpans)) && NoRepeats(TableIdsOf(g.tableSpans))
    ensures NoRepeats(LayoutIdsOf(ShiftLayouts(g.layoutSpans, chars, bytes)))
    ensures NoRepeats(TableIdsOf(ShiftTables(g.tableSpans, chars, bytes)))
  {
    hide ShiftRange;
    var layouts, tables := LayoutIdsOf(g.layoutSpans), TableIdsOf(g.tableSpans);
    var layouts', tables' := LayoutIdsOf(ShiftLayouts(g.layoutSpans, chars, bytes)), TableIdsOf(ShiftTables(g.tableSpans, chars, bytes));
    forall i, j | 0 <= i < j < |layouts'| ensures layouts'[i] != layouts'[j] {
      assert layouts[i] != layouts[j];
    }
    forall i, j | 0 <= i < j < |tables'| ensures tables'[i] != tables'[j] {
      assert tables[i] != tables[j];
    }
  }

  // Ranges

  lemma ShiftedLayoutsAligned(front: string, body: string, spans: seq<LayoutSpan>)
    requires LayoutsAligned(body, spans)
    ensures LayoutsAligned(front + body, ShiftLayouts(spans, |front|, ByteLength(front)))
  {
    hide RangeAligned, ValidRange, ByteLength, ShiftRange;
    var shifted := ShiftLayouts(spans, |front|, ByteLength(front));
    forall s | s in shifted ensures s.pageNumber == 1 && GoodRange(front + body, s.range) {
      var k :| 0 <= k < |shifted| && shifted[k] == s;
      assert spans[k] in spans;
      ShiftedRange(front, body, spans[k].range);
    }
  }

  lemma ShiftedCellsDiffer(cells: seq<TableCellSpan>, chars: nat, bytes: nat)
    requires NoRepeats(CellIdsOf(cells))
    ensures NoRepeats(CellIdsOf(ShiftCells(cells, chars, bytes)))
  {
    hide ShiftRange;
    var ids, shifted := CellIdsOf(cells), CellIdsOf(ShiftCells(cells, chars, bytes));
    forall i, j | 0 <= i < j < |shifted| ensures shifted[i] != shifted[j] {
      assert ids[i] != ids[j];
    }
  }

  lemma ShiftedTableValid(front: string, body: string, t: TableSpan, chars: nat, bytes: nat)
    requires chars == |front| && bytes == ByteLength(front)
    requires ValidTable(t) && RangeAligned(body, t.range) && CellsAligned(body, t.cells)
    ensures var s := TableSpan(EmailBodyTable(t.tableId), 1, ShiftRange(t.range, chars, bytes), ShiftCells(t.cells, chars, bytes));
      ValidTable(s) && RangeAligned(front + body, s.range) && CellsAligned(front + body, s.cells)
  {
    hide RangeAligned, ByteLength, NoRepeats, CellIdsOf;
    ShiftedCellsDiffer(t.cells, chars, bytes);
    ShiftedRange(front, body, t.range);
    var cells := ShiftCells(t.cells, chars, bytes);
    forall c | c in cells
      ensures ValidRange(c.range) && Contains(ShiftRange(t.range, chars, bytes), c.range) && RangeAligned(front + body, c.range)
    {
      var k :| 0 <= k < |cells| && cells[k] == c;
      assert t.cells[k] in t.cells;
      ShiftedRange(front, body, t.cells[k].range);
    }
  }

  lemma ShiftedTablesAligned(front: string, body: string, tables: seq<TableSpan>)
    requires TablesAligned(body, tables)
    ensures TablesAligned(front + body, ShiftTables(tables, |front|, ByteLength(front)))
  {
    hide RangeAligned, ValidTable, ByteLength, ShiftRange, ShiftCells, CellsAligned;
    var shifted := ShiftTables(tables, |front|, ByteLength(front));
    forall t | t in shifted
      ensures t.pageNumber == 1 && ValidTable(t) && RangeAligned(front + body, t.range) && CellsAligned(front + body, t.cells)
    {
      var k :| 0 <= k < |shifted| && shifted[k] == t;
      assert tables[k] in tables;
      ShiftedTableValid(front, body, tables[k], |front|, ByteLength(front));
    }
  }

  lemma ShiftedInOrder(g: Ingested, assembled: Assembled, chars: nat, bytes: nat)
    requires InOrder(g)
    ensures InOrder(Ingested(assembled, ShiftLayouts(g.layoutSpans, chars, bytes), ShiftTables(g.tableSpans, chars, bytes)))
  {
    hide ShiftCells;
    var spans, tables := ShiftLayouts(g.layoutSpans, chars, bytes), ShiftTables(g.tableSpans, chars, bytes);
    forall s, t | s in spans && t in tables && IsTextRole(s.role) ensures Apart(s.range, t.range) {
      var i :| 0 <= i < |spans| && spans[i] == s;
      var k :| 0 <= k < |tables| && tables[k] == t;
      assert g.layoutSpans[i] in g.layoutSpans && g.tableSpans[k] in g.tableSpans;
    }
  }

  /** An email document is sound when its body is: ingested from HTML, or bare text. */
  lemma EmailIsSound(values: seq<Option<string>>, body: Ingested)
    requires body.Text() != [] && (HasStructure(body) ==> Sound(body))
    ensures Sound(WithBody(HeadersUpTo(Included(values), |Included(values)|), body))
  {
    hide Strip, Included, HeadersUpTo, WellAssembled, HeadersNamed, InOrder, LayoutsAligned, TablesAligned, NoRepeats, ShiftLayouts, ShiftTables, Import, Append, SegmentIds, LayoutIdsOf, TableIdsOf;
    var included := Included(values);
    var headers := HeadersUpTo(included, |included|);
    IncludedInOrder(values);
    HeadersAssembled(included, |included|);
    HeadersAreNamed(included, |included|);
    if HasStructure(body) {
      ImportKeepsAssembled(headers, body.assembled);
      ImportedIdsDiffer(headers, body.assembled, if included == [] then 0 else included[|included| - 1].place + 1, |included|);
      ShiftedIdsDiffer(body, |headers.text|, ByteLength(headers.text));
      ImportText(headers, body.assembled);
      ShiftedLayoutsAligned(headers.text, body.Text(), body.layoutSpans);
      ShiftedTablesAligned(headers.text, body.Text(), body.tableSpans);
      ShiftedInOrder(body, Import(headers, body.assembled), |headers.text|, ByteLength(headers.text));
    } else {
      PlainBodySound(headers, body, if included == [] then 0 else included[|included| - 1].place + 1, |included|);
    }
  }

  lemma ImportText(a: Assembled, b: Assembled)
    ensures Import(a, b).text == a.text + b.text
  {
  }

  lemma PlainBodySound(headers: Assembled, body: Ingested, place: nat, position: nat)
    requires WellAssembled(headers) && HeadersNamed(headers, place, position) && body.Text() != [] && !HasStructure(body)
    ensures Sound(WithBody(headers, body))
  {
    hide WellAssembled, NextRange;
    AppendKeepsAssembled(headers, body.Text(), EmailPlainBody, Unmapped);
    var before, after := SegmentIds(headers.sourceMap), SegmentIds(WithBody(headers, body).assembled.sourceMap);
    assert after == before + [EmailPlainBody];
    forall k | 0 <= k < |before| ensures before[k] != EmailPlainBody {
      assert HeaderIdBelow(headers.sourceMap[k].segmentId, place, position);
    }
  }

  /** Every layout span of the email document is the text that it was in the body. */
  lemma EmailKeepsSlices(headers: Assembled, body: Ingested, k: nat)
    requires Sound(body) && HasStructure(body) && k < |body.layoutSpans|
    ensures var email, r := WithBody(headers, body), body.layoutSpans[k].range;
      && |email.layoutSpans| == |body.layoutSpans| && r.startChar <= r.endChar <= |body.Text()|
      && email.layoutSpans[k].role == body.layoutSpans[k].role
      && SliceIs(email.Text(), email.layoutSpans[k].range, body.Text()[r.startChar..r.endChar])
  {
    hide WellAssembled, InOrder, TablesAligned, IdsUnique, ShiftTables, ShiftSegments, ByteLength;
    assert body.layoutSpans[k] in body.layoutSpans;
    ShiftedRange(headers.text, body.Text(), body.layoutSpans[k].range);
  }

  /** The range `r` of `a` and the range `s` of `b` are the same text. */
  predicate SameSlice(a: string, r: TextRange, b: string, s: TextRange) {
    r.startChar <= r.endChar <= |a| && s.startChar <= s.endChar <= |b| && a[r.startChar..r.endChar] == b[s.startChar..s.endChar]
  }

  /** So are the ranges of its tables and cells, which keep their place and their header labels. */
  lemma EmailKeepsTables(headers: Assembled, body: Ingested, k: nat, c: nat)
    requires Sound(body) && k < |body.tableSpans| && c < |body.tableSpans[k].cells|
    ensures var email, t := WithBody(headers, body), body.tableSpans[k];
      && |email.tableSpans| == |body.tableSpans| && |email.tableSpans[k].cells| == |t.cells|
      && SameSlice(body.Text(), t.range, email.Text(), email.tableSpans[k].range)
      && SameSlice(body.Text(), t.cells[c].range, email.Text(), email.tableSpans[k].cells[c].range)
      && var moved := email.tableSpans[k].cells[c];
      (moved.rowIndex, moved.columnIndex, moved.headerLabels) == (t.cells[c].rowIndex, t.cells[c].columnIndex, t.cells[c].headerLabels)
  {
    hide WellAssembled, InOrder, LayoutsAligned, IdsUnique, ShiftLayouts, ShiftSegments, ByteLength, ValidTable;
    var t := body.tableSpans[k];
    assert t in body.tableSpans && t.cells[c] in t.cells;
    ShiftedRange(headers.text, body.Text(), t.range);
    ShiftedRange(headers.text, body.Text(), t.cells[c].range);
  }

  /** Which headers are included: those of the message that are not blank, with their values. */
  lemma {:induction false} IncludedExactly(values: seq<Option<string>>, h: Header)
    ensures h in Included(values) <==> h.place < |values| && values[h.place] == Some(h.value) && !AllSpace(h.value)
  {
    hide Strip, AllSpace;
    if values != [] {
      IncludedExactly(values[..|values| - 1], h);
      BlankStrips(values[|values| - 1]);
    }
  }

  lemma BlankStrips(value: Option<string>)
    ensures value.Some? ==> (Strip(value.value) == [] <==> AllSpace(value.value))
  {
  }

  /** The three texts of header `i`: its label, its trimmed value and the line break, doubled after the last. */
  function HeaderParts(included: seq<Header>, i: nat): (r: seq<string>)
    requires i < |included| && included[i].place < |HEADER_LABELS|
    ensures |r| == 3
  {
    [HEADER_LABELS[included[i].place] + ": ", Strip(included[i].value), if i + 1 == |included| then "\n\n" else "\n"]
  }

  /** The text of the headers before `k`, line by line. */
  function HeaderText(included: seq<Header>, k: nat): string
    requires k <= |included| && forall h :: h in included ==> h.place < |HEADER_LABELS|
  {
    if k == 0 then ""
    else HeaderText(included, k - 1) + HeaderParts(included, k - 1)[0] + HeaderParts(included, k - 1)[1] + HeaderParts(included, k - 1)[2]
  }

  /** The segment is the given text, and unmapped or generated. */
  predicate SegmentShows(text: string, s: SourceMapSegment, wanted: string, kind: SegmentKind) {
    s.kind == kind && s.range.startChar <= s.range.endChar <= |text| && text[s.range.startChar..s.range.endChar] == wanted
  }

  predicate HeaderShows(a: Assembled, included: seq<Header>, i: nat)
    requires i < |included| && included[i].place < |HEADER_LABELS| && 3 * i + 2 < |a.sourceMap|
  {
    && SegmentShows(a.text, a.sourceMap[3 * i], HeaderParts(included, i)[0], Generated)
    && SegmentShows(a.text, a.sourceMap[3 * i + 1], HeaderParts(included, i)[1], Unmapped)
    && SegmentShows(a.text, a.sourceMap[3 * i + 2], HeaderParts(included, i)[2], Generated)
  }

  /** The headers are their lines in order, and of their segments exactly the values come from the message. */
  lemma {:induction false} HeadersShowTheirLines(included: seq<Header>, k: nat)
    requires k <= |included| && forall h :: h in included ==> h.place < |HEADER_LABELS|
    ensures var a := HeadersUpTo(included, k);
      && a.text == HeaderText(included, k) && |a.sourceMap| == 3 * k
      && forall i :: 0 <= i < k ==> HeaderShows(a, included, i)
  {
    hide HEADER_LABELS, HeaderParts, AppendHeader, HeaderShows;
    if k > 0 {
      HeadersShowTheirLines(included, k - 1);
      HeaderIsShown(HeadersUpTo(included, k - 1), included, k - 1);
      forall i | 0 <= i < k - 1 ensures HeaderShows(HeadersUpTo(included, k), included, i) {
        HeaderStaysShown(HeadersUpTo(included, k - 1), included, i, k - 1);
      }
    }
  }

  lemma HeaderIsShown(a: Assembled, included: seq<Header>, i: nat)
    requires i < |included| && included[i].place < |HEADER_LABELS| && |a.sourceMap| == 3 * i
    ensures var b := AppendHeader(a, included[i], i, |included|);
      && b.text == a.text + HeaderParts(included, i)[0] + HeaderParts(included, i)[1] + HeaderParts(included, i)[2]
      && |b.sourceMap| == 3 * i + 3 && b.sourceMap[..3 * i] == a.sourceMap && HeaderShows(b, included, i)
  {
    hide Strip, HEADER_LABELS, ByteLength;
    var parts := HeaderParts(included, i);
    LabelOfPlace(included, i);
    var x := a.text + parts[0];
    var y := x + parts[1];
    assert (y + parts[2])[|a.text|..|x|] == parts[0];
    assert (y + parts[2])[|x|..|y|] == parts[1];
    assert (y + parts[2])[|y|..] == parts[2];
  }

  lemma LabelOfPlace(included: seq<Header>, i: nat)
    requires i < |included| && included[i].place < |HEADER_LABELS|
    ensures Label(included[i].place) == HeaderParts(included, i)[0]
  {
  }

  lemma HeaderStaysShown(a: Assembled, included: seq<Header>, i: nat, k: nat)
    requires i < k < |included| && included[i].place < |HEADER_LABELS| && included[k].place < |HEADER_LABELS| && |a.sourceMap| == 3 * k
    requires HeaderShows(a, included, i)
    ensures var b := AppendHeader(a, included[k], k, |included|); |b.sourceMap| == 3 * k + 3 && HeaderShows(b, included, i)
  {
    hide HEADER_LABELS, HeaderParts, Label, Strip, NextRange;
    var b := AppendHeader(a, included[k], k, |included|);
    assert forall s: nat, e: nat :: s <= e <= |a.text| ==> b.text[s..e] == a.text[s..e];
  }

  /** The text of an email document: the lines of its headers, then the body. */
  lemma EmailText(values: seq<Option<string>>, body: Ingested)
    requires |values| <= |HEADER_LABELS|
    ensures var included := Included(values);
      && (forall h :: h in included ==> h.place < |HEADER_LABELS|)
      && WithBody(HeadersUpTo(included, |included|), body).Text() == HeaderText(included, |included|) + body.Text()
  {
    hide HEADER_LABELS, Included, HeadersUpTo, HeaderText, HeaderShows, ShiftLayouts, ShiftTables, Import, HasStructure;
    var included := Included(values);
    IncludedInOrder(values);
    HeadersShowTheirLines(included, |included|);
    ImportText(HeadersUpTo(included, |included|), body.assembled);
  }
}
