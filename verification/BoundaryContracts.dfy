/** contracts/ingestion.py and contracts/documents.py: what a document must satisfy to be built from
    an ingested text and its boundaries. */
module BoundaryContracts {
  import opened Utf8
  import opened Wrappers
  import opened Contracts
  import opened Sorting

  datatype BoundaryError = DuplicateIds | NotOrdered | NotContiguous | OutsideText | MapDoesNotCover | UnknownPageOrOutside

  /** Where segment `k` has to start. */
  function PreviousEnd(segments: seq<SourceMapSegment>, k: nat): (nat, nat)
    requires k <= |segments|
  {
    if k == 0 then (0, 0) else (segments[k - 1].range.endChar, segments[k - 1].range.endByte)
  }

  predicate StartsAtPreviousEnd(segments: seq<SourceMapSegment>, k: nat)
    requires k < |segments|
  {
    (segments[k].range.startChar, segments[k].range.startByte) == PreviousEnd(segments, k)
  }

  predicate Contiguous(segments: seq<SourceMapSegment>) {
    forall k :: 0 <= k < |segments| ==> StartsAtPreviousEnd(segments, k)
  }

  /** `_validate_ordered_contiguous_source_map` */
  method ValidateContiguous(segments: seq<SourceMapSegment>) returns (error: Option<BoundaryError>)
    ensures error.None? <==> Contiguous(segments)
  {
    var previousChar, previousByte := 0, 0;
    for i := 0 to |segments|
      invariant forall k :: 0 <= k < i ==> StartsAtPreviousEnd(segments, k)
      invariant (previousChar, previousByte) == PreviousEnd(segments, i)
    {
      var r := segments[i].range;
      if r.startChar != previousChar || r.startByte != previousByte {
        assert !StartsAtPreviousEnd(segments, i);
        return Some(if r.startChar < previousChar || r.startByte < previousByte then NotOrdered else NotContiguous);
      }
      previousChar, previousByte := r.endChar, r.endByte;
    }
    return None;
  }

  /** `_require_unique_ids` compares the number of ids with the number of distinct ids. */
  lemma {:induction false} CountsAgreeWhenDifferent<T>(ids: seq<T>)
    ensures |Elements(ids)| <= |ids|
    ensures |Elements(ids)| == |ids| <==> NoRepeats(ids)
  {
    if ids != [] {
      var front, last := ids[..|ids| - 1], ids[|ids| - 1];
      CountsAgreeWhenDifferent(front);
      assert ids == front + [last];
      assert Elements(ids) == Elements(front) + {last};
      if last in front {
        var i :| 0 <= i < |front| && front[i] == last;
        assert ids[i] == ids[|ids| - 1];
      }
    }
  }

  function SegmentIds(segments: seq<SourceMapSegment>): seq<SegmentId> {
    seq(|segments|, i requires 0 <= i < |segments| => segments[i].segmentId)
  }

  function LayoutIdsOf(spans: seq<LayoutSpan>): seq<LayoutId> {
    seq(|spans|, i requires 0 <= i < |spans| => spans[i].spanId)
  }

  function TableIdsOf(tables: seq<TableSpan>): seq<TableId> {
    seq(|tables|, i requires 0 <= i < |tables| => tables[i].tableId)
  }

  function CellIdsOf(cells: seq<TableCellSpan>): seq<CellId> {
    seq(|cells|, i requires 0 <= i < |cells| => cells[i].cellId)
  }

  predicate Contains(outer: TextRange, inner: TextRange) {
    && outer.startChar <= inner.startChar && inner.endChar <= outer.endChar
    && outer.startByte <= inner.startByte && inner.endByte <= outer.endByte
  }

  /** What the validators of a table and of its ranges check. */
  predicate ValidTable(t: TableSpan) {
    && ValidRange(t.range) && t.cells != [] && NoRepeats(CellIdsOf(t.cells))
    && forall c :: c in t.cells ==> ValidRange(c.range) && Contains(t.range, c.range)
  }

  predicate Inside(text: string, r: TextRange) {
    r.endChar <= |text| && r.endByte <= ByteLength(text)
  }

  predicate PagesOrdered(text: string, pages: seq<PageSpan>) {
    forall k :: 0 <= k < |pages| ==> PageInPlace(text, pages, k)
  }

  predicate PageInPlace(text: string, pages: seq<PageSpan>, k: nat)
    requires k < |pages|
  {
    && pages[k].startChar <= pages[k].endChar <= |text|
    && pages[k].startByte <= pages[k].endByte <= ByteLength(text)
    && (k > 0 ==> pages[k - 1].endChar <= pages[k].startChar && pages[k - 1].endByte <= pages[k].startByte)
  }

  function PageNumbers(pages: seq<PageSpan>): seq<nat> {
    seq(|pages|, i requires 0 <= i < |pages| => pages[i].pageNumber)
  }

  /** The source map is empty, or ends where the text ends. */
  predicate MapCovers(text: string, segments: seq<SourceMapSegment>) {
    segments != [] ==> PreviousEnd(segments, |segments|) == (|text|, ByteLength(text))
  }

  predicate CellsInside(text: string, cells: seq<TableCellSpan>) {
    forall c :: c in cells ==> Inside(text, c.range)
  }

  predicate LayoutInPlace(d: Document, s: LayoutSpan) {
    s.pageNumber in PageNumbers(d.pageMap) && Inside(d.text, s.range)
  }

  predicate TableInPlace(d: Document, t: TableSpan) {
    t.pageNumber in PageNumbers(d.pageMap) && Inside(d.text, t.range) && CellsInside(d.text, t.cells)
  }

  predicate IdsDiffer(d: Document) {
    NoRepeats(SegmentIds(d.sourceMap)) && NoRepeats(LayoutIdsOf(d.layoutSpans)) && NoRepeats(TableIdsOf(d.tableSpans))
  }

  /** What the validators of the boundary set and `validate_ingestion_boundaries` demand together. */
  predicate BoundariesHold(d: Document) {
    && IdsDiffer(d) && Contiguous(d.sourceMap) && MapCovers(d.text, d.sourceMap)
    && (forall k :: 0 <= k < |d.sourceMap| ==> Inside(d.text, d.sourceMap[k].range))
    && (forall k :: 0 <= k < |d.layoutSpans| ==> LayoutInPlace(d, d.layoutSpans[k]))
    && (forall k :: 0 <= k < |d.tableSpans| ==> TableInPlace(d, d.tableSpans[k]))
  }

  /** Everything that the validators of a document and of its parts demand. */
  predicate ValidDocument(d: Document) {
    && d.text != [] && d.pageMap != [] && PagesOrdered(d.text, d.pageMap) && NoRepeats(PageNumbers(d.pageMap))
    && (forall s :: s in d.sourceMap ==> ValidRange(s.range))
    && (forall s :: s in d.layoutSpans ==> ValidRange(s.range))
    && (forall t :: t in d.tableSpans ==> ValidTable(t))
    && BoundariesHold(d)
  }

  /** `_require_unique_ids` on the three lists of ids */
  method IdsAreUnique(d: Document) returns (unique: bool)
    ensures unique <==> IdsDiffer(d)
  {
    hide NoRepeats, SegmentIds, LayoutIdsOf, TableIdsOf;
    var segments, layouts, tables := SegmentIds(d.sourceMap), LayoutIdsOf(d.layoutSpans), TableIdsOf(d.tableSpans);
    CountsAgreeWhenDifferent(segments);
    CountsAgreeWhenDifferent(layouts);
    CountsAgreeWhenDifferent(tables);
    unique := |Elements(segments)| == |segments| && |Elements(layouts)| == |layouts| && |Elements(tables)| == |tables|;
  }

  /** The validators of `IngestionBoundarySet`, then `validate_ingestion_boundaries` */
  method ValidateBoundaries(d: Document) returns (error: Option<BoundaryError>)
    ensures error.None? <==> BoundariesHold(d)
  {
    hide IdsDiffer, Contiguous, MapCovers, Inside, LayoutInPlace, TableInPlace;
    var unique := IdsAreUnique(d);
    if !unique {
      return Some(DuplicateIds);
    }
    var disorder := ValidateContiguous(d.sourceMap);
    if disorder.Some? {
      return disorder;
    }
    for i := 0 to |d.sourceMap|
      invariant forall k :: 0 <= k < i ==> Inside(d.text, d.sourceMap[k].range)
    {
      if !Inside(d.text, d.sourceMap[i].range) {
        return Some(OutsideText);
      }
    }
    if !MapCovers(d.text, d.sourceMap) {
      return Some(MapDoesNotCover);
    }
    for i := 0 to |d.layoutSpans|
      invariant forall k :: 0 <= k < i ==> LayoutInPlace(d, d.layoutSpans[k])
    {
      if !LayoutInPlace(d, d.layoutSpans[i]) {
        return Some(UnknownPageOrOutside);
      }
    }
    for i := 0 to |d.tableSpans|
      invariant forall k :: 0 <= k < i ==> TableInPlace(d, d.tableSpans[k])
    {
      if !TableInPlace(d, d.tableSpans[i]) {
        return Some(UnknownPageOrOutside);
      }
    }
    return None;
  }
}
