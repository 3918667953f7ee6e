/** What every ingested text keeps, and why such a text always makes a valid document whose blocks the
    packer accepts. */
module IngestedText {
  import opened Utf8
  import opened Wrappers
  import opened Contracts
  import opened BoundaryContracts
  import opened Sorting
  import opened TextAssembly
  import opened Packing
  import opened LayoutBlocks

  datatype Ingested = Ingested(assembled: Assembled, layoutSpans: seq<LayoutSpan>, tableSpans: seq<TableSpan>) {
    function Text(): string { assembled.text }
  }

  predicate GoodRange(text: string, r: TextRange) {
    ValidRange(r) && RangeAligned(text, r)
  }

  predicate LayoutsAligned(text: string, spans: seq<LayoutSpan>) {
    forall s :: s in spans ==> s.pageNumber == 1 && GoodRange(text, s.range)
  }

  predicate CellsAligned(text: string, cells: seq<TableCellSpan>) {
    forall c :: c in cells ==> RangeAligned(text, c.range)
  }

  predicate TablesAligned(text: string, tables: seq<TableSpan>) {
    forall t :: t in tables ==>
      t.pageNumber == 1 && ValidTable(t) && RangeAligned(text, t.range) && CellsAligned(text, t.cells)
  }

  /** One range ends before the other starts. */
  predicate Apart(a: TextRange, b: TextRange) {
    a.endChar <= b.startChar || b.endChar <= a.startChar
  }

  /** Headings, paragraphs and list items follow each other. */
  predicate TextSpansOrdered(spans: seq<LayoutSpan>) {
    forall i, j :: 0 <= i < j < |spans| && IsTextRole(spans[i].role) && IsTextRole(spans[j].role) ==>
      spans[i].range.endChar <= spans[j].range.startChar
  }

  predicate TablesOrdered(tables: seq<TableSpan>) {
    forall i, j :: 0 <= i < j < |tables| ==> tables[i].range.endChar <= tables[j].range.startChar
  }

  predicate TextApartFromTables(spans: seq<LayoutSpan>, tables: seq<TableSpan>) {
    forall s, t :: s in spans && t in tables && IsTextRole(s.role) ==> Apart(s.range, t.range)
  }

  predicate InOrder(g: Ingested) {
    TextSpansOrdered(g.layoutSpans) && TablesOrdered(g.tableSpans) && TextApartFromTables(g.layoutSpans, g.tableSpans)
  }

  predicate IdsUnique(g: Ingested) {
    && NoRepeats(SegmentIds(g.assembled.sourceMap))
    && NoRepeats(LayoutIdsOf(g.layoutSpans)) && NoRepeats(TableIdsOf(g.tableSpans))
  }

  /** The invariant of ingestion. */
  predicate Sound(g: Ingested) {
    && WellAssembled(g.assembled) && IdsUnique(g)
    && LayoutsAligned(g.Text(), g.layoutSpans) && TablesAligned(g.Text(), g.tableSpans) && InOrder(g)
  }

  /** The document of an HTML or email source: one page over the whole text. */
  function DocumentOf(g: Ingested, docId: string, textSha256: string): Document {
    Document(docId, g.Text(), textSha256, [PageSpan(1, 0, |g.Text()|, 0, ByteLength(g.Text()))],
      g.assembled.sourceMap, g.layoutSpans, g.tableSpans)
  }

  lemma GoodRangeIsInside(text: string, r: TextRange)
    requires RangeAligned(text, r)
    ensures Inside(text, r)
  {
    hide Encode;
    PrefixBytesMonotone(text, r.endChar, |text|);
    PrefixBytesEnds(text);
  }

  /** No validator of the document rejects it. */
  lemma SoundMakesValidDocument(g: Ingested, docId: string, textSha256: string)
    requires Sound(g) && g.Text() != []
    ensures ValidDocument(DocumentOf(g, docId, textSha256))
  {
    hide Encode, InOrder, Inside, ValidTable, ValidRange, RangeAligned, CellsAligned, CellsInside, NoRepeats, SegmentIds, LayoutIdsOf, TableIdsOf;
    var d := DocumentOf(g, docId, textSha256);
    forall k | 0 <= k < |d.sourceMap| ensures Inside(d.text, d.sourceMap[k].range) {
      GoodRangeIsInside(d.text, d.sourceMap[k].range);
    }
    assert PageNumbers(d.pageMap) == [1];
    forall k | 0 <= k < |d.layoutSpans| ensures LayoutInPlace(d, d.layoutSpans[k]) {
      assert d.layoutSpans[k] in d.layoutSpans;
      GoodRangeIsInside(d.text, d.layoutSpans[k].range);
    }
    forall k | 0 <= k < |d.tableSpans| ensures TableInPlace(d, d.tableSpans[k]) {
      assert d.tableSpans[k] in d.tableSpans;
      GoodRangeIsInside(d.text, d.tableSpans[k].range);
      CellsAlignedInside(d.text, d.tableSpans[k].cells);
    }
    SingleIdDiffers(d.pageMap);
  }

  lemma CellsAlignedInside(text: string, cells: seq<TableCellSpan>)
    requires CellsAligned(text, cells)
    ensures CellsInside(text, cells)
  {
    hide Inside, RangeAligned;
    forall c | c in cells ensures Inside(text, c.range) {
      GoodRangeIsInside(text, c.range);
    }
  }

  lemma SingleIdDiffers(pages: seq<PageSpan>)
    requires |pages| == 1
    ensures NoRepeats(PageNumbers(pages))
  {
  }

  predicate BlocksApart(a: ChunkBlock, b: ChunkBlock) {
    a.endChar <= b.startChar || b.endChar <= a.startChar
  }

  predicate PairwiseApart(blocks: seq<ChunkBlock>) {
    forall i, j :: 0 <= i < j < |blocks| ==> BlocksApart(blocks[i], blocks[j])
  }

  predicate ApartFromAll(b: ChunkBlock, blocks: seq<ChunkBlock>) {
    forall x :: x in blocks ==> BlocksApart(b, x)
  }

  lemma {:induction false} InsertKeepsApart(b: ChunkBlock, sorted: seq<ChunkBlock>)
    requires PairwiseApart(sorted) && ApartFromAll(b, sorted)
    ensures PairwiseApart(InsertBlock(b, sorted))
  {
    if sorted != [] && !BlockLe(b, sorted[0]) {
      InsertKeepsApart(b, sorted[1..]);
      InsertKeepsMembers(b, sorted[1..]);
      var rest := InsertBlock(b, sorted[1..]);
      forall k | 0 <= k < |rest| ensures BlocksApart(sorted[0], rest[k]) {
        assert rest[k] in multiset(rest);
        if rest[k] == b {
          assert BlocksApart(b, sorted[0]);
        } else {
          var i :| 0 <= i < |sorted[1..]| && sorted[1..][i] == rest[k];
          assert BlocksApart(sorted[0], sorted[i + 1]);
        }
      }
    }
  }

  lemma {:induction false} SortKeepsApart(blocks: seq<ChunkBlock>)
    requires PairwiseApart(blocks)
    ensures PairwiseApart(SortBlocks(blocks))
  {
    if blocks != [] {
      SortKeepsApart(blocks[1..]);
      SortKeepsMembers(blocks[1..]);
      forall x | x in SortBlocks(blocks[1..]) ensures BlocksApart(blocks[0], x) {
        assert x in multiset(blocks[1..]);
      }
      InsertKeepsApart(blocks[0], SortBlocks(blocks[1..]));
    }
  }

  /** Sorting non-empty blocks that are pairwise apart puts each after the one before. */
  lemma ApartBlocksAreOrdered(blocks: seq<ChunkBlock>)
    requires PairwiseApart(blocks) && forall b :: b in blocks ==> b.startChar < b.endChar
    ensures Ordered(SortBlocks(blocks))
  {
    SortKeepsApart(blocks);
    SortKeepsMembers(blocks);
    SortBlocksSorts(blocks);
    var sorted := SortBlocks(blocks);
    forall k | 0 < k < |sorted| ensures StartsAfterPrevious(sorted, k) {
      assert sorted[k] in multiset(blocks);
      assert sorted[k - 1] in multiset(blocks);
      assert BlocksApart(sorted[k - 1], sorted[k]) && BlockLe(sorted[k - 1], sorted[k]);
    }
  }

  lemma {:induction false} TableBlocksApart(tables: seq<TableSpan>)
    requires TablesOrdered(tables)
    ensures PairwiseApart(TableBlocks(tables))
  {
    if tables != [] {
      TableBlocksApart(tables[1..]);
      forall b | b in TableBlocks(tables[1..]) ensures BlocksApart(TableBlocks(tables)[0], b) {
        TableBlockMembers(tables[1..], b);
        var t :| t in tables[1..] && b == ChunkBlock(t.range.startChar, t.range.endChar, TableBlock, None, Some(t.tableId));
        var k :| 0 <= k < |tables[1..]| && tables[1..][k] == t;
        assert tables[0].range.endChar <= tables[k + 1].range.startChar;
      }
    }
  }

  lemma {:induction false} TextBlocksApart(spans: seq<LayoutSpan>, tables: seq<TableSpan>)
    requires TextSpansOrdered(spans)
    ensures PairwiseApart(TextBlocks(spans, tables))
  {
    if spans != [] {
      TextBlocksApart(spans[1..], tables);
      if IsTextRole(spans[0].role) {
        forall b | b in TextBlocks(spans[1..], tables) ensures BlocksApart(BlockOfSpan(spans[0]), b) {
          TextBlockMembers(spans[1..], tables, b);
          var s :| s in spans[1..] && IsTextRole(s.role) && !InsideTable(s.range, tables) && b == BlockOfSpan(s);
          var k :| 0 <= k < |spans[1..]| && spans[1..][k] == s;
          assert spans[0].range.endChar <= spans[k + 1].range.startChar;
        }
      }
    }
  }

  lemma TableAndTextApart(g: Ingested, a: ChunkBlock, b: ChunkBlock)
    requires TextApartFromTables(g.layoutSpans, g.tableSpans)
    requires a in TableBlocks(g.tableSpans) && b in TextBlocks(g.layoutSpans, g.tableSpans)
    ensures BlocksApart(a, b)
  {
    TableBlockMembers(g.tableSpans, a);
    TextBlockMembers(g.layoutSpans, g.tableSpans, b);
  }

  /** The packer finds its boundaries in order: `_with_gap_blocks` never raises on this document. */
  lemma SoundIsPackable(g: Ingested, docId: string, textSha256: string)
    requires Sound(g) && g.Text() != []
    ensures var d := DocumentOf(g, docId, textSha256);
      ValidLayout(d) && BoundariesCollect(d) && Ordered(CollectedBlocks(d))
  {
    hide Encode, WellAssembled, IdsUnique, TableBlocks, TextBlocks, InsideTable, TextSpansOrdered, TablesOrdered, TextApartFromTables,
      PairwiseApart, BlocksApart, SortBlocks, LayoutsAligned, TablesAligned, Ordered, BoundariesCollect, ValidLayout;
    var d := DocumentOf(g, docId, textSha256);
    SoundBoundariesCollect(g, docId, textSha256);
    var tables, texts := TableBlocks(g.tableSpans), TextBlocks(g.layoutSpans, g.tableSpans);
    TableBlocksApart(g.tableSpans);
    TextBlocksApart(g.layoutSpans, g.tableSpans);
    forall a, b | a in tables && b in texts ensures BlocksApart(a, b) {
      TableAndTextApart(g, a, b);
    }
    ConcatApart(tables, texts);
    UnsortedAreNonEmpty(d);
    ApartBlocksAreOrdered(tables + texts);
  }

  lemma UnsortedAreNonEmpty(d: Document)
    requires ValidLayout(d) && BoundariesCollect(d)
    ensures forall b :: b in TableBlocks(d.tableSpans) + TextBlocks(d.layoutSpans, d.tableSpans) ==> b.startChar < b.endChar
  {
    hide ValidLayout, BoundariesCollect, TableBlocks, TextBlocks, InsideTable;
    CollectedAreSourceBlocks(d);
    var unsorted := TableBlocks(d.tableSpans) + TextBlocks(d.layoutSpans, d.tableSpans);
    SortKeepsMembers(unsorted);
    forall b | b in unsorted ensures b.startChar < b.endChar {
      assert b in multiset(SortBlocks(unsorted));
      assert IsSourceBlock(d.text, b);
    }
  }

  lemma ConcatApart(a: seq<ChunkBlock>, b: seq<ChunkBlock>)
    requires PairwiseApart(a) && PairwiseApart(b)
    requires forall x, y :: x in a && y in b ==> BlocksApart(x, y)
    ensures PairwiseApart(a + b)
  {
    hide BlocksApart;
    var c := a + b;
    forall i, j | 0 <= i < j < |c| ensures BlocksApart(c[i], c[j]) {
      if i < |a| <= j {
        assert c[i] in a && c[j] in b;
      }
    }
  }

  lemma SoundBoundariesCollect(g: Ingested, docId: string, textSha256: string)
    requires Sound(g) && g.Text() != []
    ensures ValidLayout(DocumentOf(g, docId, textSha256)) && BoundariesCollect(DocumentOf(g, docId, textSha256))
  {
    hide Encode, WellAssembled, IdsUnique, InOrder, ValidTable, RangeAligned, CellsAligned;
    var d := DocumentOf(g, docId, textSha256);
    assert d.pageMap[0] in d.pageMap;
    forall s | s in d.layoutSpans ensures WithinItsPage(d, s.pageNumber, s.range) {
      GoodRangeIsInside(d.text, s.range);
    }
    forall t | t in d.tableSpans ensures WithinItsPage(d, t.pageNumber, t.range) {
      GoodRangeIsInside(d.text, t.range);
    }
    ValidTablesHaveRanges(d.tableSpans);
    assert PagesCover(d, d.pageMap[1..], |d.text|, ByteLength(d.text));
  }

  lemma ValidTablesHaveRanges(tables: seq<TableSpan>)
    requires forall t :: t in tables ==> ValidTable(t)
    ensures forall t :: t in tables ==> ValidRange(t.range)
  {
    hide ValidRange;
  }
}
