/** chunker/boundaries.py and the block half of chunker/packing.py: which layout blocks a document
    has, and how the gaps between them are filled. */
module LayoutBlocks {
  import opened Utf8
  import opened Wrappers
  import opened Contracts
  import opened Packing
  import opened Whitespace

  /** `_validate_page_map_coverage` from page `k` on */
  predicate PagesCover(d: Document, pages: seq<PageSpan>, charEnd: nat, byteEnd: nat) {
    if pages == [] then charEnd == |d.text| && byteEnd == ByteLength(d.text)
    else
      && pages[0].startChar == charEnd && pages[0].startByte == byteEnd
      && PagesCover(d, pages[1..], pages[0].endChar, pages[0].endByte)
  }

  /** What the validator of a page span checks. */
  predicate ValidPages(pages: seq<PageSpan>) {
    forall page :: page in pages ==> page.startChar <= page.endChar
  }

  predicate WithinPage(r: TextRange, page: PageSpan) {
    && page.startChar <= r.startChar && r.endChar <= page.endChar
    && page.startByte <= r.startByte && r.endByte <= page.endByte
  }

  /** A page of that number exists and every page of that number contains the range. */
  predicate WithinItsPage(d: Document, number: nat, r: TextRange) {
    && (exists page :: page in d.pageMap && page.pageNumber == number)
    && (forall page :: page in d.pageMap && page.pageNumber == number ==> WithinPage(r, page))
  }

  /** `collect_chunk_boundaries` raises nothing. */
  predicate BoundariesCollect(d: Document) {
    && PagesCover(d, d.pageMap, 0, 0)
    && (forall s :: s in d.layoutSpans ==> WithinItsPage(d, s.pageNumber, s.range))
    && (forall t :: t in d.tableSpans ==> WithinItsPage(d, t.pageNumber, t.range))
  }

  /** The ranges that the contract validators let through. */
  predicate ValidLayout(d: Document) {
    && d.text != [] && ValidPages(d.pageMap)
    && (forall s :: s in d.layoutSpans ==> ValidRange(s.range))
    && (forall t :: t in d.tableSpans ==> ValidRange(t.range))
  }

  lemma {:induction false} PagesEndInText(d: Document, pages: seq<PageSpan>, charEnd: nat, byteEnd: nat)
    requires PagesCover(d, pages, charEnd, byteEnd) && ValidPages(pages)
    ensures charEnd <= |d.text|
    ensures forall page :: page in pages ==> page.endChar <= |d.text|
  {
    if pages != [] {
      PagesEndInText(d, pages[1..], pages[0].endChar, pages[0].endByte);
      assert forall page :: page in pages ==> page == pages[0] || page in pages[1..];
    }
  }

  function TableBlocks(tables: seq<TableSpan>): seq<ChunkBlock> {
    if tables == [] then []
    else [ChunkBlock(tables[0].range.startChar, tables[0].range.endChar, TableBlock, None, Some(tables[0].tableId))]
         + TableBlocks(tables[1..])
  }

  predicate InsideTable(r: TextRange, tables: seq<TableSpan>) {
    exists t :: t in tables && r.startChar >= t.range.startChar && r.endChar <= t.range.endChar
  }

  predicate IsTextRole(role: LayoutRole) {
    role in {HeadingRole, ParagraphRole, ListItemRole}
  }

  function BlockOfSpan(s: LayoutSpan): ChunkBlock {
    ChunkBlock(s.range.startChar, s.range.endChar,
      if s.role == HeadingRole then SectionBlock else if s.role == ParagraphRole then ParagraphBlock else ListItemBlock,
      Some(s.spanId), None)
  }

  function TextBlocks(spans: seq<LayoutSpan>, tables: seq<TableSpan>): seq<ChunkBlock> {
    if spans == [] then []
    else
      (if IsTextRole(spans[0].role) && !InsideTable(spans[0].range, tables) then [BlockOfSpan(spans[0])] else [])
      + TextBlocks(spans[1..], tables)
  }

  function KindRank(k: BlockKind): nat {
    match k case ListItemBlock => 0 case MixedBlock => 1 case ParagraphBlock => 2 case SectionBlock => 3 case TableBlock => 4
  }

  /** The sort key `(start_char, end_char, kind)` */
  predicate BlockLe(a: ChunkBlock, b: ChunkBlock) {
    || a.startChar < b.startChar
    || (a.startChar == b.startChar && a.endChar < b.endChar)
    || (a.startChar == b.startChar && a.endChar == b.endChar && KindRank(a.kind) <= KindRank(b.kind))
  }

  function InsertBlock(b: ChunkBlock, sorted: seq<ChunkBlock>): seq<ChunkBlock> {
    if sorted == [] then [b]
    else if BlockLe(b, sorted[0]) then [b] + sorted
    else [sorted[0]] + InsertBlock(b, sorted[1..])
  }

  function SortBlocks(blocks: seq<ChunkBlock>): seq<ChunkBlock> {
    if blocks == [] then [] else InsertBlock(blocks[0], SortBlocks(blocks[1..]))
  }

  /** The blocks of `_collect_blocks` before the gaps are filled. */
  function CollectedBlocks(d: Document): seq<ChunkBlock> {
    SortBlocks(TableBlocks(d.tableSpans) + TextBlocks(d.layoutSpans, d.tableSpans))
  }

  lemma {:induction false} SortKeepsMembers(blocks: seq<ChunkBlock>)
    ensures multiset(SortBlocks(blocks)) == multiset(blocks)
  {
    if blocks != [] {
      SortKeepsMembers(blocks[1..]);
      InsertKeepsMembers(blocks[0], SortBlocks(blocks[1..]));
      assert blocks == [blocks[0]] + blocks[1..];
    }
  }

  lemma {:induction false} InsertKeepsMembers(b: ChunkBlock, sorted: seq<ChunkBlock>)
    ensures multiset(InsertBlock(b, sorted)) == multiset{b} + multiset(sorted)
  {
    if sorted != [] && !BlockLe(b, sorted[0]) {
      InsertKeepsMembers(b, sorted[1..]);
      assert sorted == [sorted[0]] + sorted[1..];
    }
  }

  predicate IsSorted(blocks: seq<ChunkBlock>) {
    forall i, j :: 0 <= i < j < |blocks| ==> BlockLe(blocks[i], blocks[j])
  }

  lemma {:induction false} SortBlocksSorts(blocks: seq<ChunkBlock>)
    ensures IsSorted(SortBlocks(blocks))
  {
    if blocks != [] {
      SortBlocksSorts(blocks[1..]);
      InsertSorts(blocks[0], SortBlocks(blocks[1..]));
    }
  }

  lemma {:induction false} InsertSorts(b: ChunkBlock, sorted: seq<ChunkBlock>)
    requires IsSorted(sorted)
    ensures IsSorted(InsertBlock(b, sorted))
  {
    if sorted != [] && !BlockLe(b, sorted[0]) {
      InsertSorts(b, sorted[1..]);
      var rest := InsertBlock(b, sorted[1..]);
      InsertKeepsMembers(b, sorted[1..]);
      forall j | 0 <= j < |rest| ensures BlockLe(sorted[0], rest[j]) {
        assert rest[j] in multiset(rest);
      }
    }
  }

  lemma {:induction false} TableBlockMembers(tables: seq<TableSpan>, b: ChunkBlock)
    requires b in TableBlocks(tables)
    ensures exists t :: t in tables && b == ChunkBlock(t.range.startChar, t.range.endChar, TableBlock, None, Some(t.tableId))
  {
    if b != TableBlocks(tables)[0] {
      TableBlockMembers(tables[1..], b);
    }
  }

  lemma {:induction false} TextBlockMembers(spans: seq<LayoutSpan>, tables: seq<TableSpan>, b: ChunkBlock)
    requires b in TextBlocks(spans, tables)
    ensures exists s :: s in spans && IsTextRole(s.role) && !InsideTable(s.range, tables) && b == BlockOfSpan(s)
  {
    if b in TextBlocks(spans[1..], tables) {
      TextBlockMembers(spans[1..], tables, b);
    }
  }

  /** Every collected block is a non-empty range of the text that no gap block could be mistaken for. */
  predicate IsSourceBlock(text: string, b: ChunkBlock) {
    b.startChar < b.endChar <= |text| && b.kind != MixedBlock
  }

  lemma CollectedAreSourceBlocks(d: Document)
    requires ValidLayout(d) && BoundariesCollect(d)
    ensures forall b :: b in CollectedBlocks(d) ==> IsSourceBlock(d.text, b)
  {
    PagesEndInText(d, d.pageMap, 0, 0);
    forall b | b in CollectedBlocks(d) ensures IsSourceBlock(d.text, b) {
      var unsorted := TableBlocks(d.tableSpans) + TextBlocks(d.layoutSpans, d.tableSpans);
      SortKeepsMembers(unsorted);
      assert b in multiset(SortBlocks(unsorted));
      if b in TableBlocks(d.tableSpans) {
        TableBlockMembers(d.tableSpans, b);
      } else {
        TextBlockMembers(d.layoutSpans, d.tableSpans, b);
      }
    }
  }

  /** Consecutive blocks do not overlap. */
  predicate Ordered(blocks: seq<ChunkBlock>) {
    forall k :: 0 < k < |blocks| ==> StartsAfterPrevious(blocks, k)
  }

  predicate StartsAfterPrevious(blocks: seq<ChunkBlock>, k: nat)
    requires 0 < k < |blocks|
  {
    blocks[k - 1].endChar <= blocks[k].startChar
  }

  function GapBlock(start: nat, end: nat): ChunkBlock {
    ChunkBlock(start, end, MixedBlock, None, None)
  }

  /** The blocks that are not gap blocks. */
  function SourceBlocks(filled: seq<ChunkBlock>): seq<ChunkBlock> {
    if filled == [] then []
    else
      var front, last := filled[..|filled| - 1], filled[|filled| - 1];
      if last.kind == MixedBlock then SourceBlocks(front) else SourceBlocks(front) + [last]
  }

  /** `filled` is `source`, possibly with the white space that follows it. */
  predicate Absorbs(text: string, source: ChunkBlock, filled: ChunkBlock) {
    && source.endChar <= filled.endChar <= |text| && AllSpace(text[source.endChar..filled.endChar])
    && filled == source.(endChar := filled.endChar)
  }

  ghost predicate AllAbsorb(text: string, source: seq<ChunkBlock>, filled: seq<ChunkBlock>) {
    |source| == |filled| && forall k :: 0 <= k < |source| ==> Absorbs(text, source[k], filled[k])
  }

  /** A gap block is bare, and holds more than white space unless it is the first or last of the text. */
  ghost predicate GapsAreProper(text: string, filled: seq<ChunkBlock>) {
    forall b :: b in filled && b.kind == MixedBlock ==>
      && b == GapBlock(b.startChar, b.endChar) && b.startChar < b.endChar <= |text|
      && (b.startChar == 0 || b.endChar == |text| || !AllSpace(text[b.startChar..b.endChar]))
  }

  /** The whole contract of gap filling. */
  ghost predicate FillsGaps(text: string, source: seq<ChunkBlock>, filled: seq<ChunkBlock>, upTo: nat) {
    BlocksTile(filled, 0, upTo) && AllAbsorb(text, source, SourceBlocks(filled)) && GapsAreProper(text, filled)
  }

  lemma {:induction false} NoEmptyBlocks(blocks: seq<ChunkBlock>, lo: nat, hi: nat)
    requires BlocksTile(blocks, lo, hi)
    ensures DropEmpty(blocks) == blocks
  {
    if blocks != [] {
      NoEmptyBlocks(blocks[..|blocks| - 1], lo, blocks[|blocks| - 1].startChar);
    }
  }

  /** `tuple(block for block in filled if block.end_char > block.start_char)` */
  function DropEmpty(blocks: seq<ChunkBlock>): seq<ChunkBlock> {
    if blocks == [] then []
    else
      var last := blocks[|blocks| - 1];
      DropEmpty(blocks[..|blocks| - 1]) + (if last.endChar > last.startChar then [last] else [])
  }

  lemma AppendGap(text: string, source: seq<ChunkBlock>, filled: seq<ChunkBlock>, cursor: nat, end: nat)
    requires FillsGaps(text, source, filled, cursor) && cursor < end <= |text|
    requires filled == [] || end == |text| || !AllSpace(text[cursor..end])
    ensures FillsGaps(text, source, filled + [GapBlock(cursor, end)], end)
  {
    assert (filled + [GapBlock(cursor, end)])[..|filled|] == filled;
  }

  lemma AppendSource(text: string, source: seq<ChunkBlock>, filled: seq<ChunkBlock>, b: ChunkBlock)
    requires FillsGaps(text, source, filled, b.startChar) && IsSourceBlock(text, b)
    ensures FillsGaps(text, source + [b], filled + [b], b.endChar)
  {
    assert (filled + [b])[..|filled|] == filled;
    assert Absorbs(text, b, b);
  }

  lemma ExtendLast(text: string, source: seq<ChunkBlock>, filled: seq<ChunkBlock>, cursor: nat, end: nat)
    requires FillsGaps(text, source, filled, cursor) && cursor < end <= |text| && AllSpace(text[cursor..end])
    requires filled != [] && filled[|filled| - 1].kind != MixedBlock
    requires source != [] && source[|source| - 1].endChar == cursor
    ensures FillsGaps(text, source, filled[..|filled| - 1] + [filled[|filled| - 1].(endChar := end)], end)
  {
    var front, last := filled[..|filled| - 1], filled[|filled| - 1];
    var longer := last.(endChar := end);
    assert (front + [longer])[..|front|] == front;
    assert SourceBlocks(front + [longer]) == SourceBlocks(front) + [longer];
    assert Absorbs(text, source[|source| - 1], last);
  }

  /** `_with_gap_blocks`: it fails exactly on overlapping blocks, and otherwise fills `[0, len(text))`. */
  method WithGapBlocks(text: string, blocks: seq<ChunkBlock>) returns (r: Option<seq<ChunkBlock>>)
    requires forall b :: b in blocks ==> IsSourceBlock(text, b)
    ensures r.Some? <==> Ordered(blocks)
    ensures r.Some? ==> FillsGaps(text, blocks, r.value, |text|)
  {
    hide FillsGaps, BlocksTile, SourceBlocks, AllAbsorb, GapsAreProper;
    var filled: seq<ChunkBlock> := [];
    var cursor := 0;
    NothingFilled(text);
    for i := 0 to |blocks|
      invariant cursor == if i == 0 then 0 else blocks[i - 1].endChar
      invariant FillsGaps(text, blocks[..i], filled, cursor) && cursor <= |text|
      invariant i > 0 ==> filled != [] && filled[|filled| - 1].kind != MixedBlock
      invariant i == 0 ==> filled == []
      invariant forall k :: 0 < k < i ==> StartsAfterPrevious(blocks, k)
    {
      var block := blocks[i];
      assert IsSourceBlock(text, block);
      if block.startChar < cursor {
        assert !StartsAfterPrevious(blocks, i);
        return None;
      }
      if block.startChar > cursor {
        if AllSpace(text[cursor..block.startChar]) && filled != [] {
          ExtendLast(text, blocks[..i], filled, cursor, block.startChar);
          filled := filled[..|filled| - 1] + [filled[|filled| - 1].(endChar := block.startChar)];
        } else {
          AppendGap(text, blocks[..i], filled, cursor, block.startChar);
          filled := filled + [GapBlock(cursor, block.startChar)];
        }
      }
      AppendSource(text, blocks[..i], filled, block);
      assert blocks[..i + 1] == blocks[..i] + [block];
      filled := filled + [block];
      cursor := block.endChar;
    }
    assert blocks[..|blocks|] == blocks;
    if cursor < |text| {
      AppendGap(text, blocks, filled, cursor, |text|);
      filled := filled + [GapBlock(cursor, |text|)];
    }
    FilledHaveNoEmpty(text, blocks, filled, |text|);
    return Some(DropEmpty(filled));
  }

  lemma NothingFilled(text: string)
    ensures FillsGaps(text, [], [], 0)
  {
  }

  lemma FilledHaveNoEmpty(text: string, source: seq<ChunkBlock>, filled: seq<ChunkBlock>, upTo: nat)
    requires FillsGaps(text, source, filled, upTo)
    ensures DropEmpty(filled) == filled
  {
    NoEmptyBlocks(filled, 0, upTo);
  }

  /** The pages start at 0, follow one another without a gap and end at the end of the text. */
  ghost predicate PagesInTurn(d: Document, pages: seq<PageSpan>, charEnd: nat, byteEnd: nat) {
    && (pages == [] ==> charEnd == |d.text| && byteEnd == ByteLength(d.text))
    && (pages != [] ==> pages[0].startChar == charEnd && pages[0].startByte == byteEnd)
    && (forall k :: 0 < k < |pages| ==> FollowsPage(pages, k))
    && (pages != [] ==> pages[|pages| - 1].endChar == |d.text| && pages[|pages| - 1].endByte == ByteLength(d.text))
  }

  predicate FollowsPage(pages: seq<PageSpan>, k: nat)
    requires 0 < k < |pages|
  {
    pages[k].startChar == pages[k - 1].endChar && pages[k].startByte == pages[k - 1].endByte
  }

  lemma {:induction false} PagesCoverExactly(d: Document, pages: seq<PageSpan>, charEnd: nat, byteEnd: nat)
    ensures PagesCover(d, pages, charEnd, byteEnd) <==> PagesInTurn(d, pages, charEnd, byteEnd)
  {
    hide ByteLength;
    if pages != [] {
      var rest := pages[1..];
      PagesCoverExactly(d, rest, pages[0].endChar, pages[0].endByte);
      forall k | 0 < k < |rest| ensures FollowsPage(rest, k) == FollowsPage(pages, k + 1) {}
      if PagesInTurn(d, pages, charEnd, byteEnd) {
        assert rest != [] ==> FollowsPage(pages, 1);
      }
      if PagesInTurn(d, rest, pages[0].endChar, pages[0].endByte) {
        forall k | 0 < k < |pages| ensures FollowsPage(pages, k) {
          assert k > 1 ==> FollowsPage(rest, k - 1);
        }
      }
    }
  }
}
