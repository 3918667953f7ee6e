/** chunker/packing.py, `pack_boundary_aware_chunks`: blocks are packed greedily, tables stay whole,
    oversized blocks are split. */
module GreedyPacking {
  import opened Wrappers
  import opened Contracts
  import opened Packing
  import opened LayoutBlocks

  datatype PackingError = BoundariesRejected | BlocksOverlap | OversizedTable

  function LayoutIds(blocks: seq<ChunkBlock>): seq<LayoutId> {
    if blocks == [] then [] else OptionToSeq(blocks[0].layoutSpanId) + LayoutIds(blocks[1..])
  }

  function TableIds(blocks: seq<ChunkBlock>): seq<TableId> {
    if blocks == [] then [] else OptionToSeq(blocks[0].tableId) + TableIds(blocks[1..])
  }

  function PackedKind(blocks: seq<ChunkBlock>): ChunkKind {
    var kinds := set b | b in blocks && b.kind != MixedBlock :: b.kind;
    if SectionBlock in kinds then Section
    else if kinds == {ParagraphBlock} then Paragraph
    else if kinds == {ListItemBlock} then ListItem
    else if kinds == {TableBlock} then Table
    else Mixed
  }

  /** `_pack_blocks` */
  function PackBlocks(p: Packer, blocks: seq<ChunkBlock>): PackedChunk
    requires blocks != []
  {
    var start, end := blocks[0].startChar, blocks[|blocks| - 1].endChar;
    PackedChunk(start, end, PackedKind(blocks), LayoutIds(blocks), TableIds(blocks),
      PageNumbersForRange(p.doc.pageMap, start, end), Boundary)
  }

  /** `_pack_table_block`, when it does not raise */
  function PackTable(p: Packer, b: ChunkBlock): PackedChunk
    requires InText(p, b.startChar, b.endChar)
  {
    PackedChunk(b.startChar, b.endChar, Table, [], OptionToSeq(b.tableId),
      PageNumbersForRange(p.doc.pageMap, b.startChar, b.endChar),
      if Fits(p, b.startChar, b.endChar) then Boundary else AtomicTableOverflow)
  }

  /** Where block `j` starts in a gapless sequence. */
  function Offset(blocks: seq<ChunkBlock>, j: nat): nat
    requires j <= |blocks|
  {
    if j == 0 then 0 else blocks[j - 1].endChar
  }

  lemma {:induction false} BlockBounds(blocks: seq<ChunkBlock>, lo: nat, hi: nat, i: nat)
    requires BlocksTile(blocks, lo, hi) && i < |blocks|
    ensures lo <= blocks[i].startChar < blocks[i].endChar <= hi
    ensures blocks[i].startChar == if i == 0 then lo else blocks[i - 1].endChar
    decreases |blocks|
  {
    var front, last := blocks[..|blocks| - 1], blocks[|blocks| - 1];
    if i < |front| {
      BlockBounds(front, lo, last.startChar, i);
    } else if front != [] {
      BlockBounds(front, lo, last.startChar, |front| - 1);
    }
  }

  /** After packing `blocks[j..i]` together, block `i` had to start a new chunk. */
  ghost predicate MustStop(p: Packer, blocks: seq<ChunkBlock>, j: nat, i: nat) {
    || i >= |blocks|
    || blocks[i].kind in {TableBlock, SectionBlock}
    || !(blocks[i].startChar <= blocks[i].endChar <= |p.doc.text| && Fits(p, blocks[i].startChar, blocks[i].endChar))
    || !(j < |blocks| && blocks[j].startChar <= blocks[i].endChar <= |p.doc.text| && Fits(p, blocks[j].startChar, blocks[i].endChar))
  }

  ghost predicate BlockFits(p: Packer, b: ChunkBlock) {
    InText(p, b.startChar, b.endChar) && Fits(p, b.startChar, b.endChar)
  }

  /** Blocks `j..i` may share a chunk: no table, no section but the first, and they fit, each and together. */
  ghost predicate MayShare(p: Packer, blocks: seq<ChunkBlock>, j: nat, i: nat) {
    && j < i <= |blocks| && InText(p, blocks[j].startChar, blocks[i - 1].endChar)
    && Fits(p, blocks[j].startChar, blocks[i - 1].endChar)
    && blocks[j].kind != TableBlock
    && (forall k :: j <= k < i ==> BlockFits(p, blocks[k]))
    && forall k :: j < k < i ==> blocks[k].kind !in {TableBlock, SectionBlock}
  }

  /** A table, a maximal run of whole blocks, or a slice of a block that does not fit. */
  ghost predicate IsPacked(p: Packer, blocks: seq<ChunkBlock>, c: PackedChunk) {
    || (exists b :: b in blocks && IsTableChunk(p, b, c))
    || (exists j: nat, i: nat :: j < i <= |blocks| && IsRunChunk(p, blocks, j, i, c))
    || (exists b :: b in blocks && IsSplitChunk(p, b, c))
  }

  ghost predicate IsTableChunk(p: Packer, b: ChunkBlock, c: PackedChunk) {
    b.kind == TableBlock && InText(p, b.startChar, b.endChar) && c == PackTable(p, b)
  }

  ghost predicate IsRunChunk(p: Packer, blocks: seq<ChunkBlock>, j: nat, i: nat, c: PackedChunk)
    requires j < i <= |blocks|
  {
    MayShare(p, blocks, j, i) && MustStop(p, blocks, j, i) && c == PackBlocks(p, blocks[j..i])
  }

  ghost predicate IsSplitChunk(p: Packer, b: ChunkBlock, c: PackedChunk) {
    && b.kind != TableBlock && InText(p, b.startChar, b.endChar) && !Fits(p, b.startChar, b.endChar)
    && IsBlockSlice(p, b, SentenceEndOffsets(p.doc.text[b.startChar..b.endChar]), c)
  }

  ghost predicate AllPacked(p: Packer, blocks: seq<ChunkBlock>, chunks: seq<PackedChunk>) {
    forall c :: c in chunks ==> IsPacked(p, blocks, c) && WellMarked(p, c)
  }

  ghost predicate TablesWhole(p: Packer, blocks: seq<ChunkBlock>, chunks: seq<PackedChunk>, upTo: nat) {
    forall k :: 0 <= k < upTo && k < |blocks| && blocks[k].kind == TableBlock ==> TableEmitted(p, blocks[k], chunks)
  }

  ghost predicate TableEmitted(p: Packer, b: ChunkBlock, chunks: seq<PackedChunk>) {
    InText(p, b.startChar, b.endChar) && PackTable(p, b) in chunks
  }

  /** The loop state: blocks before `j` are in `chunks`, blocks `j..i` are pending. */
  ghost predicate PackState(p: Packer, blocks: seq<ChunkBlock>, chunks: seq<PackedChunk>, j: nat, i: nat) {
    && j <= i <= |blocks|
    && ChunksTile(chunks, 0, Offset(blocks, j))
    && AllPacked(p, blocks, chunks)
    && TablesWhole(p, blocks, chunks, i)
    && (j < i ==> MayShare(p, blocks, j, i))
  }

  /** The document's blocks, gaps filled. */
  ghost predicate AreBlocksOf(p: Packer, blocks: seq<ChunkBlock>) {
    BlocksTile(blocks, 0, |p.doc.text|)
  }

  /** `flush_current` */
  function Flush(p: Packer, chunks: seq<PackedChunk>, current: seq<ChunkBlock>): seq<PackedChunk> {
    if current == [] then chunks else chunks + [PackBlocks(p, current)]
  }

  lemma TablesStayWhole(p: Packer, blocks: seq<ChunkBlock>, chunks: seq<PackedChunk>, more: seq<PackedChunk>, upTo: nat)
    requires TablesWhole(p, blocks, chunks, upTo)
    ensures TablesWhole(p, blocks, chunks + more, upTo)
  {
    forall k | 0 <= k < upTo && k < |blocks| && blocks[k].kind == TableBlock
      ensures TableEmitted(p, blocks[k], chunks + more)
    {
      assert TableEmitted(p, blocks[k], chunks);
    }
  }

  lemma FlushPacks(p: Packer, blocks: seq<ChunkBlock>, chunks: seq<PackedChunk>, j: nat, i: nat)
    requires AreBlocksOf(p, blocks) && PackState(p, blocks, chunks, j, i) && (j < i ==> MustStop(p, blocks, j, i))
    ensures PackState(p, blocks, Flush(p, chunks, blocks[j..i]), i, i)
  {
    hide BlocksTile, ChunksTile, MustStop, WellMarked, PackedKind, LayoutIds, TableIds, IsPacked, PageNumbersForRange;
    if j < i {
      var c := PackBlocks(p, blocks[j..i]);
      RunIsPacked(p, blocks, j, i);
      BlockBounds(blocks, 0, |p.doc.text|, j);
      TileSnoc(chunks, c, 0);
      TablesStayWhole(p, blocks, chunks, [c], i);
    }
  }

  lemma RunIsPacked(p: Packer, blocks: seq<ChunkBlock>, j: nat, i: nat)
    requires j < i <= |blocks| && MayShare(p, blocks, j, i) && MustStop(p, blocks, j, i)
    ensures IsPacked(p, blocks, PackBlocks(p, blocks[j..i])) && WellMarked(p, PackBlocks(p, blocks[j..i]))
  {
    assert IsRunChunk(p, blocks, j, i, PackBlocks(p, blocks[j..i]));
  }

  lemma TablePacks(p: Packer, blocks: seq<ChunkBlock>, chunks: seq<PackedChunk>, i: nat)
    requires AreBlocksOf(p, blocks) && PackState(p, blocks, chunks, i, i) && i < |blocks| && blocks[i].kind == TableBlock
    ensures InText(p, blocks[i].startChar, blocks[i].endChar)
    ensures PackState(p, blocks, chunks + [PackTable(p, blocks[i])], i + 1, i + 1)
  {
    hide BlocksTile, ChunksTile;
    BlockBounds(blocks, 0, |p.doc.text|, i);
    var c := PackTable(p, blocks[i]);
    assert IsTableChunk(p, blocks[i], c);
    TileSnoc(chunks, c, 0);
    TablesStayWhole(p, blocks, chunks, [c], i);
    assert TableEmitted(p, blocks[i], chunks + [c]);
  }

  lemma SplitPacks(p: Packer, blocks: seq<ChunkBlock>, chunks: seq<PackedChunk>, i: nat, slices: seq<PackedChunk>)
    requires AreBlocksOf(p, blocks) && PackState(p, blocks, chunks, i, i) && i < |blocks| && blocks[i].kind != TableBlock
    requires InText(p, blocks[i].startChar, blocks[i].endChar) && !Fits(p, blocks[i].startChar, blocks[i].endChar)
    requires SlicesUpTo(p, blocks[i], SentenceEndOffsets(p.doc.text[blocks[i].startChar..blocks[i].endChar]), slices, blocks[i].endChar)
    ensures PackState(p, blocks, chunks + slices, i + 1, i + 1)
  {
    hide BlocksTile, ChunksTile, IsBlockSlice, SentenceEndOffsets, WellMarked;
    BlockBounds(blocks, 0, |p.doc.text|, i);
    TileConcat(chunks, slices, 0, blocks[i].startChar, blocks[i].endChar);
    TablesStayWhole(p, blocks, chunks, slices, i);
    forall c | c in slices ensures IsPacked(p, blocks, c) {
      assert IsSplitChunk(p, blocks[i], c);
    }
  }

  lemma AppendPacks(p: Packer, blocks: seq<ChunkBlock>, chunks: seq<PackedChunk>, j: nat, i: nat)
    requires AreBlocksOf(p, blocks) && PackState(p, blocks, chunks, j, i) && i < |blocks| && blocks[i].kind != TableBlock
    requires blocks[i].kind == SectionBlock ==> j == i
    requires InText(p, blocks[i].startChar, blocks[i].endChar) && Fits(p, blocks[i].startChar, blocks[i].endChar)
    requires j < i ==> InText(p, blocks[j].startChar, blocks[i].endChar) && Fits(p, blocks[j].startChar, blocks[i].endChar)
    ensures PackState(p, blocks, chunks, j, i + 1)
  {
    hide BlocksTile, ChunksTile, AllPacked;
  }

  /** The chunks of a successful packing. */
  ghost predicate PacksDocument(p: Packer, blocks: seq<ChunkBlock>, chunks: seq<PackedChunk>) {
    && FillsGaps(p.doc.text, CollectedBlocks(p.doc), blocks, |p.doc.text|)
    && ChunksTile(chunks, 0, |p.doc.text|)
    && AllPacked(p, blocks, chunks)
    && TablesWhole(p, blocks, chunks, |blocks|)
  }

  /** `pack_boundary_aware_chunks`; a validated document is never without blocks. */
  method PackBoundaryAwareChunks(p: Packer, allowOversized: bool)
    returns (r: Result<seq<PackedChunk>, PackingError>, ghost blocks: seq<ChunkBlock>)
    requires ValidLayout(p.doc)
    ensures r == Failure(BoundariesRejected) <==> !BoundariesCollect(p.doc)
    ensures r == Failure(BlocksOverlap) <==> BoundariesCollect(p.doc) && !Ordered(CollectedBlocks(p.doc))
    ensures r.Success? ==> PacksDocument(p, blocks, r.value)
    ensures r == Failure(OversizedTable) <==>
      && BoundariesCollect(p.doc) && Ordered(CollectedBlocks(p.doc)) && !allowOversized
      && exists b :: b in blocks && IsOversizedTable(p, b)
  {
    hide CollectedBlocks, Ordered, BoundariesCollect, FillsGaps, ValidLayout;
    blocks := [];
    if !BoundariesCollect(p.doc) {
      return Failure(BoundariesRejected), blocks;
    }
    CollectedAreSourceBlocks(p.doc);
    var filled := WithGapBlocks(p.doc.text, CollectedBlocks(p.doc));
    if filled.None? {
      return Failure(BlocksOverlap), blocks;
    }
    blocks := filled.value;
    FilledTile(p.doc.text, CollectedBlocks(p.doc), blocks);
    r := PackFilledBlocks(p, filled.value, allowOversized);
  }

  lemma FilledTile(text: string, source: seq<ChunkBlock>, blocks: seq<ChunkBlock>)
    requires FillsGaps(text, source, blocks, |text|)
    ensures BlocksTile(blocks, 0, |text|)
  {
  }

  ghost predicate IsOversizedTable(p: Packer, b: ChunkBlock) {
    b.kind == TableBlock && InText(p, b.startChar, b.endChar) && !Fits(p, b.startChar, b.endChar)
  }

  ghost predicate NoOversizedTable(p: Packer, blocks: seq<ChunkBlock>, upTo: nat) {
    forall k :: 0 <= k < upTo && k < |blocks| ==> !IsOversizedTable(p, blocks[k])
  }

  /** The loop over the filled blocks. */
  method PackFilledBlocks(p: Packer, blocks: seq<ChunkBlock>, allowOversized: bool) returns (r: Result<seq<PackedChunk>, PackingError>)
    requires AreBlocksOf(p, blocks)
    ensures r.Failure? ==> r.error == OversizedTable
    ensures r.Failure? <==> !allowOversized && exists b :: b in blocks && IsOversizedTable(p, b)
    ensures r.Success? ==> ChunksTile(r.value, 0, |p.doc.text|) && AllPacked(p, blocks, r.value)
    ensures r.Success? ==> TablesWhole(p, blocks, r.value, |blocks|)
  {
    hide BlocksTile, PackState, AreBlocksOf, SentenceEndOffsets, ChunksTile, AllPacked, TablesWhole, SlicesUpTo, PackTable, MustStop;
    var chunks: seq<PackedChunk>, current: seq<ChunkBlock> := [], [];
    ghost var j := 0;
    NothingPacked(p, blocks);
    for i := 0 to |blocks|
      invariant j <= i && current == blocks[j..i]
      invariant PackState(p, blocks, chunks, j, i)
      invariant !allowOversized ==> NoOversizedTable(p, blocks, i)
    {
      var block := blocks[i];
      BlockInText(p, blocks, i);
      PendingInText(p, blocks, chunks, j, i);
      if block.kind == TableBlock {
        StopsHere(p, blocks, j, i);
        FlushPacks(p, blocks, chunks, j, i);
        chunks := Flush(p, chunks, current);
        if !Fits(p, block.startChar, block.endChar) && !allowOversized {
          assert block in blocks && IsOversizedTable(p, block);
          return Failure(OversizedTable);
        }
        TablePacks(p, blocks, chunks, i);
        chunks, current, j := chunks + [PackTable(p, block)], [], i + 1;
      } else {
        if block.kind == SectionBlock {
          StopsHere(p, blocks, j, i);
          FlushPacks(p, blocks, chunks, j, i);
          chunks, current, j := Flush(p, chunks, current), [], i;
        }
        if !Fits(p, block.startChar, block.endChar) {
          StopsHere(p, blocks, j, i);
          FlushPacks(p, blocks, chunks, j, i);
          chunks := Flush(p, chunks, current);
          var slices := SplitOversizedTextBlock(p, block);
          SplitPacks(p, blocks, chunks, i, slices);
          chunks, current, j := chunks + slices, [], i + 1;
        } else {
          if current != [] && !Fits(p, current[0].startChar, block.endChar) {
            StopsHere(p, blocks, j, i);
            FlushPacks(p, blocks, chunks, j, i);
            chunks, current, j := Flush(p, chunks, current), [], i;
          }
          AppendPacks(p, blocks, chunks, j, i);
          current := current + [block];
        }
      }
    }
    FlushPacks(p, blocks, chunks, j, |blocks|) by {
      StopsHere(p, blocks, j, |blocks|);
    }
    chunks := Flush(p, chunks, current);
    PackedAll(p, blocks, chunks);
    return Success(chunks);
  }

  lemma NothingPacked(p: Packer, blocks: seq<ChunkBlock>)
    ensures PackState(p, blocks, [], 0, 0)
  {
  }

  lemma PackedAll(p: Packer, blocks: seq<ChunkBlock>, chunks: seq<PackedChunk>)
    requires AreBlocksOf(p, blocks) && PackState(p, blocks, chunks, |blocks|, |blocks|)
    ensures ChunksTile(chunks, 0, |p.doc.text|) && AllPacked(p, blocks, chunks) && TablesWhole(p, blocks, chunks, |blocks|)
  {
  }

  lemma BlockInText(p: Packer, blocks: seq<ChunkBlock>, i: nat)
    requires AreBlocksOf(p, blocks) && i < |blocks|
    ensures InText(p, blocks[i].startChar, blocks[i].endChar)
  {
    BlockBounds(blocks, 0, |p.doc.text|, i);
  }

  lemma PendingInText(p: Packer, blocks: seq<ChunkBlock>, chunks: seq<PackedChunk>, j: nat, i: nat)
    requires AreBlocksOf(p, blocks) && PackState(p, blocks, chunks, j, i) && i < |blocks|
    ensures j <= i && InText(p, blocks[j].startChar, blocks[i].endChar)
  {
    hide BlocksTile, AllPacked, TablesWhole, ChunksTile;
    BlockBounds(blocks, 0, |p.doc.text|, i);
    BlockBounds(blocks, 0, |p.doc.text|, j);
  }

  lemma StopsHere(p: Packer, blocks: seq<ChunkBlock>, j: nat, i: nat)
    requires j <= i && (i < |blocks| ==> InText(p, blocks[i].startChar, blocks[i].endChar) && InText(p, blocks[j].startChar, blocks[i].endChar))
    requires i < |blocks| ==>
      || blocks[i].kind in {TableBlock, SectionBlock} || !Fits(p, blocks[i].startChar, blocks[i].endChar)
      || !Fits(p, blocks[j].startChar, blocks[i].endChar)
    ensures MustStop(p, blocks, j, i)
  {
  }

  /** The chunk texts, concatenated in order. */
  function Reassemble(text: string, chunks: seq<PackedChunk>): string
    requires forall c :: c in chunks ==> c.startChar <= c.endChar <= |text|
  {
    if chunks == [] then []
    else
      var last := chunks[|chunks| - 1];
      Reassemble(text, chunks[..|chunks| - 1]) + text[last.startChar..last.endChar]
  }

  /** A tiling loses, repeats and reorders nothing: the chunks put together are the text. */
  lemma {:induction false} TilingReassembles(text: string, chunks: seq<PackedChunk>, lo: nat, hi: nat)
    requires ChunksTile(chunks, lo, hi) && hi <= |text|
    ensures lo <= hi
    ensures forall c :: c in chunks ==> c.startChar < c.endChar <= |text|
    ensures Reassemble(text, chunks) == text[lo..hi]
  {
    if chunks != [] {
      var front, last := chunks[..|chunks| - 1], chunks[|chunks| - 1];
      TilingReassembles(text, front, lo, last.startChar);
      assert text[lo..hi] == text[lo..last.startChar] + text[last.startChar..hi];
    }
  }

  /** Every character lies in exactly one chunk. */
  lemma {:induction false} TilingIsExact(chunks: seq<PackedChunk>, lo: nat, hi: nat, i: nat)
    requires ChunksTile(chunks, lo, hi) && lo <= i < hi
    ensures exists k: nat :: k < |chunks| && Holds(chunks[k], i)
    ensures forall j: nat, k: nat :: j < |chunks| && k < |chunks| && Holds(chunks[j], i) && Holds(chunks[k], i) ==> j == k
  {
    var front, last := chunks[..|chunks| - 1], chunks[|chunks| - 1];
    TileMembers(front, lo, last.startChar);
    assert forall k: nat :: k < |front| ==> front[k] == chunks[k] && front[k] in front;
    if i < last.startChar {
      TilingIsExact(front, lo, last.startChar, i);
      var k: nat :| k < |front| && Holds(front[k], i);
      assert Holds(chunks[k], i);
    } else {
      assert Holds(chunks[|front|], i);
    }
  }

  predicate Holds(c: PackedChunk, i: nat) {
    c.startChar <= i < c.endChar
  }
}
