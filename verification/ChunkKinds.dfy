/** chunker/packing.py: what the kind and the ids of a packed chunk say about the spans that it was
    packed from. */
module ChunkKinds {
  import opened Wrappers
  import opened Contracts
  import opened Sorting
  import opened Whitespace
  import opened BoundaryContracts
  import opened Packing
  import opened LayoutBlocks
  import opened GreedyPacking
  import opened LayoutKinds

  /** The block is that of the span, possibly with the white space that follows it. */
  predicate FillsText(text: string, b: ChunkBlock, s: LayoutSpan) {
    && b.startChar == s.range.startChar && s.range.endChar <= b.endChar <= |text| && AllSpace(text[s.range.endChar..b.endChar])
    && SameKind(s.role, b.kind) && b.layoutSpanId == Some(s.spanId) && b.tableId == None
  }

  predicate FillsTable(text: string, b: ChunkBlock, t: TableSpan) {
    && b.startChar == t.range.startChar && t.range.endChar <= b.endChar <= |text| && AllSpace(text[t.range.endChar..b.endChar])
    && b.kind == TableBlock && b.layoutSpanId == None && b.tableId == Some(t.tableId)
  }

  predicate IsBare(b: ChunkBlock) {
    b.kind == MixedBlock && b.layoutSpanId == None && b.tableId == None
  }

  lemma {:induction false} SourceBlockMembers(filled: seq<ChunkBlock>)
    ensures forall b :: b in SourceBlocks(filled) <==> b in filled && b.kind != MixedBlock
  {
    if filled != [] {
      SourceBlockMembers(filled[..|filled| - 1]);
      assert filled == filled[..|filled| - 1] + [filled[|filled| - 1]];
    }
  }

  /** What fills the document: a block for each text span outside tables and for each table, and bare gaps. */
  lemma FilledExactly(d: Document, blocks: seq<ChunkBlock>)
    requires IdsDiffer(d) && FillsGaps(d.text, CollectedBlocks(d), blocks, |d.text|)
    ensures forall s :: s in d.layoutSpans && IsText(d, s) ==> exists b :: b in blocks && FillsText(d.text, b, s)
    ensures forall t :: t in d.tableSpans ==> exists b :: b in blocks && FillsTable(d.text, b, t)
    ensures forall b :: b in blocks ==> IsBare(b) || IsOfText(d, b) || IsOfTable(d, b)
  {
    hide IdsDiffer, IsText, CollectedBlocks, BlocksTile, SourceBlocks;
    CollectedExactly(d);
    SourceBlockMembers(blocks);
    var source, kept := CollectedBlocks(d), SourceBlocks(blocks);
    forall s | s in d.layoutSpans && IsText(d, s) ensures exists b :: b in blocks && FillsText(d.text, b, s) {
      var b :| b in source && ShowsText(b, s);
      var k :| 0 <= k < |source| && source[k] == b;
      assert Absorbs(d.text, source[k], kept[k]) && kept[k] in kept;
    }
    forall t | t in d.tableSpans ensures exists b :: b in blocks && FillsTable(d.text, b, t) {
      var b :| b in source && ShowsTable(b, t);
      var k :| 0 <= k < |source| && source[k] == b;
      assert Absorbs(d.text, source[k], kept[k]) && kept[k] in kept;
    }
    forall b | b in blocks ensures IsBare(b) || IsOfText(d, b) || IsOfTable(d, b) {
      if b.kind != MixedBlock {
        var k :| 0 <= k < |kept| && kept[k] == b;
        assert Absorbs(d.text, source[k], kept[k]) && source[k] in source;
        AbsorbedIs(d, source[k], b);
      }
    }
  }

  ghost predicate IsOfText(d: Document, b: ChunkBlock) {
    exists s :: s in d.layoutSpans && IsText(d, s) && FillsText(d.text, b, s)
  }

  ghost predicate IsOfTable(d: Document, b: ChunkBlock) {
    exists t :: t in d.tableSpans && FillsTable(d.text, b, t)
  }

  lemma AbsorbedIs(d: Document, source: ChunkBlock, b: ChunkBlock)
    requires Absorbs(d.text, source, b)
    requires
      || (exists s :: s in d.layoutSpans && IsText(d, s) && ShowsText(source, s))
      || (exists t :: t in d.tableSpans && ShowsTable(source, t))
    ensures IsOfText(d, b) || IsOfTable(d, b)
  {
    hide IsText, AllSpace;
    if s :| s in d.layoutSpans && IsText(d, s) && ShowsText(source, s) {
      assert FillsText(d.text, b, s);
    } else {
      var t :| t in d.tableSpans && ShowsTable(source, t);
      assert FillsTable(d.text, b, t);
    }
  }

  /** Chunk `c` was cut from blocks `lo..hi`: it is all of them, or a part of one that does not fit. */
  ghost predicate CutFrom(p: Packer, blocks: seq<ChunkBlock>, c: PackedChunk, lo: nat, hi: nat) {
    && lo < hi <= |blocks| && blocks[lo].startChar <= c.startChar < c.endChar <= blocks[hi - 1].endChar
    && c.layoutSpanIds == LayoutIds(blocks[lo..hi]) && c.tableIds == TableIds(blocks[lo..hi])
    && ((c.startChar == blocks[lo].startChar && c.endChar == blocks[hi - 1].endChar) || (hi == lo + 1 && !BlockFits(p, blocks[lo])))
    && (blocks[lo].kind == TableBlock ==> hi == lo + 1)
    && (forall k :: lo < k < hi ==> blocks[k].kind != TableBlock && blocks[k].kind != SectionBlock)
    && (c.splitReason == OversizedSentence ==> c.kind == Overflow && !BlockFits(p, blocks[lo]))
    && (c.splitReason != OversizedSentence ==> c.kind == PackedKind(blocks[lo..hi]))
  }

  lemma OneBlock(b: ChunkBlock)
    ensures LayoutIds([b]) == OptionToSeq(b.layoutSpanId) && TableIds([b]) == OptionToSeq(b.tableId) && PackedKind([b]) == KindOfBlock(b.kind)
  {
    assert [b][1..] == [];
    assert (set x | x in [b] && x.kind != MixedBlock :: x.kind) == if b.kind != MixedBlock then {b.kind} else {};
  }

  /** Every packed chunk was cut from consecutive blocks. */
  lemma PackedIsCut(p: Packer, blocks: seq<ChunkBlock>, chunks: seq<PackedChunk>, c: PackedChunk) returns (lo: nat, hi: nat)
    requires IdsDiffer(p.doc) && PacksDocument(p, blocks, chunks) && c in chunks
    ensures CutFrom(p, blocks, c, lo, hi)
  {
    hide IdsDiffer, FillsGaps, ChunksTile, TablesWhole, LayoutIds, TableIds, PackedKind, KindOfBlock, IsBlockSlice, SentenceEndOffsets, IsText,
      IsSplitChunk, IsRunChunk, IsTableChunk, MustStop, WellMarked, CutFrom, BlockFits;
    FilledExactly(p.doc, blocks);
    FilledTile(p.doc.text, CollectedBlocks(p.doc), blocks);
    assert IsPacked(p, blocks, c);
    if b :| b in blocks && IsTableChunk(p, b, c) {
      lo :| 0 <= lo < |blocks| && blocks[lo] == b;
      hi := lo + 1;
      TableIsCut(p, b, c);
      SingleIsCut(p, blocks, lo, c);
    } else if j: nat, i: nat :| j < i <= |blocks| && IsRunChunk(p, blocks, j, i, c) {
      lo, hi := j, i;
      RunIsCut(p, blocks, j, i, c);
    } else {
      var b :| b in blocks && IsSplitChunk(p, b, c);
      lo :| 0 <= lo < |blocks| && blocks[lo] == b;
      hi := lo + 1;
      SliceIsCut(p, b, c);
      SingleIsCut(p, blocks, lo, c);
    }
  }

  /** A chunk that is a block, or a part of a block that does not fit. */
  lemma SingleIsCut(p: Packer, blocks: seq<ChunkBlock>, lo: nat, c: PackedChunk)
    requires lo < |blocks| && blocks[lo].startChar <= c.startChar < c.endChar <= blocks[lo].endChar
    requires (c.startChar == blocks[lo].startChar && c.endChar == blocks[lo].endChar) || !BlockFits(p, blocks[lo])
    requires c.layoutSpanIds == OptionToSeq(blocks[lo].layoutSpanId) && c.tableIds == OptionToSeq(blocks[lo].tableId)
    requires c.splitReason == OversizedSentence ==> c.kind == Overflow && !BlockFits(p, blocks[lo])
    requires c.splitReason != OversizedSentence ==> c.kind == KindOfBlock(blocks[lo].kind)
    ensures CutFrom(p, blocks, c, lo, lo + 1)
  {
    hide BlockFits, OptionToSeq, KindOfBlock, LayoutIds, TableIds, PackedKind;
    assert blocks[lo..lo + 1] == [blocks[lo]];
    OneBlock(blocks[lo]);
  }

  lemma TableIsCut(p: Packer, b: ChunkBlock, c: PackedChunk)
    requires IsTableChunk(p, b, c) && (IsBare(b) || IsOfText(p.doc, b) || IsOfTable(p.doc, b))
    ensures c.startChar == b.startChar && c.endChar == b.endChar && c.startChar < c.endChar
    ensures c.layoutSpanIds == OptionToSeq(b.layoutSpanId) && c.tableIds == OptionToSeq(b.tableId) && c.kind == KindOfBlock(b.kind)
    ensures c.splitReason != OversizedSentence
  {
    hide PageNumbersForRange, IsText, AllSpace;
  }

  lemma RunIsCut(p: Packer, blocks: seq<ChunkBlock>, j: nat, i: nat, c: PackedChunk)
    requires j < i <= |blocks| && IsRunChunk(p, blocks, j, i, c)
    ensures CutFrom(p, blocks, c, j, i)
  {
    hide PackedKind, LayoutIds, TableIds, PageNumbersForRange, MustStop;
    assert blocks[j..i][0] == blocks[j] && blocks[j..i][|blocks[j..i]| - 1] == blocks[i - 1];
  }

  lemma SliceIsCut(p: Packer, b: ChunkBlock, c: PackedChunk)
    requires IsSplitChunk(p, b, c)
    ensures b.startChar <= c.startChar < c.endChar <= b.endChar && !BlockFits(p, b) && b.kind != TableBlock
    ensures c.layoutSpanIds == OptionToSeq(b.layoutSpanId) && c.tableIds == OptionToSeq(b.tableId)
    ensures c.kind == if c.splitReason == OversizedSentence then Overflow else KindOfBlock(b.kind)
  {
    hide SentenceEndOffsets, PageNumbersForRange, IsSentenceRun, IsSentencePiece, KindOfBlock, OptionToSeq;
  }

  lemma {:induction false} IdsOfBlocks(blocks: seq<ChunkBlock>)
    ensures forall id :: id in LayoutIds(blocks) <==> exists k :: 0 <= k < |blocks| && blocks[k].layoutSpanId == Some(id)
    ensures forall id :: id in TableIds(blocks) <==> exists k :: 0 <= k < |blocks| && blocks[k].tableId == Some(id)
  {
    if blocks != [] {
      var rest := blocks[1..];
      IdsOfBlocks(rest);
      assert blocks == [blocks[0]] + rest;
      forall k | 0 <= k < |rest| ensures rest[k] == blocks[k + 1] {}
      forall id | id in LayoutIds(rest) ensures exists k :: 0 <= k < |blocks| && blocks[k].layoutSpanId == Some(id) {
        var k :| 0 <= k < |rest| && rest[k].layoutSpanId == Some(id);
        assert blocks[k + 1].layoutSpanId == Some(id);
      }
      forall id | id in TableIds(rest) ensures exists k :: 0 <= k < |blocks| && blocks[k].tableId == Some(id) {
        var k :| 0 <= k < |rest| && rest[k].tableId == Some(id);
        assert blocks[k + 1].tableId == Some(id);
      }
    }
  }

  /** The chunk lists the span. */
  predicate Lists(d: Document, c: PackedChunk, s: LayoutSpan) {
    s in d.layoutSpans && IsText(d, s) && s.spanId in c.layoutSpanIds
  }

  /** A span is listed exactly when one of the chunk's blocks is its block. */
  lemma ListsItsBlocks(p: Packer, blocks: seq<ChunkBlock>, c: PackedChunk, lo: nat, hi: nat, s: LayoutSpan)
    requires IdsDiffer(p.doc) && FillsGaps(p.doc.text, CollectedBlocks(p.doc), blocks, |p.doc.text|) && CutFrom(p, blocks, c, lo, hi)
    requires s in p.doc.layoutSpans && IsText(p.doc, s)
    ensures Lists(p.doc, c, s) <==> exists k :: lo <= k < hi && FillsText(p.doc.text, blocks[k], s)
  {
    hide FillsGaps, LayoutIds, TableIds, PackedKind, BlockFits, AllSpace, IsText;
    FilledExactly(p.doc, blocks);
    var part := blocks[lo..hi];
    IdsOfBlocks(part);
    if Lists(p.doc, c, s) {
      var k :| 0 <= k < |part| && part[k].layoutSpanId == Some(s.spanId);
      assert part[k] == blocks[lo + k] && part[k] in blocks;
      assert IsOfText(p.doc, part[k]);
      var other :| other in p.doc.layoutSpans && IsText(p.doc, other) && FillsText(p.doc.text, part[k], other);
      SameSpan(p.doc, s, other);
    }
    if k :| lo <= k < hi && FillsText(p.doc.text, blocks[k], s) {
      assert part[k - lo].layoutSpanId == Some(s.spanId);
    }
  }

  lemma SameSpan(d: Document, s: LayoutSpan, t: LayoutSpan)
    requires IdsDiffer(d) && s in d.layoutSpans && t in d.layoutSpans && s.spanId == t.spanId
    ensures s == t
  {
    var i :| 0 <= i < |d.layoutSpans| && d.layoutSpans[i] == s;
    var j :| 0 <= j < |d.layoutSpans| && d.layoutSpans[j] == t;
    assert LayoutIdsOf(d.layoutSpans)[i] == LayoutIdsOf(d.layoutSpans)[j];
  }

  predicate HasKind(blocks: seq<ChunkBlock>, kind: BlockKind) {
    exists k :: 0 <= k < |blocks| && blocks[k].kind == kind
  }

  lemma KindOfBlocks(blocks: seq<ChunkBlock>)
    ensures var section, paragraph, item, table :=
        HasKind(blocks, SectionBlock), HasKind(blocks, ParagraphBlock), HasKind(blocks, ListItemBlock), HasKind(blocks, TableBlock);
      PackedKind(blocks) ==
        if section then Section
        else if paragraph && !item && !table then Paragraph
        else if item && !paragraph && !table then ListItem
        else if table && !paragraph && !item then Table
        else Mixed
  {
    var kinds := set b | b in blocks && b.kind != MixedBlock :: b.kind;
    forall kind | kind != MixedBlock ensures kind in kinds <==> HasKind(blocks, kind) {
      if HasKind(blocks, kind) {
        var k :| 0 <= k < |blocks| && blocks[k].kind == kind;
        assert blocks[k] in blocks;
      }
    }
    assert forall kind :: kind in kinds ==> kind in {SectionBlock, ParagraphBlock, ListItemBlock, TableBlock};
  }

  /** The chunk lists a span of that role. */
  ghost predicate ListsRole(d: Document, c: PackedChunk, role: LayoutRole) {
    exists s :: Lists(d, c, s) && s.role == role
  }

  /** A block of a filled document has a kind other than mixed because of a span or a table. */
  lemma KindHasSource(d: Document, blocks: seq<ChunkBlock>, b: ChunkBlock)
    requires IdsDiffer(d) && FillsGaps(d.text, CollectedBlocks(d), blocks, |d.text|) && b in blocks
    ensures forall role :: SameKind(role, b.kind) ==> exists s :: s in d.layoutSpans && IsText(d, s) && s.role == role && FillsText(d.text, b, s)
    ensures b.tableId.Some? <==> b.kind == TableBlock
  {
    hide IdsDiffer, FillsGaps, IsText, CollectedBlocks, AllSpace;
    FilledExactly(d, blocks);
    forall role | SameKind(role, b.kind) ensures exists s :: s in d.layoutSpans && IsText(d, s) && s.role == role && FillsText(d.text, b, s) {
      assert IsOfText(d, b);
      var s :| s in d.layoutSpans && IsText(d, s) && FillsText(d.text, b, s);
      assert s.role == role;
    }
  }

  /** The roles that a chunk lists are the kinds of its blocks. */
  lemma RolesAreKinds(p: Packer, blocks: seq<ChunkBlock>, c: PackedChunk, lo: nat, hi: nat, role: LayoutRole, kind: BlockKind)
    requires IdsDiffer(p.doc) && FillsGaps(p.doc.text, CollectedBlocks(p.doc), blocks, |p.doc.text|) && CutFrom(p, blocks, c, lo, hi)
    requires SameKind(role, kind)
    ensures ListsRole(p.doc, c, role) <==> HasKind(blocks[lo..hi], kind)
  {
    hide FillsGaps, CutFrom, IsText, IdsDiffer, CollectedBlocks, Lists, AllSpace;
    IsCutIn(p, blocks, c, lo, hi);
    var part := blocks[lo..hi];
    if ListsRole(p.doc, c, role) {
      var s :| Lists(p.doc, c, s) && s.role == role;
      ListedIsText(p.doc, c, s);
      ListsItsBlocks(p, blocks, c, lo, hi, s);
      var k :| lo <= k < hi && FillsText(p.doc.text, blocks[k], s);
      assert part[k - lo].kind == kind;
    }
    if HasKind(part, kind) {
      var k :| 0 <= k < |part| && part[k].kind == kind;
      assert part[k] == blocks[lo + k];
      KindHasSource(p.doc, blocks, blocks[lo + k]);
      var s :| s in p.doc.layoutSpans && IsText(p.doc, s) && s.role == role && FillsText(p.doc.text, blocks[lo + k], s);
      ListsItsBlocks(p, blocks, c, lo, hi, s);
    }
  }

  lemma ListedIsText(d: Document, c: PackedChunk, s: LayoutSpan)
    requires Lists(d, c, s)
    ensures s in d.layoutSpans && IsText(d, s)
  {
  }

  lemma IsCutIn(p: Packer, blocks: seq<ChunkBlock>, c: PackedChunk, lo: nat, hi: nat)
    requires CutFrom(p, blocks, c, lo, hi)
    ensures lo < hi <= |blocks| && c.tableIds == TableIds(blocks[lo..hi])
    ensures HasKind(blocks[lo..hi], TableBlock) ==> blocks[lo].kind == TableBlock && hi == lo + 1
  {
    hide LayoutIds, TableIds, PackedKind, BlockFits;
  }

  /** A chunk has table ids exactly when it was cut from a table. */
  lemma TablesAreKinds(p: Packer, blocks: seq<ChunkBlock>, c: PackedChunk, lo: nat, hi: nat)
    requires IdsDiffer(p.doc) && FillsGaps(p.doc.text, CollectedBlocks(p.doc), blocks, |p.doc.text|) && CutFrom(p, blocks, c, lo, hi)
    ensures c.tableIds != [] <==> HasKind(blocks[lo..hi], TableBlock)
  {
    hide FillsGaps, CutFrom, IsText, IdsDiffer, TableIds, LayoutIds, CollectedBlocks, FillsText, SameKind;
    IsCutIn(p, blocks, c, lo, hi);
    var part := blocks[lo..hi];
    IdsOfBlocks(part);
    if c.tableIds != [] {
      assert c.tableIds[0] in TableIds(part);
      var k :| 0 <= k < |part| && part[k].tableId == Some(c.tableIds[0]);
      assert part[k] == blocks[lo + k];
      KindHasSource(p.doc, blocks, blocks[lo + k]);
    }
    if HasKind(part, TableBlock) {
      var k :| 0 <= k < |part| && part[k].kind == TableBlock;
      assert part[k] == blocks[lo + k];
      KindHasSource(p.doc, blocks, blocks[lo + k]);
      assert part[k].tableId.value in TableIds(part);
    }
  }

  /** The kind of a chunk, read off the roles of the spans and the tables that it lists. */
  lemma KindExactly(p: Packer, blocks: seq<ChunkBlock>, chunks: seq<PackedChunk>, c: PackedChunk)
    requires IdsDiffer(p.doc) && PacksDocument(p, blocks, chunks) && c in chunks
    ensures c.kind == Overflow <==> c.splitReason == OversizedSentence
    ensures c.kind != Overflow ==>
      var heading, paragraph, item := ListsRole(p.doc, c, HeadingRole), ListsRole(p.doc, c, ParagraphRole), ListsRole(p.doc, c, ListItemRole);
      && (c.kind == Section <==> heading)
      && (c.kind == Paragraph <==> paragraph && !heading && !item)
      && (c.kind == ListItem <==> item && !heading && !paragraph)
      && (c.kind == Table <==> c.tableIds != [])
      && (c.kind == Mixed <==> c.tableIds == [] && !heading && (paragraph <==> item))
  {
    hide IdsDiffer, FillsGaps, ListsRole, HasKind, PackedKind, LayoutIds, TableIds, AllPacked, ChunksTile, TablesWhole;
    var lo, hi := PackedIsCut(p, blocks, chunks, c);
    RolesAreKinds(p, blocks, c, lo, hi, HeadingRole, SectionBlock);
    RolesAreKinds(p, blocks, c, lo, hi, ParagraphRole, ParagraphBlock);
    RolesAreKinds(p, blocks, c, lo, hi, ListItemRole, ListItemBlock);
    TablesAreKinds(p, blocks, c, lo, hi);
    KindOfBlocks(blocks[lo..hi]);
    IsCutIn(p, blocks, c, lo, hi);
    TableAlone(blocks, lo, hi);
  }

  /** Why a chunk ends where it does: a table over the window, a piece of a sentence over the window, or a boundary. */
  lemma SplitReasonExactly(p: Packer, blocks: seq<ChunkBlock>, chunks: seq<PackedChunk>, c: PackedChunk)
    requires IdsDiffer(p.doc) && PacksDocument(p, blocks, chunks) && c in chunks
    ensures c.splitReason == AtomicTableOverflow <==> c.kind == Table && c.startChar <= c.endChar <= |p.doc.text| && !Fits(p, c.startChar, c.endChar)
    ensures c.splitReason == OversizedSentence <==> c.kind == Overflow
    ensures c.splitReason in {Boundary, AtomicTableOverflow, OversizedSentence}
  {
    hide IdsDiffer, FillsGaps, ChunksTile, TablesWhole, PackedKind, LayoutIds, TableIds, SentenceEndOffsets, IsSentenceRun, Fits;
    KindExactly(p, blocks, chunks, c);
    assert IsPacked(p, blocks, c) && WellMarked(p, c);
  }

  lemma TableAlone(blocks: seq<ChunkBlock>, lo: nat, hi: nat)
    requires lo < hi <= |blocks|
    ensures blocks[lo].kind == TableBlock && hi == lo + 1 ==>
      !HasKind(blocks[lo..hi], SectionBlock) && !HasKind(blocks[lo..hi], ParagraphBlock) && !HasKind(blocks[lo..hi], ListItemBlock)
  {
  }

  /** Blocks of a tiling follow one another. */
  lemma {:induction false} TileIsOrdered(blocks: seq<ChunkBlock>, hi: nat, i: nat, j: nat)
    requires BlocksTile(blocks, 0, hi) && i < j < |blocks|
    ensures blocks[i].endChar <= blocks[j].startChar
    decreases j
  {
    hide BlocksTile;
    BlockBounds(blocks, 0, hi, j);
    if i < j - 1 {
      TileIsOrdered(blocks, hi, i, j - 1);
      BlockBounds(blocks, 0, hi, j - 1);
    }
  }

  /** The heading fits the window, with whatever white space follows it. */
  ghost predicate HeadingFits(p: Packer, s: LayoutSpan) {
    forall e: nat :: s.range.startChar <= s.range.endChar <= e <= |p.doc.text| && AllSpace(p.doc.text[s.range.endChar..e]) ==>
      Fits(p, s.range.startChar, e)
  }

  /** A chunk shares a character with a block exactly when it was cut from it. */
  lemma SharesItsBlocks(p: Packer, blocks: seq<ChunkBlock>, c: PackedChunk, lo: nat, hi: nat, i: nat, x: nat)
    requires AreBlocksOf(p, blocks) && CutFrom(p, blocks, c, lo, hi) && i < |blocks|
    requires c.startChar <= x < c.endChar && blocks[i].startChar <= x < blocks[i].endChar
    ensures lo <= i < hi
  {
    hide BlocksTile, LayoutIds, TableIds, PackedKind, BlockFits;
    if i < lo {
      TileIsOrdered(blocks, |p.doc.text|, i, lo);
    } else if hi <= i {
      if hi - 1 < i {
        TileIsOrdered(blocks, |p.doc.text|, hi - 1, i);
      }
    }
  }

  /** The block of a text span. */
  lemma TextHasBlock(p: Packer, blocks: seq<ChunkBlock>, s: LayoutSpan) returns (i: nat)
    requires IdsDiffer(p.doc) && FillsGaps(p.doc.text, CollectedBlocks(p.doc), blocks, |p.doc.text|)
    requires s in p.doc.layoutSpans && IsText(p.doc, s)
    ensures i < |blocks| && FillsText(p.doc.text, blocks[i], s) && InText(p, blocks[i].startChar, blocks[i].endChar)
  {
    hide IdsDiffer, FillsGaps, IsText, BlocksTile, FillsText;
    FilledExactly(p.doc, blocks);
    FilledTile(p.doc.text, CollectedBlocks(p.doc), blocks);
    var b :| b in blocks && FillsText(p.doc.text, b, s);
    i :| 0 <= i < |blocks| && blocks[i] == b;
    BlockBounds(blocks, 0, |p.doc.text|, i);
  }

  /** The chunk that holds a character, and the blocks it was cut from. */
  lemma ChunkAt(p: Packer, blocks: seq<ChunkBlock>, chunks: seq<PackedChunk>, x: nat) returns (c: PackedChunk, lo: nat, hi: nat)
    requires IdsDiffer(p.doc) && PacksDocument(p, blocks, chunks) && x < |p.doc.text|
    ensures c in chunks && c.startChar <= x < c.endChar && CutFrom(p, blocks, c, lo, hi)
  {
    hide IdsDiffer, FillsGaps, AllPacked, TablesWhole, ChunksTile, CutFrom;
    TilingIsExact(chunks, 0, |p.doc.text|, x);
    var k: nat :| k < |chunks| && Holds(chunks[k], x);
    c := chunks[k];
    lo, hi := PackedIsCut(p, blocks, chunks, c);
  }

  /** Every heading that fits starts a chunk of kind section. */
  lemma HeadingStartsSection(p: Packer, blocks: seq<ChunkBlock>, chunks: seq<PackedChunk>, s: LayoutSpan)
    requires IdsDiffer(p.doc) && ValidLayout(p.doc) && PacksDocument(p, blocks, chunks)
    requires s in p.doc.layoutSpans && IsText(p.doc, s) && s.role == HeadingRole && HeadingFits(p, s)
    ensures exists c :: c in chunks && c.startChar == s.range.startChar && c.kind == Section && Lists(p.doc, c, s)
  {
    hide IdsDiffer, FillsGaps, IsText, CutFrom, AllPacked, TablesWhole, ChunksTile, BlocksTile, HeadingFits, Lists, ListsRole, BlockFits;
    FilledTile(p.doc.text, CollectedBlocks(p.doc), blocks);
    var i := TextHasBlock(p, blocks, s);
    var c, lo, hi := ChunkAt(p, blocks, chunks, blocks[i].startChar);
    SharesItsBlocks(p, blocks, c, lo, hi, i, blocks[i].startChar);
    HeadingBlockFits(p, blocks[i], s);
    SectionIsFirst(p, blocks, c, lo, hi, i);
    assert FillsText(p.doc.text, blocks[lo], s);
    ListsItsBlocks(p, blocks, c, lo, hi, s);
    HeadingGivesKind(p, blocks, chunks, c, s);
  }

  lemma HeadingGivesKind(p: Packer, blocks: seq<ChunkBlock>, chunks: seq<PackedChunk>, c: PackedChunk, s: LayoutSpan)
    requires IdsDiffer(p.doc) && PacksDocument(p, blocks, chunks) && c in chunks
    requires Lists(p.doc, c, s) && s.role == HeadingRole && c.splitReason != OversizedSentence
    ensures c.kind == Section
  {
    hide IdsDiffer, PacksDocument, Lists;
    assert ListsRole(p.doc, c, HeadingRole);
    KindExactly(p, blocks, chunks, c);
  }

  lemma SectionIsFirst(p: Packer, blocks: seq<ChunkBlock>, c: PackedChunk, lo: nat, hi: nat, i: nat)
    requires CutFrom(p, blocks, c, lo, hi) && lo <= i < hi && blocks[i].kind == SectionBlock && BlockFits(p, blocks[i])
    ensures i == lo && c.startChar == blocks[lo].startChar && c.splitReason != OversizedSentence
  {
    hide LayoutIds, TableIds, PackedKind, BlockFits;
  }

  lemma HeadingBlockFits(p: Packer, b: ChunkBlock, s: LayoutSpan)
    requires FillsText(p.doc.text, b, s) && HeadingFits(p, s) && InText(p, b.startChar, b.endChar)
    requires s.range.startChar <= s.range.endChar
    ensures BlockFits(p, b)
  {
    hide Fits, AllSpace;
  }

  /** The chunk begins with the span, or holds nothing but a slice of it. */
  predicate Leads(s: LayoutSpan, c: PackedChunk) {
    s.range.startChar <= c.startChar && (c.startChar == s.range.startChar || c.layoutSpanIds == [s.spanId])
  }

  /** No chunk is a section without a heading: it starts with one, or is a slice of one. */
  lemma SectionHasHeading(p: Packer, blocks: seq<ChunkBlock>, chunks: seq<PackedChunk>, c: PackedChunk)
    requires IdsDiffer(p.doc) && PacksDocument(p, blocks, chunks) && c in chunks && c.kind == Section
    ensures exists s :: Lists(p.doc, c, s) && s.role == HeadingRole && Leads(s, c)
  {
    hide IdsDiffer, PacksDocument, Lists, CutFrom, FillsText;
    KindExactly(p, blocks, chunks, c);
    var s :| Lists(p.doc, c, s) && s.role == HeadingRole;
    var lo, hi := PackedIsCut(p, blocks, chunks, c);
    HeadingLeads(p, blocks, chunks, c, lo, hi, s);
  }

  lemma HeadingLeads(p: Packer, blocks: seq<ChunkBlock>, chunks: seq<PackedChunk>, c: PackedChunk, lo: nat, hi: nat, s: LayoutSpan)
    requires IdsDiffer(p.doc) && PacksDocument(p, blocks, chunks) && CutFrom(p, blocks, c, lo, hi) && Lists(p.doc, c, s) && s.role == HeadingRole
    ensures Leads(s, c)
  {
    hide IdsDiffer, FillsGaps, LayoutIds, TableIds, PackedKind, BlockFits, AllPacked, TablesWhole, ChunksTile, AllSpace, IsText;
    ListsItsBlocks(p, blocks, c, lo, hi, s);
    var k :| lo <= k < hi && FillsText(p.doc.text, blocks[k], s);
    assert k == lo;
    if hi == lo + 1 {
      assert blocks[lo..hi] == [blocks[lo]];
      OneBlock(blocks[lo]);
    }
  }

  /** A chunk lists exactly the spans that it shares a character with, except that a slice of a span that
      does not fit may hold the white space behind it only. */
  lemma ListsWhatItShares(p: Packer, blocks: seq<ChunkBlock>, chunks: seq<PackedChunk>, c: PackedChunk, s: LayoutSpan)
    requires IdsDiffer(p.doc) && ValidLayout(p.doc) && PacksDocument(p, blocks, chunks) && c in chunks
    requires s in p.doc.layoutSpans && IsText(p.doc, s)
    ensures s.range.startChar < c.endChar && c.startChar < s.range.endChar ==> Lists(p.doc, c, s)
    ensures Lists(p.doc, c, s) ==>
      && s.range.startChar < c.endChar
      && (c.startChar < s.range.endChar || (c.startChar <= |p.doc.text| && AllSpace(p.doc.text[s.range.endChar..c.startChar])))
  {
    hide IdsDiffer, FillsGaps, IsText, CutFrom, AllPacked, TablesWhole, ChunksTile, BlocksTile, Lists, AllSpace;
    FilledTile(p.doc.text, CollectedBlocks(p.doc), blocks);
    var lo, hi := PackedIsCut(p, blocks, chunks, c);
    if s.range.startChar < c.endChar && c.startChar < s.range.endChar {
      var i := TextHasBlock(p, blocks, s);
      var x := if s.range.startChar < c.startChar then c.startChar else s.range.startChar;
      CutIsNonEmpty(p, blocks, c, lo, hi);
      SharesItsBlocks(p, blocks, c, lo, hi, i, x);
      assert FillsText(p.doc.text, blocks[i], s);
      ListsItsBlocks(p, blocks, c, lo, hi, s);
    }
    if Lists(p.doc, c, s) {
      CutIsNonEmpty(p, blocks, c, lo, hi);
      ListsItsBlocks(p, blocks, c, lo, hi, s);
      var k :| lo <= k < hi && FillsText(p.doc.text, blocks[k], s);
      CutReaches(p, blocks, c, lo, hi, k);
      WhiteUpTo(p.doc.text, blocks[k], s, c.startChar);
    }
  }

  lemma CutIsNonEmpty(p: Packer, blocks: seq<ChunkBlock>, c: PackedChunk, lo: nat, hi: nat)
    requires CutFrom(p, blocks, c, lo, hi)
    ensures c.startChar < c.endChar && lo < hi <= |blocks|
  {
    hide LayoutIds, TableIds, PackedKind, BlockFits;
  }

  lemma CutReaches(p: Packer, blocks: seq<ChunkBlock>, c: PackedChunk, lo: nat, hi: nat, k: nat)
    requires AreBlocksOf(p, blocks) && CutFrom(p, blocks, c, lo, hi) && lo <= k < hi
    ensures blocks[k].startChar < c.endChar && c.startChar < blocks[k].endChar
  {
    hide LayoutIds, TableIds, PackedKind, BlockFits, BlocksTile;
    BlockBounds(blocks, 0, |p.doc.text|, k);
    if lo < k {
      TileIsOrdered(blocks, |p.doc.text|, lo, k);
    }
    if k < hi - 1 {
      TileIsOrdered(blocks, |p.doc.text|, k, hi - 1);
    }
    BlockBounds(blocks, 0, |p.doc.text|, hi - 1);
    BlockBounds(blocks, 0, |p.doc.text|, lo);
  }

  lemma WhiteUpTo(text: string, b: ChunkBlock, s: LayoutSpan, x: nat)
    requires FillsText(text, b, s) && x < b.endChar
    ensures x < s.range.endChar || (x <= |text| && AllSpace(text[s.range.endChar..x]))
  {
    if s.range.endChar <= x {
      assert forall i :: 0 <= i < x - s.range.endChar ==> text[s.range.endChar..x][i] == text[s.range.endChar..b.endChar][i];
    }
  }

  predicate IsOnBoth(page: PageSpan, start: nat, end: nat, x: int) {
    start <= x < end && page.startChar <= x < page.endChar
  }

  /** The page shares a character with the range, or is empty and lies inside it. */
  ghost predicate TouchesPage(page: PageSpan, start: nat, end: nat) {
    || (exists x :: IsOnBoth(page, start, end, x))
    || start < page.startChar == page.endChar < end
  }

  lemma {:induction false} PageNumbersExactly(pages: seq<PageSpan>, start: nat, end: nat, n: nat)
    requires start < end && ValidPages(pages)
    ensures n in PageNumbersForRange(pages, start, end) <==> exists page :: page in pages && page.pageNumber == n && TouchesPage(page, start, end)
  {
    hide TouchesPage;
    if pages != [] {
      PageNumbersExactly(pages[1..], start, end, n);
      TouchesExactly(pages[0], start, end);
      assert pages == [pages[0]] + pages[1..];
    }
  }

  lemma TouchesExactly(page: PageSpan, start: nat, end: nat)
    requires start < end && page.startChar <= page.endChar
    ensures TouchesPage(page, start, end) <==> start < page.endChar && page.startChar < end
  {
    if start < page.endChar && page.startChar < end && page.startChar < page.endChar {
      var x := if start < page.startChar then page.startChar else start;
      assert IsOnBoth(page, start, end, x);
    }
  }

  /** A chunk names exactly the pages that it touches. */
  lemma NamesItsPages(p: Packer, blocks: seq<ChunkBlock>, chunks: seq<PackedChunk>, c: PackedChunk, n: nat)
    requires ValidLayout(p.doc) && PacksDocument(p, blocks, chunks) && c in chunks
    ensures n in c.pageNumbers <==> exists page :: page in p.doc.pageMap && page.pageNumber == n && TouchesPage(page, c.startChar, c.endChar)
  {
    hide FillsGaps, ChunksTile, TablesWhole, PackedKind, LayoutIds, TableIds, SentenceEndOffsets, IsSentenceRun, PageNumbersForRange, TouchesPage, MustStop,
      MayShare;
    assert IsPacked(p, blocks, c) && WellMarked(p, c);
    assert c.pageNumbers == PageNumbersForRange(p.doc.pageMap, c.startChar, c.endChar);
    PageNumbersExactly(p.doc.pageMap, c.startChar, c.endChar, n);
  }

  /** The ids of the blocks, in the order of the blocks. */
  ghost predicate FollowsBlocks(blocks: seq<ChunkBlock>, ids: seq<LayoutId>, at: seq<nat>) {
    && |at| == |ids|
    && (forall i :: 0 <= i < |at| ==> at[i] < |blocks| && blocks[at[i]].layoutSpanId == Some(ids[i]))
    && forall i, j :: 0 <= i < j < |at| ==> at[i] < at[j]
  }

  lemma {:induction false} IdsFollowBlocks(blocks: seq<ChunkBlock>) returns (at: seq<nat>)
    ensures FollowsBlocks(blocks, LayoutIds(blocks), at)
  {
    at := [];
    if blocks != [] {
      var rest := IdsFollowBlocks(blocks[1..]);
      at := MovedOn(blocks, LayoutIds(blocks[1..]), rest);
      if blocks[0].layoutSpanId.Some? {
        at := WithFirst(blocks, LayoutIds(blocks[1..]), at);
      } else {
        assert [] + LayoutIds(blocks[1..]) == LayoutIds(blocks[1..]);
      }
    }
  }

  lemma MovedOn(blocks: seq<ChunkBlock>, ids: seq<LayoutId>, rest: seq<nat>) returns (at: seq<nat>)
    requires blocks != [] && FollowsBlocks(blocks[1..], ids, rest)
    ensures FollowsBlocks(blocks, ids, at) && forall i :: 0 <= i < |at| ==> at[i] > 0
  {
    at := seq(|rest|, i requires 0 <= i < |rest| => rest[i] + 1);
    forall i | 0 <= i < |at| ensures at[i] < |blocks| && blocks[at[i]].layoutSpanId == Some(ids[i]) {
      assert blocks[at[i]] == blocks[1..][rest[i]];
    }
  }

  lemma WithFirst(blocks: seq<ChunkBlock>, ids: seq<LayoutId>, moved: seq<nat>) returns (at: seq<nat>)
    requires blocks != [] && blocks[0].layoutSpanId.Some?
    requires FollowsBlocks(blocks, ids, moved) && forall i :: 0 <= i < |moved| ==> moved[i] > 0
    ensures FollowsBlocks(blocks, [blocks[0].layoutSpanId.value] + ids, at)
  {
    at := [0] + moved;
  }

  /** A chunk lists its spans in the order of the document. */
  lemma ListsInOrder(p: Packer, blocks: seq<ChunkBlock>, chunks: seq<PackedChunk>, c: PackedChunk, i: nat, j: nat, s: LayoutSpan, t: LayoutSpan)
    requires IdsDiffer(p.doc) && PacksDocument(p, blocks, chunks) && c in chunks && i < j < |c.layoutSpanIds|
    requires s in p.doc.layoutSpans && t in p.doc.layoutSpans && s.spanId == c.layoutSpanIds[i] && t.spanId == c.layoutSpanIds[j]
    ensures s.range.startChar < t.range.startChar
  {
    hide IdsDiffer, FillsGaps, AllPacked, ChunksTile, TablesWhole, BlocksTile, LayoutIds, TableIds, PackedKind, BlockFits, IsText, AllSpace;
    FilledTile(p.doc.text, CollectedBlocks(p.doc), blocks);
    var lo, hi := PackedIsCut(p, blocks, chunks, c);
    var at := IdsFollowBlocks(blocks[lo..hi]);
    var k, m := lo + at[i], lo + at[j];
    assert blocks[k] == blocks[lo..hi][at[i]] && blocks[m] == blocks[lo..hi][at[j]];
    BlockStartsAtItsSpan(p, blocks, k, s);
    BlockStartsAtItsSpan(p, blocks, m, t);
    TileIsOrdered(blocks, |p.doc.text|, k, m);
    BlockBounds(blocks, 0, |p.doc.text|, k);
  }

  lemma BlockStartsAtItsSpan(p: Packer, blocks: seq<ChunkBlock>, k: nat, s: LayoutSpan)
    requires IdsDiffer(p.doc) && FillsGaps(p.doc.text, CollectedBlocks(p.doc), blocks, |p.doc.text|) && k < |blocks|
    requires s in p.doc.layoutSpans && blocks[k].layoutSpanId == Some(s.spanId)
    ensures blocks[k].startChar == s.range.startChar
  {
    hide IdsDiffer, FillsGaps, IsText, AllSpace, CollectedBlocks;
    FilledExactly(p.doc, blocks);
    assert blocks[k] in blocks && IsOfText(p.doc, blocks[k]);
    var other :| other in p.doc.layoutSpans && IsText(p.doc, other) && FillsText(p.doc.text, blocks[k], other);
    SameSpan(p.doc, s, other);
  }
}
