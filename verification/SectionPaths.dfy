/** chunker/tokenizer.py, layout-aware mode, from end to end: what the chunk records say about the
    document, and which heading each of them hangs from. */
module SectionPaths {
  import opened Utf8
  import opened Wrappers
  import opened Contracts
  import opened Whitespace
  import opened BoundaryContracts
  import opened Packing
  import opened LayoutBlocks
  import opened GreedyPacking
  import opened LayoutKinds
  import opened ChunkKinds
  import opened LayoutChunks

  /** `a..b` is the first line of the text that is not blank. */
  predicate IsFirstLine(text: string, a: nat, b: nat) {
    && a < b <= |text| && AllSpace(text[..a]) && !AllSpace(text[a..b])
    && (a == 0 || IsLineBreak(text[a - 1])) && (b == |text| || IsLineBreak(text[b]))
    && forall i :: a <= i < b ==> !IsLineBreak(text[i])
  }

  predicate IsTitle(text: string, title: string) {
    exists a: nat, b: nat :: a < b <= |text| && IsFirstLine(text, a, b) && IsTrimmed(text[a..b], title)
  }

  lemma {:induction false} LineEndIsFirst(text: string, i: nat)
    requires i <= |text|
    ensures forall k :: i <= k < LineEnd(text, i) ==> !IsLineBreak(text[k])
    decreases |text| - i
  {
    if i < |text| && !IsLineBreak(text[i]) {
      LineEndIsFirst(text, i + 1);
    }
  }

  lemma BreaksAreSpace(c: char)
    ensures IsLineBreak(c) ==> IsSpace(c)
  {
  }

  /** The first content line is the first line that is not blank, trimmed. */
  lemma {:induction false} FirstContentLineIsTitle(text: string)
    ensures FirstContentLine(text).Some? ==> IsTitle(text, FirstContentLine(text).value)
    decreases |text|
  {
    hide IsTrimmed, Strip, IsLineBreak;
    var end := LineEnd(text, 0);
    LineEndIsFirst(text, 0);
    StripTrims(text[..end]);
    if Strip(text[..end]) != [] {
      assert text[0..end] == text[..end] && text[..0] == [];
      assert IsFirstLine(text, 0, end);
    } else if end < |text| {
      var rest := text[end + 1..];
      FirstContentLineIsTitle(rest);
      if FirstContentLine(rest).Some? {
        var a: nat, b: nat :| IsFirstLine(rest, a, b) && IsTrimmed(rest[a..b], FirstContentLine(rest).value);
        BreaksAreSpace(text[end]);
        LineMoves(text, end, a, b);
      }
    }
  }

  lemma LineMoves(text: string, end: nat, a: nat, b: nat)
    requires end < |text| && AllSpace(text[..end]) && IsSpace(text[end]) && IsLineBreak(text[end]) && IsFirstLine(text[end + 1..], a, b)
    ensures IsFirstLine(text, end + 1 + a, end + 1 + b) && text[end + 1 + a..end + 1 + b] == text[end + 1..][a..b]
  {
    hide IsLineBreak;
    var rest := text[end + 1..];
    assert text[end + 1 + a..end + 1 + b] == rest[a..b];
    assert text[..end + 1 + a] == text[..end] + [text[end]] + rest[..a];
    forall i | end + 1 + a <= i < end + 1 + b ensures !IsLineBreak(text[i]) {
      assert text[i] == rest[i - end - 1];
    }
  }

  /** The record of a chunk shows its packed chunk, and the hierarchy changes path and parent only. */
  predicate ShowsPacked(text: string, c: Chunk, packed: PackedChunk) {
    && packed.startChar <= packed.endChar <= |text|
    && c.startChar == packed.startChar && c.endChar == packed.endChar && c.text == text[packed.startChar..packed.endChar]
    && c.layout.kind == packed.kind && c.layout.splitReason == packed.splitReason && c.layout.layoutSpanIds == packed.layoutSpanIds
    && c.layout.tableIds == packed.tableIds && c.layout.pageNumbers == packed.pageNumbers
  }

  lemma RecordsShowPacked(p: Packer, blocks: seq<ChunkBlock>, packed: seq<PackedChunk>, chunks: seq<Chunk>, updated: seq<Chunk>, k: nat)
    requires ChunksDocument(p, blocks, packed, chunks, updated) && k < |updated|
    ensures |updated| == |packed| == |chunks| && ShowsPacked(p.doc.text, chunks[k], packed[k]) && ShowsPacked(p.doc.text, updated[k], packed[k])
    ensures updated[k].chunkId == chunks[k].chunkId
  {
    hide PacksDocument, TilesDocument, ChunkExact, ValidChunk, Label, PrependUniqueDependency;
    assert BuiltFrom(p, packed, chunks, k) && HangsCorrectly(chunks, updated, k);
  }

  /** Between chunks `j` and `k` there is no section with content. */
  predicate NoSectionBetween(updated: seq<Chunk>, j: int, k: nat) {
    forall m :: 0 <= m < |updated| && j < m < k ==> updated[m].layout.kind != Section || AllSpace(updated[m].text)
  }

  /** Chunk `k` hangs from section `j`, the last before it that is not blank, under that section's title. */
  predicate HangsFrom(updated: seq<Chunk>, k: nat, j: nat) {
    && j < k < |updated| && updated[j].layout.kind == Section && !AllSpace(updated[j].text) && NoSectionBetween(updated, j, k)
    && updated[k].layout.parentChunkId == Some(updated[j].chunkId) && updated[k].layout.dependsOn == [updated[j].chunkId]
    && |updated[k].layout.sectionPath| == 1 && IsTitle(updated[j].text, updated[k].layout.sectionPath[0])
  }

  predicate HangsFromNothing(updated: seq<Chunk>, k: nat) {
    && k < |updated| && NoSectionBetween(updated, -1, k)
    && updated[k].layout.parentChunkId == None && updated[k].layout.dependsOn == [] && updated[k].layout.sectionPath == []
  }

  /** Section `k` hangs from nothing and carries its own title, unless it is blank. */
  predicate IsTop(updated: seq<Chunk>, k: nat) {
    && k < |updated| && updated[k].layout.parentChunkId == None && updated[k].layout.dependsOn == []
    && if AllSpace(updated[k].text) then updated[k].layout.sectionPath == []
       else |updated[k].layout.sectionPath| == 1 && IsTitle(updated[k].text, updated[k].layout.sectionPath[0])
  }

  /** Where every chunk of a chunked document hangs. */
  lemma EveryChunkHangs(p: Packer, blocks: seq<ChunkBlock>, packed: seq<PackedChunk>, chunks: seq<Chunk>, updated: seq<Chunk>, k: nat)
    requires ChunksDocument(p, blocks, packed, chunks, updated) && k < |updated|
    ensures if updated[k].layout.kind == Section then IsTop(updated, k)
      else HangsFromNothing(updated, k) || exists j :: 0 <= j < k && HangsFrom(updated, k, j)
  {
    hide PacksDocument, IsTitle, FirstContentLine, AllSpace, ChunkExact, NoSectionBetween, LatestSection;
    RecordsShowPacked(p, blocks, packed, chunks, updated, k);
    SectionsAreSame(p, blocks, packed, chunks, updated, k);
    assert IsFresh(p.doc, chunks[k], k) && HangsCorrectly(chunks, updated, k) && BuiltFrom(p, packed, chunks, k);
    FreshHasNoPath(p, packed, chunks, k);
    FirstContentLineIsTitle(chunks[k].text);
    if updated[k].layout.kind != Section && LatestSection(chunks, k).Some? {
      var j := LatestSection(chunks, k).value;
      RecordsShowPacked(p, blocks, packed, chunks, updated, j);
      FirstContentLineIsTitle(chunks[j].text);
      assert HangsFrom(updated, k, j);
    }
  }

  lemma FreshHasNoPath(p: Packer, packed: seq<PackedChunk>, chunks: seq<Chunk>, k: nat)
    requires BuiltFrom(p, packed, chunks, k)
    ensures chunks[k].layout.sectionPath == []
  {
    hide ChunkExact, ValidChunk;
  }

  lemma SectionsAreSame(p: Packer, blocks: seq<ChunkBlock>, packed: seq<PackedChunk>, chunks: seq<Chunk>, updated: seq<Chunk>, k: nat)
    requires ChunksDocument(p, blocks, packed, chunks, updated) && k < |updated|
    ensures |chunks| == |updated|
    ensures match LatestSection(chunks, k)
      case None => NoSectionBetween(updated, -1, k)
      case Some(j) => NoSectionBetween(updated, j, k)
  {
    hide ChunksDocument, AllSpace;
    RecordsShowPacked(p, blocks, packed, chunks, updated, k);
    forall m: nat | m < |updated| ensures |chunks| == |updated| && updated[m].layout.kind == chunks[m].layout.kind && updated[m].text == chunks[m].text {
      RecordsShowPacked(p, blocks, packed, chunks, updated, m);
    }
  }

  /** No other heading begins after `s` and at or before `x`. */
  predicate IsLatestHeading(d: Document, s: LayoutSpan, x: nat) {
    forall h :: h in d.layoutSpans && IsText(d, h) && h.role == HeadingRole ==> h.range.startChar <= s.range.startChar || x < h.range.startChar
  }

  /** A section that starts after the chunk of a heading begins a later heading. */
  lemma LaterSectionIsLaterHeading(p: Packer, blocks: seq<ChunkBlock>, packed: seq<PackedChunk>, s: LayoutSpan, first: PackedChunk, c: PackedChunk)
    requires IdsDiffer(p.doc) && ValidLayout(p.doc) && PacksDocument(p, blocks, packed) && first in packed && c in packed
    requires Lists(p.doc, first, s) && first.startChar == s.range.startChar && HeadingFits(p, s)
    requires c.kind == Section && first.endChar <= c.startChar
    ensures exists h :: h in p.doc.layoutSpans && IsText(p.doc, h) && h.role == HeadingRole && s.range.startChar < h.range.startChar <= c.startChar
  {
    hide IdsDiffer, FillsGaps, IsText, CutFrom, AllPacked, TablesWhole, ChunksTile, BlocksTile, AllSpace, HeadingFits, BlockFits, ListsRole;
    FilledTile(p.doc.text, CollectedBlocks(p.doc), blocks);
    var lo, hi := PackedIsCut(p, blocks, packed, first);
    var i := TextHasBlock(p, blocks, s);
    HeadingBlockFits(p, blocks[i], s);
    CutIsNonEmpty(p, blocks, first, lo, hi);
    SharesItsBlocks(p, blocks, first, lo, hi, i, s.range.startChar);
    EndsBehindItsBlock(p, blocks, first, lo, hi, i);
    SectionHasHeading(p, blocks, packed, c);
    KindExactly(p, blocks, packed, c);
    var h :| Lists(p.doc, c, h) && h.role == HeadingRole && Leads(h, c);
    var from, to := PackedIsCut(p, blocks, packed, c);
    CutIsNonEmpty(p, blocks, c, from, to);
    ListsItsBlocks(p, blocks, c, from, to, h);
    var k :| from <= k < to && FillsText(p.doc.text, blocks[k], h);
    CutReaches(p, blocks, c, from, to, from);
    if k < i {
      TileIsOrdered(blocks, |p.doc.text|, k, i);
      TileIsOrdered(blocks, |p.doc.text|, from, i) by {
        assert from < i;
      }
    } else if i < k {
      TileIsOrdered(blocks, |p.doc.text|, i, k);
    } else if from < k {
      TileIsOrdered(blocks, |p.doc.text|, from, k);
    }
  }

  lemma EndsBehindItsBlock(p: Packer, blocks: seq<ChunkBlock>, c: PackedChunk, lo: nat, hi: nat, i: nat)
    requires AreBlocksOf(p, blocks) && CutFrom(p, blocks, c, lo, hi) && lo <= i < hi && BlockFits(p, blocks[i])
    ensures blocks[i].endChar <= c.endChar
  {
    hide BlocksTile, LayoutIds, TableIds, PackedKind, BlockFits;
    if i < hi - 1 {
      TileIsOrdered(blocks, |p.doc.text|, i, hi - 1);
      BlockBounds(blocks, 0, |p.doc.text|, hi - 1);
    }
  }

  /** Every chunk that is not a section hangs from the chunk that starts with the latest heading before it,
      when that heading fits the window and is not blank. */
  lemma HangsFromItsHeading(p: Packer, blocks: seq<ChunkBlock>, packed: seq<PackedChunk>, chunks: seq<Chunk>, updated: seq<Chunk>, s: LayoutSpan, k: nat)
    requires IdsDiffer(p.doc) && ValidLayout(p.doc) && ChunksDocument(p, blocks, packed, chunks, updated) && k < |updated|
    requires s in p.doc.layoutSpans && IsText(p.doc, s) && s.role == HeadingRole && HeadingFits(p, s)
    requires s.range.endChar <= |p.doc.text| && !AllSpace(p.doc.text[s.range.startChar..s.range.endChar])
    requires updated[k].layout.kind != Section && s.range.startChar < updated[k].startChar && IsLatestHeading(p.doc, s, updated[k].startChar)
    ensures exists j :: 0 <= j < k && HangsFrom(updated, k, j) && updated[j].startChar == s.range.startChar
  {
    hide IdsDiffer, ValidLayout, PacksDocument, IsText, HeadingFits, AllSpace, IsLatestHeading, HangsFrom, HangsFromNothing, Lists, TilesDocument, HangsCorrectly, BuiltFrom;
    HeadingStartsSection(p, blocks, packed, s);
    var first :| first in packed && first.startChar == s.range.startChar && first.kind == Section && Lists(p.doc, first, s);
    var f :| 0 <= f < |packed| && packed[f] == first;
    RecordsShowPacked(p, blocks, packed, chunks, updated, f);
    RecordsShowPacked(p, blocks, packed, chunks, updated, k);
    InOrder(p, blocks, packed, f, k);
    FirstIsNotBlank(p, blocks, packed, first, s);
    forall m | f < m < k ensures updated[m].layout.kind != Section {
      RecordsShowPacked(p, blocks, packed, chunks, updated, m);
      InOrder(p, blocks, packed, f, m);
      InOrder(p, blocks, packed, m, k);
      NoLaterHeading(p.doc, s, updated[k].startChar, packed[m].startChar);
      if packed[m].kind == Section {
        LaterSectionIsLaterHeading(p, blocks, packed, s, first, packed[m]);
      }
    }
    EveryChunkHangs(p, blocks, packed, chunks, updated, k);
    HangsFromThat(updated, k, f);
  }

  lemma NoLaterHeading(d: Document, s: LayoutSpan, x: nat, y: nat)
    requires IsLatestHeading(d, s, x) && y <= x
    ensures !exists h :: h in d.layoutSpans && IsText(d, h) && h.role == HeadingRole && s.range.startChar < h.range.startChar <= y
  {
    hide IsText;
  }

  lemma HangsFromThat(updated: seq<Chunk>, k: nat, f: nat)
    requires f < k < |updated| && updated[f].layout.kind == Section && !AllSpace(updated[f].text)
    requires forall m :: f < m < k ==> updated[m].layout.kind != Section
    requires HangsFromNothing(updated, k) || exists j :: 0 <= j < k && HangsFrom(updated, k, j)
    ensures HangsFrom(updated, k, f)
  {
    hide AllSpace, IsTitle;
    if HangsFromNothing(updated, k) {
      assert false;
    } else {
      var j :| 0 <= j < k && HangsFrom(updated, k, j);
      assert j == f;
    }
  }

  /** Chunks are in the order of their offsets. */
  lemma InOrder(p: Packer, blocks: seq<ChunkBlock>, packed: seq<PackedChunk>, i: nat, k: nat)
    requires PacksDocument(p, blocks, packed) && i < |packed| && k < |packed|
    ensures packed[i].startChar < packed[i].endChar && packed[k].startChar < packed[k].endChar
    ensures i < k <==> packed[i].startChar < packed[k].startChar
    ensures i < k ==> packed[i].endChar <= packed[k].startChar
  {
    hide FillsGaps, AllPacked, TablesWhole, ChunksTile;
    TileMembers(packed, 0, |p.doc.text|);
    assert packed[i] in packed && packed[k] in packed;
    if i < k {
      PackedIsOrdered(packed, |p.doc.text|, i, k);
    } else if k < i {
      PackedIsOrdered(packed, |p.doc.text|, k, i);
    }
  }

  lemma {:induction false} PackedIsOrdered(packed: seq<PackedChunk>, hi: nat, i: nat, k: nat)
    requires ChunksTile(packed, 0, hi) && i < k < |packed|
    ensures packed[i].endChar <= packed[k].startChar
    decreases k
  {
    hide ChunksTile;
    TilingAdjoins(packed, 0, hi, k);
    if i < k - 1 {
      PackedIsOrdered(packed, hi, i, k - 1);
      TileMembers(packed, 0, hi);
      assert packed[k - 1] in packed;
    }
  }

  /** The chunk of a heading that is not blank is not blank. */
  lemma FirstIsNotBlank(p: Packer, blocks: seq<ChunkBlock>, packed: seq<PackedChunk>, c: PackedChunk, s: LayoutSpan)
    requires IdsDiffer(p.doc) && ValidLayout(p.doc) && PacksDocument(p, blocks, packed) && c in packed && Lists(p.doc, c, s) && HeadingFits(p, s)
    requires s.range.endChar <= |p.doc.text| && !AllSpace(p.doc.text[s.range.startChar..s.range.endChar]) && c.startChar == s.range.startChar
    ensures c.endChar <= |p.doc.text| && c.startChar <= c.endChar && !AllSpace(p.doc.text[c.startChar..c.endChar])
  {
    hide IdsDiffer, FillsGaps, IsText, CutFrom, AllPacked, TablesWhole, ChunksTile, BlocksTile, HeadingFits, BlockFits;
    FilledTile(p.doc.text, CollectedBlocks(p.doc), blocks);
    TileMembers(packed, 0, |p.doc.text|);
    var lo, hi := PackedIsCut(p, blocks, packed, c);
    var i := TextHasBlock(p, blocks, s);
    HeadingBlockFits(p, blocks[i], s);
    SharesItsBlocks(p, blocks, c, lo, hi, i, s.range.startChar);
    EndsBehindItsBlock(p, blocks, c, lo, hi, i);
    LongerIsNotBlank(p.doc.text, c.startChar, s.range.endChar, c.endChar);
  }

  lemma LongerIsNotBlank(text: string, a: nat, b: nat, c: nat)
    requires a <= b <= c <= |text| && !AllSpace(text[a..b])
    ensures !AllSpace(text[a..c])
  {
    var i :| 0 <= i < b - a && !IsSpace(text[a..b][i]);
    assert text[a..c][i] == text[a..b][i];
  }
}
