/** chunker/packing.py: layout blocks are completed to a gapless sequence and packed greedily into
    chunks. The token count is an arbitrary function of the slice. */
module Packing {
  import opened Utf8
  import opened Wrappers
  import opened Contracts

  datatype BlockKind = ListItemBlock | MixedBlock | ParagraphBlock | SectionBlock | TableBlock

  datatype ChunkBlock = ChunkBlock(startChar: nat, endChar: nat, kind: BlockKind,
                                   layoutSpanId: Option<LayoutId>, tableId: Option<TableId>)

  datatype PackedChunk = PackedChunk(startChar: nat, endChar: nat, kind: ChunkKind, layoutSpanIds: seq<LayoutId>,
                                     tableIds: seq<TableId>, pageNumbers: seq<nat>, splitReason: SplitReason)

  /** The document, its token counter and the window: what every packing step reads. */
  datatype Packer = Packer(doc: Document, count: string -> nat, window: nat)

  /** `_token_count(start, end) <= window_tokens` */
  predicate Fits(p: Packer, start: nat, end: nat)
    requires start <= end <= |p.doc.text|
  {
    p.count(p.doc.text[start..end]) <= p.window
  }

  predicate InText(p: Packer, start: nat, end: nat) {
    start < end <= |p.doc.text|
  }

  /** The chunks run from `lo` to `hi`, in order, without gap, overlap or empty chunk. */
  ghost predicate ChunksTile(chunks: seq<PackedChunk>, lo: nat, hi: nat) {
    if chunks == [] then lo == hi
    else
      var last := chunks[|chunks| - 1];
      last.endChar == hi && last.startChar < last.endChar && ChunksTile(chunks[..|chunks| - 1], lo, last.startChar)
  }

  ghost predicate BlocksTile(blocks: seq<ChunkBlock>, lo: nat, hi: nat) {
    if blocks == [] then lo == hi
    else
      var last := blocks[|blocks| - 1];
      last.endChar == hi && last.startChar < last.endChar && BlocksTile(blocks[..|blocks| - 1], lo, last.startChar)
  }

  /** A chunk over the window is an atomic table or a single character, and says so. */
  ghost predicate WellMarked(p: Packer, c: PackedChunk) {
    && InText(p, c.startChar, c.endChar)
    && (c.splitReason == AtomicTableOverflow ==> c.kind == Table && !Fits(p, c.startChar, c.endChar))
    && (!Fits(p, c.startChar, c.endChar) ==>
      || (c.kind == Table && c.splitReason == AtomicTableOverflow)
      || (c.kind == Overflow && c.splitReason == OversizedSentence && c.endChar == c.startChar + 1))
  }

  function PageNumbersForRange(pages: seq<PageSpan>, start: nat, end: nat): seq<nat> {
    if pages == [] then []
    else
      (if start < pages[0].endChar && end > pages[0].startChar then [pages[0].pageNumber] else [])
      + PageNumbersForRange(pages[1..], start, end)
  }

  function OptionToSeq<T>(o: Option<T>): seq<T> {
    if o.Some? then [o.value] else []
  }

  function KindOfBlock(k: BlockKind): ChunkKind {
    match k
    case ListItemBlock => ListItem
    case MixedBlock => Mixed
    case ParagraphBlock => Paragraph
    case SectionBlock => Section
    case TableBlock => Table
  }

  /** `_pack_block_slice`, with absolute bounds */
  function PackBlockSlice(p: Packer, block: ChunkBlock, start: nat, end: nat, reason: SplitReason): PackedChunk {
    PackedChunk(start, end, if reason == OversizedSentence then Overflow else KindOfBlock(block.kind),
      OptionToSeq(block.layoutSpanId), OptionToSeq(block.tableId), PageNumbersForRange(p.doc.pageMap, start, end), reason)
  }

  lemma {:induction false} TileConcat(a: seq<PackedChunk>, b: seq<PackedChunk>, lo: nat, mid: nat, hi: nat)
    requires ChunksTile(a, lo, mid) && ChunksTile(b, mid, hi)
    ensures ChunksTile(a + b, lo, hi)
  {
    if b == [] {
      assert a + b == a;
    } else {
      var front, last := b[..|b| - 1], b[|b| - 1];
      TileConcat(a, front, lo, mid, last.startChar);
      assert (a + b)[..|a + b| - 1] == a + front;
    }
  }

  lemma TileSnoc(chunks: seq<PackedChunk>, c: PackedChunk, lo: nat)
    requires ChunksTile(chunks, lo, c.startChar) && c.startChar < c.endChar
    ensures ChunksTile(chunks + [c], lo, c.endChar)
  {
    assert (chunks + [c])[..|chunks + [c]| - 1] == chunks;
  }

  lemma TileOrder(chunks: seq<PackedChunk>, lo: nat, hi: nat)
    requires ChunksTile(chunks, lo, hi)
    ensures lo <= hi
  {
  }

  /** The character split emits the longest extension all of whose prefixes fit, or one character. */
  ghost predicate LongestFit(p: Packer, start: nat, end: nat, limit: nat) {
    && start < end <= limit <= |p.doc.text|
    && (forall e :: start < e < end ==> Fits(p, start, e))
    && (Fits(p, start, end) || end == start + 1)
    && (end < limit && Fits(p, start, end) ==> !Fits(p, start, end + 1))
  }

  ghost predicate AreLongestFits(p: Packer, block: ChunkBlock, limit: nat, chunks: seq<PackedChunk>) {
    forall c :: c in chunks ==>
      LongestFit(p, c.startChar, c.endChar, limit) && c == PackBlockSlice(p, block, c.startChar, c.endChar, OversizedSentence)
  }

  /** `_split_by_character_window` over `[start, limit)` of a block. The code's own check that the
      window advanced cannot fail. */
  method SplitByCharacterWindow(p: Packer, block: ChunkBlock, blockStart: nat, limit: nat) returns (chunks: seq<PackedChunk>)
    requires blockStart <= limit <= |p.doc.text|
    ensures ChunksTile(chunks, blockStart, limit)
    ensures AreLongestFits(p, block, limit, chunks)
  {
    chunks := [];
    var start := blockStart;
    while start < limit
      invariant blockStart <= start <= limit
      invariant ChunksTile(chunks, blockStart, start)
      invariant AreLongestFits(p, block, limit, chunks)
    {
      var end := start + 1;
      var bestEnd := end;
      while end <= limit
        invariant start < end <= limit + 1
        invariant bestEnd == (if end == start + 1 then end else end - 1)
        invariant forall e :: start < e < end ==> Fits(p, start, e)
      {
        if !Fits(p, start, end) {
          break;
        }
        bestEnd := end;
        end := end + 1;
      }
      assert LongestFit(p, start, bestEnd, limit);
      TileSnoc(chunks, PackBlockSlice(p, block, start, bestEnd, OversizedSentence), blockStart);
      chunks := chunks + [PackBlockSlice(p, block, start, bestEnd, OversizedSentence)];
      start := bestEnd;
    }
  }

  predicate IsSentenceEnd(text: string, i: nat)
    requires i < |text|
  {
    text[i] in {'.', '!', '?'} && (i + 1 == |text| || IsSpace(text[i + 1]))
  }

  function SentenceMatches(text: string, i: nat): (ends: seq<nat>)
    requires i <= |text|
    ensures forall k :: 0 <= k < |ends| ==> i < ends[k] <= |text|
    ensures forall j, k :: 0 <= j < k < |ends| ==> ends[j] < ends[k]
    decreases |text| - i
  {
    if i == |text| then []
    else if IsSentenceEnd(text, i) then [i + 1] + SentenceMatches(text, i + 1)
    else SentenceMatches(text, i + 1)
  }

  /** `_sentence_end_offsets`: strictly increasing, and the last one is the end of the text. */
  function SentenceEndOffsets(text: string): (ends: seq<nat>)
    requires text != []
    ensures ends != [] && ends[|ends| - 1] == |text|
    ensures forall k :: 0 <= k < |ends| ==> 0 < ends[k] <= |text|
    ensures forall j, k :: 0 <= j < k < |ends| ==> ends[j] < ends[k]
  {
    var ends := SentenceMatches(text, 0);
    if ends == [] || ends[|ends| - 1] != |text| then ends + [|text|] else ends
  }

  /** Where sentence `k` of a block starts; `ends` are relative to the block. */
  function SentenceStart(block: ChunkBlock, ends: seq<nat>, k: nat): nat
    requires k <= |ends|
  {
    block.startChar + if k == 0 then 0 else ends[k - 1]
  }

  /** Sentence `k` is in the text and fits the window alone. */
  ghost predicate SentenceFits(p: Packer, block: ChunkBlock, ends: seq<nat>, k: nat)
    requires k < |ends|
  {
    SentenceStart(block, ends, k) <= block.startChar + ends[k] <= |p.doc.text| && Fits(p, SentenceStart(block, ends, k), block.startChar + ends[k])
  }

  /** A slice of `block`: whole sentences that fit and would not fit with the next sentence that does
      fit alone, or a piece of the character split of one sentence. */
  ghost predicate IsBlockSlice(p: Packer, block: ChunkBlock, ends: seq<nat>, c: PackedChunk) {
    && block.startChar <= c.startChar < c.endChar <= block.endChar <= |p.doc.text|
    && c.splitReason in {Boundary, OversizedSentence}
    && c == PackBlockSlice(p, block, c.startChar, c.endChar, c.splitReason)
    && (if c.splitReason == Boundary then Fits(p, c.startChar, c.endChar) && IsSentenceRun(p, block, ends, c)
        else exists k: nat :: k < |ends| && IsSentencePiece(p, block, ends, c, k))
  }

  ghost predicate IsSentenceRun(p: Packer, block: ChunkBlock, ends: seq<nat>, c: PackedChunk) {
    exists i: nat, k: nat :: i < k <= |ends| && IsRun(p, block, ends, c, i, k)
  }

  /** Sentences `i..k`, each of which fits alone, and no more fit. */
  ghost predicate IsRun(p: Packer, block: ChunkBlock, ends: seq<nat>, c: PackedChunk, i: nat, k: nat)
    requires i < k <= |ends|
  {
    && SentenceStart(block, ends, i) == c.startChar && SentenceStart(block, ends, k) == c.endChar
    && (forall m :: i <= m < k ==> SentenceFits(p, block, ends, m))
    && FullBefore(p, block, ends, c, k)
  }

  ghost predicate FullBefore(p: Packer, block: ChunkBlock, ends: seq<nat>, c: PackedChunk, k: nat) {
    k < |ends| && c.startChar < c.endChar < block.startChar + ends[k] <= |p.doc.text| ==>
      !Fits(p, c.startChar, block.startChar + ends[k]) || !Fits(p, c.endChar, block.startChar + ends[k])
  }

  /** A piece inside sentence `k`, the longest that fits up to the end of the sentence. The sentence does
      not fit alone, unless it is the only one. */
  ghost predicate IsSentencePiece(p: Packer, block: ChunkBlock, ends: seq<nat>, c: PackedChunk, k: nat)
    requires k < |ends|
  {
    && SentenceStart(block, ends, k) <= c.startChar && LongestFit(p, c.startChar, c.endChar, block.startChar + ends[k])
    && (|ends| == 1 || !SentenceFits(p, block, ends, k))
  }

  /** The chunks tile `[block.startChar, upTo)` with slices of `block`. */
  ghost predicate SlicesUpTo(p: Packer, block: ChunkBlock, ends: seq<nat>, chunks: seq<PackedChunk>, upTo: nat) {
    && ChunksTile(chunks, block.startChar, upTo)
    && forall c :: c in chunks ==> IsBlockSlice(p, block, ends, c) && WellMarked(p, c)
  }

  /** Flushing sentences `i..k`, before a sentence that does not fit alone or with them. */
  lemma FlushSentences(p: Packer, block: ChunkBlock, ends: seq<nat>, chunks: seq<PackedChunk>, i: nat, k: nat)
    requires i < k <= |ends| && SlicesUpTo(p, block, ends, chunks, SentenceStart(block, ends, i))
    requires block.startChar <= SentenceStart(block, ends, i) < SentenceStart(block, ends, k) <= block.endChar <= |p.doc.text|
    requires Fits(p, SentenceStart(block, ends, i), SentenceStart(block, ends, k))
    requires forall m :: i <= m < k ==> SentenceFits(p, block, ends, m)
    requires k < |ends| ==> SentenceStart(block, ends, k) < block.startChar + ends[k] <= block.endChar
    requires k < |ends| ==>
      !SentenceFits(p, block, ends, k) || !Fits(p, SentenceStart(block, ends, i), block.startChar + ends[k])
    ensures var c := PackBlockSlice(p, block, SentenceStart(block, ends, i), SentenceStart(block, ends, k), Boundary);
      SlicesUpTo(p, block, ends, chunks + [c], SentenceStart(block, ends, k))
  {
    var c := PackBlockSlice(p, block, SentenceStart(block, ends, i), SentenceStart(block, ends, k), Boundary);
    TileSnoc(chunks, c, block.startChar);
    assert IsRun(p, block, ends, c, i, k);
    assert IsBlockSlice(p, block, ends, c) && WellMarked(p, c);
  }

  /** Adding the character pieces of sentence `k`. */
  lemma AddCharacterPieces(p: Packer, block: ChunkBlock, ends: seq<nat>, chunks: seq<PackedChunk>, k: nat, pieces: seq<PackedChunk>)
    requires k < |ends| && SlicesUpTo(p, block, ends, chunks, SentenceStart(block, ends, k))
    requires ChunksTile(pieces, SentenceStart(block, ends, k), block.startChar + ends[k])
    requires block.startChar + ends[k] <= block.endChar <= |p.doc.text|
    requires AreLongestFits(p, block, block.startChar + ends[k], pieces)
    requires |ends| == 1 || !SentenceFits(p, block, ends, k)
    ensures SlicesUpTo(p, block, ends, chunks + pieces, block.startChar + ends[k])
  {
    hide PackBlockSlice;
    TileConcat(chunks, pieces, block.startChar, SentenceStart(block, ends, k), block.startChar + ends[k]);
    TileMembers(pieces, SentenceStart(block, ends, k), block.startChar + ends[k]);
    forall c | c in pieces ensures IsBlockSlice(p, block, ends, c) && WellMarked(p, c) {
      PieceIsSlice(p, block, ends, c, k);
    }
  }

  lemma PieceIsSlice(p: Packer, block: ChunkBlock, ends: seq<nat>, c: PackedChunk, k: nat)
    requires k < |ends| && SentenceStart(block, ends, k) <= c.startChar && block.startChar + ends[k] <= block.endChar <= |p.doc.text|
    requires LongestFit(p, c.startChar, c.endChar, block.startChar + ends[k])
    requires c == PackBlockSlice(p, block, c.startChar, c.endChar, OversizedSentence)
    requires |ends| == 1 || !SentenceFits(p, block, ends, k)
    ensures IsBlockSlice(p, block, ends, c) && WellMarked(p, c)
  {
    assert IsSentencePiece(p, block, ends, c, k);
  }

  lemma TileMembers(chunks: seq<PackedChunk>, lo: nat, hi: nat)
    requires ChunksTile(chunks, lo, hi)
    ensures forall c :: c in chunks ==> lo <= c.startChar < c.endChar <= hi
  {
    if chunks != [] {
      TileMembers(chunks[..|chunks| - 1], lo, chunks[|chunks| - 1].startChar);
      TileOrder(chunks[..|chunks| - 1], lo, chunks[|chunks| - 1].startChar);
    }
  }

  /** `_split_oversized_text_block`; `first` is the sentence at which the pending ones start. */
  method SplitOversizedTextBlock(p: Packer, block: ChunkBlock) returns (chunks: seq<PackedChunk>)
    requires InText(p, block.startChar, block.endChar)
    ensures SlicesUpTo(p, block, SentenceEndOffsets(p.doc.text[block.startChar..block.endChar]), chunks, block.endChar)
  {
    hide SlicesUpTo, AreLongestFits, ChunksTile, LongestFit, PackBlockSlice, IsBlockSlice, IsSentenceEnd, SentenceMatches,
      SentenceEndOffsets, SentenceFits, Fits, KindOfBlock, PageNumbersForRange, OptionToSeq;
    var text := p.doc.text[block.startChar..block.endChar];
    var ends := SentenceEndOffsets(text);
    SentenceIs(p, block, ends, 0);
    NoSlices(p, block, ends);
    if ends == [|text|] {
      chunks := SplitByCharacterWindow(p, block, block.startChar, block.endChar);
      AddCharacterPieces(p, block, ends, [], 0, chunks);
      assert [] + chunks == chunks;
      return;
    }
    chunks := [];
    var start, end := block.startChar, block.startChar;
    ghost var first := 0;
    for k := 0 to |ends|
      invariant first <= k && start == SentenceStart(block, ends, first) && end == SentenceStart(block, ends, k)
      invariant block.startChar <= start <= end <= block.endChar
      invariant SlicesUpTo(p, block, ends, chunks, start)
      invariant first < k ==> start < end && Fits(p, start, end)
      invariant forall m :: first <= m < k ==> SentenceFits(p, block, ends, m)
    {
      SentenceIs(p, block, ends, k);
      var sentenceEnd := block.startChar + ends[k];
      if !Fits(p, end, sentenceEnd) {
        if start < end {
          FlushSentences(p, block, ends, chunks, first, k);
          chunks := chunks + [PackBlockSlice(p, block, start, end, Boundary)];
        }
        var pieces := SplitByCharacterWindow(p, block, end, sentenceEnd);
        AddCharacterPieces(p, block, ends, chunks, k, pieces);
        chunks := chunks + pieces;
        start, end, first := sentenceEnd, sentenceEnd, k + 1;
      } else {
        if !Fits(p, start, sentenceEnd) {
          if start < end {
            FlushSentences(p, block, ends, chunks, first, k);
            chunks := chunks + [PackBlockSlice(p, block, start, end, Boundary)];
          }
          start, first := end, k;
        }
        end := sentenceEnd;
      }
    }
    if start < end {
      FlushSentences(p, block, ends, chunks, first, |ends|);
      chunks := chunks + [PackBlockSlice(p, block, start, end, Boundary)];
    }
  }

  lemma SentenceIs(p: Packer, block: ChunkBlock, ends: seq<nat>, k: nat)
    requires k < |ends|
    ensures SentenceStart(block, ends, 0) == block.startChar && SentenceStart(block, ends, k + 1) == block.startChar + ends[k]
    ensures SentenceStart(block, ends, k) <= block.startChar + ends[k] <= |p.doc.text| ==>
      (SentenceFits(p, block, ends, k) <==> Fits(p, SentenceStart(block, ends, k), block.startChar + ends[k]))
  {
  }

  lemma NoSlices(p: Packer, block: ChunkBlock, ends: seq<nat>)
    ensures SlicesUpTo(p, block, ends, [], block.startChar)
  {
  }

  /** A stop before white space or the end. */
  predicate EndsSentence(text: string, e: nat) {
    0 < e <= |text| && (text[e - 1] == '.' || text[e - 1] == '!' || text[e - 1] == '?') && (e == |text| || IsSpace(text[e]))
  }

  lemma {:induction false} SentenceMatchesExactly(text: string, i: nat, e: nat)
    requires i <= |text|
    ensures e in SentenceMatches(text, i) <==> i < e && EndsSentence(text, e)
    decreases |text| - i
  {
    if i < |text| {
      SentenceMatchesExactly(text, i + 1, e);
    }
  }

  /** The offsets at which sentences end are those behind such a stop, and the end of the text. */
  lemma SentenceEndsExactly(text: string, e: nat)
    requires text != []
    ensures e in SentenceEndOffsets(text) <==> e == |text| || EndsSentence(text, e)
  {
    hide SentenceMatches;
    SentenceMatchesExactly(text, 0, e);
  }
}
