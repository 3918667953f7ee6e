/** chunker/tokenizer.py in layout-aware mode: packed chunks become chunk records, sections become
    parents, and orchestrator/state.py accepts the list again on resume. */
module LayoutChunks {
  import opened Utf8
  import opened Wrappers
  import opened Contracts
  import opened TokenWindow
  import opened Whitespace
  import Pack = Packing
  import Greedy = GreedyPacking
  import Blocks = LayoutBlocks

  /** `_build_chunk_from_packed`; token offsets are token counts of prefixes, so that an end past the
      start depends on the tokenizer and is checked. */
  function BuildFromPacked(p: Pack.Packer, chunkIndex: nat, packed: Pack.PackedChunk): (r: Result<Chunk, ChunkingError>)
    requires packed.startChar < packed.endChar <= |p.doc.text|
    ensures r.Success? <==> p.count(p.doc.text[..packed.startChar]) < p.count(p.doc.text[..packed.endChar])
    ensures r.Success? ==> ChunkExact(p.doc.text, r.value) && ValidChunk(r.value)
  {
    var text := p.doc.text;
    var startToken, endToken := p.count(text[..packed.startChar]), p.count(text[..packed.endChar]);
    if endToken <= startToken then Failure(WindowDidNotAdvance)
    else
      var startByte, endByte := PrefixBytes(text, packed.startChar), PrefixBytes(text, packed.endChar);
      EncodeSlice(text, packed.startChar, packed.endChar);
      Success(Chunk(
        ChunkId(p.doc.docId, p.doc.textSha256, chunkIndex, startByte, endByte, startToken, endToken),
        p.doc.docId, chunkIndex, text[packed.startChar..packed.endChar],
        packed.startChar, packed.endChar, startByte, endByte, startToken, endToken,
        ChunkLayout(packed.kind, packed.splitReason, packed.layoutSpanIds, packed.tableIds, packed.pageNumbers, [], None, [])))
  }

  /** Chunk `k` is the record of packed chunk `k`. */
  ghost predicate BuiltFrom(p: Pack.Packer, packed: seq<Pack.PackedChunk>, chunks: seq<Chunk>, k: nat) {
    && k < |chunks| && k < |packed| && packed[k].startChar < packed[k].endChar <= |p.doc.text|
    && BuildFromPacked(p, k, packed[k]) == Success(chunks[k])
  }

  method BuildAll(p: Pack.Packer, packed: seq<Pack.PackedChunk>) returns (r: Result<seq<Chunk>, ChunkingError>)
    requires forall c :: c in packed ==> c.startChar < c.endChar <= |p.doc.text|
    ensures r.Success? ==> |r.value| == |packed| && forall k :: 0 <= k < |packed| ==> BuiltFrom(p, packed, r.value, k)
    ensures r.Failure? ==> r.error == WindowDidNotAdvance
    ensures r.Failure? ==> exists c :: c in packed && p.count(p.doc.text[..c.startChar]) >= p.count(p.doc.text[..c.endChar])
  {
    hide ChunkExact, ValidChunk;
    var chunks: seq<Chunk> := [];
    for i := 0 to |packed|
      invariant |chunks| == i
      invariant forall k :: 0 <= k < i ==> BuiltFrom(p, packed, chunks, k)
    {
      var built := BuildFromPacked(p, i, packed[i]);
      if built.Failure? {
        return Failure(WindowDidNotAdvance);
      }
      ghost var before := chunks;
      chunks := chunks + [built.value];
      forall k | 0 <= k < i + 1 ensures BuiltFrom(p, packed, chunks, k) {
        assert packed[i] in packed;
        assert k < i ==> BuiltFrom(p, packed, before, k) && chunks[k] == before[k];
      }
    }
    return Success(chunks);
  }

  /** The characters at which `str.splitlines` breaks; all of them are white space. */
  predicate IsLineBreak(c: char) {
    var n := c as int;
    0x0A <= n <= 0x0D || 0x1C <= n <= 0x1E || n == 0x85 || n == 0x2028 || n == 0x2029
  }

  function LineEnd(text: string, i: nat): (r: nat)
    requires i <= |text|
    ensures i <= r <= |text| && (r < |text| ==> IsLineBreak(text[r]))
    decreases |text| - i
  {
    if i == |text| || IsLineBreak(text[i]) then i else LineEnd(text, i + 1)
  }

  /** `_first_content_line`: absent exactly when the text is blank. */
  function FirstContentLine(text: string): (r: Option<string>)
    ensures r.None? <==> AllSpace(text)
    ensures r.Some? ==> r.value != []
    decreases |text|
  {
    var end := LineEnd(text, 0);
    var stripped := Strip(text[..end]);
    if stripped != [] then
      assert !AllSpace(text[..end]);
      Some(stripped)
    else if end == |text| then
      assert text[..end] == text;
      None
    else
      assert text == text[..end] + [text[end]] + text[end + 1..];
      FirstContentLine(text[end + 1..])
  }

  /** The latest chunk before `k` that is a section with a label. */
  function LatestSection(chunks: seq<Chunk>, k: nat): (r: Option<nat>)
    requires k <= |chunks|
    ensures r.Some? ==> r.value < k && IsLabelledSection(chunks[r.value])
    ensures r.Some? ==> forall j :: r.value < j < k ==> !IsLabelledSection(chunks[j])
    ensures r.None? ==> forall j :: 0 <= j < k ==> !IsLabelledSection(chunks[j])
  {
    if k == 0 then None
    else if IsLabelledSection(chunks[k - 1]) then Some(k - 1)
    else LatestSection(chunks, k - 1)
  }

  predicate IsLabelledSection(c: Chunk) {
    c.layout.kind == Section && !AllSpace(c.text)
  }

  function Label(c: Chunk): string
    requires !AllSpace(c.text)
  {
    FirstContentLine(c.text).value
  }

  function Without(ids: seq<ChunkId>, id: ChunkId): seq<ChunkId> {
    if ids == [] then [] else (if ids[0] == id then [] else [ids[0]]) + Without(ids[1..], id)
  }

  /** `_prepend_unique_dependency` */
  function PrependUniqueDependency(id: ChunkId, dependencies: seq<ChunkId>): seq<ChunkId> {
    [id] + Without(dependencies, id)
  }

  /** What becomes of chunk `k`: a labelled section names itself, any other chunk that is not a
      section hangs from the latest labelled section before it. */
  ghost predicate HangsCorrectly(chunks: seq<Chunk>, updated: seq<Chunk>, k: nat)
    requires k < |chunks| && k < |updated|
  {
    var before, after, section := chunks[k], updated[k], LatestSection(chunks, k);
    if before.layout.kind == Section then
      if AllSpace(before.text) then after == before
      else after == before.(layout := before.layout.(sectionPath := [Label(before)]))
    else if section.None? then after == before
    else
      var parent := chunks[section.value];
      after == before.(layout := before.layout.(
        sectionPath := [Label(parent)], parentChunkId := Some(parent.chunkId),
        dependsOn := PrependUniqueDependency(parent.chunkId, before.layout.dependsOn)))
  }

  /** `_attach_layout_hierarchy` */
  method AttachLayoutHierarchy(chunks: seq<Chunk>) returns (updated: seq<Chunk>)
    ensures |updated| == |chunks| && forall k :: 0 <= k < |chunks| ==> HangsCorrectly(chunks, updated, k)
  {
    hide Strip, FirstContentLine, Without;
    var sectionPath: seq<string> := [];
    var sectionChunkId: Option<ChunkId> := None;
    updated := [];
    for i := 0 to |chunks|
      invariant |updated| == i
      invariant forall k :: 0 <= k < i ==> HangsCorrectly(chunks, updated, k)
      invariant match LatestSection(chunks, i)
        case None => sectionPath == [] && sectionChunkId == None
        case Some(j) => sectionPath == [Label(chunks[j])] && sectionChunkId == Some(chunks[j].chunkId)
    {
      var chunk := chunks[i];
      var result := chunk;
      if chunk.layout.kind == Section {
        var heading := FirstContentLine(chunk.text);
        if heading.Some? {
          sectionPath := [heading.value];
          sectionChunkId := Some(chunk.chunkId);
          result := chunk.(layout := chunk.layout.(sectionPath := sectionPath));
        }
      } else if sectionPath != [] && sectionChunkId.Some? {
        result := chunk.(layout := chunk.layout.(
          sectionPath := sectionPath, parentChunkId := sectionChunkId,
          dependsOn := PrependUniqueDependency(sectionChunkId.value, chunk.layout.dependsOn)));
      }
      ghost var before := updated;
      updated := updated + [result];
      assert HangsCorrectly(chunks, updated, i);
      forall k | 0 <= k < i ensures HangsCorrectly(chunks, updated, k) {
        assert HangsCorrectly(chunks, before, k) && updated[k] == before[k];
      }
    }
  }

  datatype ResumeError = EmptyChunkList | IndexesNotContiguous | WrongDocument | TextMismatch | ParentMissing | DependencyMissing

  predicate KnownOther(id: ChunkId, own: ChunkId, known: set<ChunkId>) {
    id != own && id in known
  }

  /** What `validate_resume_chunks` demands of an audited chunk list. */
  predicate ResumeAccepts(d: Document, chunks: seq<Chunk>) {
    var ids := set c | c in chunks :: c.chunkId;
    && chunks != []
    && (forall k :: 0 <= k < |chunks| ==> chunks[k].chunkIndex == k)
    && (forall c :: c in chunks ==> c.docId == d.docId && Slice(d.text, c.startChar, c.endChar) == c.text)
    && (forall c :: c in chunks && c.layout.parentChunkId.Some? ==>
          c.layout.parentChunkId.value != c.chunkId && c.layout.parentChunkId.value in ids)
    && (forall c :: c in chunks ==> forall id :: id in c.layout.dependsOn ==> id != c.chunkId && id in ids)
  }

  /** `validate_resume_chunks` */
  method ValidateResumeChunks(d: Document, chunks: seq<Chunk>) returns (r: Result<seq<Chunk>, ResumeError>)
    ensures r.Success? <==> ResumeAccepts(d, chunks)
    ensures r.Success? ==> r.value == chunks
  {
    if chunks == [] {
      return Failure(EmptyChunkList);
    }
    if exists k :: 0 <= k < |chunks| && chunks[k].chunkIndex != k {
      return Failure(IndexesNotContiguous);
    }
    for i := 0 to |chunks|
      invariant forall c :: c in chunks[..i] ==> c.docId == d.docId && Slice(d.text, c.startChar, c.endChar) == c.text
    {
      assert chunks[..i + 1] == chunks[..i] + [chunks[i]];
      if chunks[i].docId != d.docId {
        return Failure(WrongDocument);
      }
      if Slice(d.text, chunks[i].startChar, chunks[i].endChar) != chunks[i].text {
        return Failure(TextMismatch);
      }
    }
    var ids := set c | c in chunks :: c.chunkId;
    for i := 0 to |chunks|
      invariant forall c :: c in chunks[..i] ==> c.layout.parentChunkId.Some? ==> KnownOther(c.layout.parentChunkId.value, c.chunkId, ids)
      invariant forall c :: c in chunks[..i] ==> forall id :: id in c.layout.dependsOn ==> KnownOther(id, c.chunkId, ids)
    {
      assert chunks[..i + 1] == chunks[..i] + [chunks[i]];
      var chunk := chunks[i];
      if chunk.layout.parentChunkId.Some? && !KnownOther(chunk.layout.parentChunkId.value, chunk.chunkId, ids) {
        return Failure(ParentMissing);
      }
      if exists id :: id in chunk.layout.dependsOn && !KnownOther(id, chunk.chunkId, ids) {
        return Failure(DependencyMissing);
      }
    }
    assert chunks[..|chunks|] == chunks;
    return Success(chunks);
  }

  /** A freshly built chunk: in its place, exact, with nothing attached. */
  predicate IsFresh(d: Document, c: Chunk, k: nat) {
    && c.docId == d.docId && c.chunkIndex == k && c.chunkId.chunkIndex == k
    && ChunkExact(d.text, c) && c.layout.parentChunkId == None && c.layout.dependsOn == []
  }

  /** Attaching the hierarchy moves nothing and hangs chunks only from other chunks of the list. */
  lemma HangingKeepsPlace(d: Document, chunks: seq<Chunk>, updated: seq<Chunk>, k: nat)
    requires |updated| == |chunks| && k < |chunks| && IsFresh(d, chunks[k], k) && HangsCorrectly(chunks, updated, k)
    ensures updated[k] == chunks[k].(layout := updated[k].layout)
    ensures updated[k].layout.parentChunkId.Some? ==>
      LatestSection(chunks, k).Some? && updated[k].layout.parentChunkId.value == chunks[LatestSection(chunks, k).value].chunkId
    ensures forall id :: id in updated[k].layout.dependsOn ==> updated[k].layout.parentChunkId == Some(id)
  {
  }

  lemma HierarchyPassesResume(d: Document, chunks: seq<Chunk>, updated: seq<Chunk>)
    requires chunks != [] && |updated| == |chunks|
    requires forall k :: 0 <= k < |chunks| ==> IsFresh(d, chunks[k], k)
    requires forall k :: 0 <= k < |chunks| ==> HangsCorrectly(chunks, updated, k)
    ensures ResumeAccepts(d, updated)
  {
    hide HangsCorrectly, Label;
    var ids := set c | c in updated :: c.chunkId;
    forall k | 0 <= k < |updated|
      ensures updated[k].chunkIndex == k && updated[k].docId == d.docId
      ensures Slice(d.text, updated[k].startChar, updated[k].endChar) == updated[k].text
      ensures updated[k].layout.parentChunkId.Some? ==> KnownOther(updated[k].layout.parentChunkId.value, updated[k].chunkId, ids)
      ensures forall id :: id in updated[k].layout.dependsOn ==> KnownOther(id, updated[k].chunkId, ids)
    {
      assert IsFresh(d, chunks[k], k);
      HangingKeepsPlace(d, chunks, updated, k);
      if updated[k].layout.parentChunkId.Some? {
        var j := LatestSection(chunks, k).value;
        assert IsFresh(d, chunks[j], j);
        HangingKeepsPlace(d, chunks, updated, j);
        assert updated[j] in updated;
      }
    }
  }

  /** A list from the token window is accepted again on resume. */
  lemma WindowPassesResume(d: Document, pieces: seq<seq<Byte>>, window: nat, overlap: nat, chunks: seq<Chunk>)
    requires WindowChain(d, pieces, window, overlap, chunks)
    ensures ResumeAccepts(d, chunks)
  {
    hide TokenChain, Encode;
    assert forall k :: 0 <= k < |chunks| ==> IsTokenChunk(d, pieces, chunks[k], k);
  }

  datatype LayoutError = NotPacked(packing: Greedy.PackingError) | NotBuilt(building: ChunkingError)

  /** Every further character adds a token, which depends on the tokenizer. */
  ghost predicate TokensGrow(p: Pack.Packer) {
    forall i: nat, j: nat :: i < j <= |p.doc.text| ==> p.count(p.doc.text[..i]) < p.count(p.doc.text[..j])
  }

  /** The document's boundaries pass the collector's checks and its blocks do not overlap. */
  predicate Packable(d: Document) {
    Blocks.BoundariesCollect(d) && Blocks.Ordered(Blocks.CollectedBlocks(d))
  }

  /** `_chunk_document_layout_aware`: it fails on unusable boundaries, and otherwise only on a table that
      may not exceed the window or on a chunk without a token of its own; the list it returns hangs
      together and is accepted again on resume. */
  method ChunkDocumentLayoutAware(p: Pack.Packer, allowOversized: bool) returns (r: Result<seq<Chunk>, LayoutError>)
    requires Blocks.ValidLayout(p.doc)
    ensures r.Success? ==> ResumeAccepts(p.doc, r.value)
    ensures r.Success? ==> exists blocks, packed, chunks :: ChunksDocument(p, blocks, packed, chunks, r.value)
    ensures r.Success? ==> Packable(p.doc)
    ensures Packable(p.doc) && r.Failure? ==> r.error in {NotPacked(Greedy.OversizedTable), NotBuilt(WindowDidNotAdvance)}
    ensures Packable(p.doc) && allowOversized && TokensGrow(p) ==> r.Success?
  {
    var packing, blocks := Greedy.PackBoundaryAwareChunks(p, allowOversized);
    if packing.Failure? {
      assert Packable(p.doc) ==> packing.error == Greedy.OversizedTable;
      return Failure(NotPacked(packing.error));
    }
    var packed := packing.value;
    Greedy.TilingReassembles(p.doc.text, packed, 0, |p.doc.text|);
    var built := BuildAll(p, packed);
    if built.Failure? {
      return Failure(NotBuilt(built.error));
    }
    var chunks := built.value;
    BuiltChunksTile(p, packed, chunks);
    var updated := AttachLayoutHierarchy(chunks);
    HierarchyPassesResume(p.doc, chunks, updated);
    assert ChunksDocument(p, blocks, packed, chunks, updated);
    return Success(updated);
  }

  /** The list `updated` with all that it came from: the document's blocks, the packed chunks, their records
      and the hierarchy. */
  ghost predicate ChunksDocument(p: Pack.Packer, blocks: seq<Pack.ChunkBlock>, packed: seq<Pack.PackedChunk>, chunks: seq<Chunk>, updated: seq<Chunk>) {
    && Greedy.PacksDocument(p, blocks, packed)
    && |chunks| == |packed| && (forall k :: 0 <= k < |packed| ==> BuiltFrom(p, packed, chunks, k))
    && TilesDocument(p, chunks) && HungTogether(chunks, updated)
  }

  ghost predicate HungTogether(chunks: seq<Chunk>, updated: seq<Chunk>) {
    |updated| == |chunks| && forall k :: 0 <= k < |chunks| ==> HangsCorrectly(chunks, updated, k)
  }

  /** The chunks are the document cut into consecutive exact slices. */
  ghost predicate TilesDocument(p: Pack.Packer, chunks: seq<Chunk>) {
    && chunks != [] && (forall k :: 0 <= k < |chunks| ==> IsFresh(p.doc, chunks[k], k))
    && chunks[0].startChar == 0 && chunks[|chunks| - 1].endChar == |p.doc.text|
    && (forall k :: 0 < k < |chunks| ==> Adjoins(chunks, k))
  }

  predicate Adjoins(chunks: seq<Chunk>, k: nat)
    requires 0 < k < |chunks|
  {
    chunks[k].startChar == chunks[k - 1].endChar
  }

  lemma BuiltChunksTile(p: Pack.Packer, packed: seq<Pack.PackedChunk>, chunks: seq<Chunk>)
    requires p.doc.text != [] && Pack.ChunksTile(packed, 0, |p.doc.text|)
    requires |chunks| == |packed| && forall k :: 0 <= k < |packed| ==> BuiltFrom(p, packed, chunks, k)
    ensures TilesDocument(p, chunks)
  {
    hide Pack.ChunksTile, ChunkExact;
    NonEmptyTiling(packed, |p.doc.text|);
    forall k | 0 <= k < |chunks| ensures IsFresh(p.doc, chunks[k], k) {
      assert BuiltFrom(p, packed, chunks, k);
    }
    forall k | 0 < k < |chunks| ensures Adjoins(chunks, k) {
      assert BuiltFrom(p, packed, chunks, k) && BuiltFrom(p, packed, chunks, k - 1);
      TilingAdjoins(packed, 0, |p.doc.text|, k);
    }
    assert BuiltFrom(p, packed, chunks, 0) && BuiltFrom(p, packed, chunks, |chunks| - 1);
  }

  lemma {:induction false} TilingAdjoins(packed: seq<Pack.PackedChunk>, lo: nat, hi: nat, k: nat)
    requires Pack.ChunksTile(packed, lo, hi) && k < |packed|
    ensures packed[k].startChar == if k == 0 then lo else packed[k - 1].endChar
    decreases |packed|
  {
    var front := packed[..|packed| - 1];
    if k < |front| {
      TilingAdjoins(front, lo, packed[|packed| - 1].startChar, k);
    }
  }

  lemma NonEmptyTiling(packed: seq<Pack.PackedChunk>, hi: nat)
    requires Pack.ChunksTile(packed, 0, hi) && hi > 0
    ensures packed != [] && packed[0].startChar == 0 && packed[|packed| - 1].endChar == hi
  {
    TilingAdjoins(packed, 0, hi, 0);
  }
}
