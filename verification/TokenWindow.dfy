/** chunker/tokenizer.py, token-window mode: an overlapping window slides over the tokens and both
    of its ends snap forward to character boundaries. */
module TokenWindow {
  import opened Utf8
  import opened Wrappers
  import opened Contracts
  import opened TokenOffsets

  datatype ChunkingError =
    | NoTokens | WindowDidNotAdvance | NoChunks | BadOffsets(cause: TokenOffsetError) | InvalidChunk

  /** The defaults of the chunk record, which window mode leaves in place. */
  const WINDOW_LAYOUT := ChunkLayout(Mixed, TokenWindow, [], [], [], [], None, [])

  function Min(a: int, b: int): int { if a < b then a else b }

  function Max(a: int, b: int): int { if a > b then a else b }

  /** The token positions (before token `i`, after token `i - 1`) that lie between two characters. */
  ghost function Boundaries(text: string, pieces: seq<seq<Byte>>): set<int> {
    set i | 0 <= i <= |pieces| && IsCharBoundary(text, TokenStart(pieces, i))
  }

  /** `r` is the first position of `bounds` at or after `lo`. */
  ghost predicate IsFirst(bounds: set<int>, lo: int, r: int) {
    lo <= r && r in bounds && forall i :: lo <= i < r ==> i !in bounds
  }

  /** The tokens of `pieces` are those of a byte-level tokenizer run on `text`. */
  ghost predicate Tokenizes(text: string, pieces: seq<seq<Byte>>) {
    pieces != [] && Join(pieces) == Encode(text) && forall p :: p in pieces ==> p != []
  }

  /** Chunk `k` holds exactly the document text under its tokens. */
  ghost predicate IsTokenChunk(d: Document, pieces: seq<seq<Byte>>, c: Chunk, k: nat) {
    && c.docId == d.docId && c.chunkIndex == k
    && c.startToken < c.endToken <= |pieces|
    && c.startByte == TokenStart(pieces, c.startToken) && c.endByte == TokenStart(pieces, c.endToken)
    && c.chunkId == ChunkId(d.docId, d.textSha256, k, c.startByte, c.endByte, c.startToken, c.endToken)
    && c.layout == WINDOW_LAYOUT
    && ChunkExact(d.text, c) && ValidChunk(c)
  }

  ghost predicate AllTokenChunks(d: Document, pieces: seq<seq<Byte>>, chunks: seq<Chunk>) {
    forall k :: 0 <= k < |chunks| ==> IsTokenChunk(d, pieces, chunks[k], k)
  }

  /** Each end is the first boundary at or after a full window, each next start the first boundary
      at or after the overlap. */
  ghost predicate TokenChain(bounds: set<int>, n: nat, window: nat, overlap: nat, chunks: seq<Chunk>) {
    && (forall k :: 0 <= k < |chunks| ==> IsWindow(bounds, n, window, chunks[k]))
    && (forall k :: 0 < k < |chunks| ==> Follows(bounds, n, overlap, chunks, k))
  }

  ghost predicate IsWindow(bounds: set<int>, n: nat, window: nat, c: Chunk) {
    && c.startToken in bounds && c.startToken < n
    && c.startToken < c.endToken
    && IsFirst(bounds, Min(c.startToken + window, n), c.endToken)
  }

  ghost predicate Follows(bounds: set<int>, n: nat, overlap: nat, chunks: seq<Chunk>, k: nat)
    requires 0 < k < |chunks|
  {
    var previous, next := chunks[k - 1], chunks[k];
    && previous.endToken < n
    && IsFirst(bounds, Max(previous.endToken - overlap, previous.startToken + 1), next.startToken)
  }

  /** The whole result of the sliding window: a token chain of exact chunks from the first token to the last. */
  ghost predicate WindowChain(d: Document, pieces: seq<seq<Byte>>, window: nat, overlap: nat, chunks: seq<Chunk>) {
    && chunks != [] && chunks[0].startToken == 0 && chunks[|chunks| - 1].endToken == |pieces|
    && TokenChain(Boundaries(d.text, pieces), |pieces|, window, overlap, chunks)
    && AllTokenChunks(d, pieces, chunks)
  }

  /** `_build_chunk`; the chunk validator is the last check. */
  function BuildChunk(d: Document, chunkIndex: nat, startToken: nat, endToken: nat, o: TokenOffsetMap): (r: Result<Chunk, ChunkingError>)
    requires |o.tokenStarts| == |o.tokenEnds|
  {
    match TokenSpanToTextRange(o, startToken, endToken)
    case Failure(e) => Failure(BadOffsets(e))
    case Success(range) =>
      var c := Chunk(
        ChunkId(d.docId, d.textSha256, chunkIndex, range.startByte, range.endByte, startToken, endToken),
        d.docId, chunkIndex, Slice(d.text, range.startChar, range.endChar),
        range.startChar, range.endChar, range.startByte, range.endByte, startToken, endToken,
        WINDOW_LAYOUT);
      if ValidChunk(c) then Success(c) else Failure(InvalidChunk)
  }

  lemma BuildChunkIsExact(d: Document, pieces: seq<seq<Byte>>, k: nat, startToken: nat, endToken: nat, o: TokenOffsetMap)
    requires Tokenizes(d.text, pieces) && Describes(o, d.text, pieces)
    requires startToken < endToken && startToken in Boundaries(d.text, pieces) && endToken in Boundaries(d.text, pieces)
    ensures |o.tokenStarts| == |o.tokenEnds| && BuildChunk(d, k, startToken, endToken, o).Success?
    ensures IsTokenChunk(d, pieces, BuildChunk(d, k, startToken, endToken, o).value, k)
    ensures BuildChunk(d, k, startToken, endToken, o).value.startToken == startToken
    ensures BuildChunk(d, k, startToken, endToken, o).value.endToken == endToken
  {
    hide Encode, Join;
    var b, e := TokenStart(pieces, startToken), TokenStart(pieces, endToken);
    var i: nat :| i <= |d.text| && PrefixBytes(d.text, i) == b;
    var j: nat :| j <= |d.text| && PrefixBytes(d.text, j) == e;
    TokenStartMonotone(pieces, startToken, endToken);
    if j <= i { PrefixBytesMonotone(d.text, j, i); }
    EncodeSlice(d.text, i, j);
  }

  /** The two membership tests of the code decide exactly the boundary positions. */
  lemma BoundariesAgree(o: TokenOffsetMap, text: string, pieces: seq<seq<Byte>>)
    requires Describes(o, text, pieces)
    ensures forall i: nat :: i < |pieces| ==> (StartsAtBoundary(o, i) <==> i in Boundaries(text, pieces))
    ensures forall i: nat :: 0 < i <= |pieces| ==> (EndsAtBoundary(o, i) <==> i in Boundaries(text, pieces))
  {
    forall i: nat | i < |pieces| ensures StartsAtBoundary(o, i) <==> i in Boundaries(text, pieces) {
      BoundaryMembership(o, text, o.tokenStarts[i]);
    }
    forall i: nat | 0 < i <= |pieces| ensures EndsAtBoundary(o, i) <==> i in Boundaries(text, pieces) {
      BoundaryMembership(o, text, o.tokenEnds[i - 1]);
    }
  }

  /** Both ends of the token sequence are character boundaries. */
  lemma OuterBoundaries(text: string, pieces: seq<seq<Byte>>)
    requires Join(pieces) == Encode(text)
    ensures 0 in Boundaries(text, pieces) && |pieces| in Boundaries(text, pieces)
    ensures forall i :: i in Boundaries(text, pieces) ==> 0 <= i <= |pieces|
  {
    PrefixBytesEnds(text);
    assert pieces[..|pieces|] == pieces;
    assert PrefixBytes(text, 0) == TokenStart(pieces, 0);
    assert PrefixBytes(text, |text|) == TokenStart(pieces, |pieces|);
  }

  /** What the sliding loop knows before an iteration: the chunks so far and where the next may start. */
  ghost predicate Sliding(bounds: set<int>, n: nat, window: nat, overlap: nat, chunks: seq<Chunk>, from: int) {
    && TokenChain(bounds, n, window, overlap, chunks)
    && (if chunks == [] then from == 0
        else
          && chunks[0].startToken == 0
          && var last := chunks[|chunks| - 1];
          last.endToken < n && from == Max(last.endToken - overlap, last.startToken + 1))
  }

  /** The snapped start is a boundary token: the start loop never runs off the end. */
  lemma SnappedStart(bounds: set<int>, n: nat, window: nat, overlap: nat, chunks: seq<Chunk>, from: int, start: int)
    requires 0 < n && 0 in bounds && n in bounds
    requires Sliding(bounds, n, window, overlap, chunks, from)
    requires from <= start && (start <= n || start == from)
    requires start < n ==> start in bounds
    requires forall i :: from <= i < start && i < n ==> i !in bounds
    ensures start < n && IsFirst(bounds, from, start)
    ensures chunks == [] ==> start == 0
  {
    if chunks != [] {
      assert from <= chunks[|chunks| - 1].endToken;
    }
  }

  /** The snapped end is a boundary after the start, and one more chunk extends the chain. */
  lemma SnappedEnd(bounds: set<int>, n: nat, window: nat, overlap: nat, chunks: seq<Chunk>, from: int, c: Chunk)
    requires overlap < window && Sliding(bounds, n, window, overlap, chunks, from)
    requires c.startToken < n && IsFirst(bounds, from, c.startToken) && (chunks == [] ==> c.startToken == 0)
    requires IsFirst(bounds, Min(c.startToken + window, n), c.endToken)
    ensures TokenChain(bounds, n, window, overlap, chunks + [c]) && (chunks + [c])[0].startToken == 0
    ensures c.endToken < n ==>
      Sliding(bounds, n, window, overlap, chunks + [c], Max(c.endToken - overlap, c.startToken + 1))
  {
    var extended := chunks + [c];
    assert IsWindow(bounds, n, window, c);
    forall k | 0 < k < |extended| ensures Follows(bounds, n, overlap, extended, k) {
      FollowsExtends(bounds, n, overlap, chunks, c, k);
      assert k == |chunks| ==> from == Max(chunks[k - 1].endToken - overlap, chunks[k - 1].startToken + 1);
    }
  }

  lemma FollowsExtends(bounds: set<int>, n: nat, overlap: nat, chunks: seq<Chunk>, c: Chunk, k: nat)
    requires 0 < k <= |chunks|
    ensures k < |chunks| && Follows(bounds, n, overlap, chunks, k) ==> Follows(bounds, n, overlap, chunks + [c], k)
    ensures k == |chunks| && chunks[k - 1].endToken < n
      && IsFirst(bounds, Max(chunks[k - 1].endToken - overlap, chunks[k - 1].startToken + 1), c.startToken)
      ==> Follows(bounds, n, overlap, chunks + [c], k)
  {
  }

  lemma AppendTokenChunk(d: Document, pieces: seq<seq<Byte>>, chunks: seq<Chunk>, c: Chunk)
    requires AllTokenChunks(d, pieces, chunks) && IsTokenChunk(d, pieces, c, |chunks|)
    ensures AllTokenChunks(d, pieces, chunks + [c])
  {
  }

  /** Reads the contracts of the two snapping loops in terms of boundary positions. */
  lemma SnapStart(o: TokenOffsetMap, text: string, pieces: seq<seq<Byte>>, from: nat, start: nat)
    requires Describes(o, text, pieces) && Join(pieces) == Encode(text)
    requires forall i :: from <= i < start ==> !StartsAtBoundary(o, i)
    requires start < |pieces| ==> StartsAtBoundary(o, start)
    ensures start < |pieces| ==> start in Boundaries(text, pieces)
    ensures forall i :: from <= i < start && i < |pieces| ==> i !in Boundaries(text, pieces)
  {
    BoundariesAgree(o, text, pieces);
    forall i | from <= i < start && i < |pieces| ensures i !in Boundaries(text, pieces) {
      assert !StartsAtBoundary(o, i);
    }
  }

  lemma SnapEnd(o: TokenOffsetMap, text: string, pieces: seq<seq<Byte>>, lo: nat, end: Result<nat, TokenOffsetError>)
    requires Describes(o, text, pieces) && Join(pieces) == Encode(text) && 0 < lo <= |pieces|
    requires end == Failure(UnalignedFinalToken) ==> forall i :: lo <= i <= |o.tokenEnds| ==> !EndsAtBoundary(o, i)
    requires end.Failure? ==> end.error == UnalignedFinalToken
    requires end.Success? ==> lo <= end.value && EndsAtBoundary(o, end.value)
    requires end.Success? ==> forall i :: lo <= i < end.value ==> !EndsAtBoundary(o, i)
    ensures end.Success? && end.value <= |pieces| && IsFirst(Boundaries(text, pieces), lo, end.value)
  {
    BoundariesAgree(o, text, pieces);
    OuterBoundaries(text, pieces);
    assert EndsAtBoundary(o, |pieces|);
    forall i | lo <= i < end.value ensures i !in Boundaries(text, pieces) {
      assert !EndsAtBoundary(o, i);
    }
  }

  /** The body of the loop after its start is snapped: snap the end of a full window and build the chunk. */
  method BuildWindow(d: Document, pieces: seq<seq<Byte>>, window: nat, o: TokenOffsetMap, chunkIndex: nat, startToken: nat)
    returns (r: Result<Chunk, ChunkingError>)
    requires 0 < window && startToken < |pieces| && Join(pieces) == Encode(d.text) && Describes(o, d.text, pieces)
    ensures Tokenizes(d.text, pieces) && startToken in Boundaries(d.text, pieces) ==>
      && r.Success? && IsTokenChunk(d, pieces, r.value, chunkIndex)
      && IsFirst(Boundaries(d.text, pieces), Min(startToken + window, |pieces|), r.value.endToken)
    ensures r.Success? ==> r.value.startToken == startToken
  {
    var rawEnd := Min(startToken + window, |pieces|);
    var end := NextTokenEndAtCharBoundary(rawEnd, o);
    ghost var tokenizes := Tokenizes(d.text, pieces) && startToken in Boundaries(d.text, pieces);
    if tokenizes {
      SnapEnd(o, d.text, pieces, rawEnd, end);
    }
    if end.Failure? {
      return Failure(BadOffsets(end.error));
    }
    if end.value <= startToken {
      return Failure(WindowDidNotAdvance);
    }
    r := BuildChunk(d, chunkIndex, startToken, end.value, o);
    if tokenizes {
      BuildChunkIsExact(d, pieces, chunkIndex, startToken, end.value, o);
    }
  }

  /** The loop invariant: claimed for the tokens of a byte-level tokenizer only. */
  ghost predicate SlideInvariant(d: Document, pieces: seq<seq<Byte>>, window: nat, overlap: nat, chunks: seq<Chunk>, from: int) {
    Tokenizes(d.text, pieces) ==>
      Sliding(Boundaries(d.text, pieces), |pieces|, window, overlap, chunks, from) && AllTokenChunks(d, pieces, chunks)
  }

  /** Appending `c` either completes the result or leaves the loop ready for the next window. */
  ghost predicate ExtendsSlide(d: Document, pieces: seq<seq<Byte>>, window: nat, overlap: nat, chunks: seq<Chunk>, c: Chunk) {
    if c.endToken < |pieces|
    then SlideInvariant(d, pieces, window, overlap, chunks + [c], Max(c.endToken - overlap, c.startToken + 1))
    else Tokenizes(d.text, pieces) ==> WindowChain(d, pieces, window, overlap, chunks + [c])
  }

  lemma SlideBegins(d: Document, pieces: seq<seq<Byte>>, window: nat, overlap: nat)
    ensures SlideInvariant(d, pieces, window, overlap, [], 0)
  {
  }

  lemma SlideStart(d: Document, pieces: seq<seq<Byte>>, window: nat, overlap: nat, chunks: seq<Chunk>,
                   from: nat, start: nat, o: TokenOffsetMap)
    requires pieces != [] && Describes(o, d.text, pieces) && SlideInvariant(d, pieces, window, overlap, chunks, from)
    requires from <= start && (start <= |pieces| || start == from)
    requires forall i :: from <= i < start ==> !StartsAtBoundary(o, i)
    requires start < |pieces| ==> StartsAtBoundary(o, start)
    ensures Tokenizes(d.text, pieces) ==>
      && from < |pieces| && start < |pieces|
      && IsFirst(Boundaries(d.text, pieces), from, start) && (chunks == [] ==> start == 0)
  {
    if Tokenizes(d.text, pieces) {
      OuterBoundaries(d.text, pieces);
      SnapStart(o, d.text, pieces, from, start);
      SnappedStart(Boundaries(d.text, pieces), |pieces|, window, overlap, chunks, from, start);
    }
  }

  lemma SlideEnd(d: Document, pieces: seq<seq<Byte>>, window: nat, overlap: nat, chunks: seq<Chunk>, from: nat, c: Chunk)
    requires overlap < window && SlideInvariant(d, pieces, window, overlap, chunks, from)
    requires Tokenizes(d.text, pieces) ==>
      && c.startToken < |pieces| && IsFirst(Boundaries(d.text, pieces), from, c.startToken)
      && (chunks == [] ==> c.startToken == 0) && IsTokenChunk(d, pieces, c, |chunks|)
      && IsFirst(Boundaries(d.text, pieces), Min(c.startToken + window, |pieces|), c.endToken)
    ensures ExtendsSlide(d, pieces, window, overlap, chunks, c)
  {
    hide Encode, PrefixBytes, IsTokenChunk;
    if Tokenizes(d.text, pieces) {
      OuterBoundaries(d.text, pieces);
      SnappedEnd(Boundaries(d.text, pieces), |pieces|, window, overlap, chunks, from, c);
      AppendTokenChunk(d, pieces, chunks, c);
    }
  }

  lemma SlideIsOpen(d: Document, pieces: seq<seq<Byte>>, window: nat, overlap: nat, chunks: seq<Chunk>, from: int)
    requires pieces != [] && SlideInvariant(d, pieces, window, overlap, chunks, from)
    ensures Tokenizes(d.text, pieces) ==> from < |pieces|
  {
  }

  /** The body of the loop up to the finished chunk; `None` is its early break. */
  method NextWindow(d: Document, pieces: seq<seq<Byte>>, window: nat, overlap: nat, o: TokenOffsetMap,
                    ghost chunks: seq<Chunk>, chunkIndex: nat, from: nat)
    returns (r: Result<Option<Chunk>, ChunkingError>)
    requires overlap < window && pieces != [] && chunkIndex == |chunks|
    requires Join(pieces) == Encode(d.text) && Describes(o, d.text, pieces)
    requires SlideInvariant(d, pieces, window, overlap, chunks, from)
    ensures Tokenizes(d.text, pieces) ==> r.Success? && r.value.Some?
    ensures r.Success? && r.value.Some? ==>
      r.value.value.startToken >= from && ExtendsSlide(d, pieces, window, overlap, chunks, r.value.value)
  {
    var startToken := NextTokenStartAtCharBoundary(from, o);
    SlideStart(d, pieces, window, overlap, chunks, from, startToken, o);
    if startToken >= |pieces| {
      return Success(None);
    }
    var chunk := BuildWindow(d, pieces, window, o, chunkIndex, startToken);
    if chunk.Failure? {
      return Failure(chunk.error);
    }
    SlideEnd(d, pieces, window, overlap, chunks, from, chunk.value);
    return Success(Some(chunk.value));
  }

  /** The loop of `_chunk_document_sync`. */
  method SlideWindow(d: Document, pieces: seq<seq<Byte>>, window: nat, overlap: nat, o: TokenOffsetMap)
    returns (r: Result<seq<Chunk>, ChunkingError>)
    requires overlap < window && pieces != []
    requires Join(pieces) == Encode(d.text) && Describes(o, d.text, pieces)
    ensures Tokenizes(d.text, pieces) ==> r.Success? && WindowChain(d, pieces, window, overlap, r.value)
  {
    SlideBegins(d, pieces, window, overlap);
    var chunks: seq<Chunk> := [];
    var startToken: nat := 0;
    while startToken < |pieces|
      invariant SlideInvariant(d, pieces, window, overlap, chunks, startToken)
      invariant Tokenizes(d.text, pieces) ==> startToken < |pieces|
    {
      var step := NextWindow(d, pieces, window, overlap, o, chunks, |chunks|, startToken);
      if step.Failure? {
        return Failure(step.error);
      }
      if step.value.None? {
        break;
      }
      var chunk := step.value.value;
      chunks := chunks + [chunk];
      if chunk.endToken >= |pieces| {
        break;
      }
      startToken := Max(chunk.endToken - overlap, chunk.startToken + 1);
      SlideIsOpen(d, pieces, window, overlap, chunks, startToken);
    }
    if chunks == [] {
      return Failure(NoChunks);
    }
    return Success(chunks);
  }

  /** `_chunk_document_sync` in token-window mode. On the tokens of a byte-level tokenizer it always
      succeeds: none of its error exits and neither early break is taken. */
  method ChunkDocument(d: Document, pieces: seq<seq<Byte>>, window: nat, overlap: nat)
    returns (r: Result<seq<Chunk>, ChunkingError>)
    requires overlap < window
    ensures pieces == [] ==> r == Failure(NoTokens)
    ensures pieces != [] && Join(pieces) != Encode(d.text) ==> r == Failure(BadOffsets(ReconstructionMismatch))
    ensures Tokenizes(d.text, pieces) ==> r.Success? && WindowChain(d, pieces, window, overlap, r.value)
  {
    if pieces == [] {
      return Failure(NoTokens);
    }
    var built := BuildTokenOffsetMap(d.text, pieces);
    if built.Failure? {
      return Failure(BadOffsets(built.error));
    }
    r := SlideWindow(d, pieces, window, overlap, built.value);
  }

}
