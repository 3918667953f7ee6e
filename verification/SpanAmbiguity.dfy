/** What `span_matches_chunk` leaves open: it compares characters and bytes separately, so the byte
    offsets may be those of another occurrence of the same text. */
module SpanAmbiguity {
  import opened Utf8
  import opened Wrappers
  import opened Contracts
  import opened SourceResolution
  import opened CandidateBuilding
  import opened ReportInvariants

  /** The characters `text` occur in the chunk at character `k`. */
  predicate OccursIn(chunk: Chunk, text: string, k: nat) {
    k + |text| <= |chunk.text| && chunk.text[k..k + |text|] == text
  }

  /** The chunk holds the text at one place at most. */
  ghost predicate OccursOnce(chunk: Chunk, text: string) {
    forall i, j :: OccursIn(chunk, text, i) && OccursIn(chunk, text, j) ==> i == j
  }

  /** The byte offset counted from the chunk start, as the executor and the critic count it. */
  predicate BytesFollowChars(chunk: Chunk, s: SourceSpan) {
    && chunk.startChar <= s.startChar && s.startChar - chunk.startChar <= |chunk.text|
    && s.startByte == chunk.startByte + PrefixBytes(chunk.text, s.startChar - chunk.startChar)
  }

  /** A matching span of an exact chunk is exact in the document exactly when its start byte is the
      byte offset of its start character. */
  lemma MatchIsExactIff(text: string, chunk: Chunk, s: SourceSpan)
    requires ChunkExact(text, chunk) && ValidSpan(s) && SpanMatchesChunk(s, chunk)
    ensures SpanExact(text, s) <==> BytesFollowChars(chunk, s)
  {
    hide Encode, SpanMatchesChunk;
    MatchStartsInside(chunk, s);
    PrefixBytesOfSlice(text, chunk.startChar, chunk.endChar, s.startChar - chunk.startChar);
    if BytesFollowChars(chunk, s) {
      MatchingSpanIsExact(text, chunk, s);
    }
  }

  lemma MatchStartsInside(chunk: Chunk, s: SourceSpan)
    requires ValidSpan(s) && SpanMatchesChunk(s, chunk)
    ensures chunk.startChar <= s.startChar && OccursIn(chunk, s.text, s.startChar - chunk.startChar)
  {
    hide Encode;
  }

  /** The bytes of a matching span are at some occurrence of its text in the chunk. */
  lemma BytesAreAnOccurrence(chunk: Chunk, s: SourceSpan)
    requires ValidSpan(s) && SpanMatchesChunk(s, chunk)
    ensures exists k :: OccursIn(chunk, s.text, k) && s.startByte == chunk.startByte + PrefixBytes(chunk.text, k)
  {
    hide PrefixBytes, Encode;
    var at := s.startByte - chunk.startByte;
    EncodedOccurrence(chunk.text, s.text, at);
    var k: nat :| k + |s.text| <= |chunk.text| && PrefixBytes(chunk.text, k) == at && chunk.text[k..k + |s.text|] == s.text;
    assert OccursIn(chunk, s.text, k);
  }

  /** Matching therefore suffices for a text that the chunk holds only once. */
  lemma UniqueMatchIsExact(text: string, chunk: Chunk, s: SourceSpan)
    requires ChunkExact(text, chunk) && ValidSpan(s) && SpanMatchesChunk(s, chunk) && OccursOnce(chunk, s.text)
    ensures SpanExact(text, s)
  {
    hide Encode, SpanMatchesChunk, ChunkExact, SpanExact, PrefixBytes, OccursIn;
    MatchStartsInside(chunk, s);
    BytesAreAnOccurrence(chunk, s);
    MatchIsExactIff(text, chunk, s);
    OccurrenceFits(chunk, s.text, s.startChar - chunk.startChar);
  }

  lemma OccurrenceFits(chunk: Chunk, text: string, k: nat)
    requires OccursIn(chunk, text, k)
    ensures k <= |chunk.text|
  {
  }

  /** The characters of occurrence `i` with the bytes of occurrence `j`. */
  function CrossSpan(chunk: Chunk, t: string, i: nat, j: nat): SourceSpan
    requires j <= |chunk.text|
  {
    var startByte := chunk.startByte + PrefixBytes(chunk.text, j);
    SourceSpan(chunk.docId, chunk.chunkId, chunk.startChar + i, chunk.startChar + i + |t|, startByte, startByte + |Encode(t)|, t)
  }

  lemma CrossSpanMatches(text: string, chunk: Chunk, t: string, i: nat, j: nat)
    requires ChunkExact(text, chunk) && t != [] && OccursIn(chunk, t, i) && OccursIn(chunk, t, j)
    ensures var s := CrossSpan(chunk, t, i, j); ValidSpan(s) && SpanMatchesChunk(s, chunk)
  {
    hide PrefixBytes;
    EncodeSlice(text, chunk.startChar, chunk.endChar);
    EncodeSlice(chunk.text, j, j + |t|);
  }

  lemma CrossSpanIsNotExact(text: string, chunk: Chunk, t: string, i: nat, j: nat)
    requires ChunkExact(text, chunk) && t != [] && OccursIn(chunk, t, i) && OccursIn(chunk, t, j) && i != j
    ensures !SpanExact(text, CrossSpan(chunk, t, i, j))
  {
    hide Encode, PrefixBytes;
    var s := CrossSpan(chunk, t, i, j);
    CrossSpanMatches(text, chunk, t, i, j);
    MatchIsExactIff(text, chunk, s);
    if i < j { PrefixBytesMonotone(chunk.text, i, j); } else { PrefixBytesMonotone(chunk.text, j, i); }
  }

  /** Matching the chunk makes every span with text `t` exact ... */
  ghost predicate MatchingSuffices(text: string, chunk: Chunk, t: string) {
    forall s: SourceSpan :: s.text == t && ValidSpan(s) && SpanMatchesChunk(s, chunk) ==> SpanExact(text, s)
  }

  /** ... if and only if the chunk holds `t` at one place at most. */
  lemma MatchingSufficesExactly(text: string, chunk: Chunk, t: string)
    requires ChunkExact(text, chunk) && t != []
    ensures MatchingSuffices(text, chunk, t) <==> OccursOnce(chunk, t)
  {
    hide SpanMatchesChunk, ChunkExact, SpanExact, OccursIn, CrossSpan, ValidSpan;
    if OccursOnce(chunk, t) {
      forall s: SourceSpan | s.text == t && ValidSpan(s) && SpanMatchesChunk(s, chunk) ensures SpanExact(text, s) {
        UniqueMatchIsExact(text, chunk, s);
      }
    } else {
      var i, j :| OccursIn(chunk, t, i) && OccursIn(chunk, t, j) && i != j;
      OccurrenceFits(chunk, t, j);
      CrossSpanMatches(text, chunk, t, i, j);
      CrossSpanIsNotExact(text, chunk, t, i, j);
      CrossSpanText(chunk, t, i, j);
    }
  }

  lemma CrossSpanText(chunk: Chunk, t: string, i: nat, j: nat)
    requires j <= |chunk.text|
    ensures CrossSpan(chunk, t, i, j).text == t
  {
  }

  function Repeated(docId: string): Chunk {
    Chunk(ChunkId(docId, "", 0, 0, 2, 0, 1), docId, 0, "aa", 0, 2, 0, 2, 0, 1,
      ChunkLayout(Mixed, TokenWindow, [], [], [], [], None, []))
  }

  /** Without that: the first "a" of "aa" by its characters, the second by its bytes, matches the
      chunk and fails the report check. */
  lemma AmbiguousMatch(docId: string)
    ensures
      var s := SourceSpan(docId, Repeated(docId).chunkId, 0, 1, 1, 2, "a");
      && ChunkExact("aa", Repeated(docId)) && ValidChunk(Repeated(docId))
      && ValidSpan(s) && SpanMatchesChunk(s, Repeated(docId))
      && SpanInvariantViolations("aa", s, false, docId) == [Violation(ByteOffsetMismatch, false, docId)]
  {
    assert Encode("a") == [0x61];
    assert "aa"[1..] == "a" && "aa"[..1] == "a" && "aa"[..0] == "" && "aa"[..2] == "aa";
    assert Encode("aa") == [0x61, 0x61];
  }
}
