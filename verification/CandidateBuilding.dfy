/** executor/materialization.py and executor/policies.py: a resolved payload becomes a candidate with
    a byte-aligned span, and is accepted or rejected. */
module CandidateBuilding {
  import opened Utf8
  import opened Wrappers
  import opened Contracts
  import opened SourceResolution

  /** `_derive_byte_offsets` */
  function DeriveByteOffsets(chunk: Chunk, startChar: nat, sourceText: string): (nat, nat) {
    var relativeStart := startChar - chunk.startChar;
    if relativeStart < 0 || relativeStart > |chunk.text| then (chunk.startByte, chunk.startByte)
    else
      var start := chunk.startByte + PrefixBytes(chunk.text, relativeStart);
      (start, start + |Encode(sourceText)|)
  }

  /** `_normalization_metadata` */
  function NormalizationMetadata(value: string, sourceText: string): Normalization {
    if value == sourceText then Normalization(Some(sourceText), None, "text", VerbatimOnly, None, None, None)
    else Normalization(Some(sourceText), Some(value), "text", Canonicalized, Some("source-traced-label"), Some("1"), None)
  }

  /** What the fields of an extracted payload check. */
  predicate ValidPayload(p: Payload) {
    NonBlank(p.category) && NonBlank(p.fieldName) && NonBlank(p.value) && 0.0 <= p.confidence <= 1.0
  }

  /** A valid candidate with the normalization record that the executor attaches. */
  predicate ExecutorBuilt(c: Candidate) {
    ValidCandidate(c) && c.normalization == NormalizationMetadata(c.value, c.span.text)
  }

  /** That record pins the value, and the span's text is not blank. */
  lemma ExecutorBuiltPins(c: Candidate)
    requires ExecutorBuilt(c)
    ensures c.normalization.status in {VerbatimOnly, Canonicalized} && NonBlank(c.span.text)
    ensures forall value :: ValidNormalization(value, c.normalization) <==> value == c.value
  {
    hide NonBlank, ValidSpan;
  }

  /** `build_candidate`; `None` is the validation error that its records raise. The id is the digest of
      the call's arguments. */
  function BuildCandidate(plan: Plan, lens: string, chunk: Chunk, payload: Payload, startChar: nat, sourceText: string,
                          candidateId: string, callId: string): (r: Option<Candidate>)
    ensures r.Some? ==> ExecutorBuilt(r.value)
  {
    var (startByte, endByte) := DeriveByteOffsets(chunk, startChar, sourceText);
    var c := Candidate(candidateId, plan.runId, plan.docId, chunk.chunkId, lens, payload.category, payload.fieldName, payload.value,
      SourceSpan(plan.docId, chunk.chunkId, startChar, startChar + |sourceText|, startByte, endByte, sourceText),
      payload.confidence, callId, NormalizationMetadata(payload.value, sourceText));
    if ValidCandidate(c) then Some(c) else None
  }

  /** `candidate_rejection_reasons` */
  function CandidateRejectionReasons(plan: Plan, c: Candidate, chunk: Chunk): seq<RejectionReason> {
    (if c.category !in plan.approved then [RejectionReason(CategoryNotApproved, Text(c.category))]
     else if c.fieldName !in plan.approved[c.category] then [RejectionReason(SchemaViolation, Text(c.fieldName))]
     else [])
    + (if SpanMatchesChunk(c.span, chunk) then [] else [RejectionReason(InventedSpan, Text("span does not match the chunk"))])
  }

  /** One iteration of the executor's outcome loop: the candidate and its reasons. */
  function ExecuteOne(plan: Plan, lens: string, chunk: Chunk, payload: Payload, fold: char -> char,
                      normalizers: seq<Normalizer>, candidateId: string, callId: string): Option<(Candidate, seq<RejectionReason>)>
    requires payload.value != []
  {
    var (p, resolution) := PreparePayload(payload, chunk, fold, normalizers);
    match BuildCandidate(plan, lens, chunk, p, resolution.startChar, resolution.sourceText, candidateId, callId)
    case None => None
    case Some(c) => Some((c, resolution.reasons + CandidateRejectionReasons(plan, c, chunk)))
  }

  /** A slice of an exact chunk, with bytes counted from the chunk start, is exact in the document. */
  lemma SliceSpanIsExact(text: string, chunk: Chunk, s: SourceSpan)
    requires ChunkExact(text, chunk) && IsSliceOf(chunk, s.startChar, s.text) && s.endChar == s.startChar + |s.text|
    requires (s.startByte, s.endByte) == DeriveByteOffsets(chunk, s.startChar, s.text)
    ensures SpanExact(text, s) && ValidSpan(s)
  {
    hide Encode;
    var relative := s.startChar - chunk.startChar;
    PrefixBytesOfSlice(text, chunk.startChar, chunk.endChar, relative);
    EncodeSlice(text, s.startChar, s.endChar);
    assert text[s.startChar..s.endChar] == chunk.text[relative..relative + |s.text|];
    EncodeGrows(s.text);
  }

  lemma EncodeGrows(text: string)
    ensures |Encode(text)| >= |text|
  {
  }

  /** A matching span whose bytes were counted from the chunk start is exact, whoever chose its text. */
  lemma MatchingSpanIsExact(text: string, chunk: Chunk, s: SourceSpan)
    requires ChunkExact(text, chunk) && ValidSpan(s) && SpanMatchesChunk(s, chunk)
    requires s.startByte == chunk.startByte + PrefixBytes(chunk.text, s.startChar - chunk.startChar)
    ensures SpanExact(text, s) && IsSliceOf(chunk, s.startChar, s.text)
  {
    hide Encode;
    var relative := s.startChar - chunk.startChar;
    assert chunk.text[relative..relative + |s.text|] == s.text;
    assert (s.startByte, s.endByte) == DeriveByteOffsets(chunk, s.startChar, s.text);
    SliceSpanIsExact(text, chunk, s);
  }

  lemma MetadataIsFilled(value: string, sourceText: string)
    requires NonBlank(value)
    ensures FilledNormalization(NormalizationMetadata(value, sourceText)) <==> NonBlank(sourceText)
    ensures ValidNormalization(value, NormalizationMetadata(value, sourceText))
  {
    assert NonBlank("source-traced-label") && NonBlank("1") by {
      assert "source-traced-label"[0] == 's' && "1"[0] == '1';
    }
    hide NonBlank;
  }

  /** Building from a slice of the chunk fails exactly when the slice is blank, because the verbatim value
      must not be, and otherwise yields an exact span. */
  lemma BuiltSpanIsExact(text: string, plan: Plan, lens: string, chunk: Chunk, payload: Payload, startChar: nat, sourceText: string,
                         candidateId: string, callId: string)
    requires ChunkExact(text, chunk) && IsSliceOf(chunk, startChar, sourceText) && ValidPayload(payload)
    ensures var c := BuildCandidate(plan, lens, chunk, payload, startChar, sourceText, candidateId, callId);
      && (c.Some? <==> NonBlank(sourceText))
      && (c.Some? ==> SpanExact(text, c.value.span) && c.value.span.text == sourceText && c.value.value == payload.value)
  {
    hide Encode, ChunkExact, SpanExact, IsSliceOf, NonBlank, FilledNormalization, NormalizationMetadata, ValidNormalization;
    MetadataIsFilled(payload.value, sourceText);
    var (startByte, endByte) := DeriveByteOffsets(chunk, startChar, sourceText);
    var s := SourceSpan(plan.docId, chunk.chunkId, startChar, startChar + |sourceText|, startByte, endByte, sourceText);
    SliceSpanIsExact(text, chunk, s);
  }

  /** Even when a normalizer moves the span arbitrarily, an accepted candidate is exact in the document
      and approved by the schema. */
  lemma AcceptedCandidateIsExact(text: string, plan: Plan, lens: string, chunk: Chunk, payload: Payload, fold: char -> char,
                                 normalizers: seq<Normalizer>, candidateId: string, callId: string)
    requires ChunkExact(text, chunk) && payload.value != []
    ensures var r := ExecuteOne(plan, lens, chunk, payload, fold, normalizers, candidateId, callId);
      r.Some? && r.value.1 == [] ==>
        SpanExact(text, r.value.0.span) && SchemaApproves(plan, r.value.0.category, r.value.0.fieldName)
  {
    hide PreparePayload, Encode, ChunkExact, SpanExact, NormalizationMetadata;
    var r := ExecuteOne(plan, lens, chunk, payload, fold, normalizers, candidateId, callId);
    if r.Some? && r.value.1 == [] {
      AcceptedSpan(text, plan, lens, chunk, PreparePayload(payload, chunk, fold, normalizers), candidateId, callId);
    }
  }

  lemma AcceptedSpan(text: string, plan: Plan, lens: string, chunk: Chunk, prepared: (Payload, Resolution),
                     candidateId: string, callId: string)
    requires ChunkExact(text, chunk)
    ensures var c := BuildCandidate(plan, lens, chunk, prepared.0, prepared.1.startChar, prepared.1.sourceText, candidateId, callId);
      c.Some? && SpanMatchesChunk(c.value.span, chunk) ==> SpanExact(text, c.value.span)
  {
    hide Encode, ChunkExact, SpanExact, NormalizationMetadata;
    var c := BuildCandidate(plan, lens, chunk, prepared.0, prepared.1.startChar, prepared.1.sourceText, candidateId, callId);
    if c.Some? && SpanMatchesChunk(c.value.span, chunk) {
      DerivedStart(chunk, c.value.span);
      MatchingSpanIsExact(text, chunk, c.value.span);
    }
  }

  lemma DerivedStart(chunk: Chunk, s: SourceSpan)
    requires ValidSpan(s) && SpanMatchesChunk(s, chunk)
    requires (s.startByte, s.endByte) == DeriveByteOffsets(chunk, s.startChar, s.text)
    ensures s.startChar - chunk.startChar <= |chunk.text|
    ensures s.startByte == chunk.startByte + PrefixBytes(chunk.text, s.startChar - chunk.startChar)
  {
    hide Encode;
  }

  /** A built candidate says what the payload says, about the chunk and the plan that it was built for. */
  lemma BuiltSaysWhatWasClaimed(plan: Plan, lens: string, chunk: Chunk, payload: Payload, startChar: nat, sourceText: string,
                                candidateId: string, callId: string, c: Candidate)
    requires BuildCandidate(plan, lens, chunk, payload, startChar, sourceText, candidateId, callId) == Some(c)
    ensures c.candidateId == candidateId && c.executorCallId == callId && c.lens == lens
    ensures c.runId == plan.runId && c.docId == c.span.docId == plan.docId && c.chunkId == c.span.chunkId == chunk.chunkId
    ensures c.category == payload.category && c.fieldName == payload.fieldName && c.value == payload.value && c.confidence == payload.confidence
    ensures c.span.startChar == startChar && c.span.text == sourceText
    ensures c.normalization.status == VerbatimOnly <==> c.value == c.span.text
  {
    hide ValidCandidate, DeriveByteOffsets;
  }

  /** The codes of the executor's own reasons: category, field and span, each exactly when it is wrong. */
  lemma CandidateCodes(plan: Plan, c: Candidate, chunk: Chunk)
    ensures var reasons := CandidateRejectionReasons(plan, c, chunk);
      && ((exists r :: r in reasons && r.code == CategoryNotApproved) <==> c.category !in plan.approved)
      && ((exists r :: r in reasons && r.code == SchemaViolation) <==>
            c.category in plan.approved && !SchemaApproves(plan, c.category, c.fieldName))
      && ((exists r :: r in reasons && r.code == InventedSpan) <==> !SpanMatchesChunk(c.span, chunk))
      && (forall r :: r in reasons ==> r.code in {CategoryNotApproved, SchemaViolation, InventedSpan})
  {
    hide SpanMatchesChunk;
    var slot := if c.category !in plan.approved then [RejectionReason(CategoryNotApproved, Text(c.category))]
      else if c.fieldName !in plan.approved[c.category] then [RejectionReason(SchemaViolation, Text(c.fieldName))] else [];
    var span := if SpanMatchesChunk(c.span, chunk) then [] else [RejectionReason(InventedSpan, Text("span does not match the chunk"))];
    assert CandidateRejectionReasons(plan, c, chunk) == slot + span;
    forall r ensures r in slot + span <==> r in slot || r in span {}
    if slot != [] {
      assert slot[0] in slot + span;
    }
    if span != [] {
      assert span[0] in slot + span;
    }
  }

  /** Byte offsets count from the chunk's start, over the characters before the text and over the text; a
      start outside the chunk gets the chunk's start. */
  lemma BytesAreCounted(chunk: Chunk, startChar: nat, sourceText: string)
    ensures var (startByte, endByte) := DeriveByteOffsets(chunk, startChar, sourceText);
      if chunk.startChar <= startChar <= chunk.startChar + |chunk.text| then
        && startByte == chunk.startByte + |Encode(chunk.text[..startChar - chunk.startChar])|
        && endByte == startByte + |Encode(sourceText)|
      else startByte == chunk.startByte && endByte == chunk.startByte
  {
    hide Encode;
  }
}
