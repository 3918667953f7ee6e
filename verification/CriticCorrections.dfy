/** critic/corrections.py, critic/reports.py and critic/mirroring.py: what a critic verdict may do to a
    candidate, and how its outcome is copied to merged duplicates. */
module CriticCorrections {
  import opened Utf8
  import opened Wrappers
  import opened Contracts
  import opened SourceResolution
  import opened CandidateBuilding

  datatype Correction = Correction(value: Option<string>, category: Option<string>, fieldName: Option<string>,
                                   spanStartChar: Option<nat>, spanText: Option<string>)

  datatype Decision = Accept | Reject | Correct

  datatype Verdict = Verdict(id: string, decision: Decision, code: Option<ReasonCode>, evidence: Option<string>,
                             correction: Option<Correction>)

  /** The token-level judgements on values, as arbitrary functions. */
  datatype Grounding = Grounding(supported: Candidate -> bool, isLabelField: string -> bool,
                                 dropsQualifier: (Candidate, Candidate) -> bool,
                                 contradicts: (Plan, Chunk, Candidate, Verdict) -> bool)

  /** `materialize_correction` */
  function MaterializeCorrection(raw: Option<Correction>, original: Candidate, chunk: Chunk): (Option<Candidate>, seq<RejectionReason>) {
    if raw.None? then (None, [RejectionReason(SchemaViolation, CorrectionMissing)])
    else
      var startChar := raw.value.spanStartChar.GetOr(original.span.startChar);
      var spanText := raw.value.spanText.GetOr(original.span.text);
      var start := startChar - chunk.startChar;
      var end := start + |spanText|;
      if start < 0 || end > |chunk.text| || chunk.text[start..end] != spanText
      then (None, [RejectionReason(InventedSpan, CorrectionSpanMismatch)])
      else
        var startByte := chunk.startByte + PrefixBytes(chunk.text, start);
        var corrected := original.(
          value := raw.value.value.GetOr(original.value),
          category := raw.value.category.GetOr(original.category),
          fieldName := raw.value.fieldName.GetOr(original.fieldName),
          span := SourceSpan(original.docId, original.chunkId, startChar, startChar + |spanText|,
                             startByte, startByte + |Encode(spanText)|, spanText));
        if ValidCandidate(corrected) then (Some(corrected), [])
        else (None, [RejectionReason(InventedSpan, CorrectionViolatesInvariants)])
  }

  /** `correction_expands_source_span` */
  predicate ExpandsSpan(original: SourceSpan, corrected: SourceSpan) {
    || corrected.startChar < original.startChar || corrected.endChar > original.endChar
    || corrected.startByte < original.startByte || corrected.endByte > original.endByte
  }

  function ReasonIf(b: bool, code: ReasonCode, message: Message): seq<RejectionReason> {
    if b then [RejectionReason(code, message)] else []
  }

  /** `correction_rejection_reasons` */
  function CorrectionRejectionReasons(plan: Plan, chunk: Chunk, original: Candidate, corrected: Candidate, g: Grounding): seq<RejectionReason> {
    ReasonIf(corrected.candidateId != original.candidateId, SchemaViolation, Text("candidate_id"))
    + ReasonIf(corrected.runId != original.runId, SchemaViolation, Text("run_id"))
    + ReasonIf(corrected.docId != original.docId, SchemaViolation, Text("doc_id"))
    + ReasonIf(corrected.chunkId != original.chunkId, SchemaViolation, Text("chunk_id"))
    + ReasonIf(corrected.lens != original.lens, SchemaViolation, Text("lens"))
    + ReasonIf(corrected.executorCallId != original.executorCallId, SchemaViolation, Text("executor_call_id"))
    + ReasonIf(!SchemaApproves(plan, corrected.category, corrected.fieldName), SchemaViolation, Text("slot not approved"))
    + ReasonIf(!SpanMatchesChunk(corrected.span, chunk), InventedSpan, Text("span does not match"))
    + ReasonIf(ExpandsSpan(original.span, corrected.span), SchemaViolation, CorrectionExpandsSpan)
    + ReasonIf(!g.isLabelField(corrected.fieldName) && !g.supported(corrected), InventedSpan, Text("value not grounded"))
    + ReasonIf(corrected.value != original.value && g.dropsQualifier(original, corrected), SchemaViolation, Text("qualifier dropped"))
  }

  /** `candidate_is_mechanically_valid` */
  predicate MechanicallyValid(plan: Plan, chunk: Chunk, c: Candidate, g: Grounding) {
    SchemaApproves(plan, c.category, c.fieldName) && SpanMatchesChunk(c.span, chunk) && g.supported(c)
  }

  predicate IsStructural(reason: RejectionReason) {
    reason.code == InventedSpan && reason.message in {CorrectionSpanMismatch, CorrectionViolatesInvariants}
  }

  /** `should_preserve_original_for_correction` */
  predicate ShouldPreserveOriginal(plan: Plan, chunk: Chunk, original: Candidate, corrected: Option<Candidate>,
                                   reasons: seq<RejectionReason>, g: Grounding) {
    && MechanicallyValid(plan, chunk, original, g)
    && match corrected
       case Some(c) =>
         || c.category != original.category || c.fieldName != original.fieldName
         || (|reasons| == 1 && reasons[0].message == CorrectionExpandsSpan)
       case None => reasons != [] && forall reason :: reason in reasons ==> IsStructural(reason)
  }

  /** The outcome of `build_report`: whether the candidate passes, and with which correction. */
  datatype Review = Review(accepted: bool, corrected: Option<Candidate>)

  /** `build_report` */
  function BuildReview(plan: Plan, chunk: Chunk, candidate: Candidate, verdict: Verdict, g: Grounding): Review {
    match verdict.decision
    case Accept => Review(true, None)
    case Reject => Review(g.contradicts(plan, chunk, candidate, verdict), None)
    case Correct =>
      var (corrected, structural) := MaterializeCorrection(verdict.correction, candidate, chunk);
      var reasons := structural
        + (if corrected.Some? then CorrectionRejectionReasons(plan, chunk, candidate, corrected.value, g) else []);
      if ShouldPreserveOriginal(plan, chunk, candidate, corrected, reasons, g) then Review(true, None)
      else if reasons != [] then Review(false, None)
      else Review(true, corrected)
  }

  /** `report.corrected_candidate or candidate` */
  function Reviewed(c: Candidate, r: Review): Candidate {
    r.corrected.GetOr(c)
  }

  /** `_mirror_corrected_candidate`; copying skips the validators. */
  function MirrorCorrected(corrected: Option<Candidate>, duplicate: Candidate): Option<Candidate> {
    match corrected
    case None => None
    case Some(c) => Some(duplicate.(
      category := c.category, fieldName := c.fieldName, value := c.value, confidence := c.confidence,
      span := c.span.(docId := duplicate.docId, chunkId := duplicate.chunkId)))
  }

  /** `_mirror_critic_report` */
  function MirrorReview(primary: Review, duplicate: Candidate): Review {
    Review(primary.accepted, MirrorCorrected(primary.corrected, duplicate))
  }

  /** A materialized correction keeps the identity, the lens and the confidence, and its span is exact. */
  lemma CorrectionIsExact(text: string, raw: Option<Correction>, original: Candidate, chunk: Chunk)
    requires ChunkExact(text, chunk)
    ensures var corrected := MaterializeCorrection(raw, original, chunk).0;
      corrected.Some? ==>
        && SpanExact(text, corrected.value.span) && ValidCandidate(corrected.value)
        && corrected.value == original.(span := corrected.value.span, value := corrected.value.value,
                                        category := corrected.value.category, fieldName := corrected.value.fieldName)
  {
    hide Encode, ChunkExact, SpanExact;
    var corrected := MaterializeCorrection(raw, original, chunk).0;
    if corrected.Some? {
      SliceSpanIsExact(text, chunk, corrected.value.span);
    }
  }

  /** Whatever the verdict, the reviewed candidate of an exact candidate is exact. */
  lemma ReviewIsExact(text: string, plan: Plan, chunk: Chunk, candidate: Candidate, verdict: Verdict, g: Grounding)
    requires ChunkExact(text, chunk) && SpanExact(text, candidate.span)
    ensures SpanExact(text, Reviewed(candidate, BuildReview(plan, chunk, candidate, verdict, g)).span)
  {
    hide SpanExact, ChunkExact, CorrectionRejectionReasons, ShouldPreserveOriginal, MaterializeCorrection;
    CorrectionIsExact(text, verdict.correction, candidate, chunk);
  }

  /** A mirrored correction keeps the exact document range of the correction, even in another chunk. */
  lemma MirrorIsExact(text: string, primary: Review, duplicate: Candidate)
    requires SpanExact(text, duplicate.span) && (primary.corrected.Some? ==> SpanExact(text, primary.corrected.value.span))
    ensures SpanExact(text, Reviewed(duplicate, MirrorReview(primary, duplicate)).span)
  {
  }

  /** An applied correction narrows the span inside the original one, stays in the plan's schema and
      keeps the candidate's identity. */
  lemma AppliedCorrectionNarrows(plan: Plan, chunk: Chunk, candidate: Candidate, verdict: Verdict, g: Grounding)
    ensures var r := BuildReview(plan, chunk, candidate, verdict, g);
      r.corrected.Some? ==>
        var c := r.corrected.value;
        && r.accepted && verdict.decision == Correct
        && candidate.span.startChar <= c.span.startChar && c.span.endChar <= candidate.span.endChar
        && SchemaApproves(plan, c.category, c.fieldName) && SpanMatchesChunk(c.span, chunk)
        && (g.isLabelField(c.fieldName) || g.supported(c))
        && c.candidateId == candidate.candidateId && c.chunkId == candidate.chunkId && c.confidence == candidate.confidence
  {
    hide SpanMatchesChunk, SchemaApproves, ValidCandidate, Encode;
  }

  /** A mirrored correction takes over the primary's value but keeps the duplicate's normalization record.
      Among executor-built candidates it passes the validator exactly when the two values were equal. */
  lemma MirrorIsValidExactly(plan: Plan, chunk: Chunk, primary: Candidate, verdict: Verdict, g: Grounding, duplicate: Candidate)
    requires ExecutorBuilt(primary) && ExecutorBuilt(duplicate)
    ensures var r := BuildReview(plan, chunk, primary, verdict, g);
      r.corrected.Some? ==>
        && ValidCandidate(r.corrected.value)
        && (ValidCandidate(MirrorCorrected(r.corrected, duplicate).value) <==> duplicate.value == primary.value)
  {
    hide SpanMatchesChunk, SchemaApproves, Encode, CorrectionRejectionReasons, ShouldPreserveOriginal, NonBlank, FilledNormalization,
      NormalizationMetadata, ValidNormalization;
    ExecutorBuiltPins(primary);
    ExecutorBuiltPins(duplicate);
  }

  /** So mirroring changes the value of a merged candidate exactly when its primary was corrected and the
      two values differ. */
  lemma MirrorKeepsValueExactly(plan: Plan, chunk: Chunk, primary: Candidate, verdict: Verdict, g: Grounding, duplicate: Candidate)
    requires ExecutorBuilt(primary)
    ensures var r := BuildReview(plan, chunk, primary, verdict, g);
      Reviewed(duplicate, MirrorReview(r, duplicate)).value == duplicate.value <==> r.corrected.None? || duplicate.value == primary.value
  {
    hide SpanMatchesChunk, SchemaApproves, Encode, CorrectionRejectionReasons, ShouldPreserveOriginal, NonBlank, ValidSpan;
    ExecutorBuiltPins(primary);
    CorrectionsNeverChangeTheValue(plan, chunk, primary, verdict, g);
  }

  /** The normalization record that the executor attaches pins the value: no correction of such a
      candidate ever changes it, because a changed value fails the record's validator. */
  lemma CorrectionsNeverChangeTheValue(plan: Plan, chunk: Chunk, candidate: Candidate, verdict: Verdict, g: Grounding)
    requires ValidCandidate(candidate) && candidate.normalization.status in {VerbatimOnly, Canonicalized}
    ensures Reviewed(candidate, BuildReview(plan, chunk, candidate, verdict, g)).value == candidate.value
  {
    hide SpanMatchesChunk, SchemaApproves, Encode, CorrectionRejectionReasons, ShouldPreserveOriginal, ValidSpan;
  }

  /** A requested change of value is refused as structurally invalid, so a mechanically valid candidate
      is passed on unchanged and any other is rejected. */
  lemma ValueCorrectionOutcome(plan: Plan, chunk: Chunk, candidate: Candidate, verdict: Verdict, g: Grounding)
    requires ValidCandidate(candidate) && candidate.normalization.status in {VerbatimOnly, Canonicalized}
    requires verdict.decision == Correct && verdict.correction.Some?
    requires verdict.correction.value.value.Some? && verdict.correction.value.value.value != candidate.value
    ensures BuildReview(plan, chunk, candidate, verdict, g) == Review(MechanicallyValid(plan, chunk, candidate, g), None)
  {
    hide SpanMatchesChunk, SchemaApproves, Encode, CorrectionRejectionReasons, ValidSpan;
  }
}
