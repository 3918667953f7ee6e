/** critic/corrections.py and critic/reports.py: when a correction is applied, when the candidate is
    passed on as it is and when it is rejected, read off the verdict and the mechanical checks. */
module CorrectionRules {
  import opened Utf8
  import opened Wrappers
  import opened Contracts
  import opened SourceResolution
  import opened CandidateBuilding
  import opened CriticCorrections

  /** The candidate that the correction asks for: what it names is replaced, the rest is the original's,
      and the bytes are those of the named slice of the chunk. */
  predicate AsksFor(raw: Correction, original: Candidate, chunk: Chunk, c: Candidate) {
    && c.candidateId == original.candidateId && c.runId == original.runId && c.docId == original.docId && c.chunkId == original.chunkId
    && c.lens == original.lens && c.confidence == original.confidence && c.executorCallId == original.executorCallId
    && c.normalization == original.normalization
    && c.value == (if raw.value.Some? then raw.value.value else original.value)
    && c.category == (if raw.category.Some? then raw.category.value else original.category)
    && c.fieldName == (if raw.fieldName.Some? then raw.fieldName.value else original.fieldName)
    && c.span.text == (if raw.spanText.Some? then raw.spanText.value else original.span.text)
    && c.span.startChar == (if raw.spanStartChar.Some? then raw.spanStartChar.value else original.span.startChar)
    && c.span.docId == original.docId && c.span.chunkId == original.chunkId
    && IsSliceOf(chunk, c.span.startChar, c.span.text) && c.span.endChar == c.span.startChar + |c.span.text|
    && (c.span.startByte, c.span.endByte) == DeriveByteOffsets(chunk, c.span.startChar, c.span.text)
  }

  lemma MaterializesExactly(raw: Correction, original: Candidate, chunk: Chunk, c: Candidate)
    ensures MaterializeCorrection(Some(raw), original, chunk).0 == Some(c) <==> AsksFor(raw, original, chunk, c) && ValidCandidate(c)
  {
    hide Encode, PrefixBytes, FilledNormalization, ValidNormalization, NonBlank;
    var text := raw.spanText.GetOr(original.span.text);
    if text == [] && MaterializeCorrection(Some(raw), original, chunk).0.Some? {
      assert false;
    }
  }

  lemma FailsStructurally(raw: Option<Correction>, original: Candidate, chunk: Chunk)
    ensures var (c, reasons) := MaterializeCorrection(raw, original, chunk);
      && (c.Some? <==> reasons == [])
      && (c.None? ==> ((forall reason :: reason in reasons ==> IsStructural(reason)) <==> raw.Some?))
  {
    hide Encode, PrefixBytes, ValidCandidate;
    var (c, reasons) := MaterializeCorrection(raw, original, chunk);
    assert c.None? ==> reasons[0] in reasons;
  }

  /** Nothing but a possible expansion of the span speaks against the correction. */
  predicate Sound(plan: Plan, chunk: Chunk, original: Candidate, c: Candidate, g: Grounding) {
    && SchemaApproves(plan, c.category, c.fieldName) && SpanMatchesChunk(c.span, chunk)
    && (g.isLabelField(c.fieldName) || g.supported(c))
    && (c.value == original.value || !g.dropsQualifier(original, c))
  }

  /** The new span lies inside the old one, in characters and in bytes. */
  predicate Inside(inner: SourceSpan, outer: SourceSpan) {
    outer.startChar <= inner.startChar && inner.endChar <= outer.endChar && outer.startByte <= inner.startByte && inner.endByte <= outer.endByte
  }

  predicate SameIdentity(a: Candidate, b: Candidate) {
    && a.candidateId == b.candidateId && a.runId == b.runId && a.docId == b.docId && a.chunkId == b.chunkId
    && a.lens == b.lens && a.executorCallId == b.executorCallId
  }

  /** Five lists of at most one element each. */
  lemma OnlyThird<T>(a: seq<T>, b: seq<T>, c: seq<T>, d: seq<T>, e: seq<T>)
    requires |a| <= 1 && |b| <= 1 && |c| <= 1 && |d| <= 1 && |e| <= 1
    ensures a + b + c + d + e == [] <==> a == [] && b == [] && c == [] && d == [] && e == []
    ensures |a + b + c + d + e| == 1 ==> (a + b + c + d + e)[0] in a + b + d + e || a + b + c + d + e == c
    ensures a == [] && b == [] && d == [] && e == [] ==> a + b + c + d + e == c
  {
  }

  /** The objections to a correction that keeps the identity. */
  lemma FiveObjections(plan: Plan, chunk: Chunk, original: Candidate, c: Candidate, g: Grounding)
    requires SameIdentity(c, original)
    ensures CorrectionRejectionReasons(plan, chunk, original, c, g) ==
      ReasonIf(!SchemaApproves(plan, c.category, c.fieldName), SchemaViolation, Text("slot not approved"))
      + ReasonIf(!SpanMatchesChunk(c.span, chunk), InventedSpan, Text("span does not match"))
      + ReasonIf(ExpandsSpan(original.span, c.span), SchemaViolation, CorrectionExpandsSpan)
      + ReasonIf(!g.isLabelField(c.fieldName) && !g.supported(c), InventedSpan, Text("value not grounded"))
      + ReasonIf(c.value != original.value && g.dropsQualifier(original, c), SchemaViolation, Text("qualifier dropped"))
  {
    hide SpanMatchesChunk, SchemaApproves, ExpandsSpan;
    var none: seq<RejectionReason> := [];
    assert none + none + none + none + none + none == none;
    var slot := ReasonIf(!SchemaApproves(plan, c.category, c.fieldName), SchemaViolation, Text("slot not approved"));
    assert none + slot == slot;
  }

  lemma ObjectionsExactly(plan: Plan, chunk: Chunk, original: Candidate, c: Candidate, g: Grounding)
    requires SameIdentity(c, original)
    ensures var reasons := CorrectionRejectionReasons(plan, chunk, original, c, g);
      && (reasons == [] <==> Sound(plan, chunk, original, c, g) && Inside(c.span, original.span))
      && (|reasons| == 1 && reasons[0].message == CorrectionExpandsSpan <==> Sound(plan, chunk, original, c, g) && !Inside(c.span, original.span))
  {
    hide SpanMatchesChunk, SchemaApproves, CorrectionRejectionReasons;
    FiveObjections(plan, chunk, original, c, g);
    OnlyThird(
      ReasonIf(!SchemaApproves(plan, c.category, c.fieldName), SchemaViolation, Text("slot not approved")),
      ReasonIf(!SpanMatchesChunk(c.span, chunk), InventedSpan, Text("span does not match")),
      ReasonIf(ExpandsSpan(original.span, c.span), SchemaViolation, CorrectionExpandsSpan),
      ReasonIf(!g.isLabelField(c.fieldName) && !g.supported(c), InventedSpan, Text("value not grounded")),
      ReasonIf(c.value != original.value && g.dropsQualifier(original, c), SchemaViolation, Text("qualifier dropped")));
  }

  lemma NotMaterialized(plan: Plan, chunk: Chunk, candidate: Candidate, verdict: Verdict, g: Grounding)
    requires verdict.decision == Correct && MaterializeCorrection(verdict.correction, candidate, chunk).0.None?
    ensures BuildReview(plan, chunk, candidate, verdict, g) == Review(verdict.correction.Some? && MechanicallyValid(plan, chunk, candidate, g), None)
  {
    hide MaterializeCorrection, MechanicallyValid, IsStructural;
    FailsStructurally(verdict.correction, candidate, chunk);
    var reasons := MaterializeCorrection(verdict.correction, candidate, chunk).1;
    assert reasons + [] == reasons;
  }

  lemma Materialized(plan: Plan, chunk: Chunk, candidate: Candidate, verdict: Verdict, g: Grounding, c: Candidate)
    requires verdict.decision == Correct && MaterializeCorrection(verdict.correction, candidate, chunk).0 == Some(c)
    requires SameIdentity(c, candidate)
    ensures BuildReview(plan, chunk, candidate, verdict, g) ==
      var sound, inside := Sound(plan, chunk, candidate, c, g), Inside(c.span, candidate.span);
      if MechanicallyValid(plan, chunk, candidate, g)
         && (c.category != candidate.category || c.fieldName != candidate.fieldName || (sound && !inside)) then Review(true, None)
      else Review(sound && inside, if sound && inside then Some(c) else None)
  {
    hide MaterializeCorrection, MechanicallyValid, CorrectionRejectionReasons, Sound, Inside;
    FailsStructurally(verdict.correction, candidate, chunk);
    var reasons := CorrectionRejectionReasons(plan, chunk, candidate, c, g);
    assert [] + reasons == reasons;
    ObjectionsExactly(plan, chunk, candidate, c, g);
  }

  /** A correction is applied exactly when it can be materialized as a valid candidate, that candidate is
      sound and no wider, and the slot changes only where the original was not mechanically valid. */
  lemma AppliedExactly(plan: Plan, chunk: Chunk, candidate: Candidate, verdict: Verdict, g: Grounding, c: Candidate)
    ensures BuildReview(plan, chunk, candidate, verdict, g).corrected == Some(c) <==>
      && verdict.decision == Correct && verdict.correction.Some? && AsksFor(verdict.correction.value, candidate, chunk, c) && ValidCandidate(c)
      && Sound(plan, chunk, candidate, c, g) && Inside(c.span, candidate.span)
      && ((SchemaApproves(plan, candidate.category, candidate.fieldName) && SpanMatchesChunk(candidate.span, chunk) && g.supported(candidate)) ==>
            c.category == candidate.category && c.fieldName == candidate.fieldName)
  {
    hide SpanMatchesChunk, SchemaApproves, ValidCandidate, AsksFor, Sound, Inside, BuildReview, MaterializeCorrection;
    var r := BuildReview(plan, chunk, candidate, verdict, g);
    if verdict.decision != Correct {
      Uncorrected(plan, chunk, candidate, verdict, g);
    } else {
      var m := MaterializeCorrection(verdict.correction, candidate, chunk).0;
      IsAskedFor(verdict.correction, candidate, chunk, c);
      if m.None? {
        NotMaterialized(plan, chunk, candidate, verdict, g);
      } else {
        IsAskedFor(verdict.correction, candidate, chunk, m.value);
        Materialized(plan, chunk, candidate, verdict, g, m.value);
      }
    }
  }

  lemma Uncorrected(plan: Plan, chunk: Chunk, candidate: Candidate, verdict: Verdict, g: Grounding)
    requires verdict.decision != Correct
    ensures BuildReview(plan, chunk, candidate, verdict, g)
      == Review(if verdict.decision == Accept then true else g.contradicts(plan, chunk, candidate, verdict), None)
  {
  }

  lemma IsAskedFor(raw: Option<Correction>, original: Candidate, chunk: Chunk, c: Candidate)
    ensures MaterializeCorrection(raw, original, chunk).0 == Some(c) <==>
      raw.Some? && AsksFor(raw.value, original, chunk, c) && ValidCandidate(c)
    ensures raw.Some? && AsksFor(raw.value, original, chunk, c) ==> SameIdentity(c, original)
  {
    hide DeriveByteOffsets, IsSliceOf, ValidCandidate;
    FailsStructurally(raw, original, chunk);
    if raw.Some? {
      assert raw == Some(raw.value);
      MaterializesExactly(raw.value, original, chunk, c);
    }
  }

  /** The candidate is passed on unchanged exactly when the verdict accepts it, when a rejection contradicts
      the checks, or when it is mechanically valid and the correction cannot be materialized, asks for
      another slot, or has no fault but a wider span. */
  lemma PassedOnExactly(plan: Plan, chunk: Chunk, candidate: Candidate, verdict: Verdict, g: Grounding)
    ensures BuildReview(plan, chunk, candidate, verdict, g) == Review(true, None) <==>
      match verdict.decision
      case Accept => true
      case Reject => g.contradicts(plan, chunk, candidate, verdict)
      case Correct =>
        && SchemaApproves(plan, candidate.category, candidate.fieldName) && SpanMatchesChunk(candidate.span, chunk) && g.supported(candidate)
        && verdict.correction.Some?
        && forall c :: AsksFor(verdict.correction.value, candidate, chunk, c) && ValidCandidate(c) ==>
             || c.category != candidate.category || c.fieldName != candidate.fieldName
             || (Sound(plan, chunk, candidate, c, g) && !Inside(c.span, candidate.span))
  {
    hide SpanMatchesChunk, SchemaApproves, ValidCandidate, AsksFor, Sound, Inside, BuildReview, MaterializeCorrection;
    if verdict.decision != Correct {
      Uncorrected(plan, chunk, candidate, verdict, g);
    } else {
      var m := MaterializeCorrection(verdict.correction, candidate, chunk).0;
      forall c ensures m == Some(c) <==> verdict.correction.Some? && AsksFor(verdict.correction.value, candidate, chunk, c) && ValidCandidate(c) {
        IsAskedFor(verdict.correction, candidate, chunk, c);
      }
      if m.None? {
        NotMaterialized(plan, chunk, candidate, verdict, g);
      } else {
        IsAskedFor(verdict.correction, candidate, chunk, m.value);
        Materialized(plan, chunk, candidate, verdict, g, m.value);
      }
    }
  }

  /** The critic may reject a mechanically valid candidate but never relabels it. */
  lemma NeverRelabels(plan: Plan, chunk: Chunk, candidate: Candidate, verdict: Verdict, g: Grounding)
    requires SchemaApproves(plan, candidate.category, candidate.fieldName) && SpanMatchesChunk(candidate.span, chunk) && g.supported(candidate)
    ensures var r := Reviewed(candidate, BuildReview(plan, chunk, candidate, verdict, g));
      r.category == candidate.category && r.fieldName == candidate.fieldName
  {
    hide SpanMatchesChunk, SchemaApproves, ValidCandidate, BuildReview, AsksFor, Sound, Inside;
    var r := BuildReview(plan, chunk, candidate, verdict, g);
    if r.corrected.Some? {
      AppliedExactly(plan, chunk, candidate, verdict, g, r.corrected.value);
    }
  }

  /** A rejected candidate never carries a correction. */
  lemma RejectedIsUncorrected(plan: Plan, chunk: Chunk, candidate: Candidate, verdict: Verdict, g: Grounding)
    ensures var r := BuildReview(plan, chunk, candidate, verdict, g); !r.accepted ==> r == Review(false, None) && verdict.decision != Accept
  {
    hide ShouldPreserveOriginal, CorrectionRejectionReasons, MaterializeCorrection;
  }

  /** After mirroring, a corrected primary and its copy agree in slot, value, confidence and place, and the
      copy keeps its own identity, lens, call and normalization record; without a correction it is untouched. */
  lemma CopyAgrees(primary: Candidate, review: Review, copy: Candidate)
    ensures var p, d := Reviewed(primary, review), Reviewed(copy, MirrorReview(review, copy));
      && MirrorReview(review, copy).accepted == review.accepted
      && SameIdentity(d, copy) && d.normalization == copy.normalization
      && (review.corrected.None? ==> d == copy)
      && (review.corrected.Some? ==>
            && d.category == p.category && d.fieldName == p.fieldName && d.value == p.value && d.confidence == p.confidence
            && d.span == p.span.(docId := copy.docId, chunkId := copy.chunkId))
  {
  }
}
