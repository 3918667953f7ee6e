/** executor/dedup.py: which candidates count as the same, read off their fields, and what therefore
    stays equal when a candidate is merged. */
module DedupIdentities {
  import opened Wrappers
  import opened Contracts
  import opened CandidateBuilding
  import opened CriticCorrections
  import opened Dedup
  import opened DedupRecords
  import opened AuditStores
  import opened PipelineSpec
  import opened PipelineFacts
  import Rules = CorrectionRules

  /** The same field of the same lens and document. */
  predicate SameSlotOf(a: Candidate, b: Candidate) {
    a.docId == b.docId && a.lens == b.lens && a.category == b.category && a.fieldName == b.fieldName
  }

  /** The same range of the document, with the same text; the chunks may differ. */
  predicate SamePlace(a: SourceSpan, b: SourceSpan) {
    && a.startChar == b.startChar && a.endChar == b.endChar && a.startByte == b.startByte && a.endByte == b.endByte
    && a.docId == b.docId && a.text == b.text
  }

  /** Candidates whose normalization record is valid are the same exactly when slot, kind and policy agree,
      their own values agree once normalized, and, unless both are canonicalized, so do their places. */
  lemma ValidIdentityExactly(a: Candidate, b: Candidate, normalize: string -> string)
    requires ValidNormalization(a.value, a.normalization) && ValidNormalization(b.value, b.normalization)
    ensures SameIdentity(a, b, normalize) <==>
      && SameSlotOf(a, b) && normalize(a.value) == normalize(b.value)
      && a.normalization.kind == b.normalization.kind
      && a.normalization.policyId == b.normalization.policyId && a.normalization.policyVersion == b.normalization.policyVersion
      && (a.normalization.status == Canonicalized <==> b.normalization.status == Canonicalized)
      && (a.normalization.status == VerbatimOnly <==> b.normalization.status == VerbatimOnly)
      && (a.normalization.status != Canonicalized ==> SamePlace(a.span, b.span))
  {
  }

  /** For candidates of the executor: two verbatim ones are the same at one place only, two others wherever
      they are, and one of each kind never. */
  lemma BuiltIdentityExactly(a: Candidate, b: Candidate, normalize: string -> string)
    requires ExecutorBuilt(a) && ExecutorBuilt(b)
    ensures SameIdentity(a, b, normalize) <==>
      && SameSlotOf(a, b) && normalize(a.value) == normalize(b.value)
      && (a.value == a.span.text <==> b.value == b.span.text)
      && (a.value == a.span.text ==> SamePlace(a.span, b.span))
  {
    hide NonBlank, ValidSpan, FilledNormalization, SameIdentity;
    ValidIdentityExactly(a, b, normalize);
  }

  /** So a merged candidate shares slot and normalized value with its primary, and a verbatim one its place. */
  lemma MergedIsSame(e: Environment, c: Candidate, p: Candidate)
    requires WellFormed(e) && Merged(e, c, p)
    ensures SameSlotOf(c, p) && e.normalize(c.value) == e.normalize(p.value) && (c.value == c.span.text ==> SamePlace(c.span, p.span))
  {
    hide Identity, ExecutorAccepted, ExecutorBuilt, WellFormed;
    MergedAreInput(e, c, p);
    AcceptedIsBuilt(e, c);
    AcceptedIsBuilt(e, p);
    SameAsPrimary(e, c, p);
    BuiltIdentityExactly(c, p, e.normalize);
  }

  lemma SameAsPrimary(e: Environment, c: Candidate, p: Candidate)
    requires Merged(e, c, p)
    ensures SameIdentity(c, p, e.normalize)
  {
    hide Identity;
  }

  lemma AcceptedIsBuilt(e: Environment, c: Candidate)
    requires WellFormed(e) && c in ExecutorAccepted(e)
    ensures ExecutorBuilt(c) && FitForReview(e, c)
  {
    hide ExecutorBuilt, FitForReview, OfPlan, ViewIdsDiffer, EvidenceHolds;
    var k :| 0 <= k < |e.outcomes| && e.outcomes[k].1 == [] && OutcomeCandidate(e, k) == c;
  }

  /** Whatever the verdicts, the critic passes an accepted candidate on in its own slot, when the value of
      the canonical candidate that was reviewed for it is supported by its span. */
  lemma CriticKeepsSlot(e: Environment, c: Candidate, r: CriticReport, p: Candidate)
    requires WellFormed(e) && Reported(e, c, r)
    requires (p == c && r == CanonicalReport(e, c) && c in Canonical(e)) || (Merged(e, c, p) && r == MirroredReport(e, c, p))
    requires e.grounding.supported(p)
    ensures Reviewed(c, r.review).category == c.category && Reviewed(c, r.review).fieldName == c.fieldName
  {
    hide WellFormed, ExecutorAccepted, Canonical, ReviewOf, SpanMatchesChunk, SchemaApproves, ExecutorBuilt, Merged, Reported, BuildReview;
    if Merged(e, c, p) {
      MergedAreInput(e, c, p);
      AcceptedIsBuilt(e, p);
      MergedIsSame(e, c, p);
    } else {
      CanonicalAreAccepted(e, c);
      AcceptedIsBuilt(e, p);
    }
    ReviewKeepsSlot(e, p);
    Rules.CopyAgrees(p, ReviewOf(e, p), c);
  }

  lemma ReviewKeepsSlot(e: Environment, p: Candidate)
    requires FitForReview(e, p) && e.grounding.supported(p)
    ensures var r := Reviewed(p, ReviewOf(e, p)); r.category == p.category && r.fieldName == p.fieldName
  {
    hide SpanMatchesChunk, SchemaApproves, BuildReview;
    Rules.NeverRelabels(e.plan, e.chunks[p.chunkId], p, e.criticVerdict(p), e.grounding);
  }

  /** What dedup records: for each merged candidate one rejection as a duplicate that names its primary. */
  lemma RejectionsSay(all: set<Candidate>, normalize: string -> string, r: Rejection)
    ensures r in DedupRejections(all, normalize) <==>
      exists c, p :: MergedInto(all, c, p, normalize) && r.candidateId == c.candidateId && r.stage == DedupStage
        && r.reasons == [RejectionReason(DuplicateCandidate, Text("merged_into:" + p.candidateId))]
  {
    hide SameIdentity, IdLess;
    forall c, p | MergedInto(all, c, p, normalize) ensures c in all && p in all {}
  }
}
