/** Under which conditions on candidates and replies a run completes, and under which an interrupted and
    resumed run does what an uninterrupted one does. */
module RunConditions {
  import opened Wrappers
  import opened Utf8
  import opened Contracts
  import opened Sorting
  import opened CandidateBuilding
  import opened CandidateViews
  import opened CriticCorrections
  import opened VerifierPolicies
  import opened Dedup
  import opened Reconciliation
  import opened ReconciliationAccounting
  import opened AuditStores
  import opened PipelineSpec
  import opened PipelineFacts
  import opened ReadBacks
  import opened CriticReviews
  import opened CriticReplays
  import opened ReconcilerSteps
  import opened Orchestrator

  /** Where the critic corrects a primary, the candidates merged into it have its value. */
  ghost predicate MirrorsAgree(e: Environment) {
    forall c, p :: Merged(e, c, p) && ReviewOf(e, p).corrected.Some? ==> c.value == p.value
  }

  /** No applied correction narrows its candidate to white space. */
  ghost predicate CorrectionsShow(e: Environment) {
    forall p :: p in Canonical(e) && ReviewOf(e, p).corrected.Some? ==> NonBlank(ReviewOf(e, p).corrected.value.span.text)
  }

  lemma AcceptedAreBuilt(e: Environment, c: Candidate)
    requires WellFormed(e) && c in ExecutorAccepted(e)
    ensures ExecutorBuilt(c) && OfPlan(e, c) && c.chunkId in e.chunks
  {
    hide ExecutorBuilt, FitForReview, ValidBatch, ViewIdsDiffer, EvidenceHolds;
  }

  /** A correction is a valid candidate of the same identity. */
  lemma ReviewIsValid(e: Environment, p: Candidate)
    requires WellFormed(e) && p in ExecutorAccepted(e)
    ensures var r := ReviewOf(e, p); r.corrected.Some? ==> ValidCandidate(r.corrected.value) && r.corrected.value.candidateId == p.candidateId && r.accepted
  {
    hide WellFormed, ExecutorAccepted, ExecutorBuilt, BuildReview, ValidCandidate;
    AcceptedAreBuilt(e, p);
    MirrorIsValidExactly(e.plan, e.chunks[p.chunkId], p, e.criticVerdict(p), e.grounding, p);
    ReviewKeepsOrigin(e, p);
  }

  lemma MirrorIsValid(e: Environment, c: Candidate, p: Candidate)
    requires WellFormed(e) && Merged(e, c, p)
    ensures CriticReportHolds(MirroredReport(e, c, p)) <==> (ReviewOf(e, p).corrected.Some? ==> c.value == p.value)
  {
    hide WellFormed, ExecutorAccepted, ExecutorBuilt, BuildReview, ValidCandidate, MergedInto;
    MergedAreInput(e, c, p);
    AcceptedAreBuilt(e, p);
    AcceptedAreBuilt(e, c);
    MirrorIsValidExactly(e.plan, e.chunks[p.chunkId], p, e.criticVerdict(p), e.grounding, c);
  }

  /** The critic's reports can be read back exactly when the mirrored corrections agree. */
  lemma MirrorsHoldExactly(e: Environment)
    requires WellFormed(e)
    ensures MirrorsHold(e) <==> MirrorsAgree(e)
  {
    hide WellFormed, ExecutorAccepted, Canonical, Merged, ReviewOf, MirroredReport, CriticReportHolds;
    forall r | r in CanonicalReports(e) ensures CriticReportHolds(r) {
      var p :| p in Canonical(e) && r == CanonicalReport(e, p);
      CanonicalReportHolds(e, p);
    }
    forall c, p | Merged(e, c, p)
      ensures MirroredReport(e, c, p) in CriticReports(e)
      ensures CriticReportHolds(MirroredReport(e, c, p)) <==> (ReviewOf(e, p).corrected.Some? ==> c.value == p.value)
    {
      MergedAreInput(e, c, p);
      MirrorIsValid(e, c, p);
    }
  }

  lemma CanonicalReportHolds(e: Environment, p: Candidate)
    requires WellFormed(e) && p in Canonical(e)
    ensures CriticReportHolds(CanonicalReport(e, p))
  {
    hide WellFormed, ExecutorAccepted, Canonical, ReviewOf, ValidCandidate;
    CanonicalAreAccepted(e, p);
    ReviewIsValid(e, p);
  }

  /** The primary behind a critic-accepted candidate: the candidate itself or what it was merged into. */
  lemma PrimaryOf(e: Environment, x: Candidate) returns (c: Candidate, p: Candidate)
    requires WellFormed(e) && x in CriticAccepted(e)
    ensures c in ExecutorAccepted(e) && p in Canonical(e) && p in ExecutorAccepted(e) && x.candidateId == c.candidateId
    ensures (p == c && x == Reviewed(c, ReviewOf(e, c))) || (Merged(e, c, p) && x == Reviewed(c, MirrorReview(ReviewOf(e, p), c)))
  {
    hide WellFormed, ExecutorAccepted, Canonical, ReviewOf, MirrorReview, Reviewed, Merged, CriticAccepted;
    var r;
    c, r := OriginOf(e, x);
    ReportedIsAccepted(e, c, r);
    p := c;
    if !(c in Canonical(e) && r == CanonicalReport(e, c)) {
      p :| Merged(e, c, p) && r == MirroredReport(e, c, p);
      MergedAreInput(e, c, p);
    }
  }

  /** Every candidate that the critic lets through can be shown to the verifier's model exactly when no
      applied correction is blank. */
  lemma ViewsHoldExactly(e: Environment)
    requires WellFormed(e)
    ensures ViewsHold(e) <==> CorrectionsShow(e)
  {
    hide WellFormed, ExecutorAccepted, Canonical, ReviewOf, CriticAccepted, ViewHolds, NonBlank, Merged;
    if ViewsHold(e) {
      forall p | p in Canonical(e) && ReviewOf(e, p).corrected.Some? ensures NonBlank(ReviewOf(e, p).corrected.value.span.text) {
        CanonicalIsShown(e, p);
      }
    }
    if CorrectionsShow(e) {
      forall x | x in CriticAccepted(e) ensures ViewHolds(x) {
        var c, p := PrimaryOf(e, x);
        AcceptedAreBuilt(e, c);
        ReviewIsValid(e, p);
        ShownByPrimary(c, ReviewOf(e, p));
      }
    }
  }

  lemma CanonicalIsShown(e: Environment, p: Candidate)
    requires WellFormed(e) && ViewsHold(e) && p in Canonical(e) && ReviewOf(e, p).corrected.Some?
    ensures NonBlank(ReviewOf(e, p).corrected.value.span.text)
  {
    hide WellFormed, ExecutorAccepted, Canonical, ReviewOf, CriticAccepted, NonBlank, ValidCandidate;
    CanonicalAreAccepted(e, p);
    ReviewIsValid(e, p);
    CanonicalIsReported(e, p);
    AcceptedBecause(e, p, CanonicalReport(e, p));
    assert ViewHolds(ReviewOf(e, p).corrected.value);
  }

  lemma ShownByPrimary(c: Candidate, r: Review)
    requires ExecutorBuilt(c) && (r.corrected.Some? ==> ValidCandidate(r.corrected.value) && NonBlank(r.corrected.value.span.text))
    ensures ViewHolds(Reviewed(c, r)) && ViewHolds(Reviewed(c, MirrorReview(r, c)))
  {
    hide NonBlank, NormalizationMetadata, ValidSpan;
    ExecutorBuiltPins(c);
  }

  // Data points

  /** The candidate of the id is not a copy that took over another value. */
  ghost predicate SourceAgrees(e: Environment, id: string) {
    forall c, p :: Merged(e, c, p) && c.candidateId == id && ReviewOf(e, p).corrected.Some? ==> c.value == p.value
  }

  /** What the critic lets through is a valid candidate exactly when it is not such a copy. */
  lemma AcceptedIsValidExactly(e: Environment, x: Candidate)
    requires WellFormed(e) && x in CriticAccepted(e)
    ensures ValidCandidate(x) <==> SourceAgrees(e, x.candidateId)
  {
    hide WellFormed, ExecutorAccepted, Canonical, ReviewOf, CriticAccepted, ValidCandidate, Merged, DistinctIds, ExecutorBuilt;
    var c, p := PrimaryOf(e, x);
    AcceptedAreBuilt(e, c);
    BuiltIsValid(c);
    ReviewIsValid(e, p);
    ExecutedIdsDiffer(e);
    forall d, q | Merged(e, d, q) && d.candidateId == x.candidateId ensures d == c && Merged(e, c, p) && q == p {
      MergedAreInput(e, d, q);
      SameCandidate(ExecutorAccepted(e), c, d);
      if !Merged(e, c, p) {
        CanonicalIsNotMerged(e, c, q);
      }
      OnePrimary(e, c, p, q);
    }
    if Merged(e, c, p) {
      MirrorIsValid(e, c, p);
      CopyIsValid(e, c, p);
    }
  }

  lemma SameCandidate(all: set<Candidate>, c: Candidate, d: Candidate)
    requires DistinctIds(all) && c in all && d in all && c.candidateId == d.candidateId
    ensures c == d
  {
  }

  lemma BuiltIsValid(c: Candidate)
    requires ExecutorBuilt(c)
    ensures ValidCandidate(c)
  {
    hide ValidCandidate;
  }

  lemma CopyIsValid(e: Environment, c: Candidate, p: Candidate)
    requires WellFormed(e) && Merged(e, c, p)
    ensures var r := MirrorReview(ReviewOf(e, p), c);
      r.corrected.Some? ==> (CriticReportHolds(MirroredReport(e, c, p)) <==> ValidCandidate(Reviewed(c, r)))
    ensures MirrorReview(ReviewOf(e, p), c).corrected.Some? <==> ReviewOf(e, p).corrected.Some?
  {
    hide WellFormed, ReviewOf, ValidCandidate, Merged;
  }

  /** The data point of a group passes its validator exactly when the group's best source is valid. */
  lemma PointHoldsExactly(e: Environment, x: Context, g: Group)
    requires WellFormed(e) && ValidContext(x) && ValidGroup(g) && GroupKnown(x, g)
    requires x.plan == e.plan && x.byId[BestSource(x, g)] in CriticAccepted(e)
    ensures PointHolds(PointOf(x, g)) <==> SourceAgrees(e, BestSource(x, g))
  {
    hide WellFormed, ExecutorAccepted, Canonical, CriticAccepted, NonBlank, ValidNormalization, FilledNormalization, BestSource, LeastConfidence, Spans,
      SourceAgrees, ReviewOf, MirrorReview, Merged, ExecutorBuilt;
    var source := x.byId[BestSource(x, g)];
    AcceptedIsValidExactly(e, source);
    AcceptedSpanIsValid(e, source);
  }

  /** Its span is valid and of its chunk and document, and its confidence in range, in any case. */
  lemma AcceptedSpanIsValid(e: Environment, x: Candidate)
    requires WellFormed(e) && x in CriticAccepted(e)
    ensures x.docId == e.plan.docId && x.span.docId == x.docId && x.span.chunkId == x.chunkId && ValidSpan(x.span)
    ensures 0.0 <= x.confidence <= 1.0
  {
    hide WellFormed, ExecutorAccepted, Canonical, ReviewOf, CriticAccepted, NonBlank, ValidNormalization, FilledNormalization, Encode, Merged,
      NormalizationMetadata;
    var c, p := PrimaryOf(e, x);
    AcceptedAreBuilt(e, c);
    ReviewIsValid(e, p);
    ReviewKeepsOrigin(e, p);
  }

  /** Group `k` is kept and its data point does not hold. */
  predicate MakesInvalidPoint(x: Context, groups: seq<Group>, k: nat)
    requires ValidContext(x) && GroupsOk(x, groups) && k < |groups|
  {
    assert groups[k] in groups;
    Kept(x, Named(groups[..k]), groups[k]) && !PointHolds(PointOf(x, groups[k]))
  }

  lemma {:induction false} PointsHoldByGroup(x: Context, groups: seq<Group>)
    requires ValidContext(x) && GroupsOk(x, groups)
    ensures AllPointsHold(KeptPoints(x, groups)) <==> forall k :: 0 <= k < |groups| ==> !MakesInvalidPoint(x, groups, k)
  {
    hide ValidContext, ValidGroup, GroupKnown, PointHolds, Kept, PointOf, Named;
    if groups != [] {
      var front, last := groups[..|groups| - 1], groups[|groups| - 1];
      PointsHoldByGroup(x, front);
      assert last in groups;
      forall k | 0 <= k < |front| ensures MakesInvalidPoint(x, front, k) == MakesInvalidPoint(x, groups, k) {
        assert front[..k] == groups[..k];
      }
      assert MakesInvalidPoint(x, groups, |front|) == (Kept(x, Named(front), last) && !PointHolds(PointOf(x, last)));
      AllButLast(x, front, last);
    }
  }

  lemma AllButLast(x: Context, front: seq<Group>, last: Group)
    requires ValidContext(x) && GroupsOk(x, front + [last])
    ensures GroupsOk(x, front) && ValidGroup(last) && GroupKnown(x, last)
    ensures AllPointsHold(KeptPoints(x, front + [last]))
      <==> AllPointsHold(KeptPoints(x, front)) && (Kept(x, Named(front), last) ==> PointHolds(PointOf(x, last)))
  {
    hide ValidContext, ValidGroup, GroupKnown, PointHolds, Kept, PointOf, Named;
    assert last in front + [last] && forall g :: g in front ==> g in front + [last];
    assert (front + [last])[..|front|] == front;
  }

  /** No kept group takes its data point from a copy that took over another value. */
  ghost predicate SourcesAgree(e: Environment, x: Context, groups: seq<Group>)
    requires GroupsOk(x, groups)
  {
    forall k :: 0 <= k < |groups| ==> GroupAgrees(e, x, groups, k)
  }

  ghost predicate GroupAgrees(e: Environment, x: Context, groups: seq<Group>, k: nat)
    requires GroupsOk(x, groups) && k < |groups|
  {
    assert groups[k] in groups;
    Kept(x, Named(groups[..k]), groups[k]) ==> SourceAgrees(e, BestSource(x, groups[k]))
  }

  lemma PointsHoldExactly(e: Environment, x: Context, groups: seq<Group>)
    requires WellFormed(e) && ValidContext(x) && GroupsOk(x, groups) && x.plan == e.plan
    requires forall id :: id in x.byId ==> x.byId[id] in CriticAccepted(e)
    ensures AllPointsHold(KeptPoints(x, groups)) <==> SourcesAgree(e, x, groups)
  {
    hide WellFormed, ValidContext, ValidGroup, GroupKnown, PointHolds, Kept, PointOf, Named, CriticAccepted, SourceAgrees, KeptPoints, BestSource;
    PointsHoldByGroup(x, groups);
    forall k | 0 <= k < |groups| ensures MakesInvalidPoint(x, groups, k) <==> !GroupAgrees(e, x, groups, k) {
      assert groups[k] in groups;
      PointHoldsExactly(e, x, groups[k]);
    }
  }

  // Runs

  /** The reply names verified candidates only. */
  ghost predicate ReplyKnown(e: Environment) {
    VerifierAccepted(e) == {} || BatchKnown(ContextOf(e, VerifierAccepted(e)), e.reply(VerifierAccepted(e)))
  }

  /** No kept group of the reply takes its data point from a copy that took over another value. */
  ghost predicate ReplyAgrees(e: Environment) {
    var x, b := ContextOf(e, VerifierAccepted(e)), e.reply(VerifierAccepted(e));
    VerifierAccepted(e) == {} || (GroupsOk(x, b.groups) && SourcesAgree(e, x, b.groups))
  }

  lemma VerifiedContext(e: Environment)
    ensures var x := ContextOf(e, VerifierAccepted(e)); x.plan == e.plan && ValidContext(x) && forall id :: id in x.byId ==> x.byId[id] in CriticAccepted(e)
  {
    hide CriticAccepted, VerifierReportOf, WithId;
    var cs := VerifierAccepted(e);
    forall id | id in Ids(cs) ensures WithId(cs, id) in cs && WithId(cs, id).candidateId == id {
      ChosenById(cs, id);
    }
  }

  /** The reconciler raises nothing exactly when the reply is known and agrees. */
  lemma ReconcilableExactly(e: Environment)
    requires WellFormed(e)
    ensures Reconcilable(e) <==> ReplyKnown(e) && ReplyAgrees(e)
  {
    hide WellFormed, VerifierAccepted, CriticAccepted, ContextOf, ValidContext, KeptPoints, BatchKnown, SourcesAgree, GroupsOk, ValidBatch;
    var x, b := ContextOf(e, VerifierAccepted(e)), e.reply(VerifierAccepted(e));
    RepliesAreValid(e);
    VerifiedContext(e);
    if VerifierAccepted(e) != {} && BatchKnown(x, b) {
      RepliesAreKnown(x, b);
      PointsHoldExactly(e, x, b.groups);
    }
  }

  lemma AgreeingRepliesHold(e: Environment)
    requires WellFormed(e) && MirrorsAgree(e) && ReplyKnown(e)
    ensures ReplyAgrees(e)
  {
    hide WellFormed, VerifierAccepted, CriticAccepted, ContextOf, ValidContext, KeptPoints, BatchKnown, GroupsOk, ValidBatch, Kept, Named, BestSource,
      Merged, ReviewOf;
    var x, b := ContextOf(e, VerifierAccepted(e)), e.reply(VerifierAccepted(e));
    RepliesAreValid(e);
    if VerifierAccepted(e) != {} {
      RepliesAreKnown(x, b);
    }
  }

  /** An uninterrupted run completes exactly when every accepted candidate has an identity, no applied
      correction is blank, and the reply is known and agrees. */
  lemma CompletesExactly(e: Environment)
    requires WellFormed(e)
    ensures ResumedOutcome(e, []) == Completed(FinalReport(e))
      <==> IdentitiesHold(e) && CorrectionsShow(e) && ReplyKnown(e) && ReplyAgrees(e)
  {
    hide WellFormed, IdentitiesHold, CorrectionsShow, ReplyKnown, ReplyAgrees, Reconcilable, ViewsHold, MirrorsHold, FinalReport;
    ViewsHoldExactly(e);
    ReconcilableExactly(e);
  }

  /** Interruptions make no difference exactly when mirrored corrections agree, or when the run fails
      without them. */
  lemma ResumingIsHarmlessExactly(e: Environment)
    requires WellFormed(e)
    ensures (forall stops :: ResumedOutcome(e, stops) == ResumedOutcome(e, []))
      <==> MirrorsAgree(e) || ResumedOutcome(e, []) == Failed
  {
    hide WellFormed, LastBoundary, MirrorsHold, MirrorsAgree, FinalReport;
    MirrorsHoldExactly(e);
    StopAfterCritic();
    assert BeforeCritic([]);
    var harmless := forall stops :: ResumedOutcome(e, stops) == ResumedOutcome(e, []);
    if harmless {
      assert ResumedOutcome(e, [AtBoundary(5)]) == ResumedOutcome(e, []);
    }
  }

  lemma StopAfterCritic()
    ensures !BeforeCritic([AtBoundary(5)])
  {
    assert BoundaryOf([AtBoundary(5)][0]) == 5;
  }

  /** However often it is interrupted and resumed, a run completes with the same report exactly when every
      accepted candidate has an identity, no applied correction is blank, candidates merged into a
      corrected one have its value, and the reply names verified candidates only. */
  lemma AlwaysCompletesExactly(e: Environment)
    requires WellFormed(e)
    ensures (forall stops :: ResumedOutcome(e, stops) == Completed(FinalReport(e)))
      <==> IdentitiesHold(e) && CorrectionsShow(e) && MirrorsAgree(e) && ReplyKnown(e)
  {
    hide WellFormed, IdentitiesHold, CorrectionsShow, ReplyKnown, ReplyAgrees, MirrorsAgree, ResumedOutcome, FinalReport;
    CompletesExactly(e);
    ResumingIsHarmlessExactly(e);
    if MirrorsAgree(e) && ReplyKnown(e) {
      AgreeingRepliesHold(e);
    }
    var always := forall stops :: ResumedOutcome(e, stops) == Completed(FinalReport(e));
    if always {
      assert ResumedOutcome(e, []) == Completed(FinalReport(e));
      assert forall stops :: ResumedOutcome(e, stops) == ResumedOutcome(e, []);
    }
  }
}
