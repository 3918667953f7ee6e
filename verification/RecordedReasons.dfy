/** What the recorded rejections of a run say: whose they are, which stage gave them and why. */
module RecordedReasons {
  import opened Wrappers
  import opened Contracts
  import opened Sorting
  import opened VerifierPolicies
  import opened Dedup
  import opened DedupRecords
  import opened Reconciliation
  import opened ReconciliationReasons
  import opened PipelineSpec
  import opened DedupIdentities

  ghost predicate RefusedByExecutor(e: Environment, r: Rejection) {
    exists k :: 0 <= k < |e.outcomes| && r.candidateId == OutcomeCandidate(e, k).candidateId && r.reasons == e.outcomes[k].1
  }

  ghost predicate MergedAway(e: Environment, r: Rejection) {
    exists c, p :: Merged(e, c, p) && r.candidateId == c.candidateId
      && r.reasons == [RejectionReason(DuplicateCandidate, Text("merged_into:" + p.candidateId))]
  }

  ghost predicate RefusedByCritic(e: Environment, r: Rejection) {
    exists c :: c in Canonical(e) && !ReviewOf(e, c).accepted && r.candidateId == c.candidateId && HasCode(r.reasons, CriticRejected)
  }

  ghost predicate RefusedByVerifier(e: Environment, r: Rejection) {
    exists c :: c in CriticAccepted(e) && !VerifierReportOf(e, c).accepted && r.candidateId == c.candidateId
      && r.reasons == VerifierReportOf(e, c).reasons
  }

  /** Every rejection of a completed run has a reason and comes from its stage: the executor's are those of an
      outcome, dedup's name the primary, the critic's are of a canonical candidate that it refused, the
      verifier's are those of a refusing report, the reconciler's are of a verified candidate. */
  lemma EveryRejectionSaysWhy(e: Environment, r: Rejection)
    requires WellFormed(e) && r in RejectionsAt(e, 10)
    ensures r.reasons != []
    ensures match r.stage
      case ExecutorStage => RefusedByExecutor(e, r)
      case DedupStage => MergedAway(e, r)
      case CriticStage => RefusedByCritic(e, r)
      case VerifierStage => RefusedByVerifier(e, r)
      case ReconcilerStage => r.candidateId in Ids(VerifierAccepted(e))
  {
    hide WellFormed, ExecutorRejectionsUpTo, DedupRejections, CriticRejections, VerifierRejections, ReconcilerRejections, ExecutorAccepted,
      VerifierAccepted, RefusedByExecutor, MergedAway, RefusedByCritic, RefusedByVerifier;
    if r in ExecutorRejectionsUpTo(e, |e.outcomes|) {
      ExecutorSays(e, r);
    } else if r in DedupRejections(ExecutorAccepted(e), e.normalize) {
      DedupSays(e, r);
    } else if r in CriticRejections(e) {
      CriticSays(e, r);
    } else if r in VerifierRejections(e) {
      VerifierSays(e, r);
    } else {
      assert r in ReconcilerRejections(e);
      ReconcilerSays(e, r);
    }
  }

  lemma ExecutorSays(e: Environment, r: Rejection)
    requires r in ExecutorRejectionsUpTo(e, |e.outcomes|)
    ensures RefusedByExecutor(e, r) && r.stage == ExecutorStage && r.reasons != []
  {
  }

  lemma DedupSays(e: Environment, r: Rejection)
    requires r in DedupRejections(ExecutorAccepted(e), e.normalize)
    ensures MergedAway(e, r) && r.stage == DedupStage && r.reasons != []
  {
    hide ExecutorAccepted, DedupRejections, MergedInto;
    RejectionsSay(ExecutorAccepted(e), e.normalize, r);
  }

  lemma CriticSays(e: Environment, r: Rejection)
    requires r in CriticRejections(e)
    ensures RefusedByCritic(e, r) && r.stage == CriticStage && r.reasons != []
  {
    hide Canonical, ReviewOf;
    var c :| c in Canonical(e) && !ReviewOf(e, c).accepted && r == CriticRejection(c);
    assert r.reasons[0].code == CriticRejected;
  }

  lemma VerifierSays(e: Environment, r: Rejection)
    requires r in VerifierRejections(e)
    ensures RefusedByVerifier(e, r) && r.stage == VerifierStage && r.reasons != []
  {
    hide CriticAccepted, BuildVerifierReport;
    var c :| c in CriticAccepted(e) && !VerifierReportOf(e, c).accepted && r == VerifierRejection(e, c);
    if c.chunkId in e.chunks {
      ScoreFollowsAcceptance(e.plan, e.chunks[c.chunkId], c, e.verifierVerdict(c), e.grounding);
    }
  }

  lemma ReconcilerSays(e: Environment, r: Rejection)
    requires r in ReconcilerRejections(e)
    ensures r.candidateId in Ids(VerifierAccepted(e)) && r.stage == ReconcilerStage && r.reasons != []
  {
    hide VerifierAccepted, RejectionFor, VerifierReportOf, WithId;
    var x, b := ContextOf(e, VerifierAccepted(e)), e.reply(VerifierAccepted(e));
    var id :| id in x.byId && RejectionFor(x, b, id).Some? && r == Rejection(id, ReconcilerStage, RejectionFor(x, b, id).value);
    ReasonsAreGiven(x, b, id);
  }

  lemma ReasonsAreGiven(x: Context, b: Batch, id: string)
    requires GroupsOk(x, b.groups) && RejectionFor(x, b, id).Some?
    ensures RejectionFor(x, b, id).value != []
  {
    hide Refusal, RejectedWith, Named;
    RefusalIsGiven(x, b.groups, id);
  }

  lemma {:induction false} RefusalIsGiven(x: Context, groups: seq<Group>, id: string)
    requires GroupsOk(x, groups)
    ensures Refusal(x, groups, id).Some? ==> Refusal(x, groups, id).value != []
  {
    hide ValidGroup, GroupKnown, GroupReasons;
    if groups != [] {
      RefusalIsGiven(x, groups[..|groups| - 1], id);
    }
  }
}
