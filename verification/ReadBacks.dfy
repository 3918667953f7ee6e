/** The records that a run stores pass the validators that run when they are read back, except where a
    mirrored critic report does not. */
module ReadBacks {
  import opened Wrappers
  import opened Contracts
  import opened Sorting
  import opened CandidateBuilding
  import opened CriticCorrections
  import opened VerifierPolicies
  import opened Dedup
  import opened DedupRecords
  import opened Reconciliation
  import opened AuditStores
  import opened PipelineSpec

  lemma ExecutedHold(e: Environment)
    requires WellFormed(e)
    ensures forall c :: c in Executed(e) ==> ExecutorBuilt(c)
  {
    hide ExecutorBuilt, OfPlan, FitForReview, ValidBatch, ViewIdsDiffer, EvidenceHolds;
  }

  predicate AllRejectionsHold(rejections: set<Rejection>) {
    forall r :: r in rejections ==> RejectionHolds(r)
  }

  lemma {:induction false} RefusalsHaveReasons(x: Context, groups: seq<Group>, id: string)
    requires GroupsOk(x, groups)
    ensures Refusal(x, groups, id).Some? ==> Refusal(x, groups, id).value != []
  {
    hide ValidGroup, GroupKnown, GroupReasons;
    if groups != [] {
      RefusalsHaveReasons(x, groups[..|groups| - 1], id);
    }
  }

  lemma ReconcilerRejectionsHold(x: Context, b: Batch)
    requires GroupsOk(x, b.groups)
    ensures AllRejectionsHold(RejectionsOf(x, b))
  {
    hide GroupsOk, Refusal, RejectedWith;
    forall id ensures Refusal(x, b.groups, id).Some? ==> Refusal(x, b.groups, id).value != [] {
      RefusalsHaveReasons(x, b.groups, id);
    }
  }

  lemma VerifierRejectionsHold(e: Environment)
    ensures AllRejectionsHold(VerifierRejections(e)) && forall r :: r in VerifierReports(e) ==> VerifierReportHolds(r)
  {
    hide CriticAccepted, SurvivingObjection, DeterministicReasons, Distinct;
  }

  /** At every boundary, with any part of dedup's, the stored rejections name their reasons. */
  lemma RejectionsHold(e: Environment, k: nat, part: set<Rejection>)
    requires DedupPart(e, k, part)
    ensures AllRejectionsHold(RejectionsAt(e, k) + part)
  {
    hide ExecutorAccepted, VerifierRejections, Canonical, ReviewOf, MergedInto, RejectionsOf, GroupsOk, ContextOf, VerifierAccepted;
    VerifierRejectionsHold(e);
    var x, b := ContextOf(e, VerifierAccepted(e)), e.reply(VerifierAccepted(e));
    if GroupsOk(x, b.groups) {
      ReconcilerRejectionsHold(x, b);
    }
    assert AllRejectionsHold(ReconcilerRejections(e));
    assert AllRejectionsHold(ExecutorRejectionsUpTo(e, |e.outcomes|));
    assert AllRejectionsHold(DedupRejections(ExecutorAccepted(e), e.normalize));
    assert AllRejectionsHold(CriticRejections(e));
  }
}
