/** The executor step of the orchestrator: run it, or read it back. */
module ExecutorSteps {
  import opened Wrappers
  import opened Contracts
  import opened Sorting
  import opened CriticCorrections
  import opened VerifierPolicies
  import opened Dedup
  import opened DedupRecords
  import opened Reconciliation
  import opened AuditStores
  import opened PipelineSpec
  import opened ReadBacks
  import opened Replays

  function Max(a: nat, b: nat): nat {
    if a >= b then a else b
  }

  predicate AllOfStage(rejections: set<Rejection>, stage: Stage) {
    forall r :: r in rejections ==> r.stage == stage
  }

  /** Each stage's rejections carry its name. */
  lemma RejectionStages(e: Environment)
    ensures AllOfStage(ExecutorRejectionsUpTo(e, |e.outcomes|), ExecutorStage)
    ensures AllOfStage(DedupRejections(ExecutorAccepted(e), e.normalize), DedupStage)
    ensures AllOfStage(CriticRejections(e), CriticStage) && AllOfStage(VerifierRejections(e), VerifierStage)
    ensures AllOfStage(ReconcilerRejections(e), ReconcilerStage)
  {
    hide MergedInto, ReviewOf, VerifierReportOf, RejectionFor, Canonical, CriticAccepted, ExecutorAccepted, VerifierAccepted, GroupsOk, ContextOf;
  }

  lemma IdsOfUnion(a: set<Rejection>, b: set<Rejection>, stage: Stage)
    ensures RejectedIds(a + b, stage) == RejectedIds(a, stage) + RejectedIds(b, stage)
  {
  }

  /** The ids that a stage has rejected by boundary `k`. */
  lemma RejectedIdsAt(e: Environment, k: nat)
    ensures RejectedIds(RejectionsAt(e, k), ExecutorStage) == If(k >= 1, RejectedIds(ExecutorRejectionsUpTo(e, |e.outcomes|), ExecutorStage))
    ensures RejectedIds(RejectionsAt(e, k), CriticStage) == If(k >= 5, RejectedIds(CriticRejections(e), CriticStage))
    ensures RejectedIds(RejectionsAt(e, k), VerifierStage) == If(k >= 7, RejectedIds(VerifierRejections(e), VerifierStage))
    ensures RejectedIds(RejectionsAt(e, k), ReconcilerStage) == If(k >= 9, RejectedIds(ReconcilerRejections(e), ReconcilerStage))
  {
    hide ExecutorRejectionsUpTo, DedupRejections, CriticRejections, VerifierRejections, ReconcilerRejections, ExecutorAccepted;
    RejectionStages(e);
  }

  lemma ExecutorRejectedIds(e: Environment)
    ensures RejectedIds(ExecutorRejectionsUpTo(e, |e.outcomes|), ExecutorStage) == Ids(ExecutorRejected(e))
  {
    forall k | 0 <= k < |e.outcomes| && e.outcomes[k].1 != []
      ensures OutcomeCandidate(e, k).candidateId in RejectedIds(ExecutorRejectionsUpTo(e, |e.outcomes|), ExecutorStage)
      ensures OutcomeCandidate(e, k).candidateId in Ids(ExecutorRejected(e))
    {
      assert ExecutorRejection(e, k) in ExecutorRejectionsUpTo(e, |e.outcomes|);
      assert OutcomeCandidate(e, k) in ExecutorRejected(e);
    }
  }

  /** What is left when the rejected ids are taken out. */
  lemma ReplayedExecution(e: Environment)
    requires WellFormed(e)
    ensures var refused := RejectedIds(ExecutorRejectionsUpTo(e, |e.outcomes|), ExecutorStage);
      && ExecutorAccepted(e) == (set c | c in Executed(e) && c.candidateId !in refused)
      && ExecutorRejected(e) == (set c | c in Executed(e) && c.candidateId in refused)
  {
    hide WellFormed, ExecutorRejectionsUpTo, Executed, ExecutorAccepted, ExecutorRejected;
    ExecutorRejectedIds(e);
    ExecutedIdsDiffer(e);
    forall c | c in Executed(e) ensures c.candidateId in Ids(ExecutorRejected(e)) <==> c in ExecutorRejected(e) {
    }
  }

  lemma OutcomeStep(e: Environment, k: nat)
    requires WellFormed(e) && k < |e.outcomes|
    ensures var c, refused := OutcomeCandidate(e, k), e.outcomes[k].1 != [];
      && ExecutedUpTo(e, k + 1) == ExecutedUpTo(e, k) + {c}
      && AcceptedUpTo(e, k + 1) == AcceptedUpTo(e, k) + If(!refused, {c})
      && RefusedUpTo(e, k + 1) == RefusedUpTo(e, k) + If(refused, {c})
      && ExecutorRejectionsUpTo(e, k + 1) == ExecutorRejectionsUpTo(e, k) + If(refused, {ExecutorRejection(e, k)})
    ensures forall d :: d in ExecutedUpTo(e, k) ==> d.candidateId != OutcomeCandidate(e, k).candidateId
    ensures ExecutorRejection(e, k) !in ExecutorRejectionsUpTo(e, k)
    ensures OutcomeCandidate(e, k) !in AcceptedUpTo(e, k)
  {
    hide FitForReview, OfPlan, ValidBatch;
  }

  ghost function AfterOutcomes(e: Environment, k: nat): Tables
    requires k <= |e.outcomes|
  {
    Tables(ExecutedUpTo(e, k), {}, {}, {}, ExecutorRejectionsUpTo(e, k), {})
  }

  lemma FirstBoundaries(e: Environment)
    ensures StoreAt(e, 0) == AfterOutcomes(e, 0)
    ensures StoreAt(e, 1) == AfterOutcomes(e, |e.outcomes|)
  {
    hide DedupRejections, CriticRejections, VerifierRejections, ReconcilerRejections, CriticReports, VerifierReports, PointsOf;
  }

  /** `execute_plan`, from the outcomes on: no insertion meets a taken key. */
  method ExecutePlan(e: Environment, store: AuditStore) returns (accepted: seq<Candidate>, rejected: seq<Candidate>)
    requires WellFormed(e) && store.Valid() && store.Contents() == AfterOutcomes(e, 0)
    modifies store
    ensures store.Valid() && store.Contents() == StoreAt(e, 1)
    ensures Elements(accepted) == ExecutorAccepted(e) && NoRepeats(accepted) && Elements(rejected) == ExecutorRejected(e)
  {
    hide WellFormed, StoreAt, ExecutedUpTo, AcceptedUpTo, RefusedUpTo, ExecutorRejectionsUpTo, NoRepeats;
    accepted, rejected := [], [];
    FirstBoundaries(e);
    NothingExecuted(e);
    for k := 0 to |e.outcomes|
      invariant store.Valid() && store.Contents() == AfterOutcomes(e, k)
      invariant Elements(accepted) == AcceptedUpTo(e, k) && NoRepeats(accepted) && Elements(rejected) == RefusedUpTo(e, k)
    {
      OutcomeStep(e, k);
      var c, reasons := e.outcomes[k].0, e.outcomes[k].1;
      assert c == OutcomeCandidate(e, k);
      var recorded := store.RecordCandidate(c);
      assert recorded;
      if reasons != [] {
        var noted := store.RecordRejection(Rejection(c.candidateId, ExecutorStage, reasons));
        assert noted;
        AppendNew(rejected, c);
        rejected := rejected + [c];
      } else {
        assert c !in Elements(accepted);
        AppendNew(accepted, c);
        accepted := accepted + [c];
      }
    }
  }

  lemma NothingExecuted(e: Environment)
    ensures AcceptedUpTo(e, 0) == {} && RefusedUpTo(e, 0) == {} && NoRepeats<Candidate>([])
  {
  }

  lemma StoredCandidates(e: Environment, j: nat)
    requires WellFormed(e)
    ensures StoreAt(e, j).candidates == If(j >= 1, Executed(e)) && StoreAt(e, j).rejections == RejectionsAt(e, j)
    ensures ExecutorStage in StoreAt(e, j).stages <==> j >= 2
    ensures Executed(e) == {} && j <= 1 ==> StoreAt(e, j) == StoreAt(e, 0) && StoreAt(e, 1) == StoreAt(e, 0)
    ensures Executed(e) == {} ==> ExecutorAccepted(e) == {} && ExecutorRejected(e) == {}
    ensures forall c :: c in Executed(e) ==> OfRun(e.plan, c)
  {
    hide DedupRejections, CriticRejections, VerifierRejections, ReconcilerRejections, CriticReports, VerifierReports, PointsOf, ValidBatch, FitForReview;
    FirstBoundaries(e);
    assert |e.outcomes| > 0 ==> OutcomeCandidate(e, 0) in Executed(e);
  }

  /** What dedup may have recorded changes nothing that the executor reads, and is nothing when no
      candidate was executed. */
  lemma PartIsOfDedup(e: Environment, j: nat, part: set<Rejection>)
    requires DedupPart(e, j, part)
    ensures RejectedIds(RejectionsAt(e, j) + part, ExecutorStage) == RejectedIds(RejectionsAt(e, j), ExecutorStage)
    ensures StoreWith(e, j, part).candidates == StoreAt(e, j).candidates && StoreWith(e, j, part).stages == StoreAt(e, j).stages
    ensures StoreWith(e, j, part).rejections == RejectionsAt(e, j) + part
    ensures ExecutorAccepted(e) == {} ==> part == {}
    ensures j < 2 ==> part == {}
    ensures StoreWith(e, j, {}) == StoreAt(e, j) && RejectionsAt(e, j) + {} == RejectionsAt(e, j)
  {
    hide RejectionsAt, ExecutorAccepted, Executed, CriticReports, VerifierReports, PointsOf, MergedInto;
    RejectionStages(e);
    IdsOfUnion(RejectionsAt(e, j), part, ExecutorStage);
  }

  /** The executor step from any boundary: existing candidates are read back, a marked stage without
      candidates yields nothing, and otherwise the executor runs. */
  method ExecutorStep(e: Environment, store: AuditStore, ghost j: nat, ghost part: set<Rejection>)
    returns (existing: seq<Rejection>, accepted: seq<Candidate>, rejected: seq<Candidate>)
    requires WellFormed(e) && store.Valid() && DedupPart(e, j, part) && store.Contents() == StoreWith(e, j, part)
    modifies store
    ensures store.Valid() && store.Contents() == StoreWith(e, Max(j, 1), part)
    ensures Elements(existing) == RejectionsAt(e, j) + part
    ensures Elements(accepted) == ExecutorAccepted(e) && NoRepeats(accepted) && Elements(rejected) == ExecutorRejected(e)
  {
    hide WellFormed, StoreAt, StoreWith, DedupPart, Executed, ExecutorAccepted, ExecutorRejected, ExecutorRejectionsUpTo, RejectionsAt, RejectedIds,
      ValidCandidate, RejectionHolds, OfRun, NoRepeats, IdsDiffer, DistinctIds, IsSorted, AuditStore.Valid, AuditStore.Contents;
    StoredCandidates(e, j);
    PartIsOfDedup(e, j, part);
    PartIsOfDedup(e, 1, {}) by {
      NoPart(e, 1);
    }
    RejectedIdsAt(e, j);
    ReplayedExecution(e);
    ExecutedIdsDiffer(e);
    ExecutedHold(e);
    RejectionsHold(e, j, part);
    var listed := store.ListCandidates();
    assert listed.Some?;
    var candidates := listed.value;
    var found := store.ListRejections();
    assert found.Some?;
    existing := found.value;
    if candidates != [] {
      assert candidates[0] in Elements(candidates);
      DistinctWithoutRepeats(candidates);
      assert forall c :: c in candidates ==> c in Executed(e);
      var replayed := ExecutionResultFromAudit(e.plan, candidates, existing);
      assert replayed.Some?;
      assert forall c :: c in Executed(e) <==> c in candidates;
      return existing, replayed.value.0, replayed.value.1;
    }
    NoElements(candidates);
    var marked := store.IsStageCompleted(ExecutorStage);
    if marked {
      return existing, [], [];
    }
    FirstBoundaries(e);
    accepted, rejected := ExecutePlan(e, store);
  }

  lemma NoPart(e: Environment, j: nat)
    ensures DedupPart(e, j, {})
  {
  }
}
