/** verifier/service.py and the verifier step of the orchestrator. */
module VerifierSteps {
  import opened Wrappers
  import opened Contracts
  import opened Sorting
  import opened CriticCorrections
  import opened VerifierPolicies
  import opened DedupRecords
  import opened Batching
  import opened Reconciliation
  import opened AuditStores
  import opened PipelineSpec
  import opened PipelineFacts
  import opened Replays
  import opened ExecutorSteps
  import opened CriticReplays

  predicate FitForVerification(e: Environment, c: Candidate, reports: seq<CriticReport>) {
    && OfPlan(e, c)
    && exists r :: r in reports && r.candidateId == c.candidateId && r.review.accepted && r.review.corrected.GetOr(c) == c
  }

  /** `validate_verifier_inputs` raises nothing. */
  predicate VerifierInputsValid(e: Environment, candidates: seq<Candidate>, reports: seq<CriticReport>) {
    ReportIdsDiffer(reports) && forall c :: c in candidates ==> FitForVerification(e, c, reports)
  }

  lemma AcceptedAreFit(e: Environment, candidates: seq<Candidate>, reports: seq<CriticReport>)
    requires WellFormed(e) && Elements(candidates) == CriticAccepted(e)
    requires Elements(reports) == CriticReports(e) && ReportIdsDiffer(reports)
    ensures VerifierInputsValid(e, candidates, reports)
  {
    hide WellFormed, CriticAccepted, CriticReports, Reported, ReportIdsDiffer;
    forall c | c in candidates ensures FitForVerification(e, c, reports) {
      assert c in Elements(candidates);
      var d, r := OriginOf(e, c);
      ReportedKeepsOrigin(e, d, r);
      ReportedOfPlan(e, d, r);
      assert r in Elements(reports);
    }
  }

  lemma ReportedOfPlan(e: Environment, c: Candidate, r: CriticReport)
    requires WellFormed(e) && Reported(e, c, r)
    ensures OfPlan(e, c)
  {
    hide Canonical, Merged, FitForReview, ValidBatch;
    ReportedIsAccepted(e, c, r);
    var k :| 0 <= k < |e.outcomes| && e.outcomes[k].1 == [] && OutcomeCandidate(e, k) == c;
  }

  // The outcomes of a list of candidates

  function VerifiedOf(e: Environment, cs: seq<Candidate>): seq<Candidate> {
    if cs == [] then []
    else VerifiedOf(e, cs[..|cs| - 1]) + if VerifierReportOf(e, cs[|cs| - 1]).accepted then [cs[|cs| - 1]] else []
  }

  function RefusedOf(e: Environment, cs: seq<Candidate>): seq<Candidate> {
    if cs == [] then []
    else RefusedOf(e, cs[..|cs| - 1]) + if VerifierReportOf(e, cs[|cs| - 1]).accepted then [] else [cs[|cs| - 1]]
  }

  lemma {:induction false} VerifiedMember(e: Environment, cs: seq<Candidate>, x: Candidate)
    ensures x in VerifiedOf(e, cs) <==> x in cs && VerifierReportOf(e, x).accepted
    ensures x in RefusedOf(e, cs) <==> x in cs && !VerifierReportOf(e, x).accepted
  {
    hide VerifierReportOf;
    if cs != [] {
      var front, last := cs[..|cs| - 1], cs[|cs| - 1];
      assert x in cs <==> x in front || x == last;
      VerifiedMember(e, front, x);
    }
  }

  lemma {:induction false} VerifiedIdsDiffer(e: Environment, cs: seq<Candidate>)
    requires IdsDiffer(cs)
    ensures IdsDiffer(VerifiedOf(e, cs))
  {
    hide VerifierReportOf;
    if cs != [] {
      var front, last := cs[..|cs| - 1], cs[|cs| - 1];
      VerifiedIdsDiffer(e, front);
      forall x | x in VerifiedOf(e, front) ensures x.candidateId != last.candidateId {
        VerifiedMember(e, front, x);
      }
    }
  }

  function VerdictsOf(e: Environment, cs: seq<Candidate>): seq<VerifierReport> {
    seq(|cs|, i requires 0 <= i < |cs| => VerifierReportOf(e, cs[i]))
  }

  ghost function RefusalsOf(e: Environment, cs: seq<Candidate>): set<Rejection> {
    set c | c in cs && !VerifierReportOf(e, c).accepted :: VerifierRejection(e, c)
  }

  ghost function AfterVerdicts(e: Environment, cs: seq<Candidate>): Tables {
    StoreAt(e, 6).(verifierReports := Elements(VerdictsOf(e, cs)), rejections := RejectionsAt(e, 6) + RefusalsOf(e, cs))
  }

  lemma VerdictsSnoc(e: Environment, cs: seq<Candidate>, c: Candidate)
    ensures VerifiedOf(e, cs + [c]) == VerifiedOf(e, cs) + if VerifierReportOf(e, c).accepted then [c] else []
    ensures RefusedOf(e, cs + [c]) == RefusedOf(e, cs) + if VerifierReportOf(e, c).accepted then [] else [c]
    ensures VerdictsOf(e, cs + [c]) == VerdictsOf(e, cs) + [VerifierReportOf(e, c)]
  {
    hide VerifierReportOf;
    assert (cs + [c])[..|cs|] == cs;
  }

  lemma RefusalsSnoc(e: Environment, cs: seq<Candidate>, c: Candidate)
    ensures RefusalsOf(e, cs + [c]) == RefusalsOf(e, cs) + If(!VerifierReportOf(e, c).accepted, {VerifierRejection(e, c)})
  {
    hide VerifierReportOf, VerifierRejection;
  }

  lemma ReportNamesCandidate(e: Environment, c: Candidate)
    ensures VerifierReportOf(e, c).candidateId == c.candidateId
  {
    hide BuildVerifierReport;
    if c.chunkId in e.chunks {
      BuiltReportNames(e.plan, e.chunks[c.chunkId], c, e.verifierVerdict(c), e.grounding);
    }
  }

  lemma BuiltReportNames(plan: Plan, chunk: Chunk, c: Candidate, v: VerifierVerdict, g: Grounding)
    ensures BuildVerifierReport(plan, chunk, c, v, g).candidateId == c.candidateId
  {
    hide Distinct, SurvivingObjection, DeterministicReasons;
  }

  lemma NotYetVerified(e: Environment, cs: seq<Candidate>, c: Candidate)
    requires forall d :: d in cs ==> d.candidateId != c.candidateId
    ensures VerifierReportOf(e, c) !in Elements(VerdictsOf(e, cs))
    ensures VerifierRejection(e, c) !in RejectionsAt(e, 6) + RefusalsOf(e, cs)
  {
    hide VerifierReportOf, ExecutorRejectionsUpTo, DedupRejections, CriticRejections, VerifierRejections, ReconcilerRejections, ExecutorAccepted;
    RejectionStages(e);
    forall d ensures VerifierReportOf(e, d).candidateId == d.candidateId {
      ReportNamesCandidate(e, d);
    }
  }

  lemma AfterVerdictsSnoc(e: Environment, cs: seq<Candidate>, c: Candidate)
    ensures AfterVerdicts(e, cs).verifierReports == Elements(VerdictsOf(e, cs))
    ensures AfterVerdicts(e, cs).rejections == RejectionsAt(e, 6) + RefusalsOf(e, cs)
    ensures AfterVerdicts(e, cs + [c]) == AfterVerdicts(e, cs).(
      verifierReports := AfterVerdicts(e, cs).verifierReports + {VerifierReportOf(e, c)},
      rejections := AfterVerdicts(e, cs).rejections + If(!VerifierReportOf(e, c).accepted, {VerifierRejection(e, c)}))
  {
    hide VerifierReportOf, StoreAt, RejectionsAt, RefusalsOf, VerdictsOf, VerifiedOf, RefusedOf, VerifierRejection;
    VerdictsSnoc(e, cs, c);
    RefusalsSnoc(e, cs, c);
    AppendNew(VerdictsOf(e, cs), VerifierReportOf(e, c));
  }

  /** The loop body of `_verify_batch` */
  method VerifyOne(e: Environment, store: AuditStore, chunk: Chunk, c: Candidate, ghost before: seq<Candidate>) returns (report: VerifierReport)
    requires store.Valid() && store.Contents() == AfterVerdicts(e, before)
    requires c.chunkId in e.chunks && chunk == e.chunks[c.chunkId]
    requires forall d :: d in before ==> d.candidateId != c.candidateId
    modifies store
    ensures store.Valid() && store.Contents() == AfterVerdicts(e, before + [c]) && report == VerifierReportOf(e, c)
  {
    hide AfterVerdicts, BuildVerifierReport, StoreAt, RejectionsAt, RefusalsOf, VerdictsOf;
    AfterVerdictsSnoc(e, before, c);
    NotYetVerified(e, before, c);
    report := BuildVerifierReport(e.plan, chunk, c, e.verifierVerdict(c), e.grounding);
    var recorded := store.RecordVerifierReport(report);
    assert recorded;
    if !report.accepted {
      var noted := store.RecordRejection(Rejection(c.candidateId, VerifierStage, report.reasons));
      assert noted;
    }
  }

  /** The loop of `_verify_batch` over its candidates. */
  method VerifyBatch(e: Environment, store: AuditStore, batch: seq<Candidate>, ghost done: seq<Candidate>)
    returns (accepted: seq<Candidate>, rejected: seq<Candidate>)
    requires store.Valid() && store.Contents() == AfterVerdicts(e, done)
    requires batch != [] && OneChunk(batch, batch[0].chunkId) && IdsDiffer(done + batch)
    requires forall c :: c in batch ==> OfPlan(e, c)
    modifies store
    ensures store.Valid() && store.Contents() == AfterVerdicts(e, done + batch)
    ensures VerifiedOf(e, done) + accepted == VerifiedOf(e, done + batch)
    ensures RefusedOf(e, done) + rejected == RefusedOf(e, done + batch)
  {
    hide AfterVerdicts, VerifiedOf, RefusedOf, VerifierReportOf, IdsDiffer, AuditStore.Valid, AuditStore.Contents;
    assert OfPlan(e, batch[0]);
    var chunk := e.chunks[batch[0].chunkId];
    accepted, rejected := [], [];
    assert done + batch[..0] == done;
    for i := 0 to |batch|
      invariant store.Valid() && store.Contents() == AfterVerdicts(e, done + batch[..i])
      invariant VerifiedOf(e, done) + accepted == VerifiedOf(e, done + batch[..i])
      invariant RefusedOf(e, done) + rejected == RefusedOf(e, done + batch[..i])
    {
      var c := batch[i];
      ghost var before := done + batch[..i];
      assert done + batch[..i + 1] == before + [c];
      VerdictsSnoc(e, before, c);
      EarlierIdsDiffer(done + batch, |done| + i, before);
      var report := VerifyOne(e, store, chunk, c, before);
      if report.accepted {
        accepted := accepted + [c];
      } else {
        rejected := rejected + [c];
      }
    }
    assert done + batch[..|batch|] == done + batch;
  }

  method VerifyBatches(e: Environment, store: AuditStore, batches: seq<seq<Candidate>>)
    returns (accepted: seq<Candidate>, rejected: seq<Candidate>)
    requires store.Valid() && store.Contents() == AfterVerdicts(e, [])
    requires IdsDiffer(Flatten(batches)) && forall b :: b in batches ==> IsBatch(b, e.batchSize)
    requires forall c :: c in Flatten(batches) ==> OfPlan(e, c)
    modifies store
    ensures store.Valid() && store.Contents() == AfterVerdicts(e, Flatten(batches))
    ensures accepted == VerifiedOf(e, Flatten(batches)) && rejected == RefusedOf(e, Flatten(batches))
  {
    hide AfterVerdicts, VerifiedOf, RefusedOf, OfPlan, IdsDiffer, Flatten, AuditStore.Valid, AuditStore.Contents;
    accepted, rejected := [], [];
    NothingFlat<Candidate>();
    NothingVerified(e);
    for i := 0 to |batches|
      invariant store.Valid() && store.Contents() == AfterVerdicts(e, Flatten(batches[..i]))
      invariant accepted == VerifiedOf(e, Flatten(batches[..i])) && rejected == RefusedOf(e, Flatten(batches[..i]))
    {
      FlattenSplits(batches, i);
      PrefixIdsDiffer(Flatten(batches), Flatten(batches[..i + 1]));
      assert IsBatch(batches[i], e.batchSize);
      forall c | c in batches[i] ensures OfPlan(e, c) {
        assert c in Flatten(batches[..i + 1]);
      }
      var a, r := VerifyBatch(e, store, batches[i], Flatten(batches[..i]));
      accepted, rejected := accepted + a, rejected + r;
    }
    assert batches[..|batches|] == batches;
  }

  lemma NothingVerified(e: Environment)
    ensures VerifiedOf(e, []) == [] && RefusedOf(e, []) == [] && VerdictsOf(e, []) == []
  {
  }

  /** The store of boundary 7. */
  lemma VerifiedStore(e: Environment, cs: seq<Candidate>)
    requires Elements(cs) == CriticAccepted(e)
    ensures AfterVerdicts(e, cs) == StoreAt(e, 7)
    ensures AfterVerdicts(e, []) == StoreAt(e, 6)
  {
    hide CriticAccepted, VerifierReportOf, VerifierRejection, CriticReports, ExecutorRejectionsUpTo, DedupRejections, CriticRejections,
      ReconcilerRejections, PointsOf, Executed, ExecutorAccepted;
    forall c ensures c in cs <==> c in CriticAccepted(e) {
      assert c in cs <==> c in Elements(cs);
    }
    assert RefusalsOf(e, cs) == VerifierRejections(e);
    assert Elements(VerdictsOf(e, cs)) == VerifierReports(e) by {
      forall c | c in cs ensures VerifierReportOf(e, c) in VerdictsOf(e, cs) {
        var i :| 0 <= i < |cs| && cs[i] == c;
        assert VerdictsOf(e, cs)[i] == VerifierReportOf(e, c);
      }
    }
  }

  lemma VerifiedElements(e: Environment, cs: seq<Candidate>)
    requires Elements(cs) == CriticAccepted(e)
    ensures Elements(VerifiedOf(e, cs)) == VerifierAccepted(e) && Elements(RefusedOf(e, cs)) == VerifierRejectedCandidates(e)
  {
    hide CriticAccepted, VerifierReportOf, VerifiedOf, RefusedOf;
    forall c
      ensures c in VerifiedOf(e, cs) <==> c in CriticAccepted(e) && VerifierReportOf(e, c).accepted
      ensures c in RefusedOf(e, cs) <==> c in CriticAccepted(e) && !VerifierReportOf(e, c).accepted
    {
      assert c in cs <==> c in Elements(cs);
      VerifiedMember(e, cs, c);
    }
  }

  lemma NothingToVerify(e: Environment)
    requires CriticAccepted(e) == {}
    ensures VerifierReports(e) == {} && VerifierRejections(e) == {} && VerifierAccepted(e) == {} && VerifierRejectedCandidates(e) == {}
    ensures StoreAt(e, 6) == StoreAt(e, 7)
  {
    hide CriticAccepted, VerifierReportOf, CriticReports, ExecutorRejectionsUpTo, DedupRejections, CriticRejections,
      ReconcilerRejections, PointsOf, Executed, ExecutorAccepted;
  }
}
