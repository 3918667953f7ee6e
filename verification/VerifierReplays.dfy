/** The verifier step of the orchestrator: verify live, or read the reports back. */
module VerifierReplays {
  import opened Wrappers
  import opened Contracts
  import opened Sorting
  import opened CriticCorrections
  import opened VerifierPolicies
  import opened Dedup
  import opened Batching
  import opened AuditStores
  import opened PipelineSpec
  import opened PipelineFacts
  import opened CandidateViews
  import opened ReadBacks
  import opened Replays
  import opened ExecutorSteps
  import opened CriticReplays
  import opened VerifierSteps

  lemma IdsDifferHasNoRepeats(cs: seq<Candidate>)
    requires IdsDiffer(cs)
    ensures NoRepeats(cs) && DistinctIds(Elements(cs))
  {
    forall a, b | a in Elements(cs) && b in Elements(cs) && a.candidateId == b.candidateId ensures a == b {
      var i :| 0 <= i < |cs| && cs[i] == a;
      var j :| 0 <= j < |cs| && cs[j] == b;
    }
  }

  lemma Rearranged(cs: seq<Candidate>, flat: seq<Candidate>)
    requires IdsDiffer(cs) && multiset(flat) == multiset(cs)
    ensures Elements(flat) == Elements(cs) && IdsDiffer(flat)
  {
    hide IdsDiffer;
    IdsDifferHasNoRepeats(cs);
    SameMultisetNoRepeats(cs, flat);
    forall x ensures x in flat <==> x in cs {
      assert x in multiset(flat) <==> x in multiset(cs);
    }
    SameElements(flat, cs);
    DistinctWithoutRepeats(flat);
  }

  /** Every batch builds its views before any reply arrives. */
  method BuildViews(e: Environment, batches: seq<seq<Candidate>>) returns (raised: bool)
    requires ViewIdsDiffer(e)
    ensures raised <==> exists c :: c in Flatten(batches) && !ViewHolds(c)
  {
    hide ViewHolds, Flatten;
    NothingFlat<Candidate>();
    for i := 0 to |batches|
      invariant forall c :: c in Flatten(batches[..i]) ==> ViewHolds(c)
    {
      FlattenSplits(batches, i);
      var views := BuildCandidateViewMap(batches[i], e.viewId);
      if views.None? {
        var c :| c in batches[i] && !ViewHolds(c);
        assert c in Flatten(batches[..i + 1]);
        FlatPrefix(batches, i + 1);
        return true;
      }
    }
    assert batches[..|batches|] == batches;
    return false;
  }

  lemma {:induction false} FlatPrefix(batches: seq<seq<Candidate>>, n: nat)
    requires n <= |batches|
    ensures forall c :: c in Flatten(batches[..n]) ==> c in Flatten(batches)
    decreases |batches| - n
  {
    hide Flatten;
    if n == |batches| {
      assert batches[..n] == batches;
    } else {
      FlattenSplits(batches, n);
      FlatPrefix(batches, n + 1);
    }
  }

  /** `verify_candidates`: it raises exactly when a candidate cannot be shown to the model, before anything
      is recorded; otherwise what it returns and records is the reference. */
  method VerifyCandidates(e: Environment, store: AuditStore, candidates: seq<Candidate>, criticReports: seq<CriticReport>)
    returns (raised: bool, accepted: seq<Candidate>, rejected: seq<Candidate>)
    requires WellFormed(e) && Elements(candidates) == CriticAccepted(e) && IdsDiffer(candidates)
    requires Elements(criticReports) == CriticReports(e) && ReportIdsDiffer(criticReports)
    requires store.Valid() && store.Contents() == StoreAt(e, 6)
    modifies store
    ensures store.Valid() && (raised <==> !ViewsHold(e)) && store.Contents() == StoreAt(e, if raised then 6 else 7)
    ensures !raised ==> Elements(accepted) == VerifierAccepted(e) && IdsDiffer(accepted) && Elements(rejected) == VerifierRejectedCandidates(e)
  {
    hide WellFormed, CriticAccepted, CriticReports, StoreAt, AfterVerdicts, IdsDiffer, ReportIdsDiffer, OfPlan, VerifierAccepted,
      VerifierRejectedCandidates, VerifiedOf, RefusedOf, AuditStore.Valid, AuditStore.Contents, FitForVerification, ViewHolds;
    if candidates == [] {
      NoElements(candidates);
      NothingToVerify(e);
      NoneDiffer();
      return false, [], [];
    }
    AcceptedAreFit(e, candidates, criticReports);
    assert VerifierInputsValid(e, candidates, criticReports);
    BatchesAreBounded(e);
    var batches := PartitionIntoBatches(candidates, e.batchSize);
    ghost var flat := Flatten(batches);
    Rearranged(candidates, flat);
    VerifiedStore(e, flat);
    FitAreOfPlan(e, candidates, criticReports, flat);
    ViewIdsAreDigests(e);
    accepted, rejected := [], [];
    raised := BuildViews(e, batches);
    FlatViews(e, flat);
    if raised {
      return;
    }
    accepted, rejected := VerifyBatches(e, store, batches);
    VerifiedElements(e, flat);
    VerifiedIdsDiffer(e, flat);
  }

  lemma ViewIdsAreDigests(e: Environment)
    requires WellFormed(e)
    ensures ViewIdsDiffer(e)
  {
    hide ViewIdsDiffer;
  }

  lemma FlatViews(e: Environment, flat: seq<Candidate>)
    requires Elements(flat) == CriticAccepted(e)
    ensures ViewsHold(e) <==> !exists c :: c in flat && !ViewHolds(c)
  {
    hide CriticAccepted, ViewHolds;
    assert forall c :: c in flat <==> c in Elements(flat);
  }

  lemma NoneDiffer()
    ensures IdsDiffer([])
  {
  }

  lemma FitAreOfPlan(e: Environment, candidates: seq<Candidate>, reports: seq<CriticReport>, flat: seq<Candidate>)
    requires VerifierInputsValid(e, candidates, reports) && Elements(flat) == Elements(candidates)
    ensures forall c :: c in flat ==> OfPlan(e, c)
  {
    hide OfPlan;
    forall c | c in flat ensures OfPlan(e, c) {
      assert c in Elements(flat);
      assert FitForVerification(e, c, reports);
    }
  }

  /** Verifier reports, without corrections, as the shared replay reads them. */
  function AsVerdicts(reports: seq<VerifierReport>): seq<CriticReport> {
    seq(|reports|, i requires 0 <= i < |reports| => CriticReport(reports[i].candidateId, Review(reports[i].accepted, None)))
  }

  lemma VerifierReportOwner(e: Environment, byId: map<string, Candidate>, candidates: seq<Candidate>, r: VerifierReport) returns (c: Candidate)
    requires MapsIds(byId, candidates) && Elements(candidates) == CriticAccepted(e) && r in VerifierReports(e)
    ensures c in CriticAccepted(e) && r == VerifierReportOf(e, c) && r.candidateId == c.candidateId
    ensures r.candidateId in byId && byId[r.candidateId] == c
  {
    hide CriticAccepted, VerifierReportOf;
    c :| c in CriticAccepted(e) && r == VerifierReportOf(e, c);
    ReportNamesCandidate(e, c);
    assert c in Elements(candidates);
  }

  lemma ReplayedVerdicts(e: Environment, byId: map<string, Candidate>, candidates: seq<Candidate>, reports: seq<VerifierReport>)
    requires MapsIds(byId, candidates) && Elements(candidates) == CriticAccepted(e)
    requires Elements(reports) == VerifierReports(e) && NoRepeats(reports)
    ensures ReportsKnown(byId, AsVerdicts(reports)) && ReportsKeepIds(byId, AsVerdicts(reports)) && ReportIdsDiffer(AsVerdicts(reports))
  {
    hide CriticAccepted, VerifierReportOf, VerifierReports, MapsIds;
    forall k | 0 <= k < |reports|
      ensures reports[k].candidateId in byId && byId[reports[k].candidateId].candidateId == reports[k].candidateId
    {
      assert reports[k] in Elements(reports);
      var c := VerifierReportOwner(e, byId, candidates, reports[k]);
    }
    forall i, j | 0 <= i < j < |reports| ensures reports[i].candidateId != reports[j].candidateId {
      assert reports[i] in Elements(reports) && reports[j] in Elements(reports);
      var c := VerifierReportOwner(e, byId, candidates, reports[i]);
      var d := VerifierReportOwner(e, byId, candidates, reports[j]);
    }
  }

  /** Reading the reports back accepts what the live verifier accepted. */
  lemma ReplayedVerified(e: Environment, byId: map<string, Candidate>, candidates: seq<Candidate>, reports: seq<VerifierReport>)
    requires WellFormed(e) && MapsIds(byId, candidates) && Elements(candidates) == CriticAccepted(e)
    requires Elements(reports) == VerifierReports(e) && NoRepeats(reports) && ReportsKnown(byId, AsVerdicts(reports))
    ensures Elements(AcceptedBy(byId, AsVerdicts(reports))) == VerifierAccepted(e) && IdsDiffer(AcceptedBy(byId, AsVerdicts(reports)))
  {
    hide WellFormed, CriticAccepted, VerifierReportOf, VerifierReports, MapsIds, AcceptedBy, ReportsKeepIds, ReportIdsDiffer;
    var verdicts := AsVerdicts(reports);
    ReplayedVerdicts(e, byId, candidates, reports);
    AcceptedByElements(byId, verdicts);
    AcceptedByNoRepeats(byId, verdicts);
    var accepted := AcceptedBy(byId, verdicts);
    forall x ensures x in accepted <==> x in VerifierAccepted(e) {
      if x in accepted {
        var k :| 0 <= k < |verdicts| && verdicts[k].review.accepted && Reviewed(byId[verdicts[k].candidateId], verdicts[k].review) == x;
        assert reports[k] in Elements(reports);
        var c := VerifierReportOwner(e, byId, candidates, reports[k]);
      }
      if x in VerifierAccepted(e) {
        VerifierReportListed(e, x);
        assert VerifierReportOf(e, x) in Elements(reports);
        var k :| 0 <= k < |reports| && reports[k] == VerifierReportOf(e, x);
        OwnerById(e, byId, candidates, x);
        assert verdicts[k].review.accepted && Reviewed(byId[verdicts[k].candidateId], verdicts[k].review) == x;
      }
    }
    CriticIdsDiffer(e);
    DistinctWithoutRepeats(accepted);
  }

  lemma VerifierReportListed(e: Environment, c: Candidate)
    requires c in CriticAccepted(e)
    ensures VerifierReportOf(e, c) in VerifierReports(e)
  {
    hide CriticAccepted, VerifierReportOf;
  }

  lemma OwnerById(e: Environment, byId: map<string, Candidate>, candidates: seq<Candidate>, c: Candidate)
    requires MapsIds(byId, candidates) && Elements(candidates) == CriticAccepted(e) && c in CriticAccepted(e)
    ensures VerifierReportOf(e, c).candidateId == c.candidateId && c.candidateId in byId && byId[c.candidateId] == c
  {
    hide CriticAccepted, VerifierReportOf;
    ReportNamesCandidate(e, c);
    assert c in Elements(candidates);
  }

  /** A verifier rejection always comes with a refusing report. */
  lemma RefusalIsReported(e: Environment, id: string) returns (c: Candidate)
    requires id in RejectedIds(VerifierRejections(e), VerifierStage)
    ensures c in CriticAccepted(e) && !VerifierReportOf(e, c).accepted && c.candidateId == id
  {
    hide CriticAccepted, VerifierReportOf;
    var x :| x in VerifierRejections(e) && x.candidateId == id;
    c :| c in CriticAccepted(e) && !VerifierReportOf(e, c).accepted && x == VerifierRejection(e, c);
  }

  /** Reading back rejects what the live verifier rejected. */
  lemma ReplayedRefused(e: Environment, byId: map<string, Candidate>, candidates: seq<Candidate>, reports: seq<VerifierReport>,
                        rejections: seq<Rejection>, rejected: seq<Candidate>)
    requires MapsIds(byId, candidates) && Elements(candidates) == CriticAccepted(e) && Elements(reports) == VerifierReports(e)
    requires RejectedIds(Elements(rejections), VerifierStage) == RejectedIds(VerifierRejections(e), VerifierStage)
    requires forall c :: c in rejected <==> exists id :: id in RefusedIds(AsVerdicts(reports), rejections, VerifierStage) && id in byId && byId[id] == c
    ensures Elements(rejected) == VerifierRejectedCandidates(e)
  {
    hide CriticAccepted, VerifierReportOf, VerifierReports, MapsIds, VerifierRejections, RejectedIds, RefusedIds;
    forall c ensures c in rejected <==> c in VerifierRejectedCandidates(e) {
      if c in rejected {
        var id :| id in RefusedIds(AsVerdicts(reports), rejections, VerifierStage) && id in byId && byId[id] == c;
        var r := RefusingReport(e, reports, rejections, id);
        var d := VerifierReportOwner(e, byId, candidates, r);
      }
      if c in VerifierRejectedCandidates(e) {
        VerifierReportListed(e, c);
        OwnerById(e, byId, candidates, c);
        VerdictRefuses(reports, rejections, VerifierReportOf(e, c));
      }
    }
  }

  lemma VerdictRefuses(reports: seq<VerifierReport>, rejections: seq<Rejection>, r: VerifierReport)
    requires r in Elements(reports) && !r.accepted
    ensures r.candidateId in RefusedIds(AsVerdicts(reports), rejections, VerifierStage)
  {
    hide RejectedIds;
    var k :| 0 <= k < |reports| && reports[k] == r;
    assert AsVerdicts(reports)[k] in AsVerdicts(reports);
  }

  lemma RefusingReport(e: Environment, reports: seq<VerifierReport>, rejections: seq<Rejection>, id: string) returns (r: VerifierReport)
    requires Elements(reports) == VerifierReports(e)
    requires RejectedIds(Elements(rejections), VerifierStage) == RejectedIds(VerifierRejections(e), VerifierStage)
    requires id in RefusedIds(AsVerdicts(reports), rejections, VerifierStage)
    ensures r in VerifierReports(e) && r.candidateId == id && !r.accepted
  {
    hide VerifierReports, VerifierRejections, RejectedIds, VerifierReportOf, CriticAccepted;
    var verdicts := AsVerdicts(reports);
    if id in RejectedIds(VerifierRejections(e), VerifierStage) {
      var c := RefusalIsReported(e, id);
      VerifierReportListed(e, c);
      ReportNamesCandidate(e, c);
      r := VerifierReportOf(e, c);
    } else {
      var v :| v in verdicts && !v.review.accepted && v.candidateId == id;
      var k :| 0 <= k < |verdicts| && verdicts[k] == v;
      r := reports[k];
      assert r in Elements(reports);
    }
  }

  lemma VerifierTables(e: Environment, k: nat)
    ensures StoreAt(e, k).verifierReports == If(k >= 7, VerifierReports(e)) && StoreAt(e, k).rejections == RejectionsAt(e, k)
    ensures RejectedIds(RejectionsAt(e, k), VerifierStage) == If(k >= 7, RejectedIds(VerifierRejections(e), VerifierStage))
  {
    hide RejectionsAt, CriticReports, VerifierReports, PointsOf, Executed, VerifierRejections;
    RejectedIdsAt(e, k);
  }

  lemma AcceptedAreVerified(e: Environment)
    ensures Ids(CriticAccepted(e)) <= set r | r in VerifierReports(e) :: r.candidateId
  {
    hide CriticAccepted, VerifierReportOf, VerifierReports;
    forall c | c in CriticAccepted(e) ensures exists r :: r in VerifierReports(e) && r.candidateId == c.candidateId {
      VerifierReportListed(e, c);
      ReportNamesCandidate(e, c);
    }
  }

  /** At any boundary the verifier is found complete or not begun, never partial. */
  lemma VerifierCompleteness(e: Environment, k: nat, expected: set<string>, reported: set<string>)
    requires k >= 6 && expected == Ids(CriticAccepted(e))
    requires reported == set r | r in StoreAt(e, k).verifierReports :: r.candidateId
    ensures var complete := ReviewStageComplete(expected, reported, RejectionsAt(e, k), VerifierStage);
      && complete == Success(k >= 7 || CriticAccepted(e) == {})
      && (k >= 7 || CriticAccepted(e) == {} ==>
            && StoreAt(e, k).verifierReports == VerifierReports(e) && StoreAt(e, k) == StoreAt(e, Max(k, 7))
            && RejectedIds(RejectionsAt(e, k), VerifierStage) == RejectedIds(VerifierRejections(e), VerifierStage))
  {
    hide StoreAt, RejectionsAt, CriticAccepted, VerifierReports, VerifierRejections, RejectedIds, ReviewStageComplete;
    VerifierTables(e, k);
    AcceptedAreVerified(e);
    NoIdsOfNone(CriticAccepted(e));
    if CriticAccepted(e) == {} {
      NothingToVerify(e);
      NoRejectedIds(VerifierStage);
    }
    var complete := ReviewStageComplete(expected, reported, RejectionsAt(e, k), VerifierStage);
  }

  method ReadVerifierBack(e: Environment, candidates: seq<Candidate>, reports: seq<VerifierReport>, rejections: seq<Rejection>)
    returns (accepted: seq<Candidate>, rejected: seq<Candidate>)
    requires WellFormed(e) && Elements(candidates) == CriticAccepted(e) && IdsDiffer(candidates)
    requires Elements(reports) == VerifierReports(e) && NoRepeats(reports)
    requires RejectedIds(Elements(rejections), VerifierStage) == RejectedIds(VerifierRejections(e), VerifierStage)
    ensures Elements(accepted) == VerifierAccepted(e) && IdsDiffer(accepted) && Elements(rejected) == VerifierRejectedCandidates(e)
  {
    hide WellFormed, CriticAccepted, VerifierAccepted, VerifierRejectedCandidates, VerifierReports, VerifierRejections, AsVerdicts,
      IdsDiffer, MapsIds, RefusedIds, RejectedIds, AcceptedBy, ReportsKnown, ReportsKeepIds, ReportIdsDiffer;
    var replayed, byId := ReviewResultFromAudit(VerifierStage, candidates, AsVerdicts(reports), rejections);
    ReplayedVerdicts(e, byId, candidates, reports);
    VerifierRejectionsAreKnown(e, byId, candidates, rejections);
    assert replayed.Some?;
    accepted, rejected := replayed.value.0, replayed.value.1;
    ReplayedVerified(e, byId, candidates, reports);
    ReplayedRefused(e, byId, candidates, reports, rejections, rejected);
  }

  lemma VerifierRejectionsAreKnown(e: Environment, byId: map<string, Candidate>, candidates: seq<Candidate>, rejections: seq<Rejection>)
    requires MapsIds(byId, candidates) && Elements(candidates) == CriticAccepted(e)
    requires RejectedIds(Elements(rejections), VerifierStage) == RejectedIds(VerifierRejections(e), VerifierStage)
    ensures RejectionsKnown(byId, rejections, VerifierStage)
  {
    hide CriticAccepted, VerifierReportOf, VerifierRejections, RejectedIds, MapsIds;
    forall id | id in RejectedIds(VerifierRejections(e), VerifierStage) ensures id in byId {
      var c := RefusalIsReported(e, id);
      OwnerById(e, byId, candidates, c);
    }
  }

  lemma NothingToView(e: Environment)
    ensures CriticAccepted(e) == {} ==> ViewsHold(e)
  {
    hide CriticAccepted;
  }

  /** The verifier step from any boundary after the critic. */
  method VerifierStep(e: Environment, store: AuditStore, candidates: seq<Candidate>, criticReports: seq<CriticReport>, ghost k: nat)
    returns (raised: bool, accepted: seq<Candidate>, rejected: seq<Candidate>)
    requires WellFormed(e) && Elements(candidates) == CriticAccepted(e) && IdsDiffer(candidates)
    requires Elements(criticReports) == CriticReports(e) && ReportIdsDiffer(criticReports)
    requires store.Valid() && k >= 6 && store.Contents() == StoreAt(e, k) && (k >= 7 ==> ViewsHold(e))
    modifies store
    ensures store.Valid() && (raised <==> !ViewsHold(e))
    ensures store.Contents() == if raised then StoreAt(e, k) else StoreAt(e, Max(k, 7))
    ensures !raised ==> Elements(accepted) == VerifierAccepted(e) && IdsDiffer(accepted) && Elements(rejected) == VerifierRejectedCandidates(e)
  {
    hide WellFormed, StoreAt, RejectionsAt, CriticAccepted, CriticReports, VerifierAccepted, VerifierRejectedCandidates, VerifierReports,
      VerifierRejections, IdsDiffer, RejectedIds, ReviewStageComplete, ReportIdsDiffer, ViewHolds, VerifierReportHolds, DedupPart, AuditStore.Valid, AuditStore.Contents;
    VerifierTables(e, k);
    VerifierRejectionsHold(e);
    RejectionsHold(e, k, {}) by {
      NoPart(e, k);
    }
    var listed := store.ListVerifierReports();
    assert listed.Some?;
    var found := store.ListRejections();
    assert found.Some?;
    var reports, rejections := listed.value, found.value;
    var expected := set c | c in candidates :: c.candidateId;
    var reported := set r | r in reports :: r.candidateId;
    assert expected == Ids(CriticAccepted(e)) by {
      assert forall c :: c in candidates <==> c in Elements(candidates);
    }
    assert reported == set r | r in StoreAt(e, k).verifierReports :: r.candidateId by {
      assert forall r :: r in reports <==> r in Elements(reports);
    }
    VerifierCompleteness(e, k, expected, reported);
    var complete := ReviewStageComplete(expected, reported, Elements(rejections), VerifierStage);
    assert complete.Success?;
    if complete.value {
      raised := false;
      NothingToView(e);
      accepted, rejected := ReadVerifierBack(e, candidates, reports, rejections);
    } else {
      raised, accepted, rejected := VerifyCandidates(e, store, candidates, criticReports);
    }
  }
}
