/** The critic step of the orchestrator: review live, or read the reports back; either way the same
    candidates come out. */
module CriticReplays {
  import opened Wrappers
  import opened Contracts
  import opened Sorting
  import opened CriticCorrections
  import opened Dedup
  import opened Reconciliation
  import opened AuditStores
  import opened PipelineSpec
  import opened PipelineFacts
  import opened ReadBacks
  import opened Replays
  import opened ExecutorSteps
  import opened CriticMirrors
  import opened CriticReviews

  /** Looking a report's candidate up gives the candidate it was made for. */
  lemma ReportOwner(e: Environment, byId: map<string, Candidate>, executed: seq<Candidate>, r: CriticReport) returns (c: Candidate)
    requires WellFormed(e) && MapsIds(byId, executed) && Elements(executed) == ExecutorAccepted(e) && r in CriticReports(e)
    ensures Reported(e, c, r) && c in ExecutorAccepted(e) && r.candidateId in byId && byId[r.candidateId] == c
    ensures SameOrigin(Reviewed(c, r.review), c) && r.candidateId == c.candidateId
  {
    hide WellFormed, ExecutorAccepted, CriticReports, Reported, Reviewed;
    c := ReportHasCandidate(e, r);
    ReportedKeepsOrigin(e, c, r);
    ReportedIsAccepted(e, c, r);
    assert c in Elements(executed);
  }

  lemma ReportedIsAccepted(e: Environment, c: Candidate, r: CriticReport)
    requires Reported(e, c, r)
    ensures c in ExecutorAccepted(e)
  {
    hide ExecutorAccepted, Canonical, Merged;
  }

  lemma ReplayedReports(e: Environment, byId: map<string, Candidate>, executed: seq<Candidate>, reports: seq<CriticReport>)
    requires WellFormed(e) && MapsIds(byId, executed) && Elements(executed) == ExecutorAccepted(e)
    requires Elements(reports) == CriticReports(e) && NoRepeats(reports)
    ensures ReportsKnown(byId, reports) && ReportsKeepIds(byId, reports) && ReportIdsDiffer(reports)
  {
    hide WellFormed, ExecutorAccepted, CriticReports, Reported, Reviewed, MapsIds;
    forall k | 0 <= k < |reports|
      ensures reports[k].candidateId in byId
      ensures Reviewed(byId[reports[k].candidateId], reports[k].review).candidateId == reports[k].candidateId
    {
      assert reports[k] in Elements(reports);
      var c := ReportOwner(e, byId, executed, reports[k]);
    }
    forall i, j | 0 <= i < j < |reports| ensures reports[i].candidateId != reports[j].candidateId {
      assert reports[i] in Elements(reports) && reports[j] in Elements(reports);
      var c := ReportOwner(e, byId, executed, reports[i]);
      var d := ReportOwner(e, byId, executed, reports[j]);
      if c == d {
        OneReport(e, c, reports[i], reports[j]);
      }
    }
  }

  /** Reading the reports back accepts what the live critic accepted. */
  lemma ReplayedAccepted(e: Environment, byId: map<string, Candidate>, executed: seq<Candidate>, reports: seq<CriticReport>)
    requires WellFormed(e) && MapsIds(byId, executed) && Elements(executed) == ExecutorAccepted(e)
    requires Elements(reports) == CriticReports(e) && NoRepeats(reports) && ReportsKnown(byId, reports)
    ensures Elements(AcceptedBy(byId, reports)) == CriticAccepted(e) && IdsDiffer(AcceptedBy(byId, reports))
  {
    hide WellFormed, ExecutorAccepted, CriticReports, Reported, Reviewed, MapsIds, CriticAccepted, AcceptedBy, ReportsKeepIds, ReportIdsDiffer;
    ReplayedReports(e, byId, executed, reports);
    AcceptedByElements(byId, reports);
    AcceptedByNoRepeats(byId, reports);
    var accepted := AcceptedBy(byId, reports);
    forall x ensures x in accepted <==> x in CriticAccepted(e) {
      if x in accepted {
        var k :| 0 <= k < |reports| && reports[k].review.accepted && Reviewed(byId[reports[k].candidateId], reports[k].review) == x;
        assert reports[k] in Elements(reports);
        var c := ReportOwner(e, byId, executed, reports[k]);
        AcceptedBecause(e, c, reports[k]);
      }
      if x in CriticAccepted(e) {
        var c, r := OriginOf(e, x);
        ReportedKeepsOrigin(e, c, r);
        assert r in Elements(reports);
        var k :| 0 <= k < |reports| && reports[k] == r;
        var d := ReportOwner(e, byId, executed, r);
        ExecutedIdsDiffer(e);
        SameAcceptedId(e, c, d, r, r);
      }
    }
    CriticIdsDiffer(e);
    DistinctWithoutRepeats(accepted);
  }

  lemma AcceptedBecause(e: Environment, c: Candidate, r: CriticReport)
    requires Reported(e, c, r)
    ensures r.review.accepted ==> Reviewed(c, r.review) in CriticAccepted(e)
    ensures !r.review.accepted ==> c in CriticRejectedCandidates(e)
  {
    hide ExecutorAccepted, CriticReports, Reviewed;
    ReportedKeepsOrigin(e, c, r);
    ReportedIsAccepted(e, c, r);
  }

  /** A critic rejection always comes with a report. */
  lemma RejectedAreReported(e: Environment, id: string)
    requires id in RejectedIds(CriticRejections(e), CriticStage)
    ensures exists r :: r in CriticReports(e) && r.candidateId == id
  {
    hide ExecutorAccepted, Canonical, MirroredReports, ReviewOf;
    var x :| x in CriticRejections(e) && x.candidateId == id;
    var c :| c in Canonical(e) && !ReviewOf(e, c).accepted && x == CriticRejection(c);
    assert CanonicalReport(e, c) in CanonicalReports(e);
  }

  /** Reading back rejects what the live critic rejected. */
  lemma ReplayedRejected(e: Environment, byId: map<string, Candidate>, executed: seq<Candidate>, reports: seq<CriticReport>,
                         rejections: seq<Rejection>, rejected: seq<Candidate>)
    requires WellFormed(e) && MapsIds(byId, executed) && Elements(executed) == ExecutorAccepted(e)
    requires Elements(reports) == CriticReports(e)
    requires RejectedIds(Elements(rejections), CriticStage) == RejectedIds(CriticRejections(e), CriticStage)
    requires forall c :: c in rejected <==> exists id :: id in RefusedIds(reports, rejections, CriticStage) && id in byId && byId[id] == c
    ensures Elements(rejected) == CriticRejectedCandidates(e)
  {
    hide WellFormed, ExecutorAccepted, CriticReports, Reported, Reviewed, MapsIds, CriticRejectedCandidates, CriticRejections, RejectedIds, RefusedIds;
    forall c ensures c in rejected <==> c in CriticRejectedCandidates(e) {
      if c in rejected {
        var id :| id in RefusedIds(reports, rejections, CriticStage) && id in byId && byId[id] == c;
        var r := RefusedByReport(e, reports, rejections, id);
        var d := ReportOwner(e, byId, executed, r);
        AcceptedBecause(e, d, r);
      }
      if c in CriticRejectedCandidates(e) {
        var r := RejectedReport(e, c);
        ReportedKeepsOrigin(e, c, r);
        var d := ReportOwner(e, byId, executed, r);
        ExecutedIdsDiffer(e);
        SameAcceptedId(e, c, d, r, r);
        ReportRefuses(reports, rejections, r);
      }
    }
  }

  lemma ReportRefuses(reports: seq<CriticReport>, rejections: seq<Rejection>, r: CriticReport)
    requires r in Elements(reports) && !r.review.accepted
    ensures r.candidateId in RefusedIds(reports, rejections, CriticStage)
  {
  }

  lemma RefusedByReport(e: Environment, reports: seq<CriticReport>, rejections: seq<Rejection>, id: string) returns (r: CriticReport)
    requires Elements(reports) == CriticReports(e)
    requires RejectedIds(Elements(rejections), CriticStage) == RejectedIds(CriticRejections(e), CriticStage)
    requires id in RefusedIds(reports, rejections, CriticStage)
    ensures r in CriticReports(e) && r.candidateId == id && !r.review.accepted
  {
    hide CriticReports, CriticRejections, RejectedIds;
    if id in RejectedIds(CriticRejections(e), CriticStage) {
      RejectedAreReported(e, id);
      var s :| s in CriticReports(e) && s.candidateId == id;
      assert s in Elements(reports);
    }
    r :| r in reports && !r.review.accepted && r.candidateId == id;
    assert r in Elements(reports);
  }

  lemma RejectedReport(e: Environment, c: Candidate) returns (r: CriticReport)
    requires c in CriticRejectedCandidates(e)
    ensures Reported(e, c, r) && !r.review.accepted
  {
    hide ExecutorAccepted, CriticReports, Reported;
    r :| r in CriticReports(e) && Reported(e, c, r) && !r.review.accepted;
  }

  lemma CriticTables(e: Environment, k: nat)
    ensures StoreAt(e, k).criticReports == If(k >= 5, CriticReports(e)) && StoreAt(e, k).rejections == RejectionsAt(e, k)
    ensures RejectedIds(RejectionsAt(e, k), CriticStage) == If(k >= 5, RejectedIds(CriticRejections(e), CriticStage))
  {
    hide RejectionsAt, CriticReports, VerifierReports, PointsOf, Executed, CriticRejections;
    RejectedIdsAt(e, k);
  }

  lemma CanonicalAreReported(e: Environment)
    ensures Ids(Canonical(e)) <= set r | r in CriticReports(e) :: r.candidateId
  {
    hide Canonical, MirroredReports, ReviewOf;
    forall c | c in Canonical(e) ensures exists r :: r in CriticReports(e) && r.candidateId == c.candidateId {
      assert CanonicalReport(e, c) in CriticReports(e);
    }
  }

  /** At any boundary the critic is found complete or not begun, never partial; and what is read back
      when it is complete is the whole output. */
  lemma CriticCompleteness(e: Environment, k: nat, expected: set<string>, reported: set<string>)
    requires WellFormed(e) && k >= 4 && expected == Ids(Canonical(e))
    requires reported == set r | r in StoreAt(e, k).criticReports :: r.candidateId
    ensures var complete := ReviewStageComplete(expected, reported, RejectionsAt(e, k), CriticStage);
      && complete == Success(k >= 5 || Canonical(e) == {})
      && (k >= 5 || Canonical(e) == {} ==>
            && StoreAt(e, k).criticReports == CriticReports(e) && StoreAt(e, k) == StoreAt(e, Max(k, 5))
            && RejectedIds(RejectionsAt(e, k), CriticStage) == RejectedIds(CriticRejections(e), CriticStage))
  {
    hide WellFormed, StoreAt, RejectionsAt, Canonical, CriticReports, CriticRejections, RejectedIds, ReviewStageComplete, ExecutorAccepted;
    CriticTables(e, k);
    CanonicalAreReported(e);
    NoIdsOfNone(Canonical(e));
    if Canonical(e) == {} {
      NothingToReview(e);
      NoRejectedIds(CriticStage);
    }
    var complete := ReviewStageComplete(expected, reported, RejectionsAt(e, k), CriticStage);
  }

  lemma NoIdsOfNone(cs: set<Candidate>)
    ensures cs == {} <==> Ids(cs) == {}
  {
    forall c | c in cs ensures c.candidateId in Ids(cs) {
    }
  }

  lemma NoRejectedIds(stage: Stage)
    ensures RejectedIds({}, stage) == {}
  {
  }

  /** The critic step from any boundary after dedup. It raises exactly when stored reports do not pass their
      validator, and then changes nothing. */
  method CriticStep(e: Environment, store: AuditStore, executed: seq<Candidate>, canonical: seq<Candidate>, merged: map<string, string>,
                    duplicates: seq<Candidate>, ghost k: nat)
    returns (raised: bool, accepted: seq<Candidate>, rejected: seq<Candidate>, reports: seq<CriticReport>)
    requires WellFormed(e) && IsMergeMap(e, merged) && Elements(canonical) == Canonical(e) && NoRepeats(canonical)
    requires NoRepeats(duplicates) && Elements(duplicates) == set c | c in ExecutorAccepted(e) && c.candidateId in merged
    requires Elements(executed) == ExecutorAccepted(e) && NoRepeats(executed)
    requires store.Valid() && k >= 4 && store.Contents() == StoreAt(e, k)
    modifies store
    ensures store.Valid() && (raised <==> k >= 5 && !MirrorsHold(e))
    ensures store.Contents() == if raised then StoreAt(e, k) else StoreAt(e, Max(k, 5))
    ensures !raised ==>
      Elements(accepted) == CriticAccepted(e) && IdsDiffer(accepted) && Elements(rejected) == CriticRejectedCandidates(e)
    ensures !raised ==> Elements(reports) == CriticReports(e) && ReportIdsDiffer(reports)
  {
    hide WellFormed, ExecutorAccepted, IsMergeMap, StoreAt, CriticReportHolds, DedupPart, AuditStore.Valid, AuditStore.Contents, RejectionsAt, ReportIdsDiffer, Canonical, CriticAccepted, CriticRejectedCandidates, CriticReports, CriticRejections,
      IdsDiffer, MapsIds, RefusedIds, RejectedIds, ReviewStageComplete, AcceptedBy, ReportsKnown;
    raised, accepted, rejected, reports := false, [], [], [];
    CriticTables(e, k);
    var listed := store.ListCriticReports();
    if listed.None? {
      raised := true;
      return;
    }
    reports := listed.value;
    RejectionsHold(e, k, {}) by {
      NoPart(e, k);
    }
    var found := store.ListRejections();
    assert found.Some?;
    var rejections := found.value;
    var expected := set c | c in canonical :: c.candidateId;
    var reported := set r | r in reports :: r.candidateId;
    assert expected == Ids(Canonical(e)) by {
      assert forall c :: c in canonical <==> c in Elements(canonical);
    }
    assert reported == set r | r in StoreAt(e, k).criticReports :: r.candidateId by {
      assert forall r :: r in reports <==> r in Elements(reports);
    }
    CriticCompleteness(e, k, expected, reported);
    var complete := ReviewStageComplete(expected, reported, Elements(rejections), CriticStage);
    assert complete.Success?;
    if complete.value {
      CriticTables(e, Max(k, 5));
      accepted, rejected := ReadCriticBack(e, executed, reports, rejections, Max(k, 5));
    } else {
      accepted, rejected, reports := ReviewCandidates(e, store, canonical, merged, duplicates);
    }
  }

  method ReadCriticBack(e: Environment, executed: seq<Candidate>, reports: seq<CriticReport>, rejections: seq<Rejection>, ghost k: nat)
    returns (accepted: seq<Candidate>, rejected: seq<Candidate>)
    requires WellFormed(e) && Elements(executed) == ExecutorAccepted(e) && NoRepeats(executed)
    requires Elements(reports) == CriticReports(e) && NoRepeats(reports)
    requires Elements(rejections) == RejectionsAt(e, k) && k >= 5
    ensures Elements(accepted) == CriticAccepted(e) && IdsDiffer(accepted) && Elements(rejected) == CriticRejectedCandidates(e)
    ensures ReportIdsDiffer(reports)
  {
    hide WellFormed, ExecutorAccepted, Canonical, CriticAccepted, CriticRejectedCandidates, CriticReports, CriticRejections,
      IdsDiffer, MapsIds, RefusedIds, RejectedIds, AcceptedBy, ReportsKnown, ReportsKeepIds, ReportIdsDiffer, RejectionsAt, StoreAt;
    CriticTables(e, k);
    ExecutedIdsDiffer(e);
    DistinctWithoutRepeats(executed);
    var replayed, byId := ReviewResultFromAudit(CriticStage, executed, reports, rejections);
    ReplayedReports(e, byId, executed, reports);
    CriticRejectionsAreKnown(e, byId, executed, rejections);
    assert replayed.Some?;
    accepted, rejected := replayed.value.0, replayed.value.1;
    ReplayedAccepted(e, byId, executed, reports);
    ReplayedRejected(e, byId, executed, reports, rejections, rejected);
  }

  lemma CriticRejectionsAreKnown(e: Environment, byId: map<string, Candidate>, executed: seq<Candidate>, rejections: seq<Rejection>)
    requires WellFormed(e) && MapsIds(byId, executed) && Elements(executed) == ExecutorAccepted(e)
    requires RejectedIds(Elements(rejections), CriticStage) == RejectedIds(CriticRejections(e), CriticStage)
    ensures RejectionsKnown(byId, rejections, CriticStage)
  {
    hide WellFormed, ExecutorAccepted, CriticReports, CriticRejections, RejectedIds, MapsIds, Reported;
    forall id | id in RejectedIds(CriticRejections(e), CriticStage) ensures id in byId {
      RejectedAreReported(e, id);
      var r :| r in CriticReports(e) && r.candidateId == id;
      var c := ReportOwner(e, byId, executed, r);
    }
  }
}
