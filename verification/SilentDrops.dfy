/** Does a candidate ever leave the run without a record? Not in a run interrupted at stage boundaries or
    inside dedup; after an interruption inside the critic or the verifier, and when the stored reports can
    be read back, exactly when a refusing report was stored without its rejection. */
module SilentDrops {
  import opened Wrappers
  import opened Contracts
  import opened Sorting
  import opened CriticCorrections
  import opened VerifierPolicies
  import opened Dedup
  import opened DedupRecords
  import opened AuditStores
  import opened PipelineSpec
  import opened PipelineFacts
  import opened Replays
  import opened ExecutorSteps
  import opened CriticReviews
  import opened CriticReplays
  import opened VerifierSteps
  import opened VerifierReplays
  import opened ReconcilerSteps
  import opened Orchestrator
  import opened CrashWindows

  /** Some rejection names the candidate. */
  predicate OnRecord(rejections: set<Rejection>, id: string) {
    exists r :: r in rejections && r.candidateId == id
  }

  /** Some candidate of the list has the id. */
  predicate Carried(accepted: seq<Candidate>, id: string) {
    exists x :: x in accepted && x.candidateId == id
  }

  // Completed runs

  /** Each stage's rejections are in the final store. */
  lemma AllAreRecorded(e: Environment)
    ensures ExecutorRejectionsUpTo(e, |e.outcomes|) <= RejectionsAt(e, 10) && DedupRejections(ExecutorAccepted(e), e.normalize) <= RejectionsAt(e, 10)
    ensures CriticRejections(e) <= RejectionsAt(e, 10) && VerifierRejections(e) <= RejectionsAt(e, 10)
    ensures ReconcilerRejections(e) <= RejectionsAt(e, 10)
  {
    hide ExecutorRejectionsUpTo, DedupRejections, CriticRejections, VerifierRejections, ReconcilerRejections, ExecutorAccepted;
  }

  lemma RejectedIdIsOnRecord(rejections: set<Rejection>, all: set<Rejection>, stage: Stage, id: string)
    requires id in RejectedIds(rejections, stage) && rejections <= all
    ensures OnRecord(all, id)
  {
  }

  /** When a run has completed, however it was interrupted on the way, every candidate that the executor
      recorded contributes to a data point or has a rejection on record. */
  lemma NothingIsDropped(e: Environment, c: Candidate)
    requires WellFormed(e) && Reconcilable(e) && c in Executed(e)
    ensures c.candidateId in Contributors(PointsOf(e)) || OnRecord(StoreAt(e, 10).rejections, c.candidateId)
  {
    hide WellFormed, Reconcilable, Executed, ExecutorAccepted, ExecutorRejected, ExecutorRejectionsUpTo, RejectionsAt, Contributors, PointsOf, OnRecord,
      DedupRejections, CriticRejections, VerifierRejections, ReconcilerRejections, CriticReports, VerifierReports, RejectedIds, Canonical, Merged;
    AllAreRecorded(e);
    ExecutedAreSplit(e, c);
    if c in ExecutorRejected(e) {
      ExecutorRejectedIds(e);
      RejectedIdIsOnRecord(ExecutorRejectionsUpTo(e, |e.outcomes|), RejectionsAt(e, 10), ExecutorStage, c.candidateId);
    } else {
      var p := CanonicalOrMerged(e, c);
      if c in Canonical(e) {
        CanonicalIsNotDropped(e, c);
      } else {
        MergedIsOnRecord(e, c, p, RejectionsAt(e, 10));
      }
    }
  }

  lemma ExecutedAreSplit(e: Environment, c: Candidate)
    requires WellFormed(e) && c in Executed(e)
    ensures c in ExecutorRejected(e) || c in ExecutorAccepted(e)
  {
    hide WellFormed, Executed, ExecutorAccepted, ExecutorRejected;
    ExecutedIdsDiffer(e);
  }

  lemma MergedIsOnRecord(e: Environment, c: Candidate, p: Candidate, rejections: set<Rejection>)
    requires Merged(e, c, p) && DedupRejections(ExecutorAccepted(e), e.normalize) <= rejections
    ensures OnRecord(rejections, c.candidateId)
  {
    hide ExecutorAccepted, MergedInto;
    MergedAreInput(e, c, p);
    assert DedupRejection(c.candidateId, p.candidateId) in rejections;
  }

  lemma CanonicalIsNotDropped(e: Environment, c: Candidate)
    requires WellFormed(e) && Reconcilable(e) && c in Canonical(e)
    ensures c.candidateId in Contributors(PointsOf(e)) || OnRecord(RejectionsAt(e, 10), c.candidateId)
  {
    hide WellFormed, Reconcilable, ExecutorAccepted, RejectionsAt, Contributors, PointsOf, RejectedIds, CriticAccepted, ReconcilerRejections,
      ReviewOf, Reviewed, VerifierReportOf, Reported, DedupRejections, ExecutorRejectionsUpTo, Canonical;
    AllAreRecorded(e);
    CanonicalIsReported(e, c);
    if !ReviewOf(e, c).accepted {
      assert CriticRejection(c) in CriticRejections(e);
    } else {
      AcceptedBecause(e, c, CanonicalReport(e, c));
      ReviewKeepsOrigin(e, c);
      var x := Reviewed(c, ReviewOf(e, c));
      if !VerifierReportOf(e, x).accepted {
        assert VerifierRejection(e, x) in VerifierRejections(e);
      } else {
        ReconciledIsComplete(e, PointsOf(e));
        assert x.candidateId in Ids(VerifierAccepted(e));
        if x.candidateId !in Contributors(PointsOf(e)) {
          RejectedIdIsOnRecord(ReconcilerRejections(e), RejectionsAt(e, 10), ReconcilerStage, c.candidateId);
        }
      }
    }
  }

  // Inside the critic

  /** What an interruption inside the critic left behind: some reports, and the rejections of some of the
      candidates that they refuse; a report is written before its rejection. */
  ghost predicate InsideCritic(e: Environment, reports: seq<CriticReport>, written: set<Rejection>) {
    && Elements(reports) <= CriticReports(e) && written <= CriticRejections(e)
    && forall r :: r in written ==> exists s :: s in reports && s.candidateId == r.candidateId
  }

  /** A stored report with the id of an accepted candidate is the report of that candidate. */
  lemma ReportOfId(e: Environment, c: Candidate, r: CriticReport)
    requires WellFormed(e) && c in ExecutorAccepted(e) && r in CriticReports(e) && r.candidateId == c.candidateId
    ensures Reported(e, c, r)
  {
    hide WellFormed, Reported, CriticReports, ExecutorAccepted, DistinctIds;
    var d := ReportHasCandidate(e, r);
    ReportedKeepsOrigin(e, d, r);
    ExecutedIdsDiffer(e);
    ReportedIsAccepted(e, d, r);
    SameIdSame(ExecutorAccepted(e), c, d);
  }

  lemma SameIdSame(all: set<Candidate>, c: Candidate, d: Candidate)
    requires DistinctIds(all) && c in all && d in all && c.candidateId == d.candidateId
    ensures c == d
  {
  }

  /** On resume such a store counts as complete exactly when every canonical report is there, with or
      without its rejection. */
  lemma CriticCountsAsComplete(e: Environment, reports: seq<CriticReport>, written: set<Rejection>)
    requires WellFormed(e) && InsideCritic(e, reports, written)
    ensures ReviewStageComplete(Ids(Canonical(e)), set r | r in reports :: r.candidateId, RejectionsAt(e, 4) + written, CriticStage) == Success(true)
      <==> CanonicalReports(e) <= Elements(reports)
  {
    hide WellFormed, Canonical, CriticReports, RejectionsAt, CriticRejections, RejectedIds, ReviewStageComplete, Reported, ReviewOf, ExecutorAccepted;
    var ids := set r | r in reports :: r.candidateId;
    WrittenAreReported(e, reports, written);
    var complete := ReviewStageComplete(Ids(Canonical(e)), ids, RejectionsAt(e, 4) + written, CriticStage);
    if CanonicalReports(e) <= Elements(reports) {
      forall c | c in Canonical(e) ensures c.candidateId in ids {
        assert CanonicalReport(e, c) in CanonicalReports(e);
      }
    }
    if Ids(Canonical(e)) <= ids {
      forall c | c in Canonical(e) ensures CanonicalReport(e, c) in reports {
        assert c.candidateId in ids;
        var r :| r in reports && r.candidateId == c.candidateId;
        CanonicalIsReported(e, c);
        ReportOfId(e, c, r);
        OneReport(e, c, r, CanonicalReport(e, c));
      }
    }
  }

  lemma WrittenAreReported(e: Environment, reports: seq<CriticReport>, written: set<Rejection>)
    requires InsideCritic(e, reports, written)
    ensures RejectedIds(RejectionsAt(e, 4) + written, CriticStage) <= set r | r in reports :: r.candidateId
  {
    hide RejectionsAt, CriticReports, CriticRejections;
    IdsOfUnion(RejectionsAt(e, 4), written, CriticStage);
    CriticTables(e, 4);
  }

  lemma ReportsAreKnown(e: Environment, byId: map<string, Candidate>, executed: seq<Candidate>, reports: seq<CriticReport>)
    requires WellFormed(e) && MapsIds(byId, executed) && Elements(executed) == ExecutorAccepted(e) && Elements(reports) <= CriticReports(e)
    ensures ReportsKnown(byId, reports)
  {
    hide WellFormed, MapsIds, ExecutorAccepted, CriticReports, Reported;
    forall k | 0 <= k < |reports| ensures reports[k].candidateId in byId {
      assert reports[k] in Elements(reports);
      var d := ReportOwner(e, byId, executed, reports[k]);
    }
  }

  /** What is read back carries a candidate on exactly when its accepting report is there. */
  lemma CarriedByItsReport(e: Environment, byId: map<string, Candidate>, executed: seq<Candidate>, reports: seq<CriticReport>, c: Candidate)
    requires WellFormed(e) && MapsIds(byId, executed) && Elements(executed) == ExecutorAccepted(e)
    requires Elements(reports) <= CriticReports(e) && c in ExecutorAccepted(e)
    ensures ReportsKnown(byId, reports)
    ensures Carried(AcceptedBy(byId, reports), c.candidateId) <==> exists r :: r in reports && Reported(e, c, r) && r.review.accepted
  {
    hide WellFormed, MapsIds, ExecutorAccepted, CriticReports, Reported, Reviewed, AcceptedBy;
    ReportsAreKnown(e, byId, executed, reports);
    AcceptedByElements(byId, reports);
    if Carried(AcceptedBy(byId, reports), c.candidateId) {
      var x :| x in AcceptedBy(byId, reports) && x.candidateId == c.candidateId;
      var k :| 0 <= k < |reports| && reports[k].review.accepted && Reviewed(byId[reports[k].candidateId], reports[k].review) == x;
      assert reports[k] in Elements(reports);
      var d := ReportOwner(e, byId, executed, reports[k]);
      ReportOfId(e, c, reports[k]);
    }
    if exists r :: r in reports && Reported(e, c, r) && r.review.accepted {
      var r :| r in reports && Reported(e, c, r) && r.review.accepted;
      assert r in Elements(reports);
      var k :| 0 <= k < |reports| && reports[k] == r;
      var d := ReportOwner(e, byId, executed, r);
      ReportedKeepsOrigin(e, c, r);
      assert Reviewed(byId[r.candidateId], r.review) in AcceptedBy(byId, reports);
    }
  }

  /** Before the critic only merged candidates are on record among those that the executor accepted. */
  lemma MergedAreOnRecord(e: Environment, c: Candidate)
    requires WellFormed(e) && c in ExecutorAccepted(e)
    ensures OnRecord(RejectionsAt(e, 4), c.candidateId) <==> c !in Canonical(e)
    ensures forall r :: r in RejectionsAt(e, 4) && r.candidateId == c.candidateId ==> r.stage == DedupStage
  {
    hide WellFormed, Canonical, ExecutorAccepted, ExecutorRejected, ExecutorRejectionsUpTo, DedupRejections, CriticRejections, VerifierRejections,
      ReconcilerRejections, RejectedIds, Merged;
    ExecutedIdsDiffer(e);
    NotRefusedByExecutor(e, c);
    RejectionStages(e);
    MergesAreRecorded(e, c);
  }

  lemma NotRefusedByExecutor(e: Environment, c: Candidate)
    requires WellFormed(e) && c in ExecutorAccepted(e)
    ensures forall r :: r in ExecutorRejectionsUpTo(e, |e.outcomes|) ==> r.candidateId != c.candidateId
  {
    hide FitForReview;
  }

  lemma MergesAreRecorded(e: Environment, c: Candidate)
    requires WellFormed(e) && c in ExecutorAccepted(e)
    ensures OnRecord(DedupRejections(ExecutorAccepted(e), e.normalize), c.candidateId) <==> c !in Canonical(e)
  {
    hide WellFormed, Canonical, ExecutorAccepted, MergedInto, DistinctIds;
    var p := CanonicalOrMerged(e, c);
    if c !in Canonical(e) {
      MergedIsOnRecord(e, c, p, DedupRejections(ExecutorAccepted(e), e.normalize));
    }
    if OnRecord(DedupRejections(ExecutorAccepted(e), e.normalize), c.candidateId) {
      var r :| r in DedupRejections(ExecutorAccepted(e), e.normalize) && r.candidateId == c.candidateId;
      var d, q :| d in ExecutorAccepted(e) && q in ExecutorAccepted(e) && MergedInto(ExecutorAccepted(e), d, q, e.normalize)
        && r == DedupRejection(d.candidateId, q.candidateId);
      ExecutedIdsDiffer(e);
      SameIdSame(ExecutorAccepted(e), c, d);
      CanonicalIsNotMerged(e, c, q);
    }
  }

  /** Resumed from a store that counts as complete, the run drops a candidate without any record exactly
      when it is canonical and refused, and its rejection was not written. */
  lemma CriticDropsExactly(e: Environment, byId: map<string, Candidate>, executed: seq<Candidate>, reports: seq<CriticReport>, written: set<Rejection>,
                           c: Candidate)
    requires WellFormed(e) && MapsIds(byId, executed) && Elements(executed) == ExecutorAccepted(e)
    requires InsideCritic(e, reports, written) && CanonicalReports(e) <= Elements(reports) && c in ExecutorAccepted(e)
    ensures ReportsKnown(byId, reports)
    ensures !Carried(AcceptedBy(byId, reports), c.candidateId) && !OnRecord(RejectionsAt(e, 4) + written, c.candidateId)
      <==> c in Canonical(e) && !ReviewOf(e, c).accepted && CriticRejection(c) !in written
  {
    hide WellFormed, MapsIds, ExecutorAccepted, Canonical, CriticReports, CriticRejections, RejectionsAt, Reported, ReviewOf, Carried, AcceptedBy, ReportsKnown;
    CarriedByItsReport(e, byId, executed, reports, c);
    MergedAreOnRecord(e, c);
    if c in Canonical(e) {
      CanonicalIsReported(e, c);
      assert CanonicalReport(e, c) in CanonicalReports(e);
      assert CanonicalReport(e, c) in reports;
      if exists r :: r in reports && Reported(e, c, r) && r.review.accepted {
        var r :| r in reports && Reported(e, c, r) && r.review.accepted;
        OneReport(e, c, r, CanonicalReport(e, c));
      }
      WrittenFor(e, reports, written, c);
    }
  }

  lemma WrittenFor(e: Environment, reports: seq<CriticReport>, written: set<Rejection>, c: Candidate)
    requires WellFormed(e) && InsideCritic(e, reports, written) && c in Canonical(e)
    ensures OnRecord(written, c.candidateId) <==> CriticRejection(c) in written
  {
    hide WellFormed, CriticReports, ExecutorAccepted, Canonical, ReviewOf, DistinctIds;
    if OnRecord(written, c.candidateId) {
      var r :| r in written && r.candidateId == c.candidateId;
      var d :| d in Canonical(e) && !ReviewOf(e, d).accepted && r == CriticRejection(d);
      CanonicalIdsDiffer(e);
      SameIdSame(Canonical(e), c, d);
    }
  }

  /** Every refusing report in the store comes with a rejection of its candidate. */
  ghost predicate RefusalsOnRecord(reports: seq<CriticReport>, rejections: set<Rejection>) {
    forall r :: r in reports && !r.review.accepted ==> OnRecord(rejections, r.candidateId)
  }

  /** So nobody is dropped without a record exactly when every refusing report has its rejection. */
  lemma CriticDropsNobodyExactly(e: Environment, byId: map<string, Candidate>, executed: seq<Candidate>, reports: seq<CriticReport>,
                                 written: set<Rejection>)
    requires WellFormed(e) && MapsIds(byId, executed) && Elements(executed) == ExecutorAccepted(e)
    requires InsideCritic(e, reports, written) && CanonicalReports(e) <= Elements(reports)
    ensures ReportsKnown(byId, reports)
    ensures (forall c :: c in ExecutorAccepted(e) && !Carried(AcceptedBy(byId, reports), c.candidateId)
                         ==> OnRecord(RejectionsAt(e, 4) + written, c.candidateId))
      <==> RefusalsOnRecord(reports, RejectionsAt(e, 4) + written)
  {
    hide WellFormed, MapsIds, ExecutorAccepted, Canonical, CriticReports, CriticRejections, RejectionsAt, Reported, ReviewOf, OnRecord, Carried, AcceptedBy, ReportsKnown;
    var rejections := RejectionsAt(e, 4) + written;
    ReportsAreKnown(e, byId, executed, reports);
    forall c | c in ExecutorAccepted(e)
      ensures !Carried(AcceptedBy(byId, reports), c.candidateId) && !OnRecord(rejections, c.candidateId) ==> !RefusalsOnRecord(reports, rejections)
    {
      CriticDropsExactly(e, byId, executed, reports, written, c);
      if c in Canonical(e) {
        assert CanonicalReport(e, c) in CanonicalReports(e);
        assert CanonicalReport(e, c) in reports;
      }
    }
    forall r | r in reports && !r.review.accepted
      ensures exists c :: c in ExecutorAccepted(e) && c.candidateId == r.candidateId && !Carried(AcceptedBy(byId, reports), c.candidateId)
    {
      assert r in Elements(reports);
      var c := ReportOwner(e, byId, executed, r);
      CarriedByItsReport(e, byId, executed, reports, c);
      if exists s :: s in reports && Reported(e, c, s) && s.review.accepted {
        var s :| s in reports && Reported(e, c, s) && s.review.accepted;
        OneReport(e, c, r, s);
      }
    }
  }

  // Between the canonical reports and their mirrored copies

  /** A merged candidate whose mirrored report was lost is neither accepted nor rejected by what is read
      back, and has its dedup record but no rejection of another stage: it leaves the run as if its
      primary stood for it, even when the primary was accepted. */
  lemma LostMirrorIsForgotten(e: Environment, byId: map<string, Candidate>, executed: seq<Candidate>, reports: seq<CriticReport>,
                              part: set<CriticReport>, rejections: seq<Rejection>, written: set<Rejection>, c: Candidate, p: Candidate)
    requires WellFormed(e) && MapsIds(byId, executed) && Elements(executed) == ExecutorAccepted(e)
    requires LostMirrors(e, reports, part) && written <= CriticRejections(e) && Elements(rejections) == RejectionsAt(e, 4) + written
    requires Merged(e, c, p) && MirroredReport(e, c, p) !in part
    ensures ReportsKnown(byId, reports) && !Carried(AcceptedBy(byId, reports), c.candidateId)
    ensures c.candidateId !in RefusedIds(reports, rejections, CriticStage)
    ensures OnRecord(Elements(rejections), c.candidateId)
    ensures forall r :: r in rejections && r.candidateId == c.candidateId ==> r.stage == DedupStage
  {
    hide WellFormed, MapsIds, ExecutorAccepted, Canonical, CriticReports, CriticRejections, RejectionsAt, Reported, ReviewOf, Carried, AcceptedBy, Merged,
      MirroredReport, MirroredReports, CanonicalReports, OnRecord, ReportsKnown;
    MergedAreInput(e, c, p);
    CanonicalIsNotMerged(e, c, p);
    MergedAreOnRecord(e, c);
    NoReportOfLostMirror(e, reports, part, c, p);
    CarriedByItsReport(e, byId, executed, reports, c);
    forall r | r in reports ensures !Reported(e, c, r) {
      if Reported(e, c, r) { ReportedKeepsOrigin(e, c, r); }
    }
    forall r | r in rejections && r.candidateId == c.candidateId ensures r.stage == DedupStage && r in RejectionsAt(e, 4) {
      assert r in Elements(rejections);
      NotRejectedByCritic(e, c, r);
    }
    assert forall r :: r in RejectionsAt(e, 4) ==> r in Elements(rejections);
    OnRecordGrows(RejectionsAt(e, 4), Elements(rejections), c.candidateId);
  }

  lemma OnRecordGrows(some: set<Rejection>, all: set<Rejection>, id: string)
    requires some <= all && OnRecord(some, id)
    ensures OnRecord(all, id)
  {
  }

  lemma NotRejectedByCritic(e: Environment, c: Candidate, r: Rejection)
    requires WellFormed(e) && c in ExecutorAccepted(e) && c !in Canonical(e) && r.candidateId == c.candidateId
    ensures r !in CriticRejections(e)
  {
    hide WellFormed, ExecutorAccepted, Canonical, ReviewOf, DistinctIds;
    if r in CriticRejections(e) {
      var d :| d in Canonical(e) && !ReviewOf(e, d).accepted && r == CriticRejection(d);
      CanonicalAreAccepted(e, d);
      ExecutedIdsDiffer(e);
      SameIdSame(ExecutorAccepted(e), c, d);
    }
  }

  lemma NoReportOfLostMirror(e: Environment, reports: seq<CriticReport>, part: set<CriticReport>, c: Candidate, p: Candidate)
    requires WellFormed(e) && LostMirrors(e, reports, part) && Merged(e, c, p) && MirroredReport(e, c, p) !in part
    ensures Elements(reports) <= CriticReports(e) && forall r :: r in reports ==> r.candidateId != c.candidateId
  {
    hide WellFormed, ExecutorAccepted, Canonical, Reported, ReviewOf, Merged, MirroredReport, MirroredReports, CanonicalReports;
    MergedAreInput(e, c, p);
    forall r | r in reports ensures r.candidateId != c.candidateId {
      assert r in Elements(reports);
      if r.candidateId == c.candidateId {
        ReportOfId(e, c, r);
        MergedIsReported(e, c, p);
        OneReport(e, c, r, MirroredReport(e, c, p));
        MirroredIsNotCanonical(e, c, p);
      }
    }
  }

  lemma MergedIsReported(e: Environment, c: Candidate, p: Candidate)
    requires Merged(e, c, p)
    ensures Reported(e, c, MirroredReport(e, c, p))
  {
    hide ExecutorAccepted, MirroredReport;
    MergedAreInput(e, c, p);
  }

  // Inside the verifier

  ghost predicate InsideVerifier(e: Environment, reports: seq<VerifierReport>, written: set<Rejection>) {
    && NoRepeats(reports) && Elements(reports) <= VerifierReports(e) && written <= VerifierRejections(e)
    && forall r :: r in written ==> exists s :: s in reports && s.candidateId == r.candidateId
  }

  /** On resume such a store counts as complete exactly when every report is there, with or without its
      rejection. */
  lemma VerifierCountsAsComplete(e: Environment, reports: seq<VerifierReport>, written: set<Rejection>)
    requires WellFormed(e) && InsideVerifier(e, reports, written)
    ensures ReviewStageComplete(Ids(CriticAccepted(e)), set r | r in reports :: r.candidateId, RejectionsAt(e, 6) + written, VerifierStage) == Success(true)
      <==> Elements(reports) == VerifierReports(e)
  {
    hide WellFormed, CriticAccepted, VerifierReportOf, RejectionsAt, RejectedIds, ReviewStageComplete, VerifierRejections, DistinctIds;
    var ids := set r | r in reports :: r.candidateId;
    VerdictsWrittenAreReported(e, reports, written);
    CriticIdsDiffer(e);
    var complete := ReviewStageComplete(Ids(CriticAccepted(e)), ids, RejectionsAt(e, 6) + written, VerifierStage);
    forall c ensures VerifierReportOf(e, c).candidateId == c.candidateId {
      ReportNamesCandidate(e, c);
    }
    if Elements(reports) == VerifierReports(e) {
      forall c | c in CriticAccepted(e) ensures c.candidateId in ids {
        assert VerifierReportOf(e, c) in Elements(reports);
      }
    }
    if Ids(CriticAccepted(e)) <= ids {
      forall c | c in CriticAccepted(e) ensures VerifierReportOf(e, c) in Elements(reports) {
        assert c.candidateId in ids;
        var r :| r in reports && r.candidateId == c.candidateId;
        assert r in Elements(reports);
        var d :| d in CriticAccepted(e) && r == VerifierReportOf(e, d);
        SameIdSame(CriticAccepted(e), c, d);
      }
    }
  }

  lemma VerdictsWrittenAreReported(e: Environment, reports: seq<VerifierReport>, written: set<Rejection>)
    requires InsideVerifier(e, reports, written)
    ensures RejectedIds(RejectionsAt(e, 6) + written, VerifierStage) <= set r | r in reports :: r.candidateId
  {
    hide RejectionsAt, VerifierReports, VerifierRejections;
    IdsOfUnion(RejectionsAt(e, 6), written, VerifierStage);
    VerifierTables(e, 6);
  }

  /** Of the candidates that the critic lets through, the merged ones are on record before the verifier. */
  lemma MergedAreOnRecordStill(e: Environment, c: Candidate)
    requires WellFormed(e) && c in CriticAccepted(e)
    ensures OnRecord(RejectionsAt(e, 6), c.candidateId) <==> c.candidateId !in Ids(Canonical(e))
  {
    hide WellFormed, CriticAccepted, ExecutorAccepted, Canonical, CriticReports, CriticRejections, Reported, Reviewed, RejectionsAt, OnRecord, ReviewOf;
    var d, r := OriginOf(e, c);
    ReportedIsAccepted(e, d, r);
    MergedAreOnRecord(e, d);
    RecordsOfCritic(e, c.candidateId);
    CanonicalById(e, d);
    if d in Canonical(e) {
      CanonicalIsReported(e, d);
      OneReport(e, d, r, CanonicalReport(e, d));
      AcceptedHasNoRejection(e, d);
    }
  }

  lemma RecordsOfCritic(e: Environment, id: string)
    ensures OnRecord(RejectionsAt(e, 6), id) <==> OnRecord(RejectionsAt(e, 4), id) || OnRecord(CriticRejections(e), id)
  {
    hide ExecutorRejectionsUpTo, DedupRejections, CriticRejections, VerifierRejections, ReconcilerRejections, ExecutorAccepted;
    assert RejectionsAt(e, 6) == RejectionsAt(e, 4) + CriticRejections(e);
  }

  lemma CanonicalById(e: Environment, c: Candidate)
    requires WellFormed(e) && c in ExecutorAccepted(e)
    ensures c.candidateId in Ids(Canonical(e)) <==> c in Canonical(e)
  {
    hide WellFormed, ExecutorAccepted, Canonical, DistinctIds;
    ExecutedIdsDiffer(e);
    if c.candidateId in Ids(Canonical(e)) {
      var d :| d in Canonical(e) && d.candidateId == c.candidateId;
      CanonicalAreAccepted(e, d);
      SameIdSame(ExecutorAccepted(e), c, d);
    }
  }

  lemma AcceptedHasNoRejection(e: Environment, c: Candidate)
    requires WellFormed(e) && c in Canonical(e) && ReviewOf(e, c).accepted
    ensures !OnRecord(CriticRejections(e), c.candidateId)
  {
    hide WellFormed, Canonical, ReviewOf, DistinctIds;
    CanonicalIdsDiffer(e);
    if OnRecord(CriticRejections(e), c.candidateId) {
      var d :| d in Canonical(e) && !ReviewOf(e, d).accepted && d.candidateId == c.candidateId;
      SameIdSame(Canonical(e), c, d);
    }
  }

  /** Resumed from a store that counts as complete, the run drops a candidate without any record exactly
      when it was never merged, is refused, and its rejection was not written. */
  lemma VerifierDropsExactly(e: Environment, byId: map<string, Candidate>, candidates: seq<Candidate>, reports: seq<VerifierReport>,
                             written: set<Rejection>, c: Candidate)
    requires WellFormed(e) && MapsIds(byId, candidates) && Elements(candidates) == CriticAccepted(e)
    requires InsideVerifier(e, reports, written) && Elements(reports) == VerifierReports(e) && c in CriticAccepted(e)
    ensures ReportsKnown(byId, AsVerdicts(reports))
    ensures !Carried(AcceptedBy(byId, AsVerdicts(reports)), c.candidateId) && !OnRecord(RejectionsAt(e, 6) + written, c.candidateId)
      <==> c.candidateId in Ids(Canonical(e)) && !VerifierReportOf(e, c).accepted && VerifierRejection(e, c) !in written
  {
    hide WellFormed, MapsIds, CriticAccepted, VerifierReportOf, VerifierReports, VerifierRejections, RejectionsAt, Canonical, AcceptedBy, ReportsKnown;
    ReplayedVerdicts(e, byId, candidates, reports);
    ReplayedVerified(e, byId, candidates, reports);
    CarriedByVerdict(e, AcceptedBy(byId, AsVerdicts(reports)), c);
    MergedAreOnRecordStill(e, c);
    VerdictWrittenFor(e, reports, written, c);
  }

  lemma CarriedByVerdict(e: Environment, accepted: seq<Candidate>, c: Candidate)
    requires WellFormed(e) && Elements(accepted) == VerifierAccepted(e) && c in CriticAccepted(e)
    ensures Carried(accepted, c.candidateId) <==> VerifierReportOf(e, c).accepted
  {
    hide WellFormed, CriticAccepted, VerifierReportOf, DistinctIds;
    CriticIdsDiffer(e);
    if Carried(accepted, c.candidateId) {
      var x :| x in accepted && x.candidateId == c.candidateId;
      assert x in Elements(accepted);
      SameIdSame(CriticAccepted(e), c, x);
    }
    if VerifierReportOf(e, c).accepted {
      assert c in VerifierAccepted(e);
      assert c in accepted;
    }
  }

  lemma VerdictWrittenFor(e: Environment, reports: seq<VerifierReport>, written: set<Rejection>, c: Candidate)
    requires WellFormed(e) && InsideVerifier(e, reports, written) && c in CriticAccepted(e)
    ensures OnRecord(written, c.candidateId) <==> VerifierRejection(e, c) in written
  {
    hide WellFormed, CriticAccepted, VerifierReports, VerifierReportOf, DistinctIds;
    if OnRecord(written, c.candidateId) {
      var r :| r in written && r.candidateId == c.candidateId;
      var d :| d in CriticAccepted(e) && !VerifierReportOf(e, d).accepted && r == VerifierRejection(e, d);
      CriticIdsDiffer(e);
      SameIdSame(CriticAccepted(e), c, d);
    }
  }

  ghost predicate VerdictsOnRecord(reports: seq<VerifierReport>, rejections: set<Rejection>) {
    forall r :: r in reports && !r.accepted ==> OnRecord(rejections, r.candidateId)
  }

  /** So nobody is dropped without a record exactly when every refusing report has a rejection of its
      candidate. */
  lemma VerifierDropsNobodyExactly(e: Environment, byId: map<string, Candidate>, candidates: seq<Candidate>, reports: seq<VerifierReport>,
                                   written: set<Rejection>)
    requires WellFormed(e) && MapsIds(byId, candidates) && Elements(candidates) == CriticAccepted(e)
    requires InsideVerifier(e, reports, written) && Elements(reports) == VerifierReports(e)
    ensures ReportsKnown(byId, AsVerdicts(reports))
    ensures (forall c :: c in CriticAccepted(e) && !Carried(AcceptedBy(byId, AsVerdicts(reports)), c.candidateId)
                         ==> OnRecord(RejectionsAt(e, 6) + written, c.candidateId))
      <==> VerdictsOnRecord(reports, RejectionsAt(e, 6) + written)
  {
    hide WellFormed, MapsIds, CriticAccepted, VerifierReportOf, VerifierReports, RejectionsAt, OnRecord, Carried, AcceptedBy, ReportsKnown, InsideVerifier,
      VerifierAccepted;
    var rejections := RejectionsAt(e, 6) + written;
    ReplayedVerdicts(e, byId, candidates, reports) by {
      ReportsOnce(e, reports, written);
    }
    ReplayedVerified(e, byId, candidates, reports) by {
      ReportsOnce(e, reports, written);
    }
    var accepted := AcceptedBy(byId, AsVerdicts(reports));
    forall c | c in CriticAccepted(e) && !Carried(accepted, c.candidateId)
      ensures exists r :: r in reports && !r.accepted && r.candidateId == c.candidateId
    {
      CarriedByVerdict(e, accepted, c);
      VerifierReportListed(e, c);
      ReportNamesCandidate(e, c);
      assert VerifierReportOf(e, c) in Elements(reports);
      assert VerifierReportOf(e, c) in reports;
    }
    forall r | r in reports && !r.accepted
      ensures exists c :: c in CriticAccepted(e) && c.candidateId == r.candidateId && !Carried(accepted, c.candidateId)
    {
      assert r in Elements(reports);
      var c := VerifierReportOwner(e, byId, candidates, r);
      CarriedByVerdict(e, accepted, c);
    }
  }

  lemma ReportsOnce(e: Environment, reports: seq<VerifierReport>, written: set<Rejection>)
    requires InsideVerifier(e, reports, written)
    ensures NoRepeats(reports)
  {
    hide VerifierReports, VerifierRejections;
  }
}
