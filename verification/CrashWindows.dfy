/** What a resumed run makes of a store that an interruption left inside a stage. */
module CrashWindows {
  import opened Wrappers
  import opened Contracts
  import opened Sorting
  import opened CriticCorrections
  import opened VerifierPolicies
  import opened Dedup
  import opened AuditStores
  import opened PipelineSpec
  import opened PipelineFacts
  import opened Replays
  import opened ExecutorSteps
  import opened CriticSteps
  import opened CriticMirrors
  import opened CriticReviews
  import opened CriticReplays
  import opened VerifierSteps
  import opened VerifierReplays

  /** A stage whose reports cover part of what is expected is refused exactly when the part is proper. */
  lemma PartialStage(expected: set<string>, reported: set<string>, rejections: set<Rejection>, stage: Stage)
    requires reported <= expected && RejectedIds(rejections, stage) <= reported
    ensures ReviewStageComplete(expected, reported, rejections, stage).Failure? <==> reported != {} && reported != expected
  {
    hide RejectedIds;
    SomeMember(reported);
    SomeMember(expected - reported);
    Overlap(expected, reported);
  }

  lemma SameIds(all: set<Candidate>, part: set<Candidate>)
    requires DistinctIds(all) && part <= all
    ensures Ids(part) <= Ids(all) && (Ids(part) == Ids(all) <==> part == all) && (Ids(part) == {} <==> part == {})
  {
    NoIdsOfNone(part);
    if Ids(part) == Ids(all) {
      forall c | c in all ensures c in part {
        assert c.candidateId in Ids(part);
      }
    }
  }

  /** Interrupted after some but not all verdicts, the verifier is refused on resume rather than taken
      for complete; with none or all of them it is not. */
  lemma PartialVerifierIsRefused(e: Environment, cs: seq<Candidate>)
    requires WellFormed(e) && Elements(cs) <= CriticAccepted(e)
    ensures var reported := set r | r in AfterVerdicts(e, cs).verifierReports :: r.candidateId;
      ReviewStageComplete(Ids(CriticAccepted(e)), reported, AfterVerdicts(e, cs).rejections, VerifierStage).Failure?
      <==> Elements(cs) != {} && Elements(cs) != CriticAccepted(e)
  {
    hide WellFormed, CriticAccepted, AfterVerdicts, ReviewStageComplete, RejectedIds, DistinctIds, Ids;
    var reported := set r | r in AfterVerdicts(e, cs).verifierReports :: r.candidateId;
    VerdictIds(e, cs);
    CriticIdsDiffer(e);
    SameIds(CriticAccepted(e), Elements(cs));
    PartialStage(Ids(CriticAccepted(e)), reported, AfterVerdicts(e, cs).rejections, VerifierStage);
  }

  lemma VerdictIds(e: Environment, cs: seq<Candidate>)
    ensures (set r | r in AfterVerdicts(e, cs).verifierReports :: r.candidateId) == Ids(Elements(cs))
    ensures RejectedIds(AfterVerdicts(e, cs).rejections, VerifierStage) <= Ids(Elements(cs))
  {
    hide VerifierReportOf, StoreAt, RejectionsAt;
    forall c ensures VerifierReportOf(e, c).candidateId == c.candidateId {
      ReportNamesCandidate(e, c);
    }
    forall c | c in cs ensures VerifierReportOf(e, c) in Elements(VerdictsOf(e, cs)) {
      var i :| 0 <= i < |cs| && cs[i] == c;
      assert VerdictsOf(e, cs)[i] == VerifierReportOf(e, c);
    }
    VerifierTables(e, 6);
    IdsOfUnion(RejectionsAt(e, 6), RefusalsOf(e, cs), VerifierStage);
  }

  /** The same for the critic, interrupted among the canonical candidates. */
  lemma PartialCriticIsRefused(e: Environment, cs: seq<Candidate>)
    requires WellFormed(e) && Elements(cs) <= Canonical(e)
    ensures var reported := set r | r in AfterReviews(e, cs).criticReports :: r.candidateId;
      ReviewStageComplete(Ids(Canonical(e)), reported, AfterReviews(e, cs).rejections, CriticStage).Failure?
      <==> Elements(cs) != {} && Elements(cs) != Canonical(e)
  {
    hide WellFormed, Canonical, AfterReviews, ReviewStageComplete, RejectedIds, DistinctIds, Ids;
    var reported := set r | r in AfterReviews(e, cs).criticReports :: r.candidateId;
    ReviewIds(e, cs);
    CanonicalIdsDiffer(e);
    SameIds(Canonical(e), Elements(cs));
    PartialStage(Ids(Canonical(e)), reported, AfterReviews(e, cs).rejections, CriticStage);
  }

  lemma ReviewIds(e: Environment, cs: seq<Candidate>)
    ensures (set r | r in AfterReviews(e, cs).criticReports :: r.candidateId) == Ids(Elements(cs))
    ensures RejectedIds(AfterReviews(e, cs).rejections, CriticStage) <= Ids(Elements(cs))
  {
    hide ReviewOf, StoreAt, RejectionsAt;
    ReviewTables(e, cs);
    forall c | c in cs ensures CanonicalReport(e, c) in Elements(ReportsOf(e, cs)) {
      var i :| 0 <= i < |cs| && cs[i] == c;
      assert ReportsOf(e, cs)[i] == CanonicalReport(e, c);
    }
    CriticTables(e, 4);
    IdsOfUnion(RejectionsAt(e, 4), RejectionsOfAll(e, cs), CriticStage);
  }

  // Between the canonical reports and their mirrored copies

  /** The reports of a store that holds every canonical report and only `part` of the mirrored ones. */
  ghost predicate LostMirrors(e: Environment, reports: seq<CriticReport>, part: set<CriticReport>) {
    part <= MirroredReports(e) && Elements(reports) == CanonicalReports(e) + part && NoRepeats(reports)
  }

  /** Completeness looks at canonical candidates only: such a store counts as complete. */
  lemma LostMirrorsGoUnnoticed(e: Environment, reports: seq<CriticReport>, part: set<CriticReport>, rejections: set<Rejection>)
    requires LostMirrors(e, reports, part)
    ensures ReviewStageComplete(Ids(Canonical(e)), set r | r in reports :: r.candidateId, rejections, CriticStage) == Success(true)
  {
    hide Canonical, MirroredReports, ReviewOf, ReviewStageComplete;
    forall c | c in Canonical(e) ensures c.candidateId in set r | r in reports :: r.candidateId {
      assert CanonicalReport(e, c) in Elements(reports);
    }
    var complete := ReviewStageComplete(Ids(Canonical(e)), set r | r in reports :: r.candidateId, rejections, CriticStage);
  }

  /** What is then read back is the live result exactly when no lost copy was of an accepting report. A
      merged candidate whose accepting copy was lost leaves the run with no critic, verifier or
      reconciler rejection, only with the record of its merge. */
  lemma LostMirrorsDropCandidates(e: Environment, byId: map<string, Candidate>, executed: seq<Candidate>, reports: seq<CriticReport>, part: set<CriticReport>)
    requires WellFormed(e) && MapsIds(byId, executed) && Elements(executed) == ExecutorAccepted(e)
    requires LostMirrors(e, reports, part) && ReportsKnown(byId, reports)
    ensures Elements(AcceptedBy(byId, reports)) == CriticAccepted(e) <==>
      forall r :: r in MirroredReports(e) && r.review.accepted ==> r in part
  {
    hide WellFormed, MapsIds, ExecutorAccepted, MirroredReports, CanonicalReports, CriticAccepted, AcceptedBy, Reviewed, Reported;
    AcceptedByElements(byId, reports);
    if Elements(AcceptedBy(byId, reports)) == CriticAccepted(e) {
      forall r | r in MirroredReports(e) && r.review.accepted ensures r in part {
        AcceptedCopyWasKept(e, byId, executed, reports, part, r);
      }
    }
    if forall r :: r in MirroredReports(e) && r.review.accepted ==> r in part {
      forall x ensures x in AcceptedBy(byId, reports) <==> x in CriticAccepted(e) {
        if x in AcceptedBy(byId, reports) {
          var k :| 0 <= k < |reports| && reports[k].review.accepted && Reviewed(byId[reports[k].candidateId], reports[k].review) == x;
          assert reports[k] in Elements(reports);
          var c := ReportOwner(e, byId, executed, reports[k]);
          AcceptedBecause(e, c, reports[k]);
        }
        if x in CriticAccepted(e) {
          var c, r := OriginOf(e, x);
          ReportedKeepsOrigin(e, c, r);
          assert r in Elements(reports);
          var k :| 0 <= k < |reports| && reports[k] == r;
          var d := ReportOwner(e, byId, executed, r);
          ExecutedIdsDiffer(e);
          SameAcceptedId(e, c, d, r, r);
        }
      }
    }
  }

  /** An accepting copy whose candidate is read back was not lost. */
  lemma AcceptedCopyWasKept(e: Environment, byId: map<string, Candidate>, executed: seq<Candidate>, reports: seq<CriticReport>,
                            part: set<CriticReport>, r: CriticReport)
    requires WellFormed(e) && MapsIds(byId, executed) && Elements(executed) == ExecutorAccepted(e)
    requires LostMirrors(e, reports, part) && ReportsKnown(byId, reports)
    requires Elements(AcceptedBy(byId, reports)) == CriticAccepted(e)
    requires r in MirroredReports(e) && r.review.accepted
    ensures r in part
  {
    hide WellFormed, MapsIds, ExecutorAccepted, CriticAccepted, AcceptedBy, Reviewed, Reported, CanonicalReports, MirroredReports;
    var c := ReportOwner(e, byId, executed, r);
    AcceptedBecause(e, c, r);
    var x := Reviewed(c, r.review);
    assert x in Elements(AcceptedBy(byId, reports));
    AcceptedByElements(byId, reports);
    var k :| 0 <= k < |reports| && reports[k].review.accepted && Reviewed(byId[reports[k].candidateId], reports[k].review) == x;
    assert reports[k] in Elements(reports);
    var d := ReportOwner(e, byId, executed, reports[k]);
    ExecutedIdsDiffer(e);
    SameAcceptedId(e, c, d, r, reports[k]);
    OneReport(e, c, r, reports[k]);
    var d', p := MirroredFor(e, r);
    MirroredIsNotCanonical(e, d', p);
  }

  lemma MirroredFor(e: Environment, r: CriticReport) returns (c: Candidate, p: Candidate)
    requires r in MirroredReports(e)
    ensures Merged(e, c, p) && r == MirroredReport(e, c, p)
  {
    hide ExecutorAccepted, Merged, MirroredReport;
    c, p :| c in ExecutorAccepted(e) && p in ExecutorAccepted(e) && Merged(e, c, p) && r == MirroredReport(e, c, p);
  }

  lemma MirroredIsNotCanonical(e: Environment, c: Candidate, p: Candidate)
    requires WellFormed(e) && Merged(e, c, p)
    ensures MirroredReport(e, c, p) !in CanonicalReports(e)
  {
    hide WellFormed, ExecutorAccepted, Canonical, Merged, ReviewOf, MirrorReview;
    var r := MirroredReport(e, c, p);
    MergedAreInput(e, c, p);
    CanonicalIsNotMerged(e, c, p);
    if r in CanonicalReports(e) {
      var d :| d in Canonical(e) && r == CanonicalReport(e, d);
      CanonicalAreAccepted(e, d);
      ExecutedIdsDiffer(e);
      SameId(ExecutorAccepted(e), c, d);
    }
  }
}
