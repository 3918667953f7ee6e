/** What the later stages record of the candidates that a resumed run carries on, and so who is lost in its
    final store. */
module FinalRecords {
  import opened Wrappers
  import opened Contracts
  import opened Sorting
  import opened CriticCorrections
  import opened VerifierPolicies
  import opened Dedup
  import opened Reconciliation
  import opened ReconciliationAccounting
  import opened AuditStores
  import opened PipelineSpec
  import opened PipelineFacts
  import opened Replays
  import opened CriticReplays
  import opened VerifierReplays
  import opened ReconcilerSteps
  import opened Orchestrator
  import opened SilentDrops

  // Verifier and reconciler on any candidates; on those of the reference run they are its stages

  ghost function PassedOn(e: Environment, carried: set<Candidate>): set<Candidate> {
    set c | c in carried && VerifierReportOf(e, c).accepted
  }

  ghost function RefusedOn(e: Environment, carried: set<Candidate>): set<Rejection> {
    set c | c in carried && !VerifierReportOf(e, c).accepted :: VerifierRejection(e, c)
  }

  ghost function PointsOn(e: Environment, verified: set<Candidate>): seq<DataPoint> {
    if verified == {} then [] else PointsFor(ContextOf(e, verified), e.reply(verified))
  }

  ghost function UngroupedOn(e: Environment, verified: set<Candidate>): set<Rejection> {
    if verified == {} then {} else RejectionsFor(ContextOf(e, verified), e.reply(verified))
  }

  /** The reply on these candidates names no others. */
  ghost predicate Known(e: Environment, verified: set<Candidate>) {
    verified == {} || BatchKnown(ContextOf(e, verified), e.reply(verified))
  }

  lemma ReferenceStages(e: Environment)
    ensures PassedOn(e, CriticAccepted(e)) == VerifierAccepted(e) && RefusedOn(e, CriticAccepted(e)) == VerifierRejections(e)
    ensures PointsOn(e, VerifierAccepted(e)) == PointsOf(e) && UngroupedOn(e, VerifierAccepted(e)) == ReconcilerRejections(e)
  {
    hide CriticAccepted, VerifierReportOf, PointsFor, RejectionsFor, ContextOf;
  }

  /** Each verified candidate contributes or is rejected, and nobody else is. */
  lemma ReconciledExactly(e: Environment, verified: set<Candidate>, id: string)
    requires WellFormed(e) && Known(e, verified)
    ensures id in Ids(verified) <==> id in Contributors(PointsOn(e, verified)) || OnRecord(UngroupedOn(e, verified), id)
  {
    hide WellFormed, KeptPoints, ContextOf, RejectionFor, ValidContext, ValidGroup, GroupKnown, Ids, PointOf, BatchKnown, GroupsOk;
    var x, b := ContextOf(e, verified), e.reply(verified);
    RepliesAreValid(e);
    if verified == {} {
      NobodyHasId(id);
    } else {
      RepliesAreKnown(x, b);
      KnownIds(e, verified);
      if id in Ids(verified) {
        EveryCandidateIsAccounted(x, b, id);
        if Contributes(KeptPoints(x, b.groups), id) {
          var k :| 0 <= k < |KeptPoints(x, b.groups)| && id in KeptPoints(x, b.groups)[k].contributorIds;
          assert KeptPoints(x, b.groups)[k] in PointsOn(e, verified);
        } else {
          assert Rejection(id, ReconcilerStage, RejectionFor(x, b, id).value) in RejectionsOf(x, b);
        }
      }
      if id in Contributors(PointsOn(e, verified)) {
        var p :| p in KeptPoints(x, b.groups) && id in p.contributorIds;
        ContributorIsKnown(x, b.groups, p, id);
      }
    }
  }

  lemma NobodyHasId(id: string)
    ensures id !in Ids({})
  {
  }

  lemma KnownIds(e: Environment, verified: set<Candidate>)
    ensures ContextOf(e, verified).byId.Keys == Ids(verified) && ValidContext(ContextOf(e, verified))
  {
    hide VerifierReportOf;
    forall id | id in Ids(verified) ensures WithId(verified, id).candidateId == id {
      ChosenById(verified, id);
    }
  }

  lemma ContributorIsKnown(x: Context, groups: seq<Group>, p: DataPoint, id: string)
    requires ValidContext(x) && GroupsOk(x, groups) && p in KeptPoints(x, groups) && id in p.contributorIds
    ensures id in x.byId
  {
    hide ValidContext, KeptPoints, ValidGroup, BestSource, LeastConfidence, Spans;
    PointsComeFromGroups(x, groups, p);
  }

  /** The final store of a run that carried `carried` on from a store with the rejections `before` has
      neither a data point of the id nor a rejection. */
  ghost predicate Lost(e: Environment, carried: set<Candidate>, before: set<Rejection>, id: string) {
    && id !in Contributors(PointsOn(e, PassedOn(e, carried)))
    && !OnRecord(before + RefusedOn(e, carried) + UngroupedOn(e, PassedOn(e, carried)), id)
  }

  /** Whoever is carried on is accounted for in the end, and whoever is not is lost unless on record. */
  lemma LostExactly(e: Environment, carried: set<Candidate>, before: set<Rejection>, id: string)
    requires WellFormed(e) && Known(e, PassedOn(e, carried))
    ensures Lost(e, carried, before, id) <==> id !in Ids(carried) && !OnRecord(before, id)
  {
    hide WellFormed, Known, PointsOn, UngroupedOn, Contributors, VerifierReportOf;
    var passed := PassedOn(e, carried);
    ReconciledExactly(e, passed, id);
    RefusedExactly(e, carried, id);
    RecordOfUnion(before, RefusedOn(e, carried), UngroupedOn(e, passed), id);
  }

  lemma RefusedExactly(e: Environment, carried: set<Candidate>, id: string)
    ensures id in Ids(carried) <==> id in Ids(PassedOn(e, carried)) || OnRecord(RefusedOn(e, carried), id)
  {
    hide VerifierReportOf;
    if id in Ids(carried) {
      var c :| c in carried && c.candidateId == id;
      if VerifierReportOf(e, c).accepted {
        assert c in PassedOn(e, carried);
      } else {
        assert VerifierRejection(e, c) in RefusedOn(e, carried);
      }
    }
  }

  lemma RecordOfUnion(a: set<Rejection>, b: set<Rejection>, c: set<Rejection>, id: string)
    ensures OnRecord(a + b + c, id) <==> OnRecord(a, id) || OnRecord(b, id) || OnRecord(c, id)
  {
  }

  lemma CarriedIds(accepted: seq<Candidate>, id: string)
    ensures Carried(accepted, id) <==> id in Ids(Elements(accepted))
  {
    if Carried(accepted, id) {
      var x :| x in accepted && x.candidateId == id;
      assert x in Elements(accepted);
    }
  }

  /** Resumed from a store that an interruption left inside the critic and that counts as complete, the
      run loses nobody in its final store exactly when every stored refusing report has a rejection. */
  lemma CriticLosesNobodyExactly(e: Environment, byId: map<string, Candidate>, executed: seq<Candidate>, reports: seq<CriticReport>,
                                 written: set<Rejection>)
    requires WellFormed(e) && MapsIds(byId, executed) && Elements(executed) == ExecutorAccepted(e)
    requires InsideCritic(e, reports, written) && CanonicalReports(e) <= Elements(reports) && ReportsKnown(byId, reports)
    requires Known(e, PassedOn(e, Elements(AcceptedBy(byId, reports))))
    ensures (forall c :: c in ExecutorAccepted(e) ==> !Lost(e, Elements(AcceptedBy(byId, reports)), RejectionsAt(e, 4) + written, c.candidateId))
      <==> RefusalsOnRecord(reports, RejectionsAt(e, 4) + written)
  {
    hide WellFormed, MapsIds, ExecutorAccepted, InsideCritic, CanonicalReports, AcceptedBy, Known, PassedOn, Lost, RejectionsAt, OnRecord, Carried,
      RefusalsOnRecord, Ids, ReportsKnown;
    var accepted, before := AcceptedBy(byId, reports), RejectionsAt(e, 4) + written;
    CriticDropsNobodyExactly(e, byId, executed, reports, written);
    forall id ensures Lost(e, Elements(accepted), before, id) <==> !Carried(accepted, id) && !OnRecord(before, id) {
      LostExactly(e, Elements(accepted), before, id);
      CarriedIds(accepted, id);
    }
  }

  /** The same of the final store after an interruption inside the verifier. */
  ghost predicate LostAfterVerifier(e: Environment, verified: set<Candidate>, before: set<Rejection>, id: string) {
    id !in Contributors(PointsOn(e, verified)) && !OnRecord(before + UngroupedOn(e, verified), id)
  }

  lemma LostAfterVerifierExactly(e: Environment, verified: set<Candidate>, before: set<Rejection>, id: string)
    requires WellFormed(e) && Known(e, verified)
    ensures LostAfterVerifier(e, verified, before, id) <==> id !in Ids(verified) && !OnRecord(before, id)
  {
    hide WellFormed, Known, PointsOn, UngroupedOn, Contributors;
    ReconciledExactly(e, verified, id);
    RecordOfUnion(before, {}, UngroupedOn(e, verified), id);
    assert before + {} + UngroupedOn(e, verified) == before + UngroupedOn(e, verified);
  }

  lemma VerifierLosesNobodyExactly(e: Environment, byId: map<string, Candidate>, candidates: seq<Candidate>, reports: seq<VerifierReport>,
                                   written: set<Rejection>)
    requires WellFormed(e) && MapsIds(byId, candidates) && Elements(candidates) == CriticAccepted(e)
    requires InsideVerifier(e, reports, written) && Elements(reports) == VerifierReports(e) && ReportsKnown(byId, AsVerdicts(reports))
    requires Known(e, Elements(AcceptedBy(byId, AsVerdicts(reports))))
    ensures (forall c :: c in CriticAccepted(e) ==>
                           !LostAfterVerifier(e, Elements(AcceptedBy(byId, AsVerdicts(reports))), RejectionsAt(e, 6) + written, c.candidateId))
      <==> VerdictsOnRecord(reports, RejectionsAt(e, 6) + written)
  {
    hide WellFormed, MapsIds, CriticAccepted, InsideVerifier, VerifierReports, AcceptedBy, Known, LostAfterVerifier, RejectionsAt, OnRecord, Carried,
      VerdictsOnRecord, Ids, ReportsKnown;
    var accepted, before := AcceptedBy(byId, AsVerdicts(reports)), RejectionsAt(e, 6) + written;
    VerifierDropsNobodyExactly(e, byId, candidates, reports, written);
    forall id ensures LostAfterVerifier(e, Elements(accepted), before, id) <==> !Carried(accepted, id) && !OnRecord(before, id) {
      LostAfterVerifierExactly(e, Elements(accepted), before, id);
      CarriedIds(accepted, id);
    }
  }

  // Inside the reconciler, which records its data points and then its rejections

  /** What an interruption left: the first `k` data points, and rejections only behind all of them. */
  ghost predicate InsideReconciler(e: Environment, k: nat, written: set<Rejection>) {
    k <= |PointsOf(e)| && written <= ReconcilerRejections(e) && (written != {} ==> k == |PointsOf(e)|)
  }

  ghost predicate MissingContribute(e: Environment, written: set<Rejection>) {
    forall r :: r in ReconcilerRejections(e) - written ==> r.candidateId in Contributors(PointsOf(e))
  }

  /** On resume such a store counts as not begun exactly when nothing was written, and as complete exactly
      when all data points were and every missing rejection is of a candidate that contributes to one;
      otherwise it is refused. So no interruption inside the reconciler loses a candidate. */
  lemma PartialReconcilerIsRefused(e: Environment, k: nat, written: set<Rejection>)
    requires WellFormed(e) && Reconcilable(e) && VerifierAccepted(e) != {} && InsideReconciler(e, k, written)
    ensures var points := PointsOf(e)[..k];
      var complete := ReconcilerComplete(Ids(VerifierAccepted(e)), Contributors(points), points != [], RejectionsAt(e, 8) + written);
      && (complete == Success(false) <==> k == 0 && written == {})
      && (complete == Success(true) <==> (k > 0 || written != {}) && k == |PointsOf(e)| && MissingContribute(e, written))
  {
    hide WellFormed, Reconcilable, VerifierAccepted, PointsOf, ReconcilerRejections, RejectionsAt, Contributors, MissingContribute, RejectedIds, Ids;
    var expected, points := Ids(VerifierAccepted(e)), PointsOf(e)[..k];
    WrittenIds(e, written);
    if k < |PointsOf(e)| {
      var id := MissingPoint(e, k);
    } else {
      assert points == PointsOf(e);
      CoveredExactly(e, written);
      NoIdsOfNone(VerifierAccepted(e));
      assert (points == []) == (k == 0);
    }
  }

  lemma WrittenIds(e: Environment, written: set<Rejection>)
    requires written <= ReconcilerRejections(e)
    ensures forall id :: id in RejectedIds(RejectionsAt(e, 8) + written, ReconcilerStage) <==> OnRecord(written, id)
    ensures RejectedIds(RejectionsAt(e, 8) + written, ReconcilerStage) == {} <==> written == {}
  {
    hide ReconcilerRejections, RejectionsAt;
    ReconcilerTables(e, 8);
    forall r | r in written ensures r.candidateId in RejectedIds(RejectionsAt(e, 8) + written, ReconcilerStage) {
    }
  }

  /** A contributor of the first missing data point contributes to no earlier one. */
  lemma MissingPoint(e: Environment, k: nat) returns (id: string)
    requires WellFormed(e) && Reconcilable(e) && k < |PointsOf(e)|
    ensures id in Ids(VerifierAccepted(e)) && id !in Contributors(PointsOf(e)[..k])
  {
    hide WellFormed, VerifierAccepted, KeptPoints, ContextOf, ValidContext, ValidGroup, GroupKnown, PointHolds, BatchKnown, Ids, PointOf;
    var x, b := ContextOf(e, VerifierAccepted(e)), e.reply(VerifierAccepted(e));
    RepliesAreValid(e);
    RepliesAreKnown(x, b);
    KnownIds(e, VerifierAccepted(e));
    var p := PointsOf(e)[k];
    assert p in PointsOf(e);
    ContributorsAreDisjoint(x, b.groups);
    id := FirstContributor(p);
    ContributorIsKnown(x, b.groups, p, id);
    forall q | q in PointsOf(e)[..k] ensures id !in q.contributorIds {
      var i :| 0 <= i < k && PointsOf(e)[i] == q;
      assert Elements(q.contributorIds) !! Elements(p.contributorIds);
      assert id in Elements(p.contributorIds) && (id in q.contributorIds ==> id in Elements(q.contributorIds));
    }
  }

  lemma FirstContributor(p: DataPoint) returns (id: string)
    requires PointHolds(p)
    ensures id in p.contributorIds
  {
    id := p.contributorIds[0];
  }

  lemma CoveredExactly(e: Environment, written: set<Rejection>)
    requires WellFormed(e) && Reconcilable(e) && VerifierAccepted(e) != {} && written <= ReconcilerRejections(e)
    ensures (forall id :: id in Ids(VerifierAccepted(e)) ==> id in Contributors(PointsOf(e)) || OnRecord(written, id)) <==> MissingContribute(e, written)
  {
    hide WellFormed, Reconcilable, VerifierAccepted, PointsOf, ReconcilerRejections, Contributors, Ids;
    ReferenceStages(e);
    KnownIsPartOfReconcilable(e);
    forall id ensures id in Ids(VerifierAccepted(e)) <==> id in Contributors(PointsOf(e)) || OnRecord(ReconcilerRejections(e), id) {
      ReconciledExactly(e, VerifierAccepted(e), id);
    }
    OneRejectionEach(e);
  }

  lemma KnownIsPartOfReconcilable(e: Environment)
    requires Reconcilable(e)
    ensures Known(e, VerifierAccepted(e))
  {
    hide VerifierAccepted, BatchKnown, ContextOf, PointsOf;
  }

  lemma OneRejectionEach(e: Environment)
    ensures forall r, s :: r in ReconcilerRejections(e) && s in ReconcilerRejections(e) && r.candidateId == s.candidateId ==> r == s
  {
    hide VerifierAccepted, ContextOf, RejectionFor, GroupsOk;
  }
}
