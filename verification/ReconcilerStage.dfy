/** reconciler/service.py and the reconciler step of the orchestrator. */
module ReconcilerSteps {
  import opened Wrappers
  import opened Contracts
  import opened Sorting
  import opened Dedup
  import opened DedupRecords
  import opened Reconciliation
  import opened ReconciliationAccounting
  import opened AuditStores
  import opened PipelineSpec
  import opened PipelineFacts
  import opened CandidateBuilding
  import opened CandidateViews
  import opened Replays
  import opened ExecutorSteps

  predicate PointIdsDiffer(points: seq<DataPoint>) {
    forall i, j :: 0 <= i < j < |points| ==> points[i].dataPointId != points[j].dataPointId
  }

  /** Data points have disjoint contributors, hence different seeds, hence different digests. */
  lemma KeptPointsDiffer(x: Context, groups: seq<Group>)
    requires ValidContext(x) && GroupsOk(x, groups)
    requires forall a, b :: x.digest(a) == x.digest(b) ==> a == b
    ensures PointIdsDiffer(KeptPoints(x, groups))
  {
    hide KeptPoints, ValidContext, GroupsOk, PointOf, ValidGroup, GroupKnown;
    ContributorsAreDisjoint(x, groups);
    var points := KeptPoints(x, groups);
    forall i, j | 0 <= i < j < |points| ensures points[i].dataPointId != points[j].dataPointId {
      PointsComeFromGroups(x, groups, points[i]);
      PointsComeFromGroups(x, groups, points[j]);
      var g :| g in groups && ValidGroup(g) && GroupKnown(x, g) && points[i] == PointOf(x, g);
      var h :| h in groups && ValidGroup(h) && GroupKnown(x, h) && points[j] == PointOf(x, h);
      DisjointPointsDiffer(x, g, h);
    }
  }

  lemma DisjointPointsDiffer(x: Context, g: Group, h: Group)
    requires ValidContext(x) && ValidGroup(g) && GroupKnown(x, g) && ValidGroup(h) && GroupKnown(x, h)
    requires forall a, b :: x.digest(a) == x.digest(b) ==> a == b
    requires Elements(PointOf(x, g).contributorIds) !! Elements(PointOf(x, h).contributorIds)
    ensures PointOf(x, g).dataPointId != PointOf(x, h).dataPointId
  {
    hide PointOf;
    assert g.sourceId in Elements(g.contributorIds);
    if PointOf(x, g).dataPointId == PointOf(x, h).dataPointId {
      SameDigest(x, g, h);
    }
  }

  lemma SameDigest(x: Context, g: Group, h: Group)
    requires ValidContext(x) && ValidGroup(g) && GroupKnown(x, g) && ValidGroup(h) && GroupKnown(x, h)
    requires forall a, b :: x.digest(a) == x.digest(b) ==> a == b
    requires PointOf(x, g).dataPointId == PointOf(x, h).dataPointId
    ensures g.contributorIds == h.contributorIds
    ensures PointOf(x, g).contributorIds == g.contributorIds && PointOf(x, h).contributorIds == h.contributorIds
  {
    hide BestSource, LeastConfidence, Spans;
  }

  /** The dictionary of verified candidates is the reference one. */
  lemma SameContext(e: Environment, candidates: seq<Candidate>, byId: map<string, Candidate>)
    requires IdsDiffer(candidates) && MapsIds(byId, candidates)
    ensures byId == map id | id in Ids(Elements(candidates)) :: WithId(Elements(candidates), id)
  {
    hide WithId;
    forall id | id in Ids(Elements(candidates)) ensures byId[id] == WithId(Elements(candidates), id) {
      ChosenById(Elements(candidates), id);
      var c := WithId(Elements(candidates), id);
      assert c in candidates;
    }
  }

  lemma ChosenById(cs: set<Candidate>, id: string)
    requires id in Ids(cs)
    ensures WithId(cs, id) in cs && WithId(cs, id).candidateId == id
  {
  }

  /** The context that the service builds from its dictionaries. */
  function BuildContext(e: Environment, byId: map<string, Candidate>): Context {
    Context(e.plan, byId, map id | id in byId :: VerifierReportOf(e, byId[id]).alignmentScore, e.rank, e.digest)
  }

  lemma BuiltContextIs(e: Environment, candidates: seq<Candidate>, byId: map<string, Candidate>)
    requires IdsDiffer(candidates) && MapsIds(byId, candidates)
    ensures BuildContext(e, byId) == ContextOf(e, Elements(candidates)) && ValidContext(BuildContext(e, byId))
  {
    hide WithId, VerifierReportOf;
    SameContext(e, candidates, byId);
    forall id | id in byId ensures byId[id].candidateId == id {
      assert id in Ids(Elements(candidates));
      ChosenById(Elements(candidates), id);
    }
  }

  ghost function AfterPoints(e: Environment, points: seq<DataPoint>, rejections: seq<Rejection>): Tables {
    StoreAt(e, 8).(dataPoints := Elements(points), rejections := RejectionsAt(e, 8) + Elements(rejections))
  }

  lemma ReconcilerTables(e: Environment, k: nat)
    ensures StoreAt(e, k).dataPoints == If(k >= 9, Elements(PointsOf(e))) && StoreAt(e, k).rejections == RejectionsAt(e, k)
    ensures RejectedIds(RejectionsAt(e, k), ReconcilerStage) == If(k >= 9, RejectedIds(ReconcilerRejections(e), ReconcilerStage))
    ensures forall r :: r in RejectionsAt(e, 8) ==> r.stage != ReconcilerStage
    ensures StoreAt(e, 9) == StoreAt(e, 8).(dataPoints := Elements(PointsOf(e)), rejections := RejectionsAt(e, 8) + ReconcilerRejections(e))
    ensures AllOfStage(ReconcilerRejections(e), ReconcilerStage)
  {
    hide ExecutorRejectionsUpTo, DedupRejections, CriticRejections, VerifierRejections, ReconcilerRejections, ExecutorAccepted,
      CriticReports, VerifierReports, PointsOf, Executed;
    RejectedIdsAt(e, k);
    RejectionStages(e);
  }

  /** The loops that record data points and rejections. */
  method RecordReconciliation(e: Environment, store: AuditStore, points: seq<DataPoint>, rejections: seq<Rejection>)
    requires store.Valid() && store.Contents() == StoreAt(e, 8) && PointIdsDiffer(points)
    requires forall i, j :: 0 <= i < j < |rejections| ==> Less(rejections[i].candidateId, rejections[j].candidateId)
    requires AllOfStage(Elements(rejections), ReconcilerStage)
    modifies store
    ensures store.Valid() && store.Contents() == AfterPoints(e, points, rejections)
  {
    hide StoreAt, RejectionsAt, Less;
    ReconcilerTables(e, 8);
    for i := 0 to |points|
      invariant store.Valid() && store.Contents() == AfterPoints(e, points[..i], [])
    {
      assert points[..i + 1] == points[..i] + [points[i]];
      AppendNew(points[..i], points[i]);
      var recorded := store.RecordDataPoint(points[i]);
      assert recorded;
    }
    assert points[..|points|] == points;
    for i := 0 to |rejections|
      invariant store.Valid() && store.Contents() == AfterPoints(e, points, rejections[..i])
    {
      var r := rejections[i];
      assert rejections[..i + 1] == rejections[..i] + [r] && r in Elements(rejections);
      AppendNew(rejections[..i], r);
      NotAmongEarlier(rejections, i);
      var recorded := store.RecordRejection(r);
      assert recorded;
    }
    assert rejections[..|rejections|] == rejections;
  }

  /** `reconcile_candidates`: it raises exactly when the reply names unknown candidates or makes a data
      point that fails its validator, and then nothing has been recorded. */
  method ReconcileCandidates(e: Environment, store: AuditStore, candidates: seq<Candidate>) returns (r: Option<seq<DataPoint>>)
    requires WellFormed(e) && ViewsHold(e) && Elements(candidates) == VerifierAccepted(e) && IdsDiffer(candidates)
    requires store.Valid() && store.Contents() == StoreAt(e, 8)
    modifies store
    ensures store.Valid() && (r.Some? <==> Reconcilable(e))
    ensures store.Contents() == StoreAt(e, if r.Some? then 9 else 8)
    ensures r.Some? ==> r.value == PointsOf(e)
  {
    hide WellFormed, VerifierAccepted, StoreAt, RejectionsAt, IdsDiffer, MapsIds, BuildContext, ContextOf, ValidContext, BatchKnown, KeptPoints,
      RejectionsOf, GroupsOk, ValidBatch, Less, AuditStore.Valid, AuditStore.Contents, PointIdsDiffer, ViewsHold, ViewHolds, AllPointsHold, ViewIdsDiffer;
    ReconcilerTables(e, 8);
    if candidates == [] {
      NoElements(candidates);
      NothingToReconcile(e);
      return Some([]);
    }
    NoElements(candidates);
    VerifiedHaveViews(e, candidates);
    var views := BuildCandidateViewMap(candidates, e.viewId);
    assert views.Some?;
    var byId := CandidateMap(candidates);
    BuiltContextIs(e, candidates, byId.value);
    RepliesAreValid(e);
    var x := BuildContext(e, byId.value);
    var batch := e.reply(Elements(candidates));
    var built := BuildReconciliationResult(x, batch);
    if built.None? {
      return None;
    }
    ContextDigest(e, byId.value);
    KeptPointsDiffer(x, batch.groups);
    assert Elements(built.value.1) == ReconcilerRejections(e);
    RecordReconciliation(e, store, built.value.0, built.value.1);
    return Some(built.value.0);
  }

  lemma VerifiedHaveViews(e: Environment, candidates: seq<Candidate>)
    requires WellFormed(e) && ViewsHold(e) && Elements(candidates) == VerifierAccepted(e)
    ensures (forall c :: c in candidates ==> ViewHolds(c)) && NoCollision(candidates, e.viewId)
  {
    hide CriticAccepted, VerifierReportOf, ViewHolds, OfPlan, FitForReview, ExecutorBuilt, EvidenceHolds, ValidBatch;
    forall c | c in candidates ensures ViewHolds(c) {
      assert c in Elements(candidates);
    }
  }

  lemma RepliesAreValid(e: Environment)
    requires WellFormed(e)
    ensures forall s :: ValidBatch(e.reply(s))
    ensures forall a, b :: e.digest(a) == e.digest(b) ==> a == b
  {
    hide ValidBatch, OfPlan, FitForReview;
  }

  lemma ContextDigest(e: Environment, byId: map<string, Candidate>)
    ensures BuildContext(e, byId).digest == e.digest
  {
  }

  lemma NothingToReconcile(e: Environment)
    requires VerifierAccepted(e) == {}
    ensures PointsOf(e) == [] && ReconcilerRejections(e) == {} && Reconcilable(e) && StoreAt(e, 8) == StoreAt(e, 9)
  {
    hide VerifierAccepted, VerifierReports, CriticReports, ExecutorRejectionsUpTo, DedupRejections, CriticRejections, VerifierRejections,
      Executed, ExecutorAccepted;
  }
}
