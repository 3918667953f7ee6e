/** orchestrator/service.py: a run that may be interrupted at any stage boundary and inside dedup, and
    resumed. */
module Orchestrator {
  import opened Wrappers
  import opened Contracts
  import opened Sorting
  import opened Dedup
  import opened DedupRecords
  import opened Reconciliation
  import opened ReconciliationAccounting
  import opened AuditStores
  import opened PipelineSpec
  import opened ReadBacks
  import opened Replays
  import opened ExecutorSteps
  import opened DedupSteps
  import opened CriticMirrors
  import opened CriticReplays
  import opened VerifierReplays
  import opened ReconcilerSteps

  /** The key `(category, field_name, start_char, end_char, data_point_id)` of the report's order */
  predicate PointLess(a: DataPoint, b: DataPoint) {
    if a.category != b.category then Less(a.category, b.category)
    else if a.fieldName != b.fieldName then Less(a.fieldName, b.fieldName)
    else if a.span.startChar != b.span.startChar then a.span.startChar < b.span.startChar
    else if a.span.endChar != b.span.endChar then a.span.endChar < b.span.endChar
    else Less(a.dataPointId, b.dataPointId)
  }

  /** Points with different ids are totally ordered. */
  lemma PointsOrderAll(points: seq<DataPoint>)
    requires PointIdsDiffer(points)
    ensures OrdersAll(PointLess, Elements(points)) && NoRepeats(points)
  {
    hide Less;
    forall a ensures !PointLess(a, a) {
      LessIsStrict(a.dataPointId);
    }
    forall a, b | a in points && b in points && a != b ensures PointLess(a, b) || PointLess(b, a) {
      var i :| 0 <= i < |points| && points[i] == a;
      var j :| 0 <= j < |points| && points[j] == b;
      LessIsTotal(a.category, b.category);
      LessIsTotal(a.fieldName, b.fieldName);
      LessIsTotal(a.dataPointId, b.dataPointId);
    }
    forall a, b, c | PointLess(a, b) && PointLess(b, c) ensures PointLess(a, c) {
      PointLessIsTransitive(a, b, c);
    }
  }

  lemma PointLessIsTransitive(a: DataPoint, b: DataPoint, c: DataPoint)
    requires PointLess(a, b) && PointLess(b, c)
    ensures PointLess(a, c)
  {
    hide Less;
    NotBoth(a.category, b.category);
    NotBoth(a.fieldName, b.fieldName);
    if Less(a.category, b.category) && Less(b.category, c.category) {
      LessIsTransitive(a.category, b.category, c.category);
    }
    if Less(a.fieldName, b.fieldName) && Less(b.fieldName, c.fieldName) {
      LessIsTransitive(a.fieldName, b.fieldName, c.fieldName);
    }
    if Less(a.dataPointId, b.dataPointId) && Less(b.dataPointId, c.dataPointId) {
      LessIsTransitive(a.dataPointId, b.dataPointId, c.dataPointId);
    }
  }

  /** The data points of the report of an uninterrupted run. */
  ghost function FinalReport(e: Environment): seq<DataPoint> {
    Sort(PointsOf(e), PointLess)
  }

  lemma PointsDiffer(e: Environment)
    requires WellFormed(e)
    ensures PointIdsDiffer(PointsOf(e))
  {
    hide WellFormed, VerifierAccepted, KeptPoints, ValidContext, GroupsOk, PointIdsDiffer;
    RepliesAreValid(e);
    var x, b := ContextOf(e, VerifierAccepted(e)), e.reply(VerifierAccepted(e));
    NoPoints();
    if ValidContext(x) && GroupsOk(x, b.groups) {
      KeptPointsDiffer(x, b.groups);
    }
  }

  lemma NoPoints()
    ensures PointIdsDiffer([])
  {
  }

  /** `write_report`, as far as the data points go: their order does not depend on where they came from. */
  method OrderForReport(e: Environment, points: seq<DataPoint>) returns (report: seq<DataPoint>)
    requires WellFormed(e) && Elements(points) == Elements(PointsOf(e)) && NoRepeats(points)
    ensures report == FinalReport(e)
  {
    hide WellFormed, PointsOf, Less, Sort, PointIdsDiffer, PointLess;
    PointsDiffer(e);
    PointsOrderAll(PointsOf(e));
    SortIsOrderBlind(PointsOf(e), points, PointLess);
    report := Sort(points, PointLess);
  }

  function Contributors(points: seq<DataPoint>): set<string> {
    set p, id | p in points && id in p.contributorIds :: id
  }

  /** Every verified candidate is accounted for by the recorded reconciliation. */
  lemma ReconciledIsComplete(e: Environment, points: seq<DataPoint>)
    requires WellFormed(e) && Reconcilable(e) && Elements(points) == Elements(PointsOf(e))
    ensures Ids(VerifierAccepted(e)) <= Contributors(points) + RejectedIds(ReconcilerRejections(e), ReconcilerStage)
  {
    hide WellFormed, VerifierAccepted, KeptPoints, ContextOf, RejectionFor, ValidContext, ValidGroup, GroupKnown;
    var x, b := ContextOf(e, VerifierAccepted(e)), e.reply(VerifierAccepted(e));
    RepliesAreValid(e);
    forall id | id in Ids(VerifierAccepted(e))
      ensures id in Contributors(points) || id in RejectedIds(ReconcilerRejections(e), ReconcilerStage)
    {
      ContextHasId(e, VerifierAccepted(e), id);
      RepliesAreKnown(x, b);
      EveryCandidateIsAccounted(x, b, id);
      if Contributes(KeptPoints(x, b.groups), id) {
        var k :| 0 <= k < |KeptPoints(x, b.groups)| && id in KeptPoints(x, b.groups)[k].contributorIds;
        assert KeptPoints(x, b.groups)[k] in Elements(PointsOf(e));
        assert KeptPoints(x, b.groups)[k] in Elements(points);
      } else {
        assert Rejection(id, ReconcilerStage, RejectionFor(x, b, id).value) in RejectionsOf(x, b);
      }
    }
  }

  lemma ContextHasId(e: Environment, cs: set<Candidate>, id: string)
    requires id in Ids(cs)
    ensures ValidContext(ContextOf(e, cs)) && id in ContextOf(e, cs).byId
  {
    hide VerifierReportOf;
    forall i | i in Ids(cs) ensures WithId(cs, i).candidateId == i {
      ChosenById(cs, i);
    }
  }

  lemma RepliesAreKnown(x: Context, b: Batch)
    requires ValidBatch(b) && BatchKnown(x, b)
    ensures GroupsOk(x, b.groups)
  {
    hide ValidGroup, GroupKnown;
  }

  lemma ReconcilerCompleteness(e: Environment, k: nat, points: seq<DataPoint>)
    requires WellFormed(e) && 8 <= k <= LastBoundary(e) && Elements(points) == StoreAt(e, k).dataPoints
    ensures var complete := ReconcilerComplete(Ids(VerifierAccepted(e)), Contributors(points), points != [], RejectionsAt(e, k));
      && complete == Success(k >= 9 || VerifierAccepted(e) == {})
      && (k >= 9 || VerifierAccepted(e) == {} ==>
            StoreAt(e, k).dataPoints == Elements(PointsOf(e)) && StoreAt(e, k) == StoreAt(e, Max(k, 9)) && Reconcilable(e))
  {
    hide WellFormed, VerifierAccepted, PointsOf, StoreAt, RejectionsAt, ReconcilerRejections, RejectedIds, Reconcilable, Contributors;
    ReconcilerTables(e, k);
    NoIdsOfNone(VerifierAccepted(e));
    NoElements(points);
    if VerifierAccepted(e) == {} {
      NothingToReconcile(e);
    } else if k >= 9 {
      ReconciledIsComplete(e, points);
      NothingContributed(points);
    }
  }

  lemma NothingContributed(points: seq<DataPoint>)
    ensures points == [] ==> Contributors(points) == {}
  {
  }

  /** The reconciler step from any boundary after the verifier; absent when the reconciler raises. */
  method ReconcilerStep(e: Environment, store: AuditStore, candidates: seq<Candidate>, ghost k: nat) returns (r: Option<seq<DataPoint>>)
    requires WellFormed(e) && Elements(candidates) == VerifierAccepted(e) && IdsDiffer(candidates)
    requires ViewsHold(e) && store.Valid() && 8 <= k <= LastBoundary(e) && store.Contents() == StoreAt(e, k)
    modifies store
    ensures store.Valid() && (r.Some? <==> Reconcilable(e))
    ensures store.Contents() == StoreAt(e, if r.Some? then Max(k, 9) else k)
    ensures r.Some? ==> Elements(r.value) == Elements(PointsOf(e)) && NoRepeats(r.value)
  {
    hide WellFormed, VerifierAccepted, PointsOf, StoreAt, RejectionsAt, RejectedIds, Reconcilable, Contributors, IdsDiffer, ReconcilerComplete, LastBoundary, PointHolds, DedupPart,
      ViewsHold, AuditStore.Valid, AuditStore.Contents;
    ReconcilerTables(e, k);
    BoundaryOfReconciler(e, k);
    StoredPointsHold(e);
    RejectionsHold(e, k, {}) by {
      NoPart(e, k);
    }
    var listed := store.ListDataPoints();
    assert listed.Some?;
    var found := store.ListRejections();
    assert found.Some?;
    var points, rejections := listed.value, found.value;
    var expected := set c | c in candidates :: c.candidateId;
    assert expected == Ids(VerifierAccepted(e)) by {
      assert forall c :: c in candidates <==> c in Elements(candidates);
    }
    ReconcilerCompleteness(e, k, points);
    var complete := ReconcilerComplete(expected, Contributors(points), points != [], Elements(rejections));
    assert complete.Success?;
    if complete.value {
      return Some(points);
    }
    r := ReconcileCandidates(e, store, candidates);
    PointsDiffer(e);
    PointsOrderAll(PointsOf(e));
  }

  lemma StoredPointsHold(e: Environment)
    ensures Reconcilable(e) ==> forall p :: p in PointsOf(e) ==> PointHolds(p)
  {
    hide PointsFor, VerifierAccepted, PointHolds, BatchKnown, ContextOf;
  }

  lemma BoundaryOfReconciler(e: Environment, k: nat)
    requires k <= LastBoundary(e)
    ensures (k <= 2 || IdentitiesHold(e)) && (k <= 6 || ViewsHold(e)) && (k <= 8 || Reconcilable(e))
  {
    hide Reconcilable, ViewsHold, IdentitiesHold;
  }

  datatype Outcome = Interrupted | Failed | Completed(report: seq<DataPoint>)

  function Min(a: nat, b: nat): nat {
    if a <= b then a else b
  }

  lemma MarksReject(e: Environment, k: nat)
    ensures RejectionsAt(e, Max(k, 1)) == RejectionsAt(e, Max(k, 2)) && RejectionsAt(e, Max(k, 3)) == RejectionsAt(e, Max(k, 4))
    ensures RejectionsAt(e, Max(k, 5)) == RejectionsAt(e, Max(k, 6)) && RejectionsAt(e, Max(k, 7)) == RejectionsAt(e, Max(k, 8))
    ensures RejectionsAt(e, Max(k, 9)) == RejectionsAt(e, Max(k, 10))
  {
    hide ExecutorRejectionsUpTo, DedupRejections, CriticRejections, VerifierRejections, ReconcilerRejections, ExecutorAccepted;
  }

  /** `ensure_stage_completed` leads from an odd boundary to the next. */
  lemma Marked(e: Environment, k: nat)
    ensures StoreAt(e, Max(k, 1)).(stages := StoreAt(e, Max(k, 1)).stages + {ExecutorStage}) == StoreAt(e, Max(k, 2))
    ensures StoreAt(e, Max(k, 3)).(stages := StoreAt(e, Max(k, 3)).stages + {DedupStage}) == StoreAt(e, Max(k, 4))
    ensures StoreAt(e, Max(k, 5)).(stages := StoreAt(e, Max(k, 5)).stages + {CriticStage}) == StoreAt(e, Max(k, 6))
    ensures StoreAt(e, Max(k, 7)).(stages := StoreAt(e, Max(k, 7)).stages + {VerifierStage}) == StoreAt(e, Max(k, 8))
    ensures StoreAt(e, Max(k, 9)).(stages := StoreAt(e, Max(k, 9)).stages + {ReconcilerStage}) == StoreAt(e, Max(k, 10))
  {
    hide Executed, CriticReports, VerifierReports, PointsOf, RejectionsAt;
    MarksReject(e, k);
  }

  /** Where an attempt is interrupted. */
  datatype Stop = AtBoundary(boundary: nat) | InsideDedup(writes: nat)

  function BoundaryOf(stop: Stop): nat {
    match stop
    case AtBoundary(k) => k
    case InsideDedup(_) => 2
  }

  /** The executor's mark leads from boundary 1 to 2, whatever dedup has recorded. */
  lemma MarkedWith(e: Environment, k: nat, part: set<Rejection>)
    ensures StoreWith(e, Max(k, 1), part).(stages := StoreWith(e, Max(k, 1), part).stages + {ExecutorStage}) == StoreWith(e, Max(k, 2), part)
  {
    hide Executed, CriticReports, VerifierReports, PointsOf, RejectionsAt;
    MarksReject(e, k);
  }

  /** From boundary 3 on the store holds all that dedup records. */
  lemma NothingLeftOver(e: Environment, k: nat, part: set<Rejection>)
    requires DedupPart(e, k, part)
    ensures StoreWith(e, k, {}) == StoreAt(e, k) && forall m: nat :: DedupPart(e, m, {})
    ensures k >= 3 ==> StoreWith(e, k, part) == StoreAt(e, k)
    ensures forall m: nat :: k <= m ==> DedupPart(e, m, part)
  {
    hide ExecutorRejectionsUpTo, CriticRejections, VerifierRejections, ReconcilerRejections, DedupRejections, ExecutorAccepted, Executed,
      CriticReports, VerifierReports, PointsOf;
  }

  /** How far the first half of an attempt gets. */
  datatype Progress = Halted | Raised | Continues

  /** The first half of the run: executor and dedup, as far as `stop` lets them. */
  method RunFirstHalf(e: Environment, store: AuditStore, stop: Stop, ghost j: nat, ghost part: set<Rejection>)
    returns (progress: Progress, executed: seq<Candidate>, canonical: seq<Candidate>, merged: map<string, string>, duplicates: seq<Candidate>,
             ghost now: set<Rejection>)
    requires WellFormed(e) && store.Valid() && DedupPart(e, j, part) && store.Contents() == StoreWith(e, j, part)
    requires j > 2 ==> IdentitiesHold(e)
    modifies store
    ensures progress == FirstHalfOf(e, stop)
    ensures store.Valid() && store.Contents() == StoreWith(e, Max(j, Min(BoundaryOf(stop), FirstHalfEnd(e))), now)
    ensures DedupPart(e, Max(j, Min(BoundaryOf(stop), FirstHalfEnd(e))), now)
    ensures progress == Continues ==> Elements(executed) == ExecutorAccepted(e) && NoRepeats(executed)
    ensures progress == Continues ==> Deduplicated(ExecutorAccepted(e), canonical, merged, e.normalize) && NoRepeats(canonical)
    ensures progress == Continues ==> NoRepeats(duplicates) && Elements(duplicates) == set c | c in ExecutorAccepted(e) && c.candidateId in merged
  {
    hide WellFormed, StoreAt, StoreWith, DedupPart, RejectionsAt, ExecutorAccepted, Deduplicated, AuditStore.Valid, AuditStore.Contents, NoRepeats, DedupRejections,
      IdentitiesHold;
    progress, executed, canonical, merged, duplicates, now := Halted, [], [], map[], [], part;
    if stop == AtBoundary(0) {
      return;
    }
    NothingLeftOver(e, j, part);
    MarkedWith(e, j, part);
    Marked(e, j);
    var existing, accepted, rejected := ExecutorStep(e, store, j, part);
    if stop == AtBoundary(1) {
      return;
    }
    store.EnsureStageCompleted(ExecutorStage);
    if stop == AtBoundary(2) {
      return;
    }
    var raised;
    if stop.InsideDedup? {
      raised, now := InterruptedDedup(e, store, existing, accepted, stop.writes, j, part);
      progress := if raised then Raised else Halted;
      return;
    }
    executed := accepted;
    raised, canonical, merged, duplicates := DedupStep(e, store, existing, accepted, j, part);
    if raised {
      progress := Raised;
      return;
    }
    now := {};
    NothingLeftOver(e, Max(j, 3), {});
    NothingLeftOver(e, Max(j, 4), {});
    if stop == AtBoundary(3) {
      return;
    }
    store.EnsureStageCompleted(DedupStage);
    progress := if stop.boundary > 4 then Continues else Halted;
  }

  ghost function FirstHalfOf(e: Environment, stop: Stop): Progress {
    if stop.AtBoundary? && stop.boundary <= 2 then Halted
    else if !IdentitiesHold(e) then Raised
    else if BoundaryOf(stop) <= 4 then Halted
    else Continues
  }

  ghost function FirstHalfEnd(e: Environment): nat {
    if IdentitiesHold(e) then 4 else 2
  }

  /** The second half: critic, verifier, reconciler and report, from boundary 4 on. */
  method RunSecondHalf(e: Environment, store: AuditStore, executed: seq<Candidate>, canonical: seq<Candidate>, merged: map<string, string>,
                       duplicates: seq<Candidate>, stop: nat, ghost k: nat) returns (r: Outcome)
    requires WellFormed(e) && Elements(executed) == ExecutorAccepted(e) && NoRepeats(executed)
    requires Deduplicated(ExecutorAccepted(e), canonical, merged, e.normalize) && NoRepeats(canonical)
    requires NoRepeats(duplicates) && Elements(duplicates) == set c | c in ExecutorAccepted(e) && c.candidateId in merged
    requires store.Valid() && stop > 4 && 4 <= k <= LastBoundary(e) && store.Contents() == StoreAt(e, k)
    modifies store
    ensures store.Valid() && store.Contents() == StoreAt(e, SecondHalfEnd(e, stop, k))
    ensures r == SecondHalfOf(e, stop, k)
  {
    hide WellFormed, StoreAt, RejectionsAt, ExecutorAccepted, AuditStore.Valid, AuditStore.Contents, NoRepeats, CriticAccepted, CriticReports,
      VerifierAccepted, PointsOf, IdsDiffer, ReportIdsDiffer, Reconcilable, FinalReport, IsMergeMap, Canonical, CriticRejectedCandidates,
      VerifierRejectedCandidates, Deduplicated, ViewsHold, MirrorsHold, IdentitiesHold;
    DedupGivesMergeMap(e, canonical, merged);
    CanonicalElements(e, canonical, merged);
    Marked(e, k);
    BoundaryOfReconciler(e, k);
    var raised, accepted, rejected, reports := CriticStep(e, store, executed, canonical, merged, duplicates, k);
    if raised {
      return Failed;
    }
    if stop == 5 {
      return Interrupted;
    }
    store.EnsureStageCompleted(CriticStage);
    if stop == 6 {
      return Interrupted;
    }
    var verified, refused;
    raised, verified, refused := VerifierStep(e, store, accepted, reports, Max(k, 6));
    if raised {
      return Failed;
    }
    if stop == 7 {
      return Interrupted;
    }
    store.EnsureStageCompleted(VerifierStage);
    if stop == 8 {
      return Interrupted;
    }
    var points := ReconcilerStep(e, store, verified, Max(k, 8));
    if points.None? {
      return Failed;
    }
    if stop == 9 {
      return Interrupted;
    }
    store.EnsureStageCompleted(ReconcilerStage);
    if stop == 10 {
      return Interrupted;
    }
    var report := OrderForReport(e, points.value);
    return Completed(report);
  }

  /** What the second half returns when it may go on to boundary `stop` and finds the store of boundary
      `k`: reading invalid reports back, an invalid view and an unreconcilable reply raise. */
  ghost function SecondHalfOf(e: Environment, stop: nat, k: nat): Outcome {
    if k >= 5 && !MirrorsHold(e) then Failed
    else if stop <= 6 then Interrupted
    else if !ViewsHold(e) then Failed
    else if stop <= 8 then Interrupted
    else if !Reconcilable(e) then Failed
    else if stop <= 10 then Interrupted
    else Completed(FinalReport(e))
  }

  ghost function SecondHalfEnd(e: Environment, stop: nat, k: nat): nat {
    if k >= 5 && !MirrorsHold(e) then k else Max(k, Min(stop, LastBoundary(e)))
  }

  lemma CanonicalElements(e: Environment, canonical: seq<Candidate>, merged: map<string, string>)
    requires Deduplicated(ExecutorAccepted(e), canonical, merged, e.normalize)
    ensures Elements(canonical) == Canonical(e)
  {
    hide ExecutorAccepted, Primaries, MergedInto;
  }

  /** What an attempt returns that finds the store of boundary `j` and may go on to `stop`. */
  ghost function OutcomeOf(e: Environment, stop: Stop, j: nat): Outcome {
    match FirstHalfOf(e, stop)
    case Halted => Interrupted
    case Raised => Failed
    case Continues => SecondHalfOf(e, BoundaryOf(stop), Max(j, 4))
  }

  /** The boundary whose store it leaves. */
  ghost function Reached(e: Environment, stop: Stop, j: nat): nat {
    if FirstHalfOf(e, stop) == Continues then SecondHalfEnd(e, BoundaryOf(stop), Max(j, 4))
    else Max(j, Min(BoundaryOf(stop), FirstHalfEnd(e)))
  }

  lemma ReachedIsInRange(e: Environment, stop: Stop, j: nat)
    requires j <= LastBoundary(e)
    ensures j <= Reached(e, stop, j) <= LastBoundary(e)
    ensures LastBoundary(e) >= 6 ==> (Reached(e, stop, j) >= 5 <==> j >= 5 || BoundaryOf(stop) >= 5)
  {
    hide IdentitiesHold, ViewsHold, Reconcilable, MirrorsHold;
  }

  /** `run_extraction_pipeline` from chunks and plan on. Started from the store of any boundary `j`, with
      whatever part of dedup's rejections an interruption left there, and stopped at any boundary or
      after any of dedup's writes, it leaves the store of the later of the two, or that of the last
      boundary before it raises; stages already in the store are read back, no insertion meets a taken
      key, and no stage is found partial. */
  method RunPipeline(e: Environment, store: AuditStore, stop: Stop, ghost j: nat, ghost part: set<Rejection>)
    returns (r: Outcome, ghost now: set<Rejection>)
    requires WellFormed(e) && store.Valid() && j <= LastBoundary(e)
    requires DedupPart(e, j, part) && store.Contents() == StoreWith(e, j, part)
    modifies store
    ensures store.Valid() && DedupPart(e, Reached(e, stop, j), now) && store.Contents() == StoreWith(e, Reached(e, stop, j), now)
    ensures r == OutcomeOf(e, stop, j)
  {
    hide WellFormed, StoreAt, StoreWith, DedupPart, ExecutorAccepted, AuditStore.Valid, AuditStore.Contents, NoRepeats, Reconcilable, FinalReport, Deduplicated,
      IdentitiesHold, ViewsHold, MirrorsHold;
    BoundaryOfReconciler(e, j);
    var progress, executed, canonical, merged, duplicates;
    progress, executed, canonical, merged, duplicates, now := RunFirstHalf(e, store, stop, j, part);
    if progress == Halted {
      return Interrupted, now;
    }
    if progress == Raised {
      return Failed, now;
    }
    NothingLeftOver(e, Max(j, 4), now);
    r := RunSecondHalf(e, store, executed, canonical, merged, duplicates, BoundaryOf(stop), Max(j, 4));
    now := {};
    NothingLeftOver(e, Reached(e, stop, j), {}) by {
      NoPart(e, Reached(e, stop, j));
    }
  }

  lemma EmptyStore(e: Environment)
    ensures StoreWith(e, 0, {}) == Tables({}, {}, {}, {}, {}, {}) && DedupPart(e, 0, {})
  {
    hide Executed, CriticReports, VerifierReports, PointsOf, ExecutorRejectionsUpTo, DedupRejections, CriticRejections, VerifierRejections,
      ReconcilerRejections, ExecutorAccepted;
  }

  /** No attempt got beyond dedup. */
  predicate BeforeCritic(stops: seq<Stop>) {
    forall k :: 0 <= k < |stops| ==> BoundaryOf(stops[k]) <= 4
  }

  /** What the last attempt returns: the outcome of an uninterrupted run, unless an earlier attempt left
      critic reports that cannot be read back. */
  ghost function ResumedOutcome(e: Environment, stops: seq<Stop>): Outcome {
    if LastBoundary(e) < 10 then Failed
    else if MirrorsHold(e) || BeforeCritic(stops) then Completed(FinalReport(e))
    else Failed
  }

  lemma LastAttempt(e: Environment, stops: seq<Stop>, j: nat)
    requires j <= LastBoundary(e) && (LastBoundary(e) >= 6 ==> (j >= 5 <==> !BeforeCritic(stops)))
    ensures OutcomeOf(e, AtBoundary(11), j) == ResumedOutcome(e, stops)
  {
    hide IdentitiesHold, ViewsHold, Reconcilable, MirrorsHold, FinalReport, BeforeCritic;
  }

  /** However often a run is interrupted, at stage boundaries or between dedup's writes, and resumed, this
      is what the last attempt reports. */
  method RunWithInterruptions(e: Environment, stops: seq<Stop>) returns (r: Outcome)
    requires WellFormed(e)
    ensures r == ResumedOutcome(e, stops)
  {
    hide WellFormed, StoreAt, StoreWith, DedupPart, AuditStore.Valid, AuditStore.Contents, LastBoundary, Reached, OutcomeOf, ResumedOutcome;
    var store := new AuditStore();
    EmptyStore(e);
    ghost var j: nat, part := 0, {};
    for i := 0 to |stops|
      invariant fresh(store) && store.Valid() && j <= LastBoundary(e)
      invariant DedupPart(e, j, part) && store.Contents() == StoreWith(e, j, part)
      invariant LastBoundary(e) >= 6 ==> (j >= 5 <==> !BeforeCritic(stops[..i]))
    {
      assert stops[..i + 1] == stops[..i] + [stops[i]];
      ReachedIsInRange(e, stops[i], j);
      var attempt;
      attempt, part := RunPipeline(e, store, stops[i], j, part);
      j := Reached(e, stops[i], j);
    }
    assert stops[..|stops|] == stops;
    LastAttempt(e, stops, j);
    r, part := RunPipeline(e, store, AtBoundary(11), j, part);
  }
}
