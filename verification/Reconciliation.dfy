/** reconciler/materialization.py: a reply that groups and rejects candidates becomes data points and
    rejections. */
module Reconciliation {
  import opened Wrappers
  import opened Contracts
  import opened Sorting
  import opened VerifierPolicies
  import opened DedupRecords

  datatype Group = Group(sourceId: string, contributorIds: seq<string>)

  datatype Batch = Batch(groups: seq<Group>, rejected: seq<(string, ReasonCode)>)

  /** What the validators of a batch check. */
  predicate ValidGroup(g: Group) {
    g.sourceId in g.contributorIds && NoRepeats(g.contributorIds)
  }

  predicate ValidBatch(b: Batch) {
    && (forall g :: g in b.groups ==> ValidGroup(g))
    && forall i, j :: 0 <= i < j < |b.rejected| ==> b.rejected[i].0 != b.rejected[j].0
  }

  /** What a data point id digests, besides the run and the document. */
  datatype PointSeed = PointSeed(category: string, fieldName: string, value: string, sourceId: string,
                                 contributorIds: seq<string>, startChar: nat, endChar: nat, text: string)

  datatype DataPoint = DataPoint(dataPointId: string, docId: string, category: string, fieldName: string, value: string, span: SourceSpan,
                                 confidence: real, contributorIds: seq<string>, supportingSpans: seq<SourceSpan>,
                                 normalization: Normalization)

  /** What the fields and the validator of a data point check; identifiers are never blank. */
  predicate PointHolds(p: DataPoint) {
    && NonBlank(p.category) && NonBlank(p.fieldName) && NonBlank(p.value) && FilledNormalization(p.normalization)
    && p.contributorIds != [] && p.span.docId == p.docId && ValidNormalization(p.value, p.normalization)
  }

  /** The candidates by id, their alignment scores, the specificity rank without its id component, and
      the digest that names data points. */
  datatype Context = Context(plan: Plan, byId: map<string, Candidate>, alignment: map<string, real>,
                             rank: Candidate -> seq<int>, digest: PointSeed -> string)

  predicate ValidContext(x: Context) {
    forall id :: id in x.byId ==> x.byId[id].candidateId == id && id in x.alignment
  }

  predicate GroupKnown(x: Context, g: Group) {
    g.sourceId in x.byId && forall id :: id in g.contributorIds ==> id in x.byId
  }

  /** `_validate_output_candidate_ids` raises nothing. */
  predicate BatchKnown(x: Context, b: Batch) {
    && (forall g :: g in b.groups ==> GroupKnown(x, g))
    && forall r :: r in b.rejected ==> r.0 in x.byId
  }

  /** Tuple comparison. */
  predicate TupleLess(a: seq<int>, b: seq<int>) {
    b != [] && (a == [] || a[0] < b[0] || (a[0] == b[0] && TupleLess(a[1..], b[1..])))
  }

  /** `candidate_source_specificity_rank(a) < candidate_source_specificity_rank(b)` */
  predicate RankLess(x: Context, a: Candidate, b: Candidate) {
    TupleLess(x.rank(a), x.rank(b)) || (x.rank(a) == x.rank(b) && Less(a.candidateId, b.candidateId))
  }

  /** One tuple precedes another exactly when it is a proper prefix or smaller at the first difference. */
  lemma {:induction false} TupleLessExactly(a: seq<int>, b: seq<int>)
    ensures TupleLess(a, b) <==> a < b || exists k :: 0 <= k < |a| && k < |b| && TupleDiffersFirst(a, b, k) && a[k] < b[k]
  {
    if a != [] && b != [] {
      var s, t := a[1..], b[1..];
      TupleLessExactly(s, t);
      assert a == [a[0]] + s && b == [b[0]] + t;
      if a[0] == b[0] {
        forall k | 0 <= k < |s| && k < |t| ensures TupleDiffersFirst(s, t, k) <==> TupleDiffersFirst(a, b, k + 1) {
          assert a[..k + 1] == [a[0]] + s[..k] && b[..k + 1] == [b[0]] + t[..k];
          assert s[..k] == a[..k + 1][1..] && t[..k] == b[..k + 1][1..];
        }
        if k :| 0 <= k < |s| && k < |t| && TupleDiffersFirst(s, t, k) && s[k] < t[k] {
          assert TupleDiffersFirst(a, b, k + 1) && a[k + 1] < b[k + 1];
        }
        if k :| 0 <= k < |a| && k < |b| && TupleDiffersFirst(a, b, k) && a[k] < b[k] {
          assert k > 0 && TupleDiffersFirst(s, t, k - 1) && s[k - 1] < t[k - 1];
        }
      } else {
        assert a[..0] == b[..0];
        assert TupleDiffersFirst(a, b, 0);
        forall k | 0 < k < |a| && k < |b| ensures !TupleDiffersFirst(a, b, k) {
          assert a[..k][0] != b[..k][0];
        }
      }
    }
  }

  predicate TupleDiffersFirst(a: seq<int>, b: seq<int>, k: nat)
    requires k < |a| && k < |b|
  {
    a[..k] == b[..k] && a[k] != b[k]
  }

  lemma {:induction false} TupleLessIsStrict(a: seq<int>)
    ensures !TupleLess(a, a)
  {
    if a != [] {
      TupleLessIsStrict(a[1..]);
    }
  }

  lemma {:induction false} TupleLessIsTransitive(a: seq<int>, b: seq<int>, c: seq<int>)
    requires TupleLess(a, b) && TupleLess(b, c)
    ensures TupleLess(a, c)
  {
    if a != [] && a[0] == b[0] == c[0] {
      TupleLessIsTransitive(a[1..], b[1..], c[1..]);
    }
  }

  lemma {:induction false} TupleLessIsTotal(a: seq<int>, b: seq<int>)
    ensures TupleLess(a, b) || a == b || TupleLess(b, a)
  {
    if a != [] && b != [] && a[0] == b[0] {
      TupleLessIsTotal(a[1..], b[1..]);
      assert a[1..] == b[1..] ==> a == [a[0]] + a[1..] == b;
    }
  }

  lemma RankLessIsTransitive(x: Context, a: Candidate, b: Candidate, c: Candidate)
    requires RankLess(x, a, b) && RankLess(x, b, c)
    ensures RankLess(x, a, c)
  {
    hide TupleLess, Less;
    if TupleLess(x.rank(a), x.rank(b)) && TupleLess(x.rank(b), x.rank(c)) {
      TupleLessIsTransitive(x.rank(a), x.rank(b), x.rank(c));
    }
    if Less(a.candidateId, b.candidateId) && Less(b.candidateId, c.candidateId) {
      LessIsTransitive(a.candidateId, b.candidateId, c.candidateId);
    }
  }

  lemma RankLessIsStrict(x: Context, a: Candidate)
    ensures !RankLess(x, a, a)
  {
    hide TupleLess, Less;
    TupleLessIsStrict(x.rank(a));
    LessIsStrict(a.candidateId);
  }

  lemma RankLessIsTotal(x: Context, a: Candidate, b: Candidate)
    requires a.candidateId != b.candidateId
    ensures RankLess(x, a, b) || RankLess(x, b, a)
  {
    hide TupleLess, Less;
    TupleLessIsTotal(x.rank(a), x.rank(b));
    LessIsTotal(a.candidateId, b.candidateId);
  }

  predicate SameSlot(a: Candidate, b: Candidate) {
    a.category == b.category && a.fieldName == b.fieldName
  }

  /** The contributors in the slot of the selected source. */
  function Comparable(x: Context, source: Candidate, ids: seq<string>): (r: seq<string>)
    requires forall id :: id in ids ==> id in x.byId
    ensures forall id :: id in r <==> id in ids && SameSlot(x.byId[id], source)
  {
    if ids == [] then []
    else
      assert forall id :: id in ids <==> id in ids[..|ids| - 1] || id == ids[|ids| - 1];
      var last := ids[|ids| - 1];
      Comparable(x, source, ids[..|ids| - 1]) + if SameSlot(x.byId[last], source) then [last] else []
  }

  /** The first id of least rank. */
  function LeastRank(x: Context, ids: seq<string>): (r: string)
    requires ids != [] && forall id :: id in ids ==> id in x.byId
    ensures r in ids && forall id :: id in ids ==> !RankLess(x, x.byId[id], x.byId[r])
  {
    var last := ids[|ids| - 1];
    RankLessIsStrict(x, x.byId[last]);
    if |ids| == 1 then last
    else
      var front := LeastRank(x, ids[..|ids| - 1]);
      assert forall id :: id in ids <==> id in ids[..|ids| - 1] || id == last;
      if RankLess(x, x.byId[last], x.byId[front]) then
        NoneRanksBelow(x, ids[..|ids| - 1], front, last);
        last
      else front
  }

  lemma NoneRanksBelow(x: Context, ids: seq<string>, front: string, last: string)
    requires front in x.byId && last in x.byId && forall id :: id in ids ==> id in x.byId
    requires (forall id :: id in ids ==> !RankLess(x, x.byId[id], x.byId[front])) && RankLess(x, x.byId[last], x.byId[front])
    ensures forall id :: id in ids ==> !RankLess(x, x.byId[id], x.byId[last])
  {
    hide RankLess;
    forall id | id in ids && RankLess(x, x.byId[id], x.byId[last]) ensures false {
      RankLessIsTransitive(x, x.byId[id], x.byId[last], x.byId[front]);
    }
  }

  /** `_best_source_candidate_id` */
  function BestSource(x: Context, g: Group): (r: string)
    requires ValidGroup(g) && GroupKnown(x, g)
    ensures r in g.contributorIds && r in x.byId && SameSlot(x.byId[r], x.byId[g.sourceId])
  {
    var comparable := Comparable(x, x.byId[g.sourceId], g.contributorIds);
    assert g.sourceId in comparable;
    LeastRank(x, comparable)
  }

  /** The ids that the groups name: after the loop over the groups these are the accounted ids. */
  function Named(groups: seq<Group>): (r: set<string>) {
    if groups == [] then {}
    else Named(groups[..|groups| - 1]) + Elements(groups[|groups| - 1].contributorIds)
  }

  function ReasonWhen(b: bool, code: ReasonCode, text: string): seq<RejectionReason> {
    if b then [RejectionReason(code, Text(text))] else []
  }

  function ContributorReasons(x: Context, source: Candidate, ids: seq<string>, accounted: set<string>): seq<RejectionReason>
    requires forall id :: id in ids ==> id in x.byId
  {
    if ids == [] then []
    else
      var id := ids[|ids| - 1];
      ContributorReasons(x, source, ids[..|ids| - 1], accounted)
      + ReasonWhen(id in accounted, ReconcilerRejected, id) + ReasonWhen(!SameSlot(x.byId[id], source), SchemaViolation, id)
  }

  /** `_data_point_rejection_reasons` */
  function GroupReasons(x: Context, accounted: set<string>, g: Group): seq<RejectionReason>
    requires ValidGroup(g) && GroupKnown(x, g)
  {
    var source := x.byId[BestSource(x, g)];
    Distinct(
      ReasonWhen(source.category !in x.plan.approved, CategoryNotApproved, source.category)
      + ReasonWhen(source.category in x.plan.approved && source.fieldName !in x.plan.approved[source.category], SchemaViolation, source.fieldName)
      + ContributorReasons(x, source, g.contributorIds, accounted))
  }

  /** The group becomes a data point. */
  predicate Kept(x: Context, accounted: set<string>, g: Group)
    requires ValidGroup(g) && GroupKnown(x, g)
  {
    GroupReasons(x, accounted, g) == []
  }

  function MinReal(a: real, b: real): real {
    if a <= b then a else b
  }

  /** The least of `first` and of the confidences and alignment scores of `ids` */
  function LeastConfidence(x: Context, first: real, ids: seq<string>): (r: real)
    requires ValidContext(x) && forall id :: id in ids ==> id in x.byId
    ensures r <= first && forall id :: id in ids ==> r <= x.byId[id].confidence && r <= x.alignment[id]
    ensures r == first || exists id :: id in ids && (r == x.byId[id].confidence || r == x.alignment[id])
  {
    if ids == [] then first
    else
      var id := ids[|ids| - 1];
      assert forall i :: i in ids <==> i in ids[..|ids| - 1] || i == id;
      MinReal(LeastConfidence(x, first, ids[..|ids| - 1]), MinReal(x.byId[id].confidence, x.alignment[id]))
  }

  function Spans(x: Context, ids: seq<string>): seq<SourceSpan>
    requires forall id :: id in ids ==> id in x.byId
  {
    seq(|ids|, i requires 0 <= i < |ids| => assert ids[i] in ids; x.byId[ids[i]].span)
  }

  /** The fields of `_build_data_point`; their validation raises unless `PointHolds`. */
  function PointOf(x: Context, g: Group): DataPoint
    requires ValidContext(x) && ValidGroup(g) && GroupKnown(x, g)
  {
    var source := x.byId[BestSource(x, g)];
    var seed := PointSeed(source.category, source.fieldName, source.value, source.candidateId, g.contributorIds,
      source.span.startChar, source.span.endChar, source.span.text);
    DataPoint(x.digest(seed), x.plan.docId, source.category, source.fieldName, source.value, source.span,
      LeastConfidence(x, source.confidence, g.contributorIds), g.contributorIds, Spans(x, g.contributorIds), source.normalization)
  }

  predicate GroupsOk(x: Context, groups: seq<Group>) {
    forall g :: g in groups ==> ValidGroup(g) && GroupKnown(x, g)
  }

  /** The data points of the kept groups: those that no earlier group's ids meet, and that are uniform. */
  function KeptPoints(x: Context, groups: seq<Group>): seq<DataPoint>
    requires ValidContext(x) && GroupsOk(x, groups)
  {
    if groups == [] then []
    else
      var front, last := groups[..|groups| - 1], groups[|groups| - 1];
      KeptPoints(x, front) + if Kept(x, Named(front), last) then [PointOf(x, last)] else []
  }

  /** The reasons of the first refused group that names the id. */
  function Refusal(x: Context, groups: seq<Group>, id: string): Option<seq<RejectionReason>>
    requires GroupsOk(x, groups)
  {
    if groups == [] then None
    else
      var front, last := groups[..|groups| - 1], groups[|groups| - 1];
      NextRefusal(x, Named(front), last, Refusal(x, front, id), id)
  }

  function NextRefusal(x: Context, accounted: set<string>, g: Group, earlier: Option<seq<RejectionReason>>, id: string): Option<seq<RejectionReason>>
    requires ValidGroup(g) && GroupKnown(x, g)
  {
    if earlier.Some? then earlier
    else if id in g.contributorIds && !Kept(x, accounted, g) then Some(GroupReasons(x, accounted, g))
    else None
  }

  function RejectedWith(rejected: seq<(string, ReasonCode)>, id: string): Option<ReasonCode> {
    if rejected == [] then None
    else
      var earlier, last := RejectedWith(rejected[..|rejected| - 1], id), rejected[|rejected| - 1];
      if earlier.Some? then earlier else if last.0 == id then Some(last.1) else None
  }

  /** `_rejection_reason_for_code`; the message is fixed by the code. */
  function ReasonForCode(code: ReasonCode): RejectionReason {
    RejectionReason(code, Text(""))
  }

  const UNSELECTED := [RejectionReason(ReconcilerRejected, Text("not selected"))]

  /** Why a candidate is rejected, if it is. */
  function RejectionFor(x: Context, b: Batch, id: string): Option<seq<RejectionReason>>
    requires GroupsOk(x, b.groups)
  {
    if id in Named(b.groups) then Refusal(x, b.groups, id)
    else
      match RejectedWith(b.rejected, id)
      case Some(code) => Some([ReasonForCode(code)])
      case None => Some(UNSELECTED)
  }

  /** What the reconciler records for a batch. */
  ghost function RejectionsOf(x: Context, b: Batch): set<Rejection>
    requires GroupsOk(x, b.groups)
  {
    set id | id in x.byId && RejectionFor(x, b, id).Some? :: Rejection(id, ReconcilerStage, RejectionFor(x, b, id).value)
  }

  /** The dictionary of rejections after the groups `groups`. */
  ghost predicate RefusalsRecorded(x: Context, groups: seq<Group>, rejections: map<string, seq<RejectionReason>>)
    requires GroupsOk(x, groups)
  {
    forall id :: match Refusal(x, groups, id)
      case Some(reasons) => id in rejections && rejections[id] == reasons
      case None => id !in rejections
  }

  /** The loop body for a refused group */
  method RefuseGroup(g: Group, reasons: seq<RejectionReason>, rejections: map<string, seq<RejectionReason>>, accounted: set<string>)
    returns (r: map<string, seq<RejectionReason>>, now: set<string>)
    ensures now == accounted + Elements(g.contributorIds)
    ensures r.Keys == rejections.Keys + Elements(g.contributorIds)
    ensures forall id :: id in r ==> r[id] == if id in rejections then rejections[id] else reasons
  {
    hide Elements, NoRepeats;
    r, now := rejections, accounted;
    NoElements<string>([]);
    for k := 0 to |g.contributorIds|
      invariant now == accounted + Elements(g.contributorIds[..k])
      invariant r.Keys == rejections.Keys + Elements(g.contributorIds[..k])
      invariant forall id :: id in r ==> r[id] == if id in rejections then rejections[id] else reasons
    {
      var id := g.contributorIds[k];
      assert g.contributorIds[..k + 1] == g.contributorIds[..k] + [id];
      AppendNew(g.contributorIds[..k], id);
      if id !in r {
        r := r[id := reasons];
      }
      now := now + {id};
    }
    assert g.contributorIds[..|g.contributorIds|] == g.contributorIds;
  }

  lemma GroupsSnoc(x: Context, groups: seq<Group>, i: nat)
    requires i < |groups| && GroupsOk(x, groups)
    ensures GroupsOk(x, groups[..i]) && GroupsOk(x, groups[..i + 1]) && ValidGroup(groups[i]) && GroupKnown(x, groups[i])
    ensures Named(groups[..i + 1]) == Named(groups[..i]) + Elements(groups[i].contributorIds)
    ensures ValidContext(x) ==>
      KeptPoints(x, groups[..i + 1]) == KeptPoints(x, groups[..i]) + if Kept(x, Named(groups[..i]), groups[i]) then [PointOf(x, groups[i])] else []
    ensures forall id :: Refusal(x, groups[..i + 1], id) == NextRefusal(x, Named(groups[..i]), groups[i], Refusal(x, groups[..i], id), id)
  {
    hide ValidGroup, GroupKnown, Kept, GroupReasons, PointOf, ValidContext;
    assert groups[..i + 1][..i] == groups[..i] && groups[i] in groups;
  }

  predicate AllPointsHold(points: seq<DataPoint>) {
    forall p :: p in points ==> PointHolds(p)
  }

  /** The loop over the groups; it raises exactly when a kept group makes an invalid data point. */
  method TakeGroups(x: Context, groups: seq<Group>)
    returns (raised: bool, points: seq<DataPoint>, rejections: map<string, seq<RejectionReason>>, accounted: set<string>)
    requires ValidContext(x) && GroupsOk(x, groups)
    ensures raised <==> !AllPointsHold(KeptPoints(x, groups))
    ensures !raised ==> points == KeptPoints(x, groups) && accounted == Named(groups) && RefusalsRecorded(x, groups, rejections)
  {
    hide ValidGroup, GroupKnown, GroupReasons, PointOf, ValidContext, KeptPoints, Named, Refusal, PointHolds, RefusalsRecorded;
    raised, points, rejections, accounted := false, [], map[], {};
    NoGroups(x);
    for i := 0 to |groups|
      invariant !raised && AllPointsHold(points) && GroupsOk(x, groups[..i])
      invariant points == KeptPoints(x, groups[..i]) && accounted == Named(groups[..i])
      invariant RefusalsRecorded(x, groups[..i], rejections)
    {
      GroupsSnoc(x, groups, i);
      var g := groups[i];
      var reasons := GroupReasons(x, accounted, g);
      if reasons != [] {
        ghost var before := rejections;
        rejections, accounted := RefuseGroup(g, reasons, rejections, accounted);
        RefusalIsRecorded(x, groups, i, before, rejections);
      } else if !PointHolds(PointOf(x, g)) {
        KeptPointsGrow(x, groups, i + 1, |groups|);
        assert PointOf(x, g) in KeptPoints(x, groups[..i + 1]);
        assert groups[..|groups|] == groups;
        return true, [], map[], {};
      } else {
        points := points + [PointOf(x, g)];
        accounted := accounted + Elements(g.contributorIds);
        KeptIsNotRecorded(x, groups, i, rejections);
      }
    }
    assert groups[..|groups|] == groups;
  }

  lemma RefusalIsRecorded(x: Context, groups: seq<Group>, i: nat, before: map<string, seq<RejectionReason>>, after: map<string, seq<RejectionReason>>)
    requires i < |groups| && GroupsOk(x, groups) && GroupsOk(x, groups[..i]) && GroupsOk(x, groups[..i + 1])
    requires ValidGroup(groups[i]) && GroupKnown(x, groups[i])
    requires RefusalsRecorded(x, groups[..i], before) && GroupReasons(x, Named(groups[..i]), groups[i]) != []
    requires after.Keys == before.Keys + Elements(groups[i].contributorIds)
    requires forall id :: id in after ==> after[id] == if id in before then before[id] else GroupReasons(x, Named(groups[..i]), groups[i])
    ensures RefusalsRecorded(x, groups[..i + 1], after)
  {
    hide ValidGroup, GroupKnown, GroupReasons, Named, Refusal, GroupsOk;
    GroupsSnoc(x, groups, i);
  }

  lemma KeptIsNotRecorded(x: Context, groups: seq<Group>, i: nat, rejections: map<string, seq<RejectionReason>>)
    requires i < |groups| && GroupsOk(x, groups) && GroupsOk(x, groups[..i]) && GroupsOk(x, groups[..i + 1])
    requires ValidGroup(groups[i]) && GroupKnown(x, groups[i])
    requires RefusalsRecorded(x, groups[..i], rejections) && GroupReasons(x, Named(groups[..i]), groups[i]) == []
    ensures RefusalsRecorded(x, groups[..i + 1], rejections)
  {
    hide ValidGroup, GroupKnown, GroupReasons, Named, Refusal, GroupsOk;
    GroupsSnoc(x, groups, i);
  }

  /** What earlier groups kept stays kept. */
  lemma {:induction false} KeptPointsGrow(x: Context, groups: seq<Group>, i: nat, n: nat)
    requires ValidContext(x) && GroupsOk(x, groups) && i <= n <= |groups|
    ensures GroupsOk(x, groups[..i]) && GroupsOk(x, groups[..n])
    ensures forall p :: p in KeptPoints(x, groups[..i]) ==> p in KeptPoints(x, groups[..n])
    decreases n
  {
    hide ValidGroup, GroupKnown, Kept, PointOf, ValidContext;
    if i < n {
      KeptPointsGrow(x, groups, i, n - 1);
      GroupsSnoc(x, groups, n - 1);
    }
  }

  lemma NoGroups(x: Context)
    ensures GroupsOk(x, []) && Named([]) == {} && RefusalsRecorded(x, [], map[])
    ensures ValidContext(x) ==> KeptPoints(x, []) == []
  {
  }

  /** The dictionary after the replies `rejected`, on top of the groups. */
  ghost predicate RejectionsRecorded(x: Context, groups: seq<Group>, rejected: seq<(string, ReasonCode)>, accounted: set<string>,
                                     rejections: map<string, seq<RejectionReason>>)
    requires GroupsOk(x, groups)
  {
    && (forall id :: id in accounted <==> id in Named(groups) || RejectedWith(rejected, id).Some?)
    && (forall id :: id in Named(groups) ==>
          match Refusal(x, groups, id)
          case Some(reasons) => id in rejections && rejections[id] == reasons
          case None => id !in rejections)
    && (forall id :: id !in Named(groups) ==>
          match RejectedWith(rejected, id)
          case Some(code) => id in rejections && rejections[id] == [ReasonForCode(code)]
          case None => id !in rejections)
  }

  lemma {:induction false} RefusedAreNamed(x: Context, groups: seq<Group>, id: string)
    requires GroupsOk(x, groups)
    ensures Refusal(x, groups, id).Some? ==> id in Named(groups)
  {
    hide ValidGroup, GroupKnown, Kept, GroupReasons;
    if groups != [] {
      RefusedAreNamed(x, groups[..|groups| - 1], id);
    }
  }

  /** The loop over `rejected` */
  method TakeRejected(x: Context, groups: seq<Group>, rejected: seq<(string, ReasonCode)>, rejections: map<string, seq<RejectionReason>>,
                      accounted: set<string>) returns (r: map<string, seq<RejectionReason>>, now: set<string>)
    requires GroupsOk(x, groups) && accounted == Named(groups) && RefusalsRecorded(x, groups, rejections)
    ensures RejectionsRecorded(x, groups, rejected, now, r)
  {
    hide GroupsOk, Refusal, Named;
    r, now := rejections, accounted;
    forall id ensures Refusal(x, groups, id).Some? ==> id in Named(groups) {
      RefusedAreNamed(x, groups, id);
    }
    for k := 0 to |rejected|
      invariant RejectionsRecorded(x, groups, rejected[..k], now, r)
    {
      assert rejected[..k + 1][..k] == rejected[..k];
      var id, code := rejected[k].0, rejected[k].1;
      if id in now {
        continue;
      }
      r := r[id := [ReasonForCode(code)]];
      now := now + {id};
    }
    assert rejected[..|rejected|] == rejected;
  }

  /** The candidates that are still unaccounted */
  method TakeRest(ids: set<string>, accounted: set<string>, rejections: map<string, seq<RejectionReason>>)
    returns (r: map<string, seq<RejectionReason>>)
    ensures r.Keys == rejections.Keys + (ids - accounted)
    ensures forall id :: id in r ==> r[id] == if id in ids && id !in accounted then UNSELECTED else rejections[id]
  {
    r := rejections;
    var rest := ids;
    while rest != {}
      invariant rest <= ids && r.Keys == rejections.Keys + (ids - rest - accounted)
      invariant forall id :: id in r ==>
        r[id] == if id in ids && id !in rest && id !in accounted then UNSELECTED else if id in rejections then rejections[id] else UNSELECTED
      decreases |rest|
    {
      var id :| id in rest;
      rest := rest - {id};
      if id !in accounted {
        r := r[id := UNSELECTED];
      }
    }
  }

  /** `build_reconciliation_result`: it fails exactly on unknown ids and on a kept group whose data point
      does not pass its validator. */
  method BuildReconciliationResult(x: Context, b: Batch) returns (r: Option<(seq<DataPoint>, seq<Rejection>)>)
    requires ValidContext(x) && ValidBatch(b)
    ensures BatchKnown(x, b) ==> GroupsOk(x, b.groups)
    ensures r.Some? <==> BatchKnown(x, b) && AllPointsHold(KeptPoints(x, b.groups))
    ensures r.Some? ==> r.value.0 == KeptPoints(x, b.groups) && Elements(r.value.1) == RejectionsOf(x, b)
    ensures r.Some? ==> forall i, j :: 0 <= i < j < |r.value.1| ==> Less(r.value.1[i].candidateId, r.value.1[j].candidateId)
  {
    hide KeptPoints, RejectionsRecorded, RefusalsRecorded, Less, ValidContext, RejectionFor, Named, AllPointsHold;
    if !BatchKnown(x, b) {
      return None;
    }
    var raised, points, rejections, accounted := TakeGroups(x, b.groups);
    if raised {
      return None;
    }
    rejections, accounted := TakeRejected(x, b.groups, b.rejected, rejections, accounted);
    ghost var before, named := rejections, accounted;
    rejections := TakeRest(x.byId.Keys, accounted, rejections);
    AllRejections(x, b, before, named, rejections);
    var ids := SortedKeys(rejections.Keys);
    var listed: seq<Rejection> := [];
    for k := 0 to |ids|
      invariant |listed| == k && forall m :: 0 <= m < k ==> ids[m] in rejections && listed[m] == Rejection(ids[m], ReconcilerStage, rejections[ids[m]])
    {
      assert ids[k] in Elements(ids);
      listed := listed + [Rejection(ids[k], ReconcilerStage, rejections[ids[k]])];
    }
    ListedAreAll(x, b, ids, rejections, listed);
    return Some((points, listed));
  }

  lemma AllRejections(x: Context, b: Batch, before: map<string, seq<RejectionReason>>, named: set<string>, after: map<string, seq<RejectionReason>>)
    requires BatchKnown(x, b) && GroupsOk(x, b.groups) && RejectionsRecorded(x, b.groups, b.rejected, named, before)
    requires after.Keys == before.Keys + (x.byId.Keys - named)
    requires forall id :: id in after ==> after[id] == if id in x.byId && id !in named then UNSELECTED else before[id]
    ensures forall id :: id in after <==> id in x.byId && RejectionFor(x, b, id).Some?
    ensures forall id :: id in after ==> after[id] == RejectionFor(x, b, id).value
  {
    hide Refusal, RejectedWith, Named;
    forall id
      ensures id in Named(b.groups) ==> id in x.byId
      ensures RejectedWith(b.rejected, id).Some? ==> id in x.byId
    {
      if id in Named(b.groups) {
        NamedAreKnown(x, b.groups, id);
      }
      RejectedAreListed(b.rejected, id);
    }
  }

  lemma {:induction false} NamedAreKnown(x: Context, groups: seq<Group>, id: string)
    requires GroupsOk(x, groups) && id in Named(groups)
    ensures id in x.byId && exists g :: g in groups && id in g.contributorIds
  {
    hide ValidGroup;
    var front, last := groups[..|groups| - 1], groups[|groups| - 1];
    assert last in groups;
    if id in Named(front) {
      NamedAreKnown(x, front, id);
      var g :| g in front && id in g.contributorIds;
      assert g in groups;
    }
  }

  lemma {:induction false} RejectedAreListed(rejected: seq<(string, ReasonCode)>, id: string)
    ensures RejectedWith(rejected, id).Some? ==> exists r :: r in rejected && r.0 == id
  {
    if rejected != [] {
      RejectedAreListed(rejected[..|rejected| - 1], id);
    }
  }

  lemma ListedAreAll(x: Context, b: Batch, ids: seq<string>, rejections: map<string, seq<RejectionReason>>, listed: seq<Rejection>)
    requires GroupsOk(x, b.groups) && Elements(ids) == rejections.Keys && IsSorted(ids, Less) && |listed| == |ids|
    requires forall m :: 0 <= m < |ids| ==> ids[m] in rejections && listed[m] == Rejection(ids[m], ReconcilerStage, rejections[ids[m]])
    requires forall id :: id in rejections <==> id in x.byId && RejectionFor(x, b, id).Some?
    requires forall id :: id in rejections ==> rejections[id] == RejectionFor(x, b, id).value
    ensures Elements(listed) == RejectionsOf(x, b)
    ensures forall i, j :: 0 <= i < j < |listed| ==> Less(listed[i].candidateId, listed[j].candidateId)
  {
    hide Less, RejectionFor;
    forall id | id in rejections ensures Rejection(id, ReconcilerStage, rejections[id]) in listed {
      assert id in Elements(ids);
      var m :| 0 <= m < |ids| && ids[m] == id;
      assert listed[m] in listed;
    }
  }
}
