/** What a reconciliation result means: which groups are kept and from which source, and that every
    candidate is accounted for. */
module ReconciliationAccounting {
  import opened Wrappers
  import opened Contracts
  import opened Sorting
  import opened VerifierPolicies
  import opened Reconciliation

  predicate Uniform(x: Context, g: Group)
    requires GroupKnown(x, g)
  {
    forall id :: id in g.contributorIds ==> SameSlot(x.byId[id], x.byId[g.sourceId])
  }

  lemma {:induction false} NoContributorReasons(x: Context, source: Candidate, ids: seq<string>, accounted: set<string>)
    requires forall id :: id in ids ==> id in x.byId
    ensures ContributorReasons(x, source, ids, accounted) == [] <==>
      forall id :: id in ids ==> id !in accounted && SameSlot(x.byId[id], source)
  {
    if ids != [] {
      assert forall id :: id in ids <==> id in ids[..|ids| - 1] || id == ids[|ids| - 1];
      NoContributorReasons(x, source, ids[..|ids| - 1], accounted);
    }
  }

  /** A group is kept exactly when its slot is approved, its contributors share that slot and none of
      them was named by an earlier group. */
  lemma KeptExactly(x: Context, accounted: set<string>, g: Group)
    requires ValidGroup(g) && GroupKnown(x, g)
    ensures Kept(x, accounted, g) <==>
      && SchemaApproves(x.plan, x.byId[g.sourceId].category, x.byId[g.sourceId].fieldName)
      && Uniform(x, g) && forall id :: id in g.contributorIds ==> id !in accounted
  {
    hide RankLess, Distinct, ContributorReasons;
    var source := x.byId[BestSource(x, g)];
    assert SameSlot(source, x.byId[g.sourceId]);
    NoContributorReasons(x, source, g.contributorIds, accounted);
    var reasons := ReasonWhen(source.category !in x.plan.approved, CategoryNotApproved, source.category)
      + ReasonWhen(source.category in x.plan.approved && source.fieldName !in x.plan.approved[source.category], SchemaViolation, source.fieldName)
      + ContributorReasons(x, source, g.contributorIds, accounted);
    DistinctIsEmpty(reasons);
  }

  lemma {:induction false} AllComparable(x: Context, source: Candidate, ids: seq<string>)
    requires forall id :: id in ids ==> id in x.byId && SameSlot(x.byId[id], source)
    ensures Comparable(x, source, ids) == ids
  {
    hide SameSlot;
    if ids != [] {
      var front, last := ids[..|ids| - 1], ids[|ids| - 1];
      assert ids == front + [last];
      AllComparable(x, source, front);
    }
  }

  /** A kept data point comes from the contributor of least rank, whichever source the reply selected,
      and is no more confident than any contributor or any contributor's alignment. */
  lemma KeptPointIsLeast(x: Context, accounted: set<string>, g: Group, other: string)
    requires ValidContext(x) && ValidGroup(g) && GroupKnown(x, g) && Kept(x, accounted, g)
    requires other in g.contributorIds
    ensures var p := PointOf(x, g);
      && !RankLess(x, x.byId[other], x.byId[BestSource(x, g)])
      && p.span == x.byId[BestSource(x, g)].span && p.value == x.byId[BestSource(x, g)].value
      && p.confidence <= x.byId[other].confidence && p.confidence <= x.alignment[other]
      && x.byId[other].span in p.supportingSpans && p.contributorIds == g.contributorIds
    ensures Kept(x, accounted, Group(other, g.contributorIds)) && PointOf(x, Group(other, g.contributorIds)) == PointOf(x, g)
  {
    hide RankLess, Distinct, ContributorReasons, LeastConfidence, Kept;
    KeptExactly(x, accounted, g);
    AllComparable(x, x.byId[g.sourceId], g.contributorIds);
    AllComparable(x, x.byId[other], g.contributorIds);
    KeptExactly(x, accounted, Group(other, g.contributorIds));
    var k :| 0 <= k < |g.contributorIds| && g.contributorIds[k] == other;
    assert PointOf(x, g).supportingSpans[k] == x.byId[other].span;
  }

  predicate Contributes(points: seq<DataPoint>, id: string) {
    exists k :: 0 <= k < |points| && id in points[k].contributorIds
  }

  lemma ContributesMore(points: seq<DataPoint>, p: DataPoint, id: string)
    ensures Contributes(points + [p], id) <==> Contributes(points, id) || id in p.contributorIds
  {
    if Contributes(points, id) {
      var k :| 0 <= k < |points| && id in points[k].contributorIds;
      assert id in (points + [p])[k].contributorIds;
    }
    assert (points + [p])[|points|] == p;
  }

  /** How many groups name the id. */
  function NamingCount(groups: seq<Group>, id: string): nat {
    if groups == [] then 0
    else NamingCount(groups[..|groups| - 1], id) + if id in groups[|groups| - 1].contributorIds then 1 else 0
  }

  /** Each id of the groups contributes to a data point or is refused, and both exactly when it
      contributes and another group names it too. */
  lemma {:induction false} GroupAccounting(x: Context, groups: seq<Group>, id: string)
    requires ValidContext(x) && GroupsOk(x, groups)
    ensures id in Named(groups) <==> NamingCount(groups, id) >= 1
    ensures id in Named(groups) <==> Contributes(KeptPoints(x, groups), id) || Refusal(x, groups, id).Some?
    ensures Contributes(KeptPoints(x, groups), id) ==> (Refusal(x, groups, id).Some? <==> NamingCount(groups, id) >= 2)
  {
    hide Kept, PointOf, ValidContext, ValidGroup, GroupKnown, Contributes, GroupReasons;
    if groups == [] {
      NothingContributes(id);
    } else {
      var front, last := groups[..|groups| - 1], groups[|groups| - 1];
      GroupAccounting(x, front, id);
      assert last in groups;
      LastGroup(x, front, last, id);
      assert KeptPoints(x, front) + [] == KeptPoints(x, front);
    }
  }

  lemma NothingContributes(id: string)
    ensures !Contributes([], id)
  {
  }

  lemma LastGroup(x: Context, front: seq<Group>, last: Group, id: string)
    requires ValidContext(x) && GroupsOk(x, front) && ValidGroup(last) && GroupKnown(x, last)
    ensures PointOf(x, last).contributorIds == last.contributorIds
    ensures Kept(x, Named(front), last) && id in last.contributorIds ==> id !in Named(front)
    ensures Contributes(KeptPoints(x, front) + [PointOf(x, last)], id) <==>
      Contributes(KeptPoints(x, front), id) || id in last.contributorIds
  {
    hide Kept, Named, KeptPoints, LeastConfidence, BestSource, Contributes;
    KeptExactly(x, Named(front), last);
    ContributesMore(KeptPoints(x, front), PointOf(x, last), id);
  }

  /** For every batch: every input candidate contributes to a data point or has a rejection, and it has
      both exactly when it contributes and at least two groups name it. */
  lemma EveryCandidateIsAccounted(x: Context, b: Batch, id: string)
    requires ValidContext(x) && ValidBatch(b) && GroupsOk(x, b.groups) && id in x.byId
    ensures var contributes := Contributes(KeptPoints(x, b.groups), id);
      && (contributes || RejectionFor(x, b, id).Some?)
      && (contributes && RejectionFor(x, b, id).Some? <==> contributes && NamingCount(b.groups, id) >= 2)
  {
    hide KeptPoints, Refusal, RejectedWith, Named;
    GroupAccounting(x, b.groups, id);
  }

  /** No candidate contributes to two data points. */
  lemma {:induction false} ContributorsAreDisjoint(x: Context, groups: seq<Group>)
    requires ValidContext(x) && GroupsOk(x, groups)
    ensures forall i, j :: 0 <= i < j < |KeptPoints(x, groups)| ==>
      Elements(KeptPoints(x, groups)[i].contributorIds) !! Elements(KeptPoints(x, groups)[j].contributorIds)
  {
    hide Kept, PointOf, ValidContext, ValidGroup, GroupKnown, Named;
    if groups != [] {
      var front, last := groups[..|groups| - 1], groups[|groups| - 1];
      ContributorsAreDisjoint(x, front);
      assert last in groups;
      var points := KeptPoints(x, front);
      if Kept(x, Named(front), last) {
        forall i | 0 <= i < |points| ensures Elements(points[i].contributorIds) !! Elements(PointOf(x, last).contributorIds) {
          EarlierPointIsDisjoint(x, front, last, i);
        }
      }
    }
  }

  lemma EarlierPointIsDisjoint(x: Context, front: seq<Group>, last: Group, i: nat)
    requires ValidContext(x) && GroupsOk(x, front) && ValidGroup(last) && GroupKnown(x, last) && Kept(x, Named(front), last)
    requires i < |KeptPoints(x, front)|
    ensures Elements(KeptPoints(x, front)[i].contributorIds) !! Elements(PointOf(x, last).contributorIds)
  {
    hide Kept, Named, LeastConfidence, KeptPoints, BestSource;
    KeptExactly(x, Named(front), last);
    forall id | id in KeptPoints(x, front)[i].contributorIds ensures id in Named(front) {
      GroupAccounting(x, front, id);
    }
  }

  /** Every kept data point was built from a group of known candidates. */
  lemma {:induction false} PointsComeFromGroups(x: Context, groups: seq<Group>, p: DataPoint)
    requires ValidContext(x) && GroupsOk(x, groups) && p in KeptPoints(x, groups)
    ensures exists g :: g in groups && ValidGroup(g) && GroupKnown(x, g) && p == PointOf(x, g)
  {
    hide Kept, PointOf, ValidContext, ValidGroup, GroupKnown, Named;
    var front, last := groups[..|groups| - 1], groups[|groups| - 1];
    assert last in groups;
    if p in KeptPoints(x, front) {
      PointsComeFromGroups(x, front, p);
      var g :| g in front && ValidGroup(g) && GroupKnown(x, g) && p == PointOf(x, g);
      assert g in groups;
    }
  }
}
