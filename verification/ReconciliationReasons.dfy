/** Why the reconciler rejects a candidate, read off the reply and the candidates. */
module ReconciliationReasons {
  import opened Wrappers
  import opened Contracts
  import opened Sorting
  import opened CriticCorrections
  import opened VerifierPolicies
  import opened Reconciliation
  import opened ReconciliationAccounting

  lemma {:induction false} ContributorCodes(x: Context, source: Candidate, ids: seq<string>, accounted: set<string>, code: ReasonCode)
    requires forall id :: id in ids ==> id in x.byId
    ensures HasCode(ContributorReasons(x, source, ids, accounted), code) <==>
      match code
      case ReconcilerRejected => exists id :: id in ids && id in accounted
      case SchemaViolation => exists id :: id in ids && !SameSlot(x.byId[id], source)
      case _ => false
  {
    hide HasCode, ReasonWhen, SameSlot;
    if ids == [] {
      NoCodes(code);
    } else {
      var front, last := ids[..|ids| - 1], ids[|ids| - 1];
      assert forall id :: id in ids <==> id in front || id == last;
      ContributorCodes(x, source, front, accounted, code);
      var earlier, twice := ContributorReasons(x, source, front, accounted), ReasonWhen(last in accounted, ReconcilerRejected, last);
      CodesOfSum(earlier, twice, code);
      CodesOfSum(earlier + twice, ReasonWhen(!SameSlot(x.byId[last], source), SchemaViolation, last), code);
      CodeWhen(last in accounted, ReconcilerRejected, last, code);
      CodeWhen(!SameSlot(x.byId[last], source), SchemaViolation, last, code);
    }
  }

  lemma NoCodes(code: ReasonCode)
    ensures !HasCode([], code)
  {
  }

  lemma CodeWhen(b: bool, code: ReasonCode, text: string, other: ReasonCode)
    ensures HasCode(ReasonWhen(b, code, text), other) <==> b && code == other
  {
    assert [RejectionReason(code, Text(text))][0].code == code;
  }

  lemma DistinctHasSameCodes(reasons: seq<RejectionReason>, code: ReasonCode)
    ensures HasCode(Distinct(reasons), code) <==> HasCode(reasons, code)
  {
    hide Distinct;
    SameCodes(reasons, [], code);
    assert reasons + [] == reasons;
    NoCodes(code);
  }

  /** The codes of a refused group: its selected source's slot is not approved, a contributor is of another
      slot than the selected source, or an earlier group named a contributor. */
  lemma GroupCodes(x: Context, accounted: set<string>, g: Group, code: ReasonCode)
    requires ValidGroup(g) && GroupKnown(x, g)
    ensures var source := x.byId[g.sourceId];
      HasCode(GroupReasons(x, accounted, g), code) <==>
        match code
        case CategoryNotApproved => source.category !in x.plan.approved
        case SchemaViolation =>
          || (source.category in x.plan.approved && !SchemaApproves(x.plan, source.category, source.fieldName))
          || exists id :: id in g.contributorIds && !SameSlot(x.byId[id], source)
        case ReconcilerRejected => exists id :: id in g.contributorIds && id in accounted
        case _ => false
  {
    hide HasCode, ReasonWhen, ContributorReasons, Distinct, RankLess, LeastRank, Comparable;
    var s := x.byId[BestSource(x, g)];
    assert SameSlot(s, x.byId[g.sourceId]);
    var category := ReasonWhen(s.category !in x.plan.approved, CategoryNotApproved, s.category);
    var field := ReasonWhen(s.category in x.plan.approved && s.fieldName !in x.plan.approved[s.category], SchemaViolation, s.fieldName);
    var contributors := ContributorReasons(x, s, g.contributorIds, accounted);
    DistinctHasSameCodes(category + field + contributors, code);
    CodesOfSum(category + field, contributors, code);
    CodesOfSum(category, field, code);
    CodeWhen(s.category !in x.plan.approved, CategoryNotApproved, s.category, code);
    CodeWhen(s.category in x.plan.approved && s.fieldName !in x.plan.approved[s.category], SchemaViolation, s.fieldName, code);
    ContributorCodes(x, s, g.contributorIds, accounted, code);
  }

  /** Group `k` names the id and is refused at its place. */
  predicate RefusedAt(x: Context, groups: seq<Group>, id: string, k: nat)
    requires GroupsOk(x, groups) && k < |groups|
  {
    assert groups[k] in groups;
    id in groups[k].contributorIds && !Kept(x, Named(groups[..k]), groups[k])
  }

  /** The reasons of a named candidate are those of the first refused group that names it. */
  lemma {:induction false} FirstRefusal(x: Context, groups: seq<Group>, id: string)
    requires GroupsOk(x, groups)
    ensures Refusal(x, groups, id).None? <==> forall k :: 0 <= k < |groups| ==> !RefusedAt(x, groups, id, k)
    ensures forall k :: 0 <= k < |groups| && RefusedAt(x, groups, id, k) && (forall m :: 0 <= m < k ==> !RefusedAt(x, groups, id, m)) ==>
      groups[k] in groups && Refusal(x, groups, id) == Some(GroupReasons(x, Named(groups[..k]), groups[k]))
  {
    hide Kept, GroupReasons, ValidGroup, GroupKnown, Named;
    if groups != [] {
      var front, last := groups[..|groups| - 1], groups[|groups| - 1];
      FirstRefusal(x, front, id);
      forall k | 0 <= k < |front|
        ensures RefusedAt(x, front, id, k) == RefusedAt(x, groups, id, k) && groups[..k] == front[..k]
      {
        assert groups[..k] == front[..k];
      }
      assert groups[..|front|] == front && last in groups;
      assert RefusedAt(x, groups, id, |front|) == (id in last.contributorIds && !Kept(x, Named(front), last));
    }
  }

  /** The group names the id. */
  predicate Names(groups: seq<Group>, id: string) {
    exists g :: g in groups && id in g.contributorIds
  }

  lemma {:induction false} NamedExactly(groups: seq<Group>, id: string)
    ensures id in Named(groups) <==> Names(groups, id)
  {
    if groups != [] {
      var front, last := groups[..|groups| - 1], groups[|groups| - 1];
      NamedExactly(front, id);
      assert forall g :: g in groups <==> g in front || g == last;
    }
  }

  /** A candidate that no group names is rejected for one reason: the code that the reply gives, or that
      it was not selected. */
  lemma UnnamedCode(x: Context, b: Batch, id: string)
    requires ValidBatch(b) && GroupsOk(x, b.groups) && !Names(b.groups, id)
    ensures var r := RejectionFor(x, b, id);
      && r.Some? && |r.value| == 1
      && (forall k :: 0 <= k < |b.rejected| && b.rejected[k].0 == id ==> r.value[0].code == b.rejected[k].1)
      && ((forall k :: 0 <= k < |b.rejected| ==> b.rejected[k].0 != id) ==> r.value[0].code == ReconcilerRejected)
  {
    hide Refusal, RejectedWith, Named;
    NamedExactly(b.groups, id);
    RejectedCode(b.rejected, id);
  }

  lemma {:induction false} RejectedCode(rejected: seq<(string, ReasonCode)>, id: string)
    ensures RejectedWith(rejected, id).None? <==> forall k :: 0 <= k < |rejected| ==> rejected[k].0 != id
    ensures forall k :: 0 <= k < |rejected| && rejected[k].0 == id && (forall m :: 0 <= m < k ==> rejected[m].0 != id) ==>
      RejectedWith(rejected, id) == Some(rejected[k].1)
  {
    if rejected != [] {
      RejectedCode(rejected[..|rejected| - 1], id);
    }
  }
}
