/** executor/dedup.py: the rejections and clusters that record what was merged. */
module DedupRecords {
  import opened Wrappers
  import opened Contracts
  import opened Sorting
  import opened Dedup

  lemma StringsOrderAll(all: set<string>)
    ensures OrdersAll(Less, all)
  {
    forall a ensures !Less(a, a) {
      LessIsStrict(a);
    }
    forall a, b | a != b ensures Less(a, b) || Less(b, a) {
      LessIsTotal(a, b);
    }
    forall a, b, c | Less(a, b) && Less(b, c) ensures Less(a, c) {
      LessIsTransitive(a, b, c);
    }
  }

  /** `sorted(keys)` */
  method SortedKeys(keys: set<string>) returns (r: seq<string>)
    ensures Elements(r) == keys && IsSorted(r, Less)
  {
    StringsOrderAll(keys);
    r := SortedList(keys, Less);
  }

  /** What dedup records for a set of candidates. */
  ghost function DedupRejections(all: set<Candidate>, normalize: string -> string): set<Rejection> {
    set c, p | c in all && p in all && MergedInto(all, c, p, normalize) :: DedupRejection(c.candidateId, p.candidateId)
  }

  /** `build_dedup_rejections`: it fails exactly on a merged id without a candidate, and lists the
      merges in the order of the duplicates. */
  method BuildDedupRejections(cs: seq<Candidate>, merged: map<string, string>) returns (r: Option<seq<Rejection>>)
    ensures r.Some? <==> merged.Keys <= Ids(Elements(cs))
    ensures r.Some? ==> Elements(r.value) == set id | id in merged :: DedupRejection(id, merged[id])
    ensures r.Some? ==> forall i, j :: 0 <= i < j < |r.value| ==> Less(r.value[i].candidateId, r.value[j].candidateId)
  {
    hide Less, DedupRejection;
    var keys := SortedKeys(merged.Keys);
    var rejections: seq<Rejection> := [];
    var known := set c | c in cs :: c.candidateId;
    assert known == Ids(Elements(cs));
    for i := 0 to |keys|
      invariant |rejections| == i && forall k :: 0 <= k < i ==> keys[k] in merged && rejections[k] == DedupRejection(keys[k], merged[keys[k]])
      invariant forall k :: 0 <= k < i ==> keys[k] in known
    {
      assert keys[i] in Elements(keys);
      if keys[i] !in known {
        return None;
      }
      rejections := rejections + [DedupRejection(keys[i], merged[keys[i]])];
    }
    forall id | id in merged ensures id in known {
      assert id in Elements(keys);
    }
    RejectionsListed(keys, rejections, merged);
    return Some(rejections);
  }

  lemma RejectionsListed(keys: seq<string>, rejections: seq<Rejection>, merged: map<string, string>)
    requires Elements(keys) == merged.Keys && IsSorted(keys, Less) && |rejections| == |keys|
    requires forall k :: 0 <= k < |keys| ==> keys[k] in merged && rejections[k] == DedupRejection(keys[k], merged[keys[k]])
    ensures Elements(rejections) == set id | id in merged :: DedupRejection(id, merged[id])
    ensures forall i, j :: 0 <= i < j < |rejections| ==> Less(rejections[i].candidateId, rejections[j].candidateId)
  {
    hide Less;
    forall id | id in merged ensures DedupRejection(id, merged[id]) in rejections {
      assert id in Elements(keys);
      var k :| 0 <= k < |keys| && keys[k] == id;
      assert rejections[k] in rejections;
    }
  }

  /** The recorded rejections are determined by the set of candidates. */
  lemma RejectionsAreDetermined(all: set<Candidate>, canonical: seq<Candidate>, merged: map<string, string>, normalize: string -> string)
    requires DistinctIds(all) && Deduplicated(all, canonical, merged, normalize)
    ensures merged.Keys <= Ids(all)
    ensures (set id | id in merged :: DedupRejection(id, merged[id])) == DedupRejections(all, normalize)
  {
    hide Less, Identity, DedupRejection, IsPrimary;
    forall id | id in merged ensures id in Ids(all) && DedupRejection(id, merged[id]) in DedupRejections(all, normalize) {
      var c, p :| MergedInto(all, c, p, normalize) && c.candidateId == id;
      PrimaryIsInput(all, p, normalize);
    }
    forall r | r in DedupRejections(all, normalize) ensures r in set id | id in merged :: DedupRejection(id, merged[id]) {
      var c, p :| MergedInto(all, c, p, normalize) && r == DedupRejection(c.candidateId, p.candidateId);
      assert c.candidateId in merged;
    }
  }

  lemma PrimaryIsInput(all: set<Candidate>, p: Candidate, normalize: string -> string)
    requires IsPrimary(all, p, normalize)
    ensures p in all
  {
  }

  datatype DedupCluster = DedupCluster(primaryId: string, mergedIds: seq<string>, allIds: seq<string>, key: CanonicalKey, spanCount: nat)

  function IdList(cs: seq<Candidate>): seq<string> {
    seq(|cs|, i requires 0 <= i < |cs| => cs[i].candidateId)
  }

  function ClusterOf(sorted: seq<Candidate>, normalize: string -> string): DedupCluster
    requires sorted != []
  {
    DedupCluster(sorted[0].candidateId, IdList(sorted[1..]), IdList(sorted), CanonicalKeyOf(sorted[0], normalize),
      |set c | c in sorted :: c.span|)
  }

  /** The cluster lists the whole class of `p`, its least id first, then the others in id order. */
  ghost predicate ClusterDescribes(all: set<Candidate>, x: DedupCluster, p: Candidate, normalize: string -> string) {
    && IsPrimary(all, p, normalize) && x.primaryId == p.candidateId && x.allIds == [x.primaryId] + x.mergedIds
    && x.mergedIds != [] && IsSorted(x.allIds, Less)
    && (forall id :: id in x.mergedIds <==> exists c :: MergedInto(all, c, p, normalize) && c.candidateId == id)
    && x.spanCount == |set c | c in all && SameIdentity(c, p, normalize) :: c.span|
  }

  lemma ClusterIsClass(cs: seq<Candidate>, g: seq<Candidate>, normalize: string -> string)
    requires IsGroup(cs, g, normalize) && NoRepeats(cs) && DistinctIds(Elements(cs)) && |g| > 1
    ensures var sorted := Sort(g, IdLess);
      sorted != [] && ClusterDescribes(Elements(cs), ClusterOf(sorted, normalize), Primary(g), normalize)
  {
    hide Less, Identity, Class, Sort, IsPrimary, MergedInto, CanonicalKeyOf, Primary, SameIdentity;
    GroupMeaning(cs, g, normalize);
    SortedGroup(cs, g, normalize);
    SortKeepsElements(g, IdLess);
    var sorted := Sort(g, IdLess);
    IdListSorted(sorted);
    SpansOfClass(cs, g, sorted, normalize);
    MergedIdsOf(cs, g, sorted, normalize);
    IdListSplit(sorted);
  }

  lemma IdListSplit(sorted: seq<Candidate>)
    requires |sorted| > 1
    ensures IdList(sorted) == [sorted[0].candidateId] + IdList(sorted[1..]) && IdList(sorted[1..]) != []
  {
    assert |IdList(sorted[1..])| > 0;
  }

  lemma SpansOfClass(cs: seq<Candidate>, g: seq<Candidate>, sorted: seq<Candidate>, normalize: string -> string)
    requires IsGroup(cs, g, normalize) && Elements(sorted) == Elements(g)
    ensures (set c | c in sorted :: c.span) == set c | c in Elements(cs) && SameIdentity(c, Primary(g), normalize) :: c.span
  {
    hide Less, Identity, Class, SameIdentity, Primary;
    forall c ensures c in sorted <==> c in cs && SameIdentity(c, Primary(g), normalize) {
      assert c in Elements(sorted) <==> c in Elements(g);
      MembersAreTheClass(cs, g, c, normalize);
    }
  }

  lemma IdListSorted(sorted: seq<Candidate>)
    requires IsSorted(sorted, IdLess)
    ensures IsSorted(IdList(sorted), Less)
  {
    hide Less;
    forall i, j | 0 <= i < j < |sorted| ensures Less(IdList(sorted)[i], IdList(sorted)[j]) {
      assert IdLess(sorted[i], sorted[j]);
    }
  }

  lemma MembersAreTheClass(cs: seq<Candidate>, g: seq<Candidate>, c: Candidate, normalize: string -> string)
    requires IsGroup(cs, g, normalize)
    ensures c in g <==> c in cs && SameIdentity(c, Primary(g), normalize)
  {
    hide Less, Identity, Class;
    ClassMembers(cs, Identity(g[0], normalize), normalize);
    assert Primary(g) in g;
  }

  lemma MergedIdsOf(cs: seq<Candidate>, g: seq<Candidate>, sorted: seq<Candidate>, normalize: string -> string)
    requires IsGroup(cs, g, normalize) && DistinctIds(Elements(cs))
    requires sorted != [] && sorted[0] == Primary(g) && NoRepeats(sorted) && Elements(sorted) == Elements(g)
    ensures forall id :: id in IdList(sorted[1..]) <==> exists c :: MergedInto(Elements(cs), c, Primary(g), normalize) && c.candidateId == id
  {
    hide Less, Identity, Class, IsPrimary, Primary, MergedInto;
    GroupMeaning(cs, g, normalize);
    var ids := IdList(sorted[1..]);
    forall id | id in ids ensures exists c :: MergedInto(Elements(cs), c, Primary(g), normalize) && c.candidateId == id {
      var k :| 0 <= k < |ids| && ids[k] == id;
      assert sorted[k + 1] in Elements(sorted) && sorted[k + 1] != sorted[0];
      assert MergedInto(Elements(cs), sorted[k + 1], Primary(g), normalize);
    }
    forall c | MergedInto(Elements(cs), c, Primary(g), normalize) ensures c.candidateId in ids {
      MergedIsListed(cs, g, sorted, c, normalize);
    }
  }

  lemma MergedIsListed(cs: seq<Candidate>, g: seq<Candidate>, sorted: seq<Candidate>, c: Candidate, normalize: string -> string)
    requires IsGroup(cs, g, normalize) && MergedInto(Elements(cs), c, Primary(g), normalize)
    requires sorted != [] && sorted[0] == Primary(g) && Elements(sorted) == Elements(g)
    ensures c.candidateId in IdList(sorted[1..])
  {
    hide Less, Identity, Class, IsPrimary, Primary;
    MembersAreTheClass(cs, g, c, normalize);
    assert c in Elements(sorted);
    var k :| 0 <= k < |sorted| && sorted[k] == c;
    assert IdList(sorted[1..])[k - 1] == c.candidateId;
  }

  predicate LessPrimary(x: DedupCluster, groups: seq<seq<Candidate>>, k: nat) {
    k < |groups| && groups[k] != [] && Less(x.primaryId, Primary(groups[k]).candidateId)
  }

  /** `build_dedup_clusters`: one cluster for each class of two or more, in the order of their primaries. */
  method BuildDedupClusters(cs: seq<Candidate>, normalize: string -> string) returns (raised: bool, clusters: seq<DedupCluster>)
    requires NoRepeats(cs) && DistinctIds(Elements(cs))
    ensures raised <==> !KeysHold(Elements(cs), normalize)
    ensures forall x :: x in clusters ==> exists p :: ClusterDescribes(Elements(cs), x, p, normalize)
    ensures !raised ==>
      forall c, p :: MergedInto(Elements(cs), c, p, normalize) ==> exists x :: x in clusters && x.primaryId == p.candidateId
    ensures forall m, n :: 0 <= m < n < |clusters| ==> Less(clusters[m].primaryId, clusters[n].primaryId)
  {
    hide ClusterDescribes, ClusterOf, MergedInto, Primary, Identity, Class, Sort, IsPrimary, Groups, Less, KeysHold;
    var groups;
    raised, groups := GroupByIdentity(cs, normalize);
    clusters := [];
    if raised {
      return;
    }
    GroupsAscend(cs, groups, normalize);
    for i := 0 to |groups|
      invariant forall x :: x in clusters ==> exists p :: ClusterDescribes(Elements(cs), x, p, normalize)
      invariant forall k :: 0 <= k < i && |groups[k]| > 1 ==> exists x :: x in clusters && x.primaryId == Primary(groups[k]).candidateId
      invariant forall m, n :: 0 <= m < n < |clusters| ==> Less(clusters[m].primaryId, clusters[n].primaryId)
      invariant forall m, k :: 0 <= m < |clusters| && i <= k < |groups| ==> LessPrimary(clusters[m], groups, k)
    {
      GroupOf(cs, groups, i, normalize);
      SortedGroup(cs, groups[i], normalize);
      SortKeepsElements(groups[i], IdLess);
      var sorted := Sort(groups[i], IdLess);
      if |sorted| == 1 {
        continue;
      }
      ClusterIsClass(cs, groups[i], normalize);
      var x := ClusterOf(sorted, normalize);
      ClusterPrimary(sorted, normalize);
      ghost var before := clusters;
      assert forall m :: 0 <= m < |before| ==> LessPrimary(before[m], groups, i);
      clusters := clusters + [x];
      assert x in clusters && forall y :: y in before ==> y in clusters;
    }
    forall c, p | MergedInto(Elements(cs), c, p, normalize) ensures exists x :: x in clusters && x.primaryId == p.candidateId {
      MergedGroup(cs, groups, c, p, normalize);
    }
  }

  lemma GroupsAscend(cs: seq<Candidate>, groups: seq<seq<Candidate>>, normalize: string -> string)
    requires DistinctIds(Elements(cs))
    requires exists found :: Groups(cs, found, normalize) && groups == Sort(found, GroupLess)
    ensures forall j, k :: 0 <= j < k < |groups| ==> GroupLess(groups[j], groups[k])
  {
    hide Groups, GroupLess, Sort;
    var found :| Groups(cs, found, normalize) && groups == Sort(found, GroupLess);
    GroupsAreOrdered(cs, found, normalize);
    GroupsDoNotRepeat(cs, found, normalize);
    SortSorts(found, GroupLess, Elements(found));
  }

  lemma GroupsDoNotRepeat(cs: seq<Candidate>, groups: seq<seq<Candidate>>, normalize: string -> string)
    requires Groups(cs, groups, normalize)
    ensures NoRepeats(groups)
  {
  }

  lemma ClusterPrimary(sorted: seq<Candidate>, normalize: string -> string)
    requires sorted != []
    ensures ClusterOf(sorted, normalize).primaryId == sorted[0].candidateId
  {
  }

  lemma MergedGroup(cs: seq<Candidate>, groups: seq<seq<Candidate>>, c: Candidate, p: Candidate, normalize: string -> string)
    requires DistinctIds(Elements(cs)) && Groups(cs, groups, normalize) && MergedInto(Elements(cs), c, p, normalize)
    ensures exists k :: 0 <= k < |groups| && |groups[k]| > 1 && Primary(groups[k]) == p
  {
    hide Less, Identity, Class, IsPrimary, Primary;
    PrimaryOfItsGroup(cs, groups, c, p, normalize);
    var g := Class(cs, Identity(c, normalize), normalize);
    assert Primary(g) in g;
    TwoMembers(g, c, p);
    var k :| 0 <= k < |groups| && groups[k] == g;
  }

  lemma TwoMembers<T>(s: seq<T>, a: T, b: T)
    requires a in s && b in s && a != b
    ensures |s| > 1
  {
  }
}
