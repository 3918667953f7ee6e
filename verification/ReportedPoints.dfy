/** What a reported data point says about the verified candidates that contribute to it, whatever scores,
    contexts and groups the stages passed each other. */
module ReportedPoints {
  import opened Wrappers
  import opened Contracts
  import opened Sorting
  import opened CandidateBuilding
  import opened VerifierPolicies
  import opened Dedup
  import opened Reconciliation
  import opened ReconciliationAccounting
  import opened PipelineSpec
  import opened PipelineFacts
  import opened ReconcilerSteps
  import opened Orchestrator
  import opened Provenance
  import opened RunConditions

  /** The verified candidate is a contributor of the point. */
  ghost predicate ContributesTo(e: Environment, c: Candidate, p: DataPoint) {
    c in VerifierAccepted(e) && c.candidateId in p.contributorIds
  }

  predicate TakenFrom(p: DataPoint, c: Candidate) {
    p.value == c.value && p.span == c.span && p.normalization == c.normalization
  }

  ghost predicate NoneOutranks(e: Environment, p: DataPoint, c: Candidate) {
    forall d :: ContributesTo(e, d, p) ==> !RankLess(ContextOf(e, VerifierAccepted(e)), d, c)
  }

  /** The supporting spans are those of the contributors, in their order. */
  ghost predicate SpansFollow(e: Environment, p: DataPoint) {
    && |p.supportingSpans| == |p.contributorIds|
    && forall k :: 0 <= k < |p.contributorIds| ==> IsSpanOf(e, p, p.contributorIds[k], p.supportingSpans[k])
  }

  ghost predicate IsSpanOf(e: Environment, p: DataPoint, id: string, s: SourceSpan) {
    exists c :: ContributesTo(e, c, p) && c.candidateId == id && c.span == s
  }

  /** What the verifier lets through has the full alignment score, and a confidence in range. */
  lemma VerifiedScore(e: Environment, c: Candidate)
    requires WellFormed(e) && c in VerifierAccepted(e)
    ensures VerifierReportOf(e, c).alignmentScore == 1.0 && 0.0 <= c.confidence <= 1.0
  {
    hide WellFormed, CriticAccepted, BuildVerifierReport;
    VerifiedAreCriticAccepted(e, c);
    AcceptedSpanIsValid(e, c);
    if c.chunkId in e.chunks {
      ScoreFollowsAcceptance(e.plan, e.chunks[c.chunkId], c, e.verifierVerdict(c), e.grounding);
    }
  }

  /** The context of the reconciler: the verified candidates under their ids, all fully aligned. */
  lemma ContextHolds(e: Environment)
    requires WellFormed(e)
    ensures var x := ContextOf(e, VerifierAccepted(e));
      && ValidContext(x) && x.plan == e.plan && x.rank == e.rank
      && (forall id :: id in x.byId ==> x.byId[id] in VerifierAccepted(e) && x.byId[id].candidateId == id)
      && (forall id :: id in x.byId ==> x.alignment[id] == 1.0 && x.byId[id].confidence <= 1.0)
      && (forall c :: c in VerifierAccepted(e) ==> c.candidateId in x.byId && x.byId[c.candidateId] == c)
  {
    hide WellFormed, VerifierAccepted, VerifierReportOf, WithId;
    var cs := VerifierAccepted(e);
    CriticIdsDiffer(e);
    forall id | id in Ids(cs) ensures WithId(cs, id) in cs && WithId(cs, id).candidateId == id {
      ChosenById(cs, id);
    }
    forall c | c in cs ensures VerifierReportOf(e, c).alignmentScore == 1.0 && c.confidence <= 1.0 {
      VerifiedScore(e, c);
    }
  }

  /** A reported point was made from a group that is kept at its place. */
  lemma {:induction false} KeptPointHasGroup(x: Context, groups: seq<Group>, p: DataPoint) returns (k: nat)
    requires ValidContext(x) && GroupsOk(x, groups) && p in KeptPoints(x, groups)
    ensures k < |groups| && ValidGroup(groups[k]) && GroupKnown(x, groups[k])
    ensures Kept(x, Named(groups[..k]), groups[k]) && p == PointOf(x, groups[k])
  {
    hide Kept, PointOf, ValidContext, ValidGroup, GroupKnown, Named;
    var front, last := groups[..|groups| - 1], groups[|groups| - 1];
    assert last in groups;
    if p in KeptPoints(x, front) {
      k := KeptPointHasGroup(x, front, p);
      assert front[..k] == groups[..k];
    } else {
      k := |front|;
    }
  }

  /** Every reported data point has contributors, all verified candidates of its own approved slot; it takes
      value, span and normalization from one that none of them outranks, and the least of their confidences. */
  lemma ReportedPointIsItsContributors(e: Environment, p: DataPoint)
    requires WellFormed(e) && p in FinalReport(e)
    ensures p.docId == e.plan.docId && SchemaApproves(e.plan, p.category, p.fieldName)
    ensures forall id :: id in p.contributorIds ==> exists c :: ContributesTo(e, c, p) && c.candidateId == id
    ensures forall c :: ContributesTo(e, c, p) ==>
      c.category == p.category && c.fieldName == p.fieldName && p.confidence <= c.confidence && c.span in p.supportingSpans
    ensures exists c :: ContributesTo(e, c, p) && p.confidence == c.confidence
    ensures exists c :: ContributesTo(e, c, p) && TakenFrom(p, c) && NoneOutranks(e, p, c)
    ensures SpansFollow(e, p)
  {
    hide WellFormed, VerifierAccepted, PointOf, Kept, ValidContext, ValidGroup, GroupKnown, ContextOf, Named, RankLess, KeptPoints, PointLess, Sort,
      NoneOutranks, SpansFollow;
    SortKeepsElements(PointsOf(e), PointLess);
    ContextHolds(e);
    var x, b := ContextOf(e, VerifierAccepted(e)), e.reply(VerifierAccepted(e));
    var k := KeptPointHasGroup(x, b.groups, p);
    var least, source := PointOfKept(x, Named(b.groups[..k]), b.groups[k]);
    AreContributors(e, p);
    SpansAreInOrder(e, p);
    SourceIsTop(e, p, source);
  }

  lemma AreContributors(e: Environment, p: DataPoint)
    requires WellFormed(e) && forall id :: id in p.contributorIds ==> id in ContextOf(e, VerifierAccepted(e)).byId
    ensures forall id :: id in p.contributorIds ==>
      ContributesTo(e, ContextOf(e, VerifierAccepted(e)).byId[id], p) && ContextOf(e, VerifierAccepted(e)).byId[id].candidateId == id
  {
    hide WellFormed, VerifierAccepted, ValidContext, ContextOf;
    ContextHolds(e);
  }

  lemma SpansAreInOrder(e: Environment, p: DataPoint)
    requires WellFormed(e) && |p.supportingSpans| == |p.contributorIds|
    requires var x := ContextOf(e, VerifierAccepted(e));
      forall k :: 0 <= k < |p.contributorIds| ==> p.contributorIds[k] in x.byId && p.supportingSpans[k] == x.byId[p.contributorIds[k]].span
    ensures SpansFollow(e, p)
  {
    hide WellFormed, VerifierAccepted, ValidContext, ContextOf;
    var x := ContextOf(e, VerifierAccepted(e));
    AreContributors(e, p);
    forall k | 0 <= k < |p.contributorIds|
      ensures IsSpanOf(e, p, p.contributorIds[k], p.supportingSpans[k])
    {
      assert p.contributorIds[k] in p.contributorIds;
      assert ContributesTo(e, x.byId[p.contributorIds[k]], p);
    }
  }

  lemma SourceIsTop(e: Environment, p: DataPoint, source: string)
    requires WellFormed(e)
    requires var x := ContextOf(e, VerifierAccepted(e));
      source in x.byId && forall id :: id in p.contributorIds ==> id in x.byId && !RankLess(x, x.byId[id], x.byId[source])
    ensures NoneOutranks(e, p, ContextOf(e, VerifierAccepted(e)).byId[source])
  {
    hide WellFormed, VerifierAccepted, ValidContext, ContextOf, RankLess;
    ContextHolds(e);
  }

  /** The same of one kept group in a context whose candidates are fully aligned. */
  lemma PointOfKept(x: Context, accounted: set<string>, g: Group) returns (least: string, source: string)
    requires ValidContext(x) && ValidGroup(g) && GroupKnown(x, g) && Kept(x, accounted, g)
    requires forall id :: id in x.byId ==> x.alignment[id] == 1.0 && x.byId[id].confidence <= 1.0
    ensures var p := PointOf(x, g);
      && p.docId == x.plan.docId && SchemaApproves(x.plan, p.category, p.fieldName) && p.contributorIds == g.contributorIds
      && least in g.contributorIds && source in g.contributorIds && least in x.byId && source in x.byId
      && (forall id :: id in g.contributorIds ==> id in x.byId && x.byId[id].category == p.category && x.byId[id].fieldName == p.fieldName)
      && (forall id :: id in g.contributorIds ==> p.confidence <= x.byId[id].confidence && x.byId[id].span in p.supportingSpans)
      && p.confidence == x.byId[least].confidence
      && x.byId[source].value == p.value && x.byId[source].span == p.span && x.byId[source].normalization == p.normalization
      && (forall id :: id in g.contributorIds ==> !RankLess(x, x.byId[id], x.byId[source]))
      && |p.supportingSpans| == |g.contributorIds| && forall k :: 0 <= k < |g.contributorIds| ==> p.supportingSpans[k] == x.byId[g.contributorIds[k]].span
  {
    hide RankLess, Kept, GroupReasons, ContributorReasons, Comparable, LeastRank, LeastConfidence, NoRepeats;
    KeptExactly(x, accounted, g);
    source := BestSource(x, g);
    forall id | id in g.contributorIds
      ensures !RankLess(x, x.byId[id], x.byId[source]) && x.byId[id].span in PointOf(x, g).supportingSpans
    {
      KeptPointIsLeast(x, accounted, g, id);
    }
    least := source;
    if PointOf(x, g).confidence != x.byId[source].confidence {
      least :| least in g.contributorIds && (PointOf(x, g).confidence == x.byId[least].confidence || PointOf(x, g).confidence == x.alignment[least]);
    }
  }

  /** `a` precedes `b` in a report: by category, then field, then start, then end, then id. */
  predicate Precedes(a: DataPoint, b: DataPoint) {
    || Less(a.category, b.category)
    || (a.category == b.category
        && (|| Less(a.fieldName, b.fieldName)
            || (a.fieldName == b.fieldName
                && (|| a.span.startChar < b.span.startChar
                    || (a.span.startChar == b.span.startChar
                        && (|| a.span.endChar < b.span.endChar
                            || (a.span.endChar == b.span.endChar && Less(a.dataPointId, b.dataPointId))))))))
  }

  /** A report lists exactly the points of the reconciler, each once, in that order. */
  lemma ReportIsOrdered(e: Environment)
    requires WellFormed(e)
    ensures var report := FinalReport(e);
      && (forall p :: p in report <==> p in PointsOf(e)) && |report| == |PointsOf(e)|
      && forall i, j :: 0 <= i < j < |report| ==> Precedes(report[i], report[j])
  {
    hide WellFormed, PointsOf, Less, Sort, PointIdsDiffer;
    PointsDiffer(e);
    PointsOrderAll(PointsOf(e));
    SortKeepsElements(PointsOf(e), PointLess);
    SortSorts(PointsOf(e), PointLess, Elements(PointsOf(e)));
  }

  /** A data point's id digests the point's own fields, its source and its contributors. */
  lemma PointIdDigestsItsFields(x: Context, g: Group)
    requires ValidContext(x) && ValidGroup(g) && GroupKnown(x, g)
    ensures var p := PointOf(x, g);
      exists source :: source in g.contributorIds && source in x.byId && x.byId[source].span == p.span && x.byId[source].value == p.value
        && p.dataPointId == x.digest(PointSeed(p.category, p.fieldName, p.value, source, p.contributorIds, p.span.startChar, p.span.endChar, p.span.text))
  {
    hide LeastConfidence, LeastRank, Comparable;
    var source := BestSource(x, g);
    assert x.byId[source].candidateId == source;
  }
}
