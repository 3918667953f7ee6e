/** orchestrator/state.py: what a resumed run reads back from the store. */
module Replays {
  import opened Wrappers
  import opened Contracts
  import opened Sorting
  import opened CriticCorrections
  import opened Dedup
  import opened DedupRecords
  import opened Reconciliation
  import opened AuditStores

  datatype ResumeError = CannotReplay | PartialOutput

  function RejectedIds(rejections: set<Rejection>, stage: Stage): set<string> {
    set r | r in rejections && r.stage == stage :: r.candidateId
  }

  /** `_review_stage_complete`: done when every expected candidate is accounted for, not begun when none
      is, and otherwise an error. */
  function ReviewStageComplete(expected: set<string>, reported: set<string>, rejections: set<Rejection>, stage: Stage): (r: Result<bool, ResumeError>)
    ensures var accounted := reported + RejectedIds(rejections, stage);
      && (r == Success(true) <==> expected <= accounted)
      && (r == Success(false) <==> expected != {} && expected !! accounted)
      && (r.Failure? <==> (exists id :: id in expected && id in accounted) && exists id :: id in expected && id !in accounted)
  {
    var accounted := reported + RejectedIds(rejections, stage);
    SomeMember(expected);
    SomeMember(expected * accounted);
    SomeMember(expected - accounted);
    Overlap(expected, accounted);
    if expected == {} then Success(true)
    else if expected * accounted == {} then Success(false)
    else if expected - accounted != {} then Failure(PartialOutput)
    else Success(true)
  }

  lemma Overlap(a: set<string>, b: set<string>)
    ensures a * b == {} <==> a !! b
    ensures a - b == {} <==> a <= b
  {
    forall x ensures x in a * b <==> x in a && x in b {
    }
    forall x ensures x in a - b <==> x in a && x !in b {
    }
  }

  lemma SomeMember(s: set<string>)
    ensures s != {} <==> exists id :: id in s
  {
  }

  /** `reconciler_complete` */
  function ReconcilerComplete(expected: set<string>, contributors: set<string>, anyPoints: bool, rejections: set<Rejection>): Result<bool, ResumeError> {
    var rejected := RejectedIds(rejections, ReconcilerStage);
    if expected == {} then Success(true)
    else if !anyPoints && rejected == {} then Success(false)
    else if expected <= contributors + rejected then Success(true)
    else Failure(PartialOutput)
  }

  predicate IdsDiffer(cs: seq<Candidate>) {
    forall i, j :: 0 <= i < j < |cs| ==> cs[i].candidateId != cs[j].candidateId
  }

  lemma DistinctWithoutRepeats(cs: seq<Candidate>)
    requires NoRepeats(cs) && DistinctIds(Elements(cs))
    ensures IdsDiffer(cs)
  {
    forall i, j | 0 <= i < j < |cs| ensures cs[i].candidateId != cs[j].candidateId {
      assert cs[i] in Elements(cs) && cs[j] in Elements(cs);
    }
  }

  predicate MapsIds(byId: map<string, Candidate>, cs: seq<Candidate>) {
    byId.Keys == Ids(Elements(cs)) && forall c :: c in cs ==> c.candidateId in byId && byId[c.candidateId] == c
  }

  /** `_candidate_map`: it fails exactly on a repeated id. */
  method CandidateMap(cs: seq<Candidate>) returns (r: Option<map<string, Candidate>>)
    ensures r.Some? <==> IdsDiffer(cs)
    ensures r.Some? ==> MapsIds(r.value, cs)
  {
    var byId: map<string, Candidate> := map[];
    for i := 0 to |cs|
      invariant IdsDiffer(cs[..i]) && forall id :: id in byId <==> exists k :: 0 <= k < i && cs[k].candidateId == id
      invariant forall k :: 0 <= k < i ==> byId[cs[k].candidateId] == cs[k]
    {
      if cs[i].candidateId in byId {
        return None;
      }
      byId := byId[cs[i].candidateId := cs[i]];
      assert cs[..i + 1] == cs[..i] + [cs[i]];
    }
    assert cs[..|cs|] == cs;
    forall c | c in cs ensures c.candidateId in byId && byId[c.candidateId] == c {
      var k :| 0 <= k < |cs| && cs[k] == c;
    }
    forall id | id in byId ensures id in Ids(Elements(cs)) {
      var k :| 0 <= k < |cs| && cs[k].candidateId == id;
      assert cs[k] in Elements(cs);
    }
    return Some(byId);
  }

  /** The elements that satisfy a flag, in order. */
  function Without(cs: seq<Candidate>, ids: set<string>): (r: seq<Candidate>)
    ensures forall c :: c in r <==> c in cs && c.candidateId !in ids
    ensures NoRepeats(cs) ==> NoRepeats(r)
  {
    if cs == [] then []
    else
      assert forall c :: c in cs <==> c in cs[..|cs| - 1] || c == cs[|cs| - 1];
      var front, last := Without(cs[..|cs| - 1], ids), cs[|cs| - 1];
      if NoRepeats(cs) then
        LastIsNew(cs);
        if last.candidateId in ids then front else front + [last]
      else if last.candidateId in ids then front else front + [last]
  }

  predicate OfRun(plan: Plan, c: Candidate) {
    c.runId == plan.runId && c.docId == plan.docId
  }

  /** `execution_result_from_audit` */
  method ExecutionResultFromAudit(plan: Plan, candidates: seq<Candidate>, rejections: seq<Rejection>)
    returns (r: Option<(seq<Candidate>, seq<Candidate>)>)
    ensures r.Some? <==> IdsDiffer(candidates) && forall c :: c in candidates ==> OfRun(plan, c)
    ensures r.Some? ==>
      var refused := RejectedIds(Elements(rejections), ExecutorStage);
      && Elements(r.value.0) == (set c | c in candidates && c.candidateId !in refused)
      && Elements(r.value.1) == (set c | c in candidates && c.candidateId in refused)
      && (NoRepeats(candidates) ==> NoRepeats(r.value.0))
  {
    hide Without;
    for i := 0 to |candidates|
      invariant forall c :: c in candidates[..i] ==> OfRun(plan, c)
    {
      assert candidates[..i + 1] == candidates[..i] + [candidates[i]];
      if !OfRun(plan, candidates[i]) {
        return None;
      }
    }
    assert candidates[..|candidates|] == candidates;
    var byId := CandidateMap(candidates);
    if byId.None? {
      return None;
    }
    var refused := RejectedIds(Elements(rejections), ExecutorStage);
    var rejected := InMap(byId.value, refused);
    assert Elements(rejected) == set c | c in candidates && c.candidateId in refused;
    return Some((Without(candidates, refused), rejected));
  }

  /** `tuple(by_id[id] for id in sorted(ids) if id in by_id)` */
  method InMap(byId: map<string, Candidate>, ids: set<string>) returns (r: seq<Candidate>)
    ensures forall c :: c in r <==> exists id :: id in ids && id in byId && byId[id] == c
  {
    hide Less;
    var sorted := SortedKeys(ids);
    r := [];
    for i := 0 to |sorted|
      invariant forall c :: c in r <==> exists k :: 0 <= k < i && sorted[k] in byId && byId[sorted[k]] == c
    {
      if sorted[i] in byId {
        r := r + [byId[sorted[i]]];
      }
    }
    forall c ensures c in r <==> exists id :: id in ids && id in byId && byId[id] == c {
      if id :| id in ids && id in byId && byId[id] == c {
        assert id in Elements(sorted);
        var k :| 0 <= k < |sorted| && sorted[k] == id;
      }
      if k :| 0 <= k < |sorted| && sorted[k] in byId && byId[sorted[k]] == c {
        assert sorted[k] in Elements(sorted);
      }
    }
  }

  predicate ReportsKnown(byId: map<string, Candidate>, reports: seq<CriticReport>) {
    forall k :: 0 <= k < |reports| ==> reports[k].candidateId in byId
  }

  /** What the reports accept, corrected, in report order. */
  function AcceptedBy(byId: map<string, Candidate>, reports: seq<CriticReport>): seq<Candidate>
    requires ReportsKnown(byId, reports)
  {
    if reports == [] then []
    else
      var last := reports[|reports| - 1];
      AcceptedBy(byId, reports[..|reports| - 1])
      + if last.review.accepted then [Reviewed(byId[last.candidateId], last.review)] else []
  }

  lemma {:induction false} AcceptedByElements(byId: map<string, Candidate>, reports: seq<CriticReport>)
    requires ReportsKnown(byId, reports)
    ensures forall c :: c in AcceptedBy(byId, reports) <==>
      exists k :: 0 <= k < |reports| && reports[k].review.accepted && Reviewed(byId[reports[k].candidateId], reports[k].review) == c
  {
    hide Reviewed;
    if reports != [] {
      var front := reports[..|reports| - 1];
      AcceptedByElements(byId, front);
      assert forall k :: 0 <= k < |front| ==> front[k] == reports[k];
    }
  }

  predicate ReportsKeepIds(byId: map<string, Candidate>, reports: seq<CriticReport>)
    requires ReportsKnown(byId, reports)
  {
    forall k :: 0 <= k < |reports| ==> Reviewed(byId[reports[k].candidateId], reports[k].review).candidateId == reports[k].candidateId
  }

  predicate ReportIdsDiffer(reports: seq<CriticReport>) {
    forall i, j :: 0 <= i < j < |reports| ==> reports[i].candidateId != reports[j].candidateId
  }

  /** One report a candidate accepts no candidate twice. */
  lemma {:induction false} AcceptedByNoRepeats(byId: map<string, Candidate>, reports: seq<CriticReport>)
    requires ReportsKnown(byId, reports) && ReportsKeepIds(byId, reports) && ReportIdsDiffer(reports)
    ensures NoRepeats(AcceptedBy(byId, reports))
  {
    hide Reviewed;
    if reports != [] {
      var front, last := reports[..|reports| - 1], reports[|reports| - 1];
      assert forall k :: 0 <= k < |front| ==> front[k] == reports[k];
      AcceptedByNoRepeats(byId, front);
      AcceptedByElements(byId, front);
      AppendNew(AcceptedBy(byId, front), Reviewed(byId[last.candidateId], last.review));
    }
  }

  predicate RejectionsKnown(byId: map<string, Candidate>, rejections: seq<Rejection>, stage: Stage) {
    RejectedIds(Elements(rejections), stage) <= byId.Keys
  }

  /** The ids that are refused: by a report, or by a rejection without any report. */
  function RefusedIds(reports: seq<CriticReport>, rejections: seq<Rejection>, stage: Stage): set<string> {
    (set r | r in reports && !r.review.accepted :: r.candidateId)
    + (RejectedIds(Elements(rejections), stage) - set r | r in reports :: r.candidateId)
  }

  /** `critic_result_from_audit` and `verification_result_from_audit`, which differ in that verifier
      reports carry no correction. */
  method ReviewResultFromAudit(stage: Stage, candidates: seq<Candidate>, reports: seq<CriticReport>, rejections: seq<Rejection>)
    returns (r: Option<(seq<Candidate>, seq<Candidate>)>, ghost byId: map<string, Candidate>)
    ensures IdsDiffer(candidates) ==> MapsIds(byId, candidates)
    ensures r.Some? <==> IdsDiffer(candidates) && ReportsKnown(byId, reports) && RejectionsKnown(byId, rejections, stage)
    ensures r.Some? ==> r.value.0 == AcceptedBy(byId, reports)
    ensures r.Some? ==> forall c :: c in r.value.1 <==>
      exists id :: id in RefusedIds(reports, rejections, stage) && id in byId && byId[id] == c
  {
    hide Reviewed, RefusedIds, MapsIds, IdsDiffer;
    var found := CandidateMap(candidates);
    byId := if found.Some? then found.value else map[];
    if found.None? {
      return None, byId;
    }
    var accepted: seq<Candidate> := [];
    for i := 0 to |reports|
      invariant ReportsKnown(byId, reports[..i]) && accepted == AcceptedBy(byId, reports[..i])
    {
      assert reports[..i + 1][..i] == reports[..i];
      var report := reports[i];
      if report.candidateId !in found.value {
        return None, byId;
      }
      if report.review.accepted {
        accepted := accepted + [Reviewed(found.value[report.candidateId], report.review)];
      }
    }
    assert reports[..|reports|] == reports;
    if !RejectionsKnown(found.value, rejections, stage) {
      return None, byId;
    }
    var rejected := InMap(found.value, RefusedIds(reports, rejections, stage));
    return Some((accepted, rejected)), byId;
  }

  lemma EarlierIdsDiffer(all: seq<Candidate>, n: nat, before: seq<Candidate>)
    requires n < |all| && IdsDiffer(all) && before == all[..n]
    ensures forall d :: d in before ==> d.candidateId != all[n].candidateId
  {
  }

  lemma PrefixIdsDiffer(all: seq<Candidate>, part: seq<Candidate>)
    requires IdsDiffer(all) && part <= all
    ensures IdsDiffer(part)
  {
  }
}
