/** The critic step of the orchestrator: review live, or read the reports back; either way the same
    candidates come out. */
module CriticReviews {
  import opened Contracts
  import opened Sorting
  import opened CandidateBuilding
  import opened CandidateViews
  import opened CriticCorrections
  import opened Dedup
  import opened DedupRecords
  import opened Batching
  import opened AuditStores
  import opened PipelineSpec
  import opened PipelineFacts
  import opened Replays
  import opened CriticSteps
  import opened CriticMirrors

  lemma {:induction false} MirrorMembers(e: Environment, merged: map<string, string>, keys: seq<string>, x: Candidate)
    requires KeysOk(e, merged, keys)
    ensures x in MirrorAccepted(e, merged, keys) <==>
      exists id :: id in keys && MirrorOf(e, merged, id).review.accepted && x == Reviewed(AcceptedWithId(e, id), MirrorOf(e, merged, id).review)
    ensures x in MirrorRejected(e, merged, keys) <==>
      exists id :: id in keys && !MirrorOf(e, merged, id).review.accepted && x == AcceptedWithId(e, id)
  {
    hide MirrorOf, Reviewed, AcceptedWithId, ExecutorAccepted;
    if keys != [] {
      var front, last := keys[..|keys| - 1], keys[|keys| - 1];
      assert forall id :: id in keys <==> id in front || id == last;
      MirrorMembers(e, merged, front, x);
    }
  }

  /** A merged candidate is found by its id, with its mirrored report. */
  lemma MergedById(e: Environment, merged: map<string, string>, c: Candidate, p: Candidate)
    requires WellFormed(e) && IsMergeMap(e, merged) && Merged(e, c, p)
    ensures c.candidateId in merged && c.candidateId in Ids(ExecutorAccepted(e)) && merged[c.candidateId] in Ids(ExecutorAccepted(e))
    ensures AcceptedWithId(e, c.candidateId) == c && MirrorOf(e, merged, c.candidateId) == MirroredReport(e, c, p)
  {
    hide WellFormed, ExecutorAccepted, Merged, WithId, IsMergeMap, MirroredReport;
    MergeMapEntry(e, merged, c, p);
    MergeOfId(e, merged, c.candidateId);
    MergedAreInput(e, c, p);
    ExecutedIdsDiffer(e);
    WithIdIs(ExecutorAccepted(e), c);
    WithIdIs(ExecutorAccepted(e), p);
  }

  lemma MergeMapEntry(e: Environment, merged: map<string, string>, c: Candidate, p: Candidate)
    requires IsMergeMap(e, merged) && Merged(e, c, p)
    ensures c.candidateId in merged && merged[c.candidateId] == p.candidateId
  {
    hide Merged;
  }

  /** The mirrored reports are those of the merged candidates. */
  lemma MirrorsAreAll(e: Environment, merged: map<string, string>, keys: seq<string>)
    requires WellFormed(e) && IsMergeMap(e, merged) && Elements(keys) == merged.Keys && KeysOk(e, merged, keys)
    ensures Elements(MirrorsOf(e, merged, keys)) == MirroredReports(e)
  {
    hide WellFormed, ExecutorAccepted, Merged, WithId, IsMergeMap, MirroredReport, MirrorOf, AcceptedWithId;
    forall r | r in MirrorsOf(e, merged, keys) ensures r in MirroredReports(e) {
      var k :| 0 <= k < |keys| && MirrorsOf(e, merged, keys)[k] == r;
      assert keys[k] in keys;
      MirrorIsMirrored(e, merged, keys[k]);
    }
    forall r | r in MirroredReports(e) ensures r in MirrorsOf(e, merged, keys) {
      var c, p :| c in ExecutorAccepted(e) && p in ExecutorAccepted(e) && Merged(e, c, p) && r == MirroredReport(e, c, p);
      MergedById(e, merged, c, p);
      assert c.candidateId in Elements(keys);
      var k :| 0 <= k < |keys| && keys[k] == c.candidateId;
      assert MirrorsOf(e, merged, keys)[k] == r;
    }
  }

  lemma MirrorIsMirrored(e: Environment, merged: map<string, string>, id: string)
    requires WellFormed(e) && IsMergeMap(e, merged) && id in merged
    ensures id in Ids(ExecutorAccepted(e)) && merged[id] in Ids(ExecutorAccepted(e))
    ensures MirrorOf(e, merged, id) in MirroredReports(e)
    ensures Reported(e, AcceptedWithId(e, id), MirrorOf(e, merged, id)) && AcceptedWithId(e, id) in ExecutorAccepted(e)
    ensures MirrorOf(e, merged, id) in CriticReports(e)
  {
    hide WellFormed, ExecutorAccepted, Merged, WithId, IsMergeMap, MirroredReport;
    MergeOfId(e, merged, id);
    MergedAreInput(e, AcceptedWithId(e, id), AcceptedWithId(e, merged[id]));
  }

  /** What is accepted and rejected, live: the canonical candidates first, then the merged ones. */
  lemma LiveOutcomes(e: Environment, merged: map<string, string>, cs: seq<Candidate>, keys: seq<string>)
    requires WellFormed(e) && IsMergeMap(e, merged) && Elements(keys) == merged.Keys && KeysOk(e, merged, keys)
    requires Elements(cs) == Canonical(e)
    ensures Elements(AcceptedOf(e, cs) + MirrorAccepted(e, merged, keys)) == CriticAccepted(e)
    ensures Elements(RejectedOf(e, cs) + MirrorRejected(e, merged, keys)) == CriticRejectedCandidates(e)
  {
    hide WellFormed, ExecutorAccepted, WithId, IsMergeMap, MirrorOf, AcceptedWithId, AcceptedOf, RejectedOf, MirrorAccepted,
      MirrorRejected, Canonical, Reported, CriticReports, Reviewed, ReviewOf, KeysOk, CriticAccepted, CriticRejectedCandidates;
    forall x
      ensures x in AcceptedOf(e, cs) + MirrorAccepted(e, merged, keys) <==> x in CriticAccepted(e)
      ensures x in RejectedOf(e, cs) + MirrorRejected(e, merged, keys) <==> x in CriticRejectedCandidates(e)
    {
      if x in AcceptedOf(e, cs) + MirrorAccepted(e, merged, keys) || x in RejectedOf(e, cs) + MirrorRejected(e, merged, keys) {
        LiveIsSpec(e, merged, cs, keys, x);
      }
      if x in CriticAccepted(e) || x in CriticRejectedCandidates(e) {
        SpecIsLive(e, merged, cs, keys, x);
      }
    }
  }

  lemma LiveIsSpec(e: Environment, merged: map<string, string>, cs: seq<Candidate>, keys: seq<string>, x: Candidate)
    requires WellFormed(e) && IsMergeMap(e, merged) && Elements(keys) == merged.Keys && KeysOk(e, merged, keys)
    requires Elements(cs) == Canonical(e)
    ensures x in AcceptedOf(e, cs) + MirrorAccepted(e, merged, keys) ==> x in CriticAccepted(e)
    ensures x in RejectedOf(e, cs) + MirrorRejected(e, merged, keys) ==> x in CriticRejectedCandidates(e)
  {
    hide WellFormed, ExecutorAccepted, WithId, IsMergeMap, MirrorOf, AcceptedWithId, AcceptedOf, RejectedOf, MirrorAccepted,
      MirrorRejected, Canonical, Reported, CriticReports, Reviewed, ReviewOf, KeysOk;
    AcceptedOfMember(e, cs, x);
    MirrorMembers(e, merged, keys, x);
    forall c | c in cs ensures c in ExecutorAccepted(e) && Reported(e, c, CanonicalReport(e, c)) && CanonicalReport(e, c) in CriticReports(e) {
      assert c in Elements(cs);
      CanonicalIsReported(e, c);
    }
    forall id | id in keys
      ensures id in merged && id in Ids(ExecutorAccepted(e)) && merged[id] in Ids(ExecutorAccepted(e))
      ensures AcceptedWithId(e, id) in ExecutorAccepted(e) && Reported(e, AcceptedWithId(e, id), MirrorOf(e, merged, id))
      ensures MirrorOf(e, merged, id) in CriticReports(e)
    {
      assert id in Elements(keys);
      MirrorIsMirrored(e, merged, id);
    }
  }

  lemma CanonicalIsReported(e: Environment, c: Candidate)
    requires c in Canonical(e)
    ensures c in ExecutorAccepted(e) && Reported(e, c, CanonicalReport(e, c)) && CanonicalReport(e, c) in CriticReports(e)
    ensures CanonicalReport(e, c).review == ReviewOf(e, c)
  {
    hide ExecutorAccepted, Canonical, MirroredReports, ReviewOf, Merged;
    CanonicalAreAccepted(e, c);
  }

  lemma SpecIsLive(e: Environment, merged: map<string, string>, cs: seq<Candidate>, keys: seq<string>, x: Candidate)
    requires WellFormed(e) && IsMergeMap(e, merged) && Elements(keys) == merged.Keys && KeysOk(e, merged, keys)
    requires Elements(cs) == Canonical(e)
    ensures x in CriticAccepted(e) ==> x in AcceptedOf(e, cs) + MirrorAccepted(e, merged, keys)
    ensures x in CriticRejectedCandidates(e) ==> x in RejectedOf(e, cs) + MirrorRejected(e, merged, keys)
  {
    hide WellFormed, ExecutorAccepted, WithId, IsMergeMap, MirrorOf, AcceptedWithId, AcceptedOf, RejectedOf, MirrorAccepted,
      MirrorRejected, Canonical, Reported, CriticReports, Reviewed, ReviewOf, KeysOk;
    AcceptedOfMember(e, cs, x);
    MirrorMembers(e, merged, keys, x);
    if x in CriticAccepted(e) {
      var c, r :| c in ExecutorAccepted(e) && r in CriticReports(e) && Reported(e, c, r) && r.review.accepted && x == Reviewed(c, r.review);
      WhichReport(e, merged, cs, keys, c, r);
    }
    if x in CriticRejectedCandidates(e) {
      var c, r :| c in ExecutorAccepted(e) && r in CriticReports(e) && Reported(e, c, r) && !r.review.accepted && x == c;
      WhichReport(e, merged, cs, keys, c, r);
    }
  }

  lemma WhichReport(e: Environment, merged: map<string, string>, cs: seq<Candidate>, keys: seq<string>, c: Candidate, r: CriticReport)
    requires WellFormed(e) && IsMergeMap(e, merged) && Elements(keys) == merged.Keys && KeysOk(e, merged, keys)
    requires Elements(cs) == Canonical(e) && Reported(e, c, r)
    ensures (c in cs && r.review == ReviewOf(e, c))
      || (c.candidateId in keys && AcceptedWithId(e, c.candidateId) == c && MirrorOf(e, merged, c.candidateId) == r)
  {
    hide WellFormed, ExecutorAccepted, WithId, IsMergeMap, MirrorOf, AcceptedWithId, Canonical, ReviewOf, Merged, MirroredReport;
    if c in Canonical(e) && r == CanonicalReport(e, c) {
      assert c in Elements(cs);
    } else {
      var p :| Merged(e, c, p) && r == MirroredReport(e, c, p);
      MergedById(e, merged, c, p);
      assert c.candidateId in Elements(keys);
    }
  }

  /** Live, no candidate is accepted twice. */
  lemma LiveIdsDiffer(e: Environment, merged: map<string, string>, cs: seq<Candidate>, keys: seq<string>)
    requires WellFormed(e) && IsMergeMap(e, merged) && Elements(keys) == merged.Keys && KeysOk(e, merged, keys) && IsSorted(keys, Less)
    requires Elements(cs) == Canonical(e) && IdsDiffer(cs)
    ensures IdsDiffer(AcceptedOf(e, cs) + MirrorAccepted(e, merged, keys))
  {
    hide WellFormed, ExecutorAccepted, WithId, IsMergeMap, MirrorOf, AcceptedWithId, AcceptedOf, MirrorAccepted, Canonical, Reviewed, ReviewOf, Less;
    AcceptedOfNoRepeats(e, cs);
    MirrorIdsDiffer(e, merged, keys);
    var live, mirrors := AcceptedOf(e, cs), MirrorAccepted(e, merged, keys);
    forall i, k | 0 <= i < |live| && 0 <= k < |mirrors| ensures live[i].candidateId != mirrors[k].candidateId {
      LiveIsNotMirror(e, merged, cs, keys, live[i], mirrors[k]);
    }
    ConcatIdsDiffer(live, mirrors);
  }

  lemma ConcatIdsDiffer(a: seq<Candidate>, b: seq<Candidate>)
    requires IdsDiffer(a) && IdsDiffer(b)
    requires forall i, k :: 0 <= i < |a| && 0 <= k < |b| ==> a[i].candidateId != b[k].candidateId
    ensures IdsDiffer(a + b)
  {
    forall i, j | 0 <= i < j < |a + b| ensures (a + b)[i].candidateId != (a + b)[j].candidateId {
      if i >= |a| {
        assert b[i - |a|].candidateId != b[j - |a|].candidateId;
      }
    }
  }

  lemma MirrorKeepsId(e: Environment, merged: map<string, string>, id: string)
    requires WellFormed(e) && IsMergeMap(e, merged) && id in merged && id in Ids(ExecutorAccepted(e)) && merged[id] in Ids(ExecutorAccepted(e))
    ensures Reviewed(AcceptedWithId(e, id), MirrorOf(e, merged, id).review).candidateId == id
  {
    hide WellFormed, ExecutorAccepted, WithId, IsMergeMap, ReviewOf, MirrorReview, Reviewed, Merged;
    MergeOfId(e, merged, id);
    MirrorKeepsOrigin(ReviewOf(e, AcceptedWithId(e, merged[id])), AcceptedWithId(e, id));
  }

  lemma {:induction false} MirrorIdsDiffer(e: Environment, merged: map<string, string>, keys: seq<string>)
    requires WellFormed(e) && IsMergeMap(e, merged) && KeysOk(e, merged, keys) && IsSorted(keys, Less)
    ensures IdsDiffer(MirrorAccepted(e, merged, keys))
  {
    hide WellFormed, ExecutorAccepted, WithId, IsMergeMap, MirrorOf, AcceptedWithId, Reviewed, Less, Ids;
    if keys != [] {
      var front, last := keys[..|keys| - 1], keys[|keys| - 1];
      MirrorIdsDiffer(e, merged, front);
      assert last in keys;
      KeyIsNew(keys, |keys| - 1);
      MirrorKeepsId(e, merged, last);
      forall x | x in MirrorAccepted(e, merged, front) ensures x.candidateId != last {
        MirrorMembers(e, merged, front, x);
        var id :| id in front && MirrorOf(e, merged, id).review.accepted && x == Reviewed(AcceptedWithId(e, id), MirrorOf(e, merged, id).review);
        assert id in keys;
        MirrorKeepsId(e, merged, id);
      }
    }
  }

  lemma LiveIsNotMirror(e: Environment, merged: map<string, string>, cs: seq<Candidate>, keys: seq<string>, x: Candidate, y: Candidate)
    requires WellFormed(e) && IsMergeMap(e, merged) && KeysOk(e, merged, keys) && Elements(cs) == Canonical(e)
    requires x in AcceptedOf(e, cs) && y in MirrorAccepted(e, merged, keys)
    ensures x.candidateId != y.candidateId
  {
    hide WellFormed, ExecutorAccepted, WithId, IsMergeMap, MirrorOf, AcceptedOf, MirrorAccepted, Canonical, Reviewed, ReviewOf, Merged;
    AcceptedOfMember(e, cs, x);
    MirrorMembers(e, merged, keys, y);
    var c :| c in cs && ReviewOf(e, c).accepted && x == Reviewed(c, ReviewOf(e, c));
    var id :| id in keys && MirrorOf(e, merged, id).review.accepted && y == Reviewed(AcceptedWithId(e, id), MirrorOf(e, merged, id).review);
    assert c in Elements(cs);
    ReviewKeepsOrigin(e, c);
    MirrorKeepsId(e, merged, id);
    if c.candidateId == id {
      MergeOfId(e, merged, id);
      CanonicalIsNotMerged(e, AcceptedWithId(e, id), AcceptedWithId(e, merged[id]));
      CanonicalAreAccepted(e, c);
      ExecutedIdsDiffer(e);
      WithIdIs(ExecutorAccepted(e), c);
    }
  }

  /** The store after all mirrored reports is the store of boundary 5. */
  lemma CriticStores(e: Environment, merged: map<string, string>, cs: seq<Candidate>, keys: seq<string>)
    requires WellFormed(e) && IsMergeMap(e, merged) && Elements(keys) == merged.Keys && KeysOk(e, merged, keys)
    requires Elements(cs) == Canonical(e)
    ensures AfterMirrors(e, merged, keys) == StoreAt(e, 5)
  {
    hide WellFormed, ExecutorAccepted, IsMergeMap, MirrorsOf, MirrorOf, KeysOk, Canonical, ReviewOf, CanonicalReport, MirroredReports, CanonicalReports,
      RejectionsAt, PointsOf, VerifierReports, Executed;
    MirrorsAreAll(e, merged, keys);
  }

  /** When nothing was accepted there is nothing to review. */
  lemma NothingToReview(e: Environment)
    requires WellFormed(e) && Canonical(e) == {}
    ensures ExecutorAccepted(e) == {} && CriticReports(e) == {} && CriticRejections(e) == {}
    ensures CriticAccepted(e) == {} && CriticRejectedCandidates(e) == {} && StoreAt(e, 4) == StoreAt(e, 5)
  {
    hide WellFormed, Merged, ExecutorRejectionsUpTo, DedupRejections, VerifierRejections, ReconcilerRejections, PointsOf, VerifierReports, Executed,
      ReviewOf, MirroredReport, Canonical;
    forall c | c in ExecutorAccepted(e) ensures false {
      var p := CanonicalOrMerged(e, c);
      if c !in Canonical(e) {
        MergedAreInput(e, c, p);
      }
    }
  }

  lemma CanonicalAreFit(e: Environment, cs: seq<Candidate>)
    requires WellFormed(e) && Elements(cs) == Canonical(e)
    ensures CriticInputsValid(e, cs)
  {
    hide FitForReview, Identity, IdLess, ExecutorBuilt, ViewHolds, EvidenceHolds;
    forall c | c in cs ensures FitForReview(e, c) && ViewHolds(c) {
      assert c in Elements(cs);
      CanonicalAreAccepted(e, c);
      var k :| 0 <= k < |e.outcomes| && e.outcomes[k].1 == [] && OutcomeCandidate(e, k) == c;
      BuiltHasView(c);
    }
  }

  lemma BuiltHasView(c: Candidate)
    requires ExecutorBuilt(c)
    ensures ViewHolds(c)
  {
    hide NonBlank, ValidSpan, NormalizationMetadata;
    ExecutorBuiltPins(c);
  }

  /** `review_candidates`: nothing raises, and what it returns and records is the reference. */
  method ReviewCandidates(e: Environment, store: AuditStore, canonical: seq<Candidate>, merged: map<string, string>, duplicates: seq<Candidate>)
    returns (accepted: seq<Candidate>, rejected: seq<Candidate>, reports: seq<CriticReport>)
    requires WellFormed(e) && IsMergeMap(e, merged) && Elements(canonical) == Canonical(e) && NoRepeats(canonical)
    requires NoRepeats(duplicates) && Elements(duplicates) == set c | c in ExecutorAccepted(e) && c.candidateId in merged
    requires store.Valid() && store.Contents() == StoreAt(e, 4)
    modifies store
    ensures store.Valid() && store.Contents() == StoreAt(e, 5)
    ensures Elements(accepted) == CriticAccepted(e) && IdsDiffer(accepted) && Elements(rejected) == CriticRejectedCandidates(e)
    ensures Elements(reports) == CriticReports(e) && ReportIdsDiffer(reports)
  {
    hide WellFormed, ExecutorAccepted, IsMergeMap, StoreAt, Canonical, ReportIdsDiffer, CriticAccepted, CriticRejectedCandidates, CriticReports, MirroredReports, CanonicalReports,
      FitForReview, AfterReviews, AfterMirrors, AfterCanonical, KeysOk, AuditStore.Valid, AuditStore.Contents, MirrorAccepted, MirrorRejected, AcceptedOf, RejectedOf, IdsDiffer;
    if canonical == [] {
      NoElements(canonical);
      NothingToReview(e);
      NoIds();
      return [], [], [];
    }
    CanonicalAreFit(e, canonical);
    BatchesAreBounded(e);
    assert CriticInputsValid(e, canonical);
    var batches := PartitionIntoBatches(canonical, e.batchSize);
    ghost var flat := Flatten(batches);
    FlatIsCanonical(e, canonical, flat);
    EmptyCriticStore(e);
    CanonicalAreFit(e, flat);
    accepted, rejected, reports := ReviewBatches(e, store, batches);
    ReportsAreCanonical(e, flat);
    ReviewedStore(e, flat);
    var mirroredAccepted, mirroredRejected, mirrored, keys := MirrorMergedCriticReports(e, store, reports, merged, duplicates);
    CriticStores(e, merged, flat, keys);
    LiveOutcomes(e, merged, flat, keys);
    LiveIdsDiffer(e, merged, flat, keys);
    MirrorsAreAll(e, merged, keys);
    LiveReportsDiffer(e, merged, flat, keys);
    AllReports(e, reports, mirrored);
    accepted, rejected, reports := accepted + mirroredAccepted, rejected + mirroredRejected, reports + mirrored;
  }

  /** Live, no candidate is reported twice. */
  lemma LiveReportsDiffer(e: Environment, merged: map<string, string>, cs: seq<Candidate>, keys: seq<string>)
    requires WellFormed(e) && IsMergeMap(e, merged) && KeysOk(e, merged, keys) && IsSorted(keys, Less)
    requires Elements(cs) == Canonical(e) && IdsDiffer(cs)
    ensures ReportIdsDiffer(ReportsOf(e, cs) + MirrorsOf(e, merged, keys))
  {
    hide WellFormed, ExecutorAccepted, WithId, IsMergeMap, AcceptedWithId, Canonical, ReviewOf, MirrorReview, Less;
    var live, mirrors := ReportsOf(e, cs), MirrorsOf(e, merged, keys);
    forall k | 0 <= k < |keys| ensures mirrors[k].candidateId == keys[k] {
      assert keys[k] in keys;
      MergeOfId(e, merged, keys[k]);
    }
    forall i, k | 0 <= i < |cs| && 0 <= k < |keys| ensures cs[i].candidateId != keys[k] {
      assert keys[k] in keys && cs[i] in Elements(cs);
      CanonicalIdIsNotMerged(e, merged, cs[i], keys[k]);
    }
    forall i, j | 0 <= i < j < |live + mirrors| ensures (live + mirrors)[i].candidateId != (live + mirrors)[j].candidateId {
      if i >= |live| {
        KeyIsNew(keys, j - |live|);
        assert keys[i - |live|] in keys[..j - |live|];
      }
    }
  }

  lemma CanonicalIdIsNotMerged(e: Environment, merged: map<string, string>, c: Candidate, id: string)
    requires WellFormed(e) && IsMergeMap(e, merged) && c in Canonical(e) && id in merged
    ensures c.candidateId != id
  {
    hide WellFormed, ExecutorAccepted, WithId, IsMergeMap, Canonical, Merged;
    MergeOfId(e, merged, id);
    CanonicalIsNotMerged(e, AcceptedWithId(e, id), AcceptedWithId(e, merged[id]));
    if c.candidateId == id {
      CanonicalAreAccepted(e, c);
      ExecutedIdsDiffer(e);
      WithIdIs(ExecutorAccepted(e), c);
    }
  }

  lemma NoIds()
    ensures IdsDiffer([]) && ReportIdsDiffer([])
  {
  }

  lemma FlatIsCanonical(e: Environment, canonical: seq<Candidate>, flat: seq<Candidate>)
    requires WellFormed(e) && NoRepeats(canonical) && Elements(canonical) == Canonical(e) && multiset(flat) == multiset(canonical)
    ensures Elements(flat) == Canonical(e) && IdsDiffer(flat)
  {
    hide WellFormed, Canonical, DistinctIds, IdsDiffer;
    SameMultisetNoRepeats(canonical, flat);
    forall x ensures x in flat <==> x in canonical {
      assert x in multiset(flat) <==> x in multiset(canonical);
    }
    SameElements(flat, canonical);
    CanonicalIdsDiffer(e);
    DistinctWithoutRepeats(flat);
  }

  lemma CanonicalIdsDiffer(e: Environment)
    requires WellFormed(e)
    ensures DistinctIds(Canonical(e))
  {
    hide WellFormed, ExecutorAccepted, IsPrimary;
    ExecutedIdsDiffer(e);
  }

  lemma EmptyCriticStore(e: Environment)
    ensures AfterReviews(e, []) == StoreAt(e, 4)
  {
    hide ExecutorRejectionsUpTo, DedupRejections, CriticRejections, VerifierRejections, ReconcilerRejections, PointsOf, VerifierReports, Executed, ReviewOf;
    ReportsOfElements(e, []);
  }

  lemma ReportsAreCanonical(e: Environment, cs: seq<Candidate>)
    requires Elements(cs) == Canonical(e)
    ensures Elements(ReportsOf(e, cs)) == CanonicalReports(e)
  {
    hide Canonical, CanonicalReport, ReportsOf;
    ReportsOfElements(e, cs);
    assert forall c :: c in cs <==> c in Elements(cs);
  }

  lemma ReviewedStore(e: Environment, cs: seq<Candidate>)
    requires Elements(cs) == Canonical(e)
    ensures AfterReviews(e, cs) == AfterCanonical(e)
  {
    hide ExecutorAccepted, Canonical, ReviewOf, CanonicalReport, MirroredReports, CanonicalReports, ReportsOf,
      ExecutorRejectionsUpTo, DedupRejections, VerifierRejections, ReconcilerRejections, PointsOf, VerifierReports, Executed, CriticRejection;
    ReportsAreCanonical(e, cs);
    assert RejectionsOfAll(e, cs) == CriticRejections(e) by {
      assert forall c :: c in cs <==> c in Elements(cs);
    }
  }

  lemma AllReports(e: Environment, reports: seq<CriticReport>, mirrored: seq<CriticReport>)
    requires Elements(reports) == CanonicalReports(e) && Elements(mirrored) == MirroredReports(e)
    ensures Elements(reports + mirrored) == CriticReports(e)
  {
    hide CanonicalReports, MirroredReports;
    forall r ensures r in reports + mirrored <==> r in Elements(reports) || r in Elements(mirrored) {
    }
  }
}
