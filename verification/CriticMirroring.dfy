/** critic/mirroring.py: each merged candidate gets its primary's outcome. */
module CriticMirrors {
  import opened Wrappers
  import opened Contracts
  import opened Sorting
  import opened CriticCorrections
  import opened Dedup
  import opened DedupRecords
  import opened AuditStores
  import opened PipelineSpec
  import opened PipelineFacts
  import opened Replays

  /** The candidate of an id among those the executor accepted. */
  ghost function AcceptedWithId(e: Environment, id: string): Candidate
    requires id in Ids(ExecutorAccepted(e))
  {
    WithId(ExecutorAccepted(e), id)
  }

  /** The dictionary of merges fits the environment. */
  ghost predicate IsMergeMap(e: Environment, merged: map<string, string>) {
    && (forall c, p :: Merged(e, c, p) ==> c.candidateId in merged && merged[c.candidateId] == p.candidateId)
    && (forall id :: id in merged ==> exists c, p :: Merged(e, c, p) && c.candidateId == id)
  }

  lemma DedupGivesMergeMap(e: Environment, canonical: seq<Candidate>, merged: map<string, string>)
    requires Deduplicated(ExecutorAccepted(e), canonical, merged, e.normalize)
    ensures IsMergeMap(e, merged)
  {
    hide MergedInto, ExecutorAccepted;
    forall c, p | Merged(e, c, p) ensures c.candidateId in merged && merged[c.candidateId] == p.candidateId {
      assert MergedInto(ExecutorAccepted(e), c, p, e.normalize);
    }
    forall id | id in merged ensures exists c, p :: Merged(e, c, p) && c.candidateId == id {
      var c, p :| MergedInto(ExecutorAccepted(e), c, p, e.normalize) && c.candidateId == id;
      assert Merged(e, c, p);
    }
  }

  lemma WithIdIs(cs: set<Candidate>, c: Candidate)
    requires DistinctIds(cs) && c in cs
    ensures c.candidateId in Ids(cs) && WithId(cs, c.candidateId) == c
  {
    assert c.candidateId in Ids(cs);
  }

  lemma MergeOfId(e: Environment, merged: map<string, string>, id: string)
    requires WellFormed(e) && IsMergeMap(e, merged) && id in merged
    ensures id in Ids(ExecutorAccepted(e)) && merged[id] in Ids(ExecutorAccepted(e))
    ensures Merged(e, AcceptedWithId(e, id), AcceptedWithId(e, merged[id]))
    ensures AcceptedWithId(e, id).candidateId == id && AcceptedWithId(e, merged[id]).candidateId == merged[id]
  {
    hide WellFormed, ExecutorAccepted, Merged, WithId;
    var c, p :| Merged(e, c, p) && c.candidateId == id;
    ExecutedIdsDiffer(e);
    MergedAreInput(e, c, p);
    WithIdIs(ExecutorAccepted(e), c);
    WithIdIs(ExecutorAccepted(e), p);
  }

  /** The mirrored report of a merged id. */
  ghost function MirrorOf(e: Environment, merged: map<string, string>, id: string): CriticReport
    requires id in merged && id in Ids(ExecutorAccepted(e)) && merged[id] in Ids(ExecutorAccepted(e))
  {
    MirroredReport(e, AcceptedWithId(e, id), AcceptedWithId(e, merged[id]))
  }

  ghost predicate KeysOk(e: Environment, merged: map<string, string>, keys: seq<string>) {
    forall id :: id in keys ==> id in merged && id in Ids(ExecutorAccepted(e)) && merged[id] in Ids(ExecutorAccepted(e))
  }

  ghost function MirrorsOf(e: Environment, merged: map<string, string>, keys: seq<string>): seq<CriticReport>
    requires KeysOk(e, merged, keys)
  {
    seq(|keys|, i requires 0 <= i < |keys| => assert keys[i] in keys; MirrorOf(e, merged, keys[i]))
  }

  ghost function MirrorAccepted(e: Environment, merged: map<string, string>, keys: seq<string>): seq<Candidate>
    requires KeysOk(e, merged, keys)
  {
    if keys == [] then []
    else
      var id := keys[|keys| - 1];
      var r := MirrorOf(e, merged, id);
      MirrorAccepted(e, merged, keys[..|keys| - 1]) + if r.review.accepted then [Reviewed(AcceptedWithId(e, id), r.review)] else []
  }

  ghost function MirrorRejected(e: Environment, merged: map<string, string>, keys: seq<string>): seq<Candidate>
    requires KeysOk(e, merged, keys)
  {
    if keys == [] then []
    else
      var id := keys[|keys| - 1];
      MirrorRejected(e, merged, keys[..|keys| - 1]) + if MirrorOf(e, merged, id).review.accepted then [] else [AcceptedWithId(e, id)]
  }

  lemma MirrorsSnoc(e: Environment, merged: map<string, string>, keys: seq<string>, id: string)
    requires KeysOk(e, merged, keys + [id])
    ensures KeysOk(e, merged, keys) && id in merged && id in Ids(ExecutorAccepted(e)) && merged[id] in Ids(ExecutorAccepted(e))
    ensures MirrorsOf(e, merged, keys + [id]) == MirrorsOf(e, merged, keys) + [MirrorOf(e, merged, id)]
    ensures MirrorAccepted(e, merged, keys + [id]) == MirrorAccepted(e, merged, keys)
      + if MirrorOf(e, merged, id).review.accepted then [Reviewed(AcceptedWithId(e, id), MirrorOf(e, merged, id).review)] else []
    ensures MirrorRejected(e, merged, keys + [id]) == MirrorRejected(e, merged, keys)
      + if MirrorOf(e, merged, id).review.accepted then [] else [AcceptedWithId(e, id)]
  {
    hide MirrorOf, Reviewed, AcceptedWithId, ExecutorAccepted;
    assert (keys + [id])[..|keys|] == keys;
    assert id in keys + [id];
  }

  /** `reports_by_candidate.get(id)` */
  function LastReport(reports: seq<CriticReport>, id: string): (r: Option<CriticReport>)
    ensures r.Some? ==> r.value in reports && r.value.candidateId == id
    ensures r.None? ==> forall s :: s in reports ==> s.candidateId != id
  {
    if reports == [] then None
    else
      assert forall s :: s in reports <==> s in reports[..|reports| - 1] || s == reports[|reports| - 1];
      if reports[|reports| - 1].candidateId == id then Some(reports[|reports| - 1])
      else LastReport(reports[..|reports| - 1], id)
  }

  /** The primary's report is found. */
  lemma PrimaryReported(e: Environment, reports: seq<CriticReport>, p: Candidate)
    requires WellFormed(e) && p in Canonical(e) && Elements(reports) == CanonicalReports(e)
    ensures LastReport(reports, p.candidateId) == Some(CanonicalReport(e, p))
  {
    hide WellFormed, ReviewOf, ExecutorAccepted, Canonical, DistinctIds;
    assert CanonicalReport(e, p) in Elements(reports);
    var found := LastReport(reports, p.candidateId);
    assert found.value in Elements(reports);
    var q :| q in Canonical(e) && found.value == CanonicalReport(e, q);
    ExecutedIdsDiffer(e);
    CanonicalAreAccepted(e, p);
    CanonicalAreAccepted(e, q);
    SameId(ExecutorAccepted(e), p, q);
  }

  lemma SameId(cs: set<Candidate>, p: Candidate, q: Candidate)
    requires DistinctIds(cs) && p in cs && q in cs && p.candidateId == q.candidateId
    ensures p == q
  {
  }

  /** The store when the canonical candidates, and the merged ones of `keys`, have their reports. */
  ghost function AfterMirrors(e: Environment, merged: map<string, string>, keys: seq<string>): Tables
    requires KeysOk(e, merged, keys)
  {
    StoreAt(e, 5).(criticReports := CanonicalReports(e) + Elements(MirrorsOf(e, merged, keys)))
  }

  /** A merged candidate that comes later has no report yet. */
  lemma NotYetMirrored(e: Environment, merged: map<string, string>, keys: seq<string>, id: string)
    requires WellFormed(e) && IsMergeMap(e, merged) && KeysOk(e, merged, keys + [id]) && id !in keys
    ensures KeysOk(e, merged, keys) && id in merged && id in Ids(ExecutorAccepted(e)) && merged[id] in Ids(ExecutorAccepted(e))
    ensures MirrorOf(e, merged, id) !in CanonicalReports(e) + Elements(MirrorsOf(e, merged, keys))
  {
    hide WellFormed, ReviewOf, ExecutorAccepted, Canonical, Merged, WithId, MirrorReview, IsMergeMap;
    assert id in keys + [id];
    assert forall k :: k in keys ==> k in keys + [id];
    MergeOfId(e, merged, id);
    var m := MirrorOf(e, merged, id);
    if m in CanonicalReports(e) {
      var c :| c in Canonical(e) && m == CanonicalReport(e, c);
      CanonicalAreAccepted(e, c);
      ExecutedIdsDiffer(e);
      WithIdIs(ExecutorAccepted(e), c);
      CanonicalIsNotMerged(e, c, AcceptedWithId(e, merged[id]));
    }
    forall k | 0 <= k < |keys| ensures MirrorsOf(e, merged, keys)[k] != m {
      assert keys[k] in keys;
      MergeOfId(e, merged, keys[k]);
    }
  }

  /** The store before mirroring. */
  ghost function AfterCanonical(e: Environment): Tables {
    StoreAt(e, 5).(criticReports := CanonicalReports(e))
  }

  lemma NoMirrorsYet(e: Environment, merged: map<string, string>)
    ensures KeysOk(e, merged, []) && AfterMirrors(e, merged, []) == AfterCanonical(e)
    ensures MirrorsOf(e, merged, []) == [] && MirrorAccepted(e, merged, []) == [] && MirrorRejected(e, merged, []) == []
  {
    hide StoreAt, CanonicalReports;
  }

  lemma AfterMirrorsSnoc(e: Environment, merged: map<string, string>, keys: seq<string>, id: string)
    requires KeysOk(e, merged, keys + [id])
    ensures KeysOk(e, merged, keys) && id in merged && id in Ids(ExecutorAccepted(e)) && merged[id] in Ids(ExecutorAccepted(e))
    ensures AfterMirrors(e, merged, keys).criticReports == CanonicalReports(e) + Elements(MirrorsOf(e, merged, keys))
    ensures AfterMirrors(e, merged, keys + [id]) ==
      AfterMirrors(e, merged, keys).(criticReports := AfterMirrors(e, merged, keys).criticReports + {MirrorOf(e, merged, id)})
  {
    hide StoreAt, CanonicalReports, MirrorOf, MirrorsOf, ExecutorAccepted;
    MirrorsSnoc(e, merged, keys, id);
    AppendNew(MirrorsOf(e, merged, keys), MirrorOf(e, merged, id));
  }

  lemma AllKeysOk(e: Environment, merged: map<string, string>, keys: seq<string>)
    requires WellFormed(e) && IsMergeMap(e, merged) && Elements(keys) == merged.Keys
    ensures KeysOk(e, merged, keys)
  {
    hide WellFormed, IsMergeMap, ExecutorAccepted, WithId, Merged;
    forall id | id in keys ensures id in merged && id in Ids(ExecutorAccepted(e)) && merged[id] in Ids(ExecutorAccepted(e)) {
      assert id in Elements(keys);
      MergeOfId(e, merged, id);
    }
  }

  /** The loop body of `mirror_merged_critic_reports`; it never meets its error, because every merged
      candidate is among the duplicates. */
  method MirrorOne(e: Environment, store: AuditStore, reports: seq<CriticReport>, merged: map<string, string>,
                   byId: map<string, Candidate>, id: string, ghost keys: seq<string>) returns (duplicate: Candidate, mirrored: CriticReport)
    requires WellFormed(e) && IsMergeMap(e, merged) && KeysOk(e, merged, keys + [id]) && id !in keys && id in merged
    requires Elements(reports) == CanonicalReports(e)
    requires id in byId && id in Ids(ExecutorAccepted(e)) && byId[id] == AcceptedWithId(e, id)
    requires store.Valid() && KeysOk(e, merged, keys) && store.Contents() == AfterMirrors(e, merged, keys)
    modifies store
    ensures store.Valid() && store.Contents() == AfterMirrors(e, merged, keys + [id])
    ensures merged[id] in Ids(ExecutorAccepted(e)) && mirrored == MirrorOf(e, merged, id) && duplicate == AcceptedWithId(e, id)
  {
    hide WellFormed, IsMergeMap, ExecutorAccepted, WithId, Merged, ReviewOf, MirrorReview, AfterMirrors, CanonicalReports, MirrorsOf, KeysOk;
    MergeOfId(e, merged, id);
    MergedAreInput(e, AcceptedWithId(e, id), AcceptedWithId(e, merged[id]));
    duplicate := byId[id];
    PrimaryReported(e, reports, AcceptedWithId(e, merged[id]));
    var primary := LastReport(reports, merged[id]);
    assert primary.Some?;
    mirrored := CriticReport(duplicate.candidateId, MirrorReview(primary.value.review, duplicate));
    NotYetMirrored(e, merged, keys, id);
    AfterMirrorsSnoc(e, merged, keys, id);
    var recorded := store.RecordCriticReport(mirrored);
    assert recorded;
  }

  /** The dictionary of duplicates finds every key. */
  ghost predicate Findable(e: Environment, byId: map<string, Candidate>, keys: seq<string>) {
    forall id :: id in keys ==> id in byId && id in Ids(ExecutorAccepted(e)) && byId[id] == AcceptedWithId(e, id)
  }

  /** The loop of `mirror_merged_critic_reports` */
  method MirrorAll(e: Environment, store: AuditStore, reports: seq<CriticReport>, merged: map<string, string>,
                   byId: map<string, Candidate>, keys: seq<string>)
    returns (accepted: seq<Candidate>, rejected: seq<Candidate>, mirrored: seq<CriticReport>)
    requires WellFormed(e) && IsMergeMap(e, merged) && Elements(reports) == CanonicalReports(e)
    requires KeysOk(e, merged, keys) && IsSorted(keys, Less) && Findable(e, byId, keys)
    requires store.Valid() && store.Contents() == AfterCanonical(e)
    modifies store
    ensures store.Valid() && store.Contents() == AfterMirrors(e, merged, keys)
    ensures accepted == MirrorAccepted(e, merged, keys) && rejected == MirrorRejected(e, merged, keys) && mirrored == MirrorsOf(e, merged, keys)
  {
    hide WellFormed, IsMergeMap, Ids, AcceptedWithId, AfterMirrors, AfterCanonical, CanonicalReports, MirrorsOf, MirrorAccepted, MirrorRejected,
      MirrorOf, Elements, Reviewed, AuditStore.Valid, AuditStore.Contents, IsSorted;
    accepted, rejected, mirrored := [], [], [];
    NoMirrorsYet(e, merged);
    for i := 0 to |keys|
      invariant store.Valid() && KeysOk(e, merged, keys[..i]) && store.Contents() == AfterMirrors(e, merged, keys[..i])
      invariant accepted == MirrorAccepted(e, merged, keys[..i]) && rejected == MirrorRejected(e, merged, keys[..i])
      invariant mirrored == MirrorsOf(e, merged, keys[..i])
    {
      var id := keys[i];
      assert keys[..i + 1] == keys[..i] + [id] && id in keys;
      MirrorsSnoc(e, merged, keys[..i], id);
      KeyIsNew(keys, i);
      var duplicate, report := MirrorOne(e, store, reports, merged, byId, id, keys[..i]);
      mirrored := mirrored + [report];
      if report.review.accepted {
        accepted := accepted + [Reviewed(duplicate, report.review)];
      } else {
        rejected := rejected + [duplicate];
      }
    }
    assert keys[..|keys|] == keys;
  }

  /** `mirror_merged_critic_reports` */
  method MirrorMergedCriticReports(e: Environment, store: AuditStore, reports: seq<CriticReport>, merged: map<string, string>, duplicates: seq<Candidate>)
    returns (accepted: seq<Candidate>, rejected: seq<Candidate>, mirrored: seq<CriticReport>, ghost keys: seq<string>)
    requires WellFormed(e) && IsMergeMap(e, merged) && Elements(reports) == CanonicalReports(e)
    requires NoRepeats(duplicates) && Elements(duplicates) == set c | c in ExecutorAccepted(e) && c.candidateId in merged
    requires store.Valid() && store.Contents() == AfterCanonical(e)
    modifies store
    ensures Elements(keys) == merged.Keys && IsSorted(keys, Less) && KeysOk(e, merged, keys)
    ensures store.Valid() && store.Contents() == AfterMirrors(e, merged, keys)
    ensures accepted == MirrorAccepted(e, merged, keys) && rejected == MirrorRejected(e, merged, keys) && mirrored == MirrorsOf(e, merged, keys)
  {
    hide WellFormed, IsMergeMap, ExecutorAccepted, AcceptedWithId, AfterMirrors, AfterCanonical, CanonicalReports, MirrorsOf, MirrorAccepted,
      MirrorRejected, IsSorted, IdsDiffer, MapsIds, AuditStore.Valid, AuditStore.Contents;
    var sorted := SortedKeys(merged.Keys);
    keys := sorted;
    AllKeysOk(e, merged, keys);
    DuplicatesById(e, merged, duplicates);
    var byId := CandidateMap(duplicates);
    assert byId.Some?;
    forall id | id in keys ensures id in byId.value && id in Ids(ExecutorAccepted(e)) && byId.value[id] == AcceptedWithId(e, id) {
      assert id in Elements(keys);
      DuplicateOfId(e, merged, duplicates, byId.value, id);
    }
    accepted, rejected, mirrored := MirrorAll(e, store, reports, merged, byId.value, sorted);
  }

  lemma KeyIsNew(keys: seq<string>, i: nat)
    requires i < |keys| && IsSorted(keys, Less)
    ensures keys[i] !in keys[..i]
  {
    hide Less;
    forall k | 0 <= k < i ensures keys[k] != keys[i] {
      LessIsStrict(keys[i]);
      assert Less(keys[k], keys[i]);
    }
  }

  lemma DuplicatesById(e: Environment, merged: map<string, string>, duplicates: seq<Candidate>)
    requires WellFormed(e) && NoRepeats(duplicates)
    requires Elements(duplicates) == set c | c in ExecutorAccepted(e) && c.candidateId in merged
    ensures IdsDiffer(duplicates)
  {
    hide WellFormed, ExecutorAccepted;
    ExecutedIdsDiffer(e);
    DistinctWithoutRepeats(duplicates);
  }

  lemma DuplicateOfId(e: Environment, merged: map<string, string>, duplicates: seq<Candidate>, byId: map<string, Candidate>, id: string)
    requires WellFormed(e) && IsMergeMap(e, merged) && id in merged && MapsIds(byId, duplicates)
    requires Elements(duplicates) == set c | c in ExecutorAccepted(e) && c.candidateId in merged
    ensures id in Ids(ExecutorAccepted(e)) && id in byId && byId[id] == AcceptedWithId(e, id)
  {
    hide WellFormed, IsMergeMap, ExecutorAccepted, WithId, Merged;
    MergeOfId(e, merged, id);
    var c := AcceptedWithId(e, id);
    MergedAreInput(e, c, AcceptedWithId(e, merged[id]));
    assert c in Elements(duplicates);
  }
}
