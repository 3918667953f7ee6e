/** The dedup step of the orchestrator. */
module DedupSteps {
  import opened Wrappers
  import opened Contracts
  import opened Sorting
  import opened Dedup
  import opened DedupRecords
  import opened AuditStores
  import opened PipelineSpec
  import opened PipelineFacts
  import opened Replays
  import opened ExecutorSteps

  /** The rejections of boundary `k` without and with those of dedup. */
  lemma DedupBoundary(e: Environment, k: nat)
    ensures RejectionsAt(e, Max(k, 3)) == RejectionsAt(e, Max(k, 2)) + DedupRejections(ExecutorAccepted(e), e.normalize)
    ensures StoreAt(e, Max(k, 3)) == StoreAt(e, Max(k, 2)).(rejections := RejectionsAt(e, Max(k, 3)))
    ensures forall r :: r in RejectionsAt(e, k) && r.stage == DedupStage ==> k >= 3
    ensures forall r :: r in RejectionsAt(e, Max(k, 2)) && r.stage == DedupStage ==> r in RejectionsAt(e, k)
    ensures AllOfStage(DedupRejections(ExecutorAccepted(e), e.normalize), DedupStage)
  {
    hide ExecutorRejectionsUpTo, DedupRejections, CriticRejections, VerifierRejections, ReconcilerRejections, ExecutorAccepted,
      CriticReports, VerifierReports, PointsOf, Executed;
    RejectionStages(e);
  }

  /** What dedup makes of the accepted candidates, and the rejections it has to record; it raises exactly
      when a candidate has no identity. */
  method DedupOutcome(e: Environment, accepted: seq<Candidate>)
    returns (raised: bool, canonical: seq<Candidate>, merged: map<string, string>, rejections: seq<Rejection>)
    requires WellFormed(e) && Elements(accepted) == ExecutorAccepted(e) && NoRepeats(accepted)
    ensures raised <==> !IdentitiesHold(e)
    ensures !raised ==> Deduplicated(ExecutorAccepted(e), canonical, merged, e.normalize) && NoRepeats(canonical)
    ensures !raised ==> Elements(rejections) == DedupRejections(ExecutorAccepted(e), e.normalize)
    ensures !raised ==> forall i, k :: 0 <= i < k < |rejections| ==> Less(rejections[i].candidateId, rejections[k].candidateId)
  {
    hide WellFormed, ExecutorAccepted, DedupRejections, Deduplicated, NoRepeats, Elements, KeysHold;
    ExecutedIdsDiffer(e);
    raised, canonical, merged := DeduplicateCandidates(accepted, e.normalize);
    rejections := [];
    if raised {
      return;
    }
    CanonicalHasNoRepeats(ExecutorAccepted(e), canonical, merged, e.normalize);
    RejectionsAreDetermined(ExecutorAccepted(e), canonical, merged, e.normalize);
    var built := BuildDedupRejections(accepted, merged);
    assert built.Some?;
    rejections := built.value;
  }

  /** The dedup step: rejections found on entry are not written again, so that it may be repeated after
      an interruption at any of its writes; `part` is what such an attempt left behind. It raises before
      its first write. */
  method DedupStep(e: Environment, store: AuditStore, existing: seq<Rejection>, accepted: seq<Candidate>, ghost j: nat, ghost part: set<Rejection>)
    returns (raised: bool, canonical: seq<Candidate>, merged: map<string, string>, duplicates: seq<Candidate>)
    requires WellFormed(e) && store.Valid() && DedupPart(e, j, part) && store.Contents() == StoreWith(e, Max(j, 2), part)
    requires Elements(existing) == RejectionsAt(e, j) + part
    requires Elements(accepted) == ExecutorAccepted(e) && NoRepeats(accepted)
    modifies store
    ensures store.Valid() && (raised <==> !IdentitiesHold(e))
    ensures store.Contents() == if raised then StoreWith(e, Max(j, 2), part) else StoreAt(e, Max(j, 3))
    ensures !raised ==> Deduplicated(ExecutorAccepted(e), canonical, merged, e.normalize) && NoRepeats(canonical)
    ensures !raised ==> NoRepeats(duplicates) && Elements(duplicates) == set c | c in ExecutorAccepted(e) && c.candidateId in merged
  {
    hide WellFormed, StoreAt, StoreWith, ExecutorAccepted, RejectionsAt, DedupRejections, DedupPart, Deduplicated, Without, NoRepeats, Elements, IdentitiesHold, AuditStore.Valid, AuditStore.Contents;
    var rejections;
    raised, canonical, merged, rejections := DedupOutcome(e, accepted);
    duplicates := [];
    if raised {
      return;
    }
    ghost var now := RecordDedup(e, store, existing, rejections, |rejections|, j, part);
    DedupIsRecorded(e, j);
    duplicates := WithIdIn(accepted, merged.Keys);
    SameMembers(accepted, duplicates, merged.Keys);
  }

  /** The records of `all` written in order: `limit` new ones, or what was missing. */
  ghost predicate WrittenInOrder(before: set<Rejection>, after: set<Rejection>, all: seq<Rejection>, limit: nat) {
    && (exists k :: 0 <= k <= |all| && after == before + Elements(all[..k]))
    && (|after| == |before| + limit || (|after| < |before| + limit && Elements(all) <= after))
  }

  lemma PartStays(e: Environment, j: nat, part: set<Rejection>)
    requires DedupPart(e, j, part)
    ensures DedupPart(e, Max(j, 2), part)
  {
    hide DedupRejections, ExecutorAccepted;
  }

  lemma WrittenUpTo(before: set<Rejection>, after: set<Rejection>, all: seq<Rejection>, k: nat, limit: nat)
    requires k <= |all| && after == before + Elements(all[..k]) && |after| <= |before| + limit
    requires |after| == |before| + limit || k == |all|
    ensures WrittenInOrder(before, after, all, limit)
  {
    assert all[..|all|] == all;
  }

  /** The dedup step, interrupted after `writes` of its writes. */
  method InterruptedDedup(e: Environment, store: AuditStore, existing: seq<Rejection>, accepted: seq<Candidate>, writes: nat,
                          ghost j: nat, ghost part: set<Rejection>) returns (raised: bool, ghost now: set<Rejection>)
    requires WellFormed(e) && store.Valid() && DedupPart(e, j, part) && store.Contents() == StoreWith(e, Max(j, 2), part)
    requires Elements(existing) == RejectionsAt(e, j) + part
    requires Elements(accepted) == ExecutorAccepted(e) && NoRepeats(accepted)
    modifies store
    ensures store.Valid() && store.Contents() == StoreWith(e, Max(j, 2), now) && DedupPart(e, Max(j, 2), now)
    ensures (raised <==> !IdentitiesHold(e)) && (raised ==> now == part)
    ensures !raised ==> exists rejections: seq<Rejection> :: (Elements(rejections) == DedupRejections(ExecutorAccepted(e), e.normalize)
      && WrittenInOrder(old(store.Contents()).rejections, store.Contents().rejections, rejections, writes))
  {
    hide WellFormed, StoreAt, StoreWith, ExecutorAccepted, RejectionsAt, DedupRejections, Deduplicated, NoRepeats, Elements, WrittenInOrder, IdentitiesHold,
      AuditStore.Valid, AuditStore.Contents;
    var canonical, merged, rejections;
    raised, canonical, merged, rejections := DedupOutcome(e, accepted);
    now := part;
    if raised {
      PartStays(e, j, part);
      return;
    }
    now := RecordDedup(e, store, existing, rejections, writes, j, part);
  }

  /** `existing` tells which of `all` are still to be written. */
  ghost predicate TellsMissing(existing: seq<Rejection>, stored: set<Rejection>, all: seq<Rejection>) {
    forall r :: r in all ==> (r in existing <==> r in stored)
  }

  ghost predicate InIdOrder(rejections: seq<Rejection>) {
    forall i, k :: 0 <= i < k < |rejections| ==> Less(rejections[i].candidateId, rejections[k].candidateId)
  }

  lemma PrefixGrows(existing: seq<Rejection>, stored: set<Rejection>, all: seq<Rejection>, i: nat)
    requires i < |all| && InIdOrder(all) && TellsMissing(existing, stored, all)
    ensures all[i] in existing ==> stored + Elements(all[..i + 1]) == stored + Elements(all[..i])
    ensures all[i] !in existing ==> all[i] !in stored + Elements(all[..i])
    ensures all[i] !in existing ==> stored + Elements(all[..i + 1]) == stored + Elements(all[..i]) + {all[i]}
    ensures all[i] !in existing ==> |stored + Elements(all[..i + 1])| == |stored + Elements(all[..i])| + 1
  {
    hide Less;
    assert all[..i + 1] == all[..i] + [all[i]];
    AppendNew(all[..i], all[i]);
    NotAmongEarlier(all, i);
    assert stored + Elements(all[..i + 1]) == stored + Elements(all[..i]) + {all[i]};
  }

  lemma NonePrefix(rejections: seq<Rejection>)
    ensures Elements(rejections[..0]) == {}
  {
  }

  /** `if rejection.rejection_id not in existing_rejection_ids`: record it, `limit` times at most. */
  method RecordMissing(store: AuditStore, existing: seq<Rejection>, rejections: seq<Rejection>, limit: nat) returns (ghost reached: nat)
    requires store.Valid() && InIdOrder(rejections) && TellsMissing(existing, store.Contents().rejections, rejections)
    modifies store
    ensures store.Valid() && reached <= |rejections| && (|rejections| <= limit ==> reached == |rejections|)
    ensures store.Contents() == old(store.Contents()).(rejections := old(store.Contents()).rejections + Elements(rejections[..reached]))
    ensures WrittenInOrder(old(store.Contents()).rejections, store.Contents().rejections, rejections, limit)
  {
    hide AuditStore.Valid, AuditStore.Contents, InIdOrder, TellsMissing, WrittenInOrder, Elements;
    ghost var before := store.Contents();
    NonePrefix(rejections);
    var written := 0;
    for i := 0 to |rejections|
      invariant store.Valid() && store.Contents() == before.(rejections := before.rejections + Elements(rejections[..i]))
      invariant written <= i && written <= limit && |store.Contents().rejections| == |before.rejections| + written
    {
      var r := rejections[i];
      PrefixGrows(existing, before.rejections, rejections, i);
      if r !in existing {
        if written == limit {
          WrittenUpTo(before.rejections, store.Contents().rejections, rejections, i, limit);
          return i;
        }
        var recorded := store.RecordRejection(r);
        assert recorded;
        written := written + 1;
      }
    }
    WrittenUpTo(before.rejections, store.Contents().rejections, rejections, |rejections|, limit);
    return |rejections|;
  }

  /** The loop on the store of boundary `j` with a part of dedup's rejections: a larger part. */
  method RecordDedup(e: Environment, store: AuditStore, existing: seq<Rejection>, rejections: seq<Rejection>, limit: nat,
                     ghost j: nat, ghost part: set<Rejection>) returns (ghost now: set<Rejection>)
    requires store.Valid() && DedupPart(e, j, part) && store.Contents() == StoreWith(e, Max(j, 2), part)
    requires Elements(existing) == RejectionsAt(e, j) + part
    requires Elements(rejections) == DedupRejections(ExecutorAccepted(e), e.normalize)
    requires InIdOrder(rejections)
    modifies store
    ensures store.Valid() && store.Contents() == StoreWith(e, Max(j, 2), now)
    ensures part <= now <= DedupRejections(ExecutorAccepted(e), e.normalize)
    ensures |rejections| <= limit ==> now == DedupRejections(ExecutorAccepted(e), e.normalize)
    ensures WrittenInOrder(old(store.Contents()).rejections, store.Contents().rejections, rejections, limit)
  {
    hide StoreAt, StoreWith, ExecutorAccepted, RejectionsAt, DedupRejections, NoRepeats, InIdOrder, TellsMissing, AuditStore.Valid, AuditStore.Contents, WrittenInOrder;
    AlreadyThere(e, existing, rejections, j, part);
    ghost var reached := RecordMissing(store, existing, rejections, limit);
    PartGrows(e, Max(j, 2), part, Elements(rejections[..reached]));
    assert rejections[..|rejections|] == rejections;
    return part + Elements(rejections[..reached]);
  }

  /** Of dedup's rejections the listed ones are those in the store. */
  lemma AlreadyThere(e: Environment, existing: seq<Rejection>, rejections: seq<Rejection>, j: nat, part: set<Rejection>)
    requires Elements(existing) == RejectionsAt(e, j) + part
    requires Elements(rejections) == DedupRejections(ExecutorAccepted(e), e.normalize)
    ensures TellsMissing(existing, StoreWith(e, Max(j, 2), part).rejections, rejections)
  {
    hide StoreAt, ExecutorAccepted, RejectionsAt, DedupRejections;
    DedupBoundary(e, j);
    forall r | r in rejections ensures r in existing <==> r in StoreWith(e, Max(j, 2), part).rejections {
      assert r in Elements(rejections) && (r in existing <==> r in Elements(existing));
    }
  }

  lemma PartGrows(e: Environment, k: nat, part: set<Rejection>, more: set<Rejection>)
    ensures StoreWith(e, k, part + more) == StoreWith(e, k, part).(rejections := StoreWith(e, k, part).rejections + more)
  {
    hide StoreAt, RejectionsAt;
    assert RejectionsAt(e, k) + (part + more) == RejectionsAt(e, k) + part + more;
  }

  lemma DedupIsRecorded(e: Environment, j: nat)
    ensures StoreWith(e, Max(j, 2), DedupRejections(ExecutorAccepted(e), e.normalize)) == StoreAt(e, Max(j, 3))
  {
    hide RejectionsAt, DedupRejections, ExecutorAccepted, Executed, CriticReports, VerifierReports, PointsOf;
    DedupBoundary(e, j);
  }

  lemma CanonicalHasNoRepeats(all: set<Candidate>, canonical: seq<Candidate>, merged: map<string, string>, normalize: string -> string)
    requires DistinctIds(all) && Deduplicated(all, canonical, merged, normalize)
    ensures NoRepeats(canonical)
  {
    IdsOrderAll(all);
    CanonicalAreInput(all, canonical, merged, normalize);
    SortedHasNoRepeats(canonical, all);
  }

  function WithIdIn(cs: seq<Candidate>, ids: set<string>): (r: seq<Candidate>)
    ensures forall c :: c in r <==> c in cs && c.candidateId in ids
    ensures NoRepeats(cs) ==> NoRepeats(r)
  {
    Without(cs, Ids(Elements(cs)) - ids)
  }

  lemma SameMembers(cs: seq<Candidate>, kept: seq<Candidate>, ids: set<string>)
    requires forall c :: c in kept <==> c in cs && c.candidateId in ids
    ensures Elements(kept) == set c | c in Elements(cs) && c.candidateId in ids
  {
  }
}
