/** critic/service.py and critic/mirroring.py: review the canonical candidates batch by batch, then copy
    each outcome to the candidates that were merged. */
module CriticSteps {
  import opened Contracts
  import opened Sorting
  import opened CriticCorrections
  import opened DedupRecords
  import opened Batching
  import opened AuditStores
  import opened CandidateViews
  import opened PipelineSpec
  import opened PipelineFacts
  import opened Replays
  import opened ExecutorSteps

  // The outcomes of a list of canonical candidates

  function AcceptedOf(e: Environment, cs: seq<Candidate>): seq<Candidate> {
    if cs == [] then []
    else
      var c := cs[|cs| - 1];
      AcceptedOf(e, cs[..|cs| - 1]) + if ReviewOf(e, c).accepted then [Reviewed(c, ReviewOf(e, c))] else []
  }

  function RejectedOf(e: Environment, cs: seq<Candidate>): seq<Candidate> {
    if cs == [] then []
    else
      var c := cs[|cs| - 1];
      RejectedOf(e, cs[..|cs| - 1]) + if ReviewOf(e, c).accepted then [] else [c]
  }

  function ReportsOf(e: Environment, cs: seq<Candidate>): seq<CriticReport> {
    seq(|cs|, i requires 0 <= i < |cs| => CanonicalReport(e, cs[i]))
  }

  ghost function RejectionsOfAll(e: Environment, cs: seq<Candidate>): set<Rejection> {
    set c | c in cs && !ReviewOf(e, c).accepted :: CriticRejection(c)
  }

  /** The store after the candidates `cs` have been reviewed. */
  ghost function AfterReviews(e: Environment, cs: seq<Candidate>): Tables {
    StoreAt(e, 4).(criticReports := Elements(ReportsOf(e, cs)), rejections := RejectionsAt(e, 4) + RejectionsOfAll(e, cs))
  }

  lemma ReviewsSnoc(e: Environment, cs: seq<Candidate>, c: Candidate)
    ensures AcceptedOf(e, cs + [c]) == AcceptedOf(e, cs) + if ReviewOf(e, c).accepted then [Reviewed(c, ReviewOf(e, c))] else []
    ensures RejectedOf(e, cs + [c]) == RejectedOf(e, cs) + if ReviewOf(e, c).accepted then [] else [c]
    ensures ReportsOf(e, cs + [c]) == ReportsOf(e, cs) + [CanonicalReport(e, c)]
  {
    hide ReviewOf, Reviewed, CanonicalReport;
    assert (cs + [c])[..|cs|] == cs;
  }

  lemma RejectionsSnoc(e: Environment, cs: seq<Candidate>, c: Candidate)
    ensures RejectionsOfAll(e, cs + [c]) == RejectionsOfAll(e, cs) + If(!ReviewOf(e, c).accepted, {CriticRejection(c)})
  {
    hide ReviewOf, CriticRejection;
  }

  /** A candidate that is not yet reviewed has no report and no critic rejection in the store. */
  lemma NotYetReviewed(e: Environment, cs: seq<Candidate>, c: Candidate)
    requires forall d :: d in cs ==> d.candidateId != c.candidateId
    ensures CanonicalReport(e, c) !in Elements(ReportsOf(e, cs))
    ensures CriticRejection(c) !in RejectionsAt(e, 4) + RejectionsOfAll(e, cs)
  {
    hide ReviewOf, ExecutorRejectionsUpTo, DedupRejections, CriticRejections, VerifierRejections, ReconcilerRejections, ExecutorAccepted;
    RejectionStages(e);
  }

  lemma AfterReviewsSnoc(e: Environment, cs: seq<Candidate>, c: Candidate)
    ensures AfterReviews(e, cs + [c]) == AfterReviews(e, cs).(
      criticReports := AfterReviews(e, cs).criticReports + {CanonicalReport(e, c)},
      rejections := AfterReviews(e, cs).rejections + If(!ReviewOf(e, c).accepted, {CriticRejection(c)}))
  {
    hide ReviewOf, StoreAt, RejectionsAt, RejectionsOfAll, ReportsOf, CanonicalReport;
    ReviewsSnoc(e, cs, c);
    RejectionsSnoc(e, cs, c);
    AppendNew(ReportsOf(e, cs), CanonicalReport(e, c));
  }

  /** The loop body of `_review_batch` */
  method ReviewOne(e: Environment, store: AuditStore, chunk: Chunk, c: Candidate, ghost before: seq<Candidate>) returns (review: Review)
    requires store.Valid() && store.Contents() == AfterReviews(e, before)
    requires c.chunkId in e.chunks && chunk == e.chunks[c.chunkId]
    requires forall d :: d in before ==> d.candidateId != c.candidateId
    modifies store
    ensures store.Valid() && store.Contents() == AfterReviews(e, before + [c]) && review == ReviewOf(e, c)
  {
    hide AfterReviews, BuildReview, StoreAt, RejectionsAt, RejectionsOfAll, ReportsOf;
    AfterReviewsSnoc(e, before, c);
    NotYetReviewed(e, before, c);
    ReviewTables(e, before);
    review := BuildReview(e.plan, chunk, c, e.criticVerdict(c), e.grounding);
    var recorded := store.RecordCriticReport(CriticReport(c.candidateId, review));
    assert recorded;
    if !review.accepted {
      var noted := store.RecordRejection(CriticRejection(c));
      assert noted;
    }
  }

  /** `validate_critic_inputs` raises nothing, and the candidates can be shown to the model. */
  ghost predicate CriticInputsValid(e: Environment, candidates: seq<Candidate>) {
    ViewIdsDiffer(e) && forall c :: c in candidates ==> FitForReview(e, c) && ViewHolds(c)
  }

  /** The views of a batch, by their ids; building them raises nothing. */
  method ViewsOfBatch(e: Environment, batch: seq<Candidate>) returns (views: map<string, Candidate>)
    requires CriticInputsValid(e, batch)
    ensures forall c :: c in batch ==> e.viewId(c.candidateId) in views
  {
    hide FitForReview, ViewHolds;
    var built := BuildCandidateViewMap(batch, e.viewId);
    assert built.Some?;
    views := built.value;
  }

  /** The loop of `_review_batch` over its candidates; the batch shares one chunk. */
  method ReviewBatch(e: Environment, store: AuditStore, batch: seq<Candidate>, ghost done: seq<Candidate>)
    returns (accepted: seq<Candidate>, rejected: seq<Candidate>, reports: seq<CriticReport>)
    requires store.Valid() && store.Contents() == AfterReviews(e, done)
    requires batch != [] && OneChunk(batch, batch[0].chunkId) && IdsDiffer(done + batch)
    requires CriticInputsValid(e, batch)
    modifies store
    ensures store.Valid() && store.Contents() == AfterReviews(e, done + batch)
    ensures AcceptedOf(e, done) + accepted == AcceptedOf(e, done + batch)
    ensures RejectedOf(e, done) + rejected == RejectedOf(e, done + batch)
    ensures ReportsOf(e, done) + reports == ReportsOf(e, done + batch)
  {
    hide AfterReviews, AcceptedOf, RejectedOf, ReportsOf, ReviewOf, SchemaApproves, SpanMatchesChunk, IdsDiffer, ViewHolds, AuditStore.Valid, AuditStore.Contents;
    assert FitForReview(e, batch[0]);
    var views := ViewsOfBatch(e, batch);
    var chunk := e.chunks[batch[0].chunkId];
    accepted, rejected, reports := [], [], [];
    assert done + batch[..0] == done;
    for i := 0 to |batch|
      invariant store.Valid() && store.Contents() == AfterReviews(e, done + batch[..i])
      invariant AcceptedOf(e, done) + accepted == AcceptedOf(e, done + batch[..i])
      invariant RejectedOf(e, done) + rejected == RejectedOf(e, done + batch[..i])
      invariant ReportsOf(e, done) + reports == ReportsOf(e, done + batch[..i])
    {
      var c := batch[i];
      ghost var before := done + batch[..i];
      assert done + batch[..i + 1] == before + [c];
      ReviewsSnoc(e, before, c);
      EarlierIdsDiffer(done + batch, |done| + i, before);
      var review := ReviewOne(e, store, chunk, c, before);
      reports := reports + [CriticReport(c.candidateId, review)];
      if review.accepted {
        accepted := accepted + [Reviewed(c, review)];
      } else {
        rejected := rejected + [c];
      }
    }
    assert done + batch[..|batch|] == done + batch;
  }

  lemma ReviewTables(e: Environment, cs: seq<Candidate>)
    ensures AfterReviews(e, cs).criticReports == Elements(ReportsOf(e, cs))
    ensures AfterReviews(e, cs).rejections == RejectionsAt(e, 4) + RejectionsOfAll(e, cs)
  {
    hide StoreAt, RejectionsAt, RejectionsOfAll, ReportsOf;
  }

  /** The batches of `review_candidates`, in turn. */
  method ReviewBatches(e: Environment, store: AuditStore, batches: seq<seq<Candidate>>)
    returns (accepted: seq<Candidate>, rejected: seq<Candidate>, reports: seq<CriticReport>)
    requires store.Valid() && store.Contents() == AfterReviews(e, [])
    requires IdsDiffer(Flatten(batches)) && forall b :: b in batches ==> IsBatch(b, e.batchSize)
    requires CriticInputsValid(e, Flatten(batches))
    modifies store
    ensures store.Valid() && store.Contents() == AfterReviews(e, Flatten(batches))
    ensures accepted == AcceptedOf(e, Flatten(batches)) && rejected == RejectedOf(e, Flatten(batches)) && reports == ReportsOf(e, Flatten(batches))
  {
    hide AfterReviews, AcceptedOf, RejectedOf, ReportsOf, FitForReview, IdsDiffer, Flatten, ViewHolds, ViewIdsDiffer, AuditStore.Valid, AuditStore.Contents;
    accepted, rejected, reports := [], [], [];
    NothingFlat<Candidate>();
    NothingReviewed(e);
    for i := 0 to |batches|
      invariant store.Valid() && store.Contents() == AfterReviews(e, Flatten(batches[..i]))
      invariant accepted == AcceptedOf(e, Flatten(batches[..i])) && rejected == RejectedOf(e, Flatten(batches[..i]))
      invariant reports == ReportsOf(e, Flatten(batches[..i]))
    {
      FlattenSplits(batches, i);
      PrefixIdsDiffer(Flatten(batches), Flatten(batches[..i + 1]));
      assert IsBatch(batches[i], e.batchSize);
      forall c | c in batches[i] ensures FitForReview(e, c) && ViewHolds(c) {
        assert c in Flatten(batches[..i + 1]);
      }
      var a, r, s := ReviewBatch(e, store, batches[i], Flatten(batches[..i]));
      accepted, rejected, reports := accepted + a, rejected + r, reports + s;
    }
    assert batches[..|batches|] == batches;
  }

  lemma NothingReviewed(e: Environment)
    ensures AcceptedOf(e, []) == [] && RejectedOf(e, []) == [] && ReportsOf(e, []) == []
  {
  }

  // Their meaning as sets

  lemma {:induction false} AcceptedOfMember(e: Environment, cs: seq<Candidate>, x: Candidate)
    ensures x in AcceptedOf(e, cs) <==> exists c :: c in cs && ReviewOf(e, c).accepted && x == Reviewed(c, ReviewOf(e, c))
    ensures x in RejectedOf(e, cs) <==> x in cs && !ReviewOf(e, x).accepted
  {
    hide ReviewOf, Reviewed;
    if cs != [] {
      var front, last := cs[..|cs| - 1], cs[|cs| - 1];
      AcceptedOfMember(e, front, x);
      assert forall c :: c in cs <==> c in front || c == last;
    }
  }

  lemma AcceptedOfElements(e: Environment, cs: seq<Candidate>)
    ensures Elements(AcceptedOf(e, cs)) == set c | c in cs && ReviewOf(e, c).accepted :: Reviewed(c, ReviewOf(e, c))
    ensures Elements(RejectedOf(e, cs)) == set c | c in cs && !ReviewOf(e, c).accepted
  {
    hide ReviewOf, Reviewed, AcceptedOf, RejectedOf;
    forall x
      ensures x in AcceptedOf(e, cs) <==> exists c :: c in cs && ReviewOf(e, c).accepted && x == Reviewed(c, ReviewOf(e, c))
      ensures x in RejectedOf(e, cs) <==> x in cs && !ReviewOf(e, x).accepted
    {
      AcceptedOfMember(e, cs, x);
    }
  }

  lemma {:induction false} AcceptedOfNoRepeats(e: Environment, cs: seq<Candidate>)
    requires IdsDiffer(cs)
    ensures IdsDiffer(AcceptedOf(e, cs))
  {
    hide ReviewOf, Reviewed;
    if cs != [] {
      var front, c := cs[..|cs| - 1], cs[|cs| - 1];
      AcceptedOfNoRepeats(e, front);
      ReviewKeepsOrigin(e, c);
      forall d | d in AcceptedOf(e, front) ensures d.candidateId != c.candidateId {
        AcceptedOfElements(e, front);
        assert d in Elements(AcceptedOf(e, front));
        var f :| f in front && ReviewOf(e, f).accepted && d == Reviewed(f, ReviewOf(e, f));
        ReviewKeepsOrigin(e, f);
      }
    }
  }

  lemma ReportsOfElements(e: Environment, cs: seq<Candidate>)
    ensures Elements(ReportsOf(e, cs)) == set c | c in cs :: CanonicalReport(e, c)
  {
    hide CanonicalReport;
    var reports := ReportsOf(e, cs);
    forall c | c in cs ensures CanonicalReport(e, c) in reports {
      var i :| 0 <= i < |cs| && cs[i] == c;
      assert reports[i] == CanonicalReport(e, c);
    }
  }
}
