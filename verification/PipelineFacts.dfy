/** Facts about the reference run: ids stay distinct, and every accepted candidate has one report. */
module PipelineFacts {
  import opened Wrappers
  import opened Contracts
  import opened Sorting
  import opened CriticCorrections
  import opened VerifierPolicies
  import opened Dedup
  import opened Reconciliation
  import opened AuditStores
  import opened PipelineSpec

  predicate SameOrigin(a: Candidate, b: Candidate) {
    a.candidateId == b.candidateId && a.runId == b.runId && a.docId == b.docId && a.chunkId == b.chunkId
  }

  lemma CorrectionKeepsOrigin(raw: Option<Correction>, original: Candidate, chunk: Chunk)
    ensures var c := MaterializeCorrection(raw, original, chunk).0; c.Some? ==> SameOrigin(c.value, original)
  {
    hide SpanMatchesChunk;
  }

  lemma ReviewKeepsOrigin(e: Environment, c: Candidate)
    ensures SameOrigin(Reviewed(c, ReviewOf(e, c)), c)
    ensures ReviewOf(e, c).corrected.Some? ==> ReviewOf(e, c).accepted
  {
    hide MaterializeCorrection, CorrectionRejectionReasons, ShouldPreserveOriginal;
    if c.chunkId in e.chunks {
      CorrectionKeepsOrigin(e.criticVerdict(c).correction, c, e.chunks[c.chunkId]);
    }
  }

  lemma MirrorKeepsOrigin(primary: Review, c: Candidate)
    ensures SameOrigin(Reviewed(c, MirrorReview(primary, c)), c)
  {
  }

  lemma ReportedKeepsOrigin(e: Environment, c: Candidate, r: CriticReport)
    requires Reported(e, c, r)
    ensures r.candidateId == c.candidateId && SameOrigin(Reviewed(c, r.review), c) && r in CriticReports(e)
  {
    hide ReviewOf, MirrorReview, Reviewed, Canonical, MergedInto;
    if c in Canonical(e) && r == CanonicalReport(e, c) {
      ReviewKeepsOrigin(e, c);
    } else {
      var p :| Merged(e, c, p) && r == MirroredReport(e, c, p);
      MirrorKeepsOrigin(ReviewOf(e, p), c);
      MergedAreInput(e, c, p);
    }
  }

  lemma MergedAreInput(e: Environment, c: Candidate, p: Candidate)
    requires Merged(e, c, p)
    ensures c in ExecutorAccepted(e) && p in ExecutorAccepted(e) && p in Canonical(e)
  {
    hide Identity;
  }

  lemma CanonicalIsNotMerged(e: Environment, c: Candidate, p: Candidate)
    requires WellFormed(e) && Merged(e, c, p)
    ensures c !in Canonical(e)
  {
    hide Identity, ExecutorAccepted, IdLess;
    ExecutedIdsDiffer(e);
    if c in Canonical(e) {
      PrimaryIsUnique(ExecutorAccepted(e), c, p, e.normalize);
    }
  }

  lemma OnePrimary(e: Environment, c: Candidate, p: Candidate, q: Candidate)
    requires WellFormed(e) && Merged(e, c, p) && Merged(e, c, q)
    ensures p == q
  {
    hide Identity, ExecutorAccepted, IdLess;
    ExecutedIdsDiffer(e);
    PrimaryIsUnique(ExecutorAccepted(e), p, q, e.normalize);
  }

  /** Every accepted candidate is canonical or merged into a canonical one. */
  lemma CanonicalOrMerged(e: Environment, c: Candidate) returns (p: Candidate)
    requires WellFormed(e) && c in ExecutorAccepted(e)
    ensures (p == c && c in Canonical(e)) || Merged(e, c, p)
  {
    hide Identity, ExecutorAccepted, IdLess;
    ExecutedIdsDiffer(e);
    p := HasPrimary(ExecutorAccepted(e), c, e.normalize);
  }

  lemma OneReport(e: Environment, c: Candidate, r: CriticReport, s: CriticReport)
    requires WellFormed(e) && Reported(e, c, r) && Reported(e, c, s)
    ensures r == s
  {
    hide ReviewOf, MirrorReview, Canonical, Merged, ExecutorAccepted;
    if c in Canonical(e) && r == CanonicalReport(e, c) {
      if s != r {
        var p :| Merged(e, c, p) && s == MirroredReport(e, c, p);
        CanonicalIsNotMerged(e, c, p);
      }
    } else {
      var p :| Merged(e, c, p) && r == MirroredReport(e, c, p);
      if c in Canonical(e) && s == CanonicalReport(e, c) {
        CanonicalIsNotMerged(e, c, p);
      } else {
        var q :| Merged(e, c, q) && s == MirroredReport(e, c, q);
        OnePrimary(e, c, p, q);
      }
    }
  }

  lemma HasReport(e: Environment, c: Candidate) returns (r: CriticReport)
    requires WellFormed(e) && c in ExecutorAccepted(e)
    ensures Reported(e, c, r)
  {
    hide ReviewOf, MirrorReview, Canonical, Merged, ExecutorAccepted;
    var p := CanonicalOrMerged(e, c);
    r := if c in Canonical(e) then CanonicalReport(e, c) else MirroredReport(e, c, p);
  }

  lemma ReportHasCandidate(e: Environment, r: CriticReport) returns (c: Candidate)
    requires r in CriticReports(e)
    ensures Reported(e, c, r)
  {
    hide ReviewOf, MirrorReview, ExecutorAccepted, Canonical, Merged;
    if r in CanonicalReports(e) {
      c :| c in Canonical(e) && r == CanonicalReport(e, c);
      CanonicalAreAccepted(e, c);
    } else {
      assert r in MirroredReports(e);
      var d, p :| d in ExecutorAccepted(e) && p in ExecutorAccepted(e) && Merged(e, d, p) && r == MirroredReport(e, d, p);
      c := d;
    }
  }

  lemma CanonicalAreAccepted(e: Environment, c: Candidate)
    requires c in Canonical(e)
    ensures c in ExecutorAccepted(e)
  {
  }

  /** The origin of a critic-accepted candidate. */
  lemma OriginOf(e: Environment, d: Candidate) returns (c: Candidate, r: CriticReport)
    requires d in CriticAccepted(e)
    ensures Reported(e, c, r) && r.review.accepted && d == Reviewed(c, r.review) && SameOrigin(d, c)
  {
    hide Reported, Reviewed, CriticReports, ExecutorAccepted;
    c, r :| c in ExecutorAccepted(e) && r in CriticReports(e) && Reported(e, c, r) && r.review.accepted && d == Reviewed(c, r.review);
    ReportedKeepsOrigin(e, c, r);
  }

  lemma CriticIdsDiffer(e: Environment)
    requires WellFormed(e)
    ensures DistinctIds(CriticAccepted(e)) && DistinctIds(VerifierAccepted(e))
  {
    hide Reported, Reviewed, CriticReports, ExecutorAccepted, CriticAccepted, VerifierReportOf;
    forall a, b | a in CriticAccepted(e) && b in CriticAccepted(e) && a.candidateId == b.candidateId ensures a == b {
      var c, r := OriginOf(e, a);
      var d, s := OriginOf(e, b);
      ExecutedIdsDiffer(e);
      SameAcceptedId(e, c, d, r, s);
      OneReport(e, c, r, s);
    }
  }

  lemma SameAcceptedId(e: Environment, c: Candidate, d: Candidate, r: CriticReport, s: CriticReport)
    requires DistinctIds(ExecutorAccepted(e)) && Reported(e, c, r) && Reported(e, d, s) && c.candidateId == d.candidateId
    ensures c == d
  {
    hide ExecutorAccepted, Canonical, Merged, ReviewOf;
  }

  lemma BatchesAreBounded(e: Environment)
    requires WellFormed(e)
    ensures e.batchSize > 0
  {
  }

  lemma NotAmongEarlier(rejections: seq<Rejection>, i: nat)
    requires i < |rejections|
    requires forall m, k :: 0 <= m < k < |rejections| ==> Less(rejections[m].candidateId, rejections[k].candidateId)
    ensures rejections[i] !in Elements(rejections[..i])
  {
    hide Less;
    forall m | 0 <= m < i ensures rejections[m] != rejections[i] {
      LessIsStrict(rejections[i].candidateId);
    }
  }
}
