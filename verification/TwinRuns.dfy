/** A run over the one-letter document "a" in which two executor calls find the same value: the least input
    on which an interruption makes candidates disappear. */
module TwinRuns {
  import opened Utf8
  import opened Wrappers
  import opened Contracts
  import opened Sorting
  import opened CandidateBuilding
  import opened CriticCorrections
  import opened VerifierPolicies
  import opened Dedup
  import opened Reconciliation
  import opened AuditStores
  import opened PipelineSpec
  import opened PipelineFacts
  import opened Replays
  import opened CriticReviews
  import opened CriticReplays
  import opened VerifierSteps
  import opened VerifierReplays
  import opened CrashWindows
  import opened SilentDrops
  import opened SeedDigests

  const LETTER := Chunk(ChunkId("d", "", 0, 0, 1, 0, 1), "d", 0, "a", 0, 1, 0, 1, 0, 1,
    ChunkLayout(Mixed, TokenWindow, [], [], [], [], None, []))

  function Twin(id: string): Candidate {
    Candidate(id, "r", "d", LETTER.chunkId, "lens", "c", "f", "a", SourceSpan("d", LETTER.chunkId, 0, 1, 0, 1, "a"), 1.0, "call",
      Normalization(Some("a"), None, "text", VerbatimOnly, None, None, None))
  }

  const FIRST := Twin("1")
  const SECOND := Twin("2")

  /** The run, by what the critic and the verifier make of every candidate. */
  function TwinRun(criticAccepts: bool, verifierAccepts: bool): Environment {
    Environment(
      Plan("r", "d", map["c" := {"f"}]), map[LETTER.chunkId := LETTER], [(FIRST, []), (SECOND, [])], (t: string) => t,
      Grounding((c: Candidate) => true, (f: string) => false, (a: Candidate, b: Candidate) => false,
                (p: Plan, k: Chunk, c: Candidate, v: Verdict) => false),
      (c: Candidate) => Verdict(c.candidateId, if criticAccepts then Accept else Reject, None, None, None),
      (c: Candidate) => VerifierVerdict(verifierAccepts, VerifierRejected, ""),
      (cs: set<Candidate>) => Batch([], []), (c: Candidate) => [], (s: PointSeed) => Digest(s), (id: string) => id, 1)
  }

  lemma TwinsMatch()
    ensures SpanMatchesChunk(FIRST.span, LETTER) && SpanMatchesChunk(SECOND.span, LETTER)
  {
    assert Encode("a") == [0x61];
  }

  lemma LetterIsFilled(letter: char)
    requires 'a' <= letter <= 'z'
    ensures NonBlank([letter])
  {
    assert [letter][0] == letter;
  }

  lemma TwinIsBuilt(id: string)
    ensures ExecutorBuilt(Twin(id))
  {
    hide NonBlank;
    LetterIsFilled('a');
    LetterIsFilled('c');
    LetterIsFilled('f');
    assert Encode("a") == [0x61];
  }

  lemma TwinRunIsWellFormed(criticAccepts: bool, verifierAccepts: bool)
    ensures WellFormed(TwinRun(criticAccepts, verifierAccepts))
  {
    hide SpanMatchesChunk, Digest, ExecutorBuilt;
    TwinIsBuilt("1");
    TwinIsBuilt("2");
    var e := TwinRun(criticAccepts, verifierAccepts);
    TwinsMatch();
    forall a, b | e.digest(a) == e.digest(b) ensures a == b {
      DigestIsInjective(a, b);
    }
    assert forall k :: 0 <= k < |e.outcomes| ==> OutcomeCandidate(e, k) == FIRST || OutcomeCandidate(e, k) == SECOND;
    assert FIRST.candidateId != SECOND.candidateId;
  }

  lemma TwinsAreExecuted(e: Environment)
    requires e.outcomes == [(FIRST, []), (SECOND, [])]
    ensures ExecutorAccepted(e) == {FIRST, SECOND}
  {
    assert OutcomeCandidate(e, 0) == FIRST && OutcomeCandidate(e, 1) == SECOND;
  }

  /** The second is merged into the first. */
  lemma TwinsMerge(criticAccepts: bool, verifierAccepts: bool)
    ensures var e := TwinRun(criticAccepts, verifierAccepts);
      ExecutorAccepted(e) == {FIRST, SECOND} && Canonical(e) == {FIRST} && Merged(e, SECOND, FIRST)
  {
    hide ExecutorAccepted;
    var e := TwinRun(criticAccepts, verifierAccepts);
    TwinsAreExecuted(e);
    assert Less("1", "2") && !Less("2", "1") && !Less("1", "1") && !Less("2", "2") by {
      assert "1"[0] < "2"[0];
    }
    assert SameIdentity(FIRST, SECOND, e.normalize);
    assert IdLess(FIRST, SECOND) && !IdLess(SECOND, FIRST) && !IdLess(FIRST, FIRST);
    assert IsPrimary(ExecutorAccepted(e), FIRST, e.normalize);
    assert !IsPrimary(ExecutorAccepted(e), SECOND, e.normalize);
  }

  lemma TwinReview(criticAccepts: bool, verifierAccepts: bool)
    ensures var e := TwinRun(criticAccepts, verifierAccepts);
      ReviewOf(e, FIRST) == Review(criticAccepts, None) && CanonicalReports(e) == {CanonicalReport(e, FIRST)}
  {
    hide Canonical;
    TwinsMerge(criticAccepts, verifierAccepts);
  }

  const BY_ID := map["1" := FIRST, "2" := SECOND]

  lemma TwinsById(e: Environment)
    requires ExecutorAccepted(e) == {FIRST, SECOND}
    ensures MapsIds(BY_ID, [FIRST, SECOND]) && Elements([FIRST, SECOND]) == ExecutorAccepted(e)
  {
    hide ExecutorAccepted;
    assert FIRST.candidateId == "1" && SECOND.candidateId == "2";
    assert Ids({FIRST, SECOND}) == {"1", "2"} by {
      assert FIRST in {FIRST, SECOND} && SECOND in {FIRST, SECOND};
    }
  }

  /** The stored reports when only the first twin has one. */
  ghost function OnlyFirst(criticAccepts: bool, verifierAccepts: bool): seq<CriticReport> {
    [CanonicalReport(TwinRun(criticAccepts, verifierAccepts), FIRST)]
  }

  lemma OnlyTheFirstReport(criticAccepts: bool, verifierAccepts: bool)
    ensures var reports := OnlyFirst(criticAccepts, verifierAccepts);
      ReportsKnown(BY_ID, reports) && AcceptedBy(BY_ID, reports) == if criticAccepts then [FIRST] else []
    ensures var e, reports := TwinRun(criticAccepts, verifierAccepts), OnlyFirst(criticAccepts, verifierAccepts);
      LostMirrors(e, reports, {}) && InsideCritic(e, reports, {}) && CanonicalReports(e) <= Elements(reports)
  {
    hide Canonical, MirroredReports, CriticRejections, ReviewOf;
    TwinReview(criticAccepts, verifierAccepts);
    var e := TwinRun(criticAccepts, verifierAccepts);
    var reports := [CanonicalReport(e, FIRST)];
    assert Elements(reports) == {CanonicalReport(e, FIRST)};
    assert reports[..0] == [] && AcceptedBy(BY_ID, []) == [];
  }

  /** Interrupted before the copy for the second twin: on resume the critic counts as complete and carries
      the first on, while an uninterrupted run carries both; the second has no rejection but dedup's. */
  lemma LostMirrorExample()
    ensures ReportsKnown(BY_ID, OnlyFirst(true, true)) && AcceptedBy(BY_ID, OnlyFirst(true, true)) == [FIRST]
    ensures var e := TwinRun(true, true);
      && WellFormed(e) && LostMirrors(e, OnlyFirst(true, true), {}) && Merged(e, SECOND, FIRST) && ReviewOf(e, FIRST).accepted
      && ReviewStageComplete(Ids(Canonical(e)), set r | r in OnlyFirst(true, true) :: r.candidateId, RejectionsAt(e, 4), CriticStage) == Success(true)
      && CriticAccepted(e) == {FIRST, SECOND}
      && forall r :: r in RejectionsAt(e, 4) && r.candidateId == SECOND.candidateId ==> r.stage == DedupStage
  {
    hide OnlyFirst, ExecutorAccepted, Canonical, MirroredReports, RejectionsAt, ReviewOf, Merged, WellFormed, LostMirrors, ReportsKnown, InsideCritic, AcceptedBy, CriticAccepted, FIRST, SECOND, Identity;
    var e := TwinRun(true, true);
    TwinRunIsWellFormed(true, true);
    TwinsMerge(true, true);
    TwinReview(true, true);
    OnlyTheFirstReport(true, true);
    LostMirrorsGoUnnoticed(e, OnlyFirst(true, true), {}, RejectionsAt(e, 4));
    MergedAreOnRecord(e, SECOND);
    BothAreAccepted(true);
  }

  lemma BothAreAccepted(verifierAccepts: bool)
    ensures CriticAccepted(TwinRun(true, verifierAccepts)) == {FIRST, SECOND}
  {
    hide ExecutorAccepted, Canonical, Merged, ReviewOf, CriticReports, WellFormed, CriticAccepted, Reported;
    var e := TwinRun(true, verifierAccepts);
    TwinRunIsWellFormed(true, verifierAccepts);
    TwinsMerge(true, verifierAccepts);
    TwinReview(true, verifierAccepts);
    CanonicalIsReported(e, FIRST);
    AcceptedBecause(e, FIRST, CanonicalReport(e, FIRST));
    MergedIsReported(e, SECOND, FIRST);
    AcceptedBecause(e, SECOND, MirroredReport(e, SECOND, FIRST));
    forall x | x in CriticAccepted(e) ensures x in {FIRST, SECOND} {
      var c, r := OriginOf(e, x);
      ReportedIsAccepted(e, c, r);
      if c == FIRST {
        OneReport(e, c, r, CanonicalReport(e, FIRST));
      } else {
        OneReport(e, c, r, MirroredReport(e, SECOND, FIRST));
      }
    }
  }

  /** Interrupted between the first twin's refusing report and its rejection: on resume the critic counts
      as complete, nobody is carried on, and the first twin has no rejection at all. */
  lemma LostRejectionExample()
    ensures ReportsKnown(BY_ID, OnlyFirst(false, true)) && AcceptedBy(BY_ID, OnlyFirst(false, true)) == []
    ensures var e := TwinRun(false, true);
      && WellFormed(e) && InsideCritic(e, OnlyFirst(false, true), {})
      && ReviewStageComplete(Ids(Canonical(e)), set r | r in OnlyFirst(false, true) :: r.candidateId, RejectionsAt(e, 4) + {}, CriticStage) == Success(true)
      && !OnRecord(RejectionsAt(e, 4) + {}, FIRST.candidateId)
  {
    hide OnlyFirst, ExecutorAccepted, Canonical, RejectionsAt, ReviewOf, Merged, WellFormed, LostMirrors, InsideCritic, ReportsKnown, AcceptedBy, FIRST, SECOND, Identity, OnRecord, CanonicalReports;
    var e := TwinRun(false, true);
    TwinRunIsWellFormed(false, true);
    TwinsMerge(false, true);
    TwinReview(false, true);
    OnlyTheFirstReport(false, true);
    CriticCountsAsComplete(e, OnlyFirst(false, true), {});
    TwinsById(e);
    CriticDropsExactly(e, BY_ID, [FIRST, SECOND], OnlyFirst(false, true), {}, FIRST);
  }

  /** The same inside the verifier, when it has refused both. */
  lemma LostVerdictExample()
    ensures var e := TwinRun(true, false);
      var reports := [VerifierReportOf(e, FIRST), VerifierReportOf(e, SECOND)];
      && WellFormed(e) && InsideVerifier(e, reports, {})
      && ReviewStageComplete(Ids(CriticAccepted(e)), set r | r in reports :: r.candidateId, RejectionsAt(e, 6) + {}, VerifierStage) == Success(true)
      && VerifierAccepted(e) == {} && !OnRecord(RejectionsAt(e, 6) + {}, FIRST.candidateId)
  {
    hide ExecutorAccepted, Canonical, RejectionsAt, ReviewOf, Merged, WellFormed, CriticAccepted, FIRST, SECOND, Identity, OnRecord, VerifierReportOf;
    var e := TwinRun(true, false);
    var reports := [VerifierReportOf(e, FIRST), VerifierReportOf(e, SECOND)];
    TwinRunIsWellFormed(true, false);
    TwinsMerge(true, false);
    BothAreAccepted(false);
    BothAreRefused();
    assert Elements(reports) == VerifierReports(e);
    VerifierCountsAsComplete(e, reports, {});
    TwinsById(e);
    VerifierDropsExactly(e, BY_ID, [FIRST, SECOND], reports, {}, FIRST);
    assert FIRST.candidateId in Ids(Canonical(e)) by {
      assert FIRST in Canonical(e);
    }
  }

  lemma BothAreRefused()
    ensures var e := TwinRun(true, false);
      && !VerifierReportOf(e, FIRST).accepted && !VerifierReportOf(e, SECOND).accepted
      && VerifierReportOf(e, FIRST).candidateId == FIRST.candidateId != SECOND.candidateId == VerifierReportOf(e, SECOND).candidateId
  {
    var e := TwinRun(true, false);
    AcceptedExactly(e.plan, LETTER, FIRST, e.verifierVerdict(FIRST), e.grounding);
    AcceptedExactly(e.plan, LETTER, SECOND, e.verifierVerdict(SECOND), e.grounding);
    assert FIRST.candidateId == "1" && SECOND.candidateId == "2";
  }
}
