/** Concrete runs in which a record fails its validator: a mirrored correction with another value, read back
    or made a data point; a correction narrowed to white space; a value without an identity. */
module MirrorRuns {
  import opened Utf8
  import opened Wrappers
  import opened Contracts
  import opened Sorting
  import opened CandidateBuilding
  import opened CandidateViews
  import opened CriticCorrections
  import opened VerifierPolicies
  import opened Dedup
  import opened KeyTexts
  import opened Reconciliation
  import opened ReconciliationAccounting
  import opened AuditStores
  import opened PipelineSpec
  import opened PipelineFacts
  import opened CriticReviews
  import opened CriticReplays
  import opened SilentDrops
  import opened ReconcilerSteps
  import opened Orchestrator
  import opened RunConditions
  import opened SeedDigests

  function ChunkOf(text: string): Chunk {
    Chunk(ChunkId("d", "", 0, 0, |text|, 0, 1), "d", 0, text, 0, |text|, 0, |text|, 0, 1,
      ChunkLayout(Mixed, TokenWindow, [], [], [], [], None, []))
  }

  const PAIR := ChunkOf("A. a.")

  function Found(chunk: Chunk, id: string, value: string, start: nat, text: string): Candidate {
    Candidate(id, "r", "d", chunk.chunkId, "lens", "c", "f", value,
      SourceSpan("d", chunk.chunkId, start, start + |text|, start, start + |text|, text), 1.0, "call", NormalizationMetadata(value, text))
  }

  const UPPER := Found(PAIR, "1", "A", 0, "A.")
  const LOWER := Found(PAIR, "2", "a", 3, "a.")

  /** The run: both values are the same up to case, and the critic narrows every span to "A". */
  function PairRun(groups: seq<Group>): Environment {
    Environment(
      Plan("r", "d", map["c" := {"f"}]), map[PAIR.chunkId := PAIR], [(UPPER, []), (LOWER, [])], (t: string) => if t == "A" then "a" else t,
      Grounding((c: Candidate) => true, (f: string) => false, (a: Candidate, b: Candidate) => false,
                (p: Plan, k: Chunk, c: Candidate, v: Verdict) => false),
      (c: Candidate) => Verdict(c.candidateId, Correct, None, None, Some(Correction(None, None, None, None, Some("A")))),
      (c: Candidate) => VerifierVerdict(true, VerifierRejected, ""),
      (cs: set<Candidate>) => Batch(groups, []), (c: Candidate) => [], (s: PointSeed) => Digest(s), (id: string) => id, 1)
  }

  lemma OneLetter(letter: char)
    requires !IsWhite(letter)
    ensures NonBlank([letter])
  {
    assert [letter][0] == letter;
  }

  lemma PairIsEncoded()
    ensures Encode("A. a.") == [0x41, 0x2E, 0x20, 0x61, 0x2E] && Encode("A.") == [0x41, 0x2E] && Encode("a.") == [0x61, 0x2E] && Encode("A") == [0x41]
  {
    assert "A. a."[1..] == ". a." && ". a."[1..] == " a." && " a."[1..] == "a." && "a."[1..] == ".";
  }

  lemma PairIsBuilt()
    ensures ExecutorBuilt(UPPER) && ExecutorBuilt(LOWER)
    ensures SpanMatchesChunk(UPPER.span, PAIR) && SpanMatchesChunk(LOWER.span, PAIR)
  {
    hide NonBlank, Encode, FilledNormalization;
    PairIsEncoded();
    OneLetter('A');
    OneLetter('a');
    OneLetter('c');
    OneLetter('f');
    StartsFilled("A.");
    StartsFilled("a.");
    MetadataIsFilled("A", "A.");
    MetadataIsFilled("a", "a.");
  }

  lemma StartsFilled(text: string)
    requires text != [] && !IsWhite(text[0])
    ensures NonBlank(text)
  {
  }

  lemma PairRunIsWellFormed(groups: seq<Group>)
    requires forall g :: g in groups ==> ValidGroup(g)
    ensures WellFormed(PairRun(groups))
  {
    hide SpanMatchesChunk, Digest, ExecutorBuilt, ValidGroup;
    var e := PairRun(groups);
    PairIsBuilt();
    forall a, b | e.digest(a) == e.digest(b) ensures a == b {
      DigestIsInjective(a, b);
    }
    assert forall k :: 0 <= k < |e.outcomes| ==> OutcomeCandidate(e, k) == UPPER || OutcomeCandidate(e, k) == LOWER;
    assert UPPER.candidateId != LOWER.candidateId;
  }

  /** The second is merged into the first, and both have an identity. */
  lemma PairMerges(groups: seq<Group>)
    ensures var e := PairRun(groups);
      ExecutorAccepted(e) == {UPPER, LOWER} && Canonical(e) == {UPPER} && Merged(e, LOWER, UPPER) && IdentitiesHold(e)
  {
    hide ExecutorAccepted, NonBlank;
    var e := PairRun(groups);
    PairIsExecuted(e);
    OneLetter('a');
    assert Less("1", "2") && !Less("2", "1") && !Less("1", "1") && !Less("2", "2") by {
      assert "1"[0] < "2"[0];
    }
    assert SameIdentity(UPPER, LOWER, e.normalize);
    assert IdLess(UPPER, LOWER) && !IdLess(LOWER, UPPER) && !IdLess(UPPER, UPPER);
    assert IsPrimary(ExecutorAccepted(e), UPPER, e.normalize);
    assert !IsPrimary(ExecutorAccepted(e), LOWER, e.normalize);
  }

  lemma PairIsExecuted(e: Environment)
    requires e.outcomes == [(UPPER, []), (LOWER, [])]
    ensures ExecutorAccepted(e) == {UPPER, LOWER}
  {
    assert OutcomeCandidate(e, 0) == UPPER && OutcomeCandidate(e, 1) == LOWER;
  }

  const NARROW := SourceSpan("d", PAIR.chunkId, 0, 1, 0, 1, "A")

  const TO_A := Correction(None, None, None, None, Some("A"))

  lemma NarrowMatches()
    ensures SpanMatchesChunk(NARROW, PAIR) && ValidSpan(NARROW)
  {
    hide Encode;
    PairIsEncoded();
  }

  lemma NarrowIsValid()
    ensures ValidCandidate(UPPER.(span := NARROW))
  {
    hide NonBlank, FilledNormalization, ValidNormalization, NormalizationMetadata, ValidSpan;
    PairIsBuilt();
    NarrowMatches();
  }

  lemma NothingBefore(text: string)
    ensures PrefixBytes(text, 0) == 0
  {
  }

  lemma Narrowed()
    ensures MaterializeCorrection(Some(TO_A), UPPER, PAIR) == (Some(UPPER.(span := NARROW)), [])
  {
    hide Encode, PrefixBytes, ValidCandidate, NormalizationMetadata;
    PairIsEncoded();
    NarrowIsValid();
    NothingBefore(PAIR.text);
    assert PAIR.text[0..1] == "A";
  }

  /** A correction of the span alone that stays inside it is applied as it is. */
  lemma SpanCorrectionApplies(plan: Plan, chunk: Chunk, c: Candidate, verdict: Verdict, span: SourceSpan, g: Grounding)
    requires verdict.decision == Correct && MaterializeCorrection(verdict.correction, c, chunk) == (Some(c.(span := span)), [])
    requires SchemaApproves(plan, c.category, c.fieldName) && SpanMatchesChunk(span, chunk)
    requires !ExpandsSpan(c.span, span) && (g.isLabelField(c.fieldName) || g.supported(c.(span := span)))
    ensures BuildReview(plan, chunk, c, verdict, g) == Review(true, Some(c.(span := span)))
  {
    hide SpanMatchesChunk, SchemaApproves, ExpandsSpan, MaterializeCorrection;
  }

  lemma PairReplies(groups: seq<Group>)
    ensures var e := PairRun(groups);
      && SchemaApproves(e.plan, UPPER.category, UPPER.fieldName) && !ExpandsSpan(UPPER.span, NARROW) && UPPER.chunkId in e.chunks && e.chunks[UPPER.chunkId] == PAIR
      && e.criticVerdict(UPPER).decision == Correct && e.criticVerdict(UPPER).correction == Some(TO_A)
      && e.grounding.supported(UPPER.(span := NARROW))
  {
  }

  /** The critic's correction of the first. */
  lemma PairReview(groups: seq<Group>)
    ensures ReviewOf(PairRun(groups), UPPER) == Review(true, Some(UPPER.(span := NARROW)))
  {
    hide MaterializeCorrection, SpanMatchesChunk, BuildReview, SchemaApproves, ExpandsSpan, PairRun, UPPER, NARROW, PAIR, TO_A;
    var e := PairRun(groups);
    PairReplies(groups);
    Narrowed();
    NarrowMatches();
    SpanCorrectionApplies(e.plan, PAIR, UPPER, e.criticVerdict(UPPER), NARROW, e.grounding);
  }

  /** Its copy takes over the value. */
  lemma CopyOfReview()
    ensures Reviewed(LOWER, MirrorReview(Review(true, Some(UPPER.(span := NARROW))), LOWER)) == LOWER.(span := NARROW, value := "A")
  {
    hide NormalizationMetadata;
  }

  const UPPER_A := UPPER.(span := NARROW)
  const LOWER_A := LOWER.(span := NARROW, value := "A")

  lemma PairIsAccepted(groups: seq<Group>)
    requires forall g :: g in groups ==> ValidGroup(g)
    ensures CriticAccepted(PairRun(groups)) == {UPPER_A, LOWER_A}
  {
    hide ExecutorAccepted, Canonical, Merged, ReviewOf, MirrorReview, CriticReports, WellFormed, CriticAccepted, Reported, Reviewed, IdentitiesHold, PairRun;
    var e := PairRun(groups);
    PairRunIsWellFormed(groups);
    PairMerges(groups);
    PairReview(groups);
    CanonicalIsReported(e, UPPER);
    AcceptedBecause(e, UPPER, CanonicalReport(e, UPPER));
    MergedIsReported(e, LOWER, UPPER);
    AcceptedBecause(e, LOWER, MirroredReport(e, LOWER, UPPER));
    CopyOfReview();
    ReviewedTo(UPPER, ReviewOf(e, UPPER));
    MirrorAccepts(ReviewOf(e, UPPER), LOWER);
    forall x | x in CriticAccepted(e) ensures x in {UPPER_A, LOWER_A} {
      var c, p := PrimaryOf(e, x);
      if c == UPPER && Merged(e, c, p) {
        CanonicalIsNotMerged(e, c, p);
      }
    }
  }

  lemma ReviewedTo(c: Candidate, r: Review)
    ensures r.corrected.Some? ==> Reviewed(c, r) == r.corrected.value
  {
  }

  lemma MirrorAccepts(r: Review, c: Candidate)
    ensures MirrorReview(r, c).accepted == r.accepted
  {
  }

  lemma PairIsVerified(groups: seq<Group>)
    requires forall g :: g in groups ==> ValidGroup(g)
    ensures VerifierAccepted(PairRun(groups)) == {UPPER_A, LOWER_A}
  {
    hide CriticAccepted, BuildVerifierReport, UPPER_A, LOWER_A, SpanMatchesChunk, SchemaApproves, PairRun;
    var e := PairRun(groups);
    PairIsAccepted(groups);
    forall x | x in {UPPER_A, LOWER_A} ensures VerifierReportOf(e, x).accepted {
      PairFields(x);
      PairPasses(groups, x);
      AcceptedExactly(e.plan, PAIR, x, e.verifierVerdict(x), e.grounding);
    }
  }

  lemma PairFields(x: Candidate)
    requires x in {UPPER_A, LOWER_A}
    ensures x.span == NARROW && x.category == "c" && x.fieldName == "f" && x.chunkId == PAIR.chunkId
  {
  }

  lemma PairPasses(groups: seq<Group>, x: Candidate)
    requires x.span == NARROW && x.category == "c" && x.fieldName == "f" && x.chunkId == PAIR.chunkId
    ensures var e := PairRun(groups);
      && SpanMatchesChunk(x.span, PAIR) && SchemaApproves(e.plan, x.category, x.fieldName) && e.grounding.supported(x) && e.verifierVerdict(x).accepts
      && x.chunkId in e.chunks && e.chunks[x.chunkId] == PAIR
  {
    hide SpanMatchesChunk, NARROW, PAIR, UPPER, LOWER;
    NarrowMatches();
  }

  lemma PairContext(groups: seq<Group>)
    requires forall g :: g in groups ==> ValidGroup(g)
    ensures var e := PairRun(groups); var x := ContextOf(e, VerifierAccepted(e));
      && x.byId.Keys == {"1", "2"} && x.byId["1"] == UPPER_A && x.byId["2"] == LOWER_A && ValidContext(x) && x.plan == e.plan
      && VerifierAccepted(e) != {} && e.reply(VerifierAccepted(e)) == Batch(groups, [])
  {
    hide CriticAccepted, VerifierAccepted, VerifierReportOf, WithId;
    var e := PairRun(groups);
    PairIsVerified(groups);
    PairIds();
    ChosenById(VerifierAccepted(e), "1");
    ChosenById(VerifierAccepted(e), "2");
    VerifiedContext(e);
  }

  lemma PairIds()
    ensures Ids({UPPER_A, LOWER_A}) == {"1", "2"} && UPPER_A.candidateId == "1" && LOWER_A.candidateId == "2" && "1" != "2"
  {
    assert UPPER_A in {UPPER_A, LOWER_A} && LOWER_A in {UPPER_A, LOWER_A};
    assert "1"[0] != "2"[0];
  }

  /** The copy takes over another value, while every applied correction can be shown. */
  lemma PairDisagrees(groups: seq<Group>)
    ensures var e := PairRun(groups); !SourceAgrees(e, "2") && !MirrorsAgree(e) && CorrectionsShow(e)
  {
    hide ReviewOf, Merged, Canonical, ExecutorAccepted, NonBlank, IdentitiesHold, PairRun;
    var e := PairRun(groups);
    PairMerges(groups);
    PairReview(groups);
    OneLetter('A');
    assert "a"[0] != "A"[0];
    assert LOWER.candidateId == "2" && LOWER.value != UPPER.value;
  }

  lemma FirstAgrees(groups: seq<Group>)
    requires forall g :: g in groups ==> ValidGroup(g)
    ensures SourceAgrees(PairRun(groups), "1")
  {
    hide ReviewOf, Merged, Canonical, ExecutorAccepted, WellFormed, IdentitiesHold, PairRun, UPPER, LOWER;
    var e := PairRun(groups);
    PairRunIsWellFormed(groups);
    PairMerges(groups);
    PairIdsAre();
    forall c, p | Merged(e, c, p) && c.candidateId == "1" ensures false {
      MergedAreInput(e, c, p);
      CanonicalIsNotMerged(e, c, p);
    }
  }

  lemma PairIdsAre()
    ensures UPPER.candidateId == "1" && LOWER.candidateId == "2" && "1" != "2"
  {
    assert "1"[0] != "2"[0];
  }

  const TOGETHER := [Group("1", ["1", "2"])]

  lemma TogetherIsFirst(x: Context)
    requires x.byId.Keys == {"1", "2"} && ValidContext(x) && (forall c :: x.rank(c) == [])
    ensures ValidGroup(TOGETHER[0]) && GroupKnown(x, TOGETHER[0]) && BestSource(x, TOGETHER[0]) == "1"
  {
    assert "1"[0] < "2"[0];
    var g := TOGETHER[0];
    if BestSource(x, g) == "2" {
      assert RankLess(x, x.byId["1"], x.byId["2"]);
    }
  }

  /** A reply that keeps both as one data point: without interruption the run completes, and resumed after
      the critic it fails, because the copy cannot be read back. */
  lemma ResumedPairFails()
    ensures var e := PairRun(TOGETHER);
      && WellFormed(e) && ResumedOutcome(e, []) == Completed(FinalReport(e)) && ResumedOutcome(e, [AtBoundary(5)]) == Failed
  {
    hide WellFormed, IdentitiesHold, CorrectionsShow, MirrorsAgree, FinalReport, VerifierAccepted, ContextOf, SourceAgrees, PairRun, ResumedOutcome;
    var e := PairRun(TOGETHER);
    var x := ContextOf(e, VerifierAccepted(e));
    assert ValidGroup(TOGETHER[0]) by {
      assert "1"[0] != "2"[0];
    }
    PairRunIsWellFormed(TOGETHER);
    PairMerges(TOGETHER);
    PairDisagrees(TOGETHER);
    PairContext(TOGETHER);
    FirstAgrees(TOGETHER);
    RanksAreEqual(TOGETHER);
    TogetherIsFirst(x);
    TogetherIsKnown(e, x);
    CompletesExactly(e);
    FailsOnResume(e);
  }

  lemma RanksAreEqual(groups: seq<Group>)
    ensures var e := PairRun(groups); forall c :: ContextOf(e, VerifierAccepted(e)).rank(c) == []
  {
    hide VerifierAccepted;
  }

  lemma TogetherIsKnown(e: Environment, x: Context)
    requires x == ContextOf(e, VerifierAccepted(e)) && e.reply(VerifierAccepted(e)) == Batch(TOGETHER, [])
    requires ValidGroup(TOGETHER[0]) && GroupKnown(x, TOGETHER[0]) && SourceAgrees(e, BestSource(x, TOGETHER[0]))
    ensures ReplyKnown(e) && ReplyAgrees(e)
  {
    hide VerifierAccepted, ContextOf, SourceAgrees, GroupKnown, ValidGroup, BestSource, Kept;
  }

  lemma FailsOnResume(e: Environment)
    requires WellFormed(e) && !MirrorsAgree(e)
    ensures ResumedOutcome(e, [AtBoundary(5)]) == Failed
  {
    hide WellFormed, MirrorsAgree, MirrorsHold, LastBoundary, FinalReport;
    MirrorsHoldExactly(e);
    StopAfterCritic();
  }

  const ALONE := [Group("2", ["2"])]

  /** A reply that keeps the copy as a data point of its own: every identity holds, every correction can be
      shown and the reply is known, and yet the run fails without any interruption. */
  lemma CopyAloneFails()
    ensures var e := PairRun(ALONE);
      WellFormed(e) && IdentitiesHold(e) && CorrectionsShow(e) && ReplyKnown(e) && ResumedOutcome(e, []) == Failed
  {
    hide WellFormed, IdentitiesHold, CorrectionsShow, MirrorsAgree, FinalReport, VerifierAccepted, ContextOf, SourceAgrees, PairRun, UPPER_A, LOWER_A,
      ReplyAgrees, ReplyKnown, LastBoundary;
    var e := PairRun(ALONE);
    var x := ContextOf(e, VerifierAccepted(e));
    assert ValidGroup(ALONE[0]);
    PairRunIsWellFormed(ALONE);
    PairMerges(ALONE);
    PairDisagrees(ALONE);
    PairContext(ALONE);
    PairFields(LOWER_A);
    PairPasses(ALONE, LOWER_A);
    AloneIsKept(e, x);
    CompletesExactly(e);
    FailedOrCompleted(e);
  }

  lemma FailedOrCompleted(e: Environment)
    ensures ResumedOutcome(e, []) == Failed || ResumedOutcome(e, []) == Completed(FinalReport(e))
  {
    hide LastBoundary, MirrorsHold, FinalReport;
  }

  lemma AloneIsKept(e: Environment, x: Context)
    requires x == ContextOf(e, VerifierAccepted(e)) && e.reply(VerifierAccepted(e)) == Batch(ALONE, []) && VerifierAccepted(e) != {}
    requires "2" in x.byId && SchemaApproves(x.plan, x.byId["2"].category, x.byId["2"].fieldName) && !SourceAgrees(e, "2")
    ensures ReplyKnown(e) && !ReplyAgrees(e)
  {
    hide VerifierAccepted, ContextOf, SourceAgrees, Kept, SchemaApproves, RankLess;
    var g := ALONE[0];
    KeptExactly(x, {}, g);
    assert BestSource(x, g) == "2";
    assert Named(ALONE[..0]) == {};
    assert !GroupAgrees(e, x, ALONE, 0);
  }

  // A correction narrowed to white space, and a value without an identity

  const WORDS := ChunkOf("a b")
  const PHRASE := Found(WORDS, "1", "a b", 0, "a b")
  const GAP := SourceSpan("d", WORDS.chunkId, 1, 2, 1, 2, " ")
  const TO_GAP := Correction(None, None, None, Some(1), Some(" "))

  const BOX := ChunkOf("[ ]")
  const CHECK := Found(BOX, "1", "[ ]", 0, "[ ]")

  /** A run of one candidate in a label field, which the critic narrows as asked. */
  function SingleRun(c: Candidate, chunk: Chunk, correction: Correction): Environment {
    Environment(
      Plan("r", "d", map["c" := {"f"}]), map[chunk.chunkId := chunk], [(c, [])], (t: string) => NormalizeKeyText(t, s => s, s => s),
      Grounding((x: Candidate) => NonBlank(x.span.text), (f: string) => true, (a: Candidate, b: Candidate) => false,
                (p: Plan, k: Chunk, x: Candidate, v: Verdict) => false),
      (x: Candidate) => Verdict(x.candidateId, Correct, None, None, Some(correction)),
      (x: Candidate) => VerifierVerdict(true, VerifierRejected, ""),
      (cs: set<Candidate>) => Batch([], []), (x: Candidate) => [], (s: PointSeed) => Digest(s), (id: string) => id, 1)
  }

  lemma SingleRunIsWellFormed(c: Candidate, chunk: Chunk, correction: Correction)
    requires ExecutorBuilt(c) && c.runId == "r" && c.docId == "d" && c.chunkId == chunk.chunkId && c.category == "c" && c.fieldName == "f"
    requires SpanMatchesChunk(c.span, chunk)
    ensures WellFormed(SingleRun(c, chunk, correction))
    ensures ExecutorAccepted(SingleRun(c, chunk, correction)) == {c}
  {
    hide SpanMatchesChunk, Digest, ExecutorBuilt, NormalizeKeyText, NonBlank;
    var e := SingleRun(c, chunk, correction);
    forall a, b | e.digest(a) == e.digest(b) ensures a == b {
      DigestIsInjective(a, b);
    }
    assert OutcomeCandidate(e, 0) == c;
  }

  lemma SingleIsCanonical(c: Candidate, chunk: Chunk, correction: Correction)
    requires ExecutorAccepted(SingleRun(c, chunk, correction)) == {c}
    ensures Canonical(SingleRun(c, chunk, correction)) == {c}
  {
    hide ExecutorAccepted, SingleRun, Identity;
    LessIsStrict(c.candidateId);
  }

  lemma WordsAreEncoded()
    ensures Encode("a b") == [0x61, 0x20, 0x62] && Encode(" ") == [0x20] && Encode("[ ]") == [0x5B, 0x20, 0x5D]
  {
    assert "a b"[1..] == " b" && " b"[1..] == "b" && "[ ]"[1..] == " ]" && " ]"[1..] == "]";
  }

  lemma PhraseIsBuilt()
    ensures ExecutorBuilt(PHRASE) && SpanMatchesChunk(PHRASE.span, WORDS)
  {
    hide NonBlank, Encode, FilledNormalization;
    WordsAreEncoded();
    OneLetter('c');
    OneLetter('f');
    StartsFilled("a b");
    MetadataIsFilled("a b", "a b");
  }

  lemma CheckIsBuilt()
    ensures ExecutorBuilt(CHECK) && SpanMatchesChunk(CHECK.span, BOX)
  {
    hide NonBlank, Encode, FilledNormalization;
    WordsAreEncoded();
    OneLetter('c');
    OneLetter('f');
    StartsFilled("[ ]");
    MetadataIsFilled("[ ]", "[ ]");
  }

  lemma GapMatches()
    ensures SpanMatchesChunk(GAP, WORDS) && ValidSpan(GAP) && !NonBlank(GAP.text) && !ExpandsSpan(PHRASE.span, GAP)
  {
    hide Encode;
    WordsAreEncoded();
    assert "a b"[1..2] == " ";
    assert [0x61, 0x20, 0x62][1..2] == [0x20];
  }

  lemma GapIsValid()
    ensures ValidCandidate(PHRASE.(span := GAP))
  {
    hide NonBlank, FilledNormalization, ValidNormalization, NormalizationMetadata, ValidSpan;
    PhraseIsBuilt();
    GapMatches();
  }

  lemma OneBefore()
    ensures PrefixBytes("a b", 1) == 1
  {
    assert "a b"[..1] == "a";
  }

  lemma GapIsMaterialized()
    ensures MaterializeCorrection(Some(TO_GAP), PHRASE, WORDS) == (Some(PHRASE.(span := GAP)), [])
  {
    hide Encode, PrefixBytes, ValidCandidate, NormalizationMetadata;
    WordsAreEncoded();
    GapIsValid();
    OneBefore();
    assert WORDS.text[1..2] == " ";
  }

  lemma SingleReplies(c: Candidate, chunk: Chunk, correction: Correction)
    requires c.chunkId == chunk.chunkId && c.category == "c" && c.fieldName == "f"
    ensures var e := SingleRun(c, chunk, correction);
      && SchemaApproves(e.plan, c.category, c.fieldName) && c.chunkId in e.chunks && e.chunks[c.chunkId] == chunk
      && e.criticVerdict(c).decision == Correct && e.criticVerdict(c).correction == Some(correction) && e.grounding.isLabelField(c.fieldName)
  {
    hide NormalizeKeyText, NonBlank;
  }

  lemma PhraseFields()
    ensures PHRASE.runId == "r" && PHRASE.docId == "d" && PHRASE.chunkId == WORDS.chunkId && PHRASE.category == "c" && PHRASE.fieldName == "f"
    ensures CHECK.runId == "r" && CHECK.docId == "d" && CHECK.chunkId == BOX.chunkId && CHECK.category == "c" && CHECK.fieldName == "f"
  {
  }

  /** The critic may narrow a label to the space inside its span; the verifier cannot show it, and the run
      fails without any interruption, although the reply is known. */
  lemma BlankCorrectionFails()
    ensures var e := SingleRun(PHRASE, WORDS, TO_GAP);
      WellFormed(e) && !CorrectionsShow(e) && ResumedOutcome(e, []) == Failed
  {
    hide WellFormed, ExecutorAccepted, Canonical, IdentitiesHold, FinalReport, ReplyAgrees, ReplyKnown, LastBoundary, BuildReview, SpanMatchesChunk,
      SchemaApproves, ExpandsSpan, MaterializeCorrection, SingleRun, PHRASE, WORDS, TO_GAP, GAP, NonBlank;
    var e := SingleRun(PHRASE, WORDS, TO_GAP);
    PhraseIsBuilt();
    PhraseFields();
    SingleRunIsWellFormed(PHRASE, WORDS, TO_GAP);
    SingleIsCanonical(PHRASE, WORDS, TO_GAP);
    SingleReplies(PHRASE, WORDS, TO_GAP);
    GapMatches();
    GapIsMaterialized();
    SpanCorrectionApplies(e.plan, WORDS, PHRASE, e.criticVerdict(PHRASE), GAP, e.grounding);
    assert PHRASE in Canonical(e) && ReviewOf(e, PHRASE).corrected == Some(PHRASE.(span := GAP));
    CompletesExactly(e);
    FailedOrCompleted(e);
  }

  lemma BoxHasNoIdentity()
    ensures !KeyHolds(CHECK, t => NormalizeKeyText(t, s => s, s => s))
  {
    hide NormalizeKeyText, NonBlank;
    CheckBoxIsBlank();
  }

  /** An empty check box as a value: it has no identity, and the run fails in dedup. */
  lemma CheckBoxFails(correction: Correction)
    ensures var e := SingleRun(CHECK, BOX, correction);
      WellFormed(e) && !IdentitiesHold(e) && ResumedOutcome(e, []) == Failed
  {
    hide WellFormed, ExecutorAccepted, CorrectionsShow, FinalReport, ReplyAgrees, ReplyKnown, LastBoundary, SpanMatchesChunk, SchemaApproves, CHECK, BOX,
      KeyHolds;
    var e := SingleRun(CHECK, BOX, correction);
    CheckIsBuilt();
    PhraseFields();
    SingleRunIsWellFormed(CHECK, BOX, correction);
    BoxHasNoIdentity();
    assert CHECK in ExecutorAccepted(e);
    CompletesExactly(e);
    FailedOrCompleted(e);
  }
}
