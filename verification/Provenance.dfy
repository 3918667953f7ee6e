/** The end-to-end theorem: every span that a run reports is an exact, byte-aligned slice of the
    document, so that the report check finds nothing. */
module Provenance {
  import opened Utf8
  import opened Wrappers
  import opened Contracts
  import opened Sorting
  import opened SourceResolution
  import opened CandidateBuilding
  import opened CriticCorrections
  import opened VerifierPolicies
  import opened ReportInvariants
  import opened Dedup
  import opened Reconciliation
  import opened ReconciliationAccounting
  import opened AuditStores
  import opened PipelineSpec
  import opened PipelineFacts
  import opened ReconcilerSteps
  import opened Orchestrator
  import Packing
  import Window = TokenWindow
  import Layout = LayoutChunks

  /** One payload of an executor call on one chunk. */
  datatype Call = Call(lens: string, chunkId: ChunkId, payload: Payload, fold: char -> char, normalizers: seq<Normalizer>,
                       candidateId: string, callId: string)

  /** Outcome `k` is what the executor makes of call `k`. */
  predicate IsOutcome(e: Environment, calls: seq<Call>, k: nat)
    requires k < |calls| && k < |e.outcomes|
  {
    var call := calls[k];
    && call.chunkId in e.chunks && call.payload.value != []
    && ExecuteOne(e.plan, call.lens, e.chunks[call.chunkId], call.payload, call.fold, call.normalizers, call.candidateId, call.callId)
       == Some(e.outcomes[k])
  }

  predicate Executes(e: Environment, calls: seq<Call>) {
    |calls| == |e.outcomes| && forall k :: 0 <= k < |calls| ==> IsOutcome(e, calls, k)
  }

  /** The chunks are those of the text, under their own ids. */
  predicate ChunksExact(e: Environment, text: string) {
    forall id :: id in e.chunks ==> ChunkExact(text, e.chunks[id]) && e.chunks[id].chunkId == id
  }

  /** `{chunk.chunk_id: chunk for chunk in chunks}` */
  function ChunksById(chunks: seq<Chunk>): map<ChunkId, Chunk> {
    if chunks == [] then map[]
    else
      var last := chunks[|chunks| - 1];
      ChunksById(chunks[..|chunks| - 1])[last.chunkId := last]
  }

  lemma {:induction false} ChunksByIdAreChunks(chunks: seq<Chunk>, id: ChunkId)
    requires id in ChunksById(chunks)
    ensures ChunksById(chunks)[id] in chunks && ChunksById(chunks)[id].chunkId == id
  {
    var front, last := chunks[..|chunks| - 1], chunks[|chunks| - 1];
    if id != last.chunkId {
      ChunksByIdAreChunks(front, id);
    }
  }

  /** What token-window mode yields satisfies the premise of this module. */
  lemma WindowChunksAreExact(e: Environment, d: Document, pieces: seq<seq<Byte>>, window: nat, overlap: nat, chunks: seq<Chunk>)
    requires Window.WindowChain(d, pieces, window, overlap, chunks) && e.chunks == ChunksById(chunks)
    ensures ChunksExact(e, d.text)
  {
    hide ChunkExact, ValidChunk, Encode, Window.TokenChain, ChunksById;
    forall id | id in e.chunks ensures ChunkExact(d.text, e.chunks[id]) && e.chunks[id].chunkId == id {
      ChunksByIdAreChunks(chunks, id);
      var k :| 0 <= k < |chunks| && chunks[k] == e.chunks[id];
      assert Window.IsTokenChunk(d, pieces, chunks[k], k);
    }
  }

  /** So does what layout-aware mode yields. */
  lemma LayoutChunksAreExact(e: Environment, p: Packing.Packer, chunks: seq<Chunk>, updated: seq<Chunk>)
    requires Layout.TilesDocument(p, chunks) && Layout.HungTogether(chunks, updated) && e.chunks == ChunksById(updated)
    ensures ChunksExact(e, p.doc.text)
  {
    hide Encode, Layout.HangsCorrectly, ChunksById;
    forall id | id in e.chunks ensures ChunkExact(p.doc.text, e.chunks[id]) && e.chunks[id].chunkId == id {
      ChunksByIdAreChunks(updated, id);
      var k :| 0 <= k < |updated| && updated[k] == e.chunks[id];
      assert Layout.IsFresh(p.doc, chunks[k], k) && Layout.HangsCorrectly(chunks, updated, k);
      Layout.HangingKeepsPlace(p.doc, chunks, updated, k);
    }
  }

  /** The span is exact, and passes its validator. */
  predicate Traced(text: string, s: SourceSpan) {
    SpanExact(text, s) && ValidSpan(s)
  }

  lemma OutcomeIsTraced(e: Environment, text: string, calls: seq<Call>, k: nat)
    requires Executes(e, calls) && ChunksExact(e, text) && k < |e.outcomes|
    ensures e.outcomes[k].1 == [] ==> Traced(text, OutcomeCandidate(e, k).span) && FitForReview(e, OutcomeCandidate(e, k))
    ensures OfPlan(e, OutcomeCandidate(e, k))
  {
    hide ExecuteOne, SpanExact, ValidSpan, ChunkExact, SpanMatchesChunk, SchemaApproves;
    var call := calls[k];
    assert IsOutcome(e, calls, k);
    var chunk := e.chunks[call.chunkId];
    AcceptedCandidateIsExact(text, e.plan, call.lens, chunk, call.payload, call.fold, call.normalizers, call.candidateId, call.callId);
    OutcomeFits(e.plan, call.lens, chunk, call.payload, call.fold, call.normalizers, call.candidateId, call.callId);
  }

  lemma OutcomeFits(plan: Plan, lens: string, chunk: Chunk, payload: Payload, fold: char -> char, normalizers: seq<Normalizer>,
                    candidateId: string, callId: string)
    requires payload.value != []
    ensures var r := ExecuteOne(plan, lens, chunk, payload, fold, normalizers, candidateId, callId);
      r.Some? ==>
        && r.value.0.runId == plan.runId && r.value.0.docId == plan.docId && r.value.0.chunkId == chunk.chunkId && ValidSpan(r.value.0.span)
        && (r.value.1 == [] ==> SchemaApproves(plan, r.value.0.category, r.value.0.fieldName) && SpanMatchesChunk(r.value.0.span, chunk))
  {
    hide PreparePayload, DeriveByteOffsets, NormalizationMetadata, ValidNormalization, SpanMatchesChunk, Encode;
  }

  /** The executor builds its candidates and its own checks make them well-formed. */
  lemma ExecutorOutcomesAreWellFormed(e: Environment, text: string, calls: seq<Call>)
    requires Executes(e, calls) && ChunksExact(e, text)
    ensures forall k :: 0 <= k < |e.outcomes| ==> OfPlan(e, OutcomeCandidate(e, k)) && ExecutorBuilt(OutcomeCandidate(e, k))
    ensures forall k :: 0 <= k < |e.outcomes| && e.outcomes[k].1 == [] ==> FitForReview(e, OutcomeCandidate(e, k))
  {
    hide Executes, ChunksExact, FitForReview, OfPlan, Traced, ExecutorBuilt;
    forall k | 0 <= k < |e.outcomes|
      ensures OfPlan(e, OutcomeCandidate(e, k)) && ExecutorBuilt(OutcomeCandidate(e, k))
      ensures e.outcomes[k].1 == [] ==> FitForReview(e, OutcomeCandidate(e, k))
    {
      OutcomeIsTraced(e, text, calls, k);
      OutcomeIsBuilt(e, calls, k);
    }
  }

  lemma OutcomeIsBuilt(e: Environment, calls: seq<Call>, k: nat)
    requires Executes(e, calls) && k < |e.outcomes|
    ensures ExecutorBuilt(OutcomeCandidate(e, k))
  {
    hide PreparePayload, ExecutorBuilt, CandidateRejectionReasons, BuildCandidate;
    assert IsOutcome(e, calls, k);
  }

  lemma ExecutedAreTraced(e: Environment, text: string, calls: seq<Call>, c: Candidate)
    requires Executes(e, calls) && ChunksExact(e, text) && c in ExecutorAccepted(e)
    ensures Traced(text, c.span) && c.chunkId in e.chunks
  {
    hide Executes, ChunksExact, FitForReview, Traced;
    var k :| 0 <= k < |e.outcomes| && e.outcomes[k].1 == [] && OutcomeCandidate(e, k) == c;
    OutcomeIsTraced(e, text, calls, k);
  }

  /** A correction is exact, whatever the verdict asked for. */
  lemma ReviewIsTraced(e: Environment, text: string, c: Candidate)
    requires ChunksExact(e, text) && c.chunkId in e.chunks
    ensures var r := ReviewOf(e, c); r.corrected.Some? ==> Traced(text, r.corrected.value.span)
  {
    hide MaterializeCorrection, CorrectionRejectionReasons, ShouldPreserveOriginal, SpanExact, ValidSpan, ChunkExact;
    var chunk := e.chunks[c.chunkId];
    CorrectionIsExact(text, e.criticVerdict(c).correction, c, chunk);
    CorrectedIsValid(e.criticVerdict(c).correction, c, chunk);
  }

  lemma CorrectedIsValid(raw: Option<Correction>, original: Candidate, chunk: Chunk)
    ensures var corrected := MaterializeCorrection(raw, original, chunk).0; corrected.Some? ==> ValidSpan(corrected.value.span)
  {
    hide Encode, ValidSpan, ValidNormalization, PrefixBytes;
  }

  lemma MirrorIsTraced(text: string, primary: Review, c: Candidate)
    requires Traced(text, c.span) && (primary.corrected.Some? ==> Traced(text, primary.corrected.value.span))
    ensures Traced(text, Reviewed(c, MirrorReview(primary, c)).span)
  {
    hide Encode;
  }

  /** What the critic lets through, corrected or copied, is exact. */
  lemma CriticAcceptedAreTraced(e: Environment, text: string, calls: seq<Call>, x: Candidate)
    requires Executes(e, calls) && ChunksExact(e, text) && x in CriticAccepted(e)
    ensures Traced(text, x.span)
  {
    hide Executes, ChunksExact, Traced, ReviewOf, MirrorReview, ExecutorAccepted, Canonical, Merged, CriticReports, CriticAccepted;
    var c, r := OriginOf(e, x);
    var p := c;
    if !(c in Canonical(e) && r == CanonicalReport(e, c)) {
      p :| Merged(e, c, p) && r == MirroredReport(e, c, p);
      MergedAreInput(e, c, p);
    } else {
      CanonicalAreAccepted(e, c);
    }
    ExecutedAreTraced(e, text, calls, c);
    ExecutedAreTraced(e, text, calls, p);
    ReviewIsTraced(e, text, p);
    MirrorIsTraced(text, ReviewOf(e, p), c);
  }

  function AsReported(points: seq<DataPoint>): seq<ReportedPoint> {
    seq(|points|, i requires 0 <= i < |points| => ReportedPoint(points[i].dataPointId, points[i].span, points[i].supportingSpans))
  }

  /** The spans of a data point are spans of verified candidates. */
  lemma PointSpansAreCandidates(x: Context, g: Group, s: SourceSpan)
    requires ValidContext(x) && ValidGroup(g) && GroupKnown(x, g)
    requires s == PointOf(x, g).span || s in PointOf(x, g).supportingSpans
    ensures exists id :: id in x.byId && x.byId[id].span == s
  {
    hide LeastConfidence, BestSource;
    if s in PointOf(x, g).supportingSpans {
      var k :| 0 <= k < |g.contributorIds| && PointOf(x, g).supportingSpans[k] == s;
      assert g.contributorIds[k] in g.contributorIds;
    } else {
      assert BestSource(x, g) in x.byId;
    }
  }

  lemma PointIsTraced(e: Environment, text: string, calls: seq<Call>, p: DataPoint, s: SourceSpan)
    requires WellFormed(e) && Executes(e, calls) && ChunksExact(e, text) && p in PointsOf(e) && (s == p.span || s in p.supportingSpans)
    ensures Traced(text, s)
  {
    hide WellFormed, Executes, ChunksExact, Traced, KeptPoints, VerifierAccepted, PointOf, ValidContext, ValidGroup, GroupKnown, ContextOf;
    var cs := VerifierAccepted(e);
    var x, b := ContextOf(e, cs), e.reply(cs);
    PointsComeFromGroups(x, b.groups, p);
    var g :| g in b.groups && ValidGroup(g) && GroupKnown(x, g) && p == PointOf(x, g);
    PointSpansAreCandidates(x, g, s);
    var id :| id in x.byId && x.byId[id].span == s;
    ContextCandidate(e, cs, id);
    VerifiedAreCriticAccepted(e, x.byId[id]);
    CriticAcceptedAreTraced(e, text, calls, x.byId[id]);
  }

  lemma ContextCandidate(e: Environment, cs: set<Candidate>, id: string)
    requires id in ContextOf(e, cs).byId
    ensures ContextOf(e, cs).byId[id] in cs
  {
    hide VerifierReportOf, WithId;
    ChosenById(cs, id);
  }

  lemma VerifiedAreCriticAccepted(e: Environment, c: Candidate)
    requires c in VerifierAccepted(e)
    ensures c in CriticAccepted(e)
  {
    hide CriticAccepted, VerifierReportOf;
  }

  /** Every reported span and supporting span is exact in the document. */
  lemma ReportedSpansAreExact(e: Environment, text: string, calls: seq<Call>)
    requires WellFormed(e) && Executes(e, calls) && ChunksExact(e, text)
    ensures var points := AsReported(FinalReport(e));
      AllExact(text, points) && forall point :: point in points ==> PointValid(point)
  {
    hide WellFormed, Executes, ChunksExact, SpanExact, ValidSpan, PointsOf, PointLess, Sort;
    SortKeepsElements(PointsOf(e), PointLess);
    var report, points := FinalReport(e), AsReported(FinalReport(e));
    forall k | 0 <= k < |points| ensures PointExact(text, points[k]) && PointValid(points[k]) {
      assert report[k] in report && report[k] in PointsOf(e);
      forall s | s == report[k].span || s in report[k].supportingSpans ensures SpanExact(text, s) && ValidSpan(s) {
        PointIsTraced(e, text, calls, report[k], s);
      }
    }
  }

  /** A run over an exact chunking, interrupted anywhere, is checked after it completes: no violation. */
  method CheckedRun(e: Environment, text: string, ghost calls: seq<Call>, stops: seq<Stop>) returns (r: Outcome, violations: seq<Violation>)
    requires WellFormed(e) && Executes(e, calls) && ChunksExact(e, text)
    ensures r == ResumedOutcome(e, stops)
    ensures violations == []
  {
    hide WellFormed, Executes, ChunksExact, Reconcilable, ViewsHold, IdentitiesHold, MirrorsHold, BeforeCritic, FinalReport, AllExact, PointValid, AsReported;
    r := RunWithInterruptions(e, stops);
    violations := [];
    if r.Completed? {
      ReportedSpansAreExact(e, text, calls);
      violations := ReportInvariantViolations(text, AsReported(r.report));
    }
  }
}
