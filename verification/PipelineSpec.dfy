/** What an uninterrupted run computes and records, stage by stage, as sets: the reference that every
    interrupted and resumed run is compared with. */
module PipelineSpec {
  import opened Wrappers
  import opened Contracts
  import opened Sorting
  import opened CandidateBuilding
  import opened CriticCorrections
  import opened VerifierPolicies
  import opened Dedup
  import opened DedupRecords
  import opened Reconciliation
  import opened AuditStores
  import opened CandidateViews

  /** A planned document and the replies of the model: what the executor's calls produced, one verdict
      for each candidate, and one grouping for each set of verified candidates. */
  datatype Environment = Environment(
    plan: Plan, chunks: map<ChunkId, Chunk>, outcomes: seq<(Candidate, seq<RejectionReason>)>, normalize: string -> string,
    grounding: Grounding, criticVerdict: Candidate -> Verdict, verifierVerdict: Candidate -> VerifierVerdict,
    reply: set<Candidate> -> Batch, rank: Candidate -> seq<int>, digest: PointSeed -> string,
    viewId: string -> string, batchSize: nat)

  /** Candidate of outcome `k` */
  function OutcomeCandidate(e: Environment, k: nat): Candidate
    requires k < |e.outcomes|
  {
    e.outcomes[k].0
  }

  predicate OfPlan(e: Environment, c: Candidate) {
    c.runId == e.plan.runId && c.docId == e.plan.docId && c.chunkId in e.chunks
  }

  predicate FitForReview(e: Environment, c: Candidate) {
    OfPlan(e, c) && SchemaApproves(e.plan, c.category, c.fieldName) && SpanMatchesChunk(c.span, e.chunks[c.chunkId])
  }

  predicate OutcomeIdsDiffer(e: Environment) {
    forall i, j :: 0 <= i < j < |e.outcomes| ==> OutcomeCandidate(e, i).candidateId != OutcomeCandidate(e, j).candidateId
  }

  /** The ids under which candidates are shown to the model, prefixes of digests, are distinct. */
  ghost predicate ViewIdsDiffer(e: Environment) {
    forall a, b :: e.viewId(a) == e.viewId(b) ==> a == b
  }

  /** The evidence of a rejecting verdict, when it has any, is not blank: it becomes the message of an
      issue, which must not be. */
  ghost predicate EvidenceHolds(e: Environment) {
    && (forall c :: e.criticVerdict(c).decision == Reject && e.criticVerdict(c).evidence.Some? && e.criticVerdict(c).evidence.value != []
                    ==> NonBlank(e.criticVerdict(c).evidence.value))
    && (forall c :: !e.verifierVerdict(c).accepts && e.verifierVerdict(c).evidence != [] ==> NonBlank(e.verifierVerdict(c).evidence))
  }

  /** Candidate ids are digests over the call and the position, hence distinct; the executor built the
      candidates, and what it accepts satisfies its own checks; data point ids and view ids are digests;
      replies pass their validators. */
  ghost predicate WellFormed(e: Environment) {
    && OutcomeIdsDiffer(e) && e.batchSize > 0 && ViewIdsDiffer(e) && EvidenceHolds(e)
    && (forall k :: 0 <= k < |e.outcomes| ==> OfPlan(e, OutcomeCandidate(e, k)) && ExecutorBuilt(OutcomeCandidate(e, k)))
    && (forall k :: 0 <= k < |e.outcomes| && e.outcomes[k].1 == [] ==> FitForReview(e, OutcomeCandidate(e, k)))
    && (forall a, b :: e.digest(a) == e.digest(b) ==> a == b)
    && (forall s :: ValidBatch(e.reply(s)))
  }

  // Executor

  function ExecutedUpTo(e: Environment, n: nat): set<Candidate>
    requires n <= |e.outcomes|
  {
    set k | 0 <= k < n :: OutcomeCandidate(e, k)
  }

  function AcceptedUpTo(e: Environment, n: nat): set<Candidate>
    requires n <= |e.outcomes|
  {
    set k | 0 <= k < n && e.outcomes[k].1 == [] :: OutcomeCandidate(e, k)
  }

  function RefusedUpTo(e: Environment, n: nat): set<Candidate>
    requires n <= |e.outcomes|
  {
    set k | 0 <= k < n && e.outcomes[k].1 != [] :: OutcomeCandidate(e, k)
  }

  function ExecutorRejection(e: Environment, k: nat): Rejection
    requires k < |e.outcomes|
  {
    Rejection(OutcomeCandidate(e, k).candidateId, ExecutorStage, e.outcomes[k].1)
  }

  function ExecutorRejectionsUpTo(e: Environment, n: nat): set<Rejection>
    requires n <= |e.outcomes|
  {
    set k | 0 <= k < n && e.outcomes[k].1 != [] :: ExecutorRejection(e, k)
  }

  function Executed(e: Environment): set<Candidate> {
    ExecutedUpTo(e, |e.outcomes|)
  }

  function ExecutorAccepted(e: Environment): set<Candidate> {
    AcceptedUpTo(e, |e.outcomes|)
  }

  function ExecutorRejected(e: Environment): set<Candidate> {
    RefusedUpTo(e, |e.outcomes|)
  }

  lemma ExecutedIdsDiffer(e: Environment)
    requires WellFormed(e)
    ensures DistinctIds(Executed(e)) && ExecutorAccepted(e) <= Executed(e) && DistinctIds(ExecutorAccepted(e))
    ensures ExecutorAccepted(e) !! ExecutorRejected(e) && ExecutorAccepted(e) + ExecutorRejected(e) == Executed(e)
  {
    hide FitForReview, OfPlan, ValidBatch, ExecutorBuilt, ViewIdsDiffer, EvidenceHolds;
    forall a, b | a in Executed(e) && b in Executed(e) && a.candidateId == b.candidateId ensures a == b {
      var i :| 0 <= i < |e.outcomes| && OutcomeCandidate(e, i) == a;
      var j :| 0 <= j < |e.outcomes| && OutcomeCandidate(e, j) == b;
    }
  }

  /** Every accepted candidate has an identity: `deduplicate_candidates` does not raise. */
  ghost predicate IdentitiesHold(e: Environment) {
    KeysHold(ExecutorAccepted(e), e.normalize)
  }

  // Critic

  /** What the critic makes of a canonical candidate. */
  function ReviewOf(e: Environment, c: Candidate): Review {
    if c.chunkId in e.chunks then BuildReview(e.plan, e.chunks[c.chunkId], c, e.criticVerdict(c), e.grounding)
    else Review(false, None)
  }

  function CanonicalReport(e: Environment, c: Candidate): CriticReport {
    CriticReport(c.candidateId, ReviewOf(e, c))
  }

  /** The primary's outcome, copied to a candidate that was merged into it. */
  function MirroredReport(e: Environment, c: Candidate, p: Candidate): CriticReport {
    CriticReport(c.candidateId, MirrorReview(ReviewOf(e, p), c))
  }

  function CriticRejection(c: Candidate): Rejection {
    Rejection(c.candidateId, CriticStage, [RejectionReason(CriticRejected, Text(""))])
  }

  function Canonical(e: Environment): set<Candidate> {
    Primaries(ExecutorAccepted(e), e.normalize)
  }

  ghost predicate Merged(e: Environment, c: Candidate, p: Candidate) {
    MergedInto(ExecutorAccepted(e), c, p, e.normalize)
  }

  ghost function CanonicalReports(e: Environment): set<CriticReport> {
    set c | c in Canonical(e) :: CanonicalReport(e, c)
  }

  ghost function MirroredReports(e: Environment): set<CriticReport> {
    set c, p | c in ExecutorAccepted(e) && p in ExecutorAccepted(e) && Merged(e, c, p) :: MirroredReport(e, c, p)
  }

  ghost function CriticReports(e: Environment): set<CriticReport> {
    CanonicalReports(e) + MirroredReports(e)
  }

  ghost function CriticRejections(e: Environment): set<Rejection> {
    set c | c in Canonical(e) && !ReviewOf(e, c).accepted :: CriticRejection(c)
  }

  /** The report of an accepted candidate: its own, or its primary's. */
  ghost predicate Reported(e: Environment, c: Candidate, r: CriticReport) {
    && c in ExecutorAccepted(e)
    && ((c in Canonical(e) && r == CanonicalReport(e, c)) || exists p :: Merged(e, c, p) && r == MirroredReport(e, c, p))
  }

  /** The stored reports pass their validator when they are read back. */
  ghost predicate MirrorsHold(e: Environment) {
    forall r :: r in CriticReports(e) ==> CriticReportHolds(r)
  }

  ghost function CriticAccepted(e: Environment): set<Candidate> {
    set c, r | c in ExecutorAccepted(e) && r in CriticReports(e) && Reported(e, c, r) && r.review.accepted :: Reviewed(c, r.review)
  }

  ghost function CriticRejectedCandidates(e: Environment): set<Candidate> {
    set c, r | c in ExecutorAccepted(e) && r in CriticReports(e) && Reported(e, c, r) && !r.review.accepted :: c
  }

  // Verifier

  function VerifierReportOf(e: Environment, c: Candidate): VerifierReport {
    if c.chunkId in e.chunks then BuildVerifierReport(e.plan, e.chunks[c.chunkId], c, e.verifierVerdict(c), e.grounding)
    else VerifierReport(c.candidateId, false, false, 0.0, false, [RejectionReason(SchemaViolation, Text(""))])
  }

  /** Every candidate that the critic lets through can be shown to the verifier's model. */
  ghost predicate ViewsHold(e: Environment) {
    forall c :: c in CriticAccepted(e) ==> ViewHolds(c)
  }

  function VerifierRejection(e: Environment, c: Candidate): Rejection {
    Rejection(c.candidateId, VerifierStage, VerifierReportOf(e, c).reasons)
  }

  ghost function VerifierReports(e: Environment): set<VerifierReport> {
    set c | c in CriticAccepted(e) :: VerifierReportOf(e, c)
  }

  ghost function VerifierRejections(e: Environment): set<Rejection> {
    set c | c in CriticAccepted(e) && !VerifierReportOf(e, c).accepted :: VerifierRejection(e, c)
  }

  ghost function VerifierAccepted(e: Environment): set<Candidate> {
    set c | c in CriticAccepted(e) && VerifierReportOf(e, c).accepted
  }

  ghost function VerifierRejectedCandidates(e: Environment): set<Candidate> {
    set c | c in CriticAccepted(e) && !VerifierReportOf(e, c).accepted
  }

  // Reconciler

  /** The candidate of an id. */
  ghost function WithId(cs: set<Candidate>, id: string): Candidate
    requires id in Ids(cs)
  {
    var c :| c in cs && c.candidateId == id;
    c
  }

  ghost function ContextOf(e: Environment, cs: set<Candidate>): Context {
    Context(e.plan, map id | id in Ids(cs) :: WithId(cs, id),
      map id | id in Ids(cs) :: VerifierReportOf(e, WithId(cs, id)).alignmentScore, e.rank, e.digest)
  }

  /** What the reconciler makes of verified candidates; nothing when it raises. */
  ghost function PointsFor(x: Context, b: Batch): seq<DataPoint> {
    if ValidContext(x) && GroupsOk(x, b.groups) then KeptPoints(x, b.groups) else []
  }

  ghost function RejectionsFor(x: Context, b: Batch): set<Rejection> {
    if GroupsOk(x, b.groups) then RejectionsOf(x, b) else {}
  }

  /** The reply names verified candidates only, and every data point that it makes is valid, so that the
      reconciler does not raise. */
  ghost predicate Reconcilable(e: Environment) {
    VerifierAccepted(e) == {}
    || (BatchKnown(ContextOf(e, VerifierAccepted(e)), e.reply(VerifierAccepted(e))) && AllPointsHold(PointsOf(e)))
  }

  ghost function PointsOf(e: Environment): seq<DataPoint> {
    if VerifierAccepted(e) == {} then [] else PointsFor(ContextOf(e, VerifierAccepted(e)), e.reply(VerifierAccepted(e)))
  }

  ghost function ReconcilerRejections(e: Environment): set<Rejection> {
    if VerifierAccepted(e) == {} then {} else RejectionsFor(ContextOf(e, VerifierAccepted(e)), e.reply(VerifierAccepted(e)))
  }

  // The store

  /** How many of the boundaries below a run with these replies can pass. */
  ghost function LastBoundary(e: Environment): nat {
    if !IdentitiesHold(e) then 2 else if !ViewsHold(e) then 6 else if !Reconcilable(e) then 8 else 10
  }

  ghost function If<T>(b: bool, s: set<T>): set<T> {
    if b then s else {}
  }

  /** The tables after boundary `k`: the executor's work, its mark, dedup, its mark, and so on. */
  ghost function StoreAt(e: Environment, k: nat): Tables {
    Tables(
      If(k >= 1, Executed(e)), If(k >= 5, CriticReports(e)), If(k >= 7, VerifierReports(e)), If(k >= 9, Elements(PointsOf(e))),
      RejectionsAt(e, k), StagesAt(k))
  }

  /** What an interrupted dedup may have recorded: some of its rejections, once the executor is marked. */
  ghost predicate DedupPart(e: Environment, k: nat, part: set<Rejection>) {
    part <= DedupRejections(ExecutorAccepted(e), e.normalize) && (part == {} || k >= 2)
  }

  /** The tables of boundary `k` with that part. */
  ghost function StoreWith(e: Environment, k: nat, part: set<Rejection>): Tables {
    StoreAt(e, k).(rejections := RejectionsAt(e, k) + part)
  }

  ghost function RejectionsAt(e: Environment, k: nat): set<Rejection> {
    If(k >= 1, ExecutorRejectionsUpTo(e, |e.outcomes|))
    + If(k >= 3, DedupRejections(ExecutorAccepted(e), e.normalize))
    + If(k >= 5, CriticRejections(e)) + If(k >= 7, VerifierRejections(e)) + If(k >= 9, ReconcilerRejections(e))
  }

  ghost function StagesAt(k: nat): set<Stage> {
    If(k >= 2, {ExecutorStage}) + If(k >= 4, {DedupStage}) + If(k >= 6, {CriticStage})
    + If(k >= 8, {VerifierStage}) + If(k >= 10, {ReconcilerStage})
  }
}
