/** The records that the pipeline stages hand to each other, with the checks their validators run. */
module Contracts {
  import opened Utf8
  import opened Wrappers

  /** Formatted identifiers, kept as the fields they are formatted from. */
  datatype SegmentId =
    | HtmlBlockSeparator(block: nat) | HtmlBlock(block: nat)
    | HtmlRowSeparator(table: nat, row: nat) | HtmlRow(table: nat, row: nat)
    | EmailHeaderLabel(header: nat) | EmailHeaderValue(header: nat) | EmailHeaderSeparator(position: nat)
    | EmailPlainBody | EmailBodySegment(inner: SegmentId)

  datatype LayoutId =
    | HtmlBlockSpan(block: nat) | HtmlTableLayout(table: nat) | HtmlCellLayout(table: nat, row: nat, column: nat)
    | EmailBodyLayout(inner: LayoutId)

  datatype TableId = HtmlTableId(table: nat, startChar: nat, endChar: nat) | EmailBodyTable(inner: TableId)

  datatype CellId = HtmlCellId(tableId: TableId, row: nat, column: nat) | EmailBodyCell(inner: CellId)

  datatype TextRange = TextRange(startChar: nat, endChar: nat, startByte: nat, endByte: nat)

  /** What the validator of a text range checks. */
  predicate ValidRange(r: TextRange) {
    r.startChar < r.endChar && r.startByte < r.endByte
  }

  datatype SegmentKind = SourceBacked | Generated | Unmapped

  datatype SourceMapSegment = SourceMapSegment(segmentId: SegmentId, kind: SegmentKind, range: TextRange)

  datatype LayoutRole = HeadingRole | ParagraphRole | ListItemRole | TableRole | TableCellRole | OtherRole

  datatype LayoutSpan = LayoutSpan(spanId: LayoutId, pageNumber: nat, role: LayoutRole, range: TextRange)

  datatype TableCellSpan = TableCellSpan(cellId: CellId, range: TextRange, rowIndex: nat, columnIndex: nat,
                                         headerLabels: seq<string>)

  datatype TableSpan = TableSpan(tableId: TableId, pageNumber: nat, range: TextRange, cells: seq<TableCellSpan>)

  datatype PageSpan = PageSpan(pageNumber: nat, startChar: nat, endChar: nat, startByte: nat, endByte: nat)

  datatype Document = Document(
    docId: string, text: string, textSha256: string, pageMap: seq<PageSpan>,
    sourceMap: seq<SourceMapSegment>, layoutSpans: seq<LayoutSpan>, tableSpans: seq<TableSpan>)

  /** A SHA-256 chunk id, read as the payload it digests: distinct payloads have distinct ids. */
  datatype ChunkId = ChunkId(docId: string, textSha256: string, chunkIndex: nat,
                             startByte: nat, endByte: nat, startToken: nat, endToken: nat)

  datatype ChunkKind = WholeDocument | Section | Paragraph | ListItem | Table | Mixed | Overflow

  datatype SplitReason = Boundary | TokenWindow | AtomicTableOverflow | OversizedSentence

  /** How a chunk came about and what it hangs from. */
  datatype ChunkLayout = ChunkLayout(
    kind: ChunkKind, splitReason: SplitReason, layoutSpanIds: seq<LayoutId>, tableIds: seq<TableId>, pageNumbers: seq<nat>,
    sectionPath: seq<string>, parentChunkId: Option<ChunkId>, dependsOn: seq<ChunkId>)

  datatype Chunk = Chunk(
    chunkId: ChunkId, docId: string, chunkIndex: nat, text: string,
    startChar: nat, endChar: nat, startByte: nat, endByte: nat, startToken: nat, endToken: nat, layout: ChunkLayout)

  /** What the validator of a chunk checks; a chunk that fails it is never built. */
  predicate ValidChunk(c: Chunk) {
    && c.text != []
    && c.startChar < c.endChar && c.startByte < c.endByte && c.startToken < c.endToken
    && |c.text| == c.endChar - c.startChar
    && |Encode(c.text)| == c.endByte - c.startByte
  }

  /** A pair of offsets into `text` whose byte half is the UTF-8 length of its character half. */
  predicate Aligned(text: string, startChar: nat, endChar: nat, startByte: nat, endByte: nat) {
    && startChar <= endChar <= |text|
    && startByte == PrefixBytes(text, startChar)
    && endByte == PrefixBytes(text, endChar)
  }

  predicate RangeAligned(text: string, r: TextRange) {
    Aligned(text, r.startChar, r.endChar, r.startByte, r.endByte)
  }

  /** The chunk is an aligned slice of the document text. */
  predicate ChunkExact(text: string, c: Chunk) {
    && Aligned(text, c.startChar, c.endChar, c.startByte, c.endByte)
    && c.text == text[c.startChar..c.endChar]
  }

  datatype SourceSpan = SourceSpan(docId: string, chunkId: ChunkId,
                                   startChar: nat, endChar: nat, startByte: nat, endByte: nat, text: string)

  /** What the validator of a source span checks. */
  predicate ValidSpan(s: SourceSpan) {
    && s.text != []
    && s.startChar < s.endChar && s.startByte < s.endByte
    && |s.text| == s.endChar - s.startChar
    && |Encode(s.text)| == s.endByte - s.startByte
  }

  /** The span is an aligned slice of the document text. */
  predicate SpanExact(text: string, s: SourceSpan) {
    && Aligned(text, s.startChar, s.endChar, s.startByte, s.endByte)
    && s.text == text[s.startChar..s.endChar]
  }

  datatype NormalizationStatus = NotNormalized | VerbatimOnly | Canonicalized | Unsupported

  datatype Normalization = Normalization(
    verbatim: Option<string>, canonical: Option<string>, kind: string, status: NormalizationStatus,
    policyId: Option<string>, policyVersion: Option<string>, notes: Option<string>)

  /** `validate_normalization_metadata` raises nothing. */
  predicate ValidNormalization(value: string, n: Normalization) {
    match n.status
    case Canonicalized =>
      n.verbatim.Some? && n.canonical == Some(value) && n.policyId.Some? && n.policyVersion.Some?
    case VerbatimOnly => n.verbatim == Some(value) && n.canonical.None?
    case Unsupported => n.notes.Some? && n.canonical.None?
    case NotNormalized => n.canonical.None?
  }

  /** The `\s` of the validators' regular expressions: the white space of the Unicode standard, which is
      what `str.isspace` takes for it except for four control characters. */
  predicate IsWhite(c: char) {
    IsSpace(c) && !(0x1C <= c as int <= 0x1F)
  }

  /** The pattern `.*\S.*` of `NonEmptyStr` matches. */
  predicate NonBlank(text: string) {
    exists i :: 0 <= i < |text| && !IsWhite(text[i])
  }

  predicate AbsentOrNonBlank(text: Option<string>) {
    text.Some? ==> NonBlank(text.value)
  }

  predicate FilledNormalization(n: Normalization) {
    && AbsentOrNonBlank(n.verbatim) && AbsentOrNonBlank(n.canonical) && AbsentOrNonBlank(n.policyId)
    && AbsentOrNonBlank(n.policyVersion) && AbsentOrNonBlank(n.notes)
  }

  datatype Candidate = Candidate(
    candidateId: string, runId: string, docId: string, chunkId: ChunkId, lens: string, category: string, fieldName: string,
    value: string, span: SourceSpan, confidence: real, executorCallId: string, normalization: Normalization)

  /** What the fields and the validator of a candidate check; identifiers are never blank. */
  predicate ValidCandidate(c: Candidate) {
    && NonBlank(c.category) && NonBlank(c.fieldName) && NonBlank(c.value) && FilledNormalization(c.normalization)
    && 0.0 <= c.confidence <= 1.0 && c.span.docId == c.docId && c.span.chunkId == c.chunkId
    && ValidSpan(c.span) && ValidNormalization(c.value, c.normalization)
  }

  /** The run's identity and its approved categories with their fields. */
  datatype Plan = Plan(runId: string, docId: string, approved: map<string, set<string>>)

  predicate SchemaApproves(plan: Plan, category: string, fieldName: string) {
    category in plan.approved && fieldName in plan.approved[category]
  }

  datatype ReasonCode =
    | InvalidSourceOffsets | InventedSpan | CategoryNotApproved | CriticRejected | VerifierRejected
    | ReconcilerRejected | SchemaViolation | AmbiguousSourceSpan | DuplicateCandidate

  /** The messages that later code looks into, and the text of all others. */
  datatype Message =
    | CorrectionMissing | CorrectionSpanMismatch | CorrectionViolatesInvariants | CorrectionExpandsSpan
    | Text(text: string)

  datatype RejectionReason = RejectionReason(code: ReasonCode, message: Message)

  datatype Stage = ExecutorStage | DedupStage | CriticStage | VerifierStage | ReconcilerStage

  /** An audited rejection; its id digests these fields, and its timestamp is left out. */
  datatype Rejection = Rejection(candidateId: string, stage: Stage, reasons: seq<RejectionReason>)

  /** `span_matches_chunk`, which the executor, critic and verifier each define */
  predicate SpanMatchesChunk(s: SourceSpan, c: Chunk) {
    && c.startChar <= s.startChar && s.endChar <= c.endChar
    && c.startByte <= s.startByte && s.endByte <= c.endByte
    && Slice(c.text, s.startChar - c.startChar, Max0(s.endChar - c.startChar)) == s.text
    && Slice(Encode(c.text), s.startByte - c.startByte, Max0(s.endByte - c.startByte)) == Encode(s.text)
  }

  function Max0(i: int): nat {
    if i < 0 then 0 else i
  }
}
