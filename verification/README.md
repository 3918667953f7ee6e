# Veritext: a verified model of mechanical provenance

Veritext extracts data points from documents with language models and reports only what it can ground in the
source text. Two promises carry the design: every reported span slices back to the exact source text by character
and by byte offset, and no candidate disappears silently. This project models the deterministic code behind both
promises in Dafny and proves what that code keeps.

The model follows the program from the document to the report:

* **Text and offsets** (`Utf8`, `TokenOffsets`, `Whitespace`): texts are sequences of Unicode scalar values with a
  real UTF-8 encoding (section 3 of RFC 3629). `PrefixBytes` relates character offsets to byte offsets; every later
  statement about alignment is a statement about it.
* **Ingestion** (`TextAssembly`, `HtmlTables`, `HtmlTableRanges`, `HtmlAssembly`, `HtmlSoundness`, `HtmlSlices`,
  `HtmlParsing`, `HtmlOutline`, `HtmlIngestion`, `EmailIngestion`, `EmailSoundness`, `IngestedText`, `BoundaryContracts`): the text
  assembler and the HTML parser are classes whose handlers are proved against a state machine; whatever events
  arrive, the result satisfies the document validators and the packer. `HtmlOutline` reads off the events alone what
  the document shows. Email moves a body behind its headers.
* **Chunking** (`TokenWindow`, `TokenWindowBounds`, `Packing`, `LayoutBlocks`, `GreedyPacking`, `LayoutKinds`,
  `ChunkKinds`, `LayoutChunks`, `SectionPaths`):
  the sliding window over an arbitrary byte-level tokenizer, the layout-aware packer over an arbitrary token count,
  and the check of a resumed chunk list; which headings, paragraphs and tables a chunk holds, and which heading it
  hangs from.
* **Spans** (`TextMatching`, `ValueOccurrences`, `SourceResolution`, `ResolutionRules`, `CandidateBuilding`,
  `BlankSources`, `CriticCorrections`, `CorrectionRules`, `VerifierPolicies`, `SourceBacking`, `SpanAmbiguity`, `ReportInvariants`): from a model's claim to a candidate, its correction, its
  verification and the check of the finished report.
* **The run** (`Sorting`, `Dedup`, `DedupIdentities`, `DedupRecords`, `Batching`, `Reconciliation`,
  `ReconciliationAccounting`, `ReconciliationReasons`,
  `AuditStores`, `PipelineSpec`, `PipelineFacts`, `Replays`, `ExecutorSteps`, `DedupSteps`, `CriticSteps`,
  `CriticMirrors`, `CriticReviews`, `CriticReplays`, `VerifierSteps`, `VerifierReplays`, `ReconcilerSteps`,
  `Orchestrator`, `CrashWindows`, `SilentDrops`, `TwinRuns`, `SeedDigests`, `KeyTexts`, `CandidateViews`,
  `ReadBacks`, `RunConditions`, `MirrorRuns`, `FinalRecords`, `Provenance`, `ReportedPoints`,
  `RecordedReasons`): the audit store
  is a class of append-only tables with primary keys whose records are validated when they are read back.
  `PipelineSpec` says, as sets, what one uninterrupted run records by each of ten stage boundaries; every stage step,
  live or read back from the store, is proved to arrive there, also when an earlier attempt stopped between two of
  dedup's writes. `Provenance` composes the whole run with the exactness of spans, and `ReportedPoints` says what
  a reported point takes from its contributors. `SilentDrops` and
  `FinalRecords` ask whether a candidate can leave the run without a record. Records are validated when they are
  built, shown to a model and read back; `RunConditions` says exactly when that lets a run complete, and when an
  interrupted run does what an uninterrupted one does. `TwinRuns` and `MirrorRuns` hold the inputs on which it fails.
* **Retries** (`RetryProtocol`, `ExecutorBatches`, `CriticBatches`): validate, complain, retry, merge, over arbitrary
  replies.
* **Evaluation and reports** (`Matching`, `Scoring`, `ReportDiff`): the two-pass matcher, the metric breakdowns and
  the run diff.

`dafny verify dfyconfig.toml` checks all of it.

## Findings

Eight expectations one could have of the code turn out not to hold as stated; for each there is a concrete input and
the exact condition under which the expectation holds.

* A token window may exceed `window_tokens + 3`. The bound of three extra tokens holds in all configurations if
  and only if no four consecutive token positions fall inside characters; a tokenizer whose tokens reach from one
  character into the next breaks it (`TokenWindowBounds.StretchExactly`, `TokenWindowBounds.WindowStretchExactly` for
  one configuration, `TokenWindowBounds.StraddlingBreaksTheBound`). With tokens that stay within a character or end
  with it the bound holds (`TokenWindowBounds.NoStraddlingRuns`).
* `span_matches_chunk` compares characters and bytes separately, so a span may name the characters of one occurrence
  of a text and the bytes of another. Matching suffices for the exactness of every span with a given text if and only
  if the chunk holds that text at no two places (`SpanAmbiguity.MatchingSufficesExactly`); "aa" is the least chunk
  where it does not (`SpanAmbiguity.AmbiguousMatch`). The pipeline is safe because executor and critic both count
  bytes from the chunk start, which is carried as an invariant.
* The documentation promises that no candidate is dropped silently (README.md:55). A completed run keeps the promise,
  also when it was interrupted at stage boundaries or between dedup's writes (`SilentDrops.NothingIsDropped`). Inside
  the critic and the verifier a report is written before its rejection and completeness looks at reports only, so a
  run interrupted in between resumes as if the stage were complete. Then a candidate leaves without any record,
  exactly when some stored refusing report has no rejection of its candidate (`SilentDrops.CriticDropsNobodyExactly`,
  `SilentDrops.VerifierDropsNobodyExactly`; inputs: `TwinRuns.LostRejectionExample`, `TwinRuns.LostVerdictExample`).
  Interrupted between the canonical critic reports and their mirrored copies, merged candidates whose accepting copy
  was lost are not carried on, with the record of their merge but no critic, verifier or reconciler rejection;
  otherwise the resumed result is the live one (`CrashWindows.LostMirrorsDropCandidates`,
  `SilentDrops.LostMirrorIsForgotten`; input: `TwinRuns.LostMirrorExample`). The final store says the same
  (`FinalRecords.CriticLosesNobodyExactly`, `FinalRecords.VerifierLosesNobodyExactly`); inside the reconciler nobody is
  lost (`FinalRecords.PartialReconcilerIsRefused`).
* A resumed run is meant to report what an uninterrupted one reports. Dedup merges values that agree only up to case,
  and a mirrored correction takes over its primary's value but keeps the merged candidate's normalization record, by a
  copy that skips the validators. Such a report is stored and then fails its validator whenever it is read back, and
  as the source of a data point it fails without any interruption. Interruptions make no difference if and only if
  every candidate merged into a corrected one has its value, or the run fails anyway
  (`RunConditions.ResumingIsHarmlessExactly`, `RunConditions.PointHoldsExactly`; inputs: `MirrorRuns.ResumedPairFails`,
  `MirrorRuns.CopyAloneFails`). `RunConditions.AlwaysCompletesExactly` puts all conditions of a run together.
* A correction that the critic applies is meant to reach the verifier. It may narrow a span to white space, which no
  candidate view may hold: then the verifier raises, exactly when some applied correction is blank
  (`RunConditions.ViewsHoldExactly`; input: `MirrorRuns.BlankCorrectionFails`).
* A value that is not blank is meant to have an identity. The key text strips white space, then surrounding marks, but
  not white space again, and a blank key fails its validator: the run fails in dedup exactly when nothing but white
  space is left between a value's marks (`KeyTexts.KeyTextIsBlankExactly`; input: `MirrorRuns.CheckBoxFails`).
* A bad claim is meant to be complained about and retried. When its resolved text is blank no candidate can be built,
  and the exception leaves the batch validator and the run instead: exactly when a claim that does not fit falls back
  on a leading white space of the chunk, or a blank claim is taken (`BlankSources.ResolutionIsBlankExactly`,
  `BlankSources.ExecuteOneRaisesExactly`; input: `BlankSources.LeadingSpaceRaises`).

* Text outside scripts, styles and titles is meant to be shown. HTML lets authors leave out the end tag of a cell; the
  parser ends a cell at its end tag only. Without one the cell's data is lost, and an open cell also takes all text that
  follows, outside the table too. What a cell has read is kept if and only if a cell end tag inside a row comes before
  another cell begins (`HtmlOutline.CellDataIsKeptExactly`, `HtmlOutline.OpenCellTakesAll`; input:
  `HtmlOutline.UnclosedCellEmptiesTheDocument`).

One thing that corrections appear to offer never happens: a verdict never changes the value of the candidate that it
is about, because the normalization record that the executor attaches pins the value, so that a changed one fails its
validator (`CriticCorrections.CorrectionsNeverChangeTheValue`, `CriticCorrections.ValueCorrectionOutcome`). Mirroring
does change the value of a merged candidate, exactly when its primary was corrected and the two differ
(`CriticCorrections.MirrorKeepsValueExactly`).

## Model

| member | source | states |
|---|---|---|
| Utf8.EncodeSlice | src/extractor/chunker/token_offsets.py:60-66 | a character slice of a text encodes to exactly the byte slice between the byte offsets of its ends |
| Utf8.EncodedOccurrence | src/extractor/executor/policies.py:55-70 | wherever the bytes of a non-empty text occur in an encoded text, they start at a character boundary and the characters occur there too (UTF-8 is self-synchronising) |
| Utf8.EncodeInjective | src/extractor/executor/policies.py:66-70 | texts with equal encodings are equal |
| Utf8.EncodeCharExactly | src/extractor/ingestion/html.py:43-58 | each character is encoded as section 3 of RFC 3629 says: number of bytes, leading bits and the number that the other bits spell |
| TokenOffsets.ByteToCharBoundaries | src/extractor/chunker/token_offsets.py:60-66 | the map is exactly the inverse of the function from character index to byte offset, on all boundaries including both ends |
| TokenOffsets.BuildTokenOffsetMap | src/extractor/chunker/token_offsets.py:32-57 | succeeds exactly when the token bytes concatenate to the encoded text, and then gives every token its start and end byte |
| TokenOffsets.NextTokenStartAtCharBoundary | src/extractor/chunker/token_offsets.py:69-75 | the least token index at or after the given one that starts on a character boundary, or the end |
| TokenOffsets.NextTokenEndAtCharBoundary | src/extractor/chunker/token_offsets.py:78-92 | the least exclusive end at or after the given one on a character boundary; each error exactly when there is none or the end is not positive |
| TokenWindow.BuildChunkIsExact | src/extractor/chunker/tokenizer.py:146-174 | between boundary positions a chunk is always built: its text is the document's character slice, its encoding the byte slice, and the chunk validators accept it |
| TokenWindow.ChunkDocument | src/extractor/chunker/tokenizer.py:34-75 | for every text, tokenization and overlap < window: the loop ends, takes no error exit and no early break, starts at 0, ends at the last token, and each start and end is the first character boundary the window and overlap allow |
| TokenWindowBounds.WindowProgress | src/extractor/chunker/tokenizer.py:46-69 | starts and ends both strictly increase and each chunk starts no later than its predecessor ends |
| TokenWindowBounds.WindowCoversTokens | src/extractor/chunker/tokenizer.py:46-69 | every token lies under some chunk |
| TokenWindowBounds.WindowCoversText | src/extractor/chunker/tokenizer.py:46-75 | every character of the document lies in some chunk |
| TokenWindowBounds.WindowStretch | src/extractor/chunker/tokenizer.py:53-69 | a window is longer than asked, and an overlap shorter, by at most the longest run of token positions inside characters; an overlap is never longer than asked |
| TokenWindowBounds.NoStraddlingRuns | src/extractor/chunker/token_offsets.py:69-92 | when no token reaches from inside one character into the next, that run is at most 3, because a character has at most four octets (section 3 of RFC 3629) |
| TokenWindowBounds.StretchExactly | src/extractor/chunker/tokenizer.py:53-69 | windows stay within window + m tokens, for every configuration and chunk list, if and only if at most m consecutive token positions fall inside characters |
| TokenWindowBounds.WindowStretchExactly | src/extractor/chunker/tokenizer.py:53-69 | in one configuration a chunk stays within window + m tokens if and only if the tokens end within the window or one of the m + 1 positions from the end of a full window is a character boundary |
| TokenWindowBounds.StraddlingBreaksTheBound | src/extractor/chunker/token_offsets.py:69-92 | a concrete tokenization of four emoji for which window + 3 is exceeded: the bound of three extra tokens does not hold of every byte-level tokenizer |
| LayoutBlocks.WithGapBlocks | src/extractor/chunker/packing.py:127-144 | fails exactly on overlapping blocks; otherwise fills 0 to len(text) without gap, keeps every block, extends blocks only over white space, and makes gap blocks of everything else |
| LayoutBlocks.CollectedAreSourceBlocks | src/extractor/chunker/packing.py:91-124 | every collected block is a non-empty range inside the text |
| LayoutKinds.CollectedExactly | src/extractor/chunker/packing.py:91-123 | for spans with unique ids: exactly one block for each heading, paragraph and list item outside tables, of its kind, range and id, exactly one for each table, and no other |
| LayoutKinds.CollectsExactly | src/extractor/chunker/boundaries.py:54-181 | the boundary collector accepts a document if and only if its pages follow one another through the text and every span and table lies on its page in characters and bytes |
| LayoutBlocks.SortBlocksSorts | src/extractor/chunker/packing.py:123-124 | blocks are put in the order of start, end and kind |
| LayoutBlocks.SortKeepsMembers | src/extractor/chunker/packing.py:91-124 | sorting loses and adds no block |
| Packing.SplitByCharacterWindow | src/extractor/chunker/packing.py:247-276 | tiles the range with pieces, each the longest extension all of whose prefixes fit the window, or one character; the "did not advance" error is unreachable |
| Packing.SplitOversizedTextBlock | src/extractor/chunker/packing.py:201-244 | tiles the block; every piece is either a maximal run of whole sentences each of which fits alone, or a longest character piece inside one sentence that does not fit alone or is the only one |
| Packing.SentenceEndOffsets | src/extractor/chunker/packing.py:299-303 | strictly increasing, never empty, and the last one is the end of the text |
| Packing.SentenceEndsExactly | src/extractor/chunker/packing.py:299-303 | the offsets are the positions behind a stop that white space or the end follows, and the end of the text |
| GreedyPacking.PackFilledBlocks | src/extractor/chunker/packing.py:58-88 | for every token-count function the chunks tile the document, are tables, maximal runs or slices of oversized blocks, and exceed the window only as a marked atomic table or a marked single character; fails exactly on an oversized table that is not allowed |
| GreedyPacking.PackBoundaryAwareChunks | src/extractor/chunker/packing.py:38-88 | each error exactly under its own condition, otherwise the chunks pack the document's blocks with every table whole |
| ChunkKinds.FilledExactly | src/extractor/chunker/packing.py:127-144 | after the gaps are filled each text span and each table still has its block, possibly with white space behind it, and all else is bare gaps |
| ChunkKinds.KindExactly | src/extractor/chunker/packing.py:170-199 | the kind of a chunk is exactly what the roles of the spans and the tables that it lists say |
| ChunkKinds.SplitReasonExactly | src/extractor/chunker/packing.py:147-296 | the split reason is atomic_table_overflow exactly for a table over the window, oversized_sentence exactly for overflow chunks, and boundary for all others |
| ChunkKinds.NamesItsPages | src/extractor/chunker/packing.py:315-320 | a chunk names exactly the pages that it touches |
| ChunkKinds.HeadingStartsSection | src/extractor/chunker/packing.py:38-88 | every heading that fits starts a chunk of kind section |
| ChunkKinds.SectionHasHeading | src/extractor/chunker/packing.py:38-88 | every chunk of kind section begins with a heading or is a slice of one |
| ChunkKinds.ListsWhatItShares | src/extractor/chunker/packing.py:170-199 | a chunk lists every text span that it shares a character with, and no other, except behind a span that was sliced |
| ChunkKinds.ListsInOrder | src/extractor/chunker/packing.py:170-199 | a chunk lists its spans in the order of the document |
| GreedyPacking.TilingReassembles | src/extractor/chunker/packing.py:58-88 | the texts of a tiling, put together in order, are the document text: nothing is lost, repeated or reordered |
| GreedyPacking.TilingIsExact | src/extractor/chunker/packing.py:58-88 | every character lies in exactly one packed chunk |
| LayoutChunks.BuildFromPacked | src/extractor/chunker/tokenizer.py:177-216 | succeeds exactly when the token count of the prefixes grows, and then the chunk is an exact, valid slice |
| LayoutChunks.BuiltChunksTile | src/extractor/chunker/tokenizer.py:78-95 | the chunk records adjoin, run from 0 to len(text), and are each exact |
| LayoutChunks.AttachLayoutHierarchy | src/extractor/chunker/tokenizer.py:98-120 | each chunk other than a section hangs from the latest preceding section with a label and names it; sections name themselves; nothing else changes |
| LayoutChunks.FirstContentLine | src/extractor/chunker/tokenizer.py:123-128 | absent exactly when the text is blank, and never empty |
| SectionPaths.FirstContentLineIsTitle | src/extractor/chunker/tokenizer.py:123-128 | it is the first line that is not blank, trimmed |
| LayoutChunks.LatestSection | src/extractor/chunker/tokenizer.py:98-120 | the index of the last labelled section before a position, with none between |
| LayoutChunks.ValidateResumeChunks | src/extractor/orchestrator/state.py:56-80 | accepts exactly the lists with contiguous indexes, exact slices of this document, and parents and dependencies that exist and are not the chunk itself |
| LayoutChunks.HierarchyPassesResume | src/extractor/orchestrator/state.py:56-80 | a hierarchy attached to freshly built chunks is always accepted again on resume |
| LayoutChunks.WindowPassesResume | src/extractor/orchestrator/state.py:56-80 | every list that token-window mode can produce is accepted again on resume |
| LayoutChunks.ChunkDocumentLayoutAware | src/extractor/chunker/tokenizer.py:78-95 | fails only on unusable boundaries, a forbidden oversized table or a chunk without a token of its own; otherwise returns an exact tiling with its hierarchy that resume accepts |
| SectionPaths.RecordsShowPacked | src/extractor/chunker/tokenizer.py:177-217 | the record of a chunk shows text, range, kind, ids and pages of its packed chunk |
| SectionPaths.EveryChunkHangs | src/extractor/chunker/tokenizer.py:98-120 | every chunk that is not a section hangs from the last section before it that is not blank, under its title, or from nothing when there is none |
| SectionPaths.HangsFromItsHeading | src/extractor/chunker/tokenizer.py:78-120 | such a chunk hangs from the chunk that starts with the latest heading before it, when that heading fits and is not blank |
| BoundaryContracts.ValidateContiguous | src/extractor/contracts/ingestion.py:252-265 | accepts exactly the maps in which every segment starts where the one before ends, in characters and bytes |
| BoundaryContracts.CountsAgreeWhenDifferent | src/extractor/contracts/ingestion.py:246-249 | comparing the number of ids with the number of distinct ids decides uniqueness |
| BoundaryContracts.ValidateBoundaries | src/extractor/contracts/ingestion.py:177-243 | accepts exactly the documents with unique ids, a contiguous covering map and every range inside text and page map |
| TextAssembly.TextAssembler.AddSegment | src/extractor/ingestion/html.py:43-72 | text and source map grow together by the segment at its character and byte range; fails exactly on empty text, and then changes nothing |
| TextAssembly.NextRangeIsAligned | src/extractor/ingestion/html.py:43-72 | the range recorded for appended text is aligned and slices to that text |
| TextAssembly.AppendKeepsAssembled | src/extractor/ingestion/html.py:43-72 | appending keeps the map contiguous, aligned and covering |
| TextAssembly.TextAssembler.ImportResult | src/extractor/ingestion/email.py:75-90 | the imported text and its shifted map are appended; fails exactly on a source-backed segment |
| HtmlTables.AppendHtmlTableRows | src/extractor/ingestion/html_tables.py:36-133 | emits the table and its layout spans over the appended rows; fails exactly when a row or a cell is empty |
| HtmlTables.RowCells | src/extractor/ingestion/html_tables.py:61-100 | the running offsets give every cell of a row its range in the line |
| HtmlTableRanges.CellInLine | src/extractor/ingestion/html_tables.py:61-100 | at its running offset the joined line shows exactly the cell |
| HtmlTableRanges.TableIsItsText | src/extractor/ingestion/html_tables.py:36-133 | the appended table text is its rows joined by newlines, its cells by spaces |
| HtmlTableRanges.TableRecordsGood | src/extractor/ingestion/html_tables.py:61-133 | every cell has one record, aligned in bytes, that slices to the cell; records are in row-major and text order |
| HtmlSoundness.TableIsValid | src/extractor/ingestion/html_tables.py:103-133 | an emitted table passes the table validators: cells inside the table, cell ids unique |
| HtmlSoundness.AssembledIsSound | src/extractor/ingestion/html.py:199-269 | whatever blocks and tables are emitted: map contiguous and covering, ids unique, ranges aligned, text blocks ordered and apart from tables |
| HtmlSlices.AssembledShows | src/extractor/ingestion/html.py:199-269 | the text is the emitted items joined by newlines, and every layout span, table and cell slices to its own text, cells with the header labels above them |
| HtmlSlices.AssembledRoles | src/extractor/ingestion/html.py:210-270 | the layout spans have the roles of the blocks, and tables are followed by their cells |
| HtmlSlices.AssemblesExactly | src/extractor/ingestion/html.py:250-269 | emission fails exactly when some table holds an empty row or cell |
| HtmlParsing.RunIsOk | src/extractor/ingestion/html.py:98-208 | every reachable parser state emits only non-empty blocks and tables and collects no empty row |
| HtmlParsing.RunEmitsMore | src/extractor/ingestion/html.py:98-269 | later events only append to what was emitted |
| HtmlParsing.FailureSticks | src/extractor/ingestion/html.py:250-269 | once a table has raised, no continuation of the document succeeds |
| HtmlOutline.ParsesOutline | src/extractor/ingestion/html.py:98-270 | for every event list the parser emits the outline, which is read off the positions of tags alone, event by event |
| HtmlOutline.ShowsWhatWasRead | src/extractor/ingestion/html.py:167-208 | the words that the emitted items show, in order, are the words of the data that blocks and cells had read when they ended: data outside scripts, styles and titles |
| HtmlOutline.BlockShowsItsData | src/extractor/ingestion/html.py:189-208 | when a block ends, one block with the words of exactly the data that it has read and the role of its tag is emitted, or nothing when that data is blank |
| HtmlOutline.CellShowsItsData | src/extractor/ingestion/html.py:236-241 | when a cell ends, its text has the words of exactly the data read since it began |
| HtmlOutline.InlineMarkupJoins | src/extractor/ingestion/html.py:167-208 | a block with inline markup gives one block with all words across the markup |
| HtmlOutline.OpenBlockExactly | src/extractor/ingestion/html.py:98-177 | the open block is the one whose tag no event since has ended: its end tag, another block or a table |
| HtmlOutline.OpenCellExactly | src/extractor/ingestion/html.py:98-177 | the open cell is the last one begun, when no cell end tag has come inside a row since |
| HtmlOutline.CellDataIsKeptExactly | src/extractor/ingestion/html.py:116-156 | what a cell has read is kept if and only if a cell end tag inside a row comes before another cell begins |
| HtmlOutline.OpenCellTakesAll | src/extractor/ingestion/html.py:167-177 | a cell that is never ended takes all later data: no block after it gets a word |
| HtmlOutline.UnclosedCellEmptiesTheDocument | src/extractor/ingestion/html.py:98-177 | a table whose cell has no end tag and a paragraph after it: nothing is emitted |
| HtmlIngestion.HtmlBoundaryParser.HandleStartTag | src/extractor/ingestion/html.py:98-138 | the object moves exactly as the parser state machine says for a start tag |
| HtmlIngestion.HtmlBoundaryParser.HandleEndTag | src/extractor/ingestion/html.py:140-165 | the same for an end tag; raises exactly when the closed table cannot be emitted |
| HtmlIngestion.HtmlBoundaryParser.HandleData | src/extractor/ingestion/html.py:167-177 | the same for text: ignored in scripts, styles and titles, else kept for the open cell or block |
| HtmlIngestion.HtmlBoundaryParser.EmitBlock | src/extractor/ingestion/html.py:210-234 | appends separator, block text and layout span as one emitted block |
| HtmlIngestion.HtmlBoundaryParser.EmitTable | src/extractor/ingestion/html.py:250-269 | appends separator, rows, table and cell spans as one emitted table; fails exactly on an empty row or cell |
| HtmlIngestion.ExtractHtml | src/extractor/ingestion/html.py:272-314 | the object run over any events returns what the state machine's emitted items assemble to, or fails as they do |
| HtmlIngestion.ParseShowsOutline | src/extractor/ingestion/html.py:98-270 | from events to document: text, spans, tables and cells show the outline of the events in the roles of its tags |
| HtmlIngestion.ParsesExactly | src/extractor/ingestion/html.py:250-269 | parsing raises exactly when some closed table holds a cell without visible text |
| HtmlIngestion.HtmlDocumentsAreAccepted | src/extractor/contracts/documents.py:67-97 | for every event sequence that does not raise, the document passes all validators, the packer's page and order checks never raise, and every range shows its own text |
| IngestedText.SoundMakesValidDocument | src/extractor/contracts/documents.py:67-97 | no document validator rejects a sound ingested text |
| IngestedText.SoundIsPackable | src/extractor/chunker/packing.py:127-144 | the boundary collector accepts a sound text and its sorted blocks never overlap |
| IngestedText.ApartBlocksAreOrdered | src/extractor/chunker/packing.py:91-144 | non-empty blocks that are pairwise apart are in order once sorted |
| EmailIngestion.AppendHeaders | src/extractor/ingestion/email.py:155-176 | the header lines assemble in label order, three segments each |
| EmailSoundness.IncludedExactly | src/extractor/ingestion/email.py:155-162 | the headers included are exactly those of the message that are not blank |
| EmailSoundness.HeadersShowTheirLines | src/extractor/ingestion/email.py:155-176 | the header text is label, trimmed value and line break for each header, with a blank line behind the last; only the values are unmapped segments, labels and breaks are generated |
| EmailIngestion.ExtractEmail | src/extractor/ingestion/email.py:96-152 | headers followed by the shifted body; each error exactly under its condition |
| EmailSoundness.EmailText | src/extractor/ingestion/email.py:96-152 | the text is the header lines followed by the body |
| EmailSoundness.ShiftedRange | src/extractor/ingestion/email.py:342-348 | a range moved behind other text stays aligned and shows the same text |
| EmailSoundness.EmailIsSound | src/extractor/ingestion/email.py:75-152 | a sound body behind any headers is a sound document: ids stay unique, ranges aligned, blocks ordered |
| EmailSoundness.EmailKeepsSlices | src/extractor/ingestion/email.py:296-310 | every layout span of the email shows what it showed in the body |
| EmailSoundness.EmailKeepsTables | src/extractor/ingestion/email.py:313-339 | so do every table and cell, which keep their place and header labels |
| SourceBacking.CoversSpan | src/extractor/source_support.py:276-294 | on a contiguous aligned map and an exact span, the cursor walk answers yes exactly when every character of the span lies in a source-backed segment |
| SourceBacking.IsSourceBacked | src/extractor/source_support.py:68-73 | an exact span passes exactly when it is of this document and there is no map or all its characters are source-backed |
| SourceBacking.MatchesDocumentExactly | src/extractor/source_support.py:261-273 | a valid span matches a document if and only if its characters and its bytes are those slices of it |
| SourceBacking.EndsTogether | src/extractor/source_support.py:276-294 | a segment ends before the cursor in characters exactly when it does in bytes |
| TextMatching.ExactMatchesAreAll | src/extractor/executor/text_utils.py:28-37 | the matches are all occurrences, overlapping ones included, in increasing order |
| TextMatching.FindExactMatches | src/extractor/executor/text_utils.py:28-37 | the loop computes that list |
| TextMatching.NormalizeWhitespaceWithMapping | src/extractor/executor/text_utils.py:71-89 | the result is exactly " ".join(text.split()), with a strictly increasing map to source positions that hold the same character, or white space for a space |
| TextMatching.NormalizeCollapses | src/extractor/executor/text_utils.py:71-89 | what has been collected after any prefix is the collapsed prefix, with a pending space inside white space |
| TextMatching.SliceCollapses | src/extractor/executor/text_utils.py:49-89 | the source slice under collapsed positions that start and end with word characters collapses to them |
| TextMatching.WhitespaceMatchesAreAll | src/extractor/executor/text_utils.py:49-68 | every listed slice collapses to the collapsed source, and every occurrence in the collapsed text is listed |
| TextMatching.FindWhitespaceNormalizedMatches | src/extractor/executor/text_utils.py:49-68 | the loop computes that list |
| TextMatching.CaseMatchesAreAll | src/extractor/executor/text_utils.py:40-46 | every occurrence up to case starts inside a listed match |
| TextMatching.ValueMatchesAreSlices | src/extractor/executor/text_utils.py:10-25 | every value match is a non-empty slice that is the value literally, stripped, up to case or up to white space |
| ValueOccurrences.MatchesExactly | src/extractor/executor/text_utils.py:10-68 | which places are listed, each once and in order: all literal occurrences; without any, those of the stripped value; without any, disjoint ones up to case that reach every such occurrence; without any, all places with the words of the value |
| ValueOccurrences.MatchCountExactly | src/extractor/executor/text_utils.py:10-25 | nothing is listed if and only if the value occurs in none of the four ways, and two or more matches if and only if it occurs at two places |
| ValueOccurrences.SpacedExactly | src/extractor/executor/text_utils.py:49-68 | the matches up to white space are exactly the slices between words that have the words of the value |
| Whitespace.WordsOfCollapse | src/extractor/executor/text_utils.py:6-7 | collapsing white space keeps the words |
| Whitespace.WordsAreSolid | src/extractor/executor/text_utils.py:6-7 | words are non-empty and hold no white space |
| Whitespace.CollapseIsTrimmed | src/extractor/executor/text_utils.py:6-7 | collapsed text neither starts nor ends with white space |
| SourceResolution.SliceClaimed | src/extractor/executor/source_resolution.py:102-115 | a claim is taken exactly when it is a non-empty slice of the chunk |
| SourceResolution.ResolutionIsSlice | src/extractor/executor/source_resolution.py:26-99 | whatever the model claims, the resolution is a non-empty slice of the chunk at its own offset |
| SourceResolution.ResolutionOrigin | src/extractor/executor/source_resolution.py:26-99 | the resolution is a value match, the fallback character or the claim |
| SourceResolution.ResolutionKeepsGoodClaims | src/extractor/executor/source_resolution.py:26-99 | a fitting claim that supports the value is kept; without reasons the text is the claim or carries the value; an unfitting claim is replaced without a reason only by the one match |
| ResolutionRules.UnfittingClaim | src/extractor/executor/source_resolution.py:44-59 | a claim that does not fit: the only place of the value is taken without a reason; a value that is nowhere, or at two places, leaves the first character with invalid_source_offsets, or with that and ambiguous_source_span |
| ResolutionRules.SupportingClaim | src/extractor/executor/source_resolution.py:61-99 | a fitting claim that has the value in it, or whose value is nowhere, is taken, with ambiguous_source_span if and only if it is short and repeated |
| ResolutionRules.LackingClaim | src/extractor/executor/source_resolution.py:61-99 | a fitting claim that lacks the value: the only place of the value or the one that repairs a header is taken; otherwise the claim is kept with a reason |
| ResolutionRules.SupportsExactly | src/extractor/executor/source_resolution.py:144-150 | the three tests of support amount to one: the collapsed value occurs in the collapsed claim up to case |
| ResolutionRules.HeaderRepairExactly | src/extractor/executor/source_resolution.py:118-141 | the repair of a header is the first match in the body from the claim on, or else the only one, for a metric name or a period |
| ResolutionRules.HeadingLineExactly | src/extractor/executor/text_utils.py:92-94 | a match is in a heading if and only if its line begins with # behind white space |
| CandidateBuilding.BuiltSpanIsExact | src/extractor/executor/materialization.py:9-72 | building a candidate from a slice of an exact chunk fails if and only if the slice is blank, and otherwise gives a span that is exact and aligned in the document |
| CandidateBuilding.BuiltSaysWhatWasClaimed | src/extractor/executor/materialization.py:9-90 | a built candidate has the payload's category, field, value and confidence, the plan's run and document, the chunk's id and the resolved text at its offset |
| CandidateBuilding.CandidateCodes | src/extractor/executor/policies.py:12-45 | for each code, exactly when the executor gives it: category, field or span is wrong |
| CandidateBuilding.BytesAreCounted | src/extractor/executor/materialization.py:59-72 | byte offsets are counted from the chunk start over the text before and over the text itself |
| CandidateBuilding.ExecutorBuiltPins | src/extractor/executor/materialization.py:75-90 | the normalization record of a built candidate admits its value and no other, and its source text is not blank |
| BlankSources.ResolutionIsBlankExactly | src/extractor/executor/source_resolution.py:26-100 | the resolved text is blank if and only if the claim does not fit, the value has not one match and the chunk starts with white space, or a blank claim is taken |
| BlankSources.MatchIsNonBlank | src/extractor/executor/source_resolution.py:40-49 | a match of a value that is not blank is not blank |
| BlankSources.ExecuteOneRaisesExactly | src/extractor/executor/service.py:151-163 | without a field normalizer that steps in, no candidate can be built if and only if the resolved text is blank |
| BlankSources.LeadingSpaceRaises | src/extractor/executor/source_resolution.py:181-190 | a chunk that starts with a space, a claim of no length and a value that is not there: the fallback is the space, and the executor raises |
| CandidateBuilding.SliceSpanIsExact | src/extractor/executor/materialization.py:59-72 | bytes counted from the chunk start are the document's byte offsets |
| CandidateBuilding.MatchingSpanIsExact | src/extractor/executor/policies.py:55-70 | a span that matches its chunk and counts its bytes from the chunk start is exact in the document, whoever chose it |
| CandidateBuilding.AcceptedCandidateIsExact | src/extractor/executor/service.py:85-208 | with arbitrary field normalizers, every accepted candidate is exact in the document and approved by the schema |
| SpanAmbiguity.MatchIsExactIff | src/extractor/executor/policies.py:55-70 | a span that matches its chunk is exact if and only if its start byte is the byte offset of its start character |
| SpanAmbiguity.BytesAreAnOccurrence | src/extractor/executor/policies.py:55-70 | the bytes of a matching span are at some occurrence of its text in the chunk |
| SpanAmbiguity.UniqueMatchIsExact | src/extractor/executor/policies.py:55-70 | matching suffices for a text that occurs once in the chunk |
| SpanAmbiguity.MatchingSufficesExactly | src/extractor/executor/policies.py:55-70 | every valid span with a given text that matches the chunk is exact if and only if the chunk holds the text at no two places |
| SpanAmbiguity.AmbiguousMatch | src/extractor/executor/policies.py:55-70 | a concrete valid span that matches its chunk and fails the report check |
| CriticCorrections.CorrectionIsExact | src/extractor/critic/corrections.py:38-115 | a materialized correction is exact and valid and keeps everything but span, value, category and field |
| CriticCorrections.ReviewIsExact | src/extractor/critic/reports.py:24-110 | whatever the verdict, the reviewed candidate of an exact candidate is exact |
| CriticCorrections.MirrorIsExact | src/extractor/critic/mirroring.py:81-101 | a mirrored correction is exact in the document, even under another chunk |
| CriticCorrections.AppliedCorrectionNarrows | src/extractor/critic/corrections.py:118-220 | an applied correction lies inside the original span, in an approved slot, matches its chunk, and keeps identity and confidence |
| CorrectionRules.AppliedExactly | src/extractor/critic/reports.py:55-92 | a correction is applied if and only if it asks for a valid candidate that is grounded, approved, drops no qualifier and lies inside the old span, and it changes category or field only where the original was not mechanically valid |
| CorrectionRules.PassedOnExactly | src/extractor/critic/corrections.py:223-272 | a candidate is passed on unchanged if and only if the verdict accepts it, a rejection contradicts the checks, or it is mechanically valid and the correction cannot be materialized, asks for another slot or has no fault but a wider span |
| CorrectionRules.NeverRelabels | src/extractor/critic/corrections.py:238-253 | no verdict changes category or field of a mechanically valid candidate |
| CorrectionRules.MaterializesExactly | src/extractor/critic/corrections.py:38-115 | a correction materializes as the candidate that it asks for, with bytes counted from the chunk, if and only if that is a valid candidate on a slice of the chunk |
| CorrectionRules.CopyAgrees | src/extractor/critic/mirroring.py:57-101 | after mirroring a corrected primary and its copy agree in slot, value, confidence and place, and the copy keeps its identity and normalization record |
| DedupIdentities.CriticKeepsSlot | src/extractor/critic/corrections.py:238-253 | whatever the verdicts, the critic passes an accepted candidate on in its own slot when the reviewed value is supported |
| CriticCorrections.CorrectionsNeverChangeTheValue | src/extractor/critic/corrections.py:57-115 | no verdict on a candidate that the executor built changes its own value, because its normalization record pins the value |
| CriticCorrections.MirrorIsValidExactly | src/extractor/critic/mirroring.py:81-101 | a mirrored correction passes the candidate validator if and only if the duplicate had the value of its primary |
| CriticCorrections.MirrorKeepsValueExactly | src/extractor/critic/mirroring.py:81-101 | mirroring keeps the value of a merged candidate if and only if its primary was not corrected or has the same value |
| CriticCorrections.ValueCorrectionOutcome | src/extractor/critic/corrections.py:223-272 | a requested change of value passes a mechanically valid candidate on unchanged and rejects any other |
| VerifierPolicies.AcceptedExactly | src/extractor/verifier/policies.py:24-86 | a candidate is accepted if and only if span, slot and value pass the mechanical checks and the model accepts or objects only to what the checks refute |
| VerifierPolicies.ScoreFollowsAcceptance | src/extractor/verifier/policies.py:58-86 | an accepted report has alignment 1, both marks and no reasons; a refused one has alignment 0 and a reason |
| VerifierPolicies.SpanVerifiedExactly | src/extractor/verifier/policies.py:20-60 | the span mark is set if and only if the span matches, the value is a label or grounded, and the model does not call an ungrounded value invented |
| VerifierPolicies.CategoryVerifiedExactly | src/extractor/verifier/policies.py:61-64 | the category mark is set if and only if the slot is approved and the model does not object to it while span or value fails |
| VerifierPolicies.ReportCodes | src/extractor/verifier/policies.py:108-198 | for each code, exactly when a report has a reason with it |
| VerifierPolicies.MergeRejectionReasons | src/extractor/verifier/policies.py:232-242 | keeps the first of equal reasons, in order |
| VerifierPolicies.Distinct | src/extractor/verifier/policies.py:232-242 | the same reasons, each once |
| ReportInvariants.SpanPassesExactly | src/extractor/evals/invariants.py:39-85 | a valid span passes the report check if and only if it is an exact aligned slice |
| ReportInvariants.ReportInvariantViolations | src/extractor/evals/invariants.py:8-36 | nothing is returned exactly for reports all of whose spans and supporting spans are exact |
| Dedup.DeduplicateCandidates | src/extractor/executor/dedup.py:16-35 | raises if and only if the key text of a candidate is blank; otherwise canonical candidates are the least ids of their identity classes, strictly id-sorted, and each other candidate maps to its class's least |
| Dedup.DedupIsDetermined | src/extractor/executor/dedup.py:16-35 | the result depends on the set of candidates only: input order and a replay in id order do not matter |
| Dedup.DedupPartitions | src/extractor/executor/dedup.py:16-35 | canonical and merged ids partition the input; each merged id maps to a canonical id, less than it and the least of its class |
| Dedup.DedupIsIdempotent | src/extractor/executor/dedup.py:16-35 | deduplicating the canonical list again merges nothing |
| Dedup.HasPrimary | src/extractor/executor/dedup.py:129-130 | every identity class has a member of least id |
| Dedup.PrimaryIsUnique | src/extractor/executor/dedup.py:129-130 | and only one |
| Dedup.GroupByIdentity | src/extractor/executor/dedup.py:16-35 | the grouping loop yields every identity class once, ordered by primary, or raises on a blank key text |
| DedupIdentities.ValidIdentityExactly | src/extractor/executor/dedup.py:111-142 | valid candidates are the same if and only if document, lens, slot, kind and policy agree, their own values agree once normalized, and, unless both are canonicalized, they lie at the same place |
| DedupIdentities.BuiltIdentityExactly | src/extractor/executor/dedup.py:111-142 | for candidates of the executor: verbatim ones are the same at one place only, other ones wherever they are, and one of each kind never |
| DedupIdentities.MergedIsSame | src/extractor/executor/dedup.py:16-35 | a merged candidate shares slot and normalized value with its primary, and a verbatim one its place |
| DedupIdentities.RejectionsSay | src/extractor/executor/dedup.py:72-103 | dedup records exactly one rejection for each merged candidate, as a duplicate, naming its primary |
| KeyTexts.KeyTextIsBlankExactly | src/extractor/canonical_values.py:84-106 | the key text of a value is blank if and only if white space and nothing else is left between the marks that surround the value |
| KeyTexts.CheckBoxIsBlank | src/extractor/canonical_values.py:84-106 | an empty check box "[ ]" is such a value |
| KeyTexts.SpaceRunsExactly | src/extractor/canonical_values.py:84-106 | one space stands for every run of white space, words and outer white space are kept |
| KeyTexts.StripMarksTrims | src/extractor/canonical_values.py:84-106 | stripping marks removes exactly the marks at both ends |
| DedupRecords.BuildDedupRejections | src/extractor/executor/dedup.py:72-103 | one rejection for each merge in id order; fails exactly on a merged id without candidate |
| DedupRecords.RejectionsAreDetermined | src/extractor/executor/dedup.py:72-108 | the recorded rejections are determined by the set of candidates |
| DedupRecords.BuildDedupClusters | src/extractor/executor/dedup.py:38-69 | one cluster for each class of two or more, in primary order, listing the whole class and the number of its spans; raises as deduplication does |
| Sorting.SortedIsUnique | src/extractor/executor/dedup.py:16-35 | a set has one sorted arrangement |
| Sorting.SortIsOrderBlind | src/extractor/reporter/service.py:303-315 | sorting does not depend on the order of its input |
| Sorting.LessIsTotal | src/extractor/audit/review_records.py:31-38 | ids are totally ordered by code points |
| Sorting.LessExactly | src/extractor/executor/dedup.py:129-130 | ids are compared as strings are: a proper prefix, or smaller at the first difference |
| Reconciliation.BuildReconciliationResult | src/extractor/reconciler/materialization.py:26-105 | fails if and only if the reply names unknown ids or a kept group makes a data point that its validator refuses; otherwise the points of the kept groups and exactly one rejection, in id order, for each candidate that has one |
| Reconciliation.BestSource | src/extractor/reconciler/materialization.py:157-174 | a contributor in the slot of the selected source |
| Reconciliation.LeastRank | src/extractor/reconciler/materialization.py:157-174 | the id of least specificity rank |
| Reconciliation.RankLessIsTotal | src/extractor/source_support.py:118-149 | candidates with different ids never tie in rank, so the source of a group is determined |
| Reconciliation.TupleLessExactly | src/extractor/reconciler/materialization.py:172-174 | ranks are compared as tuples are: a proper prefix, or smaller at the first difference |
| Reconciliation.LeastConfidence | src/extractor/reconciler/materialization.py:226-283 | the least of the confidences and alignment scores |
| ReconciliationAccounting.KeptExactly | src/extractor/reconciler/materialization.py:177-223 | a group is kept if and only if its slot is approved, its contributors share it and none was named by an earlier group |
| ReconciliationAccounting.KeptPointIsLeast | src/extractor/reconciler/materialization.py:157-283 | a kept point comes from its least-rank contributor whichever source the reply selected, and is no more confident than any contributor or alignment |
| ReconciliationAccounting.EveryCandidateIsAccounted | src/extractor/reconciler/materialization.py:39-105 | for every valid batch each input candidate contributes or is rejected, and both exactly when it contributes and two groups name it |
| ReconciliationAccounting.ContributorsAreDisjoint | src/extractor/reconciler/materialization.py:39-105 | no candidate contributes to two data points |
| ReconciliationAccounting.GroupAccounting | src/extractor/reconciler/materialization.py:39-70 | the same accounting after any prefix of the groups |
| ReconciliationAccounting.PointsComeFromGroups | src/extractor/reconciler/materialization.py:39-70 | every kept point was built from a group of known candidates |
| ReportedPoints.ReportedPointIsItsContributors | src/extractor/reconciler/materialization.py:226-283 | every data point of a finished report has verified contributors of its own approved slot; value, span and normalization are those of one that no other outranks, the confidence is the least of theirs, the supporting spans are theirs in order |
| ReportedPoints.ReportIsOrdered | src/extractor/reporter/service.py:303-315 | a report lists the points of the reconciler, each once, by category, field, start, end and id |
| ReportedPoints.PointIdDigestsItsFields | src/extractor/reconciler/materialization.py:344-384 | a data point's id digests the point's own fields, its source and its contributors |
| ReportedPoints.VerifiedScore | src/extractor/verifier/policies.py:65-86 | what the verifier lets through has the full alignment score and a confidence between 0 and 1 |
| ReconciliationReasons.GroupCodes | src/extractor/reconciler/materialization.py:177-223 | for each code, exactly when a refused group has it: slot not approved, a contributor of another slot, a contributor that an earlier group named |
| ReconciliationReasons.FirstRefusal | src/extractor/reconciler/materialization.py:50-68 | a candidate that groups name is refused if and only if one of them is, with the reasons of the first such group |
| ReconciliationReasons.UnnamedCode | src/extractor/reconciler/materialization.py:82-105 | a candidate that no group names is rejected with the code that the reply gives it, or as not selected |
| AuditStores.AuditStore.RecordCandidate | src/extractor/audit/review_records.py:9-21 | inserts exactly when the id is free |
| AuditStores.AuditStore.RecordCriticReport | src/extractor/audit/review_records.py:40-50 | inserts exactly when the same report is not there |
| AuditStores.AuditStore.RecordDataPoint | src/extractor/audit/review_records.py:111-122 | inserts exactly when the id is free |
| AuditStores.AuditStore.RecordRejection | src/extractor/audit/review_records.py:136-148 | inserts exactly when the same rejection is not there |
| AuditStores.AuditStore.EnsureStageCompleted | src/extractor/orchestrator/state.py:98-112 | the mark is set, once or again |
| AuditStores.AuditStore.ListCandidates | src/extractor/audit/review_records.py:31-38 | raises if and only if a stored candidate fails its validator; otherwise all candidates, once, in id order |
| AuditStores.AuditStore.ListCriticReports | src/extractor/audit/review_records.py:64-71 | raises if and only if a stored correction fails its validator; otherwise all reports, once |
| AuditStores.AuditStore.ListDataPoints | src/extractor/audit/review_records.py:127-134 | raises if and only if a stored data point fails its validator; otherwise all data points, once |
| AuditStores.ReadBack | src/extractor/audit/base.py:174-188 | every stored row is validated as it is read |
| CandidateViews.BuildCandidateViewMap | src/extractor/llm/views.py:101-118 | raises if and only if a candidate has a blank field or two candidates share a view id; otherwise each view id leads back to its candidate |
| ReadBacks.RejectionsHold | src/extractor/audit/models.py:38-44 | at every boundary, with any part of dedup's, the stored rejections can be read back |
| Batching.PartitionIntoBatches | src/extractor/critic/batching.py:14-27 | the batches hold every candidate once, none is empty or too long, and each stays in one chunk |
| Replays.ReviewStageComplete | src/extractor/orchestrator/state.py:326-349 | complete, not begun or partial, each exactly under its condition |
| Replays.CandidateMap | src/extractor/orchestrator/state.py:352-360 | fails exactly on a repeated id |
| Replays.ExecutionResultFromAudit | src/extractor/orchestrator/state.py:115-146 | splits the stored candidates by the executor's rejections; fails exactly on repeated ids or candidates of another run |
| Replays.ReviewResultFromAudit | src/extractor/orchestrator/state.py:163-205 | accepted candidates with their corrections, rejected ones by report or by rejection alone; fails exactly on unknown ids |
| PipelineFacts.CanonicalOrMerged | src/extractor/orchestrator/service.py:211-236 | every accepted candidate is canonical or merged into a canonical one |
| PipelineFacts.OneReport | src/extractor/critic/mirroring.py:9-54 | no accepted candidate has two critic reports |
| PipelineFacts.HasReport | src/extractor/critic/mirroring.py:9-54 | every accepted candidate, canonical or merged, has a critic report |
| ExecutorSteps.ExecutePlan | src/extractor/executor/service.py:85-208 | records every outcome and every refusal, meeting no taken key |
| ExecutorSteps.ReplayedExecution | src/extractor/orchestrator/state.py:115-146 | taking out the rejected ids gives back what was accepted live |
| ExecutorSteps.ExecutorStep | src/extractor/orchestrator/service.py:163-209 | from any boundary: run or read back, the same accepted and rejected candidates and the same store |
| DedupSteps.DedupStep | src/extractor/orchestrator/service.py:211-241 | from any boundary, with any part of its rejections already recorded: raises, before its first write, if and only if a candidate has no identity; otherwise writes only the missing ones, meets no taken key and ends in the same store |
| DedupSteps.InterruptedDedup | src/extractor/orchestrator/service.py:211-226 | stopped after a given number of writes it has added exactly that many of the missing rejections, in order, or all that were missing, and leaves the store of its boundary with a larger part of them |
| DedupSteps.RecordMissing | src/extractor/orchestrator/service.py:223-226 | the recording loop, stopped after a given number of writes: it records the missing rejections in order, none twice, exactly that many or all |
| CriticSteps.ReviewBatches | src/extractor/critic/service.py:48-121 | batch by batch, the outcomes and the store of the reference |
| CriticSteps.ReviewBatch | src/extractor/critic/service.py:124-275 | one batch, candidate by candidate |
| CriticMirrors.MirrorMergedCriticReports | src/extractor/critic/mirroring.py:9-54 | each merged candidate gets its primary's outcome, in id order; its error is unreachable |
| CriticReviews.LiveOutcomes | src/extractor/critic/service.py:97-121 | canonical and mirrored outcomes together are the reference sets of accepted and rejected candidates |
| CriticReviews.ReviewCandidates | src/extractor/critic/service.py:48-121 | on executor-built candidates nothing raises, and what is returned and recorded is the reference |
| CriticReplays.ReplayedAccepted | src/extractor/orchestrator/state.py:163-205 | reports that could be read back accept exactly what the live critic accepted |
| CriticReplays.ReplayedRejected | src/extractor/orchestrator/state.py:163-205 | and reject exactly what it rejected |
| CriticReplays.CriticCompleteness | src/extractor/orchestrator/state.py:149-160 | at every boundary the critic is found complete or not begun, never partial |
| CriticReplays.CriticStep | src/extractor/orchestrator/service.py:243-281 | from any boundary: raises, changing nothing, if and only if stored reports fail their validator; otherwise review or read back, the same candidates, reports and store |
| VerifierSteps.AcceptedAreFit | src/extractor/verifier/service.py:42-102 | what the critic lets through always passes the verifier's input checks |
| VerifierReplays.VerifyCandidates | src/extractor/verifier/service.py:42-102 | raises, before anything is recorded, if and only if a candidate cannot be shown to the model; otherwise what is returned and recorded is the reference |
| VerifierReplays.ReplayedVerified | src/extractor/orchestrator/state.py:222-265 | reading the reports back accepts exactly what the live verifier accepted |
| VerifierReplays.VerifierCompleteness | src/extractor/orchestrator/state.py:208-219 | at every boundary the verifier is found complete or not begun, never partial |
| VerifierReplays.VerifierStep | src/extractor/orchestrator/service.py:283-322 | from any boundary: raises, changing nothing, if and only if a candidate cannot be shown; otherwise verify or read back, the same candidates and store |
| ReconcilerSteps.KeptPointsDiffer | src/extractor/reconciler/materialization.py:363-384 | data point ids never collide, because contributors are disjoint |
| ReconcilerSteps.ReconcileCandidates | src/extractor/reconciler/service.py:35-106 | raises, with nothing recorded, if and only if the reply names unknown candidates or makes a data point that its validator refuses; otherwise returns and records the reference |
| Orchestrator.ReconcilerCompleteness | src/extractor/orchestrator/state.py:268-293 | at every boundary the reconciler is found complete or not begun, never partial |
| Orchestrator.ReconcilerStep | src/extractor/orchestrator/service.py:324-356 | from any boundary: reconcile or read back, the same data points and store, or raise exactly when reconciling does |
| Orchestrator.OrderForReport | src/extractor/reporter/service.py:303-315 | the reported order does not depend on where the points came from |
| Orchestrator.PointsOrderAll | src/extractor/reporter/service.py:303-315 | the report key orders data points totally |
| Orchestrator.RunPipeline | src/extractor/orchestrator/service.py:163-368 | from the store of any stage boundary with any part of dedup's rejections, to any boundary or any write inside dedup: the store of the later one or of the last one before it raises, no taken key, no partial stage, and an outcome that depends on the start only through reports that cannot be read back |
| Orchestrator.RunWithInterruptions | src/extractor/orchestrator/service.py:164-368 | however often a run is interrupted, at stage boundaries or after any of dedup's writes, and resumed, the last attempt reports exactly what one uninterrupted run reports, or fails when an earlier attempt left critic reports that cannot be read back |
| RunConditions.AlwaysCompletesExactly | src/extractor/orchestrator/service.py:163-368 | a run completes with the same report under all interruptions if and only if every accepted candidate has an identity, no applied correction is blank, every candidate merged into a corrected one has its value, and the reply names verified candidates only |
| RunConditions.ResumingIsHarmlessExactly | src/extractor/orchestrator/service.py:243-260 | interruptions make no difference if and only if every candidate merged into a corrected one has its value, or the run fails without them |
| RunConditions.CompletesExactly | src/extractor/orchestrator/service.py:163-368 | an uninterrupted run completes if and only if every accepted candidate has an identity, no applied correction is blank, and the reply is known and takes no data point from a copy with another value |
| RunConditions.MirrorsHoldExactly | src/extractor/audit/review_records.py:64-71 | the critic's reports can be read back if and only if every candidate merged into a corrected one has its value |
| RunConditions.ViewsHoldExactly | src/extractor/llm/views.py:88-98 | all candidates that the critic lets through can be shown to the verifier's model if and only if no applied correction is blank |
| RunConditions.AcceptedIsValidExactly | src/extractor/contracts/models.py:209-244 | what the critic lets through is a valid candidate if and only if it is not a copy that took over another value |
| RunConditions.PointHoldsExactly | src/extractor/contracts/models.py:298-338 | the data point of a group passes its validator if and only if the group's best source is not such a copy |
| RunConditions.ReconcilableExactly | src/extractor/reconciler/service.py:35-106 | the reconciler raises nothing if and only if the reply is known and no kept group takes its data point from such a copy |
| MirrorRuns.PairRunIsWellFormed | src/extractor/orchestrator/service.py:163-368 | a concrete run over "A. a." in which "a" is merged into "A" and the critic narrows "A." to "A" satisfies every assumption made of a run |
| MirrorRuns.ResumedPairFails | src/extractor/critic/mirroring.py:81-101 | in it, with both in one group, the uninterrupted run completes and the run resumed after the critic fails |
| MirrorRuns.CopyAloneFails | src/extractor/reconciler/materialization.py:226-283 | in it, with the copy in a group of its own, the run fails without any interruption |
| MirrorRuns.BlankCorrectionFails | src/extractor/critic/corrections.py:118-220 | a label whose span the critic narrows to the space inside it: the run fails without any interruption |
| MirrorRuns.CheckBoxFails | src/extractor/contracts/dedup.py:14-19 | an empty check box as a value: the run fails in dedup |
| CrashWindows.PartialVerifierIsRefused | src/extractor/orchestrator/state.py:326-349 | interrupted among its verdicts the verifier is refused on resume, exactly when some but not all are stored |
| CrashWindows.PartialCriticIsRefused | src/extractor/orchestrator/state.py:326-349 | the same for the critic among the canonical candidates |
| CrashWindows.LostMirrorsGoUnnoticed | src/extractor/orchestrator/state.py:149-160 | interrupted between canonical and mirrored reports, the critic counts as complete |
| CrashWindows.LostMirrorsDropCandidates | src/extractor/orchestrator/state.py:163-205 | what is then read back is the live result if and only if no accepting copy was lost; otherwise the merged candidates whose accepting copy was lost are not carried on |
| SilentDrops.NothingIsDropped | src/extractor/orchestrator/service.py:163-368 | in the final store of a completed run every candidate the executor recorded contributes to a data point or has a rejection on record |
| RecordedReasons.EveryRejectionSaysWhy | src/extractor/orchestrator/service.py:163-368 | every rejection of a completed run has a reason and comes from its stage: an executor outcome, a merge that names its primary, a canonical candidate that the critic refused, a refusing verifier report, or a verified candidate |
| SilentDrops.LostMirrorIsForgotten | src/extractor/critic/mirroring.py:9-104 | a merged candidate whose copy was lost is neither accepted nor rejected by what is read back; it has its dedup record and no rejection of another stage |
| SilentDrops.CriticCountsAsComplete | src/extractor/orchestrator/state.py:149-160 | with any part of the critic's reports and rejections stored, each report before its rejection, the critic counts as complete if and only if all canonical reports are there |
| SilentDrops.CarriedByItsReport | src/extractor/orchestrator/state.py:163-205 | what is read back of stored reports carries a candidate on if and only if its accepting report is stored |
| SilentDrops.CriticDropsExactly | src/extractor/critic/service.py:236-266 | resumed from such a store a candidate leaves without any record if and only if it is canonical, refused, and its rejection was not written |
| SilentDrops.CriticDropsNobodyExactly | src/extractor/critic/service.py:236-266 | nobody leaves without a record if and only if every stored refusing report has a rejection of its candidate in the store |
| SilentDrops.MergedAreOnRecordStill | src/extractor/critic/mirroring.py:9-104 | of the candidates that the critic lets through, exactly the merged ones are on record before the verifier |
| SilentDrops.VerifierCountsAsComplete | src/extractor/orchestrator/state.py:208-219 | the verifier counts as complete if and only if all its reports are there, with or without their rejections |
| SilentDrops.VerifierDropsExactly | src/extractor/verifier/service.py:231-256 | a candidate leaves the verifier without any record if and only if it was never merged, is refused, and its rejection was not written |
| SilentDrops.VerifierDropsNobodyExactly | src/extractor/verifier/service.py:231-256 | nobody does if and only if every stored refusing report has a rejection of its candidate in the store |
| FinalRecords.CriticLosesNobodyExactly | src/extractor/critic/service.py:236-266 | resumed from a store that an interruption left inside the critic, the run loses nobody in its final store if and only if every stored refusing report has a rejection |
| FinalRecords.VerifierLosesNobodyExactly | src/extractor/verifier/service.py:231-256 | the same after an interruption inside the verifier |
| FinalRecords.LostExactly | src/extractor/orchestrator/service.py:283-356 | in the final store a candidate has neither data point nor rejection if and only if it was not carried on and not on record |
| FinalRecords.ReconciledExactly | src/extractor/reconciler/materialization.py:39-105 | exactly the verified candidates contribute to a data point or are rejected by the reconciler |
| FinalRecords.ReferenceStages | src/extractor/orchestrator/service.py:283-356 | on the candidates of the reference run these are its verifier and reconciler |
| FinalRecords.PartialReconcilerIsRefused | src/extractor/orchestrator/state.py:268-293 | interrupted among its writes the reconciler counts as not begun if and only if nothing was written, and as complete if and only if all data points were and every missing rejection is of a contributor; otherwise it is refused |
| TwinRuns.TwinRunIsWellFormed | src/extractor/orchestrator/service.py:163-368 | a concrete run over the document "a" in which two calls find the same value satisfies every assumption made of a run |
| TwinRuns.LostMirrorExample | src/extractor/critic/mirroring.py:9-104 | in it, interrupted before the copy, the critic counts as complete and carries one candidate on where an uninterrupted run carries both; the other has only its dedup record |
| TwinRuns.LostRejectionExample | src/extractor/critic/service.py:236-266 | in it, interrupted between the refusing report and its rejection, the critic counts as complete, carries nobody on, and the first candidate has no rejection |
| TwinRuns.LostVerdictExample | src/extractor/verifier/service.py:231-256 | the same inside the verifier |
| SeedDigests.DigestIsInjective | src/extractor/reconciler/materialization.py:363-384 | distinct data point ids for distinct contents, as the run assumes them, can be had |
| Provenance.ExecutorOutcomesAreWellFormed | src/extractor/executor/service.py:85-208 | the executor builds its candidates as the later stages assume, and its own checks give the accepted ones what they demand |
| Provenance.WindowChunksAreExact | src/extractor/chunker/tokenizer.py:34-75 | the chunks of token-window mode satisfy the premise of the provenance theorem |
| Provenance.LayoutChunksAreExact | src/extractor/chunker/tokenizer.py:78-95 | so do those of layout-aware mode |
| Provenance.CriticAcceptedAreTraced | src/extractor/critic/service.py:48-121 | what the critic lets through, corrected or copied, is exact in the document |
| Provenance.ReportedSpansAreExact | src/extractor/evals/invariants.py:39-85 | every span and supporting span of the final report is an exact, byte-aligned slice of the document |
| Provenance.CheckedRun | src/extractor/evals/invariants.py:8-36 | a run over an exact chunking, interrupted anywhere, is checked without a violation |
| RetryProtocol.CompleteStructuredWithRetry | src/extractor/llm/client.py:161-227 | the returned output is the last of a chain of merges, at most max_retries + 1 calls are made with attempts numbered 1, 2, ..., it stops only when accepted, out of retries or unmergeable, and raises exactly when the validator does on an output that it is asked about |
| ExecutorBatches.ValidateExecutorBatch | src/extractor/executor/batching.py:15-62 | raises if and only if a payload makes no candidate; otherwise complains about exactly the bad slots, in order |
| ExecutorBatches.MergeExecutorBatch | src/extractor/executor/batching.py:65-86 | the patching loop against its specification |
| ExecutorBatches.PatchedAt | src/extractor/executor/batching.py:65-86 | a complained slot gets its own fix, any other slot stays |
| ExecutorBatches.MergeRepairs | src/extractor/executor/batching.py:65-86 | fails exactly on a wrong number of fixes; otherwise keeps the length, changes no good slot and makes no slot bad |
| ExecutorBatches.ExecutorRunRepairs | src/extractor/llm/client.py:161-227 | over any replies every later output repairs every earlier one |
| CriticBatches.ValidateCriticBatch | src/extractor/critic/batching.py:30-119 | complains about exactly the unknown, missing and contradicted or invalid verdicts; without complaint there are verdicts for exactly the expected ids |
| CriticBatches.UncomplainedVerdictStands | src/extractor/critic/reports.py:24-110 | a verdict the validator does not complain about is carried out as it says, one with a complaint is turned round |
| CriticBatches.MergeCriticBatch | src/extractor/critic/batching.py:122-157 | the two merging loops against their specification |
| CriticBatches.MergedMember | src/extractor/critic/batching.py:122-157 | a merged verdict is a fix for a complained id or the prior one of an expected candidate |
| CriticBatches.MergeCompletes | src/extractor/critic/batching.py:122-157 | after a successful merge the verdict ids are exactly the expected ids |
| CriticBatches.MergeShrinks | src/extractor/critic/batching.py:122-157 | complaints only shrink and a candidate without complaint keeps its verdicts |
| CriticBatches.CriticRunShrinks | src/extractor/llm/client.py:161-227 | over any replies complaints shrink from output to output, and every output after the first is complete |
| CriticBatches.MissingOnlyWithoutMerge | src/extractor/critic/service.py:205-221 | a candidate is left without verdict only when no retry could be merged |
| Matching.MatchDataPoints | src/extractor/evals/scoring.py:266-308 | no one-to-one matching that respects the keys has more pairs, none has more exact pairs, exact pairs come first, and missing and unexpected ids are exactly the rest |
| Matching.ValidatedIdsAreUnique | src/extractor/reporter/models.py:40-46 | an evaluation case and a report pass their validators of ids if and only if the ids are unique, which is what the matcher is given |
| Matching.MaximalIsLargest | src/extractor/evals/scoring.py:266-308 | for these relations a matching that cannot be extended is a largest one |
| Matching.Pass | src/extractor/evals/scoring.py:274-297 | one greedy pass extends the matching until nothing more can be matched |
| Matching.ExactComesFirst | src/extractor/evals/scoring.py:274-297 | no pair of the second pass has exact provenance |
| Matching.RelationHasClasses | src/extractor/evals/scoring.py:311-339 | matching keys and exact provenance link whole classes with whole classes |
| Matching.KeyExactly | src/extractor/evals/scoring.py:311-328 | keys are equal if and only if the words are equal up to case |
| Matching.RelatesExactly | src/extractor/evals/scoring.py:311-339 | points may be matched if and only if category, field and value have the same words up to case, and in the exact pass the same range and text |
| Scoring.MetricsAreProper | src/extractor/evals/scoring.py:235-263 | with a matching's counts no score leaves the range from 0 to 1 and no error count is negative |
| Scoring.MetricsExactly | src/extractor/evals/scoring.py:235-263 | precision times the actual count and recall times the expected count are the true positives, f1 is their harmonic mean, and the counts add up |
| Scoring.BuildBreakdowns | src/extractor/evals/scoring.py:120-232 | one entry for each label of an expected or unmatched point, in label order, counting what carries the label |
| Scoring.BreakdownsAddUp | src/extractor/evals/scoring.py:120-232 | the breakdowns' counts sum to the counts of the whole report |
| ReportDiff.DiffDataPoints | src/extractor/reporter/diff.py:94-134 | the entries of every key of either report, in key order |
| ReportDiff.EveryEntryMeans | src/extractor/reporter/diff.py:94-134 | every entry means what its kind says: added and removed have no counterpart of the same fact, an ambiguous match has several, and a pair differs first in value, place or confidence, or in none |
| ReportDiff.GroupByKey | src/extractor/reporter/diff.py:178-185 | each key with all its points, sorted by position and id |
| ReportDiff.FactsInOrder | src/extractor/reporter/diff.py:178-185 | the points of a key are in the order of their starts, then of their ids |
| ReportDiff.DiffConserves | src/extractor/reporter/diff.py:94-134 | every base point is in exactly one entry's old refs and every candidate point in exactly one entry's new refs |
| ReportDiff.DiffIsDual | src/extractor/reporter/diff.py:94-134 | swapping the reports swaps added with removed and changes no other kind |
| ReportDiff.SummaryAddsUp | src/extractor/reporter/diff.py:214-216 | the summary counts sum to the number of entries |
| ReportDiff.SummaryIsDual | src/extractor/reporter/diff.py:214-216 | swapping the reports swaps the added and removed counts and no others |

## Left out

- ChunkDocument: the tokenizer is an arbitrary split of the encoded text into non-empty pieces; real byte-pair encoding is not modelled.
- BuildFromPacked: whether the token count of prefixes grows depends on the tokenizer, so the "did not advance" error stays possible.
- WindowStretch: bounds window and overlap in token positions only; how tokens relate to words is not modelled.
- HtmlParsing: events are those of Python's HTML parser, which itself is not modelled; character sets, title and meta metadata are left out.
- ValidateBoundaries: byte ranges in source files, OCR spans and bounding boxes are left out; HTML and email produce none.
- ExtractHtml: starts from decoded text; character set decoding and title and meta metadata are left out, and the text and its spans do not depend on the metadata.
- ExtractEmail: starts from the decoded body part; MIME structure, attachments and transfer encodings are left out.
- BuildReconciliationResult: conflict marking of the data points, which changes no span, value or contributor and compares keys that dedup has already built, is left out.
- SourceMapSegment: the offsets into source files (source start and end bytes) are left out; HTML and email never produce source-backed segments.
- CoversSpan: says nothing for maps that are not contiguous or spans that are not exact, which the document and report checks exclude.
- CaseMatchesAreAll: case folding is a function on single characters; full Unicode folding and NFKC normalization are not modelled.
- CanonicalKeyOf: the normalization of key text is an arbitrary function; KeyTexts models it up to compatibility normalization and case folding.
- Normalize: field normalizers are arbitrary functions from a resolution to a resolution; their regular expressions are left out.
- MechanicallyValid: the token-level judgements (is the value supported, is a qualifier lost, is a rejection contradicted) are arbitrary functions.
- RankLess: the components of the specificity rank are an arbitrary tuple; only its comparison with the id as last component is modelled.
- ResolveSourceText: rejection messages are abbreviated; codes are kept.
- CriticRejection: the reasons recorded for a critic rejection are reduced to one code, because nothing after the critic reads them.
- CompleteStructuredWithRetry: the throttle between provider calls, prompts, message formatting and caching are left out; replies are an arbitrary sequence.
- ExecutePlan: starts from the outcomes of the executor's calls; expansion of candidate payloads and the concurrency of calls are left out, and so is an interruption inside the executor, after which any recorded candidate counts the stage as done. A payload that makes no candidate fails the run before it has an outcome (BlankSources).
- ReviewBatches: batches are reviewed in turn, where the program runs them concurrently; the recorded sets are the same for every interleaving of complete batches. The path of a missing verdict is left out, see CriticInputsValid.
- ReviewBatch: the path of a missing verdict is left out, see CriticInputsValid.
- ReviewCandidates: the same as ReviewBatches.
- VerifyCandidates: the same as ReviewBatches, for the verifier. All batches build their views before any reply arrives; when one raises, batches already sent may still record reports, and the store that they leave is that of PartialVerifierIsRefused.
- WellFormed: identifiers that are SHA-256 digests are distinct for distinct contents, and so are the twelve-digit prefixes under which candidates are shown to the models, where the program raises on a collision (BuildCandidateViewMap models that error); the model's replies are a function of the candidate, or of the set of candidates for the reconciler, hence independent of order.
- EvidenceHolds: a rejecting verdict whose evidence is white space only makes an issue or reason without a message, which fails its validator while the report is built; such replies are excluded, and the store that they leave is that of PartialCriticIsRefused or PartialVerifierIsRefused.
- ValidCandidate: blank identifiers are left out; payloads and plans are validated before.
- DigestIsInjective: an injective encoding stands in for the digest of joined fields; it only shows that the assumption about digests can be met.
- CriticInputsValid: a missing critic or verifier verdict is not modelled: those paths build rejection codes outside the declared set, so they fail the run.
- RunPipeline: interruptions at stage boundaries, before or after each stage's completion mark, and after any of dedup's writes are covered; those inside the critic and the verifier are the subject of CrashWindows and SilentDrops, those inside the reconciler of FinalRecords, those inside the executor are left out; manifest, planner, chunk and document rows, timestamps and the failure handler are left out.
- OrderForReport: only the order of the data points; conflict marking, schema metadata, signing, hashing and rendering of reports are left out.
- ReconcileCandidates: the reconciler's re-validation of critic and verifier reports is left out, because the verifier step has just established it.
- MetricsAreProper: real numbers stand for floating point, and invariant-violation counts and thresholds are left out.
- BuildBreakdowns: the same; the counts that add up are those of expected, matched and unmatched points.
- DiffDataPoints: the final order of diff entries by kind and digest is left out; conservation, duality and counts do not depend on it.
- PDF and DOCX ingestion: page and archive extraction around the same assembler idea; multi-page PDF texts leave separator gaps that the packer's page coverage check rejects.
- Planner, prompts, providers, tracing, command line, configuration files: calls into libraries and models, short branch logic.
- SQLite: the audit store is a set of tables with primary keys; transactions, schema and integrity events are left out.
- Cross-document grouping, refusal reports, static HTML artifacts, mutation and calibration suites: repeats of grouping arguments that would only add easy members.
