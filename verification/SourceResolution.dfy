/** executor/source_resolution.py and executor/normalization.py: from the model's offset claim to a
    slice of the chunk. */
module SourceResolution {
  import opened Utf8
  import opened Wrappers
  import opened Contracts
  import opened Whitespace
  import opened TextMatching

  datatype Payload = Payload(category: string, fieldName: string, value: string,
                             sourceLength: nat, startChar: nat, confidence: real)

  datatype Resolution = Resolution(startChar: nat, sourceText: string, reasons: seq<RejectionReason>)

  const SHORT_AMBIGUOUS_SPAN_MAX_CHARS := 24
  const OFFSET_REPAIR_FIELDS := {"metric_name", "period"}

  /** `source_text` is the non-empty slice of the chunk at the document offset `start_char`. */
  predicate IsSliceOf(chunk: Chunk, startChar: nat, sourceText: string) {
    && sourceText != [] && chunk.startChar <= startChar
    && startChar - chunk.startChar + |sourceText| <= |chunk.text|
    && chunk.text[startChar - chunk.startChar..startChar - chunk.startChar + |sourceText|] == sourceText
  }

  /** `_slice_claimed_source_text`: the claimed text, when the claim fits the chunk. */
  function SliceClaimed(payload: Payload, chunk: Chunk): (r: Option<string>)
    ensures r.Some? ==> IsSliceOf(chunk, payload.startChar, r.value)
    ensures r.None? <==>
      || payload.startChar < chunk.startChar || payload.sourceLength == 0
      || payload.startChar - chunk.startChar + payload.sourceLength > |chunk.text|
  {
    var start := payload.startChar - chunk.startChar;
    var end := start + payload.sourceLength;
    if start < 0 || end > |chunk.text| || payload.sourceLength == 0 then None else Some(chunk.text[start..end])
  }

  /** `match_starts_in_markdown_heading`: the line up to the match, left-stripped, starts with `#`. */
  predicate StartsInHeading(text: string, start: nat)
    requires start <= |text|
  {
    var line := text[LineStart(text, start)..start];
    exists i :: 0 <= i < |line| && line[i] == '#' && AllSpace(line[..i])
  }

  function LineStart(text: string, start: nat): (r: nat)
    requires start <= |text|
    ensures r <= start
  {
    if start == 0 || text[start - 1] == '\n' then start else LineStart(text, start - 1)
  }

  function BodyMatches(text: string, matches: seq<Match>): (r: seq<Match>)
    ensures forall m :: m in r ==> m in matches
  {
    if matches == [] then []
    else
      (if matches[0].start <= |text| && StartsInHeading(text, matches[0].start) then [] else [matches[0]])
      + BodyMatches(text, matches[1..])
  }

  function MatchesFrom(matches: seq<Match>, from: int): (r: seq<Match>)
    ensures forall m :: m in r ==> m in matches && m.start >= from
  {
    if matches == [] then []
    else (if matches[0].start >= from then [matches[0]] else []) + MatchesFrom(matches[1..], from)
  }

  /** `min(matches, key=start)`: the first of the earliest matches */
  function Earliest(matches: seq<Match>): (r: Match)
    requires matches != []
    ensures r in matches && forall m :: m in matches ==> r.start <= m.start
  {
    if |matches| == 1 then matches[0]
    else
      var rest := Earliest(matches[1..]);
      if matches[0].start <= rest.start then matches[0] else rest
  }

  /** `_select_header_adjacent_value_match` */
  function HeaderAdjacentMatch(payload: Payload, chunk: Chunk, matches: seq<Match>): (r: Option<Match>)
    ensures r.Some? ==> r.value in matches
  {
    var body := BodyMatches(chunk.text, matches);
    var after := MatchesFrom(body, payload.startChar - chunk.startChar);
    if payload.fieldName !in OFFSET_REPAIR_FIELDS || body == [] then None
    else if after != [] then Some(Earliest(after))
    else if |body| == 1 then Some(body[0])
    else None
  }

  function FoldText(text: string, fold: char -> char): string {
    seq(|text|, i requires 0 <= i < |text| => fold(text[i]))
  }

  /** `needle in text` */
  predicate Contains(text: string, needle: string) {
    exists i :: 0 <= i <= |text| && OccursAt(text, needle, i)
  }

  /** `_source_supports_value` */
  predicate SupportsValue(source: string, value: string, fold: char -> char) {
    || Contains(source, value)
    || (Strip(value) != [] && Contains(source, Strip(value)))
    || Contains(FoldText(Collapse(source), fold), FoldText(Collapse(value), fold))
  }

  function AmbiguousReason(source: string, count: nat): RejectionReason {
    RejectionReason(AmbiguousSourceSpan, Text(source))
  }

  function AtMatch(chunk: Chunk, m: Match): Resolution
    requires m.start <= m.end <= |chunk.text|
  {
    Resolution(chunk.startChar + m.start, chunk.text[m.start..m.end], [])
  }

  /** `resolve_source_text` */
  function ResolveSourceText(payload: Payload, chunk: Chunk, fold: char -> char): Resolution
    requires payload.value != []
  {
    ValueMatchesAreSlices(chunk.text, payload.value, fold);
    var claimed, matches := SliceClaimed(payload, chunk), FindValueMatches(chunk.text, payload.value, fold);
    var invalid := RejectionReason(InvalidSourceOffsets, Text("claim does not fit the chunk"));
    if claimed.None? then
      if |matches| == 1 then AtMatch(chunk, matches[0])
      else Resolution(chunk.startChar, Slice(chunk.text, 0, 1),
        [invalid] + if |matches| > 1 then [AmbiguousReason(payload.value, |matches|)] else [])
    else
      var source := claimed.value;
      var occurrences := ExactMatches(chunk.text, source, 0);
      var ambiguous := |occurrences| > 1 && |source| <= SHORT_AMBIGUOUS_SPAN_MAX_CHARS;
      var supports := SupportsValue(source, payload.value, fold);
      var repaired := if |matches| > 1 && !supports then HeaderAdjacentMatch(payload, chunk, matches) else None;
      if |matches| == 1 && !supports then AtMatch(chunk, matches[0])
      else if repaired.Some? then AtMatch(chunk, repaired.value)
      else
        Resolution(payload.startChar, source,
          if ambiguous then [AmbiguousReason(source, |occurrences|)]
          else if |matches| > 1 && !supports then
            [RejectionReason(InvalidSourceOffsets, Text("claim does not contain the value")), AmbiguousReason(payload.value, |matches|)]
          else [])
  }

  /** Where the resolved text comes from: a value match, the fallback character, or the claim. */
  lemma ResolutionOrigin(payload: Payload, chunk: Chunk, fold: char -> char)
    requires payload.value != []
    ensures var r, matches := ResolveSourceText(payload, chunk, fold), FindValueMatches(chunk.text, payload.value, fold);
      || (exists m :: m in matches && m.start < m.end <= |chunk.text| && r == AtMatch(chunk, m))
      || (r.startChar == chunk.startChar && r.sourceText == Slice(chunk.text, 0, 1))
      || (SliceClaimed(payload, chunk) == Some(r.sourceText) && r.startChar == payload.startChar)
  {
    hide FindValueMatches, HeaderAdjacentMatch, SupportsValue, ExactMatches, MatchesValue, SliceClaimed, AtMatch, Slice;
    ValueMatchesAreSlices(chunk.text, payload.value, fold);
  }

  /** Whatever the model claims, the resolution is a non-empty slice of the chunk at its own offset. */
  lemma ResolutionIsSlice(payload: Payload, chunk: Chunk, fold: char -> char)
    requires payload.value != [] && chunk.text != []
    ensures var r := ResolveSourceText(payload, chunk, fold); IsSliceOf(chunk, r.startChar, r.sourceText)
  {
    hide FindValueMatches, ResolveSourceText, SliceClaimed;
    ResolutionOrigin(payload, chunk, fold);
  }

  /** A claim that fits, supports the value and is long or unique enough is taken as it is; a resolution
      without reasons either is the claim or carries the value. */
  lemma ResolutionKeepsGoodClaims(payload: Payload, chunk: Chunk, fold: char -> char)
    requires payload.value != [] && chunk.text != []
    ensures var claimed, r := SliceClaimed(payload, chunk), ResolveSourceText(payload, chunk, fold);
      && (claimed.Some? && SupportsValue(claimed.value, payload.value, fold) ==>
        r.startChar == payload.startChar && r.sourceText == claimed.value)
      && (r.reasons == [] ==>
        (claimed == Some(r.sourceText) && r.startChar == payload.startChar) || MatchesValue(r.sourceText, payload.value, fold))
      && (claimed.None? && r.reasons == [] ==> |FindValueMatches(chunk.text, payload.value, fold)| == 1)
  {
    hide FindValueMatches, HeaderAdjacentMatch, SupportsValue, ExactMatches, MatchesValue;
    ValueMatchesAreSlices(chunk.text, payload.value, fold);
  }

  type Normalizer = (Payload, Resolution, Chunk) -> Option<(Payload, Resolution)>

  /** `prepare_candidate_payload`: the field normalizers run in order on a clean resolution only. */
  function Normalize(payload: Payload, resolution: Resolution, chunk: Chunk, normalizers: seq<Normalizer>): (Payload, Resolution)
    decreases |normalizers|
  {
    if normalizers == [] then (payload, resolution)
    else
      var (p, r) := normalizers[0](payload, resolution, chunk).GetOr((payload, resolution));
      Normalize(p, r, chunk, normalizers[1..])
  }

  function PreparePayload(payload: Payload, chunk: Chunk, fold: char -> char, normalizers: seq<Normalizer>): (Payload, Resolution)
    requires payload.value != []
  {
    var resolution := ResolveSourceText(payload, chunk, fold);
    if resolution.reasons != [] then (payload, resolution) else Normalize(payload, resolution, chunk, normalizers)
  }
}
