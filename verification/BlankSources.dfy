/** When the executor cannot build a candidate: its source text, which becomes the verbatim value, is
    blank. The validation error then leaves the batch validator and the executor. */
module BlankSources {
  import opened Utf8
  import opened Wrappers
  import opened Contracts
  import opened Whitespace
  import opened TextMatching
  import opened SourceResolution
  import opened CandidateBuilding

  /** Folding a character neither makes nor removes white space. */
  ghost predicate KeepsWhite(fold: char -> char) {
    forall c :: IsWhite(fold(c)) <==> IsWhite(c)
  }

  lemma StripIsNonBlank(text: string)
    requires Strip(text) != []
    ensures NonBlank(Strip(text))
  {
    assert !IsWhite(Strip(text)[0]);
  }

  lemma CollapsedIsNonBlank(text: string)
    requires Collapse(text) != []
    ensures NonBlank(text)
  {
    CollapseEmpty(text);
    var i :| 0 <= i < |text| && !IsSpace(text[i]);
  }

  lemma FoldedIsNonBlank(matched: string, value: string, fold: char -> char)
    requires FoldEqual(matched, value, fold) && KeepsWhite(fold) && NonBlank(value)
    ensures NonBlank(matched)
  {
    var i :| 0 <= i < |value| && !IsWhite(value[i]);
    assert fold(matched[i]) == fold(value[i]);
  }

  lemma WhitespaceMatchHasWords(text: string, value: string, m: Match)
    requires m in WhitespaceMatches(text, value)
    ensures Collapse(value) != []
  {
    hide Collapse, MappedSlices, ExactMatches;
  }

  /** A match of a value that is not blank is not blank. */
  lemma MatchIsNonBlank(text: string, value: string, fold: char -> char, m: Match)
    requires NonBlank(value) && KeepsWhite(fold) && m in FindValueMatches(text, value, fold)
    ensures m.start < m.end <= |text| && NonBlank(text[m.start..m.end])
  {
    hide *;
    NonBlankIsNonEmpty(value);
    ValueMatchesAreSlices(text, value, fold);
    FromWhichList(text, value, fold, m);
    if m in AtLength(ExactMatches(text, value, 0), |value|) {
      ListedExactly(text, value, m);
    } else if Strip(value) != [] && m in AtLength(ExactMatches(text, Strip(value), 0), |Strip(value)|) {
      ListedExactly(text, Strip(value), m);
      StripIsNonBlank(value);
    } else if m in CaseMatches(text, value, fold, 0) {
      ListedUpToCase(text, value, fold, m);
      FoldedIsNonBlank(text[m.start..m.end], value, fold);
    } else {
      WhitespaceMatchHasWords(text, value, m);
      WhitespaceMatchesAreSlices(text, value, m);
      CollapsedIsNonBlank(text[m.start..m.end]);
    }
  }

  lemma NonBlankIsNonEmpty(text: string)
    requires NonBlank(text)
    ensures text != []
  {
  }

  /** The claim is taken, whether or not it supports the value. */
  predicate TakesClaim(payload: Payload, chunk: Chunk, claimed: string, matches: seq<Match>, fold: char -> char) {
    || SupportsValue(claimed, payload.value, fold)
    || (|matches| != 1 && (|matches| == 0 || HeaderAdjacentMatch(payload, chunk, matches).None?))
  }

  /** The resolved source text is blank exactly when the claim does not fit, the value has not one match
      and the chunk starts with white space, or when a blank claim is taken. */
  lemma ResolutionIsBlankExactly(payload: Payload, chunk: Chunk, fold: char -> char)
    requires NonBlank(payload.value) && KeepsWhite(fold) && chunk.text != []
    ensures var claimed, matches := SliceClaimed(payload, chunk), FindValueMatches(chunk.text, payload.value, fold);
      !NonBlank(ResolveSourceText(payload, chunk, fold).sourceText) <==>
        if claimed.None? then |matches| != 1 && IsWhite(chunk.text[0])
        else !NonBlank(claimed.value) && TakesClaim(payload, chunk, claimed.value, matches, fold)
  {
    hide FindValueMatches, HeaderAdjacentMatch, SupportsValue, ExactMatches, MatchesValue, SliceClaimed, NonBlank, KeepsWhite;
    NonBlankIsNonEmpty(payload.value);
    var claimed, matches := SliceClaimed(payload, chunk), FindValueMatches(chunk.text, payload.value, fold);
    ValueMatchesAreSlices(chunk.text, payload.value, fold);
    forall m | m in matches ensures NonBlank(chunk.text[m.start..m.end]) {
      MatchIsNonBlank(chunk.text, payload.value, fold, m);
    }
    FirstCharacter(chunk.text);
  }

  lemma FirstCharacter(text: string)
    requires text != []
    ensures NonBlank(Slice(text, 0, 1)) <==> !IsWhite(text[0])
  {
    assert Slice(text, 0, 1) == [text[0]];
  }

  /** Without a normalizer that steps in, no candidate can be built exactly when the resolved text is blank. */
  lemma ExecuteOneRaisesExactly(text: string, plan: Plan, lens: string, chunk: Chunk, payload: Payload, fold: char -> char,
                                normalizers: seq<Normalizer>, candidateId: string, callId: string)
    requires ChunkExact(text, chunk) && chunk.text != [] && ValidPayload(payload)
    requires normalizers == [] || ResolveSourceText(payload, chunk, fold).reasons != []
    ensures ExecuteOne(plan, lens, chunk, payload, fold, normalizers, candidateId, callId) == None
      <==> !NonBlank(ResolveSourceText(payload, chunk, fold).sourceText)
  {
    hide ResolveSourceText, ChunkExact, IsSliceOf, NonBlank, BuildCandidate, CandidateRejectionReasons;
    NonBlankIsNonEmpty(payload.value);
    ResolutionIsSlice(payload, chunk, fold);
    var r := ResolveSourceText(payload, chunk, fold);
    BuiltSpanIsExact(text, plan, lens, chunk, payload, r.startChar, r.sourceText, candidateId, callId);
  }

  function SpaceThenA(docId: string): Chunk {
    Chunk(ChunkId(docId, "", 0, 0, 2, 0, 1), docId, 0, " a", 0, 2, 0, 2, 0, 1,
      ChunkLayout(Mixed, TokenWindow, [], [], [], [], None, []))
  }

  /** A chunk that starts with a space, as chunks of a token window usually do, a claim of no length and a
      value that is not in the chunk: the fallback is the space, and the executor raises. */
  lemma LeadingSpaceRaises(plan: Plan, docId: string, fieldName: string, normalizers: seq<Normalizer>)
    requires NonBlank(fieldName)
    ensures ChunkExact(" a", SpaceThenA(docId)) && ValidChunk(SpaceThenA(docId))
    ensures var payload := Payload("c", fieldName, "b", 0, 0, 1.0);
      && ValidPayload(payload)
      && ExecuteOne(plan, "lens", SpaceThenA(docId), payload, c => c, normalizers, "id", "call") == None
  {
    hide ExecuteOne, FindValueMatches, ResolveSourceText;
    var payload, chunk, same: char -> char := Payload("c", fieldName, "b", 0, 0, 1.0), SpaceThenA(docId), c => c;
    assert "c"[0] == 'c' && "b"[0] == 'b';
    assert Encode(" a") == [0x20, 0x61];
    FallbackIsSpace(payload, chunk, same);
    ExecuteOneRaisesExactly(" a", plan, "lens", chunk, payload, same, normalizers, "id", "call");
  }

  lemma FallbackIsSpace(payload: Payload, chunk: Chunk, fold: char -> char)
    requires payload.value == "b" && payload.sourceLength == 0 && chunk.text == " a" && fold == (c => c)
    ensures ResolveSourceText(payload, chunk, fold).sourceText == " " && ResolveSourceText(payload, chunk, fold).reasons != []
  {
  }
}
