/** executor/source_resolution.py: what a claim and a value resolve to, read off the chunk. */
module ResolutionRules {
  import opened Utf8
  import opened Wrappers
  import opened Contracts
  import opened Whitespace
  import opened TextMatching
  import opened ValueOccurrences
  import opened SourceResolution

  /** The collapsed value occurs in the collapsed text up to case. */
  ghost predicate SupportsUpToWords(source: string, value: string, fold: char -> char) {
    exists i :: FoldOccursAt(Collapse(source), Collapse(value), fold, i)
  }

  lemma FoldedOccursAt(text: string, value: string, fold: char -> char, i: int)
    ensures OccursAt(FoldText(text, fold), FoldText(value, fold), i) <==> FoldOccursAt(text, value, fold, i)
  {
    if 0 <= i <= |text| - |value| {
      var part, folded := text[i..i + |value|], FoldText(text, fold)[i..i + |value|];
      assert forall k :: 0 <= k < |value| ==> folded[k] == fold(part[k]);
      assert forall k :: 0 <= k < |value| ==> FoldText(value, fold)[k] == fold(value[k]);
    }
  }

  /** A slice that begins and ends in words supports its own words. */
  lemma SliceSupports(source: string, a: nat, b: nat, value: string, fold: char -> char)
    requires a < b <= |source| && !IsSpace(source[a]) && !IsSpace(source[b - 1]) && Words(source[a..b]) == Words(value)
    ensures SupportsUpToWords(source, value, fold)
  {
    hide Words, TextMatching.Normalize, JoinWithSpace;
    CollectedAt(source, a, b);
    SameWords(source[a..b], value);
    assert FoldOccursAt(Collapse(source), Collapse(value), fold, |TextMatching.Normalize(source[..a]).chars|);
  }

  lemma BlankIsSupported(source: string, value: string, fold: char -> char)
    requires Strip(value) == []
    ensures SupportsUpToWords(source, value, fold)
  {
    hide Words, JoinWithSpace, Collapse;
    CollapseEmpty(value);
    assert FoldOccursAt(Collapse(source), Collapse(value), fold, 0);
  }

  /** Where the stripped value occurs, it is supported. */
  lemma StrippedSupports(source: string, value: string, fold: char -> char, i: int)
    requires Strip(value) != [] && OccursAt(source, Strip(value), i)
    ensures SupportsUpToWords(source, value, fold)
  {
    hide Words, Strip;
    WordsOfStrip(value);
    var w := Strip(value);
    assert source[i] == source[i..i + |w|][0] == w[0] && source[i + |w| - 1] == source[i..i + |w|][|w| - 1] == w[|w| - 1];
    StripEnds(value);
    SliceSupports(source, i, i + |w|, value, fold);
  }

  lemma StripEnds(value: string)
    requires Strip(value) != []
    ensures !IsSpace(Strip(value)[0]) && !IsSpace(Strip(value)[|Strip(value)| - 1])
  {
  }

  /** A literal occurrence holds one of the stripped value. */
  lemma LiteralHoldsStripped(source: string, value: string, i: int) returns (k: int)
    requires OccursAt(source, value, i)
    ensures OccursAt(source, Strip(value), k)
  {
    hide Strip;
    StripTrims(value);
    var a: nat, b: nat :| a <= b <= |value| && IsTrimmedAt(value, Strip(value), a, b);
    k := i + a;
    SliceOfSlice(source, i, |value|, a, b);
  }

  lemma SliceOfSlice(text: string, i: nat, n: nat, a: nat, b: nat)
    requires i + n <= |text| && a <= b <= n
    ensures text[i..i + n][a..b] == text[i + a..i + b]
  {
    var outer := text[i..i + n];
    assert forall k :: 0 <= k < b - a ==> outer[a..b][k] == outer[a + k] == text[i + a + k] == text[i + a..i + b][k];
    assert |outer[a..b]| == |text[i + a..i + b]|;
  }

  /** The three tests of support amount to the last of them. */
  lemma SupportsExactly(source: string, value: string, fold: char -> char)
    ensures SupportsValue(source, value, fold) <==> SupportsUpToWords(source, value, fold)
  {
    hide Collapse, Strip, OccursAt, FoldOccursAt;
    forall i ensures OccursAt(FoldText(Collapse(source), fold), FoldText(Collapse(value), fold), i)
                 <==> FoldOccursAt(Collapse(source), Collapse(value), fold, i) {
      FoldedOccursAt(Collapse(source), Collapse(value), fold, i);
    }
    ContainsExactly(FoldText(Collapse(source), fold), FoldText(Collapse(value), fold));
    if Strip(value) == [] {
      BlankIsSupported(source, value, fold);
    } else {
      if Contains(source, value) {
        var i :| 0 <= i <= |source| && OccursAt(source, value, i);
        var k := LiteralHoldsStripped(source, value, i);
        StrippedSupports(source, value, fold, k);
      }
      if Contains(source, Strip(value)) {
        var i :| 0 <= i <= |source| && OccursAt(source, Strip(value), i);
        StrippedSupports(source, value, fold, i);
      }
    }
  }

  lemma ContainsExactly(text: string, needle: string)
    ensures Contains(text, needle) <==> exists i :: OccursAt(text, needle, i)
  {
    if i :| OccursAt(text, needle, i) {
      assert 0 <= i <= |text|;
    }
  }

  /** The line that `start` lies in begins with `#`, behind white space. */
  predicate InHeadingLine(text: string, start: nat)
    requires start <= |text|
  {
    exists a: nat, i: nat :: a <= i < start && StartsLine(text, a, start) && text[i] == '#' && AllSpace(text[a..i])
  }

  predicate StartsLine(text: string, a: nat, start: nat)
    requires a <= start <= |text|
  {
    (a == 0 || text[a - 1] == '\n') && forall k :: a <= k < start ==> text[k] != '\n'
  }

  lemma {:induction false} LineStartExactly(text: string, start: nat, a: nat)
    requires a <= start <= |text|
    ensures LineStart(text, start) == a <==> StartsLine(text, a, start)
  {
    if start > 0 && text[start - 1] != '\n' && a < start {
      LineStartExactly(text, start - 1, a);
    } else if start > 0 && text[start - 1] != '\n' {
      LineStartExactly(text, start - 1, start - 1);
    }
  }

  lemma HeadingLineExactly(text: string, start: nat)
    requires start <= |text|
    ensures StartsInHeading(text, start) <==> InHeadingLine(text, start)
  {
    hide LineStart;
    var a := LineStart(text, start);
    LineStartExactly(text, start, a);
    var line := text[a..start];
    if StartsInHeading(text, start) {
      var i :| 0 <= i < |line| && line[i] == '#' && AllSpace(line[..i]);
      assert line[..i] == text[a..a + i] && text[a + i] == '#';
    }
    if InHeadingLine(text, start) {
      var b: nat, i: nat :| b <= i < start && StartsLine(text, b, start) && text[i] == '#' && AllSpace(text[b..i]);
      LineStartExactly(text, start, b);
      assert line[..i - a] == text[b..i] && line[i - a] == '#';
    }
  }

  /** The match is not in a heading line. */
  predicate InBody(text: string, m: Match) {
    m.start > |text| || !InHeadingLine(text, m.start)
  }

  lemma {:induction false} BodyMembers(text: string, matches: seq<Match>)
    ensures forall m :: m in BodyMatches(text, matches) <==> m in matches && InBody(text, m)
    ensures InOrder(matches) ==> InOrder(BodyMatches(text, matches))
  {
    hide InHeadingLine, StartsInHeading;
    if matches != [] {
      BodyMembers(text, matches[1..]);
      if matches[0].start <= |text| {
        HeadingLineExactly(text, matches[0].start);
      }
      assert matches == [matches[0]] + matches[1..];
      var rest := BodyMatches(text, matches[1..]);
      forall k | 0 <= k < |rest| && InOrder(matches) ensures matches[0].start < rest[k].start {
        assert rest[k] in rest;
      }
    }
  }

  lemma {:induction false} AfterMembers(matches: seq<Match>, from: int)
    ensures forall m :: m in MatchesFrom(matches, from) <==> m in matches && m.start >= from
  {
    if matches != [] {
      AfterMembers(matches[1..], from);
      assert matches == [matches[0]] + matches[1..];
    }
  }

  /** For a metric name or a period, the match in the body that takes the claim's place: the first from the
      claim on, or else the only one. */
  predicate RepairsHeader(payload: Payload, chunk: Chunk, matches: seq<Match>, m: Match) {
    var claimed := payload.startChar - chunk.startChar;
    && (payload.fieldName == "metric_name" || payload.fieldName == "period")
    && m in matches && InBody(chunk.text, m)
    && forall n :: n in matches && InBody(chunk.text, n) && n != m ==> n.start < claimed <= m.start || claimed <= m.start < n.start
  }

  lemma HeaderRepairExactly(payload: Payload, chunk: Chunk, matches: seq<Match>)
    requires InOrder(matches)
    ensures HeaderAdjacentMatch(payload, chunk, matches).None? <==> forall m :: m in matches ==> !RepairsHeader(payload, chunk, matches, m)
    ensures forall m :: HeaderAdjacentMatch(payload, chunk, matches) == Some(m) ==> RepairsHeader(payload, chunk, matches, m)
  {
    hide InBody, BodyMatches, MatchesFrom, Earliest, RepairsHeader, IsPick, InOrder;
    var body, claimed := BodyMatches(chunk.text, matches), payload.startChar - chunk.startChar;
    BodyMembers(chunk.text, matches);
    PickExactly(body, claimed);
    forall m ensures RepairsHeader(payload, chunk, matches, m) <==>
      (payload.fieldName == "metric_name" || payload.fieldName == "period") && IsPick(body, claimed, m)
      ensures IsPick(body, claimed, m) ==> m in body
    {
      RepairIsPick(payload, chunk, matches, m);
    }
  }

  lemma RepairIsPick(payload: Payload, chunk: Chunk, matches: seq<Match>, m: Match)
    ensures var body, claimed := BodyMatches(chunk.text, matches), payload.startChar - chunk.startChar;
      && (RepairsHeader(payload, chunk, matches, m) <==>
            (payload.fieldName == "metric_name" || payload.fieldName == "period") && IsPick(body, claimed, m))
      && (IsPick(body, claimed, m) ==> m in body)
  {
    hide InBody, BodyMatches;
    BodyMembers(chunk.text, matches);
  }

  /** The first match from the claim on, or else the only one. */
  predicate IsPick(body: seq<Match>, claimed: int, m: Match) {
    m in body && forall n :: n in body && n != m ==> n.start < claimed <= m.start || claimed <= m.start < n.start
  }

  lemma PickExactly(body: seq<Match>, claimed: int)
    requires InOrder(body)
    ensures var after := MatchesFrom(body, claimed);
      && (after != [] ==> IsPick(body, claimed, Earliest(after)))
      && (after == [] && |body| == 1 ==> IsPick(body, claimed, body[0]))
      && (after == [] && |body| != 1 ==> forall m :: !IsPick(body, claimed, m))
  {
    hide MatchesFrom, Earliest;
    var after := MatchesFrom(body, claimed);
    AfterMembers(body, claimed);
    SameStartSameMatch(body);
    if after != [] {
      assert Earliest(after) in after;
    } else if |body| > 1 {
      assert body[0] in body && body[1] in body && body[0] != body[1];
      assert forall m :: m in body ==> m !in after;
    }
  }

  lemma SameStartSameMatch(matches: seq<Match>)
    requires InOrder(matches)
    ensures forall m, n :: m in matches && n in matches && m.start == n.start ==> m == n
  {
  }

  /** The claim is a non-empty range of the chunk. */
  predicate ClaimFits(payload: Payload, chunk: Chunk) {
    && chunk.startChar <= payload.startChar && payload.sourceLength > 0
    && payload.startChar - chunk.startChar + payload.sourceLength <= |chunk.text|
  }

  function ClaimedText(payload: Payload, chunk: Chunk): string
    requires ClaimFits(payload, chunk)
  {
    chunk.text[payload.startChar - chunk.startChar..payload.startChar - chunk.startChar + payload.sourceLength]
  }

  /** The resolution is at the place `a..b` of the value. */
  ghost predicate ResolvesTo(r: Resolution, payload: Payload, chunk: Chunk, fold: char -> char, a: nat, b: nat) {
    && a < b <= |chunk.text| && IsPlace(chunk.text, payload.value, fold, a, b)
    && r == Resolution(chunk.startChar + a, chunk.text[a..b], [])
  }

  /** The codes of the reasons are these, in order. */
  predicate HasCodes(r: Resolution, codes: seq<ReasonCode>) {
    |r.reasons| == |codes| && forall k :: 0 <= k < |codes| ==> r.reasons[k].code == codes[k]
  }

  /** A claim that does not fit: the only place of the value is taken without a reason; a value that is nowhere
      or at two places leaves the first character of the chunk and says so. */
  lemma UnfittingClaim(payload: Payload, chunk: Chunk, fold: char -> char)
    requires payload.value != [] && !ClaimFits(payload, chunk)
    ensures var r := ResolveSourceText(payload, chunk, fold);
      if OccursNowhere(chunk.text, payload.value, fold) || OccursTwice(chunk.text, payload.value, fold) then
        && r.startChar == chunk.startChar && r.sourceText == Slice(chunk.text, 0, 1)
        && HasCodes(r, if OccursTwice(chunk.text, payload.value, fold) then [InvalidSourceOffsets, AmbiguousSourceSpan] else [InvalidSourceOffsets])
      else exists a: nat, b: nat :: ResolvesTo(r, payload, chunk, fold, a, b)
  {
    hide FindValueMatches, MatchesValue, SupportsValue, HeaderAdjacentMatch, OccursNowhere, OccursTwice, IsPlace, Slice, ExactMatches;
    var text, matches := chunk.text, FindValueMatches(chunk.text, payload.value, fold);
    ValueMatchesAreSlices(text, payload.value, fold);
    MatchCountExactly(text, payload.value, fold);
    MatchesArePlaces(text, payload.value, fold);
    if |matches| == 1 {
      assert matches[0] in matches;
      assert ResolvesTo(ResolveSourceText(payload, chunk, fold), payload, chunk, fold, matches[0].start, matches[0].end);
    }
  }

  /** The claimed text is short and occurs twice in the chunk. */
  ghost predicate IsShortAndRepeated(text: string, source: string) {
    |source| <= 24 && exists i, j :: i < j && OccursAt(text, source, i) && OccursAt(text, source, j)
  }

  lemma RepeatedExactly(text: string, source: string)
    ensures |ExactMatches(text, source, 0)| > 1 <==> exists i, j :: i < j && OccursAt(text, source, i) && OccursAt(text, source, j)
  {
    hide OccursAt, ExactMatches;
    AtLengthMembers(text, source);
    LiteralCount(text, source, AtLength(ExactMatches(text, source, 0), |source|));
  }

  /** A claim that fits and has the value in it, or a value that is nowhere: the claim is taken, with a reason
      exactly when it is short and repeated. */
  lemma SupportingClaim(payload: Payload, chunk: Chunk, fold: char -> char)
    requires payload.value != [] && ClaimFits(payload, chunk)
    requires SupportsUpToWords(ClaimedText(payload, chunk), payload.value, fold) || OccursNowhere(chunk.text, payload.value, fold)
    ensures var r, source := ResolveSourceText(payload, chunk, fold), ClaimedText(payload, chunk);
      && r.startChar == payload.startChar && r.sourceText == source
      && HasCodes(r, if IsShortAndRepeated(chunk.text, source) then [AmbiguousSourceSpan] else [])
  {
    hide FindValueMatches, MatchesValue, SupportsValue, HeaderAdjacentMatch, OccursNowhere, SupportsUpToWords, ExactMatches, OccursAt;
    ValueMatchesAreSlices(chunk.text, payload.value, fold);
    MatchCountExactly(chunk.text, payload.value, fold);
    SupportsExactly(ClaimedText(payload, chunk), payload.value, fold);
    RepeatedExactly(chunk.text, ClaimedText(payload, chunk));
  }

  /** A claim that fits but lacks the value, which is elsewhere: the only place of the value is taken instead, or
      the one that repairs a header; otherwise the claim is kept and refused for both, or as repeated. */
  lemma LackingClaim(payload: Payload, chunk: Chunk, fold: char -> char)
    requires payload.value != [] && ClaimFits(payload, chunk)
    requires !SupportsUpToWords(ClaimedText(payload, chunk), payload.value, fold) && !OccursNowhere(chunk.text, payload.value, fold)
    ensures var r, source, matches := ResolveSourceText(payload, chunk, fold), ClaimedText(payload, chunk), FindValueMatches(chunk.text, payload.value, fold);
      if !OccursTwice(chunk.text, payload.value, fold) then exists a: nat, b: nat :: ResolvesTo(r, payload, chunk, fold, a, b)
      else if exists m :: RepairsHeader(payload, chunk, matches, m) then
        exists m :: RepairsHeader(payload, chunk, matches, m) && ResolvesTo(r, payload, chunk, fold, m.start, m.end)
      else
        && r.startChar == payload.startChar && r.sourceText == source
        && HasCodes(r, if IsShortAndRepeated(chunk.text, source) then [AmbiguousSourceSpan] else [InvalidSourceOffsets, AmbiguousSourceSpan])
  {
    hide FindValueMatches, MatchesValue, SupportsValue, HeaderAdjacentMatch, OccursNowhere, OccursTwice, SupportsUpToWords, ExactMatches, OccursAt,
      IsPlace, RepairsHeader;
    var text, matches := chunk.text, FindValueMatches(chunk.text, payload.value, fold);
    ValueMatchesAreSlices(text, payload.value, fold);
    MatchesArePlaces(text, payload.value, fold);
    MatchCountExactly(text, payload.value, fold);
    SupportsExactly(ClaimedText(payload, chunk), payload.value, fold);
    RepeatedExactly(text, ClaimedText(payload, chunk));
    MatchesInOrder(text, payload.value, fold);
    HeaderRepairExactly(payload, chunk, matches);
    forall m | RepairsHeader(payload, chunk, matches, m) ensures m in matches {
      RepairIsMatch(payload, chunk, matches, m);
    }
    if |matches| == 1 {
      assert matches[0] in matches;
      assert ResolvesTo(ResolveSourceText(payload, chunk, fold), payload, chunk, fold, matches[0].start, matches[0].end);
    } else if HeaderAdjacentMatch(payload, chunk, matches).Some? {
      var m := HeaderAdjacentMatch(payload, chunk, matches).value;
      assert RepairsHeader(payload, chunk, matches, m) && ResolvesTo(ResolveSourceText(payload, chunk, fold), payload, chunk, fold, m.start, m.end);
    }
  }

  lemma RepairIsMatch(payload: Payload, chunk: Chunk, matches: seq<Match>, m: Match)
    requires RepairsHeader(payload, chunk, matches, m)
    ensures m in matches
  {
    hide InBody;
  }

  lemma MatchesInOrder(text: string, value: string, fold: char -> char)
    requires value != []
    ensures InOrder(FindValueMatches(text, value, fold))
  {
    hide FindValueMatches, OccursAt, FoldOccursAt, SpacedAt, Strip, Occurs, OccursUpToCase;
    MatchesExactly(text, value, fold);
  }
}
