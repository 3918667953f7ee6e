/** executor/text_utils.py: finding a value in a chunk exactly, ignoring case, or up to white space. */
module TextMatching {
  import opened Utf8
  import opened Whitespace

  datatype Match = Match(start: nat, end: nat)

  predicate OccursAt(text: string, source: string, i: int) {
    0 <= i <= |text| - |source| && text[i..i + |source|] == source
  }

  /** `text.find(source, from)` */
  function Find(text: string, source: string, from: nat): (r: int)
    ensures r == -1 || (from <= r <= |text| - |source| && OccursAt(text, source, r))
    ensures forall i :: from <= i && (r == -1 || i < r) ==> !OccursAt(text, source, i)
    decreases |text| + 1 - from
  {
    if from > |text| then -1
    else if OccursAt(text, source, from) then from
    else Find(text, source, from + 1)
  }

  predicate Increasing(s: seq<nat>) {
    forall i, j :: 0 <= i < j < |s| ==> s[i] < s[j]
  }

  /** The occurrences of `source` from `from` on, each search starting one past the last find. */
  function ExactMatches(text: string, source: string, from: nat): seq<nat>
    decreases |text| + 1 - from
  {
    var index := Find(text, source, from);
    if index < 0 then [] else [index] + ExactMatches(text, source, index + 1)
  }

  /** All occurrences are listed, in order, overlapping ones included. */
  lemma {:induction false} ExactMatchesAreAll(text: string, source: string, from: nat)
    ensures Increasing(ExactMatches(text, source, from))
    ensures forall i :: i in ExactMatches(text, source, from) <==> from <= i && OccursAt(text, source, i)
    decreases |text| + 1 - from
  {
    hide OccursAt, Find;
    var index := Find(text, source, from);
    if index >= 0 {
      ExactMatchesAreAll(text, source, index + 1);
      var rest := ExactMatches(text, source, index + 1);
      assert forall k :: 0 <= k < |rest| ==> rest[k] in rest;
    }
  }

  /** `find_exact_matches` */
  method FindExactMatches(text: string, source: string) returns (matches: seq<nat>)
    ensures matches == ExactMatches(text, source, 0)
  {
    matches := [];
    var cursor := 0;
    while cursor + |source| <= |text|
      invariant matches + ExactMatches(text, source, cursor) == ExactMatches(text, source, 0)
      decreases |text| - cursor
    {
      var index := Find(text, source, cursor);
      if index < 0 {
        break;
      }
      assert matches + ExactMatches(text, source, cursor) == (matches + [index]) + ExactMatches(text, source, index + 1);
      matches := matches + [index];
      cursor := index + 1;
    }
    assert ExactMatches(text, source, cursor) == [];
  }

  /** What `normalize_whitespace_with_mapping` has collected after reading `text`. */
  datatype Normal = Normal(chars: string, map_: seq<nat>, inSpace: bool)

  function Normalize(text: string): (r: Normal)
    ensures |r.chars| == |r.map_|
    ensures forall k :: 0 <= k < |r.map_| ==> r.map_[k] < |text|
  {
    if text == [] then Normal([], [], false)
    else
      var last := |text| - 1;
      var before := Normalize(text[..last]);
      if IsSpace(text[last]) then
        if before.chars != [] && !before.inSpace then Normal(before.chars + [' '], before.map_ + [last], true)
        else before.(inSpace := true)
      else Normal(before.chars + [text[last]], before.map_ + [last], false)
  }

  /** The collected text is the collapsed text, with a space pending after it inside white space. */
  lemma {:induction false} NormalizeCollapses(text: string)
    ensures Normalize(text).chars == Collapse(text) + (if Normalize(text).inSpace && Collapse(text) != [] then [' '] else [])
    ensures text != [] ==> (Normalize(text).inSpace <==> !EndsInWord(text))
    ensures text == [] ==> !Normalize(text).inSpace
  {
    if text != [] {
      var front, c := text[..|text| - 1], text[|text| - 1];
      assert text == front + [c];
      NormalizeCollapses(front);
      CollapseSnoc(front, c);
      CollapseEmpty(front);
      if front == [] {
        assert Words(front) == [];
      }
    }
  }

  lemma {:induction false} NormalizeMapIncreases(text: string)
    ensures Increasing(Normalize(text).map_)
  {
    if text != [] {
      NormalizeMapIncreases(text[..|text| - 1]);
    }
  }

  /** Reading on only appends. */
  lemma {:induction false} NormalizeGrows(text: string, e: nat)
    requires e <= |text|
    ensures Normalize(text[..e]).chars <= Normalize(text).chars && Normalize(text[..e]).map_ <= Normalize(text).map_
    decreases |text|
  {
    if e == |text| {
      assert text[..e] == text;
    } else {
      var front := text[..|text| - 1];
      NormalizeGrows(front, e);
      assert front[..e] == text[..e];
    }
  }

  /** Each collected character is the one it maps to, or a space for a space. */
  predicate MapsFaithfully(text: string, chars: string, map_: seq<nat>) {
    |chars| == |map_| && forall k :: 0 <= k < |map_| ==> MapsCharacter(text, chars, map_, k)
  }

  predicate MapsCharacter(text: string, chars: string, map_: seq<nat>, k: nat)
    requires k < |chars| && k < |map_|
  {
    && map_[k] < |text|
    && (if IsSpace(text[map_[k]]) then chars[k] == ' ' else chars[k] == text[map_[k]])
  }

  lemma {:induction false} NormalizeMapsFaithfully(text: string)
    ensures MapsFaithfully(text, Normalize(text).chars, Normalize(text).map_)
  {
    if text != [] {
      var front := text[..|text| - 1];
      NormalizeMapsFaithfully(front);
      var before, after := Normalize(front), Normalize(text);
      forall k | 0 <= k < |after.map_| ensures MapsCharacter(text, after.chars, after.map_, k) {
        assert k < |before.map_| ==> MapsCharacter(front, before.chars, before.map_, k);
      }
    }
  }

  /** Normalizing from a word character on gives what normalizing the whole text appended from there. */
  lemma {:induction false} NormalizeFrom(text: string, s: nat, n: nat)
    requires s < n <= |text| && !IsSpace(text[s])
    ensures Normalize(text[..n]).chars == Normalize(text[..s]).chars + Normalize(text[s..n]).chars
    ensures Normalize(text[..n]).inSpace == Normalize(text[s..n]).inSpace
    ensures Normalize(text[s..n]).chars != []
    decreases n
  {
    assert text[..n][..n - 1] == text[..n - 1] && text[s..n][..n - s - 1] == text[s..n - 1];
    assert text[..n][n - 1] == text[n - 1] == text[s..n][n - s - 1];
    if n > s + 1 {
      NormalizeFrom(text, s, n - 1);
    } else {
      assert text[s..n - 1] == [];
    }
  }

  /** A word character is collected at the position after everything collected before it. */
  lemma NormalizeAt(text: string, s: nat)
    requires s < |text| && !IsSpace(text[s])
    ensures var k := |Normalize(text[..s]).chars|; k < |Normalize(text).map_| && Normalize(text).map_[k] == s
    ensures Normalize(text[..s + 1]).map_ == Normalize(text[..s]).map_ + [s]
  {
    assert text[..s + 1][..s] == text[..s];
    NormalizeGrows(text, s + 1);
  }

  /** Where the collected characters `i` to `j` start and end with word characters, the source slice
      they map to collapses to them. */
  lemma SliceCollapses(text: string, i: nat, j: nat)
    requires i <= j < |Normalize(text).chars|
    requires !IsSpace(Normalize(text).chars[i]) && !IsSpace(Normalize(text).chars[j])
    ensures Normalize(text).map_[i] <= Normalize(text).map_[j] < |text|
    ensures Collapse(text[Normalize(text).map_[i]..Normalize(text).map_[j] + 1]) == Normalize(text).chars[i..j + 1]
  {
    hide Words, JoinWithSpace, Collapse, Normalize, MapsFaithfully;
    var s, e := Normalize(text).map_[i], Normalize(text).map_[j] + 1;
    NormalizeMapIncreases(text);
    PositionOf(text, i);
    PositionOf(text, j);
    NormalizeFrom(text, s, e);
    NormalizeGrows(text, e);
    NormalizeGrows(text, s);
    NormalizeCollapses(text[s..e]);
  }

  lemma PositionOf(text: string, i: nat)
    requires i < |Normalize(text).map_| && !IsSpace(Normalize(text).chars[i])
    ensures var s := Normalize(text).map_[i];
      s < |text| && !IsSpace(text[s]) && |Normalize(text[..s]).chars| == i && |Normalize(text[..s + 1]).chars| == i + 1
  {
    var s := Normalize(text).map_[i];
    NormalizeMapsFaithfully(text);
    NormalizeMapIncreases(text);
    assert MapsCharacter(text, Normalize(text).chars, Normalize(text).map_, i);
    NormalizeAt(text, s);
    var k := |Normalize(text[..s]).chars|;
    assert Normalize(text).map_[k] == s;
  }

  /** `normalize_whitespace_with_mapping` */
  method NormalizeWhitespaceWithMapping(text: string) returns (normalized: string, mapping: seq<nat>)
    ensures normalized == Collapse(text)
    ensures normalized <= Normalize(text).chars && mapping <= Normalize(text).map_ && |mapping| == |normalized|
    ensures Increasing(mapping) && MapsFaithfully(text, normalized, mapping)
  {
    hide Words, JoinWithSpace, Collapse, Increasing;
    normalized, mapping := [], [];
    var inWhitespace := false;
    for index := 0 to |text|
      invariant Normal(normalized, mapping, inWhitespace) == Normalize(text[..index])
    {
      assert text[..index + 1][..index] == text[..index];
      if IsSpace(text[index]) {
        if normalized != [] && !inWhitespace {
          normalized := normalized + [' '];
          mapping := mapping + [index];
        }
        inWhitespace := true;
      } else {
        normalized := normalized + [text[index]];
        mapping := mapping + [index];
        inWhitespace := false;
      }
    }
    assert text[..|text|] == text;
    PendingSpace(text);
    if normalized != [] && normalized[|normalized| - 1] == ' ' {
      normalized := normalized[..|normalized| - 1];
      mapping := mapping[..|mapping| - 1];
    }
    TrimmedMapping(text, normalized, mapping);
  }

  /** A collected trailing space is the pending one, never part of the collapsed text. */
  lemma PendingSpace(text: string)
    ensures var chars := Normalize(text).chars;
      Collapse(text) == if chars != [] && chars[|chars| - 1] == ' ' then chars[..|chars| - 1] else chars
  {
    hide Words, JoinWithSpace, Normalize;
    NormalizeCollapses(text);
    CollapseIsTrimmed(text);
    assert IsSpace(' ');
  }

  lemma TrimmedMapping(text: string, normalized: string, mapping: seq<nat>)
    requires normalized <= Normalize(text).chars && mapping <= Normalize(text).map_ && |mapping| == |normalized|
    ensures Increasing(mapping) && MapsFaithfully(text, normalized, mapping)
  {
    hide Words, JoinWithSpace;
    NormalizeMapIncreases(text);
    NormalizeMapsFaithfully(text);
    forall k | 0 <= k < |mapping| ensures MapsCharacter(text, normalized, mapping, k) {
      assert MapsCharacter(text, Normalize(text).chars, Normalize(text).map_, k);
    }
  }

  predicate HasSpace(text: string) {
    exists i :: 0 <= i < |text| && IsSpace(text[i])
  }

  /** The source slice that the collapsed occurrence at `index` maps back to. */
  function MappedSlice(text: string, length: nat, index: nat): Match
    requires 0 < length && index + length <= |Normalize(text).map_|
  {
    Match(Normalize(text).map_[index], Normalize(text).map_[index + length - 1] + 1)
  }

  function MappedSlices(text: string, length: nat, indexes: seq<nat>): (r: seq<Match>)
    requires 0 < length && forall k :: 0 <= k < |indexes| ==> indexes[k] + length <= |Normalize(text).map_|
    ensures |r| == |indexes| && forall k :: 0 <= k < |r| ==> r[k] == MappedSlice(text, length, indexes[k])
  {
    if indexes == [] then [] else [MappedSlice(text, length, indexes[0])] + MappedSlices(text, length, indexes[1..])
  }

  lemma OccurrencesAreMapped(text: string, wanted: string)
    ensures forall k :: 0 <= k < |ExactMatches(Collapse(text), wanted, 0)| ==>
      ExactMatches(Collapse(text), wanted, 0)[k] + |wanted| <= |Normalize(text).map_|
  {
    hide Words, JoinWithSpace, Collapse, Normalize, ExactMatches;
    var indexes := ExactMatches(Collapse(text), wanted, 0);
    ExactMatchesAreAll(Collapse(text), wanted, 0);
    PendingSpace(text);
    assert forall k :: 0 <= k < |indexes| ==> indexes[k] in indexes;
  }

  /** The matches up to white space: the slices under every occurrence of the collapsed source in the collapsed text. */
  function WhitespaceMatches(text: string, source: string): seq<Match> {
    var wanted := Collapse(source);
    if wanted == [] || !HasSpace(source) then []
    else
      OccurrencesAreMapped(text, wanted);
      MappedSlices(text, |wanted|, ExactMatches(Collapse(text), wanted, 0))
  }

  /** Every listed slice collapses to the collapsed source, and every occurrence is listed. */
  lemma WhitespaceMatchesAreAll(text: string, source: string)
    requires Collapse(source) != [] && HasSpace(source)
    ensures forall m :: m in WhitespaceMatches(text, source) ==>
      m.start < m.end <= |text| && Collapse(text[m.start..m.end]) == Collapse(source)
    ensures forall i :: OccursAt(Collapse(text), Collapse(source), i) ==>
      exists m :: m in WhitespaceMatches(text, source) && MapsTo(text, i, |Collapse(source)|, m)
  {
    hide Words, JoinWithSpace, Collapse, Normalize, MappedSlice;
    var wanted := Collapse(source);
    var indexes, matches := ExactMatches(Collapse(text), wanted, 0), WhitespaceMatches(text, source);
    ExactMatchesAreAll(Collapse(text), wanted, 0);
    PendingSpace(text);
    forall m | m in matches ensures m.start < m.end <= |text| && Collapse(text[m.start..m.end]) == wanted {
      var k :| 0 <= k < |matches| && matches[k] == m;
      assert indexes[k] in indexes;
      MatchIsSound(text, source, indexes[k]);
    }
    forall i | OccursAt(Collapse(text), wanted, i) ensures exists m :: m in matches && MapsTo(text, i, |wanted|, m) {
      assert i in indexes;
      var k :| 0 <= k < |indexes| && indexes[k] == i;
      assert matches[k] in matches;
      MatchIsSound(text, source, i);
    }
  }

  predicate MapsTo(text: string, index: int, length: nat, m: Match) {
    0 <= index && 0 < length && index + length <= |Normalize(text).map_| && m == MappedSlice(text, length, index)
  }

  /** The occurrence at `index` starts and ends with word characters, so its slice collapses to it. */
  lemma MatchIsSound(text: string, source: string, index: nat)
    requires Collapse(source) != [] && OccursAt(Collapse(text), Collapse(source), index)
    ensures index + |Collapse(source)| <= |Normalize(text).map_|
    ensures var m := MappedSlice(text, |Collapse(source)|, index);
      m.start < m.end <= |text| && Collapse(text[m.start..m.end]) == Collapse(source)
  {
    hide Words, JoinWithSpace, Collapse, Normalize;
    var wanted, chars := Collapse(source), Normalize(text).chars;
    var last := index + |wanted| - 1;
    PendingSpace(text);
    CollapseIsTrimmed(source);
    assert chars[index..last + 1] == wanted;
    assert chars[index] == wanted[0] && chars[last] == wanted[|wanted| - 1];
    SliceCollapses(text, index, last);
  }

  /** `find_whitespace_normalized_matches` */
  method FindWhitespaceNormalizedMatches(text: string, source: string) returns (matches: seq<Match>)
    ensures matches == WhitespaceMatches(text, source)
  {
    hide *;
    matches := [];
    var wanted := Collapse(source);
    if wanted == [] || !HasSpace(source) {
      NoWhitespaceMatches(text, source);
      return;
    }
    var normalized, mapping := NormalizeWhitespaceWithMapping(text);
    ghost var all := ExactMatches(normalized, wanted, 0);
    ghost var slices := WhitespaceMatches(text, source);
    var cursor := 0;
    MappedEnds(text, source, normalized, mapping, 0);
    while cursor + |wanted| <= |normalized|
      invariant |matches| <= |all| && all[|matches|..] == ExactMatches(normalized, wanted, cursor)
      invariant matches <= slices
      decreases |normalized| - cursor
    {
      var index := Find(normalized, wanted, cursor);
      NextExactMatch(normalized, wanted, cursor);
      if index < 0 {
        break;
      }
      assert all[|matches|] == index && all[|matches| + 1..] == all[|matches|..][1..];
      MappedEnds(text, source, normalized, mapping, |matches|);
      matches := matches + [Match(mapping[index], mapping[index + |wanted| - 1] + 1)];
      cursor := index + 1;
    }
    NextExactMatch(normalized, wanted, cursor);
  }

  lemma NoWhitespaceMatches(text: string, source: string)
    requires Collapse(source) == [] || !HasSpace(source)
    ensures WhitespaceMatches(text, source) == []
  {
  }

  lemma NextExactMatch(text: string, source: string, from: nat)
    ensures from + |source| > |text| ==> ExactMatches(text, source, from) == []
    ensures Find(text, source, from) < 0 ==> ExactMatches(text, source, from) == []
    ensures Find(text, source, from) >= 0 ==>
      && from <= Find(text, source, from) && Find(text, source, from) + |source| <= |text|
      && ExactMatches(text, source, from) == [Find(text, source, from)] + ExactMatches(text, source, Find(text, source, from) + 1)
  {
  }

  /** The number of listed slices, and the ends of the `done`-th. */
  lemma MappedEnds(text: string, source: string, normalized: string, mapping: seq<nat>, done: nat)
    requires Collapse(source) != [] && HasSpace(source) && normalized == Collapse(text)
    requires mapping <= Normalize(text).map_ && |mapping| == |normalized|
    ensures |WhitespaceMatches(text, source)| == |ExactMatches(normalized, Collapse(source), 0)|
    ensures done < |WhitespaceMatches(text, source)| ==>
      var index := ExactMatches(normalized, Collapse(source), 0)[done];
      && index + |Collapse(source)| <= |mapping|
      && WhitespaceMatches(text, source)[done] == Match(mapping[index], mapping[index + |Collapse(source)| - 1] + 1)
  {
    hide Words, JoinWithSpace, Collapse, Normalize, ExactMatches;
    var wanted := Collapse(source);
    var indexes := ExactMatches(normalized, wanted, 0);
    ExactMatchesAreAll(normalized, wanted, 0);
    OccurrencesAreMapped(text, wanted);
    if done < |indexes| {
      assert indexes[done] in indexes;
    }
  }

  /** Equality of texts under a per-character case folding. */
  predicate FoldEqual(a: string, b: string, fold: char -> char) {
    |a| == |b| && forall i :: 0 <= i < |a| ==> fold(a[i]) == fold(b[i])
  }

  predicate FoldOccursAt(text: string, source: string, fold: char -> char, i: int) {
    0 <= i <= |text| - |source| && FoldEqual(text[i..i + |source|], source, fold)
  }

  /** `re.finditer` on the escaped source, ignoring case: leftmost matches that do not overlap. */
  function CaseMatches(text: string, source: string, fold: char -> char, from: nat): (r: seq<Match>)
    requires source != []
    ensures forall m :: m in r ==> from <= m.start && m.end == m.start + |source| <= |text| && FoldOccursAt(text, source, fold, m.start)
    decreases |text| - from
  {
    if from + |source| > |text| then []
    else if FoldOccursAt(text, source, fold, from) then
      [Match(from, from + |source|)] + CaseMatches(text, source, fold, from + |source|)
    else CaseMatches(text, source, fold, from + 1)
  }

  /** Every occurrence up to case starts inside a listed match. */
  lemma {:induction false} CaseMatchesAreAll(text: string, source: string, fold: char -> char, from: nat, i: nat)
    requires source != [] && from <= i && FoldOccursAt(text, source, fold, i)
    ensures exists m :: m in CaseMatches(text, source, fold, from) && m.start <= i < m.end
    decreases |text| - from
  {
    hide FoldEqual;
    if FoldOccursAt(text, source, fold, from) {
      if i < from + |source| {
        assert Match(from, from + |source|) in CaseMatches(text, source, fold, from);
      } else {
        CaseMatchesAreAll(text, source, fold, from + |source|, i);
      }
    } else {
      CaseMatchesAreAll(text, source, fold, from + 1, i);
    }
  }

  function AtLength(starts: seq<nat>, length: nat): (r: seq<Match>)
    ensures |r| == |starts| && forall k :: 0 <= k < |r| ==> r[k] == Match(starts[k], starts[k] + length)
  {
    if starts == [] then [] else [Match(starts[0], starts[0] + length)] + AtLength(starts[1..], length)
  }

  /** `find_value_matches` */
  function FindValueMatches(text: string, value: string, fold: char -> char): seq<Match> {
    var exact := ExactMatches(text, value, 0);
    var stripped := Strip(value);
    var strippedMatches := if stripped != [] && stripped != value then ExactMatches(text, stripped, 0) else [];
    var caseMatches := if value == [] then [] else CaseMatches(text, value, fold, 0);
    if exact != [] then AtLength(exact, |value|)
    else if strippedMatches != [] then AtLength(strippedMatches, |stripped|)
    else if caseMatches != [] then caseMatches
    else WhitespaceMatches(text, value)
  }

  /** The matched text is the value: literally, stripped, up to case, or up to white space. */
  predicate MatchesValue(matched: string, value: string, fold: char -> char) {
    matched == value || matched == Strip(value) || FoldEqual(matched, value, fold) || Collapse(matched) == Collapse(value)
  }

  /** Every value match is a non-empty slice of the text that carries the value. */
  lemma ValueMatchesAreSlices(text: string, value: string, fold: char -> char)
    requires value != []
    ensures forall m :: m in FindValueMatches(text, value, fold) ==>
      m.start < m.end <= |text| && MatchesValue(text[m.start..m.end], value, fold)
  {
    hide *;
    var exact, stripped := ExactMatches(text, value, 0), Strip(value);
    forall m | m in FindValueMatches(text, value, fold)
      ensures m.start < m.end <= |text| && MatchesValue(text[m.start..m.end], value, fold)
    {
      FromWhichList(text, value, fold, m);
      if m in AtLength(exact, |value|) {
        ListedExactly(text, value, m);
      } else if stripped != [] && m in AtLength(ExactMatches(text, stripped, 0), |stripped|) {
        ListedExactly(text, stripped, m);
      } else if m in CaseMatches(text, value, fold, 0) {
        ListedUpToCase(text, value, fold, m);
      } else {
        WhitespaceMatchesAreSlices(text, value, m);
      }
      CarriesValue(text, value, fold, m);
    }
  }

  lemma FromWhichList(text: string, value: string, fold: char -> char, m: Match)
    requires value != [] && m in FindValueMatches(text, value, fold)
    ensures
      || m in AtLength(ExactMatches(text, value, 0), |value|)
      || (Strip(value) != [] && m in AtLength(ExactMatches(text, Strip(value), 0), |Strip(value)|))
      || m in CaseMatches(text, value, fold, 0)
      || m in WhitespaceMatches(text, value)
  {
    hide ExactMatches, CaseMatches, WhitespaceMatches, Strip, AtLength;
  }

  lemma CarriesValue(text: string, value: string, fold: char -> char, m: Match)
    requires m.start < m.end <= |text|
    requires text[m.start..m.end] == value || text[m.start..m.end] == Strip(value)
      || FoldEqual(text[m.start..m.end], value, fold) || Collapse(text[m.start..m.end]) == Collapse(value)
    ensures MatchesValue(text[m.start..m.end], value, fold)
  {
  }

  lemma ListedUpToCase(text: string, value: string, fold: char -> char, m: Match)
    requires value != [] && m in CaseMatches(text, value, fold, 0)
    ensures m.start < m.end <= |text| && FoldEqual(text[m.start..m.end], value, fold)
  {
    hide CaseMatches;
    assert FoldOccursAt(text, value, fold, m.start);
  }

  lemma WhitespaceMatchesAreSlices(text: string, value: string, m: Match)
    requires m in WhitespaceMatches(text, value)
    ensures m.start < m.end <= |text| && Collapse(text[m.start..m.end]) == Collapse(value)
  {
    hide Words, JoinWithSpace, Collapse, Normalize, MappedSlices, ExactMatches;
    WhitespaceMatchesAreAll(text, value);
  }

  lemma ListedExactly(text: string, source: string, m: Match)
    requires m in AtLength(ExactMatches(text, source, 0), |source|)
    ensures m.end == m.start + |source| <= |text| && text[m.start..m.end] == source
  {
    hide ExactMatches;
    ExactMatchesAreAll(text, source, 0);
    var starts := ExactMatches(text, source, 0);
    assert forall k :: 0 <= k < |starts| ==> starts[k] in starts;
  }
}
