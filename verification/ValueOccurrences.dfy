/** executor/text_utils.py: which places of a text `find_value_matches` lists, said of the text alone. */
module ValueOccurrences {
  import opened Utf8
  import opened Whitespace
  import opened TextMatching

  /** The value occurs literally. */
  ghost predicate Occurs(text: string, value: string) {
    exists i :: OccursAt(text, value, i)
  }

  ghost predicate OccursUpToCase(text: string, value: string, fold: char -> char) {
    exists i :: FoldOccursAt(text, value, fold, i)
  }

  /** `a..b` begins and ends in words and has the words of the value, which has white space in it. */
  predicate SpacedAt(text: string, value: string, a: nat, b: nat) {
    && a < b <= |text| && !IsSpace(text[a]) && !IsSpace(text[b - 1]) && Words(text[a..b]) == Words(value)
    && exists k :: 0 <= k < |value| && IsSpace(value[k])
  }

  ghost predicate OccursSpaced(text: string, value: string) {
    exists a: nat, b: nat :: SpacedAt(text, value, a, b)
  }

  /** Position `i` lies in a match. */
  predicate Reaches(matches: seq<Match>, i: int) {
    exists m :: m in matches && m.start <= i < m.end
  }

  /** Matches in order, none twice. */
  predicate InOrder(matches: seq<Match>) {
    forall i, j :: 0 <= i < j < |matches| ==> matches[i].start < matches[j].start
  }

  lemma AtLengthMembers(text: string, source: string)
    ensures var r := AtLength(ExactMatches(text, source, 0), |source|);
      && InOrder(r)
      && forall m: Match :: m in r <==> OccursAt(text, source, m.start) && m.end == m.start + |source|
  {
    hide ExactMatches, OccursAt, AtLength;
    ExactMatchesAreAll(text, source, 0);
    var starts := ExactMatches(text, source, 0);
    AtLengthInOrder(starts, |source|);
    forall m: Match {
      AtLengthMember(starts, |source|, m);
    }
  }

  lemma AtLengthInOrder(starts: seq<nat>, length: nat)
    requires Increasing(starts)
    ensures InOrder(AtLength(starts, length))
  {
    hide AtLength;
  }

  lemma {:induction false} AtLengthMember(starts: seq<nat>, length: nat, m: Match)
    ensures m in AtLength(starts, length) <==> m.start in starts && m.end == m.start + length
  {
    if starts != [] {
      AtLengthMember(starts[1..], length, m);
    }
  }

  lemma NoneAtLength(text: string, source: string)
    ensures ExactMatches(text, source, 0) == [] <==> !Occurs(text, source)
    ensures AtLength(ExactMatches(text, source, 0), |source|) == [] <==> !Occurs(text, source)
  {
    hide ExactMatches, OccursAt;
    ExactMatchesAreAll(text, source, 0);
    var starts := ExactMatches(text, source, 0);
    if starts != [] {
      assert starts[0] in starts;
    }
    if Occurs(text, source) {
      var i :| OccursAt(text, source, i);
      OccursInText(text, source, i);
      assert i in starts;
    }
  }

  lemma OccursInText(text: string, source: string, i: int)
    requires OccursAt(text, source, i)
    ensures 0 <= i
  {
  }

  lemma {:induction false} CaseMatchesInOrder(text: string, source: string, fold: char -> char, from: nat)
    requires source != []
    ensures forall i, j :: 0 <= i < j < |CaseMatches(text, source, fold, from)| ==>
      CaseMatches(text, source, fold, from)[i].end <= CaseMatches(text, source, fold, from)[j].start
    ensures InOrder(CaseMatches(text, source, fold, from))
    decreases |text| - from
  {
    hide FoldOccursAt;
    if from + |source| <= |text| {
      if FoldOccursAt(text, source, fold, from) {
        CaseMatchesInOrder(text, source, fold, from + |source|);
        var rest := CaseMatches(text, source, fold, from + |source|);
        assert forall k :: 0 <= k < |rest| ==> rest[k] in rest;
      } else {
        CaseMatchesInOrder(text, source, fold, from + 1);
      }
    }
  }

  lemma NoneUpToCase(text: string, source: string, fold: char -> char)
    requires source != []
    ensures CaseMatches(text, source, fold, 0) == [] <==> !OccursUpToCase(text, source, fold)
  {
    hide CaseMatches, FoldOccursAt;
    var r := CaseMatches(text, source, fold, 0);
    if r != [] {
      assert r[0] in r;
      assert FoldOccursAt(text, source, fold, r[0].start);
    }
    if OccursUpToCase(text, source, fold) {
      var i :| FoldOccursAt(text, source, fold, i);
      FoldInText(text, source, fold, i);
      CaseMatchesAreAll(text, source, fold, 0, i);
    }
  }

  lemma FoldInText(text: string, source: string, fold: char -> char, i: int)
    requires FoldOccursAt(text, source, fold, i)
    ensures 0 <= i
  {
  }

  /** A slice between words is found, collapsed, in the collapsed text, and mapped back to itself. */
  lemma SpacedIsMapped(text: string, a: nat, b: nat) returns (p: nat)
    requires a < b <= |text| && !IsSpace(text[a]) && !IsSpace(text[b - 1])
    ensures Collapse(text[a..b]) != [] && OccursAt(Collapse(text), Collapse(text[a..b]), p)
    ensures p + |Collapse(text[a..b])| <= |Normalize(text).map_|
    ensures MappedSlice(text, |Collapse(text[a..b])|, p) == Match(a, b)
  {
    hide Words, JoinWithSpace, Collapse, Normalize, OccursAt;
    p := |Normalize(text[..a]).chars|;
    CollectedAt(text, a, b);
    NormalizeAt(text, a);
    NormalizeAt(text, b - 1);
    LastCollected(text, a, b);
  }

  lemma CollectedAt(text: string, a: nat, b: nat)
    requires a < b <= |text| && !IsSpace(text[a]) && !IsSpace(text[b - 1])
    ensures Collapse(text[a..b]) != [] && OccursAt(Collapse(text), Collapse(text[a..b]), |Normalize(text[..a]).chars|)
    ensures |Normalize(text[..a]).chars| + |Collapse(text[a..b])| <= |Normalize(text).map_|
  {
    hide Words, JoinWithSpace, Collapse, Normalize;
    var part, p, chars := text[a..b], |Normalize(text[..a]).chars|, Normalize(text).chars;
    CollapsesAsCollected(part);
    CollapseIsTrimmed(part);
    NormalizeFrom(text, a, b);
    NormalizeGrows(text, b);
    assert chars[p..p + |Collapse(part)|] == Collapse(part);
    assert chars[p + |Collapse(part)| - 1] == Collapse(part)[|Collapse(part)| - 1];
    CollectedBeforePending(text, p, |Collapse(part)|);
  }

  /** A text that ends in a word is collected as its collapse. */
  lemma CollapsesAsCollected(part: string)
    requires part != [] && !IsSpace(part[|part| - 1])
    ensures Normalize(part).chars == Collapse(part) != []
  {
    hide Words, JoinWithSpace, Collapse;
    NormalizeCollapses(part);
    CollapseEmpty(part);
  }

  lemma LastCollected(text: string, a: nat, b: nat)
    requires a < b <= |text| && !IsSpace(text[a]) && !IsSpace(text[b - 1])
    ensures |Normalize(text[..b]).chars| == |Normalize(text[..b - 1]).chars| + 1
    ensures |Normalize(text[..b]).chars| == |Normalize(text[..a]).chars| + |Collapse(text[a..b])|
  {
    hide Words, JoinWithSpace, Collapse;
    NormalizeFrom(text, a, b);
    CollapsesAsCollected(text[a..b]);
    assert text[..b][..b - 1] == text[..b - 1];
  }

  lemma CollectedBeforePending(text: string, p: nat, n: nat)
    requires 0 < n && p + n <= |Normalize(text).chars| && !IsSpace(Normalize(text).chars[p + n - 1])
    ensures p + n <= |Collapse(text)| && Collapse(text)[p..p + n] == Normalize(text).chars[p..p + n]
  {
    hide Words, JoinWithSpace, Collapse, Normalize;
    PendingSpace(text);
    assert IsSpace(' ');
  }

  /** The matches up to white space are the slices between words that have the words of the value. */
  lemma SpacedExactly(text: string, value: string, m: Match)
    ensures m in WhitespaceMatches(text, value) <==> SpacedAt(text, value, m.start, m.end)
  {
    hide Words, JoinWithSpace, Normalize, Collapse, MappedSlice, WhitespaceMatches, MapsTo;
    WordsOfCollapse(value);
    if m in WhitespaceMatches(text, value) {
      MappedIsSpaced(text, value, m);
    }
    if SpacedAt(text, value, m.start, m.end) {
      var part := text[m.start..m.end];
      WordsOfCollapse(part);
      SameWords(part, value);
      var p := SpacedIsMapped(text, m.start, m.end);
      WhitespaceMatchesAreAll(text, value);
      var n :| n in WhitespaceMatches(text, value) && MapsTo(text, p, |Collapse(value)|, n);
      OneMapped(text, p, |Collapse(value)|, n);
    }
  }

  lemma OneMapped(text: string, p: nat, n: nat, m: Match)
    requires MapsTo(text, p, n, m)
    ensures 0 < n && p + n <= |Normalize(text).map_| && m == MappedSlice(text, n, p)
  {
    hide Normalize, MappedSlice;
  }

  lemma SameWords(a: string, b: string)
    requires Words(a) == Words(b)
    ensures Collapse(a) == Collapse(b)
  {
  }

  lemma MappedIsSpaced(text: string, value: string, m: Match)
    requires m in WhitespaceMatches(text, value)
    ensures SpacedAt(text, value, m.start, m.end)
  {
    hide Words, JoinWithSpace, Normalize, Collapse, ExactMatches, MappedSlices, WhitespaceMatches, OccursAt;
    WhitespaceMatchIsMapped(text, value, m);
    var wanted := Collapse(value);
    var p: nat :| OccursAt(Collapse(text), wanted, p) && MapsTo(text, p, |wanted|, m);
    EndsAreWords(text, value, p);
    PositionOf(text, p);
    PositionOf(text, p + |wanted| - 1);
    WhitespaceMatchesAreSlices(text, value, m);
    WordsOfCollapse(value);
    WordsOfCollapse(text[m.start..m.end]);
  }

  lemma EndsAreWords(text: string, value: string, p: nat)
    requires Collapse(value) != [] && OccursAt(Collapse(text), Collapse(value), p)
    ensures p + |Collapse(value)| <= |Normalize(text).chars|
    ensures !IsSpace(Normalize(text).chars[p]) && !IsSpace(Normalize(text).chars[p + |Collapse(value)| - 1])
  {
    hide Words, JoinWithSpace, Normalize, Collapse;
    var wanted, chars := Collapse(value), Normalize(text).chars;
    PendingSpace(text);
    CollapseIsTrimmed(value);
    assert chars[p..p + |wanted|] == wanted;
    assert chars[p] == wanted[0] && chars[p + |wanted| - 1] == wanted[|wanted| - 1];
  }

  lemma WhitespaceMatchIsMapped(text: string, value: string, m: Match)
    requires m in WhitespaceMatches(text, value)
    ensures Collapse(value) != [] && HasSpace(value)
    ensures exists p: nat :: OccursAt(Collapse(text), Collapse(value), p) && MapsTo(text, p, |Collapse(value)|, m)
  {
    hide Words, JoinWithSpace, Normalize, Collapse, ExactMatches, OccursAt, MappedSlice;
    var wanted := Collapse(value);
    var indexes, matches := ExactMatches(Collapse(text), wanted, 0), WhitespaceMatches(text, value);
    ExactMatchesAreAll(Collapse(text), wanted, 0);
    OccurrencesAreMapped(text, wanted);
    var k :| 0 <= k < |matches| && matches[k] == m;
    assert indexes[k] in indexes;
    assert MapsTo(text, indexes[k], |wanted|, m);
  }

  lemma WhitespaceMatchesInOrder(text: string, value: string)
    ensures InOrder(WhitespaceMatches(text, value))
  {
    hide Words, JoinWithSpace, Normalize, Collapse, ExactMatches;
    var wanted := Collapse(value);
    if wanted != [] && HasSpace(value) {
      var indexes := ExactMatches(Collapse(text), wanted, 0);
      ExactMatchesAreAll(Collapse(text), wanted, 0);
      OccurrencesAreMapped(text, wanted);
      NormalizeMapIncreases(text);
    }
  }

  /** What is listed, each place once and in order: the literal occurrences; if there are none, those of the
      stripped value; if there are none, disjoint occurrences up to case that reach every such occurrence;
      if there are none, the places up to white space. */
  lemma MatchesExactly(text: string, value: string, fold: char -> char)
    requires value != []
    ensures var matches, stripped := FindValueMatches(text, value, fold), Strip(value);
      && InOrder(matches)
      && if Occurs(text, value) then forall m: Match :: m in matches <==> OccursAt(text, value, m.start) && m.end == m.start + |value|
         else if stripped != [] && Occurs(text, stripped) then
           forall m: Match :: m in matches <==> OccursAt(text, stripped, m.start) && m.end == m.start + |stripped|
         else if OccursUpToCase(text, value, fold) then
           && (forall m :: m in matches ==> FoldOccursAt(text, value, fold, m.start) && m.end == m.start + |value|)
           && (forall i, j :: 0 <= i < j < |matches| ==> matches[i].end <= matches[j].start)
           && (forall i :: FoldOccursAt(text, value, fold, i) ==> Reaches(matches, i))
         else forall m: Match :: m in matches <==> SpacedAt(text, value, m.start, m.end)
  {
    hide ExactMatches, CaseMatches, WhitespaceMatches, AtLength, Occurs, OccursUpToCase, OccursAt, FoldOccursAt, SpacedAt, Strip,
      Reaches, InOrder;
    NoneAtLength(text, value);
    NoneAtLength(text, Strip(value));
    NoneUpToCase(text, value, fold);
    AtLengthMembers(text, value);
    AtLengthMembers(text, Strip(value));
    CaseMatchesInOrder(text, value, fold, 0);
    WhitespaceMatchesInOrder(text, value);
    forall m: Match ensures m in WhitespaceMatches(text, value) <==> SpacedAt(text, value, m.start, m.end) {
      SpacedExactly(text, value, m);
    }
    CaseMatchesReach(text, value, fold);
  }

  lemma CaseMatchesReach(text: string, value: string, fold: char -> char)
    requires value != []
    ensures forall i :: FoldOccursAt(text, value, fold, i) ==> Reaches(CaseMatches(text, value, fold, 0), i)
  {
    hide CaseMatches, FoldOccursAt;
    forall i | FoldOccursAt(text, value, fold, i) ensures Reaches(CaseMatches(text, value, fold, 0), i) {
      FoldInText(text, value, fold, i);
      CaseMatchesAreAll(text, value, fold, 0, i);
    }
  }

  /** The value occurs nowhere in the text, in none of the four ways. */
  ghost predicate OccursNowhere(text: string, value: string, fold: char -> char) {
    && !Occurs(text, value) && !(Strip(value) != [] && Occurs(text, Strip(value)))
    && !OccursUpToCase(text, value, fold) && !OccursSpaced(text, value)
  }

  /** In the first of the four ways in which the value occurs, it occurs at two different places; up to
      case, at two places that do not overlap. */
  ghost predicate OccursTwice(text: string, value: string, fold: char -> char) {
    if Occurs(text, value) then exists i, j :: i < j && OccursAt(text, value, i) && OccursAt(text, value, j)
    else if Strip(value) != [] && Occurs(text, Strip(value)) then
      exists i, j :: i < j && OccursAt(text, Strip(value), i) && OccursAt(text, Strip(value), j)
    else if OccursUpToCase(text, value, fold) then
      exists i, j :: i + |value| <= j && FoldOccursAt(text, value, fold, i) && FoldOccursAt(text, value, fold, j)
    else exists a: nat, b: nat, c: nat, d: nat :: (a, b) != (c, d) && SpacedAt(text, value, a, b) && SpacedAt(text, value, c, d)
  }

  lemma TwoMembers<T>(s: seq<T>)
    ensures |s| >= 2 && s[0] != s[1] ==> exists x, y :: x in s && y in s && x != y
    ensures (exists x, y :: x in s && y in s && x != y) ==> |s| >= 2
    ensures s == [] <==> forall x :: x !in s
  {
    if |s| >= 2 {
      assert s[0] in s && s[1] in s;
    }
    if s != [] {
      assert s[0] in s;
    }
  }

  /** How many matches there are: none exactly when the value occurs nowhere, two or more exactly when it
      occurs at two places. */
  lemma MatchCountExactly(text: string, value: string, fold: char -> char)
    requires value != []
    ensures FindValueMatches(text, value, fold) == [] <==> OccursNowhere(text, value, fold)
    ensures |FindValueMatches(text, value, fold)| >= 2 <==> OccursTwice(text, value, fold)
  {
    hide FindValueMatches, OccursAt, FoldOccursAt, SpacedAt, Strip, Occurs, OccursUpToCase, OccursSpaced;
    MatchesExactly(text, value, fold);
    var matches := FindValueMatches(text, value, fold);
    if Occurs(text, value) {
      LiteralCount(text, value, matches);
    } else if Strip(value) != [] && Occurs(text, Strip(value)) {
      LiteralCount(text, Strip(value), matches);
    } else if OccursUpToCase(text, value, fold) {
      CaseCount(text, value, fold, matches);
    } else {
      SpacedCount(text, value, matches);
    }
  }

  lemma LiteralCount(text: string, source: string, matches: seq<Match>)
    requires InOrder(matches) && forall m: Match :: m in matches <==> OccursAt(text, source, m.start) && m.end == m.start + |source|
    ensures |matches| >= 2 <==> exists i, j :: i < j && OccursAt(text, source, i) && OccursAt(text, source, j)
    ensures matches == [] <==> !Occurs(text, source)
  {
    hide OccursAt;
    TwoMembers(matches);
    if |matches| >= 2 {
      assert matches[0] in matches && matches[1] in matches;
    }
    if i, j :| i < j && OccursAt(text, source, i) && OccursAt(text, source, j) {
      OccursInText(text, source, i);
      OccursInText(text, source, j);
      assert Match(i, i + |source|) in matches && Match(j, j + |source|) in matches;
    }
    if Occurs(text, source) {
      var i :| OccursAt(text, source, i);
      OccursInText(text, source, i);
      assert Match(i, i + |source|) in matches;
    }
    if matches != [] {
      assert matches[0] in matches;
    }
  }

  lemma CaseCount(text: string, value: string, fold: char -> char, matches: seq<Match>)
    requires value != [] && OccursUpToCase(text, value, fold)
    requires forall m :: m in matches ==> FoldOccursAt(text, value, fold, m.start) && m.end == m.start + |value|
    requires forall i, j :: 0 <= i < j < |matches| ==> matches[i].end <= matches[j].start
    requires forall i :: FoldOccursAt(text, value, fold, i) ==> Reaches(matches, i)
    ensures |matches| >= 2 <==> exists i, j :: i + |value| <= j && FoldOccursAt(text, value, fold, i) && FoldOccursAt(text, value, fold, j)
    ensures matches != []
  {
    hide FoldOccursAt, Reaches;
    if |matches| >= 2 {
      assert matches[0] in matches && matches[1] in matches;
      assert FoldOccursAt(text, value, fold, matches[0].start) && FoldOccursAt(text, value, fold, matches[1].start);
    }
    if i, j :| i + |value| <= j && FoldOccursAt(text, value, fold, i) && FoldOccursAt(text, value, fold, j) {
      TwoReached(text, value, fold, matches, i, j);
    }
    SomeReached(matches, text, value, fold);
  }

  lemma SomeReached(matches: seq<Match>, text: string, value: string, fold: char -> char)
    requires OccursUpToCase(text, value, fold) && forall i :: FoldOccursAt(text, value, fold, i) ==> Reaches(matches, i)
    ensures matches != []
  {
    hide FoldOccursAt;
    var i :| FoldOccursAt(text, value, fold, i);
    assert Reaches(matches, i);
  }

  lemma TwoReached(text: string, value: string, fold: char -> char, matches: seq<Match>, i: int, j: int)
    requires forall m :: m in matches ==> m.end == m.start + |value|
    requires i + |value| <= j && Reaches(matches, i) && Reaches(matches, j)
    ensures |matches| >= 2
  {
    var m :| m in matches && m.start <= i < m.end;
    var n :| n in matches && n.start <= j < n.end;
    var k :| 0 <= k < |matches| && matches[k] == m;
    var l :| 0 <= l < |matches| && matches[l] == n;
  }

  lemma SpacedCount(text: string, value: string, matches: seq<Match>)
    requires InOrder(matches) && forall m: Match :: m in matches <==> SpacedAt(text, value, m.start, m.end)
    ensures |matches| >= 2 <==>
      exists a: nat, b: nat, c: nat, d: nat :: (a, b) != (c, d) && SpacedAt(text, value, a, b) && SpacedAt(text, value, c, d)
    ensures matches == [] <==> !OccursSpaced(text, value)
  {
    hide SpacedAt;
    TwoMembers(matches);
    if |matches| >= 2 {
      var m, n := matches[0], matches[1];
      assert m in matches && n in matches;
      assert (m.start, m.end) != (n.start, n.end) && SpacedAt(text, value, m.start, m.end) && SpacedAt(text, value, n.start, n.end);
    }
    if a: nat, b: nat, c: nat, d: nat :| (a, b) != (c, d) && SpacedAt(text, value, a, b) && SpacedAt(text, value, c, d) {
      assert Match(a, b) in matches && Match(c, d) in matches;
    }
    if a: nat, b: nat :| SpacedAt(text, value, a, b) {
      assert Match(a, b) in matches;
    }
    if matches != [] {
      assert matches[0] in matches;
    }
  }

  /** `a..b` is a place of the value, in the first of the four ways in which it occurs. */
  ghost predicate IsPlace(text: string, value: string, fold: char -> char, a: nat, b: nat) {
    if Occurs(text, value) then OccursAt(text, value, a) && b == a + |value|
    else if Strip(value) != [] && Occurs(text, Strip(value)) then OccursAt(text, Strip(value), a) && b == a + |Strip(value)|
    else if OccursUpToCase(text, value, fold) then FoldOccursAt(text, value, fold, a) && b == a + |value|
    else SpacedAt(text, value, a, b)
  }

  lemma MatchesArePlaces(text: string, value: string, fold: char -> char)
    requires value != []
    ensures forall m :: m in FindValueMatches(text, value, fold) ==> m.start < m.end <= |text| && IsPlace(text, value, fold, m.start, m.end)
  {
    hide FindValueMatches, OccursAt, FoldOccursAt, SpacedAt, Strip, Occurs, OccursUpToCase, MatchesValue;
    MatchesExactly(text, value, fold);
    ValueMatchesAreSlices(text, value, fold);
  }
}
