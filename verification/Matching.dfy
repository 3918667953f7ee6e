/** evals/scoring.py, `_match_data_points`: a greedy matcher that is optimal for two objectives at once. */
module Matching {
  import opened Utf8
  import opened Wrappers
  import opened Contracts
  import opened Whitespace
  import opened SourceResolution
  import opened BoundaryContracts
  import opened Sorting
  import opened Reconciliation

  datatype ExpectedPoint = ExpectedPoint(expectedId: string, category: string, fieldName: string, value: string,
                                         startChar: nat, endChar: nat, startByte: nat, endByte: nat, sourceText: string)

  datatype PointMatch = PointMatch(expectedId: string, dataPointId: string, exact: bool)

  /** `_normalize` */
  function NormalizeKey(text: string, fold: char -> char): string {
    FoldText(Collapse(text), fold)
  }

  /** `_match_key(e) == _actual_key(a)` */
  predicate SameKey(e: ExpectedPoint, a: DataPoint, fold: char -> char) {
    && NormalizeKey(e.category, fold) == NormalizeKey(a.category, fold)
    && NormalizeKey(e.fieldName, fold) == NormalizeKey(a.fieldName, fold)
    && NormalizeKey(e.value, fold) == NormalizeKey(a.value, fold)
  }

  /** `_exact_provenance_match` */
  predicate ExactProvenance(e: ExpectedPoint, a: DataPoint) {
    && a.span.startChar == e.startChar && a.span.endChar == e.endChar
    && a.span.startByte == e.startByte && a.span.endByte == e.endByte && a.span.text == e.sourceText
  }

  /** What may be matched in a pass. */
  predicate Relates(e: ExpectedPoint, a: DataPoint, fold: char -> char, exactOnly: bool) {
    SameKey(e, a, fold) && (exactOnly ==> ExactProvenance(e, a))
  }

  type Pair = (ExpectedPoint, DataPoint)

  /** Points of the two lists, paired off one to one within the relation. */
  ghost predicate IsMatching(expected: seq<ExpectedPoint>, actual: seq<DataPoint>, m: set<Pair>, fold: char -> char, exactOnly: bool) {
    && (forall p :: p in m ==> p.0 in expected && p.1 in actual && Relates(p.0, p.1, fold, exactOnly))
    && (forall p, q :: p in m && q in m && (p.0 == q.0 || p.1 == q.1) ==> p == q)
  }

  ghost predicate LeftUsed(m: set<Pair>, e: ExpectedPoint) {
    exists p :: p in m && p.0 == e
  }

  ghost predicate RightUsed(m: set<Pair>, a: DataPoint) {
    exists p :: p in m && p.1 == a
  }

  /** No unmatched points could still be matched. */
  ghost predicate IsMaximal(expected: seq<ExpectedPoint>, actual: seq<DataPoint>, m: set<Pair>, fold: char -> char, exactOnly: bool) {
    forall e, a :: e in expected && a in actual && Relates(e, a, fold, exactOnly) ==> LeftUsed(m, e) || RightUsed(m, a)
  }

  /** All expected points that are related to `a` are matched. */
  ghost predicate LeftFull(expected: seq<ExpectedPoint>, m: set<Pair>, a: DataPoint, fold: char -> char, exactOnly: bool) {
    forall e :: e in expected && Relates(e, a, fold, exactOnly) ==> LeftUsed(m, e)
  }

  /** The relation links whole classes with whole classes. */
  lemma RelationHasClasses(e: ExpectedPoint, a: DataPoint, e': ExpectedPoint, a': DataPoint, fold: char -> char, exactOnly: bool)
    requires Relates(e, a, fold, exactOnly) && Relates(e', a, fold, exactOnly) && Relates(e', a', fold, exactOnly)
    ensures Relates(e, a', fold, exactOnly)
  {
    hide NormalizeKey;
  }

  /** Of a class of related points, one side is fully matched. */
  lemma OneSideIsFull(expected: seq<ExpectedPoint>, actual: seq<DataPoint>, m: set<Pair>, p: Pair, fold: char -> char, exactOnly: bool)
    requires IsMaximal(expected, actual, m, fold, exactOnly)
    requires p.0 in expected && p.1 in actual && Relates(p.0, p.1, fold, exactOnly)
    ensures LeftFull(expected, m, p.1, fold, exactOnly) ==> LeftUsed(m, p.0)
    ensures !LeftFull(expected, m, p.1, fold, exactOnly) ==> RightUsed(m, p.1)
  {
    hide Relates;
    if !LeftFull(expected, m, p.1, fold, exactOnly) {
      var e :| e in expected && Relates(e, p.1, fold, exactOnly) && !LeftUsed(m, e);
    }
  }

  /** The pair of `m` that takes the place of a pair of another matching. */
  ghost function Instead(expected: seq<ExpectedPoint>, m: set<Pair>, p: Pair, fold: char -> char, exactOnly: bool): Pair {
    if LeftFull(expected, m, p.1, fold, exactOnly) then
      if LeftUsed(m, p.0) then var q: Pair :| q in m && q.0 == p.0; q else p
    else
      if RightUsed(m, p.1) then var q: Pair :| q in m && q.1 == p.1; q else p
  }

  lemma InsteadIsIn(expected: seq<ExpectedPoint>, actual: seq<DataPoint>, m: set<Pair>, p: Pair, fold: char -> char, exactOnly: bool)
    requires IsMaximal(expected, actual, m, fold, exactOnly)
    requires p.0 in expected && p.1 in actual && Relates(p.0, p.1, fold, exactOnly)
    ensures var q := Instead(expected, m, p, fold, exactOnly);
      q in m && if LeftFull(expected, m, p.1, fold, exactOnly) then q.0 == p.0 else q.1 == p.1
  {
    hide Relates, LeftFull, LeftUsed, RightUsed;
    OneSideIsFull(expected, actual, m, p, fold, exactOnly);
  }

  /** Different pairs are replaced by different pairs. */
  lemma InsteadIsInjective(expected: seq<ExpectedPoint>, actual: seq<DataPoint>, m: set<Pair>, n: set<Pair>, p: Pair, q: Pair,
                           fold: char -> char, exactOnly: bool)
    requires IsMatching(expected, actual, m, fold, exactOnly) && IsMaximal(expected, actual, m, fold, exactOnly)
    requires IsMatching(expected, actual, n, fold, exactOnly) && p in n && q in n
    requires Instead(expected, m, p, fold, exactOnly) == Instead(expected, m, q, fold, exactOnly)
    ensures p == q
  {
    hide Relates, LeftUsed, RightUsed, IsMaximal, Instead, LeftFull;
    InsteadIsIn(expected, actual, m, p, fold, exactOnly);
    InsteadIsIn(expected, actual, m, q, fold, exactOnly);
    var r := Instead(expected, m, p, fold, exactOnly);
    SameClass(p, q, r, fold, exactOnly);
    SameFullness(expected, m, p.1, q.1, p.0, fold, exactOnly);
  }

  lemma SameClass(p: Pair, q: Pair, r: Pair, fold: char -> char, exactOnly: bool)
    requires Relates(p.0, p.1, fold, exactOnly) && Relates(q.0, q.1, fold, exactOnly) && Relates(r.0, r.1, fold, exactOnly)
    requires (r.0 == p.0 || r.1 == p.1) && (r.0 == q.0 || r.1 == q.1)
    ensures Relates(p.0, q.1, fold, exactOnly)
  {
    hide NormalizeKey;
  }

  lemma SameFullness(expected: seq<ExpectedPoint>, m: set<Pair>, a: DataPoint, b: DataPoint, e: ExpectedPoint, fold: char -> char, exactOnly: bool)
    requires Relates(e, a, fold, exactOnly) && Relates(e, b, fold, exactOnly)
    ensures LeftFull(expected, m, a, fold, exactOnly) <==> LeftFull(expected, m, b, fold, exactOnly)
  {
    hide Relates, LeftUsed;
    forall x | x in expected ensures Relates(x, a, fold, exactOnly) <==> Relates(x, b, fold, exactOnly) {
      if Relates(x, a, fold, exactOnly) {
        RelationHasClasses(x, a, e, b, fold, exactOnly);
      }
      if Relates(x, b, fold, exactOnly) {
        RelationHasClasses(x, b, e, a, fold, exactOnly);
      }
    }
  }

  lemma {:induction false} InjectionCounts<T(!new), U(!new)>(n: set<T>, m: set<U>, f: T -> U)
    requires forall p :: p in n ==> f(p) in m
    requires forall p, q :: p in n && q in n && f(p) == f(q) ==> p == q
    ensures |n| <= |m|
  {
    if n != {} {
      var p :| p in n;
      InjectionCounts(n - {p}, m - {f(p)}, f);
    }
  }

  /** A maximal matching is a largest one. */
  lemma MaximalIsLargest(expected: seq<ExpectedPoint>, actual: seq<DataPoint>, m: set<Pair>, n: set<Pair>, fold: char -> char, exactOnly: bool)
    requires IsMatching(expected, actual, m, fold, exactOnly) && IsMaximal(expected, actual, m, fold, exactOnly)
    requires IsMatching(expected, actual, n, fold, exactOnly)
    ensures |n| <= |m|
  {
    hide IsMaximal, Instead, LeftFull, Relates;
    var f := (p: Pair) => Instead(expected, m, p, fold, exactOnly);
    forall p | p in n ensures f(p) in m {
      InsteadIsIn(expected, actual, m, p, fold, exactOnly);
    }
    forall p, q | p in n && q in n && f(p) == f(q) ensures p == q {
      InsteadIsInjective(expected, actual, m, n, p, q, fold, exactOnly);
    }
    InjectionCounts(n, m, f);
  }

  // The greedy passes

  /** The validators of an evaluation case (evals/models.py:60-62) and of a report (reporter/models.py:44-46)
      refuse everything else. */
  predicate UniqueIds(expected: seq<ExpectedPoint>, actual: seq<DataPoint>) {
    && (forall i, j :: 0 <= i < j < |expected| ==> expected[i].expectedId != expected[j].expectedId)
    && (forall i, j :: 0 <= i < j < |actual| ==> actual[i].dataPointId != actual[j].dataPointId)
  }

  function Pairs(pairs: seq<Pair>): set<Pair> {
    set p | p in pairs
  }

  predicate IsMatchOf(match_: PointMatch, p: Pair) {
    match_ == PointMatch(p.0.expectedId, p.1.dataPointId, ExactProvenance(p.0, p.1))
  }

  /** The matcher's variables, `pairs` being the points behind `matches`. */
  ghost predicate Tracks(expected: seq<ExpectedPoint>, actual: seq<DataPoint>, matches: seq<PointMatch>, pairs: seq<Pair>,
                         usedExpected: set<string>, usedActual: set<string>, fold: char -> char) {
    && IsMatching(expected, actual, Pairs(pairs), fold, false)
    && |matches| == |pairs| == |Pairs(pairs)|
    && (forall k :: 0 <= k < |pairs| ==> IsMatchOf(matches[k], pairs[k]))
    && usedExpected == LeftIds(pairs) && usedActual == RightIds(pairs) && |usedExpected| == |usedActual| == |pairs|
  }

  function LeftIds(pairs: seq<Pair>): set<string> {
    set p | p in pairs :: p.0.expectedId
  }

  function RightIds(pairs: seq<Pair>): set<string> {
    set p | p in pairs :: p.1.dataPointId
  }

  lemma IdsGrow(pairs: seq<Pair>, e: ExpectedPoint, a: DataPoint)
    ensures LeftIds(pairs + [(e, a)]) == LeftIds(pairs) + {e.expectedId}
    ensures RightIds(pairs + [(e, a)]) == RightIds(pairs) + {a.dataPointId}
    ensures Pairs(pairs + [(e, a)]) == Pairs(pairs) + {(e, a)}
  {
    assert forall p :: p in pairs + [(e, a)] <==> p in pairs || p == (e, a);
  }

  lemma UsedIsMatched(expected: seq<ExpectedPoint>, actual: seq<DataPoint>, matches: seq<PointMatch>, pairs: seq<Pair>,
                      usedExpected: set<string>, usedActual: set<string>, fold: char -> char)
    requires UniqueIds(expected, actual) && Tracks(expected, actual, matches, pairs, usedExpected, usedActual, fold)
    ensures forall e :: e in expected ==> (e.expectedId in usedExpected <==> LeftUsed(Pairs(pairs), e))
    ensures forall a :: a in actual ==> (a.dataPointId in usedActual <==> RightUsed(Pairs(pairs), a))
  {
    hide Relates;
    forall e | e in expected && e.expectedId in usedExpected ensures LeftUsed(Pairs(pairs), e) {
      var p: Pair :| p in pairs && p.0.expectedId == e.expectedId;
      assert p in Pairs(pairs);
      var i :| 0 <= i < |expected| && expected[i] == e;
      var j :| 0 <= j < |expected| && expected[j] == p.0;
    }
    forall a | a in actual && a.dataPointId in usedActual ensures RightUsed(Pairs(pairs), a) {
      var p: Pair :| p in pairs && p.1.dataPointId == a.dataPointId;
      assert p in Pairs(pairs);
      var i :| 0 <= i < |actual| && actual[i] == a;
      var j :| 0 <= j < |actual| && actual[j] == p.1;
    }
  }

  /** The inner loop: the first unused data point that may be matched. */
  method FirstPartner(e: ExpectedPoint, actual: seq<DataPoint>, usedActual: set<string>, fold: char -> char, exactOnly: bool) returns (r: Option<nat>)
    ensures r.Some? ==> r.value < |actual| && actual[r.value].dataPointId !in usedActual && Relates(e, actual[r.value], fold, exactOnly)
    ensures r.None? ==> forall a :: a in actual && Relates(e, a, fold, exactOnly) ==> a.dataPointId in usedActual
  {
    hide NormalizeKey, ExactProvenance;
    for k := 0 to |actual|
      invariant forall m :: 0 <= m < k && Relates(e, actual[m], fold, exactOnly) ==> actual[m].dataPointId in usedActual
    {
      var a := actual[k];
      if a.dataPointId in usedActual {
        continue;
      }
      if !SameKey(e, a, fold) {
        continue;
      }
      if exactOnly && !ExactProvenance(e, a) {
        continue;
      }
      return Some(k);
    }
    return None;
  }

  lemma PairUp(expected: seq<ExpectedPoint>, actual: seq<DataPoint>, matches: seq<PointMatch>, pairs: seq<Pair>,
               usedExpected: set<string>, usedActual: set<string>, fold: char -> char, e: ExpectedPoint, a: DataPoint)
    requires UniqueIds(expected, actual) && Tracks(expected, actual, matches, pairs, usedExpected, usedActual, fold)
    requires e in expected && a in actual && Relates(e, a, fold, false)
    requires e.expectedId !in usedExpected && a.dataPointId !in usedActual
    ensures Tracks(expected, actual, matches + [PointMatch(e.expectedId, a.dataPointId, ExactProvenance(e, a))], pairs + [(e, a)],
      usedExpected + {e.expectedId}, usedActual + {a.dataPointId}, fold)
    ensures Pairs(pairs + [(e, a)]) == Pairs(pairs) + {(e, a)}
  {
    hide Relates, ExactProvenance, IsMatching, LeftIds, RightIds, Pairs;
    forall p | p in pairs ensures p.0 != e && p.1 != a {
      PairIds(pairs, p);
    }
    IdsGrow(pairs, e, a);
    PairsAre(pairs);
    MatchingGrows(expected, actual, Pairs(pairs), e, a, fold);
  }

  lemma PairIds(pairs: seq<Pair>, p: Pair)
    requires p in pairs
    ensures p.0.expectedId in LeftIds(pairs) && p.1.dataPointId in RightIds(pairs)
  {
  }

  lemma PairsAre(pairs: seq<Pair>)
    ensures forall p :: p in Pairs(pairs) <==> p in pairs
  {
  }

  lemma MatchingGrows(expected: seq<ExpectedPoint>, actual: seq<DataPoint>, m: set<Pair>, e: ExpectedPoint, a: DataPoint, fold: char -> char)
    requires IsMatching(expected, actual, m, fold, false) && e in expected && a in actual && Relates(e, a, fold, false)
    requires forall p :: p in m ==> p.0 != e && p.1 != a
    ensures IsMatching(expected, actual, m + {(e, a)}, fold, false) && |m + {(e, a)}| == |m| + 1
  {
    hide Relates;
  }

  /** One pass over the expected points. */
  method Pass(expected: seq<ExpectedPoint>, actual: seq<DataPoint>, fold: char -> char, exactOnly: bool,
              matches: seq<PointMatch>, usedExpected: set<string>, usedActual: set<string>, ghost pairs: seq<Pair>)
    returns (found: seq<PointMatch>, nowExpected: set<string>, nowActual: set<string>, ghost all: seq<Pair>)
    requires UniqueIds(expected, actual) && Tracks(expected, actual, matches, pairs, usedExpected, usedActual, fold)
    ensures Tracks(expected, actual, found, all, nowExpected, nowActual, fold)
    ensures matches <= found && pairs <= all && IsMaximal(expected, actual, Pairs(all), fold, exactOnly)
    ensures forall k :: |pairs| <= k < |all| ==> Relates(all[k].0, all[k].1, fold, exactOnly)
    ensures forall k :: |pairs| <= k < |all| ==> !LeftUsed(Pairs(pairs), all[k].0) && !RightUsed(Pairs(pairs), all[k].1)
  {
    hide NormalizeKey, Tracks, UniqueIds, ExactProvenance, LeftUsed, RightUsed, Pairs;
    found, nowExpected, nowActual, all := matches, usedExpected, usedActual, pairs;
    for i := 0 to |expected|
      invariant Tracks(expected, actual, found, all, nowExpected, nowActual, fold)
      invariant matches <= found && pairs <= all && Grows(pairs, all)
      invariant forall k :: 0 <= k < i ==> Settled(expected[k], actual, all, fold, exactOnly)
      invariant forall k :: |pairs| <= k < |all| ==> Relates(all[k].0, all[k].1, fold, exactOnly)
      invariant forall k :: |pairs| <= k < |all| ==> !LeftUsed(Pairs(pairs), all[k].0) && !RightUsed(Pairs(pairs), all[k].1)
    {
      var e := expected[i];
      UsedIsMatched(expected, actual, found, all, nowExpected, nowActual, fold);
      assert e in expected;
      if e.expectedId in nowExpected {
        continue;
      }
      var partner := FirstPartner(e, actual, nowActual, fold, exactOnly);
      if partner.None? {
        continue;
      }
      var a := actual[partner.value];
      PairUp(expected, actual, found, all, nowExpected, nowActual, fold, e, a);
      NewToAll(pairs, all, e, a);
      SettledStays(expected, actual, all, e, a, i, fold, exactOnly);
      found := found + [PointMatch(e.expectedId, a.dataPointId, ExactProvenance(e, a))];
      nowExpected, nowActual, all := nowExpected + {e.expectedId}, nowActual + {a.dataPointId}, all + [(e, a)];
    }
    AllSettled(expected, actual, all, fold, exactOnly);
  }

  ghost predicate Grows(pairs: seq<Pair>, all: seq<Pair>) {
    Pairs(pairs) <= Pairs(all)
  }

  /** The point is matched, or everything it could be matched with is. */
  ghost predicate Settled(e: ExpectedPoint, actual: seq<DataPoint>, all: seq<Pair>, fold: char -> char, exactOnly: bool) {
    LeftUsed(Pairs(all), e) || forall a :: a in actual && Relates(e, a, fold, exactOnly) ==> RightUsed(Pairs(all), a)
  }

  lemma NewToAll(pairs: seq<Pair>, all: seq<Pair>, e: ExpectedPoint, a: DataPoint)
    requires Grows(pairs, all) && !LeftUsed(Pairs(all), e) && !RightUsed(Pairs(all), a)
    ensures !LeftUsed(Pairs(pairs), e) && !RightUsed(Pairs(pairs), a) && Grows(pairs, all + [(e, a)])
  {
  }

  lemma SettledStays(expected: seq<ExpectedPoint>, actual: seq<DataPoint>, all: seq<Pair>, e: ExpectedPoint, a: DataPoint, i: nat,
                     fold: char -> char, exactOnly: bool)
    requires i < |expected| && expected[i] == e
    requires forall k :: 0 <= k < i ==> Settled(expected[k], actual, all, fold, exactOnly)
    ensures forall k :: 0 <= k < i + 1 ==> Settled(expected[k], actual, all + [(e, a)], fold, exactOnly)
  {
    hide Relates;
    var more := all + [(e, a)];
    assert forall p :: p in Pairs(all) ==> p in Pairs(more);
    assert (e, a) in Pairs(more) && LeftUsed(Pairs(more), e);
    forall k | 0 <= k < i ensures Settled(expected[k], actual, more, fold, exactOnly) {
      assert Settled(expected[k], actual, all, fold, exactOnly);
      UsedStays(all, more, expected[k]);
      forall b | b in actual && RightUsed(Pairs(all), b) ensures RightUsed(Pairs(more), b) {
      }
    }
  }

  lemma UsedStays(all: seq<Pair>, more: seq<Pair>, e: ExpectedPoint)
    requires Pairs(all) <= Pairs(more)
    ensures LeftUsed(Pairs(all), e) ==> LeftUsed(Pairs(more), e)
  {
  }

  lemma AllSettled(expected: seq<ExpectedPoint>, actual: seq<DataPoint>, all: seq<Pair>, fold: char -> char, exactOnly: bool)
    requires forall k :: 0 <= k < |expected| ==> Settled(expected[k], actual, all, fold, exactOnly)
    ensures IsMaximal(expected, actual, Pairs(all), fold, exactOnly)
  {
    hide Relates, LeftUsed, RightUsed, Pairs;
    forall e, a | e in expected && a in actual && Relates(e, a, fold, exactOnly) ensures LeftUsed(Pairs(all), e) || RightUsed(Pairs(all), a) {
      var k :| 0 <= k < |expected| && expected[k] == e;
      assert Settled(expected[k], actual, all, fold, exactOnly);
    }
  }

  /** `_match_data_points`. Of all one-to-one matchings that respect the keys, none has more pairs, and
      none has more pairs of exact provenance; the pairs of exact provenance come first. */
  method MatchDataPoints(expected: seq<ExpectedPoint>, actual: seq<DataPoint>, fold: char -> char)
    returns (matches: seq<PointMatch>, missing: seq<string>, unexpected: seq<string>, ghost pairs: seq<Pair>, ghost exactCount: nat)
    requires UniqueIds(expected, actual)
    ensures IsMatching(expected, actual, Pairs(pairs), fold, false) && |matches| == |pairs| == |Pairs(pairs)|
    ensures forall k :: 0 <= k < |pairs| ==> IsMatchOf(matches[k], pairs[k])
    ensures exactCount <= |matches| && forall k :: 0 <= k < |matches| ==> (matches[k].exact <==> k < exactCount)
    ensures forall n :: IsMatching(expected, actual, n, fold, false) ==> |n| <= |matches|
    ensures forall n :: IsMatching(expected, actual, n, fold, false) ==> |ExactPairs(n)| <= exactCount
    ensures forall id :: id in missing <==> exists e :: e in expected && e.expectedId == id && !LeftUsed(Pairs(pairs), e)
    ensures forall id :: id in unexpected <==> exists a :: a in actual && a.dataPointId == id && !RightUsed(Pairs(pairs), a)
    ensures |missing| + |matches| == |expected| && |unexpected| + |matches| == |actual|
  {
    hide NormalizeKey, Tracks, UniqueIds, ExactProvenance, LeftUsed, RightUsed, Pairs, IsMatching, IsMaximal;
    NothingMatched(expected, actual, fold);
    var usedExpected: set<string>, usedActual: set<string>;
    ghost var first: seq<Pair>;
    matches, usedExpected, usedActual, first := Pass(expected, actual, fold, true, [], {}, {}, []);
    exactCount := |first|;
    MatchesTrack(expected, actual, matches, first, usedExpected, usedActual, fold);
    matches, usedExpected, usedActual, pairs := Pass(expected, actual, fold, false, matches, usedExpected, usedActual, first);
    MatchesTrack(expected, actual, matches, pairs, usedExpected, usedActual, fold);
    FirstPassIsExact(expected, actual, first, fold);
    forall k | 0 <= k < |matches| ensures matches[k].exact <==> k < exactCount {
      ExactComesFirst(expected, actual, first, pairs, matches, k, fold);
    }
    forall n | IsMatching(expected, actual, n, fold, false) ensures |n| <= |matches| {
      MaximalIsLargest(expected, actual, Pairs(pairs), n, fold, false);
    }
    forall n | IsMatching(expected, actual, n, fold, false) ensures |ExactPairs(n)| <= exactCount {
      ExactPart(expected, actual, n, fold);
      MaximalIsLargest(expected, actual, Pairs(first), ExactPairs(n), fold, true);
    }
    UsedIsMatched(expected, actual, matches, pairs, usedExpected, usedActual, fold);
    UsedAreIds(expected, actual, matches, pairs, usedExpected, usedActual, fold);
    missing := Unused(ExpectedIds(expected), usedExpected);
    unexpected := Unused(ActualIds(actual), usedActual);
    UnusedCount(ExpectedIds(expected), usedExpected);
    UnusedCount(ActualIds(actual), usedActual);
    UnmatchedIds(expected, actual, pairs, usedExpected, usedActual);
  }

  function ExpectedIds(expected: seq<ExpectedPoint>): seq<string> {
    seq(|expected|, i requires 0 <= i < |expected| => expected[i].expectedId)
  }

  function ActualIds(actual: seq<DataPoint>): seq<string> {
    seq(|actual|, i requires 0 <= i < |actual| => actual[i].dataPointId)
  }

  /** The validators compare the number of ids with the number of distinct ids. */
  lemma ValidatedIdsAreUnique(expected: seq<ExpectedPoint>, actual: seq<DataPoint>)
    ensures |Elements(ExpectedIds(expected))| == |expected| && |Elements(ActualIds(actual))| == |actual| <==> UniqueIds(expected, actual)
  {
    var left, right := ExpectedIds(expected), ActualIds(actual);
    CountsAgreeWhenDifferent(left);
    CountsAgreeWhenDifferent(right);
    assert forall i :: 0 <= i < |expected| ==> left[i] == expected[i].expectedId;
    assert forall i :: 0 <= i < |actual| ==> right[i] == actual[i].dataPointId;
    if NoRepeats(left) && NoRepeats(right) {
      forall i, j | 0 <= i < j < |expected| ensures expected[i].expectedId != expected[j].expectedId {
        assert left[i] != left[j];
      }
      forall i, j | 0 <= i < j < |actual| ensures actual[i].dataPointId != actual[j].dataPointId {
        assert right[i] != right[j];
      }
    }
  }

  /** The ids that are not used, in order. */
  function Unused(ids: seq<string>, used: set<string>): (r: seq<string>)
    ensures forall id :: id in r <==> id in ids && id !in used
  {
    if ids == [] then []
    else
      assert forall id :: id in ids <==> id in ids[..|ids| - 1] || id == ids[|ids| - 1];
      Unused(ids[..|ids| - 1], used) + if ids[|ids| - 1] in used then [] else [ids[|ids| - 1]]
  }

  lemma {:induction false} UnusedSame(ids: seq<string>, used: set<string>, id: string)
    requires id !in ids
    ensures Unused(ids, used) == Unused(ids, used - {id})
  {
    if ids != [] {
      assert ids[|ids| - 1] in ids;
      UnusedSame(ids[..|ids| - 1], used, id);
    }
  }

  lemma {:induction false} UnusedCount(ids: seq<string>, used: set<string>)
    requires NoRepeats(ids) && forall id :: id in used ==> id in ids
    ensures |Unused(ids, used)| + |used| == |ids|
  {
    if ids != [] {
      var front, last := ids[..|ids| - 1], ids[|ids| - 1];
      assert ids == front + [last];
      UnusedSame(front, used, last);
      UnusedCount(front, used - {last});
    }
  }

  lemma UsedAreIds(expected: seq<ExpectedPoint>, actual: seq<DataPoint>, matches: seq<PointMatch>, pairs: seq<Pair>,
                   usedExpected: set<string>, usedActual: set<string>, fold: char -> char)
    requires UniqueIds(expected, actual) && Tracks(expected, actual, matches, pairs, usedExpected, usedActual, fold)
    ensures NoRepeats(ExpectedIds(expected)) && NoRepeats(ActualIds(actual))
    ensures forall id :: id in usedExpected ==> id in ExpectedIds(expected)
    ensures forall id :: id in usedActual ==> id in ActualIds(actual)
    ensures |usedExpected| == |matches| && |usedActual| == |matches|
  {
    hide Relates;
    forall p: Pair | p in pairs ensures p.0.expectedId in ExpectedIds(expected) && p.1.dataPointId in ActualIds(actual) {
      assert p in Pairs(pairs);
      var i :| 0 <= i < |expected| && expected[i] == p.0;
      var j :| 0 <= j < |actual| && actual[j] == p.1;
      assert ExpectedIds(expected)[i] == p.0.expectedId && ActualIds(actual)[j] == p.1.dataPointId;
    }
  }

  lemma UnmatchedIds(expected: seq<ExpectedPoint>, actual: seq<DataPoint>, pairs: seq<Pair>, usedExpected: set<string>, usedActual: set<string>)
    requires forall e :: e in expected ==> (e.expectedId in usedExpected <==> LeftUsed(Pairs(pairs), e))
    requires forall a :: a in actual ==> (a.dataPointId in usedActual <==> RightUsed(Pairs(pairs), a))
    ensures forall id :: id in Unused(ExpectedIds(expected), usedExpected) <==> exists e :: e in expected && e.expectedId == id && !LeftUsed(Pairs(pairs), e)
    ensures forall id :: id in Unused(ActualIds(actual), usedActual) <==> exists a :: a in actual && a.dataPointId == id && !RightUsed(Pairs(pairs), a)
  {
    hide Unused, LeftUsed, RightUsed, Pairs;
    forall e | e in expected ensures e.expectedId in ExpectedIds(expected) {
      var i :| 0 <= i < |expected| && expected[i] == e;
      assert ExpectedIds(expected)[i] == e.expectedId;
    }
    forall a | a in actual ensures a.dataPointId in ActualIds(actual) {
      var i :| 0 <= i < |actual| && actual[i] == a;
      assert ActualIds(actual)[i] == a.dataPointId;
    }
  }

  ghost function ExactPairs(n: set<Pair>): set<Pair> {
    set p | p in n && ExactProvenance(p.0, p.1)
  }

  lemma ExactPart(expected: seq<ExpectedPoint>, actual: seq<DataPoint>, n: set<Pair>, fold: char -> char)
    requires IsMatching(expected, actual, n, fold, false)
    ensures IsMatching(expected, actual, ExactPairs(n), fold, true)
  {
    hide SameKey, ExactProvenance;
  }

  lemma NothingMatched(expected: seq<ExpectedPoint>, actual: seq<DataPoint>, fold: char -> char)
    ensures Tracks(expected, actual, [], [], {}, {}, fold) && Pairs([]) == {}
  {
  }

  lemma MatchesTrack(expected: seq<ExpectedPoint>, actual: seq<DataPoint>, matches: seq<PointMatch>, pairs: seq<Pair>,
                     usedExpected: set<string>, usedActual: set<string>, fold: char -> char)
    requires Tracks(expected, actual, matches, pairs, usedExpected, usedActual, fold)
    ensures IsMatching(expected, actual, Pairs(pairs), fold, false) && |matches| == |pairs| == |Pairs(pairs)|
    ensures forall k :: 0 <= k < |pairs| ==> IsMatchOf(matches[k], pairs[k])
  {
    hide IsMatching;
  }

  lemma FirstPassIsExact(expected: seq<ExpectedPoint>, actual: seq<DataPoint>, first: seq<Pair>, fold: char -> char)
    requires IsMatching(expected, actual, Pairs(first), fold, false)
    requires forall k :: 0 <= k < |first| ==> Relates(first[k].0, first[k].1, fold, true)
    ensures IsMatching(expected, actual, Pairs(first), fold, true)
  {
    hide Relates;
  }

  /** No pair of the second pass is exact: the first pass would have made it. */
  lemma ExactComesFirst(expected: seq<ExpectedPoint>, actual: seq<DataPoint>, first: seq<Pair>, pairs: seq<Pair>, matches: seq<PointMatch>,
                        k: nat, fold: char -> char)
    requires IsMatching(expected, actual, Pairs(pairs), fold, false) && IsMaximal(expected, actual, Pairs(first), fold, true)
    requires first <= pairs && |matches| == |pairs| && k < |pairs| && IsMatchOf(matches[k], pairs[k])
    requires forall m :: 0 <= m < |first| ==> Relates(first[m].0, first[m].1, fold, true)
    requires forall m :: |first| <= m < |pairs| ==> !LeftUsed(Pairs(first), pairs[m].0) && !RightUsed(Pairs(first), pairs[m].1)
    ensures matches[k].exact <==> k < |first|
  {
    hide SameKey, ExactProvenance, LeftUsed, RightUsed;
    assert pairs[k] in Pairs(pairs);
    if k < |first| {
      assert pairs[k] == first[k];
    }
  }

  /** Folding a character neither makes nor removes white space. */
  ghost predicate KeepsSpace(fold: char -> char) {
    forall c :: IsSpace(fold(c)) <==> IsSpace(c)
  }

  /** The texts have the same words up to case. */
  predicate SameWordsFolded(a: string, b: string, fold: char -> char) {
    |Words(a)| == |Words(b)| && forall k :: 0 <= k < |Words(a)| ==> FoldText(Words(a)[k], fold) == FoldText(Words(b)[k], fold)
  }

  function FoldAll(words: seq<string>, fold: char -> char): (r: seq<string>)
    ensures |r| == |words| && forall k :: 0 <= k < |words| ==> r[k] == FoldText(words[k], fold)
  {
    seq(|words|, i requires 0 <= i < |words| => FoldText(words[i], fold))
  }

  /** Folding commutes with splitting. */
  lemma {:induction false} WordsOfFolded(text: string, fold: char -> char)
    requires KeepsSpace(fold)
    ensures Words(FoldText(text, fold)) == FoldAll(Words(text), fold)
  {
    hide Words;
    if text == [] {
      NoWords();
      assert FoldText(text, fold) == [];
    } else {
      var front, c := text[..|text| - 1], text[|text| - 1];
      WordsOfFolded(front, fold);
      assert text == front + [c] && FoldText(text, fold) == FoldText(front, fold) + [fold(c)];
      assert EndsInWord(FoldText(front, fold)) <==> EndsInWord(front);
      WordsSnoc(front, c);
      WordsSnoc(FoldText(front, fold), fold(c));
      if !IsSpace(c) && EndsInWord(front) {
        var last := Words(front)[|Words(front)| - 1];
        assert FoldText(last + [c], fold) == FoldText(last, fold) + [fold(c)];
      } else if !IsSpace(c) {
        assert FoldText([c], fold) == [fold(c)];
      }
    }
  }

  /** Joining words that agree up to case gives texts that do. */
  lemma {:induction false} JoinFolded(a: seq<string>, b: seq<string>, fold: char -> char)
    requires FoldAll(a, fold) == FoldAll(b, fold)
    ensures FoldText(JoinWithSpace(a), fold) == FoldText(JoinWithSpace(b), fold)
  {
    assert |a| == |FoldAll(a, fold)| == |FoldAll(b, fold)| == |b|;
    if a != [] {
      var n := |a| - 1;
      forall k | 0 <= k <= n ensures FoldText(a[k], fold) == FoldText(b[k], fold) {
        assert FoldAll(a, fold)[k] == FoldAll(b, fold)[k];
      }
      if n > 0 {
        assert FoldAll(a[..n], fold) == FoldAll(b[..n], fold);
        JoinFolded(a[..n], b[..n], fold);
        FoldOfSum(JoinWithSpace(a[..n]), " " + a[n], fold);
        FoldOfSum(JoinWithSpace(b[..n]), " " + b[n], fold);
        FoldOfSum(" ", a[n], fold);
        FoldOfSum(" ", b[n], fold);
        assert JoinWithSpace(a) == JoinWithSpace(a[..n]) + (" " + a[n]) && JoinWithSpace(b) == JoinWithSpace(b[..n]) + (" " + b[n]);
      }
    }
  }

  lemma FoldOfSum(a: string, b: string, fold: char -> char)
    ensures FoldText(a + b, fold) == FoldText(a, fold) + FoldText(b, fold)
  {
  }

  /** The keys of two texts are equal exactly when their words agree up to case. */
  lemma KeyExactly(a: string, b: string, fold: char -> char)
    requires KeepsSpace(fold)
    ensures NormalizeKey(a, fold) == NormalizeKey(b, fold) <==> SameWordsFolded(a, b, fold)
  {
    hide Words, JoinWithSpace, FoldText, KeepsSpace;
    WordsOfCollapse(a);
    WordsOfCollapse(b);
    WordsOfFolded(Collapse(a), fold);
    WordsOfFolded(Collapse(b), fold);
    if NormalizeKey(a, fold) == NormalizeKey(b, fold) {
      assert FoldAll(Words(a), fold) == FoldAll(Words(b), fold);
      forall k | 0 <= k < |Words(a)| ensures FoldText(Words(a)[k], fold) == FoldText(Words(b)[k], fold) {
        assert FoldAll(Words(a), fold)[k] == FoldAll(Words(b), fold)[k];
      }
    }
    if SameWordsFolded(a, b, fold) {
      assert FoldAll(Words(a), fold) == FoldAll(Words(b), fold);
      JoinFolded(Words(a), Words(b), fold);
    }
  }

  /** So matched points have the same category, field and value up to white space and case, and in the exact
      pass the same place and text. */
  lemma RelatesExactly(e: ExpectedPoint, a: DataPoint, fold: char -> char, exactOnly: bool)
    requires KeepsSpace(fold)
    ensures Relates(e, a, fold, exactOnly) <==>
      && SameWordsFolded(e.category, a.category, fold) && SameWordsFolded(e.fieldName, a.fieldName, fold) && SameWordsFolded(e.value, a.value, fold)
      && (exactOnly ==> e.startChar == a.span.startChar && e.endChar == a.span.endChar && e.startByte == a.span.startByte
                        && e.endByte == a.span.endByte && e.sourceText == a.span.text)
  {
    hide NormalizeKey, SameWordsFolded, KeepsSpace;
    KeyExactly(e.category, a.category, fold);
    KeyExactly(e.fieldName, a.fieldName, fold);
    KeyExactly(e.value, a.value, fold);
  }
}
