/** evals/scoring.py: the metrics, and that the breakdowns add up to the whole. */
module Scoring {
  import opened Sorting
  import opened Reconciliation
  import opened Matching

  datatype Metrics = Metrics(expectedCount: nat, actualCount: nat, truePositives: nat, falsePositives: int, falseNegatives: int,
                             precision: real, recall: real, f1: real, exactProvenance: nat, provenanceRecall: real)

  function Ratio(part: nat, whole: nat, otherwise: real): real {
    if whole == 0 then otherwise else part as real / whole as real
  }

  function HarmonicMean(p: real, r: real): real {
    if p + r == 0.0 then 0.0 else 2.0 * (p * r) / (p + r)
  }

  /** `_build_metrics`, over the reals */
  function BuildMetrics(expectedCount: nat, actualCount: nat, truePositives: nat, exactProvenance: nat): Metrics {
    var precision, recall := Ratio(truePositives, actualCount, 0.0), Ratio(truePositives, expectedCount, 1.0);
    var f1 := HarmonicMean(precision, recall);
    Metrics(expectedCount, actualCount, truePositives, actualCount - truePositives, expectedCount - truePositives,
      precision, recall, f1, exactProvenance, Ratio(exactProvenance, expectedCount, 1.0))
  }

  /** What the metrics are of: precision of the actual points, recall of the expected ones, and their
      harmonic mean; without actual points precision is 0, without expected ones recall is 1. */
  lemma MetricsExactly(expectedCount: nat, actualCount: nat, truePositives: nat, exactProvenance: nat)
    ensures var m := BuildMetrics(expectedCount, actualCount, truePositives, exactProvenance);
      && m.expectedCount == m.truePositives + m.falseNegatives == expectedCount && m.truePositives == truePositives
      && m.actualCount == m.truePositives + m.falsePositives == actualCount && m.exactProvenance == exactProvenance
      && (actualCount > 0 ==> m.precision * actualCount as real == truePositives as real) && (actualCount == 0 ==> m.precision == 0.0)
      && (expectedCount > 0 ==> m.recall * expectedCount as real == truePositives as real) && (expectedCount == 0 ==> m.recall == 1.0)
      && (expectedCount > 0 ==> m.provenanceRecall * expectedCount as real == exactProvenance as real)
      && (expectedCount == 0 ==> m.provenanceRecall == 1.0)
      && (m.precision + m.recall != 0.0 ==> m.f1 * (m.precision + m.recall) == 2.0 * (m.precision * m.recall))
      && (m.precision + m.recall == 0.0 ==> m.f1 == 0.0)
  {
    hide Ratio, HarmonicMean;
    var p, r := Ratio(truePositives, actualCount, 0.0), Ratio(truePositives, expectedCount, 1.0);
    RatioExactly(truePositives, actualCount, 0.0);
    RatioExactly(truePositives, expectedCount, 1.0);
    RatioExactly(exactProvenance, expectedCount, 1.0);
    HarmonicExactly(p, r);
  }

  lemma RatioExactly(part: nat, whole: nat, otherwise: real)
    ensures if whole == 0 then Ratio(part, whole, otherwise) == otherwise else Ratio(part, whole, otherwise) * whole as real == part as real
  {
  }

  lemma HarmonicExactly(p: real, r: real)
    ensures if p + r == 0.0 then HarmonicMean(p, r) == 0.0 else HarmonicMean(p, r) * (p + r) == 2.0 * (p * r)
  {
  }

  lemma RatioIsProper(part: nat, whole: nat, otherwise: real)
    requires part <= whole && 0.0 <= otherwise <= 1.0
    ensures 0.0 <= Ratio(part, whole, otherwise) <= 1.0
    ensures whole > 0 ==> (Ratio(part, whole, otherwise) == 1.0 <==> part == whole)
  {
    if whole > 0 {
      Quotient(part as real, whole as real);
      assert part as real == whole as real <==> part == whole;
    }
  }

  lemma Quotient(n: real, s: real)
    requires 0.0 <= n <= s && s > 0.0
    ensures 0.0 <= n / s <= 1.0 && (n / s == 1.0 <==> n == s)
  {
    var q := n / s;
    assert q * s == n;
  }

  /** With a matching's counts every score is between 0 and 1. */
  lemma MetricsAreProper(expectedCount: nat, actualCount: nat, truePositives: nat, exactProvenance: nat)
    requires exactProvenance <= truePositives <= expectedCount && truePositives <= actualCount
    ensures var m := BuildMetrics(expectedCount, actualCount, truePositives, exactProvenance);
      && m.falsePositives >= 0 && m.falseNegatives >= 0
      && 0.0 <= m.precision <= 1.0 && 0.0 <= m.recall <= 1.0 && 0.0 <= m.provenanceRecall <= 1.0 && 0.0 <= m.f1 <= 1.0
  {
    hide Ratio, HarmonicMean;
    RatioIsProper(truePositives, actualCount, 0.0);
    RatioIsProper(truePositives, expectedCount, 1.0);
    RatioIsProper(exactProvenance, expectedCount, 1.0);
    var p, r := Ratio(truePositives, actualCount, 0.0), Ratio(truePositives, expectedCount, 1.0);
    HarmonicIsProper(p, r);
  }

  lemma HarmonicIsProper(p: real, r: real)
    requires 0.0 <= p <= 1.0 && 0.0 <= r <= 1.0
    ensures 0.0 <= HarmonicMean(p, r) <= 1.0
  {
    if p + r > 0.0 {
      var x := Product(p, r);
      Quotient(2.0 * x, p + r);
    }
  }

  lemma Product(p: real, r: real) returns (x: real)
    requires 0.0 <= p <= 1.0 && 0.0 <= r <= 1.0
    ensures x == p * r && 0.0 <= x <= p && x <= r
  {
    x := p * r;
    NotNegative(p, r);
    NotNegative(p, 1.0 - r);
    NotNegative(1.0 - p, r);
    assert p * (1.0 - r) == p - x;
    assert (1.0 - p) * r == r - x;
  }

  lemma NotNegative(a: real, b: real)
    requires 0.0 <= a && 0.0 <= b
    ensures 0.0 <= a * b
  {
  }

  /** `sum(1 for x in xs if label(x) == l)` */
  function Count<T, L(==)>(xs: seq<T>, label_: T -> L, l: L): nat {
    if xs == [] then 0
    else Count(xs[..|xs| - 1], label_, l) + if label_(xs[|xs| - 1]) == l then 1 else 0
  }

  function SumOver<L>(labels: seq<L>, f: L -> nat): nat {
    if labels == [] then 0 else SumOver(labels[..|labels| - 1], f) + f(labels[|labels| - 1])
  }

  /** Counting by label, over labels that differ, counts each labelled element once. */
  lemma {:induction false} CountsAddUp<T, L>(xs: seq<T>, label_: T -> L, labels: seq<L>, f: L -> nat)
    requires NoRepeats(labels) && (forall x :: x in xs ==> label_(x) in labels) && forall l :: l in labels ==> f(l) == Count(xs, label_, l)
    ensures SumOver(labels, f) == |xs|
  {
    if xs == [] {
      SumOfZero(labels, f);
    } else {
      var front, x := xs[..|xs| - 1], xs[|xs| - 1];
      var before := l => Count(front, label_, l);
      CountsAddUp(front, label_, labels, before);
      SumGainsOne(labels, before, f, label_(x));
    }
  }

  lemma {:induction false} SumOfZero<L>(labels: seq<L>, f: L -> nat)
    requires forall l :: l in labels ==> f(l) == 0
    ensures SumOver(labels, f) == 0
  {
    if labels != [] {
      SumOfZero(labels[..|labels| - 1], f);
    }
  }

  lemma {:induction false} SumIsSame<L>(labels: seq<L>, f: L -> nat, g: L -> nat)
    requires forall l :: l in labels ==> f(l) == g(l)
    ensures SumOver(labels, f) == SumOver(labels, g)
  {
    if labels != [] {
      SumIsSame(labels[..|labels| - 1], f, g);
    }
  }

  lemma {:induction false} SumGainsOne<L>(labels: seq<L>, f: L -> nat, g: L -> nat, at: L)
    requires NoRepeats(labels) && at in labels
    requires forall l :: l in labels ==> g(l) == f(l) + if l == at then 1 else 0
    ensures SumOver(labels, g) == SumOver(labels, f) + 1
  {
    var front, last := labels[..|labels| - 1], labels[|labels| - 1];
    if last == at {
      forall l | l in front ensures f(l) == g(l) {
        assert l in labels;
      }
      SumIsSame(front, f, g);
    } else {
      SumGainsOne(front, f, g, at);
    }
  }

  /** What a breakdown reads: the points, the pairs behind the matches, and the unmatched data points. */
  datatype Scored = Scored(expected: seq<ExpectedPoint>, pairs: seq<Pair>, exactPairs: seq<Pair>, unmatched: seq<DataPoint>)

  /** The metrics of one category, or of one category and field: a match belongs to its expected point. */
  function Breakdown<L(==)>(s: Scored, ofExpected: ExpectedPoint -> L, ofActual: DataPoint -> L, l: L): Metrics {
    var hits := Count(s.pairs, (p: Pair) => ofExpected(p.0), l);
    BuildMetrics(Count(s.expected, ofExpected, l), hits + Count(s.unmatched, ofActual, l), hits,
      Count(s.exactPairs, (p: Pair) => ofExpected(p.0), l))
  }

  /** The labels of the expected points and of the unmatched data points. */
  function Labels<L>(s: Scored, ofExpected: ExpectedPoint -> L, ofActual: DataPoint -> L): set<L> {
    (set e | e in s.expected :: ofExpected(e)) + set a | a in s.unmatched :: ofActual(a)
  }

  /** `_build_category_metric_breakdowns` and `_build_field_metric_breakdowns`: one entry a label. */
  method BuildBreakdowns<L(==,!new)>(s: Scored, ofExpected: ExpectedPoint -> L, ofActual: DataPoint -> L, less: (L, L) -> bool)
    returns (labels: seq<L>, breakdowns: seq<Metrics>)
    requires OrdersAll(less, Labels(s, ofExpected, ofActual))
    ensures Elements(labels) == Labels(s, ofExpected, ofActual) && IsSorted(labels, less) && NoRepeats(labels)
    ensures |breakdowns| == |labels|
    ensures forall k :: 0 <= k < |labels| ==> breakdowns[k] == Breakdown(s, ofExpected, ofActual, labels[k])
  {
    hide Breakdown;
    labels := SortedList(Labels(s, ofExpected, ofActual), less);
    breakdowns := [];
    for i := 0 to |labels|
      invariant |breakdowns| == i
      invariant forall k :: 0 <= k < i ==> breakdowns[k] == Breakdown(s, ofExpected, ofActual, labels[k])
    {
      breakdowns := breakdowns + [Breakdown(s, ofExpected, ofActual, labels[i])];
    }
  }

  datatype Counts = Counts(expected: nat, actual: nat, truePositives: nat, exactProvenance: nat)

  function Totals(breakdowns: seq<Metrics>): Counts {
    if breakdowns == [] then Counts(0, 0, 0, 0)
    else
      var t, m := Totals(breakdowns[..|breakdowns| - 1]), breakdowns[|breakdowns| - 1];
      Counts(t.expected + m.expectedCount, t.actual + m.actualCount, t.truePositives + m.truePositives, t.exactProvenance + m.exactProvenance)
  }

  lemma {:induction false} TotalsAreSums<L>(labels: seq<L>, breakdowns: seq<Metrics>, e: L -> nat, a: L -> nat, h: L -> nat, x: L -> nat)
    requires |breakdowns| == |labels|
    requires forall k :: 0 <= k < |labels| ==>
      && breakdowns[k].expectedCount == e(labels[k]) && breakdowns[k].actualCount == a(labels[k])
      && breakdowns[k].truePositives == h(labels[k]) && breakdowns[k].exactProvenance == x(labels[k])
    ensures Totals(breakdowns) == Counts(SumOver(labels, e), SumOver(labels, a), SumOver(labels, h), SumOver(labels, x))
  {
    if labels != [] {
      TotalsAreSums(labels[..|labels| - 1], breakdowns[..|breakdowns| - 1], e, a, h, x);
    }
  }

  lemma {:induction false} SumOfSums<L>(labels: seq<L>, f: L -> nat, g: L -> nat, h: L -> nat)
    requires forall l :: l in labels ==> h(l) == f(l) + g(l)
    ensures SumOver(labels, h) == SumOver(labels, f) + SumOver(labels, g)
  {
    if labels != [] {
      SumOfSums(labels[..|labels| - 1], f, g, h);
    }
  }

  /** The breakdowns' counts sum to those of the whole report. */
  lemma BreakdownsAddUp<L>(s: Scored, ofExpected: ExpectedPoint -> L, ofActual: DataPoint -> L, labels: seq<L>, breakdowns: seq<Metrics>)
    requires NoRepeats(labels) && |breakdowns| == |labels|
    requires Elements(labels) == Labels(s, ofExpected, ofActual)
    requires forall k :: 0 <= k < |labels| ==> breakdowns[k] == Breakdown(s, ofExpected, ofActual, labels[k])
    requires (forall p :: p in s.pairs ==> p.0 in s.expected) && forall p :: p in s.exactPairs ==> p.0 in s.expected
    ensures Totals(breakdowns) == Counts(|s.expected|, |s.pairs| + |s.unmatched|, |s.pairs|, |s.exactPairs|)
  {
    hide Totals, Count, SumOver, NoRepeats, Ratio, HarmonicMean;
    var hit := (p: Pair) => ofExpected(p.0);
    LabelsCover(s, ofExpected, ofActual, labels);
    var e, h, u, x := l => Count(s.expected, ofExpected, l), l => Count(s.pairs, hit, l), l => Count(s.unmatched, ofActual, l), l => Count(s.exactPairs, hit, l);
    CountsAddUp(s.expected, ofExpected, labels, e);
    CountsAddUp(s.pairs, hit, labels, h);
    CountsAddUp(s.unmatched, ofActual, labels, u);
    CountsAddUp(s.exactPairs, hit, labels, x);
    var both := l => h(l) + u(l);
    SumOfSums(labels, h, u, both);
    TotalsAreSums(labels, breakdowns, e, both, h, x);
  }

  lemma LabelsCover<L>(s: Scored, ofExpected: ExpectedPoint -> L, ofActual: DataPoint -> L, labels: seq<L>)
    requires Elements(labels) == Labels(s, ofExpected, ofActual)
    ensures forall e :: e in s.expected ==> ofExpected(e) in labels
    ensures forall a :: a in s.unmatched ==> ofActual(a) in labels
  {
    forall e | e in s.expected ensures ofExpected(e) in labels {
      assert ofExpected(e) in Elements(labels);
    }
    forall a | a in s.unmatched ensures ofActual(a) in labels {
      assert ofActual(a) in Elements(labels);
    }
  }
}
