/** evals/invariants.py: the mechanical check of a finished report, and what it says about a span. */
module ReportInvariants {
  import opened Utf8
  import opened Contracts
  import opened SourceResolution

  datatype ViolationCode = OutOfBounds | ByteOffsetMismatch | TextMismatch | ByteMismatch

  datatype Violation = Violation(code: ViolationCode, supporting: bool, dataPointId: string)

  /** The parts of a data point that the check reads. */
  datatype ReportedPoint = ReportedPoint(dataPointId: string, span: SourceSpan, supportingSpans: seq<SourceSpan>)

  function ViolationIf(b: bool, code: ViolationCode, supporting: bool, id: string): seq<Violation> {
    if b then [Violation(code, supporting, id)] else []
  }

  /** `_span_invariant_violations` */
  function SpanInvariantViolations(text: string, s: SourceSpan, supporting: bool, id: string): seq<Violation> {
    if s.endChar > |text| || s.endByte > |Encode(text)| then [Violation(OutOfBounds, supporting, id)]
    else
      ViolationIf(s.startByte != |Encode(Slice(text, 0, s.startChar))| || s.endByte != |Encode(Slice(text, 0, s.endChar))|,
                  ByteOffsetMismatch, supporting, id)
      + ViolationIf(Slice(text, s.startChar, s.endChar) != s.text, TextMismatch, supporting, id)
      + ViolationIf(Slice(Encode(text), s.startByte, s.endByte) != Encode(s.text), ByteMismatch, supporting, id)
  }

  /** A valid span passes the check exactly when it is an aligned slice of the text. */
  lemma SpanPassesExactly(text: string, s: SourceSpan, supporting: bool, id: string)
    requires ValidSpan(s)
    ensures SpanInvariantViolations(text, s, supporting, id) == [] <==> SpanExact(text, s)
  {
    hide Encode;
    if s.endChar <= |text| {
      EncodeSlice(text, s.startChar, s.endChar);
    }
  }

  /** The span and supporting spans of every point are exact. */
  ghost predicate AllExact(text: string, points: seq<ReportedPoint>) {
    forall k :: 0 <= k < |points| ==> PointExact(text, points[k])
  }

  ghost predicate PointExact(text: string, point: ReportedPoint) {
    SpanExact(text, point.span) && forall s :: s in point.supportingSpans ==> SpanExact(text, s)
  }

  predicate PointValid(point: ReportedPoint) {
    ValidSpan(point.span) && forall s :: s in point.supportingSpans ==> ValidSpan(s)
  }

  method SupportingViolations(text: string, point: ReportedPoint) returns (violations: seq<Violation>)
    requires PointValid(point)
    ensures violations == [] <==> forall s :: s in point.supportingSpans ==> SpanExact(text, s)
    ensures forall v :: v in violations ==> v.dataPointId == point.dataPointId
  {
    hide SpanExact, ValidSpan;
    violations := [];
    for i := 0 to |point.supportingSpans|
      invariant violations == [] <==> forall s :: s in point.supportingSpans[..i] ==> SpanExact(text, s)
      invariant forall v :: v in violations ==> v.dataPointId == point.dataPointId
    {
      var span := point.supportingSpans[i];
      SpanPassesExactly(text, span, true, point.dataPointId);
      assert point.supportingSpans[..i + 1] == point.supportingSpans[..i] + [span];
      violations := violations + SpanInvariantViolations(text, span, true, point.dataPointId);
    }
    assert point.supportingSpans[..|point.supportingSpans|] == point.supportingSpans;
  }

  /** `report_invariant_violations`: nothing is returned exactly for a report all of whose spans are exact. */
  method ReportInvariantViolations(text: string, points: seq<ReportedPoint>) returns (violations: seq<Violation>)
    requires forall point :: point in points ==> PointValid(point)
    ensures violations == [] <==> AllExact(text, points)
    ensures forall v :: v in violations ==> exists point :: point in points && point.dataPointId == v.dataPointId
  {
    hide SpanExact, ValidSpan;
    violations := [];
    for i := 0 to |points|
      invariant violations == [] <==> AllExact(text, points[..i])
      invariant forall v :: v in violations ==> exists point :: point in points && point.dataPointId == v.dataPointId
    {
      var point := points[i];
      assert PointValid(point);
      SpanPassesExactly(text, point.span, false, point.dataPointId);
      var supporting := SupportingViolations(text, point);
      violations := violations + SpanInvariantViolations(text, point.span, false, point.dataPointId) + supporting;
      assert point in points && forall v :: v in violations ==> exists p :: p in points && p.dataPointId == v.dataPointId;
      assert points[..i + 1] == points[..i] + [point];
      assert AllExact(text, points[..i + 1]) <==> AllExact(text, points[..i]) && PointExact(text, point);
    }
    assert points[..|points|] == points;
  }
}
