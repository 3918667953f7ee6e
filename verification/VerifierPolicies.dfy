/** verifier/policies.py: the model's verdict is overruled by what can be checked mechanically. */
module VerifierPolicies {
  import opened Wrappers
  import opened Contracts
  import opened CriticCorrections

  datatype VerifierVerdict = VerifierVerdict(accepts: bool, code: ReasonCode, evidence: string)

  datatype VerifierReport = VerifierReport(candidateId: string, spanVerified: bool, categoryVerified: bool,
                                           alignmentScore: real, accepted: bool, reasons: seq<RejectionReason>)

  /** `_deterministic_rejection_reasons` */
  function DeterministicReasons(plan: Plan, chunk: Chunk, c: Candidate, g: Grounding): seq<RejectionReason> {
    ReasonIf(c.category !in plan.approved, CategoryNotApproved, Text(c.category))
    + ReasonIf(c.category in plan.approved && c.fieldName !in plan.approved[c.category], SchemaViolation, Text(c.fieldName))
    + (if !SpanMatchesChunk(c.span, chunk) then [RejectionReason(InventedSpan, Text("span does not match"))]
       else ReasonIf(!g.isLabelField(c.fieldName) && !g.supported(c), InventedSpan, Text("value not grounded")))
  }

  /** `_is_contradicted_llm_reason` */
  predicate IsContradicted(code: ReasonCode, spanMatches: bool, schemaApproved: bool, valueSupported: bool) {
    match code
    case InvalidSourceOffsets => spanMatches
    case AmbiguousSourceSpan => spanMatches
    case InventedSpan => spanMatches && valueSupported
    case CategoryNotApproved => schemaApproved
    case SchemaViolation => schemaApproved && spanMatches && valueSupported
    case _ => false
  }

  /** The model's objection that survives the mechanical checks. */
  function SurvivingObjection(plan: Plan, chunk: Chunk, c: Candidate, v: VerifierVerdict, g: Grounding): seq<RejectionReason> {
    var spanMatches, schemaApproved, valueSupported :=
      SpanMatchesChunk(c.span, chunk), SchemaApproves(plan, c.category, c.fieldName), g.supported(c);
    ReasonIf(!v.accepts && !((spanMatches || schemaApproved || valueSupported)
                             && IsContradicted(v.code, spanMatches, schemaApproved, valueSupported)), v.code, Text(v.evidence))
  }

  /** The reasons without later repetitions. */
  function Distinct(reasons: seq<RejectionReason>): (r: seq<RejectionReason>)
    ensures forall x :: x in r <==> x in reasons
    ensures forall i, j :: 0 <= i < j < |r| ==> r[i] != r[j]
  {
    if reasons == [] then []
    else
      var front, last := Distinct(reasons[..|reasons| - 1]), reasons[|reasons| - 1];
      if last in front then front else front + [last]
  }

  /** `_merged_rejection_reasons`, which the reconciler defines too */
  method MergeRejectionReasons(reasons: seq<RejectionReason>) returns (merged: seq<RejectionReason>)
    ensures merged == Distinct(reasons)
  {
    merged := [];
    var seen: set<RejectionReason> := {};
    for i := 0 to |reasons|
      invariant merged == Distinct(reasons[..i])
      invariant forall x :: x in seen <==> x in merged
    {
      assert reasons[..i + 1][..i] == reasons[..i];
      if reasons[i] !in seen {
        merged := merged + [reasons[i]];
        seen := seen + {reasons[i]};
      }
    }
    assert reasons[..|reasons|] == reasons;
  }

  const SPAN_CODES := {InventedSpan, InvalidSourceOffsets, AmbiguousSourceSpan}

  /** `build_verifier_report` */
  function BuildVerifierReport(plan: Plan, chunk: Chunk, c: Candidate, v: VerifierVerdict, g: Grounding): (r: VerifierReport)
    ensures r.accepted <==> r.reasons == []
  {
    var reasons := Distinct(SurvivingObjection(plan, chunk, c, v, g) + DeterministicReasons(plan, chunk, c, g));
    VerifierReport(c.candidateId,
      !exists i :: 0 <= i < |reasons| && reasons[i].code in SPAN_CODES,
      !exists i :: 0 <= i < |reasons| && reasons[i].code in {CategoryNotApproved, SchemaViolation},
      if reasons == [] then 1.0 else 0.0, reasons == [], reasons)
  }

  /** Acceptance exactly: the span matches, the slot is approved, the value is a label or grounded, and
      the model either accepts or objects only to what the checks refute. */
  lemma AcceptedExactly(plan: Plan, chunk: Chunk, c: Candidate, v: VerifierVerdict, g: Grounding)
    ensures BuildVerifierReport(plan, chunk, c, v, g).accepted <==>
      && SpanMatchesChunk(c.span, chunk) && SchemaApproves(plan, c.category, c.fieldName)
      && (g.isLabelField(c.fieldName) || g.supported(c))
      && (v.accepts || IsContradicted(v.code, true, true, g.supported(c)))
  {
    hide SpanMatchesChunk;
    var all := SurvivingObjection(plan, chunk, c, v, g) + DeterministicReasons(plan, chunk, c, g);
    DistinctIsEmpty(all);
  }

  /** The report is about the candidate; an accepted one has no reasons, both marks and the full score, a
      refused one has reasons and the score zero. */
  lemma ScoreFollowsAcceptance(plan: Plan, chunk: Chunk, c: Candidate, v: VerifierVerdict, g: Grounding)
    ensures var r := BuildVerifierReport(plan, chunk, c, v, g);
      && r.candidateId == c.candidateId
      && (r.accepted ==> r.alignmentScore == 1.0 && r.spanVerified && r.categoryVerified && r.reasons == [])
      && (!r.accepted ==> r.alignmentScore == 0.0 && r.reasons != [])
  {
    hide DeterministicReasons, SurvivingObjection, Distinct;
  }

  /** Some reason has that code. */
  predicate HasCode(reasons: seq<RejectionReason>, code: ReasonCode) {
    exists i :: 0 <= i < |reasons| && reasons[i].code == code
  }

  /** Which codes a report's reasons have: what the checks find, and what the model objects to unless
      the checks refute it. */
  lemma ReportCodes(plan: Plan, chunk: Chunk, c: Candidate, v: VerifierVerdict, g: Grounding, code: ReasonCode)
    ensures var reasons, objects := BuildVerifierReport(plan, chunk, c, v, g).reasons, !v.accepts && v.code == code;
      var matches, approved, supported := SpanMatchesChunk(c.span, chunk), SchemaApproves(plan, c.category, c.fieldName), g.supported(c);
      HasCode(reasons, code) <==>
        match code
        case CategoryNotApproved => c.category !in plan.approved || (objects && !approved)
        case SchemaViolation => (c.category in plan.approved && !approved) || (objects && !(matches && approved && supported))
        case InventedSpan => !matches || !(g.isLabelField(c.fieldName) || supported) || (objects && !supported)
        case InvalidSourceOffsets => objects && !matches
        case AmbiguousSourceSpan => objects && !matches
        case _ => objects
  {
    hide SpanMatchesChunk, Distinct, DeterministicReasons, SurvivingObjection;
    var objection, found := SurvivingObjection(plan, chunk, c, v, g), DeterministicReasons(plan, chunk, c, g);
    SameCodes(objection, found, code);
    ObjectionCode(plan, chunk, c, v, g, code);
    FoundCodes(plan, chunk, c, g, code);
  }

  lemma SameCodes(a: seq<RejectionReason>, b: seq<RejectionReason>, code: ReasonCode)
    ensures HasCode(Distinct(a + b), code) <==> HasCode(a, code) || HasCode(b, code)
  {
    hide Distinct;
    if HasCode(a, code) {
      var i :| 0 <= i < |a| && a[i].code == code;
      assert (a + b)[i] in Distinct(a + b);
    }
    if HasCode(b, code) {
      var i :| 0 <= i < |b| && b[i].code == code;
      assert (a + b)[|a| + i] in Distinct(a + b);
    }
    forall i | 0 <= i < |Distinct(a + b)| && Distinct(a + b)[i].code == code ensures HasCode(a, code) || HasCode(b, code) {
      assert Distinct(a + b)[i] in a + b;
      var k :| 0 <= k < |a + b| && (a + b)[k] == Distinct(a + b)[i];
      assert if k < |a| then a[k].code == code else b[k - |a|].code == code;
    }
  }

  lemma ObjectionCode(plan: Plan, chunk: Chunk, c: Candidate, v: VerifierVerdict, g: Grounding, code: ReasonCode)
    ensures HasCode(SurvivingObjection(plan, chunk, c, v, g), code) <==>
      && !v.accepts && v.code == code
      && !IsContradicted(code, SpanMatchesChunk(c.span, chunk), SchemaApproves(plan, c.category, c.fieldName), g.supported(c))
  {
    hide SpanMatchesChunk;
    var s := SurvivingObjection(plan, chunk, c, v, g);
    assert s != [] ==> s[0].code == v.code;
  }

  lemma FoundCodes(plan: Plan, chunk: Chunk, c: Candidate, g: Grounding, code: ReasonCode)
    ensures HasCode(DeterministicReasons(plan, chunk, c, g), code) <==>
      match code
      case CategoryNotApproved => c.category !in plan.approved
      case SchemaViolation => c.category in plan.approved && !SchemaApproves(plan, c.category, c.fieldName)
      case InventedSpan => !SpanMatchesChunk(c.span, chunk) || !(g.isLabelField(c.fieldName) || g.supported(c))
      case _ => false
  {
    hide SpanMatchesChunk, HasCode, ReasonIf;
    var category := ReasonIf(c.category !in plan.approved, CategoryNotApproved, Text(c.category));
    var field := ReasonIf(c.category in plan.approved && c.fieldName !in plan.approved[c.category], SchemaViolation, Text(c.fieldName));
    var value := ReasonIf(!g.isLabelField(c.fieldName) && !g.supported(c), InventedSpan, Text("value not grounded"));
    var span := if !SpanMatchesChunk(c.span, chunk) then [RejectionReason(InventedSpan, Text("span does not match"))] else value;
    CodesOfSum(category, field, code);
    CodesOfSum(category + field, span, code);
    CodeOfOne(c.category !in plan.approved, CategoryNotApproved, Text(c.category), code);
    CodeOfOne(c.category in plan.approved && c.fieldName !in plan.approved[c.category], SchemaViolation, Text(c.fieldName), code);
    CodeOfOne(!g.isLabelField(c.fieldName) && !g.supported(c), InventedSpan, Text("value not grounded"), code);
    CodeOfOne(true, InventedSpan, Text("span does not match"), code);
  }

  lemma CodesOfSum(a: seq<RejectionReason>, b: seq<RejectionReason>, code: ReasonCode)
    ensures HasCode(a + b, code) <==> HasCode(a, code) || HasCode(b, code)
  {
    forall i | 0 <= i < |a| ensures (a + b)[i] == a[i] {}
    forall i | 0 <= i < |b| ensures (a + b)[|a| + i] == b[i] {}
  }

  lemma CodeOfOne(b: bool, code: ReasonCode, message: Message, other: ReasonCode)
    ensures HasCode(ReasonIf(b, code, message), other) <==> b && code == other
    ensures HasCode([RejectionReason(code, message)], other) <==> code == other
  {
    assert [RejectionReason(code, message)][0].code == code;
  }

  /** The span mark exactly: the span matches, the value is a label or grounded, and the model does not
      call an ungrounded value invented. */
  lemma SpanVerifiedExactly(plan: Plan, chunk: Chunk, c: Candidate, v: VerifierVerdict, g: Grounding)
    ensures BuildVerifierReport(plan, chunk, c, v, g).spanVerified <==>
      && SpanMatchesChunk(c.span, chunk) && (g.isLabelField(c.fieldName) || g.supported(c))
      && (v.accepts || v.code != InventedSpan || g.supported(c))
  {
    hide SpanMatchesChunk, Distinct, DeterministicReasons, SurvivingObjection;
    ReportCodes(plan, chunk, c, v, g, InventedSpan);
    ReportCodes(plan, chunk, c, v, g, InvalidSourceOffsets);
    ReportCodes(plan, chunk, c, v, g, AmbiguousSourceSpan);
  }

  /** The category mark exactly: the slot is approved, and the model does not object to it while the span
      or the value fails. */
  lemma CategoryVerifiedExactly(plan: Plan, chunk: Chunk, c: Candidate, v: VerifierVerdict, g: Grounding)
    ensures BuildVerifierReport(plan, chunk, c, v, g).categoryVerified <==>
      && SchemaApproves(plan, c.category, c.fieldName)
      && (v.accepts || v.code != SchemaViolation || (SpanMatchesChunk(c.span, chunk) && g.supported(c)))
  {
    hide SpanMatchesChunk, Distinct, DeterministicReasons, SurvivingObjection;
    ReportCodes(plan, chunk, c, v, g, CategoryNotApproved);
    ReportCodes(plan, chunk, c, v, g, SchemaViolation);
  }

  lemma DistinctIsEmpty(reasons: seq<RejectionReason>)
    ensures Distinct(reasons) == [] <==> reasons == []
  {
    if reasons != [] {
      assert reasons[0] in Distinct(reasons);
    }
  }
}
