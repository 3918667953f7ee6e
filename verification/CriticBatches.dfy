/** critic/batching.py under the retry protocol: after one successful merge there is a verdict for
    exactly the expected candidates, and complaints only shrink. */
module CriticBatches {
  import opened Wrappers
  import opened Contracts
  import opened Sorting
  import opened CriticCorrections
  import opened DedupRecords
  import opened RetryProtocol

  /** The reasons that the validator reports for a verdict on its candidate. */
  predicate Complains(plan: Plan, chunk: Chunk, candidate: Candidate, v: Verdict, g: Grounding) {
    match v.decision
    case Accept => false
    case Reject => g.contradicts(plan, chunk, candidate, v)
    case Correct =>
      var (corrected, structural) := MaterializeCorrection(v.correction, candidate, chunk);
      var reasons := structural
        + (if corrected.Some? then CorrectionRejectionReasons(plan, chunk, candidate, corrected.value, g) else []);
      reasons != [] && !ShouldPreserveOriginal(plan, chunk, candidate, corrected, reasons, g)
  }

  /** A verdict without complaint stands: the candidate is rejected exactly when it says so. A verdict
      with a complaint is turned round. */
  lemma UncomplainedVerdictStands(plan: Plan, chunk: Chunk, candidate: Candidate, v: Verdict, g: Grounding)
    ensures BuildReview(plan, chunk, candidate, v, g).accepted <==>
      (v.decision != Reject <==> !Complains(plan, chunk, candidate, v, g))
  {
    hide MaterializeCorrection, CorrectionRejectionReasons, ShouldPreserveOriginal;
  }

  /** The verdicts' ids. */
  function Seen(verdicts: seq<Verdict>): set<string> {
    set v | v in verdicts :: v.id
  }

  /** The ids that `validate_critic_batch` complains about: unknown ones, missing ones, and those of bad
      verdicts. */
  function CriticComplaints(verdicts: seq<Verdict>, expected: set<string>, bad: Verdict -> bool): set<string> {
    (Seen(verdicts) - expected) + (expected - Seen(verdicts)) + BadIds(verdicts, expected, bad)
  }

  function BadIds(verdicts: seq<Verdict>, expected: set<string>, bad: Verdict -> bool): set<string> {
    set v | v in verdicts && v.id in expected && bad(v) :: v.id
  }

  /** The validator complains about a verdict on one of the candidates. */
  function BadVerdict(plan: Plan, chunk: Chunk, byId: map<string, Candidate>, g: Grounding): Verdict -> bool {
    (v: Verdict) => v.id in byId && Complains(plan, chunk, byId[v.id], v, g)
  }

  lemma BadIdsSnoc(verdicts: seq<Verdict>, i: nat, expected: set<string>, bad: Verdict -> bool)
    requires i < |verdicts|
    ensures BadIds(verdicts[..i + 1], expected, bad) ==
      BadIds(verdicts[..i], expected, bad) + if verdicts[i].id in expected && bad(verdicts[i]) then {verdicts[i].id} else {}
  {
    assert forall v :: v in verdicts[..i + 1] <==> v in verdicts[..i] || v == verdicts[i];
  }

  /** `validate_critic_batch`: the ids complained about, unknown ones first, then missing ones. */
  method ValidateCriticBatch(verdicts: seq<Verdict>, plan: Plan, chunk: Chunk, byId: map<string, Candidate>, g: Grounding)
    returns (complaints: seq<string>)
    ensures Elements(complaints) == CriticComplaints(verdicts, byId.Keys, BadVerdict(plan, chunk, byId, g))
    ensures complaints == [] ==>
      Seen(verdicts) == byId.Keys && forall v :: v in verdicts ==> v.id in byId && !Complains(plan, chunk, byId[v.id], v, g)
  {
    hide Complains;
    ghost var bad := BadVerdict(plan, chunk, byId, g);
    var expected, seen := byId.Keys, Seen(verdicts);
    var unknown := SortedKeys(seen - expected);
    var missing := SortedKeys(expected - seen);
    complaints := unknown + missing;
    for i := 0 to |verdicts|
      invariant Elements(complaints) == (seen - expected) + (expected - seen) + BadIds(verdicts[..i], expected, bad)
    {
      var v := verdicts[i];
      BadIdsSnoc(verdicts, i, expected, bad);
      if v.id in expected && Complains(plan, chunk, byId[v.id], v, g) {
        complaints := complaints + [v.id];
      }
    }
    assert verdicts[..|verdicts|] == verdicts;
    if complaints == [] {
      NoComplaints(verdicts, expected, bad);
    }
  }

  lemma NoComplaints(verdicts: seq<Verdict>, expected: set<string>, bad: Verdict -> bool)
    requires CriticComplaints(verdicts, expected, bad) == {}
    ensures Seen(verdicts) == expected && forall v :: v in verdicts ==> v.id in expected && !bad(v)
  {
    forall v | v in verdicts ensures v.id in expected && !bad(v) {
      assert v.id in Seen(verdicts);
      assert v.id in expected && bad(v) ==> v.id in BadIds(verdicts, expected, bad);
    }
    assert Seen(verdicts) <= expected && expected <= Seen(verdicts);
  }

  predicate UniqueIds(verdicts: seq<Verdict>) {
    forall i, j :: 0 <= i < j < |verdicts| ==> verdicts[i].id != verdicts[j].id
  }

  /** `fixes[id]` */
  function FixFor(retry: seq<Verdict>, id: string): (r: Verdict)
    requires id in Seen(retry)
    ensures r in retry && r.id == id
  {
    if retry[|retry| - 1].id == id then retry[|retry| - 1]
    else
      assert forall v :: v in retry <==> v in retry[..|retry| - 1] || v == retry[|retry| - 1];
      FixFor(retry[..|retry| - 1], id)
  }

  /** The prior verdicts of expected candidates, with the fixes put in their places. */
  function Replaced(prior: seq<Verdict>, retry: seq<Verdict>, expected: set<string>): seq<Verdict> {
    if prior == [] then []
    else
      var v := prior[|prior| - 1];
      Replaced(prior[..|prior| - 1], retry, expected)
      + if v.id !in expected then [] else if v.id in Seen(retry) then [FixFor(retry, v.id)] else [v]
  }

  /** The fixes of candidates that had no verdict, in input order. */
  function Missing(order: seq<string>, retry: seq<Verdict>, present: set<string>): seq<Verdict> {
    if order == [] then []
    else
      var id := order[|order| - 1];
      Missing(order[..|order| - 1], retry, present) + if id in Seen(retry) && id !in present then [FixFor(retry, id)] else []
  }

  /** `merge_critic_batch`; absent is the merge error. */
  function MergeCritic(prior: seq<Verdict>, retry: seq<Verdict>, ids: set<string>, order: seq<string>): Option<seq<Verdict>> {
    var expected := Elements(order);
    if !UniqueIds(retry) || Seen(retry) != ids * expected then None
    else
      var replaced := Replaced(prior, retry, expected);
      Some(replaced + Missing(order, retry, Seen(replaced)))
  }

  /** The two loops of `merge_critic_batch`. */
  method MergeCriticBatch(prior: seq<Verdict>, retry: seq<Verdict>, ids: set<string>, order: seq<string>) returns (r: Option<seq<Verdict>>)
    ensures r == MergeCritic(prior, retry, ids, order)
  {
    hide FixFor, Seen;
    var expected := Elements(order);
    if !UniqueIds(retry) || Seen(retry) != ids * expected {
      return None;
    }
    var merged: seq<Verdict>, mergedIds: set<string> := [], {};
    NothingSeen();
    for i := 0 to |prior|
      invariant merged == Replaced(prior[..i], retry, expected) && mergedIds == Seen(merged)
    {
      assert prior[..i + 1][..i] == prior[..i];
      var v := prior[i];
      if v.id !in expected {
        continue;
      }
      var kept := if v.id in Seen(retry) then FixFor(retry, v.id) else v;
      SeenSnoc(merged, kept);
      merged := merged + [kept];
      mergedIds := mergedIds + {kept.id};
    }
    assert prior[..|prior|] == prior;
    var appended: seq<Verdict> := [];
    for i := 0 to |order|
      invariant appended == Missing(order[..i], retry, mergedIds)
    {
      assert order[..i + 1][..i] == order[..i];
      if order[i] in Seen(retry) && order[i] !in mergedIds {
        appended := appended + [FixFor(retry, order[i])];
      }
    }
    assert order[..|order|] == order;
    return Some(merged + appended);
  }

  lemma NothingSeen()
    ensures Seen([]) == {}
  {
  }

  lemma SeenSnoc(verdicts: seq<Verdict>, v: Verdict)
    ensures Seen(verdicts + [v]) == Seen(verdicts) + {v.id}
  {
  }

  lemma SeenConcat(a: seq<Verdict>, b: seq<Verdict>)
    ensures Seen(a + b) == Seen(a) + Seen(b)
  {
  }

  lemma {:induction false} ReplacedMember(prior: seq<Verdict>, retry: seq<Verdict>, expected: set<string>, x: Verdict)
    ensures x in Replaced(prior, retry, expected) <==>
      exists v :: v in prior && v.id in expected && x == if v.id in Seen(retry) then FixFor(retry, v.id) else v
  {
    hide FixFor, Seen;
    if prior != [] {
      var front, last := prior[..|prior| - 1], prior[|prior| - 1];
      ReplacedMember(front, retry, expected, x);
      assert forall v :: v in prior <==> v in front || v == last;
    }
  }

  lemma {:induction false} MissingMember(order: seq<string>, retry: seq<Verdict>, present: set<string>, x: Verdict)
    ensures x in Missing(order, retry, present) <==> exists id :: id in order && id in Seen(retry) && id !in present && x == FixFor(retry, id)
  {
    hide FixFor, Seen;
    if order != [] {
      var front, last := order[..|order| - 1], order[|order| - 1];
      MissingMember(front, retry, present, x);
      assert forall id :: id in order <==> id in front || id == last;
    }
  }

  /** A verdict of the merged batch is a prior one of an expected candidate without complaint, or a fix. */
  lemma MergedMember(prior: seq<Verdict>, retry: seq<Verdict>, ids: set<string>, order: seq<string>, x: Verdict)
    requires MergeCritic(prior, retry, ids, order).Some? && x in MergeCritic(prior, retry, ids, order).value
    ensures x.id in order && (if x.id in ids then x in retry else x in prior)
  {
    hide FixFor, Seen, Replaced, Missing, UniqueIds;
    var expected := Elements(order);
    var replaced := Replaced(prior, retry, expected);
    ReplacedMember(prior, retry, expected, x);
    MissingMember(order, retry, Seen(replaced), x);
  }

  /** Every prior verdict of an expected candidate without complaint is still there. */
  lemma UncomplainedIsKept(prior: seq<Verdict>, retry: seq<Verdict>, ids: set<string>, order: seq<string>, v: Verdict)
    requires MergeCritic(prior, retry, ids, order).Some? && v in prior && v.id in order && v.id !in ids
    ensures v in MergeCritic(prior, retry, ids, order).value
  {
    hide FixFor, Seen, Replaced, Missing, UniqueIds;
    var expected := Elements(order);
    ReplacedMember(prior, retry, expected, v);
  }

  /** With the complained ids of the prior batch, a merge yields verdicts for exactly the expected ids. */
  lemma MergeCompletes(prior: seq<Verdict>, retry: seq<Verdict>, order: seq<string>, bad: Verdict -> bool)
    ensures var expected := Elements(order);
      var merged := MergeCritic(prior, retry, CriticComplaints(prior, expected, bad), order);
      merged.Some? ==> Seen(merged.value) == expected
  {
    hide FixFor, Replaced, Missing, UniqueIds, MergeCritic;
    var expected := Elements(order);
    var ids := CriticComplaints(prior, expected, bad);
    var merged := MergeCritic(prior, retry, ids, order);
    if merged.Some? {
      forall x | x in merged.value ensures x.id in expected {
        MergedMember(prior, retry, ids, order, x);
      }
      forall id | id in expected ensures id in Seen(merged.value) {
        ExpectedIsSeen(prior, retry, order, bad, id);
      }
    }
  }

  lemma ExpectedIsSeen(prior: seq<Verdict>, retry: seq<Verdict>, order: seq<string>, bad: Verdict -> bool, id: string)
    requires id in order
    requires var expected := Elements(order); MergeCritic(prior, retry, CriticComplaints(prior, expected, bad), order).Some?
    ensures var expected := Elements(order);
      id in Seen(MergeCritic(prior, retry, CriticComplaints(prior, expected, bad), order).value)
  {
    hide Replaced, Missing, UniqueIds;
    var expected := Elements(order);
    var ids := CriticComplaints(prior, expected, bad);
    var replaced := Replaced(prior, retry, expected);
    var missing := Missing(order, retry, Seen(replaced));
    SeenConcat(replaced, missing);
    if id in Seen(prior) {
      var v :| v in prior && v.id == id;
      var x := if v.id in Seen(retry) then FixFor(retry, v.id) else v;
      ReplacedMember(prior, retry, expected, x);
      assert x in replaced && x.id == id;
    } else {
      assert id in ids * expected;
      var x := FixFor(retry, id);
      if id !in Seen(replaced) {
        MissingMember(order, retry, Seen(replaced), x);
        assert x in missing && x.id == id;
      }
    }
  }

  /** Complaints only shrink, and a candidate without complaint keeps its verdicts. */
  lemma MergeShrinks(prior: seq<Verdict>, retry: seq<Verdict>, order: seq<string>, bad: Verdict -> bool)
    ensures var expected := Elements(order);
      var ids := CriticComplaints(prior, expected, bad);
      var merged := MergeCritic(prior, retry, ids, order);
      merged.Some? ==>
        && CriticComplaints(merged.value, expected, bad) <= ids
        && forall v: Verdict :: v.id in expected && v.id !in ids ==> (v in prior <==> v in merged.value)
  {
    hide FixFor, Replaced, Missing, UniqueIds, MergeCritic;
    var expected := Elements(order);
    var ids := CriticComplaints(prior, expected, bad);
    var merged := MergeCritic(prior, retry, ids, order);
    if merged.Some? {
      MergeCompletes(prior, retry, order, bad);
      forall x | x in merged.value ensures x.id in expected && (x.id in ids || x in prior) {
        MergedMember(prior, retry, ids, order, x);
      }
      forall v | v in prior && v.id in expected && v.id !in ids ensures v in merged.value {
        UncomplainedIsKept(prior, retry, ids, order, v);
      }
    }
  }

  function CriticProtocol(order: seq<string>, bad: Verdict -> bool): Protocol<seq<Verdict>, string> {
    Protocol(output => false, output => CriticComplaints(output, Elements(order), bad), (prior, retry, ids) => MergeCritic(prior, retry, ids, order))
  }

  /** Over any replies: complaints shrink from output to output, and every output after the first has
      verdicts for exactly the expected candidates. */
  lemma {:induction false} CriticRunShrinks(order: seq<string>, bad: Verdict -> bool, reply: nat -> seq<Verdict>, outputs: seq<seq<Verdict>>, i: nat, j: nat)
    requires IsHistory(CriticProtocol(order, bad), reply, outputs) && i <= j < |outputs|
    ensures var expected := Elements(order);
      && CriticComplaints(outputs[j], expected, bad) <= CriticComplaints(outputs[i], expected, bad)
      && (j > 0 ==> Seen(outputs[j]) == expected)
    decreases j
  {
    hide MergeCritic, CriticComplaints, Seen;
    if j > 0 {
      assert MergedNext(CriticProtocol(order, bad), reply, outputs, j - 1);
      MergeShrinks(outputs[j - 1], reply(j + 1), order, bad);
      MergeCompletes(outputs[j - 1], reply(j + 1), order, bad);
      if i < j {
        CriticRunShrinks(order, bad, reply, outputs, i, j - 1);
      }
    }
  }

  /** A candidate is left without a verdict only when no retry could ever be merged. */
  lemma MissingOnlyWithoutMerge(order: seq<string>, bad: Verdict -> bool, reply: nat -> seq<Verdict>, outputs: seq<seq<Verdict>>)
    requires IsHistory(CriticProtocol(order, bad), reply, outputs)
    requires exists id :: id in order && id !in Seen(outputs[|outputs| - 1])
    ensures |outputs| == 1 && CriticComplaints(outputs[0], Elements(order), bad) != {}
  {
    hide CriticComplaints, MergeCritic, MergedNext;
    CriticRunShrinks(order, bad, reply, outputs, 0, |outputs| - 1);
    var id :| id in order && id !in Seen(outputs[|outputs| - 1]);
    if |outputs| == 1 {
      UnseenIsComplained(outputs[0], order, bad, id);
    }
  }

  lemma UnseenIsComplained(verdicts: seq<Verdict>, order: seq<string>, bad: Verdict -> bool, id: string)
    requires id in order && id !in Seen(verdicts)
    ensures id in CriticComplaints(verdicts, Elements(order), bad)
  {
  }
}
