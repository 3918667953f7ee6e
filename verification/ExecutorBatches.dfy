/** executor/batching.py under the retry protocol: slots are repaired, never disturbed. */
module ExecutorBatches {
  import opened Wrappers
  import opened BoundaryContracts
  import opened Sorting
  import opened RetryProtocol

  /** The slots that the executor complains about; `bad` says whether a payload has rejection reasons. */
  function BadSlots<P>(output: seq<P>, bad: P -> bool): set<nat> {
    set i: nat | i < |output| && bad(output[i])
  }

  /** Some payload makes no candidate, so that the validator raises. */
  predicate SomeUnbuilt<P>(output: seq<P>, builds: P -> bool) {
    exists i :: 0 <= i < |output| && !builds(output[i])
  }

  /** `validate_executor_batch`: a payload whose candidate cannot be built is not complained about, the
      exception leaves the validator. */
  method ValidateExecutorBatch<P>(output: seq<P>, builds: P -> bool, bad: P -> bool) returns (raised: bool, complaints: seq<nat>)
    ensures raised <==> SomeUnbuilt(output, builds)
    ensures !raised ==> (set i | i in complaints) == BadSlots(output, bad)
    ensures !raised ==> forall i, j :: 0 <= i < j < |complaints| ==> complaints[i] < complaints[j]
  {
    raised, complaints := false, [];
    for i := 0 to |output|
      invariant !raised && forall k :: 0 <= k < i ==> builds(output[k])
      invariant forall k :: k in complaints <==> 0 <= k < i && bad(output[k])
      invariant forall k, m :: 0 <= k < m < |complaints| ==> complaints[k] < complaints[m]
    {
      if !builds(output[i]) {
        return true, [];
      }
      if bad(output[i]) {
        forall k | 0 <= k < |complaints| ensures complaints[k] < i {
          assert complaints[k] in complaints;
        }
        complaints := complaints + [i];
      }
    }
  }

  /** The members of `ids` below `n`, in order. */
  function InOrder(ids: set<nat>, n: nat): (r: seq<nat>)
    ensures forall i :: i in r <==> i in ids && i < n
    ensures forall i, j :: 0 <= i < j < |r| ==> r[i] < r[j]
  {
    if n == 0 then []
    else
      var front := InOrder(ids, n - 1);
      assert forall i :: 0 <= i < |front| ==> front[i] in front;
      if n - 1 in ids then front + [n - 1] else front
  }

  predicate AllBelow(slots: seq<nat>, n: nat) {
    forall k :: 0 <= k < |slots| ==> slots[k] < n
  }

  /** `fixes[k]` goes to slot `slots[k]`. */
  function Patched<P>(prior: seq<P>, slots: seq<nat>, fixes: seq<P>): (r: seq<P>)
    requires |slots| <= |fixes| && AllBelow(slots, |prior|)
    ensures |r| == |prior|
  {
    if slots == [] then prior
    else
      var n := |slots| - 1;
      Patched(prior, slots[..n], fixes)[slots[n] := fixes[n]]
  }

  /** `merge_executor_batch`; absent is the merge error. */
  function MergeExecutor<P>(prior: seq<P>, retry: seq<P>, ids: set<nat>): Option<seq<P>> {
    var slots := InOrder(ids, |prior|);
    assert forall k :: 0 <= k < |slots| ==> slots[k] in slots;
    if |retry| != |ids| || |slots| != |ids| then None else Some(Patched(prior, slots, retry))
  }

  /** The loop that patches the slots. */
  method MergeExecutorBatch<P>(prior: seq<P>, retry: seq<P>, ids: set<nat>) returns (r: Option<seq<P>>)
    ensures r == MergeExecutor(prior, retry, ids)
  {
    var slots := InOrder(ids, |prior|);
    if |retry| != |ids| || |slots| != |ids| {
      return None;
    }
    assert forall k :: 0 <= k < |slots| ==> slots[k] in slots;
    var merged := prior;
    for k := 0 to |slots|
      invariant merged == Patched(prior, slots[..k], retry)
    {
      assert slots[..k + 1][..k] == slots[..k];
      merged := merged[slots[k] := retry[k]];
    }
    assert slots[..|slots|] == slots;
    return Some(merged);
  }

  lemma {:induction false} PatchedAt<P>(prior: seq<P>, slots: seq<nat>, fixes: seq<P>, i: nat)
    requires |slots| <= |fixes| && AllBelow(slots, |prior|) && i < |prior|
    requires forall k, m :: 0 <= k < m < |slots| ==> slots[k] < slots[m]
    ensures i !in slots ==> Patched(prior, slots, fixes)[i] == prior[i]
    ensures forall k :: 0 <= k < |slots| && slots[k] == i ==> Patched(prior, slots, fixes)[i] == fixes[k]
  {
    if slots != [] {
      PatchedAt(prior, slots[..|slots| - 1], fixes, i);
    }
  }

  /** The output keeps its length, a slot that validated is not changed, and no new slot turns bad. */
  ghost predicate Repairs<P>(before: seq<P>, after: seq<P>, bad: P -> bool) {
    && |after| == |before|
    && (forall i :: 0 <= i < |before| && !bad(before[i]) ==> after[i] == before[i])
    && BadSlots(after, bad) <= BadSlots(before, bad)
  }

  lemma AllInOrder(ids: set<nat>, n: nat)
    requires forall i :: i in ids ==> i < n
    ensures |InOrder(ids, n)| == |ids|
  {
    var slots := InOrder(ids, n);
    CountsAgreeWhenDifferent(slots);
    assert Elements(slots) == ids;
  }

  /** Each merge of a retry with the complained slots repairs; it fails exactly on a wrong number of fixes. */
  lemma MergeRepairs<P>(prior: seq<P>, retry: seq<P>, bad: P -> bool)
    ensures MergeExecutor(prior, retry, BadSlots(prior, bad)).Some? <==> |retry| == |BadSlots(prior, bad)|
    ensures var merged := MergeExecutor(prior, retry, BadSlots(prior, bad)); merged.Some? ==> Repairs(prior, merged.value, bad)
  {
    hide InOrder, Patched;
    var ids := BadSlots(prior, bad);
    AllInOrder(ids, |prior|);
    if |retry| == |ids| {
      var slots := InOrder(ids, |prior|);
      assert forall k :: 0 <= k < |slots| ==> slots[k] in slots;
      forall i | 0 <= i < |prior| && !bad(prior[i]) ensures Patched(prior, slots, retry)[i] == prior[i] {
        PatchedAt(prior, slots, retry, i);
      }
    }
  }

  function ExecutorProtocol<P>(builds: P -> bool, bad: P -> bool): Protocol<seq<P>, nat> {
    Protocol(output => SomeUnbuilt(output, builds), output => BadSlots(output, bad), (prior, retry, ids) => MergeExecutor(prior, retry, ids))
  }

  /** Over any replies, every later output repairs every earlier one. */
  lemma {:induction false} ExecutorRunRepairs<P(!new)>(builds: P -> bool, bad: P -> bool, reply: nat -> seq<P>, outputs: seq<seq<P>>, i: nat, j: nat)
    requires IsHistory(ExecutorProtocol(builds, bad), reply, outputs) && i <= j < |outputs|
    ensures Repairs(outputs[i], outputs[j], bad)
    decreases j
  {
    hide MergeExecutor, BadSlots;
    if i < j {
      ExecutorRunRepairs(builds, bad, reply, outputs, i, j - 1);
      assert MergedNext(ExecutorProtocol(builds, bad), reply, outputs, j - 1);
      MergeRepairs(outputs[j - 1], reply(j + 1), bad);
    }
  }
}
