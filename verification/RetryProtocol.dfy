/** llm/client.py, `complete_structured_with_retry`: complaints are sent back and the reply is merged,
    a bounded number of times. */
module RetryProtocol {
  import opened Wrappers

  /** A stage's part of the protocol: on which outputs its validator raises, the identifiers it complains
      about otherwise, and how a retry is merged; absent is the merge error. */
  datatype Protocol<!T, !Id> = Protocol(raises: T -> bool, complaints: T -> set<Id>, merge: (T, T, set<Id>) -> Option<T>)

  /** Output `k + 1` is output `k` with the next reply merged in. */
  ghost predicate MergedNext<T, Id>(p: Protocol<T, Id>, reply: nat -> T, outputs: seq<T>, k: nat)
    requires k + 1 < |outputs|
  {
    && !p.raises(outputs[k]) && p.complaints(outputs[k]) != {}
    && p.merge(outputs[k], reply(k + 2), p.complaints(outputs[k])) == Some(outputs[k + 1])
  }

  /** The outputs after each successful call, `reply(n)` being the model's reply to attempt `n`. */
  ghost predicate IsHistory<T, Id>(p: Protocol<T, Id>, reply: nat -> T, outputs: seq<T>) {
    && outputs != [] && outputs[0] == reply(1)
    && forall k :: 0 <= k < |outputs| - 1 ==> MergedNext(p, reply, outputs, k)
  }

  /** Why the protocol returned these outputs after `calls` calls: accepted, out of retries, or the last
      reply could not be merged. */
  ghost predicate Stopped<T, Id>(p: Protocol<T, Id>, reply: nat -> T, maxRetries: nat, outputs: seq<T>, calls: nat)
    requires outputs != []
  {
    var last := outputs[|outputs| - 1];
    || (calls == |outputs| <= maxRetries && !p.raises(last) && p.complaints(last) == {})
    || (calls == |outputs| == maxRetries + 1)
    || (calls == |outputs| + 1 <= maxRetries + 1 && !p.raises(last) && p.complaints(last) != {}
        && p.merge(last, reply(calls), p.complaints(last)) == None)
  }

  /** The loop. `attempts` are the attempt numbers of the calls made, `logged` that of the call whose
      log is returned with the output. An exception of the validator leaves the loop: the validator is
      asked about every output but one that is reached with the last retry. */
  method CompleteStructuredWithRetry<T, Id>(p: Protocol<T, Id>, reply: nat -> T, maxRetries: nat)
    returns (raised: bool, output: T, logged: nat, attempts: seq<nat>, ghost outputs: seq<T>)
    ensures IsHistory(p, reply, outputs) && output == outputs[|outputs| - 1] && logged == |outputs|
    ensures 1 <= |attempts| <= maxRetries + 1 && forall k :: 0 <= k < |attempts| ==> attempts[k] == k + 1
    ensures raised <==> |outputs| <= maxRetries && p.raises(output)
    ensures !raised ==> Stopped(p, reply, maxRetries, outputs, |attempts|)
    ensures raised ==> |attempts| == |outputs|
  {
    raised, output, logged, attempts := false, reply(1), 1, [1];
    outputs := [output];
    for retryIndex := 0 to maxRetries
      invariant IsHistory(p, reply, outputs) && output == outputs[|outputs| - 1]
      invariant !raised && logged == |outputs| == |attempts| == retryIndex + 1
      invariant forall k :: 0 <= k < |attempts| ==> attempts[k] == k + 1
    {
      if p.raises(output) {
        raised := true;
        return;
      }
      var complaints := p.complaints(output);
      if complaints == {} {
        return;
      }
      var retry := reply(retryIndex + 2);
      attempts := attempts + [retryIndex + 2];
      var merged := p.merge(output, retry, complaints);
      if merged.None? {
        return;
      }
      ghost var before := outputs;
      output, logged := merged.value, retryIndex + 2;
      outputs := outputs + [output];
      forall k | 0 <= k < |outputs| - 1 ensures MergedNext(p, reply, outputs, k) {
        assert k < |before| - 1 ==> MergedNext(p, reply, before, k);
      }
    }
  }
}
