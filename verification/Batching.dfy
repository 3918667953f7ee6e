/** `partition_into_batches` of critic/batching.py and verifier/service.py. */
module Batching {
  import opened Contracts
  import opened Sorting

  function Flatten<T>(parts: seq<seq<T>>): seq<T> {
    if parts == [] then [] else Flatten(parts[..|parts| - 1]) + parts[|parts| - 1]
  }

  lemma FlattenSnoc<T>(parts: seq<seq<T>>, part: seq<T>)
    ensures Flatten(parts + [part]) == Flatten(parts) + part
  {
    assert (parts + [part])[..|parts|] == parts;
  }

  lemma {:induction false} FlattenSplits(batches: seq<seq<Candidate>>, i: nat)
    requires i < |batches|
    ensures Flatten(batches[..i + 1]) == Flatten(batches[..i]) + batches[i]
    ensures Flatten(batches[..i + 1]) <= Flatten(batches)
    decreases |batches|
  {
    assert batches[..i + 1] == batches[..i] + [batches[i]];
    FlattenSnoc(batches[..i], batches[i]);
    if i + 1 < |batches| {
      var front := batches[..|batches| - 1];
      FlattenSplits(front, i);
      assert front[..i + 1] == batches[..i + 1] && front[..i] == batches[..i];
    } else {
      assert batches[..i + 1] == batches;
    }
  }

  /** The dictionary's lists, in the order of its keys. */
  function Values(order: seq<ChunkId>, byChunk: map<ChunkId, seq<Candidate>>): seq<seq<Candidate>>
    requires forall id :: id in order ==> id in byChunk
  {
    seq(|order|, i requires 0 <= i < |order| => assert order[i] in order; byChunk[order[i]])
  }

  predicate OneChunk(cs: seq<Candidate>, id: ChunkId) {
    forall c :: c in cs ==> c.chunkId == id
  }

  /** The state of the grouping loop. */
  ghost predicate ByChunk(cs: seq<Candidate>, order: seq<ChunkId>, byChunk: map<ChunkId, seq<Candidate>>) {
    && NoRepeats(order) && (forall id :: id in order <==> id in byChunk)
    && (forall id :: id in byChunk ==> OneChunk(byChunk[id], id))
    && multiset(Flatten(Values(order, byChunk))) == multiset(cs)
  }

  /** Appending to one of the lists adds one element to the whole. */
  lemma {:induction false} ValuesGrow(order: seq<ChunkId>, byChunk: map<ChunkId, seq<Candidate>>, id: ChunkId, c: Candidate)
    requires NoRepeats(order) && (forall k :: k in order ==> k in byChunk) && id in order
    ensures forall k :: k in order ==> k in byChunk[id := byChunk[id] + [c]]
    ensures multiset(Flatten(Values(order, byChunk[id := byChunk[id] + [c]]))) == multiset(Flatten(Values(order, byChunk))) + multiset{c}
  {
    var more, n := byChunk[id := byChunk[id] + [c]], |order| - 1;
    var front := order[..n];
    assert Values(order, byChunk) == Values(front, byChunk) + [byChunk[order[n]]];
    assert Values(order, more) == Values(front, more) + [more[order[n]]];
    FlattenSnoc(Values(front, byChunk), byChunk[order[n]]);
    FlattenSnoc(Values(front, more), more[order[n]]);
    if order[n] == id {
      assert Values(front, more) == Values(front, byChunk);
    } else {
      assert id in front;
      ValuesGrow(front, byChunk, id, c);
    }
  }

  lemma ValuesGainKey(order: seq<ChunkId>, byChunk: map<ChunkId, seq<Candidate>>, id: ChunkId, cs: seq<Candidate>)
    requires (forall k :: k in order ==> k in byChunk) && id !in byChunk
    ensures var more := byChunk[id := cs];
      (forall k :: k in order + [id] ==> k in more) && Flatten(Values(order + [id], more)) == Flatten(Values(order, byChunk)) + cs
  {
    hide Flatten;
    var more := byChunk[id := cs];
    assert Values(order + [id], more) == Values(order, byChunk) + [cs];
    FlattenSnoc(Values(order, byChunk), cs);
  }

  lemma ByChunkGrows(cs: seq<Candidate>, order: seq<ChunkId>, byChunk: map<ChunkId, seq<Candidate>>, c: Candidate)
    requires ByChunk(cs, order, byChunk)
    ensures var order' := if c.chunkId in byChunk then order else order + [c.chunkId];
      var prior := if c.chunkId in byChunk then byChunk[c.chunkId] else [];
      ByChunk(cs + [c], order', byChunk[c.chunkId := prior + [c]])
  {
    hide Flatten, Values;
    var id := c.chunkId;
    if id in byChunk {
      ValuesGrow(order, byChunk, id, c);
    } else {
      assert [] + [c] == [c];
      ValuesGainKey(order, byChunk, id, [c]);
    }
  }

  predicate IsBatch(b: seq<Candidate>, batchSize: nat) {
    b != [] && |b| <= batchSize && OneChunk(b, b[0].chunkId)
  }

  /** The batches hold every candidate once, none is empty or too long, and each stays in one chunk. */
  method PartitionIntoBatches(cs: seq<Candidate>, batchSize: nat) returns (batches: seq<seq<Candidate>>)
    requires batchSize > 0
    ensures multiset(Flatten(batches)) == multiset(cs)
    ensures forall b :: b in batches ==> IsBatch(b, batchSize)
  {
    hide ByChunk, OneChunk, Flatten;
    var order: seq<ChunkId>, byChunk: map<ChunkId, seq<Candidate>> := [], map[];
    NothingGrouped();
    for i := 0 to |cs|
      invariant ByChunk(cs[..i], order, byChunk)
    {
      var id := cs[i].chunkId;
      ByChunkGrows(cs[..i], order, byChunk, cs[i]);
      assert cs[..i + 1] == cs[..i] + [cs[i]];
      ghost var before := byChunk;
      if id !in byChunk {
        order := order + [id];
        byChunk := byChunk[id := []];
      }
      byChunk := byChunk[id := byChunk[id] + [cs[i]]];
      assert byChunk == before[id := (if id in before then before[id] else []) + [cs[i]]];
    }
    assert cs[..|cs|] == cs;
    ByChunkMeans(cs, order, byChunk);
    batches := [];
    NothingFlat<Candidate>();
    for i := 0 to |order|
      invariant Flatten(batches) == Flatten(Values(order, byChunk)[..i])
      invariant forall b :: b in batches ==> IsBatch(b, batchSize)
    {
      var group := Values(order, byChunk)[i];
      assert order[i] in order;
      assert Values(order, byChunk)[..i + 1] == Values(order, byChunk)[..i] + [group];
      FlattenSnoc(Values(order, byChunk)[..i], group);
      batches := SliceGroup(batches, group, order[i], batchSize);
    }
    assert Values(order, byChunk)[..|order|] == Values(order, byChunk);
  }

  lemma NothingGrouped()
    ensures ByChunk([], [], map[])
  {
  }

  lemma NothingFlat<T>()
    ensures Flatten<T>([]) == []
  {
  }

  lemma ByChunkMeans(cs: seq<Candidate>, order: seq<ChunkId>, byChunk: map<ChunkId, seq<Candidate>>)
    requires ByChunk(cs, order, byChunk)
    ensures forall id :: id in order ==> id in byChunk && OneChunk(byChunk[id], id)
    ensures multiset(Flatten(Values(order, byChunk))) == multiset(cs)
  {
  }

  method SliceGroup(batches: seq<seq<Candidate>>, group: seq<Candidate>, id: ChunkId, batchSize: nat) returns (r: seq<seq<Candidate>>)
    requires batchSize > 0 && OneChunk(group, id)
    requires forall b :: b in batches ==> IsBatch(b, batchSize)
    ensures Flatten(r) == Flatten(batches) + group
    ensures forall b :: b in r ==> IsBatch(b, batchSize)
  {
    hide Flatten;
    r := batches;
    var start := 0;
    while start < |group|
      invariant start <= |group|
      invariant Flatten(r) == Flatten(batches) + group[..start]
      invariant forall b :: b in r ==> IsBatch(b, batchSize)
    {
      var end := if start + batchSize <= |group| then start + batchSize else |group|;
      FlattenSnoc(r, group[start..end]);
      assert group[..start] + group[start..end] == group[..end];
      r := r + [group[start..end]];
      start := end;
    }
    assert group[..|group|] == group;
  }
}
