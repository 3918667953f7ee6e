/** llm/views.py: how candidates are shown to the models. */
module CandidateViews {
  import opened Wrappers
  import opened Contracts

  /** What the fields of a candidate view check. */
  predicate ViewHolds(c: Candidate) {
    NonBlank(c.category) && NonBlank(c.fieldName) && NonBlank(c.value) && NonBlank(c.span.text)
  }

  predicate NoCollision(cs: seq<Candidate>, viewId: string -> string) {
    forall i, j :: 0 <= i < j < |cs| && viewId(cs[i].candidateId) == viewId(cs[j].candidateId) ==> cs[i].candidateId == cs[j].candidateId
  }

  lemma NoneCollides(cs: seq<Candidate>, i: nat, viewId: string -> string)
    requires i < |cs| && NoCollision(cs[..i], viewId)
    requires forall k :: 0 <= k < i && viewId(cs[k].candidateId) == viewId(cs[i].candidateId) ==> cs[k].candidateId == cs[i].candidateId
    ensures NoCollision(cs[..i + 1], viewId)
  {
  }

  lemma NothingCollides(viewId: string -> string)
    ensures NoCollision([], viewId)
  {
  }

  lemma Collides(cs: seq<Candidate>, k: nat, i: nat, viewId: string -> string)
    requires k < i < |cs| && viewId(cs[k].candidateId) == viewId(cs[i].candidateId) && cs[k].candidateId != cs[i].candidateId
    ensures !NoCollision(cs, viewId)
  {
  }

  /** `build_candidate_view_map`: it raises exactly when a view is invalid or two candidates share a view
      id, and otherwise leads from the view id of a listed candidate back to its id. */
  method BuildCandidateViewMap(cs: seq<Candidate>, viewId: string -> string) returns (r: Option<map<string, Candidate>>)
    ensures r.Some? <==> (forall c :: c in cs ==> ViewHolds(c)) && NoCollision(cs, viewId)
    ensures r.Some? ==> forall c :: c in cs ==> viewId(c.candidateId) in r.value && r.value[viewId(c.candidateId)].candidateId == c.candidateId
    ensures r.Some? ==> forall id :: id in r.value ==> r.value[id] in cs && viewId(r.value[id].candidateId) == id
  {
    hide ViewHolds, NoCollision;
    var byView: map<string, Candidate> := map[];
    NothingCollides(viewId);
    for i := 0 to |cs|
      invariant forall k :: 0 <= k < i ==> ViewHolds(cs[k])
      invariant forall k :: 0 <= k < i ==>
        viewId(cs[k].candidateId) in byView && byView[viewId(cs[k].candidateId)].candidateId == cs[k].candidateId
      invariant forall id :: id in byView ==> exists k :: 0 <= k < i && byView[id] == cs[k] && viewId(cs[k].candidateId) == id
      invariant NoCollision(cs[..i], viewId)
    {
      var c := cs[i];
      if !ViewHolds(c) {
        return None;
      }
      var id := viewId(c.candidateId);
      if id in byView && byView[id].candidateId != c.candidateId {
        ghost var k :| 0 <= k < i && byView[id] == cs[k] && viewId(cs[k].candidateId) == id;
        Collides(cs, k, i, viewId);
        return None;
      }
      NoneCollides(cs, i, viewId);
      byView := byView[id := c];
    }
    assert cs[..|cs|] == cs;
    return Some(byView);
  }
}
