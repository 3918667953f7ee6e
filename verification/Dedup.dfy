/** executor/dedup.py: candidates with the same identity are merged into the one with the least id. */
module Dedup {
  import opened Wrappers
  import opened Contracts
  import opened Sorting

  datatype KeySource = FromCanonical | FromVerbatim | FromValue

  /** The key of canonical_values.py; folding its text is a parameter. */
  datatype CanonicalKey = CanonicalKey(kind: string, key: string, source: KeySource,
                                       policyId: Option<string>, policyVersion: Option<string>)

  datatype DedupKey =
    | ByCanonicalValue(docId: string, lens: string, category: string, fieldName: string, key: CanonicalKey)
    | BySourceSpan(docId: string, lens: string, category: string, fieldName: string, key: CanonicalKey,
                   startChar: nat, endChar: nat, startByte: nat, endByte: nat, spanDocId: string, text: string)

  function TextOr(o: Option<string>, otherwise: string): string {
    if o.Some? && o.value != [] then o.value else otherwise
  }

  /** `canonical_value_key_for_candidate` */
  function CanonicalKeyOf(c: Candidate, normalize: string -> string): CanonicalKey {
    var n := c.normalization;
    var (raw, source) :=
      match n.status
      case Canonicalized => (TextOr(n.canonical, c.value), FromCanonical)
      case VerbatimOnly => (TextOr(n.verbatim, c.value), FromVerbatim)
      case _ => (c.value, FromValue);
    CanonicalKey(n.kind, normalize(raw), source, n.policyId, n.policyVersion)
  }

  /** The validator of the key, whose text must not be blank. */
  predicate KeyHolds(c: Candidate, normalize: string -> string) {
    NonBlank(CanonicalKeyOf(c, normalize).key)
  }

  predicate KeysHold(all: set<Candidate>, normalize: string -> string) {
    forall c :: c in all ==> KeyHolds(c, normalize)
  }

  /** `_dedup_identity` of a candidate whose key holds */
  function Identity(c: Candidate, normalize: string -> string): DedupKey {
    var key, s := CanonicalKeyOf(c, normalize), c.span;
    if c.normalization.status == Canonicalized then ByCanonicalValue(c.docId, c.lens, c.category, c.fieldName, key)
    else BySourceSpan(c.docId, c.lens, c.category, c.fieldName, key,
      s.startChar, s.endChar, s.startByte, s.endByte, s.docId, s.text)
  }

  predicate IdLess(a: Candidate, b: Candidate) {
    Less(a.candidateId, b.candidateId)
  }

  /** Candidate ids are primary keys: no two candidates share one. */
  predicate DistinctIds(all: set<Candidate>) {
    forall a, b :: a in all && b in all && a.candidateId == b.candidateId ==> a == b
  }

  lemma IdsOrderAll(all: set<Candidate>)
    requires DistinctIds(all)
    ensures OrdersAll(IdLess, all)
  {
    hide Less;
    forall a ensures !IdLess(a, a) {
      LessIsStrict(a.candidateId);
    }
    forall a, b | a in all && b in all && a != b ensures IdLess(a, b) || IdLess(b, a) {
      LessIsTotal(a.candidateId, b.candidateId);
    }
    forall a, b, c | a in all && b in all && c in all && IdLess(a, b) && IdLess(b, c) ensures IdLess(a, c) {
      LessIsTransitive(a.candidateId, b.candidateId, c.candidateId);
    }
  }

  predicate SameIdentity(a: Candidate, b: Candidate, normalize: string -> string) {
    Identity(a, normalize) == Identity(b, normalize)
  }

  /** No candidate of the same identity has a lesser id. */
  predicate IsPrimary(all: set<Candidate>, c: Candidate, normalize: string -> string) {
    c in all && forall d :: d in all && SameIdentity(d, c, normalize) ==> !IdLess(d, c)
  }

  function Primaries(all: set<Candidate>, normalize: string -> string): set<Candidate> {
    set c | c in all && IsPrimary(all, c, normalize)
  }

  /** `p` is the primary that `c` is merged into. */
  predicate MergedInto(all: set<Candidate>, c: Candidate, p: Candidate, normalize: string -> string) {
    c in all && c != p && IsPrimary(all, p, normalize) && SameIdentity(c, p, normalize)
  }

  function DedupRejection(duplicateId: string, primaryId: string): Rejection {
    Rejection(duplicateId, DedupStage, [RejectionReason(DuplicateCandidate, Text("merged_into:" + primaryId))])
  }

  /** Every identity class has a primary. */
  lemma {:induction false} HasPrimary(all: set<Candidate>, c: Candidate, normalize: string -> string) returns (p: Candidate)
    requires DistinctIds(all) && c in all
    ensures IsPrimary(all, p, normalize) && SameIdentity(c, p, normalize)
    decreases |set d | d in all && IdLess(d, c)|
  {
    hide Identity, Less;
    if IsPrimary(all, c, normalize) {
      p := c;
    } else {
      var d :| d in all && SameIdentity(d, c, normalize) && IdLess(d, c);
      FewerBelow(all, d, c);
      p := HasPrimary(all, d, normalize);
    }
  }

  lemma FewerBelow(all: set<Candidate>, d: Candidate, c: Candidate)
    requires d in all && IdLess(d, c)
    ensures |set e | e in all && IdLess(e, d)| < |set e | e in all && IdLess(e, c)|
  {
    hide Less;
    var small, large := set e | e in all && IdLess(e, d), set e | e in all && IdLess(e, c);
    forall e | e in small ensures e in large {
      LessIsTransitive(e.candidateId, d.candidateId, c.candidateId);
    }
    LessIsStrict(d.candidateId);
    assert d in large && d !in small;
    ProperSubset(small, large, d);
  }

  lemma ProperSubset<T>(small: set<T>, large: set<T>, x: T)
    requires small <= large && x in large && x !in small
    ensures |small| < |large|
  {
    assert small <= large - {x};
    SubsetSize(small, large - {x});
  }

  lemma {:induction false} SubsetSize<T>(small: set<T>, large: set<T>)
    requires small <= large
    ensures |small| <= |large|
  {
    if small != {} {
      var x :| x in small;
      SubsetSize(small - {x}, large - {x});
    }
  }

  /** An identity class has one primary. */
  lemma PrimaryIsUnique(all: set<Candidate>, p: Candidate, q: Candidate, normalize: string -> string)
    requires DistinctIds(all) && IsPrimary(all, p, normalize) && IsPrimary(all, q, normalize) && SameIdentity(p, q, normalize)
    ensures p == q
  {
    hide Identity, Less;
    LessIsTotal(p.candidateId, q.candidateId);
  }

  /** What `deduplicate_candidates` returns, said of the set of its candidates. */
  ghost predicate Deduplicated(all: set<Candidate>, canonical: seq<Candidate>, merged: map<string, string>, normalize: string -> string) {
    && IsSorted(canonical, IdLess) && Elements(canonical) == Primaries(all, normalize)
    && (forall id :: id in merged <==> exists c, p :: MergedInto(all, c, p, normalize) && c.candidateId == id)
    && (forall c, p :: MergedInto(all, c, p, normalize) && c.candidateId in merged ==> merged[c.candidateId] == p.candidateId)
  }

  /** The result depends on the set of candidates alone, so neither order nor a replay in id order matters. */
  lemma DedupIsDetermined(all: set<Candidate>, canonical: seq<Candidate>, merged: map<string, string>,
                          canonical': seq<Candidate>, merged': map<string, string>, normalize: string -> string)
    requires DistinctIds(all)
    requires Deduplicated(all, canonical, merged, normalize) && Deduplicated(all, canonical', merged', normalize)
    ensures canonical == canonical' && merged == merged'
  {
    hide MergedInto, Less, IsPrimary;
    IdsOrderAll(all);
    SortedIsUnique(canonical, canonical', IdLess, all);
    forall id | id in merged ensures merged[id] == merged'[id] {
      var c, p :| MergedInto(all, c, p, normalize) && c.candidateId == id;
    }
    assert merged.Keys == merged'.Keys;
  }

  function Ids(cs: set<Candidate>): set<string> {
    set c | c in cs :: c.candidateId
  }

  /** Canonical and merged ids partition the input, and each merged id maps to a canonical id that is
      less than it and the least of its class. */
  lemma DedupPartitions(all: set<Candidate>, canonical: seq<Candidate>, merged: map<string, string>, normalize: string -> string)
    requires DistinctIds(all) && Deduplicated(all, canonical, merged, normalize)
    ensures Ids(Elements(canonical)) + merged.Keys == Ids(all) && Ids(Elements(canonical)) !! merged.Keys
    ensures forall id :: id in merged ==> merged[id] in Ids(Elements(canonical)) && Less(merged[id], id)
    ensures forall c, d :: c in all && d in all && SameIdentity(c, d, normalize) && c.candidateId in merged ==>
      !Less(d.candidateId, merged[c.candidateId])
  {
    hide Less, Identity, Deduplicated, IsPrimary;
    CanonicalAreInput(all, canonical, merged, normalize);
    forall c | c in all ensures c.candidateId in Ids(Elements(canonical)) <==> c.candidateId !in merged {
      EitherPrimaryOrMerged(all, canonical, merged, c, normalize);
    }
    forall id | id in merged
      ensures id in Ids(all) && merged[id] in Ids(Elements(canonical)) && Less(merged[id], id)
    {
      MergedIdLeads(all, canonical, merged, id, normalize);
    }
    forall c, d | c in all && d in all && SameIdentity(c, d, normalize) && c.candidateId in merged
      ensures !Less(d.candidateId, merged[c.candidateId])
    {
      PrimaryIsLeast(all, canonical, merged, c, d, normalize);
    }
  }

  lemma CanonicalAreInput(all: set<Candidate>, canonical: seq<Candidate>, merged: map<string, string>, normalize: string -> string)
    requires Deduplicated(all, canonical, merged, normalize)
    ensures Elements(canonical) <= all
  {
  }

  lemma MergedIdLeads(all: set<Candidate>, canonical: seq<Candidate>, merged: map<string, string>, id: string, normalize: string -> string)
    requires DistinctIds(all) && Deduplicated(all, canonical, merged, normalize) && id in merged
    ensures id in Ids(all) && merged[id] in Ids(Elements(canonical)) && Less(merged[id], id)
  {
    hide Less, Identity;
    var c, p :| MergedInto(all, c, p, normalize) && c.candidateId == id;
    assert p in Elements(canonical);
    LessIsTotal(p.candidateId, c.candidateId);
  }

  lemma PrimaryIsLeast(all: set<Candidate>, canonical: seq<Candidate>, merged: map<string, string>, c: Candidate, d: Candidate,
                       normalize: string -> string)
    requires DistinctIds(all) && Deduplicated(all, canonical, merged, normalize)
    requires c in all && d in all && SameIdentity(c, d, normalize) && c.candidateId in merged
    ensures !Less(d.candidateId, merged[c.candidateId])
  {
    hide Less, Identity;
    var c', p :| MergedInto(all, c', p, normalize) && c'.candidateId == c.candidateId;
    assert c' == c && merged[c.candidateId] == p.candidateId;
    assert !IdLess(d, p);
  }

  lemma EitherPrimaryOrMerged(all: set<Candidate>, canonical: seq<Candidate>, merged: map<string, string>, c: Candidate, normalize: string -> string)
    requires DistinctIds(all) && Deduplicated(all, canonical, merged, normalize) && c in all
    ensures c.candidateId in Ids(Elements(canonical)) <==> c.candidateId !in merged
    ensures c in canonical <==> c.candidateId !in merged
  {
    hide Less, Identity;
    var p := HasPrimary(all, c, normalize);
    if p == c {
      assert c in Elements(canonical);
      forall d, q | MergedInto(all, d, q, normalize) && d.candidateId == c.candidateId ensures false {
        PrimaryIsUnique(all, c, q, normalize);
      }
    } else {
      assert MergedInto(all, c, p, normalize);
      forall d | d in canonical && d.candidateId == c.candidateId ensures false {
        assert d in Elements(canonical);
        PrimaryIsUnique(all, c, p, normalize);
      }
    }
  }

  /** Deduplicating the canonical candidates again merges nothing. */
  lemma DedupIsIdempotent(all: set<Candidate>, canonical: seq<Candidate>, merged: map<string, string>,
                          again: seq<Candidate>, mergedAgain: map<string, string>, normalize: string -> string)
    requires DistinctIds(all) && Deduplicated(all, canonical, merged, normalize)
    requires Deduplicated(Elements(canonical), again, mergedAgain, normalize)
    ensures again == canonical && mergedAgain == map[]
  {
    hide Less, Identity;
    var kept := Elements(canonical);
    forall c | c in kept ensures IsPrimary(kept, c, normalize) {
    }
    assert Elements(again) == kept;
    IdsOrderAll(all);
    SortedIsUnique(again, canonical, IdLess, all);
    forall c, p | MergedInto(kept, c, p, normalize) ensures false {
      PrimaryIsUnique(kept, c, p, normalize);
    }
  }

  // The algorithm

  /** The candidates of one identity, in input order. */
  function Class(cs: seq<Candidate>, key: DedupKey, normalize: string -> string): seq<Candidate> {
    if cs == [] then []
    else
      var last := cs[|cs| - 1];
      Class(cs[..|cs| - 1], key, normalize) + if Identity(last, normalize) == key then [last] else []
  }

  /** `_primary_candidate`; of equal ids the first. */
  function Primary(group: seq<Candidate>): (r: Candidate)
    requires group != []
    ensures r in group && forall d :: d in group ==> !IdLess(d, r)
  {
    LessIsStrict(group[|group| - 1].candidateId);
    if |group| == 1 then group[0]
    else
      var front, last := Primary(group[..|group| - 1]), group[|group| - 1];
      assert forall d :: d in group ==> d in group[..|group| - 1] || d == last;
      if IdLess(last, front) then
        NoneBelow(group[..|group| - 1], front, last);
        last
      else front
  }

  lemma NoneBelow(group: seq<Candidate>, front: Candidate, last: Candidate)
    requires (forall d :: d in group ==> !IdLess(d, front)) && IdLess(last, front)
    ensures forall d :: d in group ==> !IdLess(d, last)
  {
    hide Less;
    forall d | d in group && IdLess(d, last) ensures false {
      LessIsTransitive(d.candidateId, last.candidateId, front.candidateId);
    }
  }

  predicate GroupLess(g: seq<Candidate>, h: seq<Candidate>) {
    g != [] && h != [] && IdLess(Primary(g), Primary(h))
  }

  /** A whole identity class of the input. */
  predicate IsGroup(cs: seq<Candidate>, g: seq<Candidate>, normalize: string -> string) {
    g != [] && g == Class(cs, Identity(g[0], normalize), normalize)
  }

  /** Every class of the input, once. */
  ghost predicate Groups(cs: seq<Candidate>, groups: seq<seq<Candidate>>, normalize: string -> string) {
    && NoRepeats(groups) && (forall g :: g in groups ==> IsGroup(cs, g, normalize))
    && (forall c :: c in cs ==> Class(cs, Identity(c, normalize), normalize) in groups)
  }

  lemma {:induction false} ClassMembers(cs: seq<Candidate>, key: DedupKey, normalize: string -> string)
    ensures forall c :: c in Class(cs, key, normalize) <==> c in cs && Identity(c, normalize) == key
    ensures NoRepeats(cs) ==> NoRepeats(Class(cs, key, normalize))
  {
    hide Identity;
    if cs != [] {
      var front, last := cs[..|cs| - 1], cs[|cs| - 1];
      ClassMembers(front, key, normalize);
      assert forall c :: c in cs <==> c in front || c == last;
      if NoRepeats(cs) {
        LastIsNew(cs);
      }
    }
  }

  lemma LastIsNew(cs: seq<Candidate>)
    requires cs != [] && NoRepeats(cs)
    ensures NoRepeats(cs[..|cs| - 1]) && cs[|cs| - 1] !in cs[..|cs| - 1]
  {
  }

  lemma {:induction false} ClassIsEmpty(cs: seq<Candidate>, key: DedupKey, normalize: string -> string)
    requires forall c :: c in cs ==> Identity(c, normalize) != key
    ensures Class(cs, key, normalize) == []
  {
    hide Identity;
    if cs != [] {
      ClassIsEmpty(cs[..|cs| - 1], key, normalize);
    }
  }

  lemma IdentityOfClass(cs: seq<Candidate>, key: DedupKey, normalize: string -> string)
    requires Class(cs, key, normalize) != []
    ensures Identity(Class(cs, key, normalize)[0], normalize) == key && IsGroup(cs, Class(cs, key, normalize), normalize)
  {
    hide Identity;
    ClassMembers(cs, key, normalize);
    assert Class(cs, key, normalize)[0] in Class(cs, key, normalize);
  }

  lemma ClassSnoc(cs: seq<Candidate>, i: nat, key: DedupKey, normalize: string -> string)
    requires i < |cs|
    ensures Class(cs[..i + 1], key, normalize) ==
      Class(cs[..i], key, normalize) + if Identity(cs[i], normalize) == key then [cs[i]] else []
  {
    assert cs[..i + 1][..i] == cs[..i];
  }

  /** The state of the grouping loop: the dictionary and the order of its keys. */
  ghost predicate Grouped(cs: seq<Candidate>, byKey: map<DedupKey, seq<Candidate>>, order: seq<DedupKey>, normalize: string -> string) {
    && NoRepeats(order) && (forall key :: key in order <==> key in byKey)
    && (forall key :: key in byKey ==> byKey[key] == Class(cs, key, normalize) != [])
    && (forall c :: c in cs ==> Identity(c, normalize) in byKey)
  }

  lemma GroupedNothing(normalize: string -> string)
    ensures Grouped([], map[], [], normalize)
  {
  }

  lemma GroupedMore(cs: seq<Candidate>, i: nat, byKey: map<DedupKey, seq<Candidate>>, order: seq<DedupKey>, normalize: string -> string)
    requires i < |cs| && Grouped(cs[..i], byKey, order, normalize)
    ensures var key := Identity(cs[i], normalize);
      Grouped(cs[..i + 1], byKey[key := (if key in byKey then byKey[key] else []) + [cs[i]]],
        if key in byKey then order else order + [key], normalize)
  {
    hide Identity, Class;
    var key := Identity(cs[i], normalize);
    forall k ensures Class(cs[..i + 1], k, normalize) == Class(cs[..i], k, normalize) + (if k == key then [cs[i]] else []) {
      ClassSnoc(cs, i, k, normalize);
    }
    if key !in byKey {
      ClassIsEmpty(cs[..i], key, normalize);
    }
    assert forall c :: c in cs[..i + 1] <==> c in cs[..i] || c == cs[i];
  }

  /** `by_key`, sorted by primary id; a key that does not hold raises. */
  method GroupByIdentity(cs: seq<Candidate>, normalize: string -> string) returns (raised: bool, groups: seq<seq<Candidate>>)
    ensures raised <==> !KeysHold(Elements(cs), normalize)
    ensures !raised ==> Groups(cs, groups, normalize)
    ensures !raised ==> exists found :: Groups(cs, found, normalize) && groups == Sort(found, GroupLess)
  {
    hide Identity, Class, Primary, Grouped, Groups, Sort, KeyHolds;
    raised := false;
    var byKey: map<DedupKey, seq<Candidate>> := map[];
    var order: seq<DedupKey> := [];
    GroupedNothing(normalize);
    for i := 0 to |cs|
      invariant Grouped(cs[..i], byKey, order, normalize)
      invariant !raised && forall k :: 0 <= k < i ==> KeyHolds(cs[k], normalize)
    {
      if !KeyHolds(cs[i], normalize) {
        assert cs[i] in Elements(cs);
        return true, [];
      }
      GroupedMore(cs, i, byKey, order, normalize);
      var key := Identity(cs[i], normalize);
      ghost var before := byKey;
      if key !in byKey {
        order := order + [key];
        byKey := byKey[key := []];
      }
      byKey := byKey[key := byKey[key] + [cs[i]]];
      assert byKey == before[key := (if key in before then before[key] else []) + [cs[i]]];
    }
    assert cs[..|cs|] == cs;
    var found := ValuesInOrder(cs, byKey, order, normalize);
    SortedGroups(cs, found, normalize);
    groups := Sort(found, GroupLess);
  }

  /** `by_key.values()` */
  method ValuesInOrder(cs: seq<Candidate>, byKey: map<DedupKey, seq<Candidate>>, order: seq<DedupKey>, normalize: string -> string)
    returns (found: seq<seq<Candidate>>)
    requires Grouped(cs, byKey, order, normalize)
    ensures Groups(cs, found, normalize)
  {
    hide Identity, Class;
    found := [];
    for i := 0 to |order|
      invariant |found| == i && forall k :: 0 <= k < i ==> order[k] in byKey && found[k] == byKey[order[k]]
    {
      assert order[i] in order;
      found := found + [byKey[order[i]]];
    }
    forall g | g in found ensures IsGroup(cs, g, normalize) {
      var k :| 0 <= k < |found| && found[k] == g;
      IdentityOfClass(cs, order[k], normalize);
    }
    forall i, j | 0 <= i < j < |found| ensures found[i] != found[j] {
      IdentityOfClass(cs, order[i], normalize);
      IdentityOfClass(cs, order[j], normalize);
    }
    forall c | c in cs ensures Class(cs, Identity(c, normalize), normalize) in found {
      assert Identity(c, normalize) in order;
      var k :| 0 <= k < |order| && order[k] == Identity(c, normalize);
      assert found[k] in found;
    }
  }

  lemma SortedGroups(cs: seq<Candidate>, found: seq<seq<Candidate>>, normalize: string -> string)
    requires Groups(cs, found, normalize)
    ensures Groups(cs, Sort(found, GroupLess), normalize)
  {
    hide Identity, Class, IsGroup, Sort, GroupLess;
    SortKeepsElements(found, GroupLess);
    SortMembers(found, GroupLess);
    SameMultisetNoRepeats(found, Sort(found, GroupLess));
  }

  lemma {:induction false} CountOne<T>(s: seq<T>, x: T)
    requires NoRepeats(s)
    ensures multiset(s)[x] <= 1
  {
    if s != [] {
      assert s == s[..|s| - 1] + [s[|s| - 1]];
      CountOne(s[..|s| - 1], x);
    }
  }

  lemma SameMultisetNoRepeats<T>(a: seq<T>, b: seq<T>)
    requires NoRepeats(a) && multiset(a) == multiset(b)
    ensures NoRepeats(b)
  {
    forall i, j | 0 <= i < j < |b| && b[i] == b[j] ensures false {
      CountOne(a, b[i]);
      TwiceCounts(b, i, j);
    }
  }

  lemma TwiceCounts<T>(b: seq<T>, i: nat, j: nat)
    requires i < j < |b| && b[i] == b[j]
    ensures multiset(b)[b[i]] >= 2
  {
    assert b == b[..j] + [b[j]] + b[j + 1..];
    assert b[i] in b[..j];
  }

  /** In a whole class the primary is the primary of the input, and the others are merged into it. */
  lemma GroupMeaning(cs: seq<Candidate>, g: seq<Candidate>, normalize: string -> string)
    requires IsGroup(cs, g, normalize)
    ensures Elements(g) <= Elements(cs) && IsPrimary(Elements(cs), Primary(g), normalize)
    ensures forall c :: c in g && c != Primary(g) ==> MergedInto(Elements(cs), c, Primary(g), normalize)
    ensures NoRepeats(cs) ==> NoRepeats(g)
  {
    hide Identity, Less, Class;
    ClassMembers(cs, Identity(g[0], normalize), normalize);
  }

  lemma GroupsAreOrdered(cs: seq<Candidate>, groups: seq<seq<Candidate>>, normalize: string -> string)
    requires Groups(cs, groups, normalize) && DistinctIds(Elements(cs))
    ensures OrdersAll(GroupLess, Elements(groups))
  {
    hide Less, IsPrimary, MergedInto, Primary, Identity, Class, GroupLess, IsGroup;
    forall g, h | g in groups && h in groups && g != h ensures GroupLess(g, h) || GroupLess(h, g) {
      GroupsCompare(cs, g, h, normalize);
    }
    forall g, h, k | GroupLess(g, h) && GroupLess(h, k) ensures GroupLess(g, k) {
      GroupLessIsTransitive(g, h, k);
    }
    forall g ensures !GroupLess(g, g) {
      GroupLessIsStrict(g);
    }
  }

  lemma GroupsCompare(cs: seq<Candidate>, g: seq<Candidate>, h: seq<Candidate>, normalize: string -> string)
    requires DistinctIds(Elements(cs)) && IsGroup(cs, g, normalize) && IsGroup(cs, h, normalize) && g != h
    ensures GroupLess(g, h) || GroupLess(h, g)
  {
    hide Less, IsPrimary, MergedInto, Primary, Identity, Class;
    GroupMeaning(cs, g, normalize);
    GroupMeaning(cs, h, normalize);
    assert Primary(g) in Elements(g) && Primary(h) in Elements(h);
    if Primary(g) == Primary(h) {
      OneGroupEach(cs, g, h, normalize);
    }
    LessIsTotal(Primary(g).candidateId, Primary(h).candidateId);
  }

  lemma GroupLessIsTransitive(g: seq<Candidate>, h: seq<Candidate>, k: seq<Candidate>)
    requires GroupLess(g, h) && GroupLess(h, k)
    ensures GroupLess(g, k)
  {
    hide Less, Primary;
    LessIsTransitive(Primary(g).candidateId, Primary(h).candidateId, Primary(k).candidateId);
  }

  lemma GroupLessIsStrict(g: seq<Candidate>)
    ensures !GroupLess(g, g)
  {
    hide Less, Primary;
    if g != [] {
      LessIsStrict(Primary(g).candidateId);
    }
  }

  lemma OneGroupEach(cs: seq<Candidate>, g: seq<Candidate>, h: seq<Candidate>, normalize: string -> string)
    requires IsGroup(cs, g, normalize) && IsGroup(cs, h, normalize) && Primary(g) == Primary(h)
    ensures g == h
  {
    hide Less, Identity, Class;
    ClassMembers(cs, Identity(g[0], normalize), normalize);
    ClassMembers(cs, Identity(h[0], normalize), normalize);
    assert Primary(g) in g && Primary(h) in h;
  }

  /** The first of the sorted group is its primary. */
  lemma SortedGroup(cs: seq<Candidate>, g: seq<Candidate>, normalize: string -> string)
    requires IsGroup(cs, g, normalize) && NoRepeats(cs) && DistinctIds(Elements(cs))
    ensures var sorted := Sort(g, IdLess);
      && sorted != [] && sorted[0] == Primary(g) && Elements(sorted) == Elements(g) && IsSorted(sorted, IdLess) && NoRepeats(sorted)
  {
    hide Less, Identity, Class, Sort, IsPrimary, MergedInto;
    GroupMeaning(cs, g, normalize);
    IdsOrderAll(Elements(cs));
    SortSorts(g, IdLess, Elements(cs));
    SortKeepsElements(g, IdLess);
    var sorted, p := Sort(g, IdLess), Primary(g);
    assert p in Elements(sorted);
    FirstIsLeast(sorted, IdLess, p);
    assert sorted[0] in Elements(g);
    SortedHasNoRepeats(sorted, Elements(cs));
  }

  lemma SortedHasNoRepeats(sorted: seq<Candidate>, all: set<Candidate>)
    requires IsSorted(sorted, IdLess) && Elements(sorted) <= all && OrdersAll(IdLess, all)
    ensures NoRepeats(sorted)
  {
    hide Less;
    forall i, j | 0 <= i < j < |sorted| ensures sorted[i] != sorted[j] {
      assert sorted[i] in Elements(sorted);
      assert IdLess(sorted[i], sorted[j]);
    }
  }

  /** Every entry of the dictionary is a merge. */
  ghost predicate OnlyMerges(all: set<Candidate>, merged: map<string, string>, normalize: string -> string) {
    forall id :: id in merged ==>
      exists c, p :: MergedInto(all, c, p, normalize) && c.candidateId == id && merged[id] == p.candidateId
  }

  lemma MergeOne(all: set<Candidate>, merged: map<string, string>, c: Candidate, p: Candidate, normalize: string -> string)
    requires OnlyMerges(all, merged, normalize) && MergedInto(all, c, p, normalize)
    ensures OnlyMerges(all, merged[c.candidateId := p.candidateId], normalize)
  {
    hide MergedInto;
  }

  predicate DuplicatesIn(g: seq<Candidate>, merged: map<string, string>)
    requires g != []
  {
    forall c :: c in g && c != Primary(g) ==> c.candidateId in merged
  }

  /** The loop over `duplicates` */
  method MergeDuplicates(cs: seq<Candidate>, g: seq<Candidate>, sorted: seq<Candidate>, merged: map<string, string>, normalize: string -> string)
    returns (r: map<string, string>)
    requires IsGroup(cs, g, normalize) && OnlyMerges(Elements(cs), merged, normalize)
    requires sorted != [] && sorted[0] == Primary(g) && Elements(sorted) == Elements(g) && NoRepeats(sorted)
    ensures OnlyMerges(Elements(cs), r, normalize) && merged.Keys <= r.Keys && DuplicatesIn(g, r)
  {
    hide OnlyMerges, MergedInto, Primary, Identity, Class;
    GroupMeaning(cs, g, normalize);
    r := merged;
    for j := 1 to |sorted|
      invariant OnlyMerges(Elements(cs), r, normalize) && merged.Keys <= r.Keys
      invariant forall k :: 1 <= k < j ==> sorted[k].candidateId in r
    {
      assert sorted[j] in Elements(sorted);
      MergeOne(Elements(cs), r, sorted[j], sorted[0], normalize);
      r := r[sorted[j].candidateId := sorted[0].candidateId];
    }
    forall c | c in g && c != Primary(g) ensures c.candidateId in r {
      assert c in Elements(sorted);
      var k :| 0 <= k < |sorted| && sorted[k] == c;
    }
  }

  /** `deduplicate_candidates`: it raises exactly on a candidate whose key text is blank. */
  method DeduplicateCandidates(cs: seq<Candidate>, normalize: string -> string)
    returns (raised: bool, canonical: seq<Candidate>, merged: map<string, string>)
    requires NoRepeats(cs) && DistinctIds(Elements(cs))
    ensures raised <==> !KeysHold(Elements(cs), normalize)
    ensures !raised ==> Deduplicated(Elements(cs), canonical, merged, normalize)
  {
    hide OnlyMerges, MergedInto, Primary, Identity, Class, Sort, IsPrimary, Groups, Less, DuplicatesIn, Deduplicated, KeysHold;
    var groups;
    raised, groups := GroupByIdentity(cs, normalize);
    canonical, merged := [], map[];
    if raised {
      return;
    }
    NothingMerged(Elements(cs), normalize);
    for i := 0 to |groups|
      invariant |canonical| == i && forall k :: 0 <= k < i ==> groups[k] != [] && canonical[k] == Primary(groups[k])
      invariant OnlyMerges(Elements(cs), merged, normalize)
      invariant forall k :: 0 <= k < i ==> groups[k] != [] && DuplicatesIn(groups[k], merged)
    {
      GroupOf(cs, groups, i, normalize);
      SortedGroup(cs, groups[i], normalize);
      var sorted := Sort(groups[i], IdLess);
      canonical := canonical + [sorted[0]];
      ghost var before := merged;
      merged := MergeDuplicates(cs, groups[i], sorted, merged, normalize);
      forall k | 0 <= k < i ensures DuplicatesIn(groups[k], merged) {
        DuplicatesStay(groups[k], before, merged);
      }
    }
    GroupsGive(cs, groups, canonical, merged, normalize);
  }

  lemma NothingMerged(all: set<Candidate>, normalize: string -> string)
    ensures OnlyMerges(all, map[], normalize)
  {
  }

  lemma GroupOf(cs: seq<Candidate>, groups: seq<seq<Candidate>>, i: nat, normalize: string -> string)
    requires Groups(cs, groups, normalize) && i < |groups|
    ensures IsGroup(cs, groups[i], normalize)
  {
  }

  lemma DuplicatesStay(g: seq<Candidate>, merged: map<string, string>, more: map<string, string>)
    requires g != [] && DuplicatesIn(g, merged) && merged.Keys <= more.Keys
    ensures DuplicatesIn(g, more)
  {
    hide Primary;
  }

  lemma GroupsGive(cs: seq<Candidate>, groups: seq<seq<Candidate>>, canonical: seq<Candidate>, merged: map<string, string>,
                   normalize: string -> string)
    requires NoRepeats(cs) && DistinctIds(Elements(cs))
    requires Groups(cs, groups, normalize) && exists found :: Groups(cs, found, normalize) && groups == Sort(found, GroupLess)
    requires |canonical| == |groups| && forall k :: 0 <= k < |groups| ==> groups[k] != [] && canonical[k] == Primary(groups[k])
    requires OnlyMerges(Elements(cs), merged, normalize)
    requires forall k :: 0 <= k < |groups| ==> DuplicatesIn(groups[k], merged)
    ensures Deduplicated(Elements(cs), canonical, merged, normalize)
  {
    hide OnlyMerges, MergedInto, Primary, Identity, Class, Sort, IsPrimary, Groups, Less, DuplicatesIn, IsSorted;
    PrimariesAreSorted(cs, groups, canonical, normalize);
    PrimariesAreAll(cs, groups, canonical, normalize);
    forall c, p | MergedInto(Elements(cs), c, p, normalize) ensures c.candidateId in merged && merged[c.candidateId] == p.candidateId {
      MergeIsRecorded(cs, groups, merged, c, p, normalize);
    }
    forall id | id in merged ensures exists c, p :: MergedInto(Elements(cs), c, p, normalize) && c.candidateId == id {
      RecordIsMerge(Elements(cs), merged, id, normalize);
    }
  }

  lemma RecordIsMerge(all: set<Candidate>, merged: map<string, string>, id: string, normalize: string -> string)
    requires OnlyMerges(all, merged, normalize) && id in merged
    ensures exists c, p :: MergedInto(all, c, p, normalize) && c.candidateId == id && merged[id] == p.candidateId
  {
  }

  lemma PrimariesAreSorted(cs: seq<Candidate>, groups: seq<seq<Candidate>>, canonical: seq<Candidate>, normalize: string -> string)
    requires DistinctIds(Elements(cs))
    requires exists found :: Groups(cs, found, normalize) && groups == Sort(found, GroupLess)
    requires |canonical| == |groups| && forall k :: 0 <= k < |groups| ==> groups[k] != [] && canonical[k] == Primary(groups[k])
    ensures IsSorted(canonical, IdLess)
  {
    hide Primary, Identity, Class, Sort, Less, IsGroup;
    var found :| Groups(cs, found, normalize) && groups == Sort(found, GroupLess);
    GroupsAreOrdered(cs, found, normalize);
    SortSorts(found, GroupLess, Elements(found));
    forall i, j | 0 <= i < j < |canonical| ensures IdLess(canonical[i], canonical[j]) {
      assert GroupLess(groups[i], groups[j]);
    }
  }

  lemma PrimariesAreAll(cs: seq<Candidate>, groups: seq<seq<Candidate>>, canonical: seq<Candidate>, normalize: string -> string)
    requires DistinctIds(Elements(cs)) && Groups(cs, groups, normalize)
    requires |canonical| == |groups| && forall k :: 0 <= k < |groups| ==> groups[k] != [] && canonical[k] == Primary(groups[k])
    ensures Elements(canonical) == Primaries(Elements(cs), normalize)
  {
    hide Primary, Identity, Class, Less, IsPrimary, MergedInto;
    forall c | c in canonical ensures c in Primaries(Elements(cs), normalize) {
      var k :| 0 <= k < |canonical| && canonical[k] == c;
      GroupOf(cs, groups, k, normalize);
      GroupMeaning(cs, groups[k], normalize);
      assert Primary(groups[k]) in Elements(groups[k]);
    }
    forall c | c in Primaries(Elements(cs), normalize) ensures c in canonical {
      PrimaryOfItsGroup(cs, groups, c, c, normalize);
      var k :| 0 <= k < |groups| && groups[k] == Class(cs, Identity(c, normalize), normalize);
      assert canonical[k] == c;
    }
  }

  lemma PrimaryOfItsGroup(cs: seq<Candidate>, groups: seq<seq<Candidate>>, c: Candidate, p: Candidate, normalize: string -> string)
    requires DistinctIds(Elements(cs)) && Groups(cs, groups, normalize)
    requires c in cs && IsPrimary(Elements(cs), p, normalize) && SameIdentity(c, p, normalize)
    ensures var g := Class(cs, Identity(c, normalize), normalize);
      g in groups && g != [] && c in g && Primary(g) == p
  {
    hide Primary, Identity, Class, Less;
    var g := Class(cs, Identity(c, normalize), normalize);
    ClassMembers(cs, Identity(c, normalize), normalize);
    GroupMeaning(cs, g, normalize);
    assert Primary(g) in g;
    PrimaryIsUnique(Elements(cs), Primary(g), p, normalize);
  }

  lemma MergeIsRecorded(cs: seq<Candidate>, groups: seq<seq<Candidate>>, merged: map<string, string>, c: Candidate, p: Candidate,
                        normalize: string -> string)
    requires DistinctIds(Elements(cs)) && Groups(cs, groups, normalize) && OnlyMerges(Elements(cs), merged, normalize)
    requires forall k :: 0 <= k < |groups| ==> groups[k] != [] && DuplicatesIn(groups[k], merged)
    requires MergedInto(Elements(cs), c, p, normalize)
    ensures c.candidateId in merged && merged[c.candidateId] == p.candidateId
  {
    hide Primary, Identity, Class, Less, OnlyMerges, IsPrimary;
    PrimaryOfItsGroup(cs, groups, c, p, normalize);
    var k :| 0 <= k < |groups| && groups[k] == Class(cs, Identity(c, normalize), normalize);
    assert DuplicatesIn(groups[k], merged);
    RecordIsMerge(Elements(cs), merged, c.candidateId, normalize);
    var c', p' :| MergedInto(Elements(cs), c', p', normalize) && c'.candidateId == c.candidateId && merged[c.candidateId] == p'.candidateId;
    assert c' == c;
    PrimaryIsUnique(Elements(cs), p, p', normalize);
  }
}
