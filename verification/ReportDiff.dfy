/** reporter/diff.py: the facts of two reports, grouped by key and compared. */
module ReportDiff {
  import opened Wrappers
  import opened Contracts
  import opened Sorting
  import opened Dedup
  import opened Reconciliation

  datatype FactKey = FactKey(category: string, fieldName: string, kind: string, policyId: string, policyVersion: string)

  datatype DiffKind = Added | Removed | ChangedValue | ChangedProvenance | ChangedConfidence | AmbiguousMatch | Unchanged

  datatype Entry = Entry(kind: DiffKind, olds: seq<DataPoint>, news: seq<DataPoint>)

  /** `_fact_key` */
  function KeyOf(p: DataPoint): FactKey {
    var n := p.normalization;
    FactKey(p.category, p.fieldName, n.kind, n.policyId.GetOr(""), n.policyVersion.GetOr(""))
  }

  /** `_point_value` */
  function PointValue(p: DataPoint): string {
    TextOr(p.normalization.canonical, p.value)
  }

  /** The order within a key: `(start_char, data_point_id)` */
  predicate FactLess(a: DataPoint, b: DataPoint) {
    a.span.startChar < b.span.startChar || (a.span.startChar == b.span.startChar && Less(a.dataPointId, b.dataPointId))
  }

  function OfKey(points: seq<DataPoint>, key: FactKey): seq<DataPoint> {
    if points == [] then []
    else OfKey(points[..|points| - 1], key) + if KeyOf(points[|points| - 1]) == key then [points[|points| - 1]] else []
  }

  function Facts(points: seq<DataPoint>, key: FactKey): seq<DataPoint> {
    Sort(OfKey(points, key), FactLess)
  }

  function EachAdded(news: seq<DataPoint>): seq<Entry> {
    seq(|news|, i requires 0 <= i < |news| => Entry(Added, [], [news[i]]))
  }

  function EachRemoved(olds: seq<DataPoint>): seq<Entry> {
    seq(|olds|, i requires 0 <= i < |olds| => Entry(Removed, [olds[i]], []))
  }

  function Compare(a: DataPoint, b: DataPoint): DiffKind {
    if PointValue(a) != PointValue(b) then ChangedValue
    else if a.span != b.span then ChangedProvenance
    else if a.confidence != b.confidence then ChangedConfidence
    else Unchanged
  }

  /** The entries of one key. */
  function EntriesFor(olds: seq<DataPoint>, news: seq<DataPoint>): seq<Entry> {
    if olds == [] then EachAdded(news)
    else if news == [] then EachRemoved(olds)
    else if |olds| != 1 || |news| != 1 then [Entry(AmbiguousMatch, olds, news)]
    else [Entry(Compare(olds[0], news[0]), olds, news)]
  }

  function EntriesOver(base: seq<DataPoint>, candidate: seq<DataPoint>, keys: seq<FactKey>): seq<Entry> {
    if keys == [] then []
    else
      var key := keys[|keys| - 1];
      EntriesOver(base, candidate, keys[..|keys| - 1]) + EntriesFor(Facts(base, key), Facts(candidate, key))
  }

  /** The dictionary of `_group_by_key`, before its lists are sorted. */
  ghost predicate GroupedByKey(points: seq<DataPoint>, grouped: map<FactKey, seq<DataPoint>>) {
    && (forall p :: p in points ==> KeyOf(p) in grouped)
    && (forall key :: key in grouped ==> grouped[key] == OfKey(points, key) && exists p :: p in points && KeyOf(p) == key)
  }

  /** `_group_by_key` */
  method GroupByKey(points: seq<DataPoint>) returns (sorted: map<FactKey, seq<DataPoint>>)
    ensures forall p :: p in points ==> KeyOf(p) in sorted
    ensures forall key :: key in sorted ==> sorted[key] == Facts(points, key) && exists p :: p in points && KeyOf(p) == key
  {
    hide Sort, KeyOf;
    var grouped: map<FactKey, seq<DataPoint>> := map[];
    for i := 0 to |points|
      invariant GroupedByKey(points[..i], grouped)
    {
      var key := KeyOf(points[i]);
      AddedToGroup(points, i, grouped);
      grouped := grouped[key := (if key in grouped then grouped[key] else []) + [points[i]]];
    }
    assert points[..|points|] == points;
    sorted := map key | key in grouped :: Sort(grouped[key], FactLess);
  }

  lemma AddedToGroup(points: seq<DataPoint>, i: nat, grouped: map<FactKey, seq<DataPoint>>)
    requires i < |points| && GroupedByKey(points[..i], grouped)
    ensures var key := KeyOf(points[i]);
      GroupedByKey(points[..i + 1], grouped[key := (if key in grouped then grouped[key] else []) + [points[i]]])
  {
    hide KeyOf, OfKey;
    var key := KeyOf(points[i]);
    forall k ensures OfKey(points[..i + 1], k) == OfKey(points[..i], k) + (if k == key then [points[i]] else []) {
      OfKeySnoc(points, i, k);
    }
    assert forall p :: p in points[..i + 1] <==> p in points[..i] || p == points[i];
    if key !in grouped {
      NoneOfKey(points[..i], key);
    }
  }

  lemma OfKeySnoc(points: seq<DataPoint>, i: nat, key: FactKey)
    requires i < |points|
    ensures OfKey(points[..i + 1], key) == OfKey(points[..i], key) + if KeyOf(points[i]) == key then [points[i]] else []
  {
    hide KeyOf;
    assert points[..i + 1][..i] == points[..i];
  }

  lemma {:induction false} NoneOfKey(points: seq<DataPoint>, key: FactKey)
    requires forall p :: p in points ==> KeyOf(p) != key
    ensures OfKey(points, key) == []
  {
    hide KeyOf;
    if points != [] {
      NoneOfKey(points[..|points| - 1], key);
    }
  }

  /** The order of tuples of strings. */
  predicate KeyLess(a: FactKey, b: FactKey) {
    if a.category != b.category then Less(a.category, b.category)
    else if a.fieldName != b.fieldName then Less(a.fieldName, b.fieldName)
    else if a.kind != b.kind then Less(a.kind, b.kind)
    else if a.policyId != b.policyId then Less(a.policyId, b.policyId)
    else Less(a.policyVersion, b.policyVersion)
  }

  lemma KeyLessIsTransitive(a: FactKey, b: FactKey, c: FactKey)
    requires KeyLess(a, b) && KeyLess(b, c)
    ensures KeyLess(a, c)
  {
    hide Less;
    BothOrders(a.category, b.category, c.category);
    BothOrders(a.fieldName, b.fieldName, c.fieldName);
    BothOrders(a.kind, b.kind, c.kind);
    BothOrders(a.policyId, b.policyId, c.policyId);
    BothOrders(a.policyVersion, b.policyVersion, c.policyVersion);
  }

  lemma BothOrders(a: string, b: string, c: string)
    ensures !(Less(a, b) && Less(b, a)) && (Less(a, b) && Less(b, c) ==> Less(a, c))
  {
    hide Less;
    NotBoth(a, b);
    if Less(a, b) && Less(b, c) {
      LessIsTransitive(a, b, c);
    }
  }

  lemma KeysOrderAll(keys: set<FactKey>)
    ensures OrdersAll(KeyLess, keys)
  {
    hide Less;
    forall a ensures !KeyLess(a, a) {
      LessIsStrict(a.policyVersion);
    }
    forall a, b | a != b ensures KeyLess(a, b) || KeyLess(b, a) {
      LessIsTotal(a.category, b.category);
      LessIsTotal(a.fieldName, b.fieldName);
      LessIsTotal(a.kind, b.kind);
      LessIsTotal(a.policyId, b.policyId);
      LessIsTotal(a.policyVersion, b.policyVersion);
    }
    forall a, b, c | KeyLess(a, b) && KeyLess(b, c) ensures KeyLess(a, c) {
      KeyLessIsTransitive(a, b, c);
    }
  }

  function KeysOf(points: seq<DataPoint>): set<FactKey> {
    set p | p in points :: KeyOf(p)
  }

  /** The keys of either report, sorted. */
  ghost predicate ListsKeys(keys: seq<FactKey>, base: seq<DataPoint>, candidate: seq<DataPoint>) {
    IsSorted(keys, KeyLess) && Elements(keys) == KeysOf(base) + KeysOf(candidate)
  }

  /** The entries of each key of either report, in the order of the keys. */
  ghost predicate IsDiff(base: seq<DataPoint>, candidate: seq<DataPoint>, entries: seq<Entry>) {
    exists keys :: ListsKeys(keys, base, candidate) && entries == EntriesOver(base, candidate, keys)
  }

  /** `_diff_data_points` */
  method DiffDataPoints(base: seq<DataPoint>, candidate: seq<DataPoint>) returns (entries: seq<Entry>)
    ensures IsDiff(base, candidate, entries)
  {
    hide Sort, KeyOf, KeyLess, OfKey, EntriesFor, Facts, EntriesOver, KeysOf, IsSorted, OrdersAll;
    var baseByKey := GroupByKey(base);
    var candidateByKey := GroupByKey(candidate);
    GroupKeys(base, baseByKey);
    GroupKeys(candidate, candidateByKey);
    var all := baseByKey.Keys + candidateByKey.Keys;
    KeysOrderAll(all);
    var sorted := SortedList(all, KeyLess);
    assert ListsKeys(sorted, base, candidate);
    entries := [];
    NoEntries(base, candidate);
    for i := 0 to |sorted|
      invariant entries == EntriesOver(base, candidate, sorted[..i])
    {
      var key := sorted[i];
      AbsentHasNone(base, baseByKey, key);
      AbsentHasNone(candidate, candidateByKey, key);
      var olds := if key in baseByKey then baseByKey[key] else [];
      var news := if key in candidateByKey then candidateByKey[key] else [];
      EntriesSnoc(base, candidate, sorted[..i], key);
      assert sorted[..i + 1] == sorted[..i] + [key];
      entries := entries + EntriesFor(olds, news);
    }
    assert sorted[..|sorted|] == sorted;
  }

  lemma ListedKeysCover(keys: seq<FactKey>, base: seq<DataPoint>, candidate: seq<DataPoint>)
    requires ListsKeys(keys, base, candidate)
    ensures NoRepeats(keys) && CoversKeys(keys, base) && CoversKeys(keys, candidate)
  {
    hide KeyLess, KeyOf;
    KeysOrderAll(Elements(keys));
    SortedDoNotRepeat(keys, KeyLess, Elements(keys));
    forall p | p in base || p in candidate ensures KeyOf(p) in keys {
      assert KeyOf(p) in Elements(keys);
    }
  }

  lemma GroupKeys(points: seq<DataPoint>, sorted: map<FactKey, seq<DataPoint>>)
    requires forall p :: p in points ==> KeyOf(p) in sorted
    requires forall key :: key in sorted ==> exists p :: p in points && KeyOf(p) == key
    ensures sorted.Keys == KeysOf(points)
  {
  }

  lemma NoEntries(base: seq<DataPoint>, candidate: seq<DataPoint>)
    ensures EntriesOver(base, candidate, []) == []
  {
  }

  lemma EntriesSnoc(base: seq<DataPoint>, candidate: seq<DataPoint>, keys: seq<FactKey>, key: FactKey)
    ensures EntriesOver(base, candidate, keys + [key]) == EntriesOver(base, candidate, keys) + EntriesFor(Facts(base, key), Facts(candidate, key))
  {
    hide EntriesFor, Facts;
    assert (keys + [key])[..|keys|] == keys;
  }

  predicate CoversKeys(keys: seq<FactKey>, points: seq<DataPoint>) {
    forall p :: p in points ==> KeyOf(p) in keys
  }

  lemma AbsentHasNone(points: seq<DataPoint>, sorted: map<FactKey, seq<DataPoint>>, key: FactKey)
    requires forall p :: p in points ==> KeyOf(p) in sorted
    ensures key !in sorted ==> Facts(points, key) == []
  {
    hide KeyOf;
    if key !in sorted {
      NoneOfKey(points, key);
    }
  }

  // Conservation

  function Olds(entries: seq<Entry>): seq<DataPoint> {
    if entries == [] then [] else Olds(entries[..|entries| - 1]) + entries[|entries| - 1].olds
  }

  function News(entries: seq<Entry>): seq<DataPoint> {
    if entries == [] then [] else News(entries[..|entries| - 1]) + entries[|entries| - 1].news
  }

  lemma {:induction false} RefsConcat(a: seq<Entry>, b: seq<Entry>)
    ensures Olds(a + b) == Olds(a) + Olds(b) && News(a + b) == News(a) + News(b)
  {
    hide Olds, News;
    NoRefs();
    if b == [] {
      assert a + b == a;
    } else {
      var front, last := b[..|b| - 1], b[|b| - 1];
      RefsConcat(a, front);
      assert b == front + [last] && a + b == a + front + [last];
      RefsSnoc(front, last);
      RefsSnoc(a + front, last);
    }
  }

  lemma NoRefs()
    ensures Olds([]) == [] && News([]) == []
  {
  }

  lemma {:induction false} AddedRefs(points: seq<DataPoint>)
    ensures Olds(EachAdded(points)) == [] && News(EachAdded(points)) == points
  {
    hide Olds, News;
    NoRefs();
    if points != [] {
      var front, last := points[..|points| - 1], points[|points| - 1];
      AddedRefs(front);
      assert EachAdded(points) == EachAdded(front) + [Entry(Added, [], [last])];
      RefsSnoc(EachAdded(front), Entry(Added, [], [last]));
      assert points == front + [last];
    } else {
      assert EachAdded(points) == [];
    }
  }

  lemma {:induction false} RemovedRefs(points: seq<DataPoint>)
    ensures Olds(EachRemoved(points)) == points && News(EachRemoved(points)) == []
  {
    hide Olds, News;
    NoRefs();
    if points != [] {
      var front, last := points[..|points| - 1], points[|points| - 1];
      RemovedRefs(front);
      assert EachRemoved(points) == EachRemoved(front) + [Entry(Removed, [last], [])];
      RefsSnoc(EachRemoved(front), Entry(Removed, [last], []));
      assert points == front + [last];
    } else {
      assert EachRemoved(points) == [];
    }
  }

  lemma RefsSnoc(entries: seq<Entry>, e: Entry)
    ensures Olds(entries + [e]) == Olds(entries) + e.olds && News(entries + [e]) == News(entries) + e.news
  {
    assert (entries + [e])[..|entries|] == entries;
  }

  /** The entries of a key hold the facts of that key, and nothing else. */
  lemma EntriesHoldFacts(olds: seq<DataPoint>, news: seq<DataPoint>)
    ensures Olds(EntriesFor(olds, news)) == olds && News(EntriesFor(olds, news)) == news
  {
    hide Compare;
    RemovedRefs(olds);
    AddedRefs(news);
  }

  function Grouped(points: seq<DataPoint>, keys: seq<FactKey>): seq<DataPoint> {
    if keys == [] then [] else Grouped(points, keys[..|keys| - 1]) + OfKey(points, keys[|keys| - 1])
  }

  lemma {:induction false} EntriesHoldGroups(base: seq<DataPoint>, candidate: seq<DataPoint>, keys: seq<FactKey>)
    ensures multiset(Olds(EntriesOver(base, candidate, keys))) == multiset(Grouped(base, keys))
    ensures multiset(News(EntriesOver(base, candidate, keys))) == multiset(Grouped(candidate, keys))
  {
    hide Sort, EntriesFor, OfKey;
    if keys != [] {
      var front, key := keys[..|keys| - 1], keys[|keys| - 1];
      EntriesHoldGroups(base, candidate, front);
      RefsConcat(EntriesOver(base, candidate, front), EntriesFor(Facts(base, key), Facts(candidate, key)));
      EntriesHoldFacts(Facts(base, key), Facts(candidate, key));
      SortMembers(OfKey(base, key), FactLess);
      SortMembers(OfKey(candidate, key), FactLess);
    }
  }

  lemma {:induction false} GroupedSnoc(points: seq<DataPoint>, p: DataPoint, keys: seq<FactKey>)
    requires NoRepeats(keys)
    ensures multiset(Grouped(points + [p], keys)) == multiset(Grouped(points, keys)) + if KeyOf(p) in keys then multiset{p} else multiset{}
  {
    hide KeyOf, OfKey;
    if keys != [] {
      var front, key := keys[..|keys| - 1], keys[|keys| - 1];
      GroupedSnoc(points, p, front);
      assert (points + [p])[..|points|] == points && (points + [p])[..|points| + 1] == points + [p];
      OfKeySnoc(points + [p], |points|, key);
      LastKeyIsNew(keys);
    }
  }

  lemma LastKeyIsNew(keys: seq<FactKey>)
    requires NoRepeats(keys) && keys != []
    ensures keys[|keys| - 1] !in keys[..|keys| - 1] && NoRepeats(keys[..|keys| - 1])
  {
  }

  lemma {:induction false} GroupedIsAll(points: seq<DataPoint>, keys: seq<FactKey>)
    requires NoRepeats(keys) && CoversKeys(keys, points)
    ensures multiset(Grouped(points, keys)) == multiset(points)
  {
    if points == [] {
      GroupedNone(keys);
    } else {
      var front, last := points[..|points| - 1], points[|points| - 1];
      assert points == front + [last];
      GroupedIsAll(front, keys);
      GroupedSnoc(front, last, keys);
    }
  }

  lemma {:induction false} GroupedNone(keys: seq<FactKey>)
    ensures Grouped([], keys) == []
  {
    if keys != [] {
      GroupedNone(keys[..|keys| - 1]);
    }
  }

  /** Every base fact is in exactly one entry's old facts, and every candidate fact in exactly one
      entry's new facts. */
  lemma DiffConserves(base: seq<DataPoint>, candidate: seq<DataPoint>, entries: seq<Entry>)
    requires IsDiff(base, candidate, entries)
    ensures multiset(Olds(entries)) == multiset(base) && multiset(News(entries)) == multiset(candidate)
  {
    hide EntriesOver, Grouped, Olds, News, ListsKeys;
    var keys :| ListsKeys(keys, base, candidate) && entries == EntriesOver(base, candidate, keys);
    ListedKeysCover(keys, base, candidate);
    EntriesHoldGroups(base, candidate, keys);
    GroupedIsAll(base, keys);
    GroupedIsAll(candidate, keys);
  }

  // Duality

  function SwapKind(kind: DiffKind): DiffKind {
    match kind
    case Added => Removed
    case Removed => Added
    case _ => kind
  }

  function SwapEntry(e: Entry): Entry {
    Entry(SwapKind(e.kind), e.news, e.olds)
  }

  function Swapped(entries: seq<Entry>): seq<Entry> {
    seq(|entries|, i requires 0 <= i < |entries| => SwapEntry(entries[i]))
  }

  /** Swapping the reports swaps added with removed and leaves every other kind. */
  lemma DiffIsDual(base: seq<DataPoint>, candidate: seq<DataPoint>, entries: seq<Entry>, swapped: seq<Entry>)
    requires IsDiff(base, candidate, entries) && IsDiff(candidate, base, swapped)
    ensures swapped == Swapped(entries)
  {
    hide EntriesOver, KeyLess, KeysOf, Swapped;
    var keys :| ListsKeys(keys, base, candidate) && entries == EntriesOver(base, candidate, keys);
    var swappedKeys :| ListsKeys(swappedKeys, candidate, base) && swapped == EntriesOver(candidate, base, swappedKeys);
    KeysOrderAll(Elements(keys));
    SortedIsUnique(keys, swappedKeys, KeyLess, Elements(keys));
    EntriesSwap(base, candidate, keys);
  }

  lemma {:induction false} EntriesSwap(base: seq<DataPoint>, candidate: seq<DataPoint>, keys: seq<FactKey>)
    ensures EntriesOver(candidate, base, keys) == Swapped(EntriesOver(base, candidate, keys))
  {
    hide Facts, EntriesFor, SwapEntry;
    if keys != [] {
      var front, key := keys[..|keys| - 1], keys[|keys| - 1];
      EntriesSwap(base, candidate, front);
      EntriesAreDual(Facts(base, key), Facts(candidate, key));
    }
  }

  lemma EntriesAreDual(olds: seq<DataPoint>, news: seq<DataPoint>)
    ensures EntriesFor(news, olds) == Swapped(EntriesFor(olds, news))
  {
    hide PointValue;
  }

  // Summary

  /** `_summary_counts` */
  function SummaryCount(entries: seq<Entry>, kind: DiffKind): nat {
    if entries == [] then 0
    else SummaryCount(entries[..|entries| - 1], kind) + if entries[|entries| - 1].kind == kind then 1 else 0
  }

  /** The counts of the seven kinds sum to the number of entries. */
  lemma {:induction false} SummaryAddsUp(entries: seq<Entry>)
    ensures |entries| == SummaryCount(entries, Added) + SummaryCount(entries, Removed) + SummaryCount(entries, ChangedValue)
      + SummaryCount(entries, ChangedProvenance) + SummaryCount(entries, ChangedConfidence) + SummaryCount(entries, Unchanged)
      + SummaryCount(entries, AmbiguousMatch)
  {
    if entries != [] {
      SummaryAddsUp(entries[..|entries| - 1]);
    }
  }

  /** The summaries of the two directions mirror each other. */
  lemma {:induction false} SummaryIsDual(entries: seq<Entry>, kind: DiffKind)
    ensures SummaryCount(Swapped(entries), SwapKind(kind)) == SummaryCount(entries, kind)
  {
    if entries != [] {
      SummaryIsDual(entries[..|entries| - 1], kind);
      assert Swapped(entries)[..|entries| - 1] == Swapped(entries[..|entries| - 1]);
    }
  }

  // What an entry says

  /** The points state the same field, in the same kind and under the same policy; a missing policy is an
      empty one. */
  predicate SameFact(a: DataPoint, b: DataPoint) {
    && a.category == b.category && a.fieldName == b.fieldName && a.normalization.kind == b.normalization.kind
    && TextOr(a.normalization.policyId, "") == TextOr(b.normalization.policyId, "")
    && TextOr(a.normalization.policyVersion, "") == TextOr(b.normalization.policyVersion, "")
  }

  predicate ValuesHold(points: seq<DataPoint>) {
    forall p :: p in points ==> ValidNormalization(p.value, p.normalization)
  }

  lemma FactsMembers(points: seq<DataPoint>, key: FactKey)
    ensures forall p :: p in Facts(points, key) <==> p in points && KeyOf(p) == key
  {
    hide KeyOf;
    OfKeyMembers(points, key);
    SortMembers(OfKey(points, key), FactLess);
    forall p ensures p in Facts(points, key) <==> p in OfKey(points, key) {
      assert p in multiset(Facts(points, key)) <==> p in multiset(OfKey(points, key));
    }
  }

  lemma {:induction false} OfKeyMembers(points: seq<DataPoint>, key: FactKey)
    ensures forall p :: p in OfKey(points, key) <==> p in points && KeyOf(p) == key
  {
    hide KeyOf;
    if points != [] {
      OfKeyMembers(points[..|points| - 1], key);
      assert points == points[..|points| - 1] + [points[|points| - 1]];
    }
  }

  lemma SameFactExactly(a: DataPoint, b: DataPoint)
    ensures SameFact(a, b) <==> KeyOf(a) == KeyOf(b)
  {
  }

  /** The entry of one pair of points says what has changed first: the value, the place or the confidence. */
  predicate SaysWhatChanged(kind: DiffKind, a: DataPoint, b: DataPoint) {
    match kind
    case ChangedValue => a.value != b.value
    case ChangedProvenance => a.value == b.value && a.span != b.span
    case ChangedConfidence => a.value == b.value && a.span == b.span && a.confidence != b.confidence
    case Unchanged => a.value == b.value && a.span == b.span && a.confidence == b.confidence
    case _ => false
  }

  /** All points of `points` with the fact of `p` are in `held`. */
  predicate HoldsAll(points: seq<DataPoint>, p: DataPoint, held: seq<DataPoint>) {
    forall q :: q in points && SameFact(q, p) ==> q in held
  }

  /** What an entry of each kind means for the two reports. */
  predicate EntryMeans(base: seq<DataPoint>, candidate: seq<DataPoint>, e: Entry) {
    && (forall p :: p in e.olds ==> p in base) && (forall p :: p in e.news ==> p in candidate)
    && match e.kind
       case Added => e.olds == [] && |e.news| == 1 && HoldsAll(base, e.news[0], [])
       case Removed => |e.olds| == 1 && e.news == [] && HoldsAll(candidate, e.olds[0], [])
       case AmbiguousMatch =>
         && e.olds != [] && e.news != [] && |e.olds| + |e.news| > 2
         && (forall p :: p in e.olds + e.news ==> SameFact(p, e.olds[0]))
         && HoldsAll(base, e.olds[0], e.olds) && HoldsAll(candidate, e.olds[0], e.news)
       case kind =>
         && |e.olds| == 1 && |e.news| == 1 && SameFact(e.olds[0], e.news[0]) && SaysWhatChanged(kind, e.olds[0], e.news[0])
         && HoldsAll(base, e.olds[0], e.olds) && HoldsAll(candidate, e.olds[0], e.news)
  }

  /** Every entry of a diff of validated reports means what its kind says. */
  lemma EveryEntryMeans(base: seq<DataPoint>, candidate: seq<DataPoint>, entries: seq<Entry>, e: Entry)
    requires IsDiff(base, candidate, entries) && e in entries && ValuesHold(base) && ValuesHold(candidate)
    ensures EntryMeans(base, candidate, e)
  {
    hide EntriesOver, KeyLess, KeysOf, EntryMeans, ValuesHold, Facts;
    var keys :| ListsKeys(keys, base, candidate) && entries == EntriesOver(base, candidate, keys);
    var key := KeyOfEntry(base, candidate, keys, e);
    KeyEntryMeans(base, candidate, key, e);
  }

  lemma {:induction false} KeyOfEntry(base: seq<DataPoint>, candidate: seq<DataPoint>, keys: seq<FactKey>, e: Entry) returns (key: FactKey)
    requires e in EntriesOver(base, candidate, keys)
    ensures e in EntriesFor(Facts(base, key), Facts(candidate, key))
  {
    hide Facts, EntriesFor;
    key := keys[|keys| - 1];
    if e in EntriesOver(base, candidate, keys[..|keys| - 1]) {
      key := KeyOfEntry(base, candidate, keys[..|keys| - 1], e);
    }
  }

  lemma KeyEntryMeans(base: seq<DataPoint>, candidate: seq<DataPoint>, key: FactKey, e: Entry)
    requires e in EntriesFor(Facts(base, key), Facts(candidate, key)) && ValuesHold(base) && ValuesHold(candidate)
    ensures EntryMeans(base, candidate, e)
  {
    hide KeyOf, SameFact, Facts, Compare, SaysWhatChanged, ValuesHold;
    FactsMembers(base, key);
    FactsMembers(candidate, key);
    forall p, q ensures SameFact(p, q) <==> KeyOf(p) == KeyOf(q) {
      SameFactExactly(p, q);
    }
    var olds, news := Facts(base, key), Facts(candidate, key);
    assert olds != [] ==> olds[0] in olds;
    assert news != [] ==> news[0] in news;
    if |olds| == 1 && |news| == 1 {
      ComparedExactly(base, candidate, olds[0], news[0]);
    }
  }

  lemma ComparedExactly(base: seq<DataPoint>, candidate: seq<DataPoint>, a: DataPoint, b: DataPoint)
    requires ValuesHold(base) && ValuesHold(candidate) && a in base && b in candidate
    ensures SaysWhatChanged(Compare(a, b), a, b) && Compare(a, b) !in {Added, Removed, AmbiguousMatch}
  {
    assert ValidNormalization(a.value, a.normalization) && ValidNormalization(b.value, b.normalization);
  }

  predicate IdsDifferIn(points: seq<DataPoint>) {
    forall i, j :: 0 <= i < j < |points| ==> points[i].dataPointId != points[j].dataPointId
  }

  /** The facts of a key are in the order of their places, and at one place in the order of their ids. */
  lemma FactsInOrder(points: seq<DataPoint>, key: FactKey)
    requires IdsDifferIn(points)
    ensures var facts := Facts(points, key);
      forall i, j :: 0 <= i < j < |facts| ==>
        || facts[i].span.startChar < facts[j].span.startChar
        || (facts[i].span.startChar == facts[j].span.startChar && Less(facts[i].dataPointId, facts[j].dataPointId))
  {
    hide KeyOf, Less, OfKey, Sort;
    var own := OfKey(points, key);
    OfKeyDiffers(points, key);
    FactsOrderAll(own);
    SortSorts(own, FactLess, Elements(own));
  }

  lemma {:induction false} OfKeyDiffers(points: seq<DataPoint>, key: FactKey)
    requires IdsDifferIn(points)
    ensures IdsDifferIn(OfKey(points, key)) && NoRepeats(OfKey(points, key))
  {
    hide KeyOf;
    if points != [] {
      var front, last := points[..|points| - 1], points[|points| - 1];
      OfKeyDiffers(front, key);
      OfKeyMembers(front, key);
      var own := OfKey(front, key);
      forall i | 0 <= i < |own| ensures own[i].dataPointId != last.dataPointId {
        assert own[i] in own;
        var k :| 0 <= k < |front| && front[k] == own[i];
        assert points[k] == front[k];
      }
    }
  }

  lemma FactsOrderAll(points: seq<DataPoint>)
    requires IdsDifferIn(points)
    ensures OrdersAll(FactLess, Elements(points))
  {
    hide Less;
    forall a ensures !FactLess(a, a) {
      LessIsStrict(a.dataPointId);
    }
    forall a, b | a in Elements(points) && b in Elements(points) && a != b ensures FactLess(a, b) || FactLess(b, a) {
      var i :| 0 <= i < |points| && points[i] == a;
      var j :| 0 <= j < |points| && points[j] == b;
      LessIsTotal(a.dataPointId, b.dataPointId);
    }
    forall a, b, c | FactLess(a, b) && FactLess(b, c) ensures FactLess(a, c) {
      BothOrders(a.dataPointId, b.dataPointId, c.dataPointId);
    }
  }
}
