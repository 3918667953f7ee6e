/** Python's `sorted` with a key, on lists whose keys differ, and the order of strings. */
module Sorting {
  /** `a < b` for strings: by code points, a proper prefix first. */
  predicate Less(a: string, b: string) {
    b != [] && (a == [] || a[0] < b[0] || (a[0] == b[0] && Less(a[1..], b[1..])))
  }

  /** One string precedes another exactly when it is a proper prefix or smaller at the first difference. */
  lemma {:induction false} LessExactly(a: string, b: string)
    ensures Less(a, b) <==> a < b || exists k :: 0 <= k < |a| && k < |b| && DiffersFirst(a, b, k) && a[k] < b[k]
  {
    if a != [] && b != [] {
      var s, t := a[1..], b[1..];
      LessExactly(s, t);
      assert a == [a[0]] + s && b == [b[0]] + t;
      if a[0] == b[0] {
        forall k | 0 <= k < |s| && k < |t| ensures DiffersFirst(s, t, k) <==> DiffersFirst(a, b, k + 1) {
          assert a[..k + 1] == [a[0]] + s[..k] && b[..k + 1] == [b[0]] + t[..k];
          assert s[..k] == a[..k + 1][1..] && t[..k] == b[..k + 1][1..];
        }
        if k :| 0 <= k < |s| && k < |t| && DiffersFirst(s, t, k) && s[k] < t[k] {
          assert DiffersFirst(a, b, k + 1) && a[k + 1] < b[k + 1];
        }
        if k :| 0 <= k < |a| && k < |b| && DiffersFirst(a, b, k) && a[k] < b[k] {
          assert k > 0 && DiffersFirst(s, t, k - 1) && s[k - 1] < t[k - 1];
        }
      } else {
        assert a[..0] == b[..0];
        assert DiffersFirst(a, b, 0);
        forall k | 0 < k < |a| && k < |b| ensures !DiffersFirst(a, b, k) {
          assert a[..k][0] != b[..k][0];
        }
      }
    }
  }

  predicate DiffersFirst(a: string, b: string, k: nat)
    requires k < |a| && k < |b|
  {
    a[..k] == b[..k] && a[k] != b[k]
  }

  lemma {:induction false} LessIsStrict(a: string)
    ensures !Less(a, a)
  {
    if a != [] {
      LessIsStrict(a[1..]);
    }
  }

  lemma {:induction false} LessIsTransitive(a: string, b: string, c: string)
    requires Less(a, b) && Less(b, c)
    ensures Less(a, c)
  {
    if a != [] && a[0] == b[0] == c[0] {
      LessIsTransitive(a[1..], b[1..], c[1..]);
    }
  }

  lemma {:induction false} LessIsTotal(a: string, b: string)
    ensures Less(a, b) || a == b || Less(b, a)
  {
    if a != [] && b != [] && a[0] == b[0] {
      LessIsTotal(a[1..], b[1..]);
      assert a[1..] == b[1..] ==> a == [a[0]] + a[1..] == b;
    }
  }

  lemma NotBoth(a: string, b: string)
    ensures !(Less(a, b) && Less(b, a))
  {
    if Less(a, b) && Less(b, a) {
      LessIsTransitive(a, b, a);
      LessIsStrict(a);
    }
  }

  /** A strict total order on the elements of `s`. */
  ghost predicate OrdersAll<T(!new)>(less: (T, T) -> bool, s: set<T>) {
    && (forall a :: a in s ==> !less(a, a))
    && (forall a, b :: a in s && b in s && a != b ==> less(a, b) || less(b, a))
    && (forall a, b, c :: a in s && b in s && c in s && less(a, b) && less(b, c) ==> less(a, c))
  }

  function Elements<T>(s: seq<T>): set<T> {
    set x | x in s
  }

  predicate NoRepeats<T(==)>(s: seq<T>) {
    forall i, j :: 0 <= i < j < |s| ==> s[i] != s[j]
  }

  lemma AppendNew<T>(s: seq<T>, x: T)
    ensures Elements(s + [x]) == Elements(s) + {x}
    ensures NoRepeats(s) && x !in s ==> NoRepeats(s + [x])
  {
  }

  function Insert<T>(x: T, sorted: seq<T>, less: (T, T) -> bool): seq<T> {
    if sorted == [] then [x]
    else if less(sorted[0], x) then [sorted[0]] + Insert(x, sorted[1..], less)
    else [x] + sorted
  }

  function Sort<T>(s: seq<T>, less: (T, T) -> bool): seq<T> {
    if s == [] then [] else Insert(s[0], Sort(s[1..], less), less)
  }

  predicate IsSorted<T>(s: seq<T>, less: (T, T) -> bool) {
    forall i, j :: 0 <= i < j < |s| ==> less(s[i], s[j])
  }

  lemma {:induction false} InsertMembers<T>(x: T, s: seq<T>, less: (T, T) -> bool)
    ensures multiset(Insert(x, s, less)) == multiset{x} + multiset(s)
  {
    if s != [] && less(s[0], x) {
      InsertMembers(x, s[1..], less);
      assert s == [s[0]] + s[1..];
    }
  }

  lemma {:induction false} SortMembers<T>(s: seq<T>, less: (T, T) -> bool)
    ensures multiset(Sort(s, less)) == multiset(s)
  {
    if s != [] {
      SortMembers(s[1..], less);
      InsertMembers(s[0], Sort(s[1..], less), less);
      assert s == [s[0]] + s[1..];
    }
  }

  lemma SameElements<T>(a: seq<T>, b: seq<T>)
    requires forall x :: x in a <==> x in b
    ensures Elements(a) == Elements(b)
  {
  }

  lemma SortKeepsElements<T>(s: seq<T>, less: (T, T) -> bool)
    ensures forall x :: x in Sort(s, less) <==> x in s
    ensures Elements(Sort(s, less)) == Elements(s) && |Sort(s, less)| == |s|
  {
    SortMembers(s, less);
    forall x ensures x in Sort(s, less) <==> x in s {
      assert x in Sort(s, less) <==> x in multiset(Sort(s, less));
      assert x in s <==> x in multiset(s);
    }
    SameElements(Sort(s, less), s);
    assert |Sort(s, less)| == |multiset(Sort(s, less))| == |multiset(s)| == |s|;
  }

  lemma {:induction false} InsertSorts<T(!new)>(x: T, sorted: seq<T>, less: (T, T) -> bool, all: set<T>)
    requires OrdersAll(less, all) && x in all && x !in sorted && Elements(sorted) <= all && IsSorted(sorted, less)
    ensures IsSorted(Insert(x, sorted, less), less)
  {
    if sorted != [] {
      assert sorted[0] in Elements(sorted);
      var rest := sorted[1..];
      if less(sorted[0], x) {
        assert Elements(rest) <= Elements(sorted);
        InsertSorts(x, rest, less, all);
        InsertMembers(x, rest, less);
        PrependSorted(sorted[0], Insert(x, rest, less), less, x, rest);
      } else {
        forall k | 0 <= k < |sorted| ensures less(x, sorted[k]) {
          assert sorted[k] in Elements(sorted);
          assert less(x, sorted[0]);
        }
      }
    }
  }

  lemma PrependSorted<T(!new)>(y: T, inserted: seq<T>, less: (T, T) -> bool, x: T, rest: seq<T>)
    requires IsSorted(inserted, less) && less(y, x) && IsSorted([y] + rest, less)
    requires multiset(inserted) == multiset{x} + multiset(rest)
    ensures IsSorted([y] + inserted, less)
  {
    forall k | 0 <= k < |inserted| ensures less(y, inserted[k]) {
      assert inserted[k] in multiset(inserted);
      if inserted[k] != x {
        var i :| 0 <= i < |rest| && rest[i] == inserted[k];
        assert ([y] + rest)[i + 1] == rest[i] && ([y] + rest)[0] == y;
      }
    }
  }

  lemma {:induction false} SortSorts<T(!new)>(s: seq<T>, less: (T, T) -> bool, all: set<T>)
    requires OrdersAll(less, all) && Elements(s) <= all && NoRepeats(s)
    ensures IsSorted(Sort(s, less), less)
  {
    if s != [] {
      assert s[0] in Elements(s) && Elements(s[1..]) <= Elements(s);
      SortSorts(s[1..], less, all);
      SortKeepsElements(s[1..], less);
      forall k | 0 <= k < |s[1..]| ensures s[1..][k] != s[0] {
        assert s[1..][k] == s[k + 1];
      }
      InsertSorts(s[0], Sort(s[1..], less), less, all);
    }
  }

  /** The sorted arrangement of a set is unique. */
  lemma {:induction false} SortedIsUnique<T(!new)>(a: seq<T>, b: seq<T>, less: (T, T) -> bool, all: set<T>)
    requires OrdersAll(less, all) && Elements(a) == Elements(b) <= all
    requires IsSorted(a, less) && IsSorted(b, less)
    ensures a == b
  {
    NoElements(a);
    NoElements(b);
    if a != [] {
      SameFirst(a, b, less, all);
      TailElements(a, less, all);
      TailElements(b, less, all);
      SortedIsUnique(a[1..], b[1..], less, all);
      assert a == [a[0]] + a[1..] && b == [b[0]] + b[1..];
    }
  }

  lemma SameFirst<T(!new)>(a: seq<T>, b: seq<T>, less: (T, T) -> bool, all: set<T>)
    requires OrdersAll(less, all) && Elements(a) == Elements(b) <= all && a != [] && b != []
    requires IsSorted(a, less) && IsSorted(b, less)
    ensures a[0] == b[0]
  {
    assert a[0] in Elements(a) && b[0] in Elements(b);
    FirstIsLeast(a, less, b[0]);
    FirstIsLeast(b, less, a[0]);
  }

  lemma NoElements<T>(s: seq<T>)
    ensures s == [] <==> Elements(s) == {}
  {
    if s != [] {
      assert s[0] in Elements(s);
    }
  }

  lemma FirstIsLeast<T>(s: seq<T>, less: (T, T) -> bool, x: T)
    requires x in Elements(s) && IsSorted(s, less)
    ensures x == s[0] || less(s[0], x)
  {
    var i :| 0 <= i < |s| && s[i] == x;
  }

  lemma TailElements<T(!new)>(a: seq<T>, less: (T, T) -> bool, all: set<T>)
    requires OrdersAll(less, all) && Elements(a) <= all && a != [] && IsSorted(a, less)
    ensures Elements(a[1..]) == Elements(a) - {a[0]} && IsSorted(a[1..], less)
  {
    forall x ensures x in a[1..] <==> x in a && x != a[0] {
      if x in a[1..] {
        var i :| 0 <= i < |a[1..]| && a[1..][i] == x;
        assert less(a[0], a[i + 1]);
        assert a[0] in Elements(a);
      }
    }
  }

  /** Sorting does not depend on the order of its input. */
  lemma SortIsOrderBlind<T(!new)>(a: seq<T>, b: seq<T>, less: (T, T) -> bool)
    requires OrdersAll(less, Elements(a)) && Elements(a) == Elements(b) && NoRepeats(a) && NoRepeats(b)
    ensures Sort(a, less) == Sort(b, less)
  {
    SortSorts(a, less, Elements(a));
    SortSorts(b, less, Elements(a));
    SortKeepsElements(a, less);
    SortKeepsElements(b, less);
    SortedIsUnique(Sort(a, less), Sort(b, less), less, Elements(a));
  }

  /** `sorted` of a set */
  method SortedList<T(==,!new)>(all: set<T>, less: (T, T) -> bool) returns (r: seq<T>)
    requires OrdersAll(less, all)
    ensures Elements(r) == all && IsSorted(r, less) && NoRepeats(r)
  {
    hide Sort;
    var rest, listed: seq<T> := all, [];
    while rest != {}
      invariant Elements(listed) == all - rest && NoRepeats(listed) && rest <= all
      decreases |rest|
    {
      var x :| x in rest;
      assert x !in Elements(listed);
      AppendNew(listed, x);
      rest, listed := rest - {x}, listed + [x];
    }
    SortSorts(listed, less, all);
    SortKeepsElements(listed, less);
    r := Sort(listed, less);
    SortedDoNotRepeat(r, less, all);
  }

  lemma SortedDoNotRepeat<T(!new)>(s: seq<T>, less: (T, T) -> bool, all: set<T>)
    requires OrdersAll(less, all) && Elements(s) <= all && IsSorted(s, less)
    ensures NoRepeats(s)
  {
    forall i, j | 0 <= i < j < |s| ensures s[i] != s[j] {
      assert s[i] in Elements(s) && less(s[i], s[j]);
    }
  }
}
