/** An injective digest of data point seeds: what the ids of data points are assumed to be can be had. */
module SeedDigests {
  import opened Reconciliation

  function Unary(n: nat): string {
    if n == 0 then "0" else "1" + Unary(n - 1)
  }

  lemma {:induction false} UnaryIsPrefixFree(m: nat, n: nat, r: string, s: string)
    requires Unary(m) + r == Unary(n) + s
    ensures m == n && r == s
  {
    var a, b := Unary(m) + r, Unary(n) + s;
    assert a[0] == Unary(m)[0] && b[0] == Unary(n)[0];
    if m > 0 && n > 0 {
      assert a[1..] == Unary(m - 1) + r && b[1..] == Unary(n - 1) + s;
      UnaryIsPrefixFree(m - 1, n - 1, r, s);
    } else {
      assert a[1..] == r && b[1..] == s;
    }
  }

  /** A string behind its length. */
  function Field(t: string): string {
    Unary(|t|) + t
  }

  lemma FieldIsPrefixFree(t: string, u: string, r: string, s: string)
    requires Field(t) + r == Field(u) + s
    ensures t == u && r == s
  {
    assert Field(t) + r == Unary(|t|) + (t + r) && Field(u) + s == Unary(|u|) + (u + s);
    UnaryIsPrefixFree(|t|, |u|, t + r, u + s);
    assert t == (t + r)[..|t|] && u == (u + s)[..|u|];
    assert r == (t + r)[|t|..] && s == (u + s)[|u|..];
  }

  function FieldList(ts: seq<string>): string {
    if ts == [] then "0" else "1" + (Field(ts[0]) + FieldList(ts[1..]))
  }

  lemma {:induction false} FieldListIsPrefixFree(ts: seq<string>, us: seq<string>, r: string, s: string)
    requires FieldList(ts) + r == FieldList(us) + s
    ensures ts == us && r == s
  {
    hide Field;
    var a, b := FieldList(ts) + r, FieldList(us) + s;
    assert a[0] == FieldList(ts)[0] && b[0] == FieldList(us)[0];
    if ts != [] && us != [] {
      assert a[1..] == Field(ts[0]) + (FieldList(ts[1..]) + r) && b[1..] == Field(us[0]) + (FieldList(us[1..]) + s);
      FieldIsPrefixFree(ts[0], us[0], FieldList(ts[1..]) + r, FieldList(us[1..]) + s);
      FieldListIsPrefixFree(ts[1..], us[1..], r, s);
      assert ts == [ts[0]] + ts[1..] && us == [us[0]] + us[1..];
    } else {
      assert a[1..] == r && b[1..] == s;
    }
  }

  function Place(s: PointSeed): string {
    Unary(s.startChar) + (Unary(s.endChar) + (Field(s.text) + ""))
  }

  function Slot(s: PointSeed, rest: string): string {
    Field(s.category) + (Field(s.fieldName) + (Field(s.value) + (Field(s.sourceId) + rest)))
  }

  function Digest(s: PointSeed): string {
    Slot(s, FieldList(s.contributorIds) + Place(s))
  }

  lemma SlotIsPrefixFree(a: PointSeed, b: PointSeed, r: string, s: string)
    requires Slot(a, r) == Slot(b, s)
    ensures a.category == b.category && a.fieldName == b.fieldName && a.value == b.value && a.sourceId == b.sourceId && r == s
  {
    hide Field;
    FieldIsPrefixFree(a.category, b.category, Field(a.fieldName) + (Field(a.value) + (Field(a.sourceId) + r)),
                      Field(b.fieldName) + (Field(b.value) + (Field(b.sourceId) + s)));
    FieldIsPrefixFree(a.fieldName, b.fieldName, Field(a.value) + (Field(a.sourceId) + r), Field(b.value) + (Field(b.sourceId) + s));
    FieldIsPrefixFree(a.value, b.value, Field(a.sourceId) + r, Field(b.sourceId) + s);
    FieldIsPrefixFree(a.sourceId, b.sourceId, r, s);
  }

  lemma PlaceIsInjective(a: PointSeed, b: PointSeed)
    requires Place(a) == Place(b)
    ensures a.startChar == b.startChar && a.endChar == b.endChar && a.text == b.text
  {
    hide Field, Unary;
    UnaryIsPrefixFree(a.startChar, b.startChar, Unary(a.endChar) + (Field(a.text) + ""), Unary(b.endChar) + (Field(b.text) + ""));
    UnaryIsPrefixFree(a.endChar, b.endChar, Field(a.text) + "", Field(b.text) + "");
    FieldIsPrefixFree(a.text, b.text, "", "");
  }

  /** Different seeds have different digests. */
  lemma DigestIsInjective(a: PointSeed, b: PointSeed)
    requires Digest(a) == Digest(b)
    ensures a == b
  {
    hide Slot, FieldList, Place;
    SlotIsPrefixFree(a, b, FieldList(a.contributorIds) + Place(a), FieldList(b.contributorIds) + Place(b));
    FieldListIsPrefixFree(a.contributorIds, b.contributorIds, Place(a), Place(b));
    PlaceIsInjective(a, b);
  }
}
