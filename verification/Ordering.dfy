/**
 * `ORDER BY` over catalog ids. Every such query of the poller ends its sort
 * list with `norad_cat_id`, so a sort is given by up to two leading columns.
 */
module Ordering {
  import opened Prelude

  /** The two leading sort columns of a row, both ascending. */
  type SortKey = int -> (int, int)

  predicate Before(key: SortKey, a: int, b: int) {
    var (ka, kb) := (key(a), key(b));
    ka.0 < kb.0 || (ka.0 == kb.0 && (ka.1 < kb.1 || (ka.1 == kb.1 && a < b)))
  }

  ghost predicate SortedBy(r: seq<int>, key: SortKey) {
    forall i, j :: 0 <= i < j < |r| ==> Before(key, r[i], r[j])
  }

  ghost predicate IsFirst(m: int, ids: set<int>, key: SortKey) {
    m in ids && forall x :: x in ids && x != m ==> Before(key, m, x)
  }

  /** Every non-empty set of ids has a first element. */
  lemma {:induction false} FirstExists(ids: set<int>, key: SortKey)
    requires ids != {}
    ensures exists m :: IsFirst(m, ids, key)
    decreases |ids|
  {
    assert (forall x :: x !in ids) ==> ids == {};
    var x :| x in ids;
    var rest := ids - {x};
    if rest == {} {
      assert ids == {x};
      assert IsFirst(x, ids, key);
    } else {
      FirstExists(rest, key);
      var m :| IsFirst(m, rest, key);
      assert forall y :: y in ids ==> y == x || y in rest;
      if Before(key, m, x) {
        assert IsFirst(m, ids, key);
      } else {
        assert IsFirst(x, ids, key);
      }
    }
  }

  function First(ids: set<int>, key: SortKey): (m: int)
    requires ids != {}
    ensures IsFirst(m, ids, key)
  {
    FirstExists(ids, key);
    assert forall m :: IsFirst(m, ids, key) ==> m in ids && forall x | x in ids :: x != m ==> Before(key, m, x);
    var m :| m in ids && forall x | x in ids :: x != m ==> Before(key, m, x);
    m
  }

  lemma Prepend(m: int, rest: seq<int>, key: SortKey)
    requires SortedBy(rest, key) && Distinct(rest)
    requires forall x :: x in Elements(rest) ==> Before(key, m, x)
    ensures SortedBy([m] + rest, key) && Distinct([m] + rest)
    ensures Elements([m] + rest) == {m} + Elements(rest)
  {
    assert forall i :: 0 <= i < |rest| ==> rest[i] in Elements(rest);
    assert forall x :: x in [m] + rest <==> x == m || x in rest;
  }

  /** The ids listed in sort order. */
  function OrderBy(ids: set<int>, key: SortKey): (r: seq<int>)
    ensures SortedBy(r, key)
    ensures Elements(r) == ids
    ensures |r| == |ids|
    ensures Distinct(r)
    decreases |ids|
  {
    if ids == {} then []
    else
      var m := First(ids, key);
      var rest := OrderBy(ids - {m}, key);
      Prepend(m, rest, key);
      [m] + rest
  }

  /** A sorted listing is determined by the ids it lists. */
  lemma {:induction false} OrderUnique(a: seq<int>, b: seq<int>, key: SortKey)
    requires SortedBy(a, key) && SortedBy(b, key)
    requires Elements(a) == Elements(b)
    ensures a == b
  {
    assert |a| == 0 <==> Elements(a) == {} by {
      assert |a| > 0 ==> a[0] in Elements(a);
    }
    assert |b| == 0 <==> Elements(b) == {} by {
      assert |b| > 0 ==> b[0] in Elements(b);
    }
    if a != [] {
      assert a[0] in Elements(b);
      assert b[0] in Elements(a);
      assert a[0] == b[0];
      assert forall x :: x in a[1..] <==> x in Elements(a) && x != a[0];
      assert forall x :: x in b[1..] <==> x in Elements(b) && x != b[0];
      OrderUnique(a[1..], b[1..], key);
    }
  }

  ghost predicate Increasing(r: seq<int>) {
    forall i, j :: 0 <= i < j < |r| ==> r[i] < r[j]
  }

  const BY_ID: SortKey := (id: int) => (0, 0)

  /** `ORDER BY norad_cat_id`. */
  function Ascending(ids: set<int>): (r: seq<int>)
    ensures Increasing(r)
    ensures Elements(r) == ids
    ensures |r| == |ids|
    ensures Distinct(r)
  {
    var r := OrderBy(ids, BY_ID);
    assert forall i, j :: 0 <= i < j < |r| ==> Before(BY_ID, r[i], r[j]);
    r
  }

  /** The only increasing listing of `ids` is the one the query returns. */
  lemma AscendingUnique(r: seq<int>, ids: set<int>)
    requires Increasing(r) && Elements(r) == ids
    ensures r == Ascending(ids)
  {
    OrderUnique(r, Ascending(ids), BY_ID);
  }

  lemma ElementsOfJoin<T>(r: seq<T>, s: seq<T>)
    ensures Elements(r + s) == Elements(r) + Elements(s)
  {
    assert forall x :: x in r + s <==> x in r || x in s;
  }

  lemma DistinctJoin<T>(r: seq<T>, s: seq<T>)
    requires Distinct(r) && Distinct(s)
    requires Elements(r) !! Elements(s)
    ensures Distinct(r + s)
  {
    forall i, j | 0 <= i < j < |r + s|
      ensures (r + s)[i] != (r + s)[j]
    {
      if i < |r| <= j {
        assert r[i] in Elements(r) && s[j - |r|] in Elements(s);
      }
    }
  }

  lemma IncreasingJoin(r: seq<int>, s: seq<int>)
    requires Increasing(r) && Increasing(s)
    requires forall x, y :: x in Elements(r) && y in Elements(s) ==> x < y
    ensures Increasing(r + s)
  {
    forall i, j | 0 <= i < j < |r + s|
      ensures (r + s)[i] < (r + s)[j]
    {
      if i < |r| <= j {
        assert r[i] in Elements(r) && s[j - |r|] in Elements(s);
      }
    }
  }

  /** Listing two sets, one entirely before the other, is listing each in turn. */
  lemma AscendingJoin(a: set<int>, b: set<int>)
    requires forall x, y :: x in a && y in b ==> x < y
    ensures Ascending(a + b) == Ascending(a) + Ascending(b)
  {
    var r, s := Ascending(a), Ascending(b);
    ElementsOfJoin(r, s);
    IncreasingJoin(r, s);
    AscendingUnique(r + s, a + b);
  }
}
