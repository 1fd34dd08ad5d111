/** Python's `list.sort(key=..., reverse=True)` and `sorted(..., reverse=True)`
    as a specification: a stable sort into non-increasing key order.
    Python's sort is stable also when `reverse=True`: elements whose keys
    are equal keep their original relative order. */
module Sorting {

  /** Keys never increase from left to right. */
  predicate SortedDesc<T>(s: seq<T>, key: T -> real) {
    forall i, j :: 0 <= i < j < |s| ==> key(s[i]) >= key(s[j])
  }

  /** The elements of `s` whose key is `v`, in their order in `s`. */
  function FilterKey<T>(s: seq<T>, key: T -> real, v: real): seq<T> {
    if s == [] then [] else (if key(s[0]) == v then [s[0]] else []) + FilterKey(s[1..], key, v)
  }

  lemma {:induction false} FilterKeyElements<T>(s: seq<T>, key: T -> real, v: real)
    ensures forall q :: 0 <= q < |FilterKey(s, key, v)| ==>
      FilterKey(s, key, v)[q] in s && key(FilterKey(s, key, v)[q]) == v
  {
    if s != [] {
      FilterKeyElements(s[1..], key, v);
    }
  }

  /** Places `x` after every element with a larger key and before the rest. */
  function Insert<T>(x: T, s: seq<T>, key: T -> real): (r: seq<T>)
    requires SortedDesc(s, key)
    ensures |r| == |s| + 1
    ensures SortedDesc(r, key)
    ensures r[0] == x || (s != [] && r[0] == s[0])
  {
    if s == [] then [x]
    else if key(s[0]) <= key(x) then
      ConsSorted(x, s, key);
      [x] + s
    else
      var t := Insert(x, s[1..], key);
      ConsSorted(s[0], t, key);
      [s[0]] + t
  }

  /** Inserting adds exactly `x` to the elements. */
  lemma {:induction false} InsertPermutes<T>(x: T, s: seq<T>, key: T -> real)
    requires SortedDesc(s, key)
    ensures multiset(Insert(x, s, key)) == multiset(s) + multiset{x}
  {
    if s == [] || key(s[0]) <= key(x) {
      assert Insert(x, s, key) == [x] + s;
      assert multiset([x] + s) == multiset{x} + multiset(s);
    } else {
      var t := Insert(x, s[1..], key);
      InsertPermutes(x, s[1..], key);
      assert Insert(x, s, key) == [s[0]] + t;
      assert multiset([s[0]] + t) == multiset{s[0]} + multiset(t);
      assert s == [s[0]] + s[1..];
      assert multiset(s) == multiset{s[0]} + multiset(s[1..]);
    }
  }

  /** An element whose key is at least the first key of a sorted list
      extends it to a sorted list. */
  lemma ConsSorted<T>(a: T, t: seq<T>, key: T -> real)
    requires SortedDesc(t, key)
    requires t != [] ==> key(t[0]) <= key(a)
    ensures SortedDesc([a] + t, key)
  {
    var r := [a] + t;
    forall i, j | 0 <= i < j < |r| ensures key(r[i]) >= key(r[j]) {
      if i == 0 {
        assert r[j] == t[j - 1];
        assert key(t[0]) >= key(t[j - 1]);
      } else {
        assert r[i] == t[i - 1] && r[j] == t[j - 1];
      }
    }
  }

  /** Stable descending sort by `key` (insertion sort). */
  function SortDesc<T>(s: seq<T>, key: T -> real): (r: seq<T>)
    ensures |r| == |s|
    ensures multiset(r) == multiset(s)
    ensures SortedDesc(r, key)
  {
    if s == [] then []
    else
      assert s == [s[0]] + s[1..];
      InsertPermutes(s[0], SortDesc(s[1..], key), key);
      Insert(s[0], SortDesc(s[1..], key), key)
  }

  lemma FilterKeyCons<T>(a: T, t: seq<T>, key: T -> real, v: real)
    ensures FilterKey([a] + t, key, v) == (if key(a) == v then [a] else []) + FilterKey(t, key, v)
  {
    assert ([a] + t)[1..] == t;
  }

  lemma {:induction false} InsertStable<T>(x: T, s: seq<T>, key: T -> real, v: real)
    requires SortedDesc(s, key)
    ensures FilterKey(Insert(x, s, key), key, v)
         == (if key(x) == v then [x] else []) + FilterKey(s, key, v)
  {
    if s == [] || key(s[0]) <= key(x) {
      assert Insert(x, s, key) == [x] + s;
      FilterKeyCons(x, s, key, v);
    } else {
      InsertStable(x, s[1..], key, v);
      assert Insert(x, s, key) == [s[0]] + Insert(x, s[1..], key);
      assert s == [s[0]] + s[1..];
      FilterKeyConsBoth(s[0], Insert(x, s[1..], key), s[1..], if key(x) == v then [x] else [], key, v);
    }
  }

  /** Putting `a` in front of two lists keeps the relation between their
      filtered forms when `a` and the extra elements `own` have different keys. */
  lemma FilterKeyConsBoth<T>(a: T, t: seq<T>, u: seq<T>, own: seq<T>, key: T -> real, v: real)
    requires FilterKey(t, key, v) == own + FilterKey(u, key, v)
    requires key(a) == v ==> own == []
    ensures FilterKey([a] + t, key, v) == own + FilterKey([a] + u, key, v)
  {
    FilterKeyCons(a, t, key, v);
    FilterKeyCons(a, u, key, v);
    if key(a) == v {
      assert own + FilterKey([a] + u, key, v) == [a] + FilterKey(u, key, v);
    }
  }

  /** Stability: for every key value, the elements carrying it appear in
      the sorted list in the same order as in the input. */
  lemma {:induction false} SortStable<T>(s: seq<T>, key: T -> real, v: real)
    ensures FilterKey(SortDesc(s, key), key, v) == FilterKey(s, key, v)
  {
    if s != [] {
      SortStable(s[1..], key, v);
      InsertStable(s[0], SortDesc(s[1..], key), key, v);
      FilterKeyCons(s[0], s[1..], key, v);
      assert s == [s[0]] + s[1..];
    }
  }

  lemma {:induction false} InFilterKey<T>(s: seq<T>, key: T -> real, j: nat)
    requires j < |s|
    ensures s[j] in FilterKey(s, key, key(s[j]))
  {
    if j > 0 {
      InFilterKey(s[1..], key, j - 1);
    }
  }

  /** Two elements of `s` with the same key keep their order in the filtered list. */
  lemma {:induction false} FilterKeyKeepsOrder<T>(s: seq<T>, key: T -> real, i: nat, j: nat)
    requires i < j < |s| && key(s[i]) == key(s[j])
    ensures exists p, q :: (0 <= p < q < |FilterKey(s, key, key(s[i]))|
      && FilterKey(s, key, key(s[i]))[p] == s[i] && FilterKey(s, key, key(s[i]))[q] == s[j])
  {
    var v := key(s[i]);
    var f := FilterKey(s, key, v);
    if i == 0 {
      InFilterKey(s[1..], key, j - 1);
      var rest := FilterKey(s[1..], key, v);
      var q' :| 0 <= q' < |rest| && rest[q'] == s[j];
      assert f == [s[0]] + rest;
      assert f[0] == s[i] && f[q' + 1] == s[j];
    } else {
      FilterKeyKeepsOrder(s[1..], key, i - 1, j - 1);
      var rest := FilterKey(s[1..], key, v);
      var p', q' :| 0 <= p' < q' < |rest| && rest[p'] == s[i] && rest[q'] == s[j];
      if key(s[0]) == v {
        assert f == [s[0]] + rest;
        assert f[p' + 1] == s[i] && f[q' + 1] == s[j];
      } else {
        assert f == rest;
      }
    }
  }

  /** Two entries of the filtered list come from positions of `s` in the same order. */
  lemma {:induction false} FilterKeyFromOrder<T>(s: seq<T>, key: T -> real, v: real, p: nat, q: nat)
    requires p < q < |FilterKey(s, key, v)|
    ensures exists i, j :: (0 <= i < j < |s|
      && s[i] == FilterKey(s, key, v)[p] && s[j] == FilterKey(s, key, v)[q])
  {
    var f := FilterKey(s, key, v);
    var rest := FilterKey(s[1..], key, v);
    if key(s[0]) == v {
      assert f == [s[0]] + rest;
      if p == 0 {
        FilterKeyElements(s[1..], key, v);
        assert f[q] == rest[q - 1] && rest[q - 1] in s[1..];
        var j' :| 0 <= j' < |s[1..]| && s[1..][j'] == rest[q - 1];
        assert s[0] == f[p] && s[j' + 1] == f[q];
      } else {
        FilterKeyFromOrder(s[1..], key, v, p - 1, q - 1);
        var i', j' :| 0 <= i' < j' < |s[1..]| && s[1..][i'] == rest[p - 1] && s[1..][j'] == rest[q - 1];
        assert s[i' + 1] == f[p] && s[j' + 1] == f[q];
      }
    } else {
      assert f == rest;
      FilterKeyFromOrder(s[1..], key, v, p, q);
      var i', j' :| 0 <= i' < j' < |s[1..]| && s[1..][i'] == rest[p] && s[1..][j'] == rest[q];
      assert s[i' + 1] == f[p] && s[j' + 1] == f[q];
    }
  }

  /** Stability by position: two sorted entries with equal keys come from
      input positions in the same order. */
  lemma SortKeepsTieOrder<T>(s: seq<T>, key: T -> real, i: nat, j: nat)
    requires i < j < |SortDesc(s, key)|
    requires key(SortDesc(s, key)[i]) == key(SortDesc(s, key)[j])
    ensures exists i', j' :: (0 <= i' < j' < |s|
      && s[i'] == SortDesc(s, key)[i] && s[j'] == SortDesc(s, key)[j])
  {
    var r := SortDesc(s, key);
    var v := key(r[i]);
    FilterKeyKeepsOrder(r, key, i, j);
    SortStable(s, key, v);
    var p, q :| 0 <= p < q < |FilterKey(r, key, v)|
      && FilterKey(r, key, v)[p] == r[i] && FilterKey(r, key, v)[q] == r[j];
    FilterKeyFromOrder(s, key, v, p, q);
  }
}
