/**
 * The array pipeline steps the rankers are built from: `filter`, a stable `sort`
 * (as `Array.prototype.sort` is), and `slice(0, k)`.
 */
module Sequences {

  function Filter<T>(s: seq<T>, p: T -> bool): (r: seq<T>)
    ensures |r| <= |s|
    ensures forall i :: 0 <= i < |r| ==> r[i] in s && p(r[i])
    ensures forall i :: 0 <= i < |s| && p(s[i]) ==> s[i] in r
  {
    if s == [] then []
    else (if p(s[0]) then [s[0]] else []) + Filter(s[1..], p)
  }

  /** `s.slice(0, k)` for a non-negative `k`. */
  function Take<T>(s: seq<T>, k: nat): (r: seq<T>)
    ensures |r| == if k < |s| then k else |s|
    ensures r <= s
  {
    if k < |s| then s[..k] else s
  }

  /** Non-decreasing in `key`. */
  ghost predicate Sorted<T>(s: seq<T>, key: T -> real) {
    forall i, j :: 0 <= i < j < |s| ==> key(s[i]) <= key(s[j])
  }

  /** Strictly increasing in `idx`: the order in which the elements were found. */
  ghost predicate Increasing<T>(s: seq<T>, idx: T -> int) {
    forall i, j :: 0 <= i < j < |s| ==> idx(s[i]) < idx(s[j])
  }

  /** No two positions share an `idx`. */
  ghost predicate DistinctBy<T>(s: seq<T>, idx: T -> int) {
    forall i, j :: 0 <= i < j < |s| ==> idx(s[i]) != idx(s[j])
  }

  /** Sorted by `key`, and elements with equal keys in increasing `idx`. */
  ghost predicate SortedStably<T>(s: seq<T>, key: T -> real, idx: T -> int) {
    forall i, j :: 0 <= i < j < |s| ==>
      key(s[i]) < key(s[j]) || (key(s[i]) == key(s[j]) && idx(s[i]) < idx(s[j]))
  }

  /** Places `x` in front of the first element whose key is not below its own. */
  function Insert<T>(x: T, s: seq<T>, key: T -> real): (r: seq<T>)
    ensures multiset(r) == multiset(s) + multiset{x}
    ensures |r| == |s| + 1
    ensures forall i :: 0 <= i < |r| ==> r[i] == x || r[i] in s
    ensures Sorted(s, key) ==> Sorted(r, key)
  {
    if s == [] || key(x) <= key(s[0]) then [x] + s
    else
      var t := Insert(x, s[1..], key);
      InsertedBehindHead(s, x, t, key);
      [s[0]] + t
  }

  /** What `Insert` promises carries over from the tail to the whole list when `x` goes behind the head. */
  lemma InsertedBehindHead<T>(s: seq<T>, x: T, t: seq<T>, key: T -> real)
    requires s != [] && key(s[0]) < key(x)
    requires multiset(t) == multiset(s[1..]) + multiset{x} && |t| == |s[1..]| + 1
    requires forall i :: 0 <= i < |t| ==> t[i] == x || t[i] in s[1..]
    requires Sorted(s[1..], key) ==> Sorted(t, key)
    ensures var r := [s[0]] + t;
      && multiset(r) == multiset(s) + multiset{x} && |r| == |s| + 1
      && (forall i :: 0 <= i < |r| ==> r[i] == x || r[i] in s)
      && (Sorted(s, key) ==> Sorted(r, key))
  {
    assert s == [s[0]] + s[1..];
    var r := [s[0]] + t;
    forall i | 0 <= i < |r| ensures r[i] == x || r[i] in s {
      if i > 0 {
        assert r[i] == t[i - 1];
      }
    }
    if Sorted(s, key) {
      assert Sorted(s[1..], key);
      HeadBeforeInserted(s, x, t, key);
    }
  }

  /** The head of a sorted list stays in front when `x`, keyed above it, goes into the tail. */
  lemma HeadBeforeInserted<T>(s: seq<T>, x: T, t: seq<T>, key: T -> real)
    requires s != [] && Sorted(s, key) && key(s[0]) < key(x)
    requires Sorted(t, key) && forall i :: 0 <= i < |t| ==> t[i] == x || t[i] in s[1..]
    ensures Sorted([s[0]] + t, key)
  {
    forall k | 0 <= k < |t| ensures key(s[0]) <= key(t[k]) {
      if t[k] != x {
        var j :| 0 <= j < |s[1..]| && s[1..][j] == t[k];
        assert s[j + 1] == t[k];
      }
    }
    var r := [s[0]] + t;
    forall i, j | 0 <= i < j < |r| ensures key(r[i]) <= key(r[j]) {
      if i > 0 {
        assert r[i] == t[i - 1] && r[j] == t[j - 1];
      } else {
        assert r[j] == t[j - 1];
      }
    }
  }

  /** A stable insertion sort, ascending in `key`. */
  function SortBy<T>(s: seq<T>, key: T -> real): (r: seq<T>)
    ensures multiset(r) == multiset(s)
    ensures |r| == |s|
    ensures forall i :: 0 <= i < |r| ==> r[i] in s
    ensures Sorted(r, key)
  {
    if s == [] then []
    else
      assert s == [s[0]] + s[1..];
      Insert(s[0], SortBy(s[1..], key), key)
  }

  lemma {:induction false} MultisetMembers<T>(a: seq<T>, b: seq<T>)
    requires multiset(a) == multiset(b)
    ensures forall x :: x in a <==> x in b
  {
    forall x ensures x in a <==> x in b {
      assert x in a <==> x in multiset(a);
      assert x in b <==> x in multiset(b);
    }
  }

  lemma {:induction false} InsertStable<T>(x: T, s: seq<T>, key: T -> real, idx: T -> int)
    requires SortedStably(s, key, idx)
    requires forall y :: y in s ==> idx(x) < idx(y)
    ensures SortedStably(Insert(x, s, key), key, idx)
  {
    if s == [] || key(x) <= key(s[0]) {
    } else {
      assert forall y :: y in s[1..] ==> y in s;
      InsertStable(x, s[1..], key, idx);
      HeadStablyBeforeInserted(s, x, Insert(x, s[1..], key), key, idx);
    }
  }

  /** The head of a stably sorted list stays in front when `x`, keyed above it, goes into the tail. */
  lemma HeadStablyBeforeInserted<T>(s: seq<T>, x: T, t: seq<T>, key: T -> real, idx: T -> int)
    requires s != [] && SortedStably(s, key, idx) && key(s[0]) < key(x)
    requires SortedStably(t, key, idx) && forall i :: 0 <= i < |t| ==> t[i] == x || t[i] in s[1..]
    ensures SortedStably([s[0]] + t, key, idx)
  {
    forall k | 0 <= k < |t|
      ensures key(s[0]) < key(t[k]) || (key(s[0]) == key(t[k]) && idx(s[0]) < idx(t[k]))
    {
      if t[k] != x {
        var j :| 0 <= j < |s[1..]| && s[1..][j] == t[k];
        assert s[j + 1] == t[k];
      }
    }
    var r := [s[0]] + t;
    forall i, j | 0 <= i < j < |r|
      ensures key(r[i]) < key(r[j]) || (key(r[i]) == key(r[j]) && idx(r[i]) < idx(r[j]))
    {
      if i > 0 {
        assert r[i] == t[i - 1] && r[j] == t[j - 1];
      } else {
        assert r[j] == t[j - 1];
      }
    }
  }

  /**
   * The sort is stable: when the input is in increasing `idx`, elements with
   * equal keys leave the sort in that same order.
   */
  lemma {:induction false} SortByStable<T>(s: seq<T>, key: T -> real, idx: T -> int)
    requires Increasing(s, idx)
    ensures SortedStably(SortBy(s, key), key, idx)
  {
    if s != [] {
      SortByStable(s[1..], key, idx);
      InsertStable(s[0], SortBy(s[1..], key), key, idx);
    }
  }

  lemma {:induction false} InsertDistinct<T>(x: T, s: seq<T>, key: T -> real, idx: T -> int)
    requires DistinctBy(s, idx)
    requires forall y :: y in s ==> idx(x) != idx(y)
    ensures DistinctBy(Insert(x, s, key), idx)
  {
    if s == [] || key(x) <= key(s[0]) {
    } else {
      var t := Insert(x, s[1..], key);
      InsertDistinct(x, s[1..], key, idx);
    }
  }

  /** Sorting never makes two elements share an `idx`. */
  lemma {:induction false} SortByDistinct<T>(s: seq<T>, key: T -> real, idx: T -> int)
    requires DistinctBy(s, idx)
    ensures DistinctBy(SortBy(s, key), idx)
  {
    if s != [] {
      SortByDistinct(s[1..], key, idx);
      InsertDistinct(s[0], SortBy(s[1..], key), key, idx);
    }
  }

  /** Filtering keeps the survivors in their original order. */
  lemma {:induction false} FilterIncreasing<T>(s: seq<T>, p: T -> bool, idx: T -> int)
    requires Increasing(s, idx)
    ensures Increasing(Filter(s, p), idx)
  {
    if s != [] {
      FilterIncreasing(s[1..], p, idx);
      var t := Filter(s[1..], p);
      if p(s[0]) {
        assert Filter(s, p) == [s[0]] + t;
        HeadBeforeLater(s, t, idx);
      } else {
        assert Filter(s, p) == t;
      }
    }
  }

  /** The head of an increasing list comes before any increasing list drawn from its tail. */
  lemma HeadBeforeLater<T>(s: seq<T>, t: seq<T>, idx: T -> int)
    requires s != [] && Increasing(s, idx)
    requires Increasing(t, idx) && forall i :: 0 <= i < |t| ==> t[i] in s[1..]
    ensures Increasing([s[0]] + t, idx)
  {
    forall k | 0 <= k < |t| ensures idx(s[0]) < idx(t[k]) {
      var j :| 0 <= j < |s[1..]| && s[1..][j] == t[k];
      assert s[j + 1] == t[k];
    }
    var r := [s[0]] + t;
    forall i, j | 0 <= i < j < |r| ensures idx(r[i]) < idx(r[j]) {
      if i > 0 {
        assert r[i] == t[i - 1] && r[j] == t[j - 1];
      } else {
        assert r[j] == t[j - 1];
      }
    }
  }
}
