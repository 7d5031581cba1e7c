/**
 The two list operations the component builds everything on, with the
 meaning JavaScript gives them: `Array.prototype.filter` keeps the
 elements a predicate accepts, in order, and `Array.prototype.sort` with
 a numeric comparator is a stable sort (required since ECMAScript 2019).
 */
module Seqs {

  /** `a` can be obtained from `b` by deleting elements: order is kept. */
  predicate IsSubsequence<T(==)>(a: seq<T>, b: seq<T>)
    decreases |b|
  {
    if |a| == 0 then true
    else if |b| == 0 then false
    else if a[0] == b[0] then IsSubsequence(a[1..], b[1..])
    else IsSubsequence(a, b[1..])
  }

  /** `xs.filter(p)`. */
  function Filter<T(==)>(xs: seq<T>, p: T -> bool): (r: seq<T>)
    ensures |r| <= |xs|
    ensures forall x :: x in r ==> p(x)
    decreases |xs|
  {
    if |xs| == 0 then []
    else if p(xs[0]) then [xs[0]] + Filter(xs[1..], p)
    else Filter(xs[1..], p)
  }

  /** The filter keeps exactly the elements `p` accepts, each as often as
      it occurs in `xs`, and drops every element `p` rejects. */
  lemma {:induction false} FilterCounts<T>(xs: seq<T>, p: T -> bool)
    ensures multiset(Filter(xs, p)) <= multiset(xs)
    ensures forall x :: x in xs && p(x) ==> multiset(Filter(xs, p))[x] == multiset(xs)[x]
    decreases |xs|
  {
    if |xs| > 0 {
      FilterCounts(xs[1..], p);
      assert xs == [xs[0]] + xs[1..];
      assert multiset(xs) == multiset{xs[0]} + multiset(xs[1..]);
    }
  }

  /** An element survives the filter exactly when it is in `xs` and `p`
      accepts it. */
  lemma FilterMembers<T>(xs: seq<T>, p: T -> bool)
    ensures forall x :: x in Filter(xs, p) <==> x in xs && p(x)
  {
    FilterCounts(xs, p);
    forall x | x in Filter(xs, p)
      ensures x in xs
    {
      assert x in multiset(Filter(xs, p));
    }
    forall x | x in xs && p(x)
      ensures x in Filter(xs, p)
    {
      assert x in multiset(xs);
    }
  }

  /** The filter keeps the surviving elements in their original order. */
  lemma {:induction false} FilterOrder<T>(xs: seq<T>, p: T -> bool)
    ensures IsSubsequence(Filter(xs, p), xs)
    decreases |xs|
  {
    if |xs| > 0 {
      FilterOrder(xs[1..], p);
      var rest := Filter(xs[1..], p);
      if p(xs[0]) {
        assert ([xs[0]] + rest)[1..] == rest;
      } else if |rest| > 0 && rest[0] == xs[0] {
        assert false;
      }
    }
  }

  /** Filtering a list that starts with `x`. */
  lemma FilterCons<T>(x: T, xs: seq<T>, p: T -> bool)
    ensures Filter([x] + xs, p) == (if p(x) then [x] else []) + Filter(xs, p)
  {
    assert ([x] + xs)[1..] == xs;
  }

  /** Filtering twice with the same predicate changes nothing more. */
  lemma {:induction false} FilterIdempotent<T>(xs: seq<T>, p: T -> bool)
    ensures Filter(Filter(xs, p), p) == Filter(xs, p)
    decreases |xs|
  {
    if |xs| > 0 {
      assert xs == [xs[0]] + xs[1..];
      FilterCons(xs[0], xs[1..], p);
      FilterIdempotent(xs[1..], p);
      if p(xs[0]) {
        FilterCons(xs[0], Filter(xs[1..], p), p);
      }
    }
  }

  /** A filter that every element passes keeps the list as it is. */
  lemma {:induction false} FilterAll<T>(xs: seq<T>, p: T -> bool)
    requires forall i :: 0 <= i < |xs| ==> p(xs[i])
    ensures Filter(xs, p) == xs
    decreases |xs|
  {
    if |xs| > 0 {
      FilterAll(xs[1..], p);
      assert xs == [xs[0]] + xs[1..];
    }
  }

  /** The filter leaves a list as it is exactly when every element of it
      is accepted. */
  lemma FilterUnchangedIff<T>(xs: seq<T>, p: T -> bool)
    ensures Filter(xs, p) == xs <==> forall i :: 0 <= i < |xs| ==> p(xs[i])
  {
    if forall i :: 0 <= i < |xs| ==> p(xs[i]) {
      FilterAll(xs, p);
    }
  }

  predicate SortedBy<T>(xs: seq<T>, key: T -> int) {
    forall i, j :: 0 <= i < j < |xs| ==> key(xs[i]) <= key(xs[j])
  }

  /** A sorted list stays sorted with an element in front whose key is no
      larger than any key in it. */
  lemma SortedCons<T>(y: T, ys: seq<T>, key: T -> int)
    requires SortedBy(ys, key)
    requires forall j :: 0 <= j < |ys| ==> key(y) <= key(ys[j])
    ensures SortedBy([y] + ys, key)
  {
    var r := [y] + ys;
    forall i, j | 0 <= i < j < |r|
      ensures key(r[i]) <= key(r[j])
    {
      assert r[j] == ys[j - 1];
      if i > 0 {
        assert r[i] == ys[i - 1];
      }
    }
  }

  /** Places `x` before the first element whose key is not smaller, so
      that among equal keys `x` comes first. */
  function InsertBy<T(==)>(x: T, ys: seq<T>, key: T -> int): (r: seq<T>)
    ensures multiset(r) == multiset(ys) + multiset{x}
    ensures SortedBy(ys, key) ==> SortedBy(r, key)
    decreases |ys|
  {
    if |ys| == 0 then [x]
    else if key(x) <= key(ys[0]) then
      InsertInFront(x, ys, key);
      [x] + ys
    else
      var rest := InsertBy(x, ys[1..], key);
      InsertBehind(x, ys, rest, key);
      [ys[0]] + rest
  }

  lemma InsertInFront<T>(x: T, ys: seq<T>, key: T -> int)
    requires |ys| > 0 && key(x) <= key(ys[0])
    ensures multiset([x] + ys) == multiset(ys) + multiset{x}
    ensures SortedBy(ys, key) ==> SortedBy([x] + ys, key)
  {
    if SortedBy(ys, key) {
      SortedCons(x, ys, key);
    }
  }

  lemma InsertBehind<T>(x: T, ys: seq<T>, rest: seq<T>, key: T -> int)
    requires |ys| > 0 && key(ys[0]) < key(x)
    requires multiset(rest) == multiset(ys[1..]) + multiset{x}
    requires SortedBy(ys[1..], key) ==> SortedBy(rest, key)
    ensures multiset([ys[0]] + rest) == multiset(ys) + multiset{x}
    ensures SortedBy(ys, key) ==> SortedBy([ys[0]] + rest, key)
  {
    assert ys == [ys[0]] + ys[1..];
    if SortedBy(ys, key) {
      forall j | 0 <= j < |rest|
        ensures key(ys[0]) <= key(rest[j])
      {
        assert rest[j] in multiset(rest);
        if rest[j] != x {
          assert rest[j] in multiset(ys[1..]);
          var k :| 0 <= k < |ys[1..]| && ys[1..][k] == rest[j];
          assert ys[k + 1] == rest[j];
        }
      }
      SortedCons(ys[0], rest, key);
    }
  }

  /** `xs.sort((a, b) => key(a) - key(b))`, as an insertion sort that is
      stable because each element is inserted ahead of its equals. */
  function SortBy<T(==)>(xs: seq<T>, key: T -> int): (r: seq<T>)
    ensures multiset(r) == multiset(xs)
    ensures SortedBy(r, key)
    decreases |xs|
  {
    if |xs| == 0 then []
    else
      assert xs == [xs[0]] + xs[1..];
      InsertBy(xs[0], SortBy(xs[1..], key), key)
  }

  /** Selects the elements whose key is `k`. */
  function HasKey<T>(key: T -> int, k: int): T -> bool {
    x => key(x) == k
  }

  lemma {:induction false} InsertByKeyClass<T>(x: T, ys: seq<T>, key: T -> int, k: int)
    ensures Filter(InsertBy(x, ys, key), HasKey(key, k))
            == (if key(x) == k then [x] else []) + Filter(ys, HasKey(key, k))
    decreases |ys|
  {
    var p := HasKey(key, k);
    if |ys| == 0 {
      FilterCons(x, [], p);
    } else if key(x) <= key(ys[0]) {
      FilterCons(x, ys, p);
    } else {
      var rest := InsertBy(x, ys[1..], key);
      assert InsertBy(x, ys, key) == [ys[0]] + rest;
      FilterCons(ys[0], rest, p);
      InsertByKeyClass(x, ys[1..], key, k);
      assert ys == [ys[0]] + ys[1..];
      FilterCons(ys[0], ys[1..], p);
      if key(x) == k {
        // ys[0] sorts strictly before x, so it is not in x's key class.
        assert !p(ys[0]);
        assert Filter(InsertBy(x, ys, key), p) == Filter(rest, p);
        assert Filter(ys, p) == Filter(ys[1..], p);
      } else {
        assert Filter(rest, p) == Filter(ys[1..], p);
      }
    }
  }

  /** Stability: the elements sharing any one key appear in the sorted
      list in the same order as in the input. */
  lemma {:induction false} SortByStable<T>(xs: seq<T>, key: T -> int, k: int)
    ensures Filter(SortBy(xs, key), HasKey(key, k)) == Filter(xs, HasKey(key, k))
    decreases |xs|
  {
    if |xs| > 0 {
      SortByStable(xs[1..], key, k);
      InsertByKeyClass(xs[0], SortBy(xs[1..], key), key, k);
      assert xs == [xs[0]] + xs[1..];
      FilterCons(xs[0], xs[1..], HasKey(key, k));
    }
  }

  /** Filtering and then sorting keeps exactly the accepted elements, each
      as often as it occurs. */
  lemma FilterSortContents<T>(xs: seq<T>, p: T -> bool, key: T -> int)
    ensures multiset(SortBy(Filter(xs, p), key)) <= multiset(xs)
    ensures forall x :: x in xs ==> (x in SortBy(Filter(xs, p), key) <==> p(x))
    ensures forall x :: x in xs && p(x) ==> multiset(SortBy(Filter(xs, p), key))[x] == multiset(xs)[x]
  {
    var r := SortBy(Filter(xs, p), key);
    FilterCounts(xs, p);
    FilterMembers(xs, p);
    forall x | x in xs
      ensures x in r <==> p(x)
    {
      assert x in r <==> x in multiset(r);
    }
  }

  /** Sorting a list already in key order leaves it unchanged. */
  lemma {:induction false} SortSortedIsIdentity<T>(xs: seq<T>, key: T -> int)
    requires SortedBy(xs, key)
    ensures SortBy(xs, key) == xs
    decreases |xs|
  {
    if |xs| > 0 {
      SortSortedIsIdentity(xs[1..], key);
      assert xs == [xs[0]] + xs[1..];
    }
  }
}
