/**
 * The stable descending sort behind `Array.prototype.sort((a, b) => key(b) - key(a))`:
 * elements with a larger key come first and elements with equal keys keep
 * their input order.
 */
module Sorting {

  ghost predicate SortedDesc<T>(xs: seq<T>, key: T -> int) {
    forall i, j :: 0 <= i < j < |xs| ==> key(xs[i]) >= key(xs[j])
  }

  /** The elements of `xs` whose key is `k`, in order. */
  function WithKey<T>(xs: seq<T>, key: T -> int, k: int): (r: seq<T>)
    ensures |r| <= |xs|
  {
    if |xs| == 0 then []
    else if key(xs[0]) == k then [xs[0]] + WithKey(xs[1..], key, k)
    else WithKey(xs[1..], key, k)
  }

  lemma {:induction false} WithKeyAppend<T>(a: seq<T>, b: seq<T>, key: T -> int, k: int)
    ensures WithKey(a + b, key, k) == WithKey(a, key, k) + WithKey(b, key, k)
  {
    if |a| == 0 {
      assert a + b == b;
    } else {
      assert (a + b)[1..] == a[1..] + b;
      WithKeyAppend(a[1..], b, key, k);
    }
  }

  lemma {:induction false} WithKeyNone<T>(xs: seq<T>, key: T -> int, k: int)
    requires forall i :: 0 <= i < |xs| ==> key(xs[i]) < k
    ensures WithKey(xs, key, k) == []
  {
    if |xs| > 0 {
      WithKeyNone(xs[1..], key, k);
    }
  }

  /** Inserts `x` into a sequence after its leading elements whose key is at
      least `key(x)`. */
  function Insert<T>(x: T, xs: seq<T>, key: T -> int): (r: seq<T>)
    ensures multiset(r) == multiset(xs) + multiset{x}
  {
    if |xs| == 0 then [x]
    else if key(xs[0]) >= key(x) then
      assert xs == [xs[0]] + xs[1..];
      [xs[0]] + Insert(x, xs[1..], key)
    else [x] + xs
  }

  lemma {:induction false} InsertSorted<T>(x: T, xs: seq<T>, key: T -> int)
    requires SortedDesc(xs, key)
    ensures SortedDesc(Insert(x, xs, key), key)
  {
    if |xs| > 0 && key(xs[0]) >= key(x) {
      InsertSorted(x, xs[1..], key);
      var rest := Insert(x, xs[1..], key);
      forall j | 0 <= j < |rest| ensures key(xs[0]) >= key(rest[j]) {
        assert rest[j] in multiset(rest);
        assert rest[j] in multiset(xs[1..]) + multiset{x};
        if rest[j] in multiset(xs[1..]) {
          var m :| 0 <= m < |xs[1..]| && xs[1..][m] == rest[j];
          assert xs[m + 1] == rest[j];
        }
      }
    }
  }

  lemma {:induction false} InsertWithKey<T>(x: T, xs: seq<T>, key: T -> int, k: int)
    requires SortedDesc(xs, key)
    ensures key(x) == k ==> WithKey(Insert(x, xs, key), key, k) == WithKey(xs, key, k) + [x]
    ensures key(x) != k ==> WithKey(Insert(x, xs, key), key, k) == WithKey(xs, key, k)
  {
    if |xs| == 0 {
    } else if key(xs[0]) >= key(x) {
      var rest := Insert(x, xs[1..], key);
      assert SortedDesc(xs[1..], key);
      InsertWithKey(x, xs[1..], key, k);
      var r := [xs[0]] + rest;
      assert Insert(x, xs, key) == r;
      assert r[0] == xs[0] && r[1..] == rest;
    } else {
      var r := [x] + xs;
      assert Insert(x, xs, key) == r;
      assert r[0] == x && r[1..] == xs;
      if key(x) == k {
        WithKeyNone(xs, key, k);
      }
    }
  }

  /** Stable descending sort: a permutation of the input, sorted by key, in
      which the elements of each key keep their input order. */
  function SortDesc<T>(xs: seq<T>, key: T -> int): (r: seq<T>)
    ensures SortedDesc(r, key)
    ensures multiset(r) == multiset(xs)
    ensures |r| == |xs|
    ensures forall k :: WithKey(r, key, k) == WithKey(xs, key, k)
  {
    if |xs| == 0 then []
    else
      var init := xs[..|xs| - 1];
      var last := xs[|xs| - 1];
      assert xs == init + [last];
      var sorted := SortDesc(init, key);
      var r := Insert(last, sorted, key);
      InsertSorted(last, sorted, key);
      forall k ensures WithKey(r, key, k) == WithKey(xs, key, k) {
        WithKeyAppend(init, [last], key, k);
        InsertWithKey(last, sorted, key, k);
      }
      assert |r| == |multiset(r)|;
      r
  }

  /** The first `n` elements, or all of them when there are fewer. */
  function Take<T>(xs: seq<T>, n: nat): (r: seq<T>)
    ensures |r| <= n && |r| <= |xs| && r == xs[..|r|]
    ensures |r| < n ==> r == xs
  {
    if |xs| <= n then xs else xs[..n]
  }

  /** An element of a sorted sequence that is not among its first `n` has a key
      no greater than any of them, and there are `n` of them. */
  lemma {:induction false} TakeHoldsTop<T>(xs: seq<T>, key: T -> int, n: nat, x: T)
    requires SortedDesc(xs, key)
    requires x in xs && x !in Take(xs, n)
    ensures |Take(xs, n)| == n
    ensures forall i :: 0 <= i < n ==> key(xs[i]) >= key(x)
  {
    var j :| 0 <= j < |xs| && xs[j] == x;
  }

  /** A permutation of a sequence without repetitions has none either. */
  lemma {:induction false} DistinctPermutation<T>(c: seq<T>, p: seq<T>, i: nat, j: nat)
    requires forall a, b :: 0 <= a < b < |c| ==> c[a] != c[b]
    requires multiset(p) == multiset(c)
    requires i < j < |p|
    ensures p[i] != p[j]
  {
    if p[i] == p[j] {
      var x := p[i];
      assert multiset(p)[x] >= 2 by {
        var pre := p[..j];
        assert p == pre + p[j..];
        assert x in multiset(pre) by { assert pre[i] == x; }
        assert x in multiset(p[j..]) by { assert p[j..][0] == x; }
      }
      DistinctOnce(c, x);
      assert false;
    }
  }

  lemma {:induction false} DistinctOnce<T>(c: seq<T>, x: T)
    requires forall a, b :: 0 <= a < b < |c| ==> c[a] != c[b]
    ensures multiset(c)[x] <= 1
  {
    if |c| > 0 {
      DistinctOnce(c[1..], x);
      assert c == [c[0]] + c[1..];
      if c[0] == x {
        assert x !in c[1..] by {
          forall k | 0 <= k < |c[1..]| ensures c[1..][k] != x {
            assert c[1..][k] == c[k + 1];
          }
        }
      }
    }
  }
}
