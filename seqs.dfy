/** Sequence operations the handlers use on scanned rows: JavaScript's
    `Array.prototype.filter`, `reverse` and the query builder's `take`. */
module Seqs {

  function Min(a: int, b: int): int
  {
    if a <= b then a else b
  }

  /** The elements of `s` that satisfy `p`, in their original order. */
  function Filter<T(!new)>(s: seq<T>, p: T -> bool): (r: seq<T>)
    ensures |r| <= |s|
    ensures forall x :: x in r <==> x in s && p(x)
    ensures multiset(r) <= multiset(s)
  {
    if s == [] then []
    else
      assert s == [s[0]] + s[1..];
      (if p(s[0]) then [s[0]] else []) + Filter(s[1..], p)
  }

  /** Filtering by a predicate and by its negation splits the sequence. */
  lemma {:induction false} FilterPartition<T(!new)>(s: seq<T>, p: T -> bool, q: T -> bool)
    requires forall x :: q(x) == !p(x)
    ensures |Filter(s, p)| + |Filter(s, q)| == |s|
  {
    if s != [] {
      FilterPartition(s[1..], p, q);
    }
  }

  /** A weaker predicate keeps at least as many elements. */
  lemma {:induction false} FilterMonotonic<T(!new)>(s: seq<T>, p: T -> bool, q: T -> bool)
    requires forall x :: p(x) ==> q(x)
    ensures |Filter(s, p)| <= |Filter(s, q)|
  {
    if s != [] {
      FilterMonotonic(s[1..], p, q);
    }
  }

  /** Sequences with the same multiset have the same members. */
  lemma SameMembers<T>(r: seq<T>, s: seq<T>)
    requires multiset(r) == multiset(s)
    ensures forall x :: x in r <==> x in s
  {
    forall x
      ensures x in r <==> x in s
    {
      assert x in r <==> x in multiset(r);
      assert x in s <==> x in multiset(s);
    }
  }

  /** `before` holds between every element of `s` and every later one. */
  predicate Ordered<T>(s: seq<T>, before: (T, T) -> bool)
  {
    forall i, j :: 0 <= i < j < |s| ==> before(s[i], s[j])
  }

  /** Every suffix of an ordered sequence is ordered. */
  lemma {:induction false} OrderedSuffix<T>(s: seq<T>, k: nat, before: (T, T) -> bool)
    requires Ordered(s, before) && k <= |s|
    ensures Ordered(s[k..], before)
  {
    var t := s[k..];
    forall i, j | 0 <= i < j < |t|
      ensures before(t[i], t[j])
    {
      assert t[i] == s[k + i] && t[j] == s[k + j];
    }
  }

  /** Filtering keeps any order relation that holds between every earlier
      and every later element. */
  lemma {:induction false} FilterKeepsOrder<T(!new)>(s: seq<T>, p: T -> bool, before: (T, T) -> bool)
    requires Ordered(s, before)
    ensures Ordered(Filter(s, p), before)
  {
    if s != [] {
      var t := s[1..];
      FilterKeepsOrder(t, p, before);
      if p(s[0]) {
        FirstBeforeKept(s, p, before);
        ConsOrdered(s[0], Filter(t, p), before);
        assert Filter(s, p) == [s[0]] + Filter(t, p);
      } else {
        assert Filter(s, p) == Filter(t, p);
      }
    }
  }

  /** Putting an element that comes before all of an ordered sequence in
      front of it keeps it ordered. */
  lemma ConsOrdered<T>(x: T, s: seq<T>, before: (T, T) -> bool)
    requires Ordered(s, before)
    requires forall y :: y in s ==> before(x, y)
    ensures Ordered([x] + s, before)
  {
    var r := [x] + s;
    forall i, j | 0 <= i < j < |r|
      ensures before(r[i], r[j])
    {
      assert r[j] == s[j - 1];
      if i > 0 {
        assert r[i] == s[i - 1];
      }
    }
  }

  /** The head of an ordered sequence comes before everything filtering its
      tail keeps. */
  lemma FirstBeforeKept<T(!new)>(s: seq<T>, p: T -> bool, before: (T, T) -> bool)
    requires Ordered(s, before) && s != []
    ensures forall y :: y in Filter(s[1..], p) ==> before(s[0], y)
  {
    forall y | y in Filter(s[1..], p)
      ensures before(s[0], y)
    {
      var k :| 0 <= k < |s[1..]| && s[1..][k] == y;
      assert s[k + 1] == y;
    }
  }

  /** `s` back to front (`Array.prototype.reverse`). */
  function Reverse<T>(s: seq<T>): (r: seq<T>)
    ensures |r| == |s|
    ensures forall k :: 0 <= k < |s| ==> r[k] == s[|s| - 1 - k]
  {
    if s == [] then [] else Reverse(s[1..]) + [s[0]]
  }

  lemma {:induction false} ReverseMembers<T>(s: seq<T>)
    ensures forall x :: x in Reverse(s) <==> x in s
  {
    var r := Reverse(s);
    var n := |s|;
    forall x | x in r
      ensures x in s
    {
      var k :| 0 <= k < n && r[k] == x;
      assert s[n - 1 - k] == x;
    }
    forall x | x in s
      ensures x in r
    {
      var k :| 0 <= k < n && s[k] == x;
      assert r[n - 1 - k] == x;
    }
  }

  /** The first `n` elements, or all of them when there are fewer (`take(n)`). */
  function Take<T>(s: seq<T>, n: nat): (r: seq<T>)
    ensures |r| == Min(n, |s|)
    ensures r == s[..|r|]
  {
    if n <= |s| then s[..n] else s
  }

  /** Taking the first `n` of the reversed sequence and reversing the result
      gives the last `n` elements in their original order. */
  lemma {:induction false} LastOfReversed<T>(s: seq<T>, n: nat)
    ensures Reverse(Take(Reverse(s), n)) == s[|s| - Min(n, |s|)..]
  {
    var m := Min(n, |s|);
    var r := Reverse(Take(Reverse(s), n));
    var last := s[|s| - m..];
    forall k | 0 <= k < m
      ensures r[k] == last[k]
    {
      LastOfReversedAt(s, n, k);
    }
  }

  /** The pointwise step of `LastOfReversed`. */
  lemma {:induction false} LastOfReversedAt<T>(s: seq<T>, n: nat, k: nat)
    requires k < Min(n, |s|)
    ensures Reverse(Take(Reverse(s), n))[k] == s[|s| - Min(n, |s|) + k]
  {
    var m := Min(n, |s|);
    var rs := Reverse(s);
    var t := Take(rs, n);
    assert Reverse(t)[k] == t[m - 1 - k];
    assert t[m - 1 - k] == rs[m - 1 - k];
  }
}
