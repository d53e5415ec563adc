/** A stable sort driven by a JavaScript-style comparator: `cmp(a, b) < 0`
    puts `a` first, `> 0` puts `b` first and `0` keeps the input order, as
    `Array.prototype.sort` does (it is stable since ECMAScript 2019). */
module Sorting {

  function Sign(x: int): int
  {
    if x < 0 then -1 else if x == 0 then 0 else 1
  }

  /** A consistent comparator: swapping the arguments flips the sign, and
      "not after" is transitive. Under these conditions the output of a
      stable sort does not depend on the sorting algorithm. */
  ghost predicate IsComparator<T(!new)>(cmp: (T, T) -> int)
  {
    && (forall a, b :: Sign(cmp(a, b)) == -Sign(cmp(b, a)))
    && (forall a, b, c {:trigger cmp(a, b), cmp(b, c), cmp(a, c)} ::
          cmp(a, b) <= 0 && cmp(b, c) <= 0 ==> cmp(a, c) <= 0)
  }

  /** No element is placed after one the comparator puts after it. */
  ghost predicate SortedBy<T>(s: seq<T>, cmp: (T, T) -> int)
  {
    forall i, j :: 0 <= i < j < |s| ==> cmp(s[i], s[j]) <= 0
  }

  /** The elements of `s` that compare equal to `p`, in their order in `s`. */
  function Class<T>(s: seq<T>, cmp: (T, T) -> int, p: T): seq<T>
  {
    if s == [] then []
    else (if cmp(s[0], p) == 0 then [s[0]] else []) + Class(s[1..], cmp, p)
  }

  /** Inserts `x` in front of the first element it does not come after. */
  function Insert<T>(x: T, s: seq<T>, cmp: (T, T) -> int): (r: seq<T>)
    ensures |r| == |s| + 1
    ensures multiset(r) == multiset(s) + multiset{x}
  {
    if s == [] || cmp(x, s[0]) <= 0 then [x] + s
    else
      assert s == [s[0]] + s[1..];
      [s[0]] + Insert(x, s[1..], cmp)
  }

  /** Stable insertion sort. */
  function Sort<T>(s: seq<T>, cmp: (T, T) -> int): (r: seq<T>)
    ensures |r| == |s|
    ensures multiset(r) == multiset(s)
  {
    if s == [] then []
    else
      assert s == [s[0]] + s[1..];
      Insert(s[0], Sort(s[1..], cmp), cmp)
  }

  lemma {:induction false} InsertSorted<T(!new)>(x: T, s: seq<T>, cmp: (T, T) -> int)
    requires IsComparator(cmp)
    requires SortedBy(s, cmp)
    ensures SortedBy(Insert(x, s, cmp), cmp)
  {
    if s == [] || cmp(x, s[0]) <= 0 {
      forall y | y in s
        ensures cmp(x, y) <= 0
      {
        var k :| 0 <= k < |s| && s[k] == y;
        if k > 0 {
          assert cmp(s[0], s[k]) <= 0;
        }
      }
      PrependSorted(x, s, cmp);
    } else {
      var t := s[1..];
      SortedTail(s, cmp);
      InsertSorted(x, t, cmp);
      assert cmp(s[0], x) < 0 by {
        assert Sign(cmp(x, s[0])) == -Sign(cmp(s[0], x));
      }
      HeadBeforeAll(s, cmp);
      forall y | y in Insert(x, t, cmp)
        ensures cmp(s[0], y) <= 0
      {
        assert y in multiset(t) + multiset{x};
      }
      PrependSorted(s[0], Insert(x, t, cmp), cmp);
    }
  }

  /** The head of a sorted sequence comes before the rest of it. */
  lemma {:induction false} HeadBeforeAll<T>(s: seq<T>, cmp: (T, T) -> int)
    requires SortedBy(s, cmp)
    ensures s != [] ==> forall y :: y in s[1..] ==> cmp(s[0], y) <= 0
  {
    if s != [] {
      forall y | y in s[1..]
        ensures cmp(s[0], y) <= 0
      {
        var k :| 0 <= k < |s| - 1 && s[1..][k] == y;
        assert s[k + 1] == y;
      }
    }
  }

  /** Putting an element that comes before all of a sorted sequence in front
      keeps it sorted. */
  lemma {:induction false} PrependSorted<T>(h: T, r: seq<T>, cmp: (T, T) -> int)
    requires SortedBy(r, cmp)
    requires forall y :: y in r ==> cmp(h, y) <= 0
    ensures SortedBy([h] + r, cmp)
  {
    var out := [h] + r;
    forall i, j | 0 <= i < j < |out|
      ensures cmp(out[i], out[j]) <= 0
    {
      assert out[j] == r[j - 1];
      if i > 0 {
        assert out[i] == r[i - 1];
      }
    }
  }

  /** The sort orders its output. */
  lemma {:induction false} SortSorted<T(!new)>(s: seq<T>, cmp: (T, T) -> int)
    requires IsComparator(cmp)
    ensures SortedBy(Sort(s, cmp), cmp)
  {
    if s != [] {
      SortSorted(s[1..], cmp);
      InsertSorted(s[0], Sort(s[1..], cmp), cmp);
    }
  }

  lemma {:induction false} ClassAppend<T>(a: seq<T>, b: seq<T>, cmp: (T, T) -> int, p: T)
    ensures Class(a + b, cmp, p) == Class(a, cmp, p) + Class(b, cmp, p)
  {
    if a == [] {
      assert a + b == b;
    } else {
      var h := if cmp(a[0], p) == 0 then [a[0]] else [];
      assert (a + b)[0] == a[0];
      assert (a + b)[1..] == a[1..] + b;
      ClassAppend(a[1..], b, cmp, p);
      calc {
        Class(a + b, cmp, p);
        h + Class(a[1..] + b, cmp, p);
        h + (Class(a[1..], cmp, p) + Class(b, cmp, p));
        (h + Class(a[1..], cmp, p)) + Class(b, cmp, p);
        Class(a, cmp, p) + Class(b, cmp, p);
      }
    }
  }

  lemma ClassSingle<T>(x: T, cmp: (T, T) -> int, p: T)
    ensures Class([x], cmp, p) == if cmp(x, p) == 0 then [x] else []
  {
    assert [x][1..] == [];
  }

  /** Inserting `x` adds it in front of its class and leaves every other
      class alone: no element of `x`'s class is passed over. */
  lemma {:induction false} InsertClass<T(!new)>(x: T, s: seq<T>, cmp: (T, T) -> int, p: T)
    requires IsComparator(cmp)
    ensures Class(Insert(x, s, cmp), cmp, p) == Class([x], cmp, p) + Class(s, cmp, p)
  {
    if s == [] || cmp(x, s[0]) <= 0 {
      ClassAppend([x], s, cmp, p);
    } else {
      var y, rest := s[0], s[1..];
      assert s == [y] + rest;
      InsertClass(x, rest, cmp, p);
      ClassSingle(x, cmp, p);
      ClassSingle(y, cmp, p);
      ClassAppend([y], Insert(x, rest, cmp), cmp, p);
      ClassAppend([y], rest, cmp, p);
      // `y` was passed over, so it cannot be equivalent to `x`.
      assert !(cmp(x, p) == 0 && cmp(y, p) == 0);
    }
  }

  /** The sort is stable: each class keeps its input order. */
  lemma {:induction false} SortStable<T(!new)>(s: seq<T>, cmp: (T, T) -> int)
    requires IsComparator(cmp)
    ensures forall p :: Class(Sort(s, cmp), cmp, p) == Class(s, cmp, p)
  {
    if s != [] {
      SortStable(s[1..], cmp);
      forall p
        ensures Class(Sort(s, cmp), cmp, p) == Class(s, cmp, p)
      {
        InsertClass(s[0], Sort(s[1..], cmp), cmp, p);
        assert s == [s[0]] + s[1..];
        ClassAppend([s[0]], s[1..], cmp, p);
      }
    }
  }

  /** Two sequences that are both sorted and agree on every class are equal:
      sortedness and stability determine the result, so any stable sort with
      this comparator returns `Sort(s, cmp)`. */
  lemma {:induction false} StableSortUnique<T(!new)>(r: seq<T>, t: seq<T>, cmp: (T, T) -> int)
    requires IsComparator(cmp)
    requires SortedBy(r, cmp) && SortedBy(t, cmp)
    requires forall p :: Class(r, cmp, p) == Class(t, cmp, p)
    ensures r == t
    decreases |r| + |t|
  {
    EmptyTogether(r, t, cmp);
    if r != [] {
      SameHead(r, t, cmp);
      SameTailClasses(r, t, cmp);
      SortedTail(r, cmp);
      SortedTail(t, cmp);
      StableSortUnique(r[1..], t[1..], cmp);
      assert r == [r[0]] + r[1..] && t == [t[0]] + t[1..];
    }
  }

  /** Sequences that agree on every class are empty together. */
  lemma {:induction false} EmptyTogether<T(!new)>(r: seq<T>, t: seq<T>, cmp: (T, T) -> int)
    requires IsComparator(cmp)
    requires forall p :: Class(r, cmp, p) == Class(t, cmp, p)
    ensures r == [] <==> t == []
  {
    if r != [] {
      ClassOfHead(r, cmp);
      assert Class(t, cmp, r[0]) != [];
    }
    if t != [] {
      ClassOfHead(t, cmp);
      assert Class(r, cmp, t[0]) != [];
    }
  }

  lemma {:induction false} SortedTail<T>(s: seq<T>, cmp: (T, T) -> int)
    requires SortedBy(s, cmp) && s != []
    ensures SortedBy(s[1..], cmp)
  {
    forall i, j | 0 <= i < j < |s| - 1
      ensures cmp(s[1..][i], s[1..][j]) <= 0
    {
      assert s[1..][i] == s[i + 1] && s[1..][j] == s[j + 1];
    }
  }

  /** Sorted sequences that agree on every class start with the same element. */
  lemma {:induction false} SameHead<T(!new)>(r: seq<T>, t: seq<T>, cmp: (T, T) -> int)
    requires IsComparator(cmp)
    requires SortedBy(r, cmp) && SortedBy(t, cmp)
    requires forall p :: Class(r, cmp, p) == Class(t, cmp, p)
    requires r != [] && t != []
    ensures r[0] == t[0]
  {
    var a, b := r[0], t[0];
    HeadInOther(r, t, cmp);
    HeadInOther(t, r, cmp);
    // Each of `a` and `b` is no later than the other, so they are equivalent.
    HeadNotAfter(r, b, cmp);
    HeadNotAfter(t, a, cmp);
    // `b` heads `t`, so were it equivalent to `a` it would head the class
    // of `a` in `t`, which `a` heads.
    assert t == [b] + t[1..];
    ClassAppend([b], t[1..], cmp, a);
    if a != b {
      MutuallyNotAfter(a, b, cmp);
    }
  }

  /** The head of `r` heads its class in `r`, so it heads that class in any
      sequence with the same classes, and in particular occurs there. */
  lemma {:induction false} HeadInOther<T(!new)>(r: seq<T>, t: seq<T>, cmp: (T, T) -> int)
    requires IsComparator(cmp)
    requires forall p :: Class(r, cmp, p) == Class(t, cmp, p)
    requires r != []
    ensures r[0] in t
    ensures Class(t, cmp, r[0]) != [] && Class(t, cmp, r[0])[0] == r[0]
  {
    ClassOfHead(r, cmp);
    assert Class(t, cmp, r[0]) == Class(r, cmp, r[0]);
    ClassMembers(t, cmp, r[0]);
  }

  /** Two elements neither of which comes after the other are equivalent. */
  lemma {:induction false} MutuallyNotAfter<T(!new)>(a: T, b: T, cmp: (T, T) -> int)
    requires IsComparator(cmp)
    requires cmp(a, b) <= 0 && cmp(b, a) <= 0
    ensures cmp(a, b) == 0 && cmp(b, a) == 0
  {
    assert Sign(cmp(a, b)) == -Sign(cmp(b, a));
  }

  /** No element of a sorted sequence comes before its head. */
  lemma HeadNotAfter<T>(s: seq<T>, x: T, cmp: (T, T) -> int)
    requires SortedBy(s, cmp) && x in s && s != []
    ensures x == s[0] || cmp(s[0], x) <= 0
  {
    var k :| 0 <= k < |s| && s[k] == x;
    if k > 0 {
      assert cmp(s[0], s[k]) <= 0;
    }
  }

  /** Sequences with the same head that agree on every class agree on every
      class of their tails. */
  lemma {:induction false} SameTailClasses<T>(r: seq<T>, t: seq<T>, cmp: (T, T) -> int)
    requires r != [] && t != [] && r[0] == t[0]
    requires forall p :: Class(r, cmp, p) == Class(t, cmp, p)
    ensures forall p :: Class(r[1..], cmp, p) == Class(t[1..], cmp, p)
  {
    var a := r[0];
    forall p
      ensures Class(r[1..], cmp, p) == Class(t[1..], cmp, p)
    {
      assert r == [a] + r[1..];
      assert t == [a] + t[1..];
      ClassAppend([a], r[1..], cmp, p);
      ClassAppend([a], t[1..], cmp, p);
      var h := Class([a], cmp, p);
      assert Class(r[1..], cmp, p) == Class(r, cmp, p)[|h|..];
      assert Class(t[1..], cmp, p) == Class(t, cmp, p)[|h|..];
    }
  }

  /** A nonempty sequence's first element belongs to its own class. */
  lemma {:induction false} ClassOfHead<T(!new)>(s: seq<T>, cmp: (T, T) -> int)
    requires IsComparator(cmp)
    requires s != []
    ensures Class(s, cmp, s[0]) != [] && Class(s, cmp, s[0])[0] == s[0]
  {
    assert Sign(cmp(s[0], s[0])) == -Sign(cmp(s[0], s[0]));
  }

  lemma {:induction false} ClassMembers<T>(s: seq<T>, cmp: (T, T) -> int, p: T)
    ensures forall x :: x in Class(s, cmp, p) ==> x in s && cmp(x, p) == 0
  {
    if s != [] {
      ClassMembers(s[1..], cmp, p);
    }
  }

  /** Elements that compare equal appear with decreasing `key`. */
  ghost predicate TiesDescend<T>(s: seq<T>, cmp: (T, T) -> int, key: T -> int)
  {
    forall i, j :: 0 <= i < j < |s| && cmp(s[i], s[j]) == 0 ==> key(s[i]) > key(s[j])
  }

  lemma {:induction false} InsertTiesDescend<T(!new)>(x: T, s: seq<T>, cmp: (T, T) -> int, key: T -> int)
    requires IsComparator(cmp)
    requires forall y :: y in s ==> key(x) > key(y)
    requires TiesDescend(s, cmp, key)
    ensures TiesDescend(Insert(x, s, cmp), cmp, key)
  {
    if s != [] && cmp(x, s[0]) > 0 {
      var t := s[1..];
      assert TiesDescend(t, cmp, key) by {
        forall i, j | 0 <= i < j < |t| && cmp(t[i], t[j]) == 0
          ensures key(t[i]) > key(t[j])
        {
          assert t[i] == s[i + 1] && t[j] == s[j + 1];
        }
      }
      InsertTiesDescend(x, t, cmp, key);
      PassedOver(x, s, cmp, key);
      PrependTiesDescend(s[0], Insert(x, t, cmp), cmp, key);
    }
  }

  /** When `x` is inserted behind the head of `s`, the head outranks every
      element it ties with in the rest of the result. */
  lemma {:induction false} PassedOver<T(!new)>(x: T, s: seq<T>, cmp: (T, T) -> int, key: T -> int)
    requires IsComparator(cmp)
    requires s != [] && cmp(x, s[0]) > 0
    requires TiesDescend(s, cmp, key)
    ensures forall y :: y in Insert(x, s[1..], cmp) && cmp(s[0], y) == 0 ==> key(s[0]) > key(y)
  {
    var t := s[1..];
    assert cmp(s[0], x) != 0 by {
      assert Sign(cmp(x, s[0])) == -Sign(cmp(s[0], x));
    }
    forall y | y in Insert(x, t, cmp) && cmp(s[0], y) == 0
      ensures key(s[0]) > key(y)
    {
      assert y in multiset(t) + multiset{x};
      assert y in t;
      var k :| 0 <= k < |t| && t[k] == y;
      assert s[k + 1] == y;
    }
  }

  /** Putting `h` in front keeps ties descending when `h` outranks every
      element it ties with. */
  lemma {:induction false} PrependTiesDescend<T>(h: T, r: seq<T>, cmp: (T, T) -> int, key: T -> int)
    requires TiesDescend(r, cmp, key)
    requires forall y :: y in r && cmp(h, y) == 0 ==> key(h) > key(y)
    ensures TiesDescend([h] + r, cmp, key)
  {
    var out := [h] + r;
    forall i, j | 0 <= i < j < |out| && cmp(out[i], out[j]) == 0
      ensures key(out[i]) > key(out[j])
    {
      assert out[j] == r[j - 1];
      if i > 0 {
        assert out[i] == r[i - 1];
      }
    }
  }

  /** When the input's keys strictly decrease, so do the keys of every run of
      equal elements in the output: ties keep their input order. */
  lemma {:induction false} SortTiesDescend<T(!new)>(s: seq<T>, cmp: (T, T) -> int, key: T -> int)
    requires IsComparator(cmp)
    requires forall i, j :: 0 <= i < j < |s| ==> key(s[i]) > key(s[j])
    ensures TiesDescend(Sort(s, cmp), cmp, key)
  {
    if s != [] {
      var t := Sort(s[1..], cmp);
      SortTiesDescend(s[1..], cmp, key);
      forall y | y in t
        ensures key(s[0]) > key(y)
      {
        assert y in multiset(s[1..]);
        var k :| 0 <= k < |s[1..]| && s[1..][k] == y;
        assert s[k + 1] == y;
      }
      InsertTiesDescend(s[0], t, cmp, key);
    }
  }

  /** Sorting under a consistent comparator yields a sorted sequence that
      keeps each class of equal elements in its input order. */
  lemma {:induction false} SortFacts<T(!new)>(s: seq<T>, cmp: (T, T) -> int)
    requires IsComparator(cmp)
    ensures SortedBy(Sort(s, cmp), cmp)
    ensures forall p :: Class(Sort(s, cmp), cmp, p) == Class(s, cmp, p)
  {
    SortSorted(s, cmp);
    SortStable(s, cmp);
  }

  /** Elements related by `tied` appear with decreasing `key`. */
  ghost predicate TiedDescend<T>(s: seq<T>, tied: (T, T) -> bool, key: T -> int)
  {
    forall i, j :: 0 <= i < j < |s| && tied(s[i], s[j]) ==> key(s[i]) > key(s[j])
  }

  /** When the input's keys strictly decrease, elements related by `tied`,
      which the comparator ranks equal, come out with decreasing keys. */
  lemma {:induction false} SortTiedDescend<T(!new)>(s: seq<T>, cmp: (T, T) -> int, tied: (T, T) -> bool, key: T -> int)
    requires IsComparator(cmp)
    requires forall a, b :: tied(a, b) ==> cmp(a, b) == 0
    requires forall i, j :: 0 <= i < j < |s| ==> key(s[i]) > key(s[j])
    ensures TiedDescend(Sort(s, cmp), tied, key)
  {
    SortTiesDescend(s, cmp, key);
    var r := Sort(s, cmp);
    forall i, j | 0 <= i < j < |r| && tied(r[i], r[j])
      ensures key(r[i]) > key(r[j])
    {
      assert cmp(r[i], r[j]) == 0;
    }
  }
}
