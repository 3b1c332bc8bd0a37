/**
 * The stable sort behind `Stream.sorted(comparator)`, over an ordering given
 * as a "less than or equal" predicate.
 */
module Sorting {

  /** `le` is total and transitive, as a Java comparator is meant to be. */
  ghost predicate TotalPreorder<T(!new)>(le: (T, T) -> bool) {
    (forall a, b :: le(a, b) || le(b, a)) &&
    (forall a, b, c :: le(a, b) && le(b, c) ==> le(a, c))
  }

  predicate Sorted<T>(s: seq<T>, le: (T, T) -> bool) {
    forall i, j :: 0 <= i < j < |s| ==> le(s[i], s[j])
  }

  /** Place `x` after the last element that is not above it. */
  function Insert<T>(x: T, s: seq<T>, le: (T, T) -> bool): (r: seq<T>)
    ensures multiset(r) == multiset(s) + multiset{x}
    ensures |r| == |s| + 1
  {
    if s == [] || le(s[|s| - 1], x) then s + [x]
    else
      assert s == s[..|s| - 1] + [s[|s| - 1]];
      Insert(x, s[..|s| - 1], le) + [s[|s| - 1]]
  }

  /** Insertion sort, taking the elements from the front. */
  function Sort<T>(s: seq<T>, le: (T, T) -> bool): (r: seq<T>)
    ensures multiset(r) == multiset(s)
    ensures |r| == |s|
  {
    if s == [] then []
    else
      assert s == s[..|s| - 1] + [s[|s| - 1]];
      Insert(s[|s| - 1], Sort(s[..|s| - 1], le), le)
  }

  lemma {:induction false} InsertSorted<T(!new)>(x: T, s: seq<T>, le: (T, T) -> bool)
    requires TotalPreorder(le) && Sorted(s, le)
    ensures Sorted(Insert(x, s, le), le)
  {
    if s != [] && !le(s[|s| - 1], x) {
      var init := s[..|s| - 1];
      var y := s[|s| - 1];
      InsertSorted(x, init, le);
      var r := Insert(x, init, le);
      assert le(x, y);
      forall e | e in multiset(r)
        ensures le(e, y)
      {
        assert e in multiset(init) + multiset{x};
        if e in multiset(init) {
          var k :| 0 <= k < |init| && init[k] == e;
        }
      }
      forall i | 0 <= i < |r|
        ensures le(r[i], y)
      {
        assert r[i] in multiset(r);
      }
    }
  }

  /** Sort yields a sorted permutation of its input. */
  lemma {:induction false} SortSorted<T(!new)>(s: seq<T>, le: (T, T) -> bool)
    requires TotalPreorder(le)
    ensures Sorted(Sort(s, le), le)
    ensures multiset(Sort(s, le)) == multiset(s)
  {
    if s != [] {
      SortSorted(s[..|s| - 1], le);
      InsertSorted(s[|s| - 1], Sort(s[..|s| - 1], le), le);
    }
  }

  /** On the elements of `m`, `le` relates two distinct elements in one direction at most. */
  ghost predicate Discerning<T(!new)>(le: (T, T) -> bool, m: multiset<T>) {
    forall x, y :: x in m && y in m && le(x, y) && le(y, x) ==> x == y
  }

  lemma SortedPrefix<T>(s: seq<T>, n: nat, le: (T, T) -> bool)
    requires n <= |s| && Sorted(s, le)
    ensures Sorted(s[..n], le)
  {
  }

  /** The last elements of two such sequences agree. */
  lemma LastEqual<T(!new)>(a: seq<T>, b: seq<T>, le: (T, T) -> bool)
    requires a != [] && Sorted(a, le) && Sorted(b, le) && multiset(a) == multiset(b)
    requires Discerning(le, multiset(a))
    ensures b != [] && a[|a| - 1] == b[|b| - 1]
  {
    var x := a[|a| - 1];
    assert x in multiset(b);
    var i :| 0 <= i < |b| && b[i] == x;
    var y := b[|b| - 1];
    assert y in multiset(a);
    var j :| 0 <= j < |a| && a[j] == y;
    if i < |b| - 1 && j < |a| - 1 {
      assert le(b[i], b[|b| - 1]) && le(a[j], a[|a| - 1]);
    }
  }

  /** A non-empty sequence is its front plus its last element, as a multiset. */
  lemma MultisetSnoc<T>(s: seq<T>)
    requires s != []
    ensures multiset(s) == multiset(s[..|s| - 1]) + multiset{s[|s| - 1]}
  {
    assert s == s[..|s| - 1] + [s[|s| - 1]];
  }

  /** Dropping equal last elements keeps the multisets equal. */
  lemma DropLast<T>(a: seq<T>, b: seq<T>)
    requires a != [] && b != [] && a[|a| - 1] == b[|b| - 1] && multiset(a) == multiset(b)
    ensures multiset(a[..|a| - 1]) == multiset(b[..|b| - 1]) <= multiset(a)
  {
    MultisetSnoc(a);
    MultisetSnoc(b);
    var x := a[|a| - 1];
    assert multiset(a[..|a| - 1]) == multiset(a) - multiset{x};
    assert multiset(b[..|b| - 1]) == multiset(b) - multiset{x};
  }

  lemma DiscerningSub<T(!new)>(le: (T, T) -> bool, m: multiset<T>, n: multiset<T>)
    requires n <= m && Discerning(le, m)
    ensures Discerning(le, n)
  {
    forall x, y | x in n && y in n && le(x, y) && le(y, x)
      ensures x == y
    {
      assert x in m && y in m;
    }
  }

  /** Removing the common last element keeps the premises of SortedUnique. */
  lemma TailsAgree<T(!new)>(a: seq<T>, b: seq<T>, le: (T, T) -> bool)
    requires a != [] && Sorted(a, le) && Sorted(b, le) && multiset(a) == multiset(b)
    requires Discerning(le, multiset(a))
    ensures b != [] && a[|a| - 1] == b[|b| - 1]
    ensures Sorted(a[..|a| - 1], le) && Sorted(b[..|b| - 1], le)
    ensures multiset(a[..|a| - 1]) == multiset(b[..|b| - 1])
    ensures Discerning(le, multiset(a[..|a| - 1]))
  {
    LastEqual(a, b, le);
    DropLast(a, b);
    DiscerningSub(le, multiset(a), multiset(a[..|a| - 1]));
    SortedPrefix(a, |a| - 1, le);
    SortedPrefix(b, |b| - 1, le);
  }

  /** Two non-empty sequences with the same last element and the same rest are equal. */
  lemma SnocEqual<T>(a: seq<T>, b: seq<T>)
    requires a != [] && b != [] && a[|a| - 1] == b[|b| - 1] && a[..|a| - 1] == b[..|b| - 1]
    ensures a == b
  {
    assert a == a[..|a| - 1] + [a[|a| - 1]] && b == b[..|b| - 1] + [b[|b| - 1]];
  }

  /**
   * Two sorted sequences with the same elements are equal when the order
   * never relates two distinct elements both ways.
   */
  lemma {:induction false} SortedUnique<T(!new)>(a: seq<T>, b: seq<T>, le: (T, T) -> bool)
    requires Sorted(a, le) && Sorted(b, le) && multiset(a) == multiset(b)
    requires Discerning(le, multiset(a))
    ensures a == b
    decreases |a|
  {
    if a == [] {
      assert |b| == |multiset(b)| == 0;
    } else {
      TailsAgree(a, b, le);
      SortedUnique(a[..|a| - 1], b[..|b| - 1], le);
      SnocEqual(a, b);
    }
  }
}
