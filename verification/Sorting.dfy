/** Insertion sort under any total order; what it computes does not depend on how it gets there. */
module Sorting {
  import opened Lists

  ghost predicate TotalOrder<T(!new)>(less: (T, T) -> bool) {
    && (forall x :: !less(x, x))
    && (forall x, y :: x == y || less(x, y) || less(y, x))
    && (forall x, y, z :: less(x, y) && less(y, z) ==> less(x, z))
  }

  predicate SortedBy<T>(s: seq<T>, less: (T, T) -> bool) {
    forall i, j :: 0 <= i < j < |s| ==> !less(s[j], s[i])
  }

  function InsertBy<T(==)>(x: T, s: seq<T>, less: (T, T) -> bool): (r: seq<T>)
    ensures multiset(r) == multiset{x} + multiset(s)
  {
    if s == [] || !less(s[0], x) then [x] + s
    else
      assert s == [s[0]] + s[1..];
      [s[0]] + InsertBy(x, s[1..], less)
  }

  lemma {:induction false} InsertSorted<T(!new)>(x: T, s: seq<T>, less: (T, T) -> bool)
    requires TotalOrder(less) && SortedBy(s, less)
    ensures SortedBy(InsertBy(x, s, less), less)
    decreases |s|
  {
    var r := InsertBy(x, s, less);
    if s == [] || !less(s[0], x) {
      forall j | 0 < j < |r|
        ensures !less(r[j], x)
      {
        assert r[j] == s[j - 1];
        assert r[j] == s[0] || less(s[0], r[j]);
      }
    } else {
      var t := InsertBy(x, s[1..], less);
      InsertSorted(x, s[1..], less);
      forall j | 0 <= j < |t|
        ensures !less(t[j], s[0])
      {
        assert t[j] in multiset(t);
        assert t[j] == x || t[j] in s[1..];
      }
    }
  }

  function SortBy<T(==)>(s: seq<T>, less: (T, T) -> bool): (r: seq<T>)
    ensures multiset(r) == multiset(s)
  {
    if s == [] then []
    else
      assert s == s[..|s| - 1] + [s[|s| - 1]];
      InsertBy(s[|s| - 1], SortBy(s[..|s| - 1], less), less)
  }

  lemma {:induction false} SortBySorts<T(!new)>(s: seq<T>, less: (T, T) -> bool)
    requires TotalOrder(less)
    ensures SortedBy(SortBy(s, less), less)
    decreases |s|
  {
    if s != [] {
      SortBySorts(s[..|s| - 1], less);
      InsertSorted(s[|s| - 1], SortBy(s[..|s| - 1], less), less);
    }
  }

  /** There is one sorted arrangement of the same elements. */
  lemma {:induction false} SortedByUnique<T(!new)>(a: seq<T>, b: seq<T>, less: (T, T) -> bool)
    requires TotalOrder(less) && SortedBy(a, less) && SortedBy(b, less) && multiset(a) == multiset(b)
    ensures a == b
    decreases |a|
  {
    assert |a| == |multiset(a)| == |multiset(b)| == |b|;
    if a != [] {
      SameHead(a, b, less);
      SortedByUnique(a[1..], b[1..], less);
    }
  }

  lemma SameHead<T(!new)>(a: seq<T>, b: seq<T>, less: (T, T) -> bool)
    requires TotalOrder(less) && SortedBy(a, less) && SortedBy(b, less)
    requires multiset(a) == multiset(b) && a != [] && b != []
    ensures a[0] == b[0] && multiset(a[1..]) == multiset(b[1..])
  {
    assert a[0] in multiset(b) && b[0] in multiset(a);
    HeadAndTail(a);
    HeadAndTail(b);
  }
}
