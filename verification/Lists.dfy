/** A function applied to every element of a list, and sums of lists. */
module Lists {

  function Each<T, U>(f: T -> U, s: seq<T>): (r: seq<U>)
    ensures |r| == |s|
    ensures forall i :: 0 <= i < |s| ==> r[i] == f(s[i])
  {
    seq(|s|, i requires 0 <= i < |s| => f(s[i]))
  }

  lemma EachNext<T, U>(f: T -> U, s: seq<T>, i: nat)
    requires i < |s|
    ensures Each(f, s[..i + 1]) == Each(f, s[..i]) + [f(s[i])]
  {
  }

  lemma EachAfterEach<T, U, V>(f: U -> V, g: T -> U, h: T -> V, s: seq<T>)
    requires forall i :: 0 <= i < |s| ==> f(g(s[i])) == h(s[i])
    ensures Each(f, Each(g, s)) == Each(h, s)
  {
  }

  lemma EachWithout<T, U>(f: T -> U, s: seq<T>, i: nat)
    requires i < |s|
    ensures multiset(Each(f, s)) == multiset(Each(f, s[..i] + s[i + 1..])) + multiset{f(s[i])}
  {
    EachCutOut(f, s, i);
    Without(Each(f, s), i);
  }

  lemma EachWithoutHead<T, U>(f: T -> U, s: seq<T>)
    requires s != []
    ensures multiset(Each(f, s)) == multiset(Each(f, s[1..])) + multiset{f(s[0])}
  {
    assert Each(f, s) == [f(s[0])] + Each(f, s[1..]);
  }

  lemma EachCutOut<T, U>(f: T -> U, s: seq<T>, i: nat)
    requires i < |s|
    ensures Each(f, s[..i] + s[i + 1..]) == Each(f, s)[..i] + Each(f, s)[i + 1..]
  {
  }

  lemma Without<T>(s: seq<T>, i: nat)
    requires i < |s|
    ensures multiset(s) == multiset(s[..i] + s[i + 1..]) + multiset{s[i]}
  {
    assert s == s[..i] + [s[i]] + s[i + 1..];
  }

  lemma SameWithout<T>(a: seq<T>, b: seq<T>, i: nat)
    requires a != [] && i < |b| && a[0] == b[i] && multiset(a) == multiset(b)
    ensures multiset(a[1..]) == multiset(b[..i] + b[i + 1..])
  {
    HeadAndTail(a);
    Without(b, i);
  }

  lemma EachHas<T, U>(f: T -> U, s: seq<T>, x: T)
    requires x in s
    ensures f(x) in Each(f, s)
  {
    var i :| 0 <= i < |s| && s[i] == x;
    assert Each(f, s)[i] == f(x);
  }

  lemma SameCounts<T>(a: seq<T>, b: seq<T>)
    requires multiset(a) == multiset(b)
    ensures |a| == |b| && forall x :: x in a <==> x in b
  {
    assert |a| == |multiset(a)| == |multiset(b)| == |b|;
    forall x
      ensures x in a <==> x in b
    {
      assert x in a <==> x in multiset(a);
    }
  }

  lemma HeadAndTail<T>(a: seq<T>)
    requires a != []
    ensures multiset(a[1..]) == multiset(a) - multiset{a[0]}
  {
    assert a == [a[0]] + a[1..];
  }

  /** What a list is mapped to does not depend on the list's order, as far as counts go. */
  lemma {:induction false} EachBag<T, U>(f: T -> U, a: seq<T>, b: seq<T>)
    requires multiset(a) == multiset(b)
    ensures multiset(Each(f, a)) == multiset(Each(f, b))
    decreases |a|
  {
    SameCounts(a, b);
    if a != [] {
      assert a[0] in b;
      var i :| 0 <= i < |b| && b[i] == a[0];
      SameWithout(a, b, i);
      EachBag(f, a[1..], b[..i] + b[i + 1..]);
      EachWithoutHead(f, a);
      EachWithout(f, b, i);
    }
  }

  function Sum(xs: seq<int>): int {
    if xs == [] then 0 else xs[0] + Sum(xs[1..])
  }

  lemma OnceMore(n: nat, x: int)
    ensures (n + 1) * x == x + n * x
  {
  }

  lemma {:induction false} SumIsBounded(xs: seq<int>, max: int)
    requires forall i :: 0 <= i < |xs| ==> xs[i] <= max
    ensures Sum(xs) <= |xs| * max
    decreases |xs|
  {
    if xs != [] {
      SumIsBounded(xs[1..], max);
      OnceMore(|xs| - 1, max);
    }
  }

  lemma {:induction false} SumOfSame(xs: seq<int>, x: int)
    requires forall i :: 0 <= i < |xs| ==> xs[i] == x
    ensures Sum(xs) == |xs| * x
    decreases |xs|
  {
    if xs != [] {
      SumOfSame(xs[1..], x);
      OnceMore(|xs| - 1, x);
    }
  }
}
