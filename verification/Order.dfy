/** Bytewise order of strings, and `sort.Strings`. */
module Order {
  import opened Sorting

  predicate LexLess(a: string, b: string) {
    b != "" && (a == "" || a[0] < b[0] || (a[0] == b[0] && LexLess(a[1..], b[1..])))
  }

  lemma {:induction false} LexTotal(a: string, b: string)
    ensures a == b || LexLess(a, b) || LexLess(b, a)
    ensures !(LexLess(a, b) && LexLess(b, a)) && !LexLess(a, a)
    decreases |a|
  {
    if a != "" {
      LexTotal(a[1..], a[1..]);
      if b != "" {
        LexTotal(a[1..], b[1..]);
        if a[0] == b[0] && a[1..] == b[1..] {
          assert a == [a[0]] + a[1..] == [b[0]] + b[1..] == b;
        }
      }
    }
  }

  lemma {:induction false} LexTransitive(a: string, b: string, c: string)
    requires LexLess(a, b) && LexLess(b, c)
    ensures LexLess(a, c)
    decreases |a|
  {
    if a != "" && a[0] == b[0] == c[0] { LexTransitive(a[1..], b[1..], c[1..]); }
  }

  lemma {:induction false} LexCommonPrefix(p: string, a: string, b: string)
    ensures LexLess(p + a, p + b) <==> LexLess(a, b)
    decreases |p|
  {
    if p == "" {
      assert p + a == a && p + b == b;
    } else {
      assert (p + a)[1..] == p[1..] + a && (p + b)[1..] == p[1..] + b;
      LexCommonPrefix(p[1..], a, b);
    }
  }

  // ---------------------------------------------------------------- sorted sequences

  predicate Sorted(s: seq<string>) {
    SortedBy(s, LexLess)
  }

  predicate StrictlySorted(s: seq<string>) {
    forall i, j :: 0 <= i < j < |s| ==> LexLess(s[i], s[j])
  }

  lemma LexIsTotal()
    ensures TotalOrder(LexLess)
  {
    forall x, y {
      LexTotal(x, y);
    }
    forall x, y, z | LexLess(x, y) && LexLess(y, z)
      ensures LexLess(x, z)
    {
      LexTransitive(x, y, z);
    }
  }

  function Sort(s: seq<string>): (r: seq<string>)
    ensures multiset(r) == multiset(s)
  {
    SortBy(s, LexLess)
  }

  lemma SortSorts(s: seq<string>)
    ensures Sorted(Sort(s))
  {
    LexIsTotal();
    SortBySorts(s, LexLess);
  }

  lemma SortedUnique(a: seq<string>, b: seq<string>)
    requires Sorted(a) && Sorted(b) && multiset(a) == multiset(b)
    ensures a == b
  {
    LexIsTotal();
    SortedByUnique(a, b, LexLess);
  }

  lemma SortedAnyOrder(a: seq<string>, b: seq<string>)
    requires multiset(a) == multiset(b)
    ensures Sort(a) == Sort(b)
  {
    SortSorts(a);
    SortSorts(b);
    SortedUnique(Sort(a), Sort(b));
  }

  /** `sort.Strings`; the method of sorting is the library's own affair, its result is not. */
  method SortStrings(s: seq<string>) returns (r: seq<string>)
    ensures r == Sort(s)
    ensures Sorted(r) && multiset(r) == multiset(s)
  {
    r := [];
    for i := 0 to |s|
      invariant r == Sort(s[..i])
    {
      assert s[..i + 1][..i] == s[..i];
      r := InsertBy(s[i], r, LexLess);
    }
    assert s[..|s|] == s;
    SortSorts(s);
  }

  // ---------------------------------------------------------------- the keys of a map, in some order

  /** A map's keys in the order that some walk over it meets them. */
  ghost predicate Walk(order: seq<string>, keys: set<string>) {
    multiset(order) == multiset(keys)
  }

  method WalkKeys(keys: set<string>) returns (order: seq<string>)
    ensures Walk(order, keys)
  {
    order := [];
    var left := keys;
    while left != {}
      invariant left <= keys
      invariant multiset(order) + multiset(left) == multiset(keys)
    {
      var k :| k in left;
      assert left == (left - {k}) + {k};
      order, left := order + [k], left - {k};
    }
  }

  lemma SomeWalk(keys: set<string>) returns (order: seq<string>)
    ensures Walk(order, keys)
    decreases keys
  {
    if keys == {} {
      order := [];
    } else {
      var k :| k in keys;
      order := SomeWalk(keys - {k});
      assert keys == (keys - {k}) + {k};
      order := order + [k];
    }
  }

  ghost predicate SortedWalk(order: seq<string>, keys: set<string>) {
    Sorted(order) && Walk(order, keys)
  }

  /** The sorted keys, which do not depend on the walk. */
  ghost function SortedKeys(keys: set<string>): (r: seq<string>)
    ensures SortedWalk(r, keys)
  {
    assert exists r :: SortedWalk(r, keys) by {
      var order := SomeWalk(keys);
      SortSorts(order);
      assert SortedWalk(Sort(order), keys);
    }
    var r :| SortedWalk(r, keys);
    r
  }

  lemma SortedKeysAnyWalk(order: seq<string>, keys: set<string>)
    requires Walk(order, keys)
    ensures Sort(order) == SortedKeys(keys)
  {
    SortSorts(order);
    SortedUnique(Sort(order), SortedKeys(keys));
  }

  lemma SortedKeysAreStrict(keys: set<string>)
    ensures StrictlySorted(SortedKeys(keys))
    ensures forall k :: k in SortedKeys(keys) <==> k in keys
  {
    var s := SortedKeys(keys);
    forall k ensures k in s <==> k in keys {
      assert k in s <==> k in multiset(s);
    }
    forall i, j | 0 <= i < j < |s|
      ensures LexLess(s[i], s[j])
    {
      LexTotal(s[i], s[j]);
      if s[i] == s[j] { TwiceInBag(s, i, j); }
    }
  }

  lemma TwiceInBag(s: seq<string>, i: nat, j: nat)
    requires i < j < |s| && s[i] == s[j]
    ensures multiset(s)[s[i]] >= 2
  {
    assert s == s[..i] + [s[i]] + s[i + 1..j] + [s[j]] + s[j + 1..];
  }
}
