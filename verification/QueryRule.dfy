/**
 * The query as "Create a canonical request" of AWS Signature Version 4 has it, where names and values are encoded
 * before they are sorted, and when the code of internal/awssign/awssign.go, which sorts first, gives the same.
 */
module QueryRule {
  import opened Text
  import opened Lists
  import opened Sorting
  import opened Order
  import opened Http
  import opened UriEncode

  type Pair = (string, string)

  // ---------------------------------------------------------------- the rule

  /** By name, and by value among equal names. */
  predicate PairLess(x: Pair, y: Pair) {
    LexLess(x.0, y.0) || (x.0 == y.0 && LexLess(x.1, y.1))
  }

  lemma PairLessIsTotal()
    ensures TotalOrder(PairLess)
  {
    forall x: Pair, y: Pair
      ensures x == y || PairLess(x, y) || PairLess(y, x)
      ensures !PairLess(x, x)
    {
      PairTotal(x, y);
    }
    forall x: Pair, y: Pair, z: Pair | PairLess(x, y) && PairLess(y, z)
      ensures PairLess(x, z)
    {
      PairTransitive(x, y, z);
    }
  }

  lemma PairTotal(x: Pair, y: Pair)
    ensures x == y || PairLess(x, y) || PairLess(y, x)
    ensures !PairLess(x, x)
  {
    LexTotal(x.0, y.0);
    LexTotal(x.1, y.1);
    LexTotal(x.0, x.0);
    LexTotal(x.1, x.1);
  }

  lemma PairTransitive(x: Pair, y: Pair, z: Pair)
    requires PairLess(x, y) && PairLess(y, z)
    ensures PairLess(x, z)
  {
    if LexLess(x.0, y.0) && LexLess(y.0, z.0) { LexTransitive(x.0, y.0, z.0); }
    if LexLess(x.1, y.1) && LexLess(y.1, z.1) { LexTransitive(x.1, y.1, z.1); }
  }

  function EncodedPair(p: Pair): Pair {
    (Encode(p.0), Encode(p.1))
  }

  function Encoded(pairs: seq<Pair>): seq<Pair> {
    Each(EncodedPair, pairs)
  }

  function Equation(p: Pair): string {
    p.0 + ['='] + p.1
  }

  function Equations(pairs: seq<Pair>): seq<string> {
    Each(Equation, pairs)
  }

  /** All pairs of the query, encoded and then sorted. */
  ghost function RulePairs(query: Query): seq<Pair> {
    SortBy(Encoded(SortedPairs(query)), PairLess)
  }

  ghost function RuleQuery(query: Query): string {
    Join(Equations(RulePairs(query)), "&")
  }

  /** The list of pairs that the rule starts from may be in any order. */
  lemma RuleInAnyOrder(query: Query, pairs: seq<Pair>)
    requires multiset(pairs) == multiset(SortedPairs(query))
    ensures SortBy(Encoded(pairs), PairLess) == RulePairs(query) && SortedBy(RulePairs(query), PairLess)
  {
    PairLessIsTotal();
    EachBag(EncodedPair, pairs, SortedPairs(query));
    SortBySorts(Encoded(pairs), PairLess);
    SortBySorts(Encoded(SortedPairs(query)), PairLess);
    SortedByUnique(SortBy(Encoded(pairs), PairLess), RulePairs(query), PairLess);
  }

  // ---------------------------------------------------------------- reading a list of equations back

  predicate PlainPair(p: Pair) {
    '&' !in p.0 && '=' !in p.0 && '\n' !in p.0 && '&' !in p.1 && '\n' !in p.1
  }

  predicate PlainPairs(pairs: seq<Pair>) {
    forall i :: 0 <= i < |pairs| ==> PlainPair(pairs[i])
  }

  lemma EquationsApart(pairs: seq<Pair>)
    requires PlainPairs(pairs)
    ensures Lacking(Equations(pairs), '&') && Lacking(Equations(pairs), '\n')
    ensures pairs != [] ==> Split(Join(Equations(pairs), "&"), '&') == Equations(pairs)
    ensures pairs == [] <==> Join(Equations(pairs), "&") == ""
    ensures '\n' !in Join(Equations(pairs), "&")
  {
    JoinKeepsOut(Equations(pairs), "&", '\n');
    if pairs != [] {
      SplitJoin(Equations(pairs), '&');
      assert |Equations(pairs)[0]| > 0;
    }
  }

  lemma EquationInjective(p: Pair, q: Pair)
    requires PlainPair(p) && PlainPair(q) && Equation(p) == Equation(q)
    ensures p == q
  {
    CutConcat(p.0, '=', p.1);
    CutConcat(q.0, '=', q.1);
  }

  lemma EquationsInjective(a: seq<Pair>, b: seq<Pair>)
    requires PlainPairs(a) && PlainPairs(b) && Join(Equations(a), "&") == Join(Equations(b), "&")
    ensures a == b
  {
    EquationsApart(a);
    EquationsApart(b);
    if a != [] {
      assert |a| == |b|;
      forall i | 0 <= i < |a|
        ensures a[i] == b[i]
      {
        assert Equations(a)[i] == Equations(b)[i];
        EquationInjective(a[i], b[i]);
      }
    }
  }

  lemma EncodedPairIsPlain(p: Pair)
    ensures PlainPair(EncodedPair(p))
  {
    EncodeKeepsOut(p.0, '&');
    EncodeKeepsOut(p.0, '=');
    EncodeKeepsOut(p.0, '\n');
    EncodeKeepsOut(p.1, '&');
    EncodeKeepsOut(p.1, '\n');
  }

  lemma EncodedIsPlain(pairs: seq<Pair>)
    ensures PlainPairs(Encoded(pairs))
  {
    forall i | 0 <= i < |pairs| { EncodedPairIsPlain(pairs[i]); }
  }

  lemma PlainInAnyOrder(a: seq<Pair>, b: seq<Pair>)
    requires PlainPairs(a) && multiset(a) == multiset(b)
    ensures PlainPairs(b)
  {
    forall i | 0 <= i < |b|
      ensures PlainPair(b[i])
    {
      assert b[i] in multiset(a);
    }
  }

  /** The rule's query is one line, too. */
  lemma RuleQueryIsOneLine(query: Query)
    ensures OneLine(RuleQuery(query))
  {
    EncodedIsPlain(SortedPairs(query));
    PlainInAnyOrder(Encoded(SortedPairs(query)), RulePairs(query));
    EquationsApart(RulePairs(query));
  }

  lemma CodeQueryIs(query: Query)
    ensures CanonicalQuery(query) == Join(Equations(Encoded(SortedPairs(query))), "&")
  {
    var pairs := SortedPairs(query);
    assert EncodePairs(pairs) == Equations(Encoded(pairs));
  }

  // ---------------------------------------------------------------- the order of the code

  /** Encoding turns the two around. */
  predicate PairInverted(x: Pair, y: Pair) {
    if x.0 == y.0 then Inverted(x.1, y.1) else Inverted(x.0, y.0)
  }

  lemma {:induction false} InvertedIsLess(a: string, b: string)
    requires Inverted(a, b)
    ensures LexLess(a, b)
    decreases |a|
  {
    if a[0] == b[0] { InvertedIsLess(a[1..], b[1..]); }
  }

  lemma EncodeTurnsIff(a: string, b: string)
    requires IsBytes(a) && IsBytes(b) && !LexLess(b, a)
    ensures LexLess(Encode(b), Encode(a)) <==> Inverted(a, b)
    ensures Encode(a) == Encode(b) <==> a == b
  {
    LexTotal(a, b);
    LexTotal(Encode(a), Encode(b));
    if Encode(a) == Encode(b) { EncodeInjective(a, b); }
    if Inverted(a, b) { InvertedIsLess(a, b); }
    if LexLess(a, b) { EncodeKeepsOrderIff(a, b); }
  }

  predicate BytePair(p: Pair) {
    IsBytes(p.0) && IsBytes(p.1)
  }

  lemma PairTurnsIff(x: Pair, y: Pair)
    requires BytePair(x) && BytePair(y) && !PairLess(y, x)
    ensures PairLess(EncodedPair(y), EncodedPair(x)) <==> PairInverted(x, y)
  {
    if x.0 == y.0 {
      SameNameLess(x.0, x.1, y.1);
      SameNameLess(Encode(x.0), Encode(y.1), Encode(x.1));
      SameNameLess(x.0, y.1, x.1);
      EncodeTurnsIff(x.1, y.1);
    } else {
      EncodeTurnsIff(x.0, y.0);
    }
  }

  lemma SameNameLess(k: string, v: string, w: string)
    ensures PairLess((k, v), (k, w)) <==> LexLess(v, w)
  {
    LexTotal(k, k);
  }

  lemma PairsOfSorted(k: string, vals: seq<string>)
    requires Sorted(vals)
    ensures SortedBy(PairsOf(k, vals), PairLess)
  {
    LexTotal(k, k);
  }

  /** The pairs come sorted, as long as they are not encoded. */
  lemma {:induction false} PairsForSorted(query: Query, keys: seq<string>)
    requires StrictlySorted(keys) && forall k :: k in keys ==> k in query
    ensures SortedBy(PairsFor(query, keys), PairLess) && NamedIn(PairsFor(query, keys), keys)
    decreases |keys|
  {
    if keys != [] {
      var before, last := keys[..|keys| - 1], keys[|keys| - 1];
      PairsForSorted(query, before);
      SortSorts(query[last]);
      PairsOfSorted(last, Sort(query[last]));
      NamesBelow(PairsFor(query, before), keys);
      AppendSorted(PairsFor(query, before), PairsOf(last, Sort(query[last])));
      NamedInMore(PairsFor(query, before), keys);
    }
  }

  predicate NamedIn(pairs: seq<Pair>, keys: seq<string>) {
    forall i :: 0 <= i < |pairs| ==> pairs[i].0 in keys
  }

  lemma NamedInMore(pairs: seq<Pair>, keys: seq<string>)
    requires keys != [] && NamedIn(pairs, keys[..|keys| - 1])
    ensures NamedIn(pairs, keys) && keys[|keys| - 1] in keys
  {
  }

  lemma NamesBelow(pairs: seq<Pair>, keys: seq<string>)
    requires StrictlySorted(keys) && keys != [] && NamedIn(pairs, keys[..|keys| - 1])
    ensures forall i :: 0 <= i < |pairs| ==> LexLess(pairs[i].0, keys[|keys| - 1])
  {
    forall i | 0 <= i < |pairs|
      ensures LexLess(pairs[i].0, keys[|keys| - 1])
    {
      var j :| 0 <= j < |keys| - 1 && keys[j] == pairs[i].0;
    }
  }

  lemma AppendSorted(a: seq<Pair>, b: seq<Pair>)
    requires SortedBy(a, PairLess) && SortedBy(b, PairLess)
    requires forall i, j :: 0 <= i < |a| && 0 <= j < |b| ==> LexLess(a[i].0, b[j].0)
    ensures SortedBy(a + b, PairLess)
  {
    forall i, j | 0 <= i < |a| && 0 <= j < |b|
      ensures !PairLess(b[j], a[i])
    {
      LexTotal(a[i].0, b[j].0);
    }
  }

  lemma SortedPairsAreSorted(query: Query)
    ensures SortedBy(SortedPairs(query), PairLess)
  {
    SortedKeysAreStrict(query.Keys);
    PairsForSorted(query, SortedKeys(query.Keys));
  }

  lemma PairIsInQuery(query: Query, p: Pair)
    ensures p in SortedPairs(query) <==> p.0 in query && p.1 in query[p.0]
  {
    SortedPairsAreTheQuery(query, p.0, p.1);
    assert p in SortedPairs(query) <==> p in multiset(SortedPairs(query));
    assert p.0 in query ==> (p.1 in query[p.0] <==> p.1 in multiset(query[p.0]));
  }

  // ---------------------------------------------------------------- when the code follows the rule

  /** No two names with values are turned around by encoding, and no two values of one name are. */
  predicate OrderKept(query: Query) {
    && (forall k, l :: k in query && l in query && query[k] != [] && query[l] != [] ==> !Inverted(k, l))
    && (forall k :: k in query ==> ValuesKept(query[k]))
  }

  predicate ValuesKept(vals: seq<string>) {
    forall v, w :: v in vals && w in vals ==> !Inverted(v, w)
  }

  predicate NoneTurned(pairs: seq<Pair>) {
    forall i, j :: 0 <= i < j < |pairs| ==> !PairInverted(pairs[i], pairs[j])
  }

  lemma EncodedSortedIff(pairs: seq<Pair>)
    requires SortedBy(pairs, PairLess) && forall i :: 0 <= i < |pairs| ==> BytePair(pairs[i])
    ensures SortedBy(Encoded(pairs), PairLess) <==> NoneTurned(pairs)
  {
    var encoded := Encoded(pairs);
    forall i, j | 0 <= i < j < |pairs|
      ensures PairLess(encoded[j], encoded[i]) <==> PairInverted(pairs[i], pairs[j])
    {
      PairTurnsIff(pairs[i], pairs[j]);
    }
  }

  /** In a sorted list, pairs that encoding turns around stand in their own order. */
  lemma TurnedAreInOrder(pairs: seq<Pair>, x: Pair, y: Pair)
    requires SortedBy(pairs, PairLess) && NoneTurned(pairs) && x in pairs && y in pairs
    ensures !PairInverted(x, y)
  {
    if PairInverted(x, y) {
      if x.0 == y.0 { InvertedIsLess(x.1, y.1); } else { InvertedIsLess(x.0, y.0); }
      LexTotal(x.0, x.0);
      LexTotal(x.1, x.1);
      var i :| 0 <= i < |pairs| && pairs[i] == x;
      var j :| 0 <= j < |pairs| && pairs[j] == y;
      assert PairLess(pairs[i], pairs[j]);
      assert false;
    }
  }

  lemma NoneTurnedIff(query: Query)
    ensures NoneTurned(SortedPairs(query)) <==> OrderKept(query)
  {
    var pairs := SortedPairs(query);
    SortedPairsAreSorted(query);
    if NoneTurned(pairs) {
      forall k, l | k in query && l in query && query[k] != [] && query[l] != []
        ensures !Inverted(k, l)
      {
        NamesKept(query, k, l);
      }
      forall k | k in query
        ensures ValuesKept(query[k])
      {
        forall v, w | v in query[k] && w in query[k]
          ensures !Inverted(v, w)
        {
          PairIsInQuery(query, (k, v));
          PairIsInQuery(query, (k, w));
          TurnedAreInOrder(pairs, (k, v), (k, w));
        }
      }
    }
    if OrderKept(query) {
      forall i, j | 0 <= i < j < |pairs|
        ensures !PairInverted(pairs[i], pairs[j])
      {
        PairIsInQuery(query, pairs[i]);
        PairIsInQuery(query, pairs[j]);
      }
    }
  }

  lemma NamesKept(query: Query, k: string, l: string)
    requires NoneTurned(SortedPairs(query)) && k in query && l in query && query[k] != [] && query[l] != []
    ensures !Inverted(k, l)
  {
    var x, y := (k, query[k][0]), (l, query[l][0]);
    SortedPairsAreSorted(query);
    PairIsInQuery(query, x);
    PairIsInQuery(query, y);
    TurnedAreInOrder(SortedPairs(query), x, y);
    if Inverted(k, l) {
      InvertedIsLess(k, l);
      LexTotal(k, l);
    }
  }

  /**
   * The code's query is the rule's, exactly when encoding turns around no two names with values and no two values of
   * one name.
   */
  lemma QueryFollowsRuleIff(query: Query)
    requires ByteQuery(query)
    ensures CanonicalQuery(query) == RuleQuery(query) <==> OrderKept(query)
  {
    SameQueryTextIff(query);
    SortedAlreadyIff(query);
    SortedPairsAreSorted(query);
    PairsAreBytes(query);
    EncodedSortedIff(SortedPairs(query));
    NoneTurnedIff(query);
  }

  lemma SameQueryTextIff(query: Query)
    ensures CanonicalQuery(query) == RuleQuery(query) <==> Encoded(SortedPairs(query)) == RulePairs(query)
  {
    var encoded := Encoded(SortedPairs(query));
    CodeQueryIs(query);
    EncodedIsPlain(SortedPairs(query));
    PlainInAnyOrder(encoded, RulePairs(query));
    if CanonicalQuery(query) == RuleQuery(query) { EquationsInjective(encoded, RulePairs(query)); }
  }

  lemma SortedAlreadyIff(query: Query)
    ensures Encoded(SortedPairs(query)) == RulePairs(query) <==> SortedBy(Encoded(SortedPairs(query)), PairLess)
  {
    var encoded := Encoded(SortedPairs(query));
    PairLessIsTotal();
    SortBySorts(encoded, PairLess);
    if SortedBy(encoded, PairLess) { SortedByUnique(encoded, RulePairs(query), PairLess); }
  }

  function DecodedPair(p: Pair): Pair {
    (Decode(p.0), Decode(p.1))
  }

  lemma EncodedAndBack(pairs: seq<Pair>)
    requires forall i :: 0 <= i < |pairs| ==> BytePair(pairs[i])
    ensures Each(DecodedPair, Encoded(pairs)) == pairs
  {
    forall i | 0 <= i < |pairs|
      ensures DecodedPair(EncodedPair(pairs[i])) == pairs[i]
    {
      DecodeEncode(pairs[i].0);
      DecodeEncode(pairs[i].1);
    }
  }

  /** A query that the rule writes as the code writes another has the same pairs, each as often. */
  lemma SameQueryPairs(q: Query, r: Query)
    requires ByteQuery(q) && ByteQuery(r) && RuleQuery(q) == CanonicalQuery(r)
    ensures multiset(SortedPairs(q)) == multiset(SortedPairs(r))
  {
    CodeQueryIs(r);
    EncodedIsPlain(SortedPairs(q));
    EncodedIsPlain(SortedPairs(r));
    PlainInAnyOrder(Encoded(SortedPairs(q)), RulePairs(q));
    EquationsInjective(RulePairs(q), Encoded(SortedPairs(r)));
    EachBag(DecodedPair, Encoded(SortedPairs(q)), Encoded(SortedPairs(r)));
    PairsAreBytes(q);
    PairsAreBytes(r);
    EncodedAndBack(SortedPairs(q));
    EncodedAndBack(SortedPairs(r));
  }

  lemma PairsAreBytes(query: Query)
    requires ByteQuery(query)
    ensures forall i :: 0 <= i < |SortedPairs(query)| ==> BytePair(SortedPairs(query)[i])
  {
    SortedKeysAreStrict(query.Keys);
    PairsForAreBytes(query, SortedKeys(query.Keys));
  }

  /** One name with the values "A" and "[" is enough for the two to differ. */
  lemma ValuesCanTurn(k: string)
    ensures Inverted("A", "[") && !OrderKept(map[k := ["A", "["]])
  {
    var query := map[k := ["A", "["]];
    assert "A" in query[k] && "[" in query[k] && k in query;
  }
}
