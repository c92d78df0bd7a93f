/** Filling a map in a loop, where a later entry for a key replaces an earlier one. */
module LastWins {
  import opened Text

  /** What one round of the loop offers its key: perhaps nothing. */
  datatype Offer<V> = Offer(key: string, value: Option<V>)

  /** A loop over `items`, each of which makes its offer. */
  function OffersOf<T, V>(items: seq<T>, f: T -> Offer<V>): (offers: seq<Offer<V>>)
    ensures |offers| == |items|
    ensures forall i :: 0 <= i < |items| ==> offers[i] == f(items[i])
  {
    seq(|items|, i requires 0 <= i < |items| => f(items[i]))
  }

  lemma NextOffer<T, V>(items: seq<T>, f: T -> Offer<V>, i: nat)
    requires i < |items|
    ensures var m, offer := Merged(OffersOf(items[..i], f)), f(items[i]);
            Merged(OffersOf(items[..i + 1], f))
            == if offer.value.Some? then m[offer.key := offer.value.value] else m
  {
    var offers := OffersOf(items[..i + 1], f);
    assert offers[..i] == OffersOf(items[..i], f);
  }

  function Merged<V>(offers: seq<Offer<V>>): map<string, V> {
    if offers == [] then map[]
    else
      var m, last := Merged(offers[..|offers| - 1]), offers[|offers| - 1];
      if last.value.Some? then m[last.key := last.value.value] else m
  }

  /** Offer `i` is the last one that gives its key anything. */
  predicate LastOffer<V>(offers: seq<Offer<V>>, key: string, i: nat) {
    && i < |offers| && offers[i].key == key && offers[i].value.Some?
    && forall j :: i < j < |offers| && offers[j].key == key ==> offers[j].value.None?
  }

  lemma {:induction false} LastOfferDecides<V>(offers: seq<Offer<V>>, key: string, i: nat)
    requires LastOffer(offers, key, i)
    ensures key in Merged(offers) && Merged(offers)[key] == offers[i].value.value
    decreases |offers|
  {
    if i < |offers| - 1 { LastOfferDecides(offers[..|offers| - 1], key, i); }
  }

  lemma {:induction false} KnownHasOffer<V>(offers: seq<Offer<V>>, key: string) returns (i: nat)
    requires key in Merged(offers)
    ensures LastOffer(offers, key, i) && Merged(offers)[key] == offers[i].value.value
    decreases |offers|
  {
    var last := |offers| - 1;
    if offers[last].key == key && offers[last].value.Some? {
      i := last;
    } else {
      i := KnownHasOffer(offers[..last], key);
    }
  }

  lemma {:induction false} AnyOfferIsKnown<V>(offers: seq<Offer<V>>, key: string, i: nat)
    requires i < |offers| && offers[i].key == key && offers[i].value.Some?
    ensures key in Merged(offers)
    decreases |offers|
  {
    if i < |offers| - 1 { AnyOfferIsKnown(offers[..|offers| - 1], key, i); }
  }

  lemma {:induction false} MergedConcat<V>(a: seq<Offer<V>>, b: seq<Offer<V>>)
    ensures Merged(a + b) == Merged(a) + Merged(b)
    decreases |b|
  {
    if b == [] {
      assert a + b == a;
    } else {
      assert (a + b)[..|a + b| - 1] == a + b[..|b| - 1];
      MergedConcat(a, b[..|b| - 1]);
    }
  }
}
