/** The price table of internal/usage/pricing.go. Prices and costs are exact. */
module Pricing {
  import opened Text

  datatype Price = Price(inputPerMillion: real, outputPerMillion: real)

  datatype Usage = Usage(model: string, inputTokens: int, outputTokens: int)

  datatype Cost = Cost(inputCost: real, outputCost: real, totalCost: real)

  type Prices = map<string, Price>

  function CostOf(p: Price, u: Usage): Cost {
    var input := u.inputTokens as real / 1000000.0 * p.inputPerMillion;
    var output := u.outputTokens as real / 1000000.0 * p.outputPerMillion;
    Cost(input, output, input + output)
  }

  /** A million input tokens cost the input price, a million output tokens the output price, and the total is the sum. */
  lemma CostIs(p: Price, u: Usage)
    ensures CostOf(p, u).inputCost * 1000000.0 == u.inputTokens as real * p.inputPerMillion
    ensures CostOf(p, u).outputCost * 1000000.0 == u.outputTokens as real * p.outputPerMillion
    ensures CostOf(p, u).totalCost == CostOf(p, u).inputCost + CostOf(p, u).outputCost
  {
    PerMillion(u.inputTokens as real, p.inputPerMillion);
    PerMillion(u.outputTokens as real, p.outputPerMillion);
  }

  lemma PerMillion(tokens: real, price: real)
    ensures tokens / 1000000.0 * price * 1000000.0 == tokens * price
  {
    assert tokens / 1000000.0 * 1000000.0 == tokens;
  }

  /** `key` can price `model` by prefix. */
  predicate Candidate(prices: Prices, model: string, key: string) {
    key in prices && key != "" && key <= model
  }

  /** `key` is the longest that can. */
  ghost predicate Best(prices: Prices, model: string, key: string) {
    Candidate(prices, model, key) && forall k :: Candidate(prices, model, k) ==> |k| <= |key|
  }

  lemma BestIsUnique(prices: Prices, model: string, k: string, l: string)
    requires Best(prices, model, k) && Best(prices, model, l)
    ensures k == l
  {
    assert |k| == |l| && k == model[..|k|] && l == model[..|l|];
  }

  /** What a lookup has to answer: the price of the longest key; the empty key serves the empty model alone. */
  ghost predicate Answers(prices: Prices, model: string, r: Option<Price>) {
    if model == "" then r == if "" in prices then Some(prices[""]) else None
    else match r
         case Some(p) => exists k :: Best(prices, model, k) && p == prices[k]
         case None => forall k :: !Candidate(prices, model, k)
  }

  lemma AnswerIsUnique(prices: Prices, model: string, r: Option<Price>, s: Option<Price>)
    requires Answers(prices, model, r) && Answers(prices, model, s)
    ensures r == s
  {
    if model != "" && r.Some? && s.Some? {
      var k :| Best(prices, model, k) && r.value == prices[k];
      var l :| Best(prices, model, l) && s.value == prices[l];
      BestIsUnique(prices, model, k, l);
    }
  }

  class PriceTable {
    var prices: Prices

    constructor (defaults: Prices)
      ensures prices == defaults
    {
      prices := defaults;
    }

    /** Exact match, else a walk over all keys in any order. */
    method Lookup(model: string) returns (r: Option<Price>)
      ensures Answers(prices, model, r)
    {
      if model in prices {
        assert model != "" ==> Best(prices, model, model);
        return Some(prices[model]);
      }
      var bestKey := "";
      var bestPrice := Price(0.0, 0.0);
      var left := prices.Keys;
      while left != {}
        invariant left <= prices.Keys
        invariant bestKey != "" ==> Candidate(prices, model, bestKey) && bestPrice == prices[bestKey]
        invariant forall k :: Candidate(prices, model, k) && k !in left ==> |k| <= |bestKey|
      {
        var key :| key in left;
        left := left - {key};
        if HasPrefix(model, key) && |key| > |bestKey| {
          bestKey := key;
          bestPrice := prices[key];
        }
      }
      if bestKey != "" {
        assert Best(prices, model, bestKey);
        return Some(bestPrice);
      }
      return None;
    }

    method Set(model: string, price: Price)
      modifies this
      ensures prices == old(prices)[model := price]
    {
      prices := prices[model := price];
    }

    method Calculate(u: Usage) returns (r: Option<Cost>)
      ensures exists p :: Answers(prices, u.model, p) && r == if p.None? then None else Some(CostOf(p.value, u))
      ensures r.Some? ==>
        exists p :: Answers(prices, u.model, Some(p)) && r.value.totalCost == r.value.inputCost + r.value.outputCost
          && r.value.inputCost * 1000000.0 == u.inputTokens as real * p.inputPerMillion
          && r.value.outputCost * 1000000.0 == u.outputTokens as real * p.outputPerMillion
    {
      var p := Lookup(u.model);
      if p.None? {
        return None;
      }
      CostIs(p.value, u);
      return Some(CostOf(p.value, u));
    }
  }

  /** Setting a price takes effect on a model in these cases. */
  ghost predicate TakesOver(prices: Prices, key: string, model: string) {
    || key == model
    || (key != "" && key <= model && forall k :: Candidate(prices, model, k) ==> |k| <= |key|)
  }

  /** After `Set`, a lookup gives the new price exactly in those cases, and what it gave before in all others. */
  lemma SetThenLookup(prices: Prices, key: string, price: Price, model: string, before: Option<Price>, after: Option<Price>)
    requires Answers(prices, model, before) && Answers(prices[key := price], model, after)
    ensures after == if TakesOver(prices, key, model) then Some(price) else before
  {
    var prices' := prices[key := price];
    assert forall k ::
      Candidate(prices', model, k) <==> Candidate(prices, model, k) || (k == key && key != "" && key <= model);
    if model != "" {
      if TakesOver(prices, key, model) {
        assert Best(prices', model, key);
        AnswerIsUnique(prices', model, after, Some(price));
      } else if before.None? {
        AnswerIsUnique(prices', model, after, None);
      } else {
        var k :| Best(prices, model, k) && before.value == prices[k];
        assert Best(prices', model, k) && prices'[k] == prices[k];
        AnswerIsUnique(prices', model, after, before);
      }
    }
  }
}
