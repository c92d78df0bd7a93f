/** The token map of internal/server/server.go and the gate in front of the limiters, internal/auth/auth.go. */
module Auth {
  import opened Text
  import opened LastWins
  import opened Lists
  import opened RateLimit
  import opened LimitSyntax
  import opened Time

  datatype TokenEntry = TokenEntry(name: string, token: string, rateLimit: string)

  datatype TokenInfo = TokenInfo(name: string, limiter: Option<Limiter>)

  // ---------------------------------------------------------------- which tokens are good for what

  datatype Grant = Grant(name: string, limit: Option<Limit>)

  type Policy = map<string, Grant>

  predicate Usable(e: TokenEntry) {
    e.rateLimit == "" || ParseLimit(e.rateLimit).Accepted?
  }

  function GrantOf(e: TokenEntry): Grant
    requires Usable(e)
  {
    Grant(e.name, if e.rateLimit == "" then None else Some(ParseLimit(e.rateLimit).limit))
  }

  /** What an entry offers its token: nothing when its rate limit does not parse. */
  function OfferOf(e: TokenEntry): Offer<Grant> {
    Offer(e.token, if Usable(e) then Some(GrantOf(e)) else None)
  }

  function Offers(entries: seq<TokenEntry>): (offers: seq<Offer<Grant>>)
    ensures |offers| == |entries|
    ensures forall i :: 0 <= i < |entries| ==> offers[i] == OfferOf(entries[i])
  {
    OffersOf(entries, OfferOf)
  }

  function PolicyOf(entries: seq<TokenEntry>): Policy {
    Merged(Offers(entries))
  }

  /** Entry `i` is the one that decides for its token. */
  predicate Decisive(entries: seq<TokenEntry>, i: nat) {
    i < |entries| && Usable(entries[i])
    && forall j :: i < j < |entries| && entries[j].token == entries[i].token ==> !Usable(entries[j])
  }

  lemma DecisiveGrant(entries: seq<TokenEntry>, i: nat)
    requires Decisive(entries, i)
    ensures entries[i].token in PolicyOf(entries) && PolicyOf(entries)[entries[i].token] == GrantOf(entries[i])
  {
    LastOfferDecides(Offers(entries), entries[i].token, i);
  }

  /** Entry `i` is the last for its token whose rate limit is absent or can be read. */
  predicate LastReadable(entries: seq<TokenEntry>, i: nat) {
    && i < |entries| && (entries[i].rateLimit == "" || ParseLimit(entries[i].rateLimit).Accepted?)
    && forall j :: i < j < |entries| && entries[j].token == entries[i].token ==>
         entries[j].rateLimit != "" && ParseLimit(entries[j].rateLimit).Rejected?
  }

  lemma UsableIs(e: TokenEntry)
    ensures Usable(e) <==> e.rateLimit == "" || ParseLimit(e.rateLimit).Accepted?
    ensures Usable(e) <==> !(e.rateLimit != "" && ParseLimit(e.rateLimit).Rejected?)
  {
  }

  lemma LastReadableIsDecisive(entries: seq<TokenEntry>, i: nat)
    requires LastReadable(entries, i)
    ensures Decisive(entries, i)
  {
    UsableIs(entries[i]);
    forall j | i < j < |entries| && entries[j].token == entries[i].token
      ensures !Usable(entries[j])
    {
      UsableIs(entries[j]);
    }
  }

  lemma GrantOfIs(e: TokenEntry)
    requires Usable(e)
    ensures GrantOf(e).name == e.name
    ensures e.rateLimit == "" ==> GrantOf(e).limit == None
    ensures e.rateLimit != "" ==> GrantOf(e).limit == Some(ParseLimit(e.rateLimit).limit)
  {
  }

  /** What is known of a token: the name written in its entry, and the limit written there, or none if none is. */
  lemma GrantIsWritten(entries: seq<TokenEntry>, i: nat)
    requires LastReadable(entries, i)
    ensures entries[i].token in PolicyOf(entries)
    ensures var grant := PolicyOf(entries)[entries[i].token];
            && grant.name == entries[i].name
            && (entries[i].rateLimit == "" ==> grant.limit == None)
            && (entries[i].rateLimit != "" ==> grant.limit == Some(ParseLimit(entries[i].rateLimit).limit))
  {
    LastReadableIsDecisive(entries, i);
    DecisiveGrant(entries, i);
    GrantOfIs(entries[i]);
  }

  lemma DecisiveIsLastReadable(entries: seq<TokenEntry>, i: nat)
    requires Decisive(entries, i)
    ensures LastReadable(entries, i)
  {
    UsableIs(entries[i]);
    forall j | i < j < |entries| && entries[j].token == entries[i].token
      ensures entries[j].rateLimit != "" && ParseLimit(entries[j].rateLimit).Rejected?
    {
      UsableIs(entries[j]);
    }
  }

  lemma KnownIsReadable(entries: seq<TokenEntry>, token: string) returns (i: nat)
    requires token in PolicyOf(entries)
    ensures LastReadable(entries, i) && entries[i].token == token
  {
    i := KnownHasOffer(Offers(entries), token);
    assert Decisive(entries, i);
    DecisiveIsLastReadable(entries, i);
  }

  /**
   * A token is known exactly when some entry with an absent or readable rate limit names it, and the last such entry
   * decides: its name, and the limit written in it.
   */
  lemma PolicyIsLastUsable(entries: seq<TokenEntry>, token: string)
    ensures token in PolicyOf(entries) <==> exists i: nat :: LastReadable(entries, i) && entries[i].token == token
    ensures forall i: nat :: LastReadable(entries, i) && entries[i].token == token ==>
              var grant := PolicyOf(entries)[token];
              && grant.name == entries[i].name
              && (entries[i].rateLimit == "" ==> grant.limit == None)
              && (entries[i].rateLimit != "" ==> grant.limit == Some(ParseLimit(entries[i].rateLimit).limit))
  {
    if token in PolicyOf(entries) {
      var i := KnownIsReadable(entries, token);
    }
    forall i: nat | LastReadable(entries, i) && entries[i].token == token
      ensures token in PolicyOf(entries)
      ensures PolicyOf(entries)[token].name == entries[i].name
      ensures entries[i].rateLimit == "" ==> PolicyOf(entries)[token].limit == None
      ensures entries[i].rateLimit != "" ==>
                PolicyOf(entries)[token].limit == Some(ParseLimit(entries[i].rateLimit).limit)
    {
      GrantIsWritten(entries, i);
    }
  }

  ghost function GrantFrom(info: TokenInfo): Grant {
    Grant(info.name, if info.limiter.None? then None else Some(info.limiter.value.limit))
  }

  ghost function PolicyFrom(tokens: map<string, TokenInfo>): Policy {
    map t | t in tokens :: GrantFrom(tokens[t])
  }

  /** What the map holds is what the entry says. */
  ghost predicate IsWritten(info: TokenInfo, e: TokenEntry) {
    && info.name == e.name && (info.limiter.None? <==> e.rateLimit == "")
    && (info.limiter.Some? ==>
          ParseLimit(e.rateLimit).Accepted? && info.limiter.value.limit == ParseLimit(e.rateLimit).limit)
  }

  lemma MapIsWritten(tokens: map<string, TokenInfo>, entries: seq<TokenEntry>, i: nat)
    requires PolicyFrom(tokens) == PolicyOf(entries) && LastReadable(entries, i)
    ensures entries[i].token in tokens && IsWritten(tokens[entries[i].token], entries[i])
  {
    GrantIsWritten(entries, i);
    assert entries[i].token in PolicyFrom(tokens);
    assert GrantFrom(tokens[entries[i].token]) == PolicyOf(entries)[entries[i].token];
  }

  ghost predicate Unshared(tokens: map<string, TokenInfo>) {
    forall s, t :: s in tokens && t in tokens && s != t && tokens[s].limiter.Some? ==>
      tokens[s].limiter != tokens[t].limiter
  }

  lemma PolicyFromUpdate(tokens: map<string, TokenInfo>, token: string, info: TokenInfo)
    ensures PolicyFrom(tokens[token := info])
            == PolicyFrom(tokens)[token := GrantFrom(info)]
  {
  }

  lemma UnsharedUpdate(tokens: map<string, TokenInfo>, token: string, info: TokenInfo)
    requires Unshared(tokens)
    requires info.limiter.Some? ==> forall t :: t in tokens ==> tokens[t].limiter != info.limiter
    ensures Unshared(tokens[token := info])
  {
  }

  ghost predicate Unused(l: Limiter)
    reads l, l.windows.Values
  {
    l.Valid() && l.history == [] && l.windows == map[]
  }

  lemma PolicyNext(entries: seq<TokenEntry>, i: nat)
    requires i < |entries|
    ensures PolicyOf(entries[..i + 1])
            == if Usable(entries[i]) then PolicyOf(entries[..i])[entries[i].token := GrantOf(entries[i])]
               else PolicyOf(entries[..i])
  {
    NextOffer(entries, OfferOf, i);
  }

  /** One new limiter for every entry that asks for one; an entry that does not parse is skipped. */
  method BuildTokenMap(entries: seq<TokenEntry>) returns (tokens: map<string, TokenInfo>)
    ensures PolicyFrom(tokens) == PolicyOf(entries)
    ensures Unshared(tokens)
    ensures forall t :: t in tokens && tokens[t].limiter.Some? ==>
      fresh(tokens[t].limiter.value) && Unused(tokens[t].limiter.value)
    ensures forall i: nat :: LastReadable(entries, i) ==>
      entries[i].token in tokens && IsWritten(tokens[entries[i].token], entries[i])
  {
    tokens := map[];
    for i := 0 to |entries|
      invariant PolicyFrom(tokens) == PolicyOf(entries[..i])
      invariant Unshared(tokens)
      invariant forall t :: t in tokens && tokens[t].limiter.Some? ==>
        fresh(tokens[t].limiter.value) && Unused(tokens[t].limiter.value)
    {
      var e := entries[i];
      PolicyNext(entries, i);
      var info := InfoFor(e);
      if info.Some? {
        PolicyFromUpdate(tokens, e.token, info.value);
        UnsharedUpdate(tokens, e.token, info.value);
        tokens := tokens[e.token := info.value];
      }
    }
    assert entries[..|entries|] == entries;
    forall i: nat | LastReadable(entries, i)
      ensures entries[i].token in tokens && IsWritten(tokens[entries[i].token], entries[i])
    {
      MapIsWritten(tokens, entries, i);
    }
  }

  /** What one entry contributes, if anything. */
  method InfoFor(e: TokenEntry) returns (info: Option<TokenInfo>)
    ensures info.Some? <==> Usable(e)
    ensures info.Some? ==> GrantFrom(info.value) == GrantOf(e)
    ensures info.Some? && info.value.limiter.Some? ==> fresh(info.value.limiter.value) && Unused(info.value.limiter.value)
  {
    if e.rateLimit == "" {
      return Some(TokenInfo(e.name, None));
    }
    var parsed := ParseLimit(e.rateLimit);
    if parsed.Rejected? {
      return None;
    }
    var limiter := new Limiter(parsed.limit);
    return Some(TokenInfo(e.name, Some(limiter)));
  }

  // ---------------------------------------------------------------- one request

  datatype Request = Request(path: string, authorization: string, now: int)

  datatype Reply =
    | Exempt
    | MissingHeader
    | NotBearer
    | UnknownToken
    | TooMany(limit: int, remaining: int, retryAfter: int)
    | Admit(name: string, budget: Option<(int, int)>)

  const BEARER := "Bearer "

  predicate ExemptPath(path: string) {
    path == "/health" || HasPrefix(path, "/health/")
  }

  /** Whole seconds that cover a duration. */
  function CeilSeconds(d: int): (s: int)
    ensures (s - 1) * SECOND < d <= s * SECOND
  {
    (d + SECOND - 1) / SECOND
  }

  function CeilReal(r: real): int {
    -((-r).Floor)
  }

  /**
   * Rounding up a quotient that is itself rounded gives the same seconds, as long as its error is below a nanosecond
   * and whole seconds are exact.
   */
  lemma RoundedSeconds(d: int, quotient: real)
    requires d % SECOND == 0 ==> quotient == (d / SECOND) as real
    requires -0.000000001 < quotient - d as real / SECOND as real < 0.000000001
    ensures CeilReal(quotient) == CeilSeconds(d)
  {
    var q, n := d / SECOND, d % SECOND;
    assert d as real == (q * SECOND + n) as real;
    assert d as real / SECOND as real == q as real + n as real / 1000000000.0;
    if n > 0 {
      assert q as real < quotient < (q + 1) as real;
      assert CeilSeconds(d) == q + 1;
    }
  }

  /** The request gets as far as the token map with this token. */
  predicate Presents(r: Request, token: string) {
    !ExemptPath(r.path) && r.authorization == BEARER + token
  }

  lemma PresentsOne(r: Request, s: string, t: string)
    requires Presents(r, s) && Presents(r, t)
    ensures s == t
  {
    assert s == r.authorization[|BEARER|..] == t;
  }

  function TokenTimes(past: seq<Request>, token: string): seq<int> {
    if past == [] then []
    else
      var before, last := TokenTimes(past[..|past| - 1], token), past[|past| - 1];
      if Presents(last, token) then before + [last.now] else before
  }

  lemma TimesGrow(past: seq<Request>, r: Request, t: string)
    ensures TokenTimes(past + [r], t) == if Presents(r, t) then TokenTimes(past, t) + [r.now] else TokenTimes(past, t)
  {
    assert (past + [r])[..|past|] == past;
  }

  /** The answer of the token's limiter, had only this token's requests ever reached it. */
  function BudgetAnswer(limit: Limit, past: seq<Request>, token: string, now: int): Result {
    var times := TokenTimes(past, token) + [now];
    SingleAnswer(limit, times, |times| - 1)
  }

  function Limited(name: string, result: Result): Reply {
    if result.allowed then Admit(name, Some((result.limit, result.remaining)))
    else TooMany(result.limit, result.remaining, CeilSeconds(result.retryAfter))
  }

  function Decide(policy: Policy, past: seq<Request>, r: Request): Reply {
    if ExemptPath(r.path) then Exempt
    else if r.authorization == "" then MissingHeader
    else if !HasPrefix(r.authorization, BEARER) then NotBearer
    else
      var token := r.authorization[|BEARER|..];
      if token !in policy then UnknownToken
      else if policy[token].limit.None? then Admit(policy[token].name, None)
      else Limited(policy[token].name, BudgetAnswer(policy[token].limit.value, past, token, r.now))
  }

  /** The entry lets the request through: it has no limit, or its token's own counter has room. */
  predicate LetsThrough(e: TokenEntry, past: seq<Request>, r: Request) {
    && Presents(r, e.token)
    && (e.rateLimit == ""
        || (ParseLimit(e.rateLimit).Accepted?
            && BudgetAnswer(ParseLimit(e.rateLimit).limit, past, e.token, r.now).allowed))
  }

  /**
   * From the configuration's list of tokens to the decision: who gets through with a token, and under what name.
   * Without one, just the exempt paths do.
   */
  lemma AdmittedIff(entries: seq<TokenEntry>, past: seq<Request>, r: Request)
    ensures Decide(PolicyOf(entries), past, r).Exempt? <==> ExemptPath(r.path)
    ensures Decide(PolicyOf(entries), past, r).Admit? <==>
            exists i: nat :: LastReadable(entries, i) && LetsThrough(entries[i], past, r)
    ensures forall i: nat :: LastReadable(entries, i) && LetsThrough(entries[i], past, r) ==>
              Decide(PolicyOf(entries), past, r).name == entries[i].name
  {
    forall i: nat | LastReadable(entries, i) && LetsThrough(entries[i], past, r)
      ensures Decide(PolicyOf(entries), past, r).Admit? && Decide(PolicyOf(entries), past, r).name == entries[i].name
    {
      AdmittedByEntry(entries, i, past, r);
    }
    if Decide(PolicyOf(entries), past, r).Admit? {
      var token := r.authorization[|BEARER|..];
      assert Presents(r, token);
      var i := KnownIsReadable(entries, token);
      AdmittedByEntry(entries, i, past, r);
    }
  }

  /** Who is let through with a token presents that of an entry, and goes by its name. */
  lemma AdmittedBy(entries: seq<TokenEntry>, past: seq<Request>, r: Request) returns (i: nat)
    requires Decide(PolicyOf(entries), past, r).Admit?
    ensures LastReadable(entries, i) && r.authorization == "Bearer " + entries[i].token
    ensures Decide(PolicyOf(entries), past, r).name == entries[i].name
  {
    var token := r.authorization[|BEARER|..];
    assert Presents(r, token);
    i := KnownIsReadable(entries, token);
    AdmittedByEntry(entries, i, past, r);
  }

  lemma AdmittedByEntry(entries: seq<TokenEntry>, i: nat, past: seq<Request>, r: Request)
    requires LastReadable(entries, i) && Presents(r, entries[i].token)
    ensures Decide(PolicyOf(entries), past, r).Admit? <==> LetsThrough(entries[i], past, r)
    ensures Decide(PolicyOf(entries), past, r).Admit? ==> Decide(PolicyOf(entries), past, r).name == entries[i].name
  {
    GrantIsWritten(entries, i);
    DecidePresented(PolicyOf(entries), past, r, entries[i].token);
  }

  lemma DecidePresented(policy: Policy, past: seq<Request>, r: Request, token: string)
    requires Presents(r, token) && token in policy
    ensures Decide(policy, past, r)
            == if policy[token].limit.None? then Admit(policy[token].name, None)
               else Limited(policy[token].name, BudgetAnswer(policy[token].limit.value, past, token, r.now))
  {
    assert r.authorization[|BEARER|..] == token;
  }

  lemma {:induction false} CallsOfAfter(limit: Limit, name: string, times: seq<int>)
    ensures Stored(After(limit, CallsOf(name, times)), name) == Single(limit, times)
    decreases |times|
  {
    if times != [] {
      var last := |times| - 1;
      CallsOfAfter(limit, name, times[..last]);
      assert CallsOf(name, times)[..last] == CallsOf(name, times[..last]);
    }
  }

  /** A limiter that was only ever called with one name answers as that name's counter alone. */
  lemma OneNameAnswer(limit: Limit, name: string, times: seq<int>, now: int)
    ensures CallsOf(name, times + [now]) == CallsOf(name, times) + [Call(name, now)]
    ensures AnswerAt(limit, CallsOf(name, times + [now]), |times|) == SingleAnswer(limit, times + [now], |times|)
  {
    CallsOfAfter(limit, name, times);
    assert CallsOf(name, times + [now])[..|times|] == CallsOf(name, times);
    assert (times + [now])[..|times|] == times;
  }

  /** Who is turned away before any limiter is asked, and why. */
  lemma RefusalIs(policy: Policy, past: seq<Request>, r: Request)
    ensures var exempt := r.path == "/health" || "/health/" <= r.path;
            && (Decide(policy, past, r) == Exempt <==> exempt)
            && (Decide(policy, past, r) == MissingHeader <==> !exempt && r.authorization == "")
            && (Decide(policy, past, r) == NotBearer <==>
                  !exempt && r.authorization != "" && !("Bearer " <= r.authorization))
            && (Decide(policy, past, r) == UnknownToken <==>
                  !exempt && "Bearer " <= r.authorization && r.authorization[|"Bearer "|..] !in policy)
  {
  }

  /** A token without a limit is let through under the name in its entry. */
  lemma UnlimitedReplyIs(entries: seq<TokenEntry>, i: nat, past: seq<Request>, r: Request)
    requires LastReadable(entries, i) && entries[i].rateLimit == "" && Presents(r, entries[i].token)
    ensures Decide(PolicyOf(entries), past, r) == Admit(entries[i].name, None)
  {
    GrantIsWritten(entries, i);
    DecidePresented(PolicyOf(entries), past, r, entries[i].token);
  }

  /**
   * The reply to the last of these calls, told from their times: the first `count` of each window are let through with
   * what remains; the others are told the whole seconds that cover the rest of the window.
   */
  predicate TellsBudget(reply: Reply, name: string, limit: Limit, calls: seq<Op>)
    requires calls != []
  {
    var last, k := |calls| - 1, Opener(limit, calls, name, |calls|);
    && k.Some? && calls[last].Call?
    && var earlier := CallsFrom(calls, name, k.value, last);
       if earlier < limit.count then reply == Admit(name, Some((limit.count, limit.count - 1 - earlier)))
       else
         var left := calls[k.value].now + limit.window - calls[last].now;
         && reply.TooMany? && reply.limit == limit.count && reply.remaining == 0
         && (reply.retryAfter - 1) * 1_000_000_000 < left <= reply.retryAfter * 1_000_000_000
  }

  lemma LimitedTellsBudget(limit: Limit, calls: seq<Op>)
    requires calls != [] && InOrder(calls) && calls[|calls| - 1].Call?
    ensures var last := |calls| - 1;
            TellsBudget(Limited(calls[last].key, AnswerAt(limit, calls, last)), calls[last].key, limit, calls)
  {
    AnswerIs(limit, calls, |calls| - 1);
  }

  /** The reply to a token with a limit is told from the limit in its entry and the times of its requests. */
  lemma LimitedReplyIs(entries: seq<TokenEntry>, i: nat, past: seq<Request>, r: Request)
    requires LastReadable(entries, i) && entries[i].rateLimit != "" && Presents(r, entries[i].token)
    requires Nondecreasing(TokenTimes(past, entries[i].token) + [r.now])
    ensures TellsBudget(Decide(PolicyOf(entries), past, r), entries[i].name, ParseLimit(entries[i].rateLimit).limit,
                        CallsOf(entries[i].name, TokenTimes(past, entries[i].token) + [r.now]))
  {
    GrantIsWritten(entries, i);
    DecidePresented(PolicyOf(entries), past, r, entries[i].token);
    BudgetIsTold(ParseLimit(entries[i].rateLimit).limit, entries[i].name, past, entries[i].token, r.now);
  }

  lemma BudgetIsTold(limit: Limit, name: string, past: seq<Request>, token: string, now: int)
    requires Nondecreasing(TokenTimes(past, token) + [now])
    ensures TellsBudget(Limited(name, BudgetAnswer(limit, past, token, now)), name, limit,
                        CallsOf(name, TokenTimes(past, token) + [now]))
  {
    var times := TokenTimes(past, token);
    OneNameAnswer(limit, name, times, now);
    LimitedTellsBudget(limit, CallsOf(name, times + [now]));
  }

  // ---------------------------------------------------------------- whole runs of requests

  /** How many requests of a run get through with `token` at times from `a` to `b`, both included. */
  function Passed(policy: Policy, rs: seq<Request>, token: string, a: int, b: int): nat {
    if rs == [] then 0
    else
      var last := |rs| - 1;
      Passed(policy, rs[..last], token, a, b)
      + (if Presents(rs[last], token) && a <= rs[last].now <= b && Decide(policy, rs[..last], rs[last]).Admit?
         then 1 else 0)
  }

  lemma DecideLimited(policy: Policy, past: seq<Request>, r: Request, token: string)
    requires Presents(r, token) && token in policy && policy[token].limit.Some?
    ensures Decide(policy, past, r)
            == Limited(policy[token].name, BudgetAnswer(policy[token].limit.value, past, token, r.now))
  {
    assert r.authorization[|BEARER|..] == token;
  }

  lemma {:induction false} PassedIsAdmitted(policy: Policy, rs: seq<Request>, token: string, a: int, b: int)
    requires token in policy && policy[token].limit.Some?
    ensures Passed(policy, rs, token, a, b) == Admitted(policy[token].limit.value, TokenTimes(rs, token), a, b)
    decreases |rs|
  {
    if rs != [] {
      var last := |rs| - 1;
      PassedIsAdmitted(policy, rs[..last], token, a, b);
      if Presents(rs[last], token) {
        DecideLimited(policy, rs[..last], rs[last], token);
        var times := TokenTimes(rs, token);
        assert times[..|times| - 1] == TokenTimes(rs[..last], token);
      }
    }
  }

  /**
   * Whatever else arrives, a token gets no more through in any interval than its own limit allows; a limit that is
   * not limiting lets all of its requests through.
   */
  lemma TokenQuota(policy: Policy, rs: seq<Request>, token: string, a: int, length: nat)
    requires token in policy && policy[token].limit.Some?
    requires Nondecreasing(TokenTimes(rs, token))
    ensures var limit, n := policy[token].limit.value, Passed(policy, rs, token, a, a + length);
            if Limiting(limit) then n <= MaxAdmitted(limit, length)
            else n == Asked(TokenTimes(rs, token), a, a + length)
  {
    PassedIsAdmitted(policy, rs, token, a, a + length);
    if Limiting(policy[token].limit.value) {
      SingleBound(policy[token].limit.value, TokenTimes(rs, token), a, length);
    } else {
      EveryCallAdmitted(policy[token].limit.value, TokenTimes(rs, token), a, a + length);
    }
  }

  /** From the written limit to the quota: the spelled count and window bound what gets through. */
  lemma SpelledQuota(entries: seq<TokenEntry>, i: nat, p: Spelling, rs: seq<Request>, a: int, length: nat)
    requires LastReadable(entries, i) && WellSpelled(p) && entries[i].rateLimit == Spelled(p)
    requires Nondecreasing(TokenTimes(rs, entries[i].token))
    ensures var limit := Limit(Value(p.count), WindowRead(p.window));
            var n := Passed(PolicyOf(entries), rs, entries[i].token, a, a + length);
            if Limiting(limit) then n <= MaxAdmitted(limit, length)
            else n == Asked(TokenTimes(rs, entries[i].token), a, a + length)
  {
    GrantIsWritten(entries, i);
    ParseSpelled(p);
    WindowIsRead(p.window);
    SpelledIsText(p);
    TokenQuota(PolicyOf(entries), rs, entries[i].token, a, length);
  }

  lemma SpelledIsText(p: Spelling)
    requires WellSpelled(p)
    ensures Spelled(p) != ""
  {
    assert '/' in Spelled(p);
  }

  /** The requests that are served by the handler of one load, in the order in which they reach its limiters. */
  datatype Generation = Generation(policy: Policy, requests: seq<Request>)

  function PassedIn(token: string, a: int, b: int): Generation -> int {
    (g: Generation) => Passed(g.policy, g.requests, token, a, b)
  }

  /** How many requests get through with `token` while the configuration is reloaded again and again. */
  function PassedInAll(gens: seq<Generation>, token: string, a: int, b: int): int {
    Sum(Each(PassedIn(token, a, b), gens))
  }

  /** In every generation the token has this limit. */
  predicate LimitStays(gens: seq<Generation>, token: string, limit: Limit) {
    forall i :: 0 <= i < |gens| ==>
      && token in gens[i].policy && gens[i].policy[token].limit == Some(limit)
      && Nondecreasing(TokenTimes(gens[i].requests, token))
  }

  /**
   * Every load starts all budgets anew, and requests may go on under the old one: over `n` generations a token gets
   * through `n` times what its limit allows, and no more.
   */
  lemma QuotaOverReloads(gens: seq<Generation>, token: string, limit: Limit, a: int, length: nat)
    requires LimitStays(gens, token, limit) && Limiting(limit)
    ensures PassedInAll(gens, token, a, a + length) <= |gens| * MaxAdmitted(limit, length)
  {
    forall i | 0 <= i < |gens|
      ensures Passed(gens[i].policy, gens[i].requests, token, a, a + length) <= MaxAdmitted(limit, length)
    {
      TokenQuota(gens[i].policy, gens[i].requests, token, a, length);
    }
    SumIsBounded(Each(PassedIn(token, a, a + length), gens), MaxAdmitted(limit, length));
  }

  function RequestsWith(token: string, times: seq<int>): seq<Request> {
    seq(|times|, i requires 0 <= i < |times| => Request("/proxy/", BEARER + token, times[i]))
  }

  lemma {:induction false} RequestsWithTimes(token: string, times: seq<int>)
    ensures TokenTimes(RequestsWith(token, times), token) == times
    decreases |times|
  {
    if times != [] {
      var last := |times| - 1;
      RequestsWithTimes(token, times[..last]);
      assert RequestsWith(token, times)[..last] == RequestsWith(token, times[..last]);
      assert Presents(RequestsWith(token, times)[last], token);
    }
  }

  /** One handler lets that many through in some run. */
  lemma QuotaReached(policy: Policy, token: string, a: int, length: nat) returns (rs: seq<Request>)
    requires token in policy && policy[token].limit.Some? && Limiting(policy[token].limit.value)
    ensures Nondecreasing(TokenTimes(rs, token))
    ensures Passed(policy, rs, token, a, a + length) == MaxAdmitted(policy[token].limit.value, length)
  {
    var times := SingleBoundReached(policy[token].limit.value, a, length);
    rs := RequestsWith(token, times);
    RequestsWithTimes(token, times);
    PassedIsAdmitted(policy, rs, token, a, a + length);
  }

  /** And as often as there are generations, for every number of them. */
  lemma QuotaOverReloadsReached(policy: Policy, token: string, n: nat, a: int, length: nat)
    returns (gens: seq<Generation>)
    requires token in policy && policy[token].limit.Some? && Limiting(policy[token].limit.value)
    ensures |gens| == n && LimitStays(gens, token, policy[token].limit.value)
    ensures PassedInAll(gens, token, a, a + length) == n * MaxAdmitted(policy[token].limit.value, length)
  {
    var rs := QuotaReached(policy, token, a, length);
    gens := seq(n, _ => Generation(policy, rs));
    SumOfSame(Each(PassedIn(token, a, a + length), gens), MaxAdmitted(policy[token].limit.value, length));
  }

  lemma {:induction false} TimesConcat(a: seq<Request>, b: seq<Request>, token: string)
    ensures TokenTimes(a + b, token) == TokenTimes(a, token) + TokenTimes(b, token)
    decreases |b|
  {
    if b == [] {
      assert a + b == a;
    } else {
      var last := |b| - 1;
      assert (a + b)[..|a| + last] == a + b[..last];
      TimesConcat(a, b[..last], token);
    }
  }

  /** The request asks a limiter. */
  predicate Charges(policy: Policy, r: Request) {
    exists t :: t in policy && Presents(r, t) && policy[t].limit.Some?
  }

  /** A request that is turned away before any limiter, or needs none, could as well not have come. */
  lemma RejectionsLeaveNoTrace(policy: Policy, before: seq<Request>, x: Request, after: seq<Request>, r: Request)
    requires !Charges(policy, x)
    ensures Decide(policy, before + [x] + after, r) == Decide(policy, before + after, r)
  {
    if Charges(policy, r) {
      var t :| t in policy && Presents(r, t) && policy[t].limit.Some?;
      DecideLimited(policy, before + [x] + after, r, t);
      DecideLimited(policy, before + after, r, t);
      TimesConcat(before + [x], after, t);
      TimesConcat(before, [x], t);
      TimesConcat(before, after, t);
      assert [x][..0] == [];
    } else if !ExemptPath(r.path) && HasPrefix(r.authorization, BEARER) {
      assert Presents(r, r.authorization[|BEARER|..]);
    }
  }

  /**
   * The header's whole seconds never end before the window does; and a client that waits exactly that long gets
   * through exactly when the wait was not a whole number of seconds.
   */
  lemma RetryAfterHeader(policy: Policy, past: seq<Request>, r: Request, token: string, again: Request)
    requires token in policy && policy[token].limit.Some? && policy[token].limit.value.count > 0
    requires Presents(r, token) && Presents(again, token)
    requires var reply := Decide(policy, past, r);
             reply.TooMany? && again.now == r.now + reply.retryAfter * SECOND
    ensures var wait := BudgetAnswer(policy[token].limit.value, past, token, r.now).retryAfter;
            && 0 <= wait <= again.now - r.now
            && (Decide(policy, past + [r], again).Admit? <==> wait % SECOND != 0)
  {
    var limit := policy[token].limit.value;
    DecideLimited(policy, past, r, token);
    DecideLimited(policy, past + [r], again, token);
    TimesGrow(past, r, token);
    var times := TokenTimes(past, token);
    var first, second := times + [r.now], times + [r.now] + [again.now];
    assert first[..|times|] == times && second[..|first|] == first;
    var wait := BudgetAnswer(limit, past, token, r.now).retryAfter;
    assert again.now > r.now + wait <==> wait % SECOND != 0;
  }

  // ---------------------------------------------------------------- the gate

  lemma Charged(limit: Limit, name: string, past: seq<Request>, token: string, r: Request)
    requires Presents(r, token)
    ensures var calls := CallsOf(name, TokenTimes(past, token)) + [Call(name, r.now)];
            && calls == CallsOf(name, TokenTimes(past + [r], token))
            && AnswerAt(limit, calls, |calls| - 1) == BudgetAnswer(limit, past, token, r.now)
  {
    OneNameAnswer(limit, name, TokenTimes(past, token), r.now);
    TimesGrow(past, r, token);
  }

  lemma OthersNotCharged(past: seq<Request>, token: string, r: Request)
    requires Presents(r, token)
    ensures forall t :: t != token ==> TokenTimes(past + [r], t) == TokenTimes(past, t)
  {
    forall t | t != token
      ensures TokenTimes(past + [r], t) == TokenTimes(past, t)
    {
      TimesGrow(past, r, t);
      if Presents(r, t) { PresentsOne(r, t, token); }
    }
  }

  class Gate {
    const tokens: map<string, TokenInfo>
    ghost var past: seq<Request>
    ghost var Repr: set<object>  // the objects that the answers depend on

    ghost function Limiters(): set<Limiter> {
      set t | t in tokens && tokens[t].limiter.Some? :: tokens[t].limiter.value
    }

    /** The limiter of `token` has seen exactly the requests that presented `token`, under one name. */
    ghost predicate Tracks(token: string)
      requires token in tokens && tokens[token].limiter.Some?
      reads this, tokens[token].limiter.value, tokens[token].limiter.value.windows.Values
    {
      tokens[token].limiter.value.Serves(tokens[token].name, TokenTimes(past, token))
    }

    lemma Apart(s: string, t: string)
      requires Valid() && s in tokens && t in tokens && s != t
      requires tokens[s].limiter.Some? && tokens[t].limiter.Some?
      ensures tokens[s].limiter.value.Repr() !! tokens[t].limiter.value.Repr()
    {
      var l, m := tokens[s].limiter.value, tokens[t].limiter.value;
      assert Tracks(s) && Tracks(t) && l != m;
      assert forall w :: w in l.windows.Values ==> w.owner == l;
      assert forall w :: w in m.windows.Values ==> w.owner == m;
    }

    ghost predicate Valid()
      reads this, Repr
    {
      && this in Repr && Unshared(tokens)
      && (forall o :: o in Repr ==> o is Gate || o is Limiter || o is Window)
      && forall t :: t in tokens && tokens[t].limiter.Some? ==>
        var l := tokens[t].limiter.value; l in Repr && l.Repr() <= Repr && Tracks(t)
    }

    constructor (tokens: map<string, TokenInfo>)
      requires Unshared(tokens)
      requires forall t :: t in tokens && tokens[t].limiter.Some? ==> Unused(tokens[t].limiter.value)
      ensures Valid() && this.tokens == tokens && past == []
      ensures Repr == {this} + set t | t in tokens && tokens[t].limiter.Some? :: tokens[t].limiter.value
    {
      this.tokens := tokens;
      past := [];
      Repr := {this} + set t | t in tokens && tokens[t].limiter.Some? :: tokens[t].limiter.value;
    }

    /** What the request may change: the budget of the token it presents, and nothing else. */
    ghost function Touched(r: Request): set<object>
      reads Limiters()
    {
      set t, o | t in tokens && Presents(r, t) && tokens[t].limiter.Some? && o in tokens[t].limiter.value.Repr() :: o
    }

    lemma TouchedIsOwn(r: Request)
      requires Valid()
      ensures Touched(r) <= Repr
    {
    }

    /** A request that no limiter is asked about. */
    ghost method Pass(r: Request)
      requires Valid()
      requires forall t :: t in tokens && tokens[t].limiter.Some? ==> !Presents(r, t)
      modifies this`past
      ensures Valid() && past == old(past) + [r]
    {
      forall t { TimesGrow(past, r, t); }
      past := past + [r];
    }

    /** The limiter of `token` is called, and no other limiter notices. */
    method Ask(token: string, now: int) returns (result: Result)
      requires Valid() && token in tokens && tokens[token].limiter.Some?
      modifies tokens[token].limiter.value.Repr()
      ensures var l, name := tokens[token].limiter.value, tokens[token].name;
        && l.Valid() && fresh(l.Repr() - old(l.Repr())) && l.windows.Keys <= {name}
        && l.history == old(l.history) + [Call(name, now)]
        && result == AnswerAt(l.limit, l.history, |l.history| - 1)
      ensures forall t :: t in tokens && tokens[t].limiter.Some? && t != token ==>
        tokens[t].limiter.value.Repr() <= Repr && Tracks(t)
    {
      assert Tracks(token);
      forall t | t in tokens && tokens[t].limiter.Some? && t != token { Apart(t, token); }
      result := tokens[token].limiter.value.Allow(tokens[token].name, now);
      forall t | t in tokens && tokens[t].limiter.Some? && t != token
        ensures tokens[t].limiter.value.Repr() <= Repr && Tracks(t)
      {
        var l := tokens[t].limiter.value;
        assert old(Tracks(t)) && old(l.Repr() <= Repr);
        assert unchanged(l) && forall w :: w in l.windows.Values ==> unchanged(w);
      }
    }

    /** A request that reaches the limiter of `token`. */
    method Charge(r: Request, token: string) returns (result: Result)
      requires Valid() && Presents(r, token)
      requires token in tokens && tokens[token].limiter.Some?
      modifies this`past, this`Repr, tokens[token].limiter.value.Repr()
      ensures Valid() && fresh(Repr - old(Repr))
      ensures past == old(past) + [r]
      ensures result == BudgetAnswer(tokens[token].limiter.value.limit, old(past), token, r.now)
    {
      Charged(tokens[token].limiter.value.limit, tokens[token].name, past, token, r);
      OthersNotCharged(past, token, r);
      result := Ask(token, r.now);
      Note(r, token);
    }

    /** Every limiter has seen what it must have seen once `r` counts. */
    ghost predicate Ahead(r: Request, token: string)
      requires token in tokens && tokens[token].limiter.Some?
      reads this, Limiters(), set l, w | l in Limiters() && w in l.windows.Values :: w
    {
      forall t :: t in tokens && tokens[t].limiter.Some? ==>
        var l := tokens[t].limiter.value;
        && l.Repr() <= Repr + tokens[token].limiter.value.Repr()
        && l.Serves(tokens[t].name, TokenTimes(past + [r], t))
    }

    ghost method Note(r: Request, token: string)
      requires this in Repr && Unshared(tokens) && token in tokens && tokens[token].limiter.Some?
      requires Limiters() <= Repr && forall o :: o in Repr ==> o is Gate || o is Limiter || o is Window
      requires Ahead(r, token)
      modifies this`past, this`Repr
      ensures Valid() && past == old(past) + [r] && Repr == old(Repr) + tokens[token].limiter.value.Repr()
    {
      past := past + [r];
      Repr := Repr + tokens[token].limiter.value.Repr();
    }

    method Serve(r: Request) returns (reply: Reply)
      requires Valid()
      modifies this`past, this`Repr, Touched(r)
      ensures Valid() && fresh(Repr - old(Repr))
      ensures past == old(past) + [r]
      ensures reply == Decide(PolicyFrom(tokens), old(past), r)
    {
      if ExemptPath(r.path) {
        Pass(r);
        return Exempt;
      }
      if r.authorization == "" {
        Pass(r);
        return MissingHeader;
      }
      if !HasPrefix(r.authorization, BEARER) {
        Pass(r);
        return NotBearer;
      }
      var token := TrimPrefix(r.authorization, BEARER);
      assert r.authorization == BEARER + token;
      assert forall t :: Presents(r, t) <==> t == token;
      if token !in tokens {
        Pass(r);
        return UnknownToken;
      }
      var info := tokens[token];
      if info.limiter.None? {
        Pass(r);
        return Admit(info.name, None);
      }
      assert info.limiter.value.Repr() <= Touched(r);
      var result := Charge(r, token);
      if !result.allowed {
        return TooMany(result.limit, result.remaining, CeilSeconds(result.retryAfter));
      }
      return Admit(info.name, Some((result.limit, result.remaining)));
    }

    /** Memory stays bounded without any sweep: one record for each limited token at most. */
    lemma OneRecordEach(token: string)
      requires Valid() && token in tokens && tokens[token].limiter.Some?
      ensures |tokens[token].limiter.value.windows| <= 1
    {
      assert Tracks(token);
      var keys, name := tokens[token].limiter.value.windows.Keys, tokens[token].name;
      assert keys == {} || keys == {name};
    }
  }
}
