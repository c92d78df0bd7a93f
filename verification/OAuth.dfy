/** The token cache of internal/oauth2/oauth2.go. Instants and durations are in nanoseconds. */
module OAuth {
  import opened Text
  import opened Time

  /** The two kinds of source differ in how they check a reply and in when they start counting its lifetime. */
  datatype Kind = ClientCredentials | ServiceAccount

  datatype Token = Token(accessToken: string, expiresAt: int)

  const MARGIN := 60 * SECOND
  const CLIENT_TIMEOUT := 10 * SECOND

  predicate ValidAt(token: Option<Token>, now: int) {
    token.Some? && token.value.accessToken != "" && now < token.value.expiresAt - MARGIN
  }

  // ---------------------------------------------------------------- one exchange with the issuer

  datatype Reply =
    | SignFailed
    | TransportFailed
    | ReadFailed
    | NotJson(code: int)
    | Fields(code: int, accessToken: string, expiresIn: int, error: string)

  /** The clock before the request, when the issuer answered, and the clock after the answer was decoded. */
  datatype Exchange = Exchange(started: int, issued: int, ended: int, reply: Reply)

  /** Where the lifetime is counted from. */
  function Base(kind: Kind, e: Exchange): int {
    match kind case ClientCredentials => e.ended case ServiceAccount => e.started
  }

  predicate Granted(kind: Kind, reply: Reply) {
    reply.Fields? && reply.code == 200 && reply.accessToken != "" && (kind.ClientCredentials? ==> reply.error == "")
  }

  method Refresh(kind: Kind, e: Exchange) returns (r: Option<Token>)
    ensures r == Refreshed(kind, e)
  {
    match e.reply
    case SignFailed => return None;
    case TransportFailed => return None;
    case ReadFailed => return None;
    case NotJson(code) => return None;
    case Fields(code, accessToken, expiresIn, error) =>
      if code != 200 {
        return None;
      }
      if kind.ClientCredentials? && error != "" {
        return None;
      }
      if accessToken == "" {
        return None;
      }
      return Some(Token(accessToken, Base(kind, e) + Wrap64(expiresIn * SECOND)));
  }

  function Refreshed(kind: Kind, e: Exchange): Option<Token> {
    if Granted(kind, e.reply) then Some(Token(e.reply.accessToken, Base(kind, e) + Wrap64(e.reply.expiresIn * SECOND)))
    else None
  }

  // ---------------------------------------------------------------- runs of calls

  /** A call of `Token()`: the clock it reads first, and the exchange that takes place if it needs one. */
  datatype Call = Call(now: int, exchange: Exchange)

  /** A token that is valid stays; one that is not gives way to a new one, if there is a new one. */
  function Renewed(kind: Kind, token: Option<Token>, call: Call): Option<Token> {
    if ValidAt(token, call.now) || Refreshed(kind, call.exchange).None? then token
    else Refreshed(kind, call.exchange)
  }

  /** The cached token after a run. */
  function Cached(kind: Kind, calls: seq<Call>): Option<Token> {
    if calls == [] then None
    else Renewed(kind, Cached(kind, calls[..|calls| - 1]), calls[|calls| - 1])
  }

  /** Call `i` is answered from the cache. */
  predicate Served(kind: Kind, calls: seq<Call>, i: nat)
    requires i < |calls|
  {
    ValidAt(Cached(kind, calls[..i]), calls[i].now)
  }

  /** Call `i` talks to the issuer and gets a token. */
  predicate Refreshes(kind: Kind, calls: seq<Call>, i: nat)
    requires i < |calls|
  {
    !Served(kind, calls, i) && Refreshed(kind, calls[i].exchange).Some?
  }

  function Answer(kind: Kind, calls: seq<Call>, i: nat): Option<Token>
    requires i < |calls|
  {
    if Served(kind, calls, i) then Cached(kind, calls[..i]) else Refreshed(kind, calls[i].exchange)
  }

  class TokenSource {
    const kind: Kind
    var token: Option<Token>
    ghost var calls: seq<Call>

    ghost predicate Valid()
      reads this
    {
      token == Cached(kind, calls)
    }

    constructor (kind: Kind)
      ensures Valid() && this.kind == kind && calls == []
    {
      this.kind := kind;
      token := None;
      calls := [];
    }

    /** The whole call is under the lock; an exchange happens only without a valid token. */
    method GetToken(now: int, exchange: Exchange) returns (r: Option<Token>)
      requires Valid()
      modifies this
      ensures Valid() && calls == old(calls) + [Call(now, exchange)]
      ensures r == Answer(kind, calls, |calls| - 1)
      ensures r.None? ==> token == old(token)
      ensures old(token.Some? && token.value.accessToken != "" && now + 60_000_000_000 < token.value.expiresAt) ==>
                r == token == old(token)
      ensures !old(token.Some? && token.value.accessToken != "" && now + 60_000_000_000 < token.value.expiresAt) ==>
                r == Refreshed(kind, exchange) && (r.Some? ==> token == r)
    {
      assert (calls + [Call(now, exchange)])[..|calls|] == calls;
      calls := calls + [Call(now, exchange)];
      if ValidAt(token, now) {
        return token;
      }
      r := Refresh(kind, exchange);
      if r.None? {
        return;
      }
      token := r;
    }
  }

  /** A call is answered from the cache exactly when the cached token has more than 60 s to go. */
  lemma ServedIff(kind: Kind, calls: seq<Call>, i: nat)
    requires i < |calls|
    ensures var token := Cached(kind, calls[..i]);
            Served(kind, calls, i) <==>
            token.Some? && token.value.accessToken != "" && calls[i].now + 60_000_000_000 < token.value.expiresAt
  {
  }

  /** What a successful exchange caches: the lifetime counts from receipt, or from before a service account's request. */
  lemma RefreshedIs(kind: Kind, e: Exchange)
    ensures Refreshed(kind, e).Some? <==>
            && e.reply.Fields? && e.reply.code == 200 && e.reply.accessToken != ""
            && (kind == ClientCredentials ==> e.reply.error == "")
    ensures Refreshed(kind, e).Some? ==>
      && Refreshed(kind, e).value.accessToken == e.reply.accessToken
      && (kind == ClientCredentials && -9_223_372_036 <= e.reply.expiresIn <= 9_223_372_036 ==>
            Refreshed(kind, e).value.expiresAt == e.ended + e.reply.expiresIn * 1_000_000_000)
      && (kind == ServiceAccount && -9_223_372_036 <= e.reply.expiresIn <= 9_223_372_036 ==>
            Refreshed(kind, e).value.expiresAt == e.started + e.reply.expiresIn * 1_000_000_000)
  {
  }

  // ---------------------------------------------------------------- time

  /** When a run that begins at `from` is over. */
  function EndTime(kind: Kind, calls: seq<Call>, from: int): int {
    if calls == [] then from
    else
      var last := |calls| - 1;
      if Served(kind, calls, last) then calls[last].now else calls[last].exchange.ended
  }

  /** A token is issued between the request and the end of the exchange. */
  predicate ExchangeInTime(now: int, e: Exchange) {
    now <= e.started <= e.issued <= e.ended
  }

  /** The lock serves one call after the other, from `from` on, and the clock does not go back. */
  predicate InTime(kind: Kind, calls: seq<Call>, from: int) {
    calls == []
    || var last := |calls| - 1;
       && InTime(kind, calls[..last], from)
       && EndTime(kind, calls[..last], from) <= calls[last].now
       && (Served(kind, calls, last) || ExchangeInTime(calls[last].now, calls[last].exchange))
  }

  lemma {:induction false} InTimeAt(kind: Kind, calls: seq<Call>, from: int, j: nat, i: nat)
    requires InTime(kind, calls, from) && j < i < |calls| && Refreshes(kind, calls, j)
    ensures ExchangeInTime(calls[j].now, calls[j].exchange) && calls[j].exchange.ended <= calls[i].now
    decreases |calls|
  {
    var before := calls[..|calls| - 1];
    assert before[..j] == calls[..j];
    if i < |before| {
      InTimeAt(kind, before, from, j, i);
    } else if j < i - 1 {
      assert before[..i - 1] == calls[..i - 1];
      InTimeAt(kind, before, from, j, i - 1);
    }
  }

  /** Every cached token comes from the latest earlier refresh. */
  lemma {:induction false} CachedFrom(kind: Kind, calls: seq<Call>, i: nat) returns (j: nat)
    requires i <= |calls| && Cached(kind, calls[..i]).Some?
    ensures j < i && Refreshes(kind, calls, j)
    ensures Cached(kind, calls[..i]) == Refreshed(kind, calls[j].exchange)
    ensures forall k :: j < k < i ==> !Refreshes(kind, calls, k)
    decreases i
  {
    var last := i - 1;
    assert calls[..i][..last] == calls[..last];
    if Refreshes(kind, calls, last) {
      j := last;
    } else {
      j := CachedFrom(kind, calls, last);
    }
  }

  /** How long before its end by the issuer's clock a cached token is still handed out, at the latest. */
  function Spare(kind: Kind): int {
    match kind case ClientCredentials => MARGIN - CLIENT_TIMEOUT case ServiceAccount => MARGIN
  }

  /** Where the lifetime is counted from receipt, the exchange kept to the client's timeout. */
  predicate Prompt(kind: Kind, e: Exchange) {
    kind.ClientCredentials? ==> e.ended - e.started <= CLIENT_TIMEOUT
  }

  /** The lifetimes that wrap around to long ones, in seconds. */
  predicate Stretched(seconds: int) {
    seconds * SECOND < -TWO_63 && Wrap64(seconds * SECOND) > MARGIN
  }

  /** By the issuer's own count there is more than the spare time left. */
  predicate InGoodTime(kind: Kind, e: Exchange, now: int)
    requires e.reply.Fields?
  {
    now < e.issued + e.reply.expiresIn * SECOND - Spare(kind)
  }

  /** Call `i` is answered with the cached token of refresh `j`. */
  predicate ServedFrom(kind: Kind, calls: seq<Call>, from: int, i: nat, j: nat) {
    && j < i < |calls| && InTime(kind, calls, from) && Served(kind, calls, i) && Refreshes(kind, calls, j)
    && forall k :: j < k < i ==> !Refreshes(kind, calls, k)
  }

  lemma ServedFromOne(kind: Kind, calls: seq<Call>, from: int, i: nat, j: nat)
    requires ServedFrom(kind, calls, from, i, j)
    ensures Cached(kind, calls[..i]) == Refreshed(kind, calls[j].exchange) == Answer(kind, calls, i)
  {
    var latest := CachedFrom(kind, calls, i);
    assert latest == j;
  }

  lemma ServedOnce(kind: Kind, calls: seq<Call>, from: int, i: nat, j: nat)
    requires ServedFrom(kind, calls, from, i, j) && Prompt(kind, calls[j].exchange)
    requires !Stretched(calls[j].exchange.reply.expiresIn)
    ensures InGoodTime(kind, calls[j].exchange, calls[i].now)
  {
    ServedFromOne(kind, calls, from, i, j);
    InTimeAt(kind, calls, from, j, i);
    WrapNeverStretchesIff(calls[j].exchange.reply.expiresIn * SECOND);
  }

  /**
   * A token served from the cache has, by the issuer's count, more than 50 s left, or 60 s for a service account,
   * unless its lifetime was a stretched one.
   */
  lemma ServedInTime(kind: Kind, calls: seq<Call>, from: int, i: nat) returns (j: nat)
    requires i < |calls| && Served(kind, calls, i) && InTime(kind, calls, from)
    requires forall k :: 0 <= k < i && Refreshes(kind, calls, k) ==>
      Prompt(kind, calls[k].exchange) && !Stretched(calls[k].exchange.reply.expiresIn)
    ensures ServedFrom(kind, calls, from, i, j) && Answer(kind, calls, i) == Refreshed(kind, calls[j].exchange)
    ensures InGoodTime(kind, calls[j].exchange, calls[i].now)
    ensures var e := calls[j].exchange;
            calls[i].now + (if kind.ClientCredentials? then 50_000_000_000 else 60_000_000_000)
            < e.issued + e.reply.expiresIn * 1_000_000_000
  {
    j := CachedFrom(kind, calls, i);
    ServedOnce(kind, calls, from, i, j);
  }

  /** In every run, whenever a token of this lifetime is served from the cache, it is in good time. */
  ghost predicate SafeLifetime(kind: Kind, seconds: int) {
    forall calls: seq<Call>, from, i: nat, j: nat :: UsesLifetime(kind, seconds, calls, from, i, j) ==>
      InGoodTime(kind, calls[j].exchange, calls[i].now)
  }

  predicate UsesLifetime(kind: Kind, seconds: int, calls: seq<Call>, from: int, i: nat, j: nat) {
    && ServedFrom(kind, calls, from, i, j) && Prompt(kind, calls[j].exchange)
    && calls[j].exchange.reply.expiresIn == seconds
  }

  /** A call that gets a token from this exchange, and a later one. */
  function TwoCalls(e: Exchange, now: int): seq<Call> {
    [Call(e.started, e), Call(now, e)]
  }

  lemma TwoCallsServe(kind: Kind, e: Exchange, now: int)
    requires Granted(kind, e.reply) && e.started <= e.issued <= e.ended <= now
    requires ValidAt(Refreshed(kind, e), now)
    ensures ServedFrom(kind, TwoCalls(e, now), e.started, 1, 0)
  {
    var calls := TwoCalls(e, now);
    var first := [Call(e.started, e)];
    assert first[..0] == [] && calls[..1] == first && calls[..0] == [];
    assert Cached(kind, []).None? && InTime(kind, [], e.started);
    assert !Served(kind, first, 0) && ExchangeInTime(e.started, e);
    assert Cached(kind, first) == Renewed(kind, None, first[0]) == Refreshed(kind, e);
    assert InTime(kind, first, e.started);
  }

  /** The lifetimes that the cache gets wrong are exactly the stretched ones. */
  lemma SafeLifetimeIff(kind: Kind, seconds: int)
    ensures SafeLifetime(kind, seconds) <==> !Stretched(seconds)
    ensures Stretched(seconds) <==>
            seconds * 1_000_000_000 < -9_223_372_036_854_775_808 && Wrap64(seconds * 1_000_000_000) > 60_000_000_000
  {
    if Stretched(seconds) {
      var e := Exchange(0, 0, 0, Fields(200, "t", seconds, ""));
      TwoCallsServe(kind, e, 0);
      assert UsesLifetime(kind, seconds, TwoCalls(e, 0), 0, 1, 0);
    } else {
      forall calls: seq<Call>, from, i: nat, j: nat | UsesLifetime(kind, seconds, calls, from, i, j)
        ensures InGoodTime(kind, calls[j].exchange, calls[i].now)
      {
        ServedOnce(kind, calls, from, i, j);
      }
    }
  }

  /** -10000000000 s is served although it was over before it began; -18446744074 s, which wraps too, never is. */
  lemma TwoStretches()
    ensures Stretched(-10_000_000_000) && !Stretched(-18_446_744_074) && -18_446_744_074 * SECOND < -TWO_63
  {
  }

  /** No larger spare time could be promised: a token is served one tick before it runs out. */
  lemma SpareIsUsedUp(kind: Kind, seconds: int, t: int) returns (calls: seq<Call>)
    requires seconds > 60 && seconds * SECOND < TWO_63
    ensures UsesLifetime(kind, seconds, calls, t, 1, 0)
    ensures calls[1].now + 1
            == calls[0].exchange.issued + seconds * 1_000_000_000
               - if kind.ClientCredentials? then 50_000_000_000 else 60_000_000_000
  {
    var delay := if kind.ClientCredentials? then CLIENT_TIMEOUT else 0;
    var e := Exchange(t, t, t + delay, Fields(200, "t", seconds, ""));
    var now := t + seconds * SECOND - Spare(kind) - 1;
    assert Wrap64(seconds * SECOND) == seconds * SECOND;
    TwoCallsServe(kind, e, now);
    calls := TwoCalls(e, now);
  }

  // ---------------------------------------------------------------- how often the issuer is asked

  function Refreshing(kind: Kind, calls: seq<Call>): nat {
    if calls == [] then 0
    else Refreshing(kind, calls[..|calls| - 1]) + if Refreshes(kind, calls, |calls| - 1) then 1 else 0
  }

  /** Every token granted in the run lives at least this long, after wrapping. */
  predicate LivesAtLeast(kind: Kind, calls: seq<Call>, life: int) {
    calls == []
    || var last := |calls| - 1;
       && LivesAtLeast(kind, calls[..last], life)
       && (Refreshes(kind, calls, last) ==> Wrap64(calls[last].exchange.reply.expiresIn * SECOND) >= life)
  }

  /** The time from the first to the last of `n` events that are `gap` apart. */
  function Span(n: nat, gap: int): int {
    if n <= 1 then 0 else Span(n - 1, gap) + gap
  }

  /** The run so far: how late the cached token expires, and how late it is by now. */
  predicate Spaced(n: nat, gap: int, from: int, now: int, token: Option<Token>) {
    && from <= now
    && (n > 0 ==>
          && token.Some? && token.value.accessToken != ""
          && from + Span(n, gap) + gap + MARGIN <= token.value.expiresAt
          && from + Span(n, gap) <= now)
  }

  /** Each refresh but the first comes at least `gap` after the one before. */
  lemma {:induction false} RefreshSpacing(kind: Kind, calls: seq<Call>, gap: int, from: int)
    requires InTime(kind, calls, from) && LivesAtLeast(kind, calls, gap + 60_000_000_000) && gap > 0
    ensures Spaced(Refreshing(kind, calls), gap, from, EndTime(kind, calls, from), Cached(kind, calls))
    decreases |calls|
  {
    if calls != [] { RefreshSpacing(kind, calls[..|calls| - 1], gap, from); }
  }

  /** A run that lasts `duration` makes at most this many successful refreshes. */
  lemma RefreshBound(kind: Kind, calls: seq<Call>, life: int, from: int, duration: nat)
    requires InTime(kind, calls, from) && LivesAtLeast(kind, calls, life) && life > 60_000_000_000
    requires EndTime(kind, calls, from) <= from + duration
    ensures Refreshing(kind, calls) <= duration / (life - 60_000_000_000) + 1
  {
    RefreshSpacing(kind, calls, life - MARGIN, from);
    if Refreshing(kind, calls) > 0 {
      SpanBound(Refreshing(kind, calls), life - MARGIN, duration);
    }
  }

  lemma {:induction false} SpanIsProduct(n: nat, gap: int)
    requires n > 0
    ensures Span(n, gap) == (n - 1) * gap
    decreases n
  {
    if n > 1 {
      SpanIsProduct(n - 1, gap);
      assert (n - 1) * gap == (n - 2) * gap + gap;
    }
  }

  lemma SpanBound(n: nat, gap: int, duration: nat)
    requires n > 0 && gap > 0 && Span(n, gap) <= duration
    ensures n <= duration / gap + 1
  {
    SpanIsProduct(n, gap);
    AtMostQuotient(n - 1, gap, duration);
  }

  lemma AtMostQuotient(n: nat, d: int, x: nat)
    requires d > 0 && n * d <= x
    ensures n <= x / d
  {
    var q := x / d;
    assert x == d * q + x % d;
    assert x < d * q + d == d * (q + 1);
    assert n >= q + 1 ==> n * d >= (q + 1) * d;
  }

  function PromptCall(t: int, seconds: int): Call {
    Call(t, Exchange(t, t, t, Fields(200, "t", seconds, "")))
  }

  lemma AppendPrompt(kind: Kind, before: seq<Call>, from: int, t: int, seconds: int)
    requires 0 <= seconds && seconds * SECOND < TWO_63
    requires InTime(kind, before, from) && LivesAtLeast(kind, before, seconds * SECOND)
    requires EndTime(kind, before, from) <= t && !ValidAt(Cached(kind, before), t)
    ensures var calls := before + [PromptCall(t, seconds)];
            && InTime(kind, calls, from) && LivesAtLeast(kind, calls, seconds * SECOND)
            && Refreshing(kind, calls) == Refreshing(kind, before) + 1 && EndTime(kind, calls, from) == t
            && Cached(kind, calls) == Some(Token("t", t + seconds * SECOND))
  {
    var calls := before + [PromptCall(t, seconds)];
    assert calls[..|before|] == before;
    assert Wrap64(seconds * SECOND) == seconds * SECOND;
    assert Refreshed(kind, calls[|before|].exchange) == Some(Token("t", t + seconds * SECOND));
  }

  /** A run that asks as soon as it may, and is answered at once. */
  lemma {:induction false} EagerRun(kind: Kind, n: nat, seconds: int, gap: int, from: int) returns (calls: seq<Call>)
    requires 0 < gap && gap + MARGIN == seconds * SECOND < TWO_63
    ensures InTime(kind, calls, from) && LivesAtLeast(kind, calls, seconds * SECOND)
    ensures Refreshing(kind, calls) == n && EndTime(kind, calls, from) == from + Span(n, gap)
    ensures Cached(kind, calls) == if n == 0 then None else Some(Token("t", from + Span(n, gap) + (gap + MARGIN)))
    decreases n
  {
    if n == 0 {
      calls := [];
    } else {
      var before := EagerRun(kind, n - 1, seconds, gap, from);
      AppendPrompt(kind, before, from, from + Span(n, gap), seconds);
      calls := before + [PromptCall(from + Span(n, gap), seconds)];
    }
  }

  /** The bound on refreshes is reached, for every duration and every lifetime of whole seconds. */
  lemma RefreshBoundReached(kind: Kind, seconds: int, from: int, duration: nat) returns (calls: seq<Call>)
    requires seconds > 60 && seconds * SECOND < TWO_63
    ensures InTime(kind, calls, from) && LivesAtLeast(kind, calls, seconds * SECOND)
    ensures EndTime(kind, calls, from) <= from + duration
    ensures Refreshing(kind, calls) == duration / (seconds * 1_000_000_000 - 60_000_000_000) + 1
  {
    var gap := seconds * SECOND - MARGIN;
    var n := duration / gap + 1;
    SpanIsProduct(n, gap);
    QuotientFits(duration, gap);
    calls := EagerRun(kind, n, seconds, gap, from);
  }

  lemma QuotientFits(x: nat, d: int)
    requires d > 0
    ensures x / d * d <= x
  {
    assert x == d * (x / d) + x % d;
  }
}
