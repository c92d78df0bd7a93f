/** Retrying along a fallback group: internal/fallback/fallback.go. */
module Fallback {
  import opened Text
  import opened LastWins
  import opened Http
  import opened Proxying

  datatype FallbackGroup = FallbackGroup(name: string, providers: seq<string>)

  predicate Retriable(code: int) {
    code == 429 || code >= 500
  }

  function ExtractProvider(path: string): string {
    var trimmed := TrimPrefix(path, PREFIX);
    var slash := IndexOf(trimmed, '/');
    if slash == -1 then trimmed else trimmed[..slash]
  }

  /** The path of an attempt at `candidate` for a request that named `provider`. */
  function Rewrite(path: string, provider: string, candidate: string): string {
    var rest := if path == PREFIX + provider then "" else TrimPrefix(path, PREFIX + provider + "/");
    PREFIX + candidate + "/" + rest
  }

  // ---------------------------------------------------------------- rewriting, then parsing

  lemma RewriteParts(path: string, candidate: string)
    requires HasPrefix(path, PREFIX)
    ensures var (provider, up) := ParsePath(path).value;
            ExtractProvider(path) == provider
            && Rewrite(path, provider, candidate) == PREFIX + (candidate + ['/'] + up[1..])
  {
    ParsePathIs(path);
    var (provider, up) := ParsePath(path).value;
    if path == PREFIX + provider {
      RewriteText(candidate, "");
    } else {
      var rest := up[1..];
      RewriteText(provider, rest);
      PrefixConcat(PREFIX + provider + "/", rest);
      assert |path| > |PREFIX + provider|;
      RewriteText(candidate, rest);
    }
  }

  lemma RewriteText(candidate: string, rest: string)
    ensures PREFIX + candidate + "/" + rest == PREFIX + (candidate + ['/'] + rest)
  {
  }

  /**
   * The proxy's own parser sends a rewritten path to the candidate, with the path that the original provider would
   * have seen, for every path under the prefix: exactly when the candidate's name has no slash.
   */
  lemma RewriteThenParseIff(path: string, candidate: string)
    requires HasPrefix(path, PREFIX)
    ensures var (provider, up) := ParsePath(path).value;
            ParsePath(Rewrite(path, ExtractProvider(path), candidate)) == Some((candidate, up)) <==> '/' !in candidate
  {
    RewriteParts(path, candidate);
    ParsePathIs(path);
    var (provider, up) := ParsePath(path).value;
    assert up == ['/'] + up[1..];
    if '/' !in candidate {
      ParsePathOf(candidate, up[1..]);
    } else {
      var rewritten := PREFIX + (candidate + ['/'] + up[1..]);
      PrefixConcat(PREFIX, candidate + ['/'] + up[1..]);
      ParsePathIs(rewritten);
    }
  }

  // ---------------------------------------------------------------- the group of a provider

  function GroupOffers(g: FallbackGroup, names: seq<string>): (offers: seq<Offer<FallbackGroup>>)
    ensures |offers| == |names|
    ensures forall i :: 0 <= i < |names| ==> offers[i] == Offer(names[i], Some(g))
  {
    if names == [] then [] else GroupOffers(g, names[..|names| - 1]) + [Offer(names[|names| - 1], Some(g))]
  }

  function AllOffers(groups: seq<FallbackGroup>): seq<Offer<FallbackGroup>> {
    if groups == [] then []
    else
      var last := groups[|groups| - 1];
      AllOffers(groups[..|groups| - 1]) + GroupOffers(last, last.providers)
  }

  function GroupMap(groups: seq<FallbackGroup>): map<string, FallbackGroup> {
    Merged(AllOffers(groups))
  }

  lemma MergedGroup(g: FallbackGroup, names: seq<string>, name: string)
    ensures name in Merged(GroupOffers(g, names)) <==> name in names
    ensures name in names ==> Merged(GroupOffers(g, names))[name] == g
  {
    var offers := GroupOffers(g, names);
    if name in Merged(offers) {
      var i := KnownHasOffer(offers, name);
    }
    if name in names {
      var i :| 0 <= i < |names| && names[i] == name;
      AnyOfferIsKnown(offers, name, i);
    }
  }

  lemma LastGroup(groups: seq<FallbackGroup>, name: string)
    requires groups != []
    ensures var m, before, last := GroupMap(groups), GroupMap(groups[..|groups| - 1]), groups[|groups| - 1];
            if name in last.providers then name in m && m[name] == last
            else (name in m <==> name in before) && (name in m ==> m[name] == before[name])
  {
    var before, last := groups[..|groups| - 1], groups[|groups| - 1];
    MergedConcat(AllOffers(before), GroupOffers(last, last.providers));
    MergedGroup(last, last.providers, name);
    assert GroupMap(groups) == GroupMap(before) + Merged(GroupOffers(last, last.providers));
  }

  /** Group `i` is the last one that lists the provider. */
  predicate LastListing(groups: seq<FallbackGroup>, name: string, i: nat) {
    && i < |groups| && name in groups[i].providers
    && forall j :: i < j < |groups| ==> name !in groups[j].providers
  }

  lemma {:induction false} LastListingDecides(groups: seq<FallbackGroup>, name: string, i: nat)
    requires LastListing(groups, name, i)
    ensures name in GroupMap(groups) && GroupMap(groups)[name] == groups[i]
    decreases |groups|
  {
    LastGroup(groups, name);
    if i < |groups| - 1 { LastListingDecides(groups[..|groups| - 1], name, i); }
  }

  lemma {:induction false} KnownIsListed(groups: seq<FallbackGroup>, name: string) returns (i: nat)
    requires name in GroupMap(groups)
    ensures LastListing(groups, name, i)
    decreases |groups|
  {
    LastGroup(groups, name);
    if name in groups[|groups| - 1].providers {
      i := |groups| - 1;
    } else {
      i := KnownIsListed(groups[..|groups| - 1], name);
    }
  }

  lemma {:induction false} ListedIsKnown(groups: seq<FallbackGroup>, name: string, i: nat)
    requires i < |groups| && name in groups[i].providers
    ensures name in GroupMap(groups)
    decreases |groups|
  {
    LastGroup(groups, name);
    if i < |groups| - 1 { ListedIsKnown(groups[..|groups| - 1], name, i); }
  }

  /** A provider has a group exactly when some group lists it, and belongs to the last of those. */
  lemma GroupMapIsLast(groups: seq<FallbackGroup>, name: string)
    ensures name in GroupMap(groups) <==> exists i :: 0 <= i < |groups| && name in groups[i].providers
    ensures name in GroupMap(groups) <==> exists i: nat :: LastListing(groups, name, i)
    ensures forall i: nat :: LastListing(groups, name, i) ==> GroupMap(groups)[name] == groups[i]
  {
    if name in GroupMap(groups) {
      var i := KnownIsListed(groups, name);
      assert name in groups[i].providers;
    }
    if i :| 0 <= i < |groups| && name in groups[i].providers { ListedIsKnown(groups, name, i); }
    forall i: nat | LastListing(groups, name, i)
      ensures name in GroupMap(groups) && GroupMap(groups)[name] == groups[i]
    {
      LastListingDecides(groups, name, i);
    }
  }

  // ---------------------------------------------------------------- the handler

  /** The request as attempt number `i` sends it: the original but for the path. */
  function Attempt(original: Message, provider: string, candidate: string): Message {
    original.(path := Rewrite(original.path, provider, candidate))
  }

  function Attempts(original: Message, provider: string, candidates: seq<string>): (ms: seq<Message>)
    ensures |ms| == |candidates|
    ensures forall i :: 0 <= i < |candidates| ==> ms[i] == Attempt(original, provider, candidates[i])
  {
    seq(|candidates|, i requires 0 <= i < |candidates| => Attempt(original, provider, candidates[i]))
  }

  function BadGateway(msg: string): Response {
    Response(502, map["Content-Type" := ["application/json"]], msg)
  }

  /**
   * The answer and the traffic of a fallback, from what the attempts are answered: they go out in order, each as its
   * turn comes, up to the first answer that is not retriable; that one is the answer, and there is none after it.
   */
  ghost predicate FirstFinal(answers: seq<Response>, attempts: seq<Message>, resp: Response, sent: seq<Message>)
    requires |answers| == |attempts|
  {
    exists w: nat :: w <= |answers| && FinalAt(answers, attempts, resp, sent, w)
  }

  /** The first `w` answers are all retriable. */
  predicate AllRetriable(answers: seq<Response>, w: nat) {
    w <= |answers| && forall i :: 0 <= i < w ==> Retriable(answers[i].status)
  }

  predicate FinalAt(answers: seq<Response>, attempts: seq<Message>, resp: Response, sent: seq<Message>, w: nat)
    requires |answers| == |attempts| && w <= |answers|
  {
    && AllRetriable(answers, w)
    && (if w < |answers| then !Retriable(answers[w].status) && resp == answers[w] && sent == attempts[..w + 1]
        else resp == BadGateway("all providers in fallback group failed") && sent == attempts)
  }

  lemma FirstFinalIsUnique(
    answers: seq<Response>, attempts: seq<Message>, r: Response, s: seq<Message>, r': Response, s': seq<Message>)
    requires |answers| == |attempts|
    requires FirstFinal(answers, attempts, r, s) && FirstFinal(answers, attempts, r', s')
    ensures r == r' && s == s'
  {
    var w: nat :| w <= |answers| && FinalAt(answers, attempts, r, s, w);
    var w': nat :| w' <= |answers| && FinalAt(answers, attempts, r', s', w');
    assert w == w';
  }

  class Handler {
    const proxy: Proxy
    const providerToGroup: map<string, FallbackGroup>

    constructor (proxy: Proxy, groups: seq<FallbackGroup>)
      ensures this.proxy == proxy && providerToGroup == GroupMap(groups)
    {
      this.proxy := proxy;
      var ptg := BuildGroupMap(groups);
      providerToGroup := ptg;
    }

    /** The answer and the traffic for a message, when the proxy has seen `n` others before. */
    ghost predicate Handles(n: nat, m: Message, resp: Response, sent: seq<Message>) {
      var provider := ExtractProvider(m.path);
      if provider !in providerToGroup then sent == [m] && resp == proxy.Answer(n, m)
      else if m.body.Broken? then sent == [] && resp == BadGateway("failed to read request body")
      else
        var attempts := Attempts(Buffered(m), provider, providerToGroup[provider].providers);
        FirstFinal(proxy.AnswersTo(n, attempts), attempts, resp, sent)
    }

    method ServeHTTP(r: Request) returns (resp: Response)
      modifies proxy, r`path, r`body
      ensures old(proxy.seen) <= proxy.seen
      ensures Handles(|old(proxy.seen)|, old(MessageOf(r)), resp, proxy.seen[|old(proxy.seen)|..])
      ensures ExtractProvider(old(r.path)) in providerToGroup ==> r.path == old(r.path)
    {
      var providerName := ExtractProvider(r.path);
      if providerName !in providerToGroup {
        resp := proxy.ServeHTTP(r);
        return;
      }
      var buffered := r.body;
      if r.body != NoBody {
        if r.body.Broken? {
          return BadGateway("failed to read request body");
        }
        buffered := Unread(Content(r.body));
        r.body := Spent;
      }
      resp := TryEach(r, providerName, providerToGroup[providerName].providers, buffered);
    }

    /** One attempt, on a copy of the request: the original is not changed by it. */
    method TryOne(r: Request, providerName: string, candidate: string, buffered: Body) returns (resp: Response)
      modifies proxy
      ensures var attempt := Attempt(MessageOf(r).(body := buffered), providerName, candidate);
        && proxy.seen == old(proxy.seen) + [attempt]
        && resp == proxy.Answer(|old(proxy.seen)|, attempt)
    {
      var attemptReq := r.Clone();
      attemptReq.body := buffered;
      attemptReq.path := Rewrite(r.path, providerName, candidate);
      resp := proxy.ServeHTTP(attemptReq);
    }

    /** Attempt number `i` of a loop, and what it adds to the loop's record. */
    method TryNext(
      r: Request, providerName: string, candidate: string, buffered: Body,
      ghost before: seq<Message>, ghost attempts: seq<Message>, ghost i: nat) returns (resp: Response)
      requires i < |attempts| && attempts[i] == Attempt(MessageOf(r).(body := buffered), providerName, candidate)
      requires proxy.seen == before + attempts[..i]
      modifies proxy
      ensures proxy.seen == before + attempts[..i + 1] && resp == proxy.AnswersTo(|before|, attempts)[i]
    {
      Grown(before, attempts, i);
      assert |before + attempts[..i]| == |before| + i;
      resp := TryOne(r, providerName, candidate, buffered);
    }

    /** The loop over the group. */
    method TryEach(r: Request, providerName: string, candidates: seq<string>, buffered: Body) returns (resp: Response)
      modifies proxy
      ensures old(proxy.seen) <= proxy.seen
      ensures var attempts := Attempts(MessageOf(r).(body := buffered), providerName, candidates);
        FirstFinal(proxy.AnswersTo(|old(proxy.seen)|, attempts), attempts, resp, proxy.seen[|old(proxy.seen)|..])
    {
      ghost var before := proxy.seen;
      ghost var attempts := Attempts(MessageOf(r).(body := buffered), providerName, candidates);
      ghost var answers := proxy.AnswersTo(|before|, attempts);
      for i := 0 to |candidates|
        invariant proxy.seen == before + attempts[..i]
        invariant AllRetriable(answers, i)
      {
        resp := TryNext(r, providerName, candidates[i], buffered, before, attempts, i);
        if !Retriable(resp.status) {
          Grown(before, attempts, i);
          assert FinalAt(answers, attempts, resp, attempts[..i + 1], i);
          return;
        }
      }
      resp := BadGateway("all providers in fallback group failed");
      Grown(before, attempts, |candidates|);
      assert FinalAt(answers, attempts, resp, attempts, |candidates|);
    }
  }

  lemma Grown(before: seq<Message>, attempts: seq<Message>, i: nat)
    requires i <= |attempts|
    ensures i == |attempts| ==> before + attempts[..i] == before + attempts && (before + attempts)[|before|..] == attempts
    ensures i < |attempts| ==> before + attempts[..i] + [attempts[i]] == before + attempts[..i + 1]
    ensures i < |attempts| ==> (before + attempts[..i + 1])[|before|..] == attempts[..i + 1]
  {
    if i == |attempts| { assert attempts[..i] == attempts; }
  }

  /** The message with its whole body at hand. */
  function Buffered(m: Message): Message {
    m.(body := if m.body.NoBody? then NoBody else Unread(Content(m.body)))
  }

  lemma NextMember(g: FallbackGroup, names: seq<string>, j: nat)
    requires j < |names|
    ensures Merged(GroupOffers(g, names[..j + 1])) == Merged(GroupOffers(g, names[..j]))[names[j] := g]
  {
    assert names[..j + 1][..j] == names[..j];
    var offers := GroupOffers(g, names[..j + 1]);
    assert offers[..|offers| - 1] == GroupOffers(g, names[..j]);
  }

  lemma NextGroup(groups: seq<FallbackGroup>, i: nat)
    requires i < |groups|
    ensures GroupMap(groups[..i + 1]) == GroupMap(groups[..i]) + Merged(GroupOffers(groups[i], groups[i].providers))
  {
    assert groups[..i + 1][..i] == groups[..i];
    MergedConcat(AllOffers(groups[..i]), GroupOffers(groups[i], groups[i].providers));
  }

  lemma SumUpdate<V>(a: map<string, V>, b: map<string, V>, key: string, v: V)
    ensures a + b[key := v] == (a + b)[key := v]
  {
  }

  /** The inner loop, over one group's members. */
  method AddGroup(ptg: map<string, FallbackGroup>, g: FallbackGroup) returns (ptg': map<string, FallbackGroup>)
    ensures ptg' == ptg + Merged(GroupOffers(g, g.providers))
  {
    ptg' := ptg;
    for j := 0 to |g.providers|
      invariant ptg' == ptg + Merged(GroupOffers(g, g.providers[..j]))
    {
      NextMember(g, g.providers, j);
      SumUpdate(ptg, Merged(GroupOffers(g, g.providers[..j])), g.providers[j], g);
      ptg' := ptg'[g.providers[j] := g];
    }
    assert g.providers[..|g.providers|] == g.providers;
  }

  /** The outer loop, over the groups. */
  method BuildGroupMap(groups: seq<FallbackGroup>) returns (ptg: map<string, FallbackGroup>)
    ensures ptg == GroupMap(groups)
  {
    ptg := map[];
    for i := 0 to |groups|
      invariant ptg == GroupMap(groups[..i])
    {
      ptg := AddGroup(ptg, groups[i]);
      NextGroup(groups, i);
    }
    assert groups[..|groups|] == groups;
  }

  // ---------------------------------------------------------------- what goes out

  /** Which answers let the loop go on. */
  lemma RetriableIs(code: int)
    ensures Retriable(code) <==> code == 429 || 500 <= code
  {
  }

  /**
   * What a handler sends: outside a group the message as it is; in a group, for each candidate in turn, a message that
   * differs from the original in its path alone, with the whole body each time; nothing if the body cannot be read.
   */
  lemma TrafficIs(h: Handler, n: nat, m: Message, resp: Response, sent: seq<Message>)
    requires h.Handles(n, m, resp, sent)
    ensures ExtractProvider(m.path) !in h.providerToGroup ==> sent == [m]
    ensures ExtractProvider(m.path) in h.providerToGroup && m.body == Broken ==>
      sent == [] && resp.status == 502 && resp.body == "failed to read request body"
    ensures ExtractProvider(m.path) in h.providerToGroup && m.body != Broken ==>
      |sent| <= |h.providerToGroup[ExtractProvider(m.path)].providers|
    ensures ExtractProvider(m.path) in h.providerToGroup ==>
      forall i :: 0 <= i < |sent| ==>
        && sent[i].verb == m.verb && sent[i].query == m.query && sent[i].headers == m.headers
        && (m.body.Unread? || m.body.NoBody? ==> sent[i].body == m.body)
        && (m.body.Spent? ==> sent[i].body == Unread(""))
  {
    var provider := ExtractProvider(m.path);
    if provider in h.providerToGroup && !m.body.Broken? {
      BufferedIs(m);
      var attempts := Attempts(Buffered(m), provider, h.providerToGroup[provider].providers);
      SentAreAttempts(h.proxy.AnswersTo(n, attempts), attempts, resp, sent);
    }
  }

  lemma BufferedIs(m: Message)
    ensures m.body.Unread? || m.body.NoBody? ==> Buffered(m) == m
    ensures m.body.Spent? ==> Buffered(m) == m.(body := Unread(""))
  {
  }

  lemma SentAreAttempts(answers: seq<Response>, attempts: seq<Message>, resp: Response, sent: seq<Message>)
    requires |answers| == |attempts| && FirstFinal(answers, attempts, resp, sent)
    ensures sent <= attempts
  {
    var w: nat :| w <= |answers| && FinalAt(answers, attempts, resp, sent, w);
  }

  // ---------------------------------------------------------------- what an attempt asks for

  /**
   * An attempt at a served candidate whose name has no slash asks its upstream for just what a request to that
   * candidate by name would have asked for: the original method, headers, body and remaining path.
   */
  lemma AttemptIsDirect(p: Proxy, n: nat, m: Message, candidate: string)
    requires HasPrefix(m.path, PREFIX) && '/' !in candidate && candidate in p.providers
    ensures p.Answer(n, Attempt(m, ExtractProvider(m.path), candidate))
            == p.upstreams(n, p.providers[candidate], m.(path := ParsePath(m.path).value.1))
  {
    RewriteThenParseIff(m.path, candidate);
    var sent := Attempt(m, ExtractProvider(m.path), candidate);
    assert sent.(path := ParsePath(m.path).value.1) == m.(path := ParsePath(m.path).value.1);
  }

  /** A candidate that the proxy could not set up ends the loop with 404, whoever comes after it. */
  lemma UnservedCandidateStops(
    p: Proxy, n: nat, m: Message, candidates: seq<string>, i: nat, resp: Response, sent: seq<Message>)
    requires HasPrefix(m.path, PREFIX) && i < |candidates|
    requires '/' !in candidates[i] && candidates[i] !in p.providers
    requires var attempts := Attempts(m, ExtractProvider(m.path), candidates);
             && FirstFinal(p.AnswersTo(n, attempts), attempts, resp, sent)
             && AllRetriable(p.AnswersTo(n, attempts), i)
    ensures resp.status == 404 && |sent| == i + 1
  {
    var attempts := Attempts(m, ExtractProvider(m.path), candidates);
    UnservedAt(p, n, m, candidates[i], attempts, i);
    FirstFinalAt(p.AnswersTo(n, attempts), attempts, resp, sent, i);
  }

  lemma UnservedAt(p: Proxy, n: nat, m: Message, candidate: string, attempts: seq<Message>, i: nat)
    requires HasPrefix(m.path, PREFIX) && '/' !in candidate && candidate !in p.providers
    requires i < |attempts| && attempts[i] == Attempt(m, ExtractProvider(m.path), candidate)
    ensures p.AnswersTo(n, attempts)[i].status == 404
  {
    NthAnswer(p, n, attempts, i);
    UnservedAnswer(p, n + i, m, candidate, attempts[i]);
  }

  lemma NthAnswer(p: Proxy, n: nat, ms: seq<Message>, i: nat)
    requires i < |ms|
    ensures p.AnswersTo(n, ms)[i] == p.Answer(n + i, ms[i])
  {
  }

  lemma FirstFinalAt(answers: seq<Response>, attempts: seq<Message>, resp: Response, sent: seq<Message>, w: nat)
    requires |answers| == |attempts| && w < |answers| && FirstFinal(answers, attempts, resp, sent)
    requires AllRetriable(answers, w) && !Retriable(answers[w].status)
    ensures resp == answers[w] && sent == attempts[..w + 1]
  {
    var v: nat :| v <= |answers| && FinalAt(answers, attempts, resp, sent, v);
    assert v == w;
  }

  lemma UnservedAnswer(p: Proxy, n: nat, m: Message, candidate: string, attempt: Message)
    requires HasPrefix(m.path, PREFIX) && '/' !in candidate && candidate !in p.providers
    requires attempt == Attempt(m, ExtractProvider(m.path), candidate)
    ensures p.Answer(n, attempt) == NotFound("unknown provider: " + candidate)
  {
    RewriteThenParseIff(m.path, candidate);
  }
}
