/** One server, its reloads and its requests in sequence: internal/server/server.go. */
module Serving {
  import opened LastWins
  import opened Http
  import opened Proxying
  import opened Fallback
  import opened Configuration
  import opened LimitSyntax
  import opened Time
  import Auth

  /** What opening and decoding the configuration file comes to. */
  datatype FileRead = CannotOpen | NotYaml | Decoded(config: Config)

  predicate Loadable(file: FileRead) {
    file.Decoded? && IsVerdict(file.config, Acceptable)
  }

  /** A health checker, as far as a reload is concerned. */
  class Checker {
    var running: bool

    constructor ()
      ensures !running
    {
      running := false;
    }

    method Start()
      modifies this
      ensures running
    {
      running := true;
    }

    method Stop()
      modifies this
      ensures !running
    {
      running := false;
    }
  }

  class LiveHandler {
    const gate: Auth.Gate
    const handler: Handler
    const checker: Checker

    constructor (gate: Auth.Gate, handler: Handler, checker: Checker)
      ensures this.gate == gate && this.handler == handler && this.checker == checker
    {
      this.gate := gate;
      this.handler := handler;
      this.checker := checker;
    }

    /** All parts were built from this one configuration. */
    ghost predicate BuiltFrom(config: Config, usable: ProviderConfig -> bool, upstreams: Upstreams) {
      && Auth.PolicyFrom(gate.tokens) == Auth.PolicyOf(config.tokens)
      && handler.providerToGroup == GroupMap(config.groups)
      && handler.proxy.providers == Merged(AllProvided(config.providers, usable))
      && handler.proxy.upstreams == upstreams
    }
  }

  method BuildGate(config: Config) returns (gate: Auth.Gate)
    ensures fresh(gate.Repr) && gate.Valid() && gate.past == []
    ensures Auth.PolicyFrom(gate.tokens) == Auth.PolicyOf(config.tokens)
  {
    var tokens := Auth.BuildTokenMap(config.tokens);
    gate := new Auth.Gate(tokens);
  }

  /** A new checker is started, and the parts are put together. */
  method Assemble(gate: Auth.Gate, p: Proxy, config: Config) returns (live: LiveHandler)
    requires gate.Valid()
    ensures fresh(live) && fresh(live.checker) && live.checker.running
    ensures live.gate == gate && gate.Valid() && live.handler.proxy == p
    ensures live.handler.providerToGroup == GroupMap(config.groups)
  {
    var c := new Checker();
    c.Start();
    var handler := new Handler(p, config.groups);
    live := new LiveHandler(gate, handler, c);
  }

  class Server {
    const usable: ProviderConfig -> bool
    const upstreams: Upstreams
    var live: LiveHandler?
    var checker: Checker?

    /** The live handler reports the checker that runs. */
    ghost predicate Settled()
      reads this, checker
    {
      live != null && checker != null && live.checker == checker && checker.running
    }

    constructor (config: Config, usable: ProviderConfig -> bool, upstreams: Upstreams)
      ensures Settled() && live.gate.Valid() && live.gate.past == []
      ensures live.BuiltFrom(config, usable, upstreams)
    {
      this.usable := usable;
      this.upstreams := upstreams;
      live := null;
      checker := null;
      new;
      Load(config);
    }

    method Load(config: Config)
      modifies this`live, this`checker, checker
      ensures Settled() && fresh(live) && fresh(checker)
      ensures live.gate.Valid() && live.gate.past == [] && live.BuiltFrom(config, usable, upstreams)
      ensures old(checker) != null ==> !old(checker).running
    {
      var gate := BuildGate(config);
      var p := new Proxy(config.providers, usable, upstreams);
      if checker != null {
        checker.Stop();
      }
      live := Assemble(gate, p, config);
      checker := live.checker;
    }

    /** A reload of a file that does not decode or is not acceptable leaves all as it was; any other replaces all. */
    method Reload(file: FileRead) returns (ok: bool)
      requires Settled()
      modifies this`live, this`checker, checker
      ensures Settled() && (ok <==> Loadable(file))
      ensures !ok ==> live == old(live) && checker == old(checker)
      ensures ok ==> fresh(live) && live.gate.Valid() && live.gate.past == []
                     && live.BuiltFrom(file.config, usable, upstreams)
                     && fresh(checker) && !old(checker).running
    {
      if !file.Decoded? {
        return false;
      }
      var verdict := Validate(file.config);
      if verdict != Acceptable {
        if IsVerdict(file.config, Acceptable) { VerdictIsUnique(file.config, verdict, Acceptable); }
        return false;
      }
      Load(file.config);
      return true;
    }

    /** The gate's own view of a request. */
    static function Presented(m: Message, now: int): Auth.Request {
      Auth.Request(m.path, Get(m.headers, "Authorization"), now)
    }

    /**
     * A request under /proxy/: the gate first, and the fallback handler only with the gate's leave. One that is
     * turned away reaches no upstream.
     */
    method HandleProxy(r: Request, now: int) returns (resp: Response)
      requires live != null && live.gate.Valid()
      modifies live.gate`past, live.gate`Repr, live.gate.Touched(Presented(MessageOf(r), now))
      modifies live.handler.proxy, r`path, r`body, r`headers
      ensures live == old(live) && live.gate.Valid()
      ensures live.gate.past == old(live.gate.past) + [old(Presented(MessageOf(r), now))]
      ensures old(live.handler.proxy.seen) <= live.handler.proxy.seen
      ensures Answers(
                live.handler, |old(live.handler.proxy.seen)|, old(MessageOf(r)),
                Auth.Decide(Auth.PolicyFrom(live.gate.tokens), old(live.gate.past), old(Presented(MessageOf(r), now))),
                resp, live.handler.proxy.seen[|old(live.handler.proxy.seen)|..])
    {
      var gate, handler := live.gate, live.handler;
      var request := Auth.Request(r.path, Get(r.headers, "Authorization"), now);
      gate.TouchedIsOwn(request);
      assert this !in gate.Repr && handler.proxy !in gate.Repr && r !in gate.Repr;
      var reply := gate.Serve(request);
      resp := Forward(handler, r, reply);
    }
  }

  /** What becomes of a message after the gate's reply. */
  ghost predicate Answers(h: Handler, n: nat, m: Message, reply: Auth.Reply, resp: Response, sent: seq<Message>) {
    match reply
    case Exempt => h.Handles(n, m, resp, sent)
    case Admit(name, _) => h.Handles(n, m.(headers := Set(m.headers, "X-Yai-Token-Name", name)), resp, sent)
    case TooMany(limit, remaining, retryAfter) =>
      resp == Response(429, TooManyHeaders(limit, remaining, retryAfter), "rate limit exceeded") && sent == []
    case MissingHeader => resp == Refusal(401, "missing Authorization header") && sent == []
    case NotBearer => resp == Refusal(401, "Authorization header must start with 'Bearer '") && sent == []
    case UnknownToken => resp == Refusal(401, "invalid token") && sent == []
  }

  /** The message as the gate passes it on under a token's name. */
  ghost predicate PassedAs(m: Message, name: string, passed: Message) {
    && passed.verb == m.verb && passed.path == m.path && passed.query == m.query && passed.body == m.body
    && passed.headers == m.headers[CanonicalKey("X-Yai-Token-Name") := [name]]
  }

  /**
   * From a request to what is sent on: outside the health paths, anything is sent only for a message whose
   * Authorization header is "Bearer " and the token of an entry that decides for its token, and then with that entry's
   * name; whatever is turned away is answered with 401 or 429.
   */
  lemma OnlyWithToken(
    h: Handler, n: nat, m: Message, now: int, entries: seq<Auth.TokenEntry>, past: seq<Auth.Request>,
    resp: Response, sent: seq<Message>) returns (i: nat)
    requires Answers(h, n, m, Auth.Decide(Auth.PolicyOf(entries), past, Server.Presented(m, now)), resp, sent)
    requires m.path != "/health" && !("/health/" <= m.path)
    ensures || (sent == [] && (resp.status == 401 || resp.status == 429))
            || (Auth.LastReadable(entries, i) && Get(m.headers, "Authorization") == "Bearer " + entries[i].token
                && exists passed :: PassedAs(m, entries[i].name, passed) && h.Handles(n, passed, resp, sent))
  {
    i := 0;
    var r := Server.Presented(m, now);
    var reply := Auth.Decide(Auth.PolicyOf(entries), past, r);
    Auth.RefusalIs(Auth.PolicyOf(entries), past, r);
    if reply.Admit? {
      i := Auth.AdmittedBy(entries, past, r);
      var passed := m.(headers := Set(m.headers, "X-Yai-Token-Name", reply.name));
      assert PassedAs(m, entries[i].name, passed);
    }
  }

  /** What a client without a usable token is told. */
  lemma RefusedWith(
    h: Handler, n: nat, m: Message, now: int, policy: Auth.Policy, past: seq<Auth.Request>,
    resp: Response, sent: seq<Message>)
    requires Answers(h, n, m, Auth.Decide(policy, past, Server.Presented(m, now)), resp, sent)
    requires m.path != "/health" && !("/health/" <= m.path)
    ensures var auth := Get(m.headers, "Authorization");
            && (auth == "" ==> resp.status == 401 && resp.body == "missing Authorization header")
            && (auth != "" && !("Bearer " <= auth) ==>
                  resp.status == 401 && resp.body == "Authorization header must start with 'Bearer '")
            && (forall token :: auth == "Bearer " + token && token !in policy ==>
                  resp.status == 401 && resp.body == "invalid token")
  {
    Auth.RefusalIs(policy, past, Server.Presented(m, now));
    forall token | Get(m.headers, "Authorization") == "Bearer " + token
      ensures Get(m.headers, "Authorization")[|"Bearer "|..] == token
    {
    }
  }

  function TooManyHeaders(limit: int, remaining: int, retryAfter: int): Headers {
    var counted := Set(Set(map[], "X-RateLimit-Limit", IntText(limit)), "X-RateLimit-Remaining", IntText(remaining));
    Set(Set(counted, "Retry-After", IntText(retryAfter)), "Content-Type", "application/json")
  }

  /** A client reads the seconds to wait, the limit and what remains from the headers as they were meant. */
  lemma RetryAfterReadBack(limit: int, remaining: int, retryAfter: int)
    requires -TWO_63 <= retryAfter < TWO_63 && -TWO_63 <= limit < TWO_63 && -TWO_63 <= remaining < TWO_63
    ensures Atoi(Get(TooManyHeaders(limit, remaining, retryAfter), "Retry-After")) == Int(retryAfter)
    ensures Atoi(Get(TooManyHeaders(limit, remaining, retryAfter), "X-RateLimit-Limit")) == Int(limit)
    ensures Atoi(Get(TooManyHeaders(limit, remaining, retryAfter), "X-RateLimit-Remaining")) == Int(remaining)
  {
    AtoiIntText(retryAfter);
    AtoiIntText(limit);
    AtoiIntText(remaining);
    HeaderLengths();
    FourHeaders("X-RateLimit-Limit", IntText(limit), "X-RateLimit-Remaining", IntText(remaining),
                "Retry-After", IntText(retryAfter), "Content-Type", "application/json");
  }

  lemma HeaderLengths()
    ensures |"X-RateLimit-Limit"| == 17 && |"X-RateLimit-Remaining"| == 21 && |"Retry-After"| == 11
    ensures |"Content-Type"| == 12
  {
  }

  /** Headers with names of different lengths, one set after the other. */
  lemma FourHeaders(a: string, x: string, b: string, y: string, c: string, z: string, e: string, w: string)
    requires |a| != |b| && |a| != |c| && |a| != |e| && |b| != |c| && |b| != |e| && |c| != |e|
    ensures var headers := Set(Set(Set(Set(map[], a, x), b, y), c, z), e, w);
            Get(headers, a) == x && Get(headers, b) == y && Get(headers, c) == z && Get(headers, e) == w
  {
    assert |CanonicalKey(a)| == |a| && |CanonicalKey(b)| == |b| && |CanonicalKey(c)| == |c| && |CanonicalKey(e)| == |e|;
  }

  /** The second half of the gate: refuse, or mark the request and pass it on. */
  method Forward(handler: Handler, r: Request, reply: Auth.Reply) returns (resp: Response)
    modifies handler.proxy, r`path, r`body, r`headers
    ensures old(handler.proxy.seen) <= handler.proxy.seen
    ensures Answers(handler, |old(handler.proxy.seen)|, old(MessageOf(r)), reply, resp,
                    handler.proxy.seen[|old(handler.proxy.seen)|..])
  {
    match reply
    case MissingHeader => resp := Refusal(401, "missing Authorization header");
    case NotBearer => resp := Refusal(401, "Authorization header must start with 'Bearer '");
    case UnknownToken => resp := Refusal(401, "invalid token");
    case TooMany(limit, remaining, retryAfter) =>
      resp := Response(429, TooManyHeaders(limit, remaining, retryAfter), "rate limit exceeded");
    case Exempt => resp := handler.ServeHTTP(r);
    case Admit(name, _) =>
      r.headers := Set(r.headers, "X-Yai-Token-Name", name);
      resp := handler.ServeHTTP(r);
  }

  function Refusal(code: int, msg: string): Response {
    Response(code, map["Content-Type" := ["application/json"]], msg)
  }
}
