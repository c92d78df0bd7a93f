/** Routing by path: internal/proxy/proxy.go. */
module Proxying {
  import opened Text
  import opened LastWins
  import opened Http

  const PREFIX := "/proxy/"

  // ---------------------------------------------------------------- paths

  /** The provider named by a path, and the path it is to see. */
  function ParsePath(path: string): Option<(string, string)> {
    if !HasPrefix(path, PREFIX) then None
    else
      var remainder := TrimPrefix(path, PREFIX);
      var slash := IndexOf(remainder, '/');
      if slash == -1 then Some((remainder, "/")) else Some((remainder[..slash], remainder[slash..]))
  }

  lemma ParsePathOf(provider: string, rest: string)
    requires '/' !in provider
    ensures ParsePath(PREFIX + provider) == Some((provider, "/"))
    ensures ParsePath(PREFIX + (provider + ['/'] + rest)) == Some((provider, ['/'] + rest))
  {
    PrefixConcat(PREFIX, provider);
    PrefixConcat(PREFIX, provider + ['/'] + rest);
    IndexOfConcat(provider, '/', rest);
    SlashParts(provider, rest);
  }

  lemma SlashParts(provider: string, rest: string)
    ensures var s := provider + ['/'] + rest; s[..|provider|] == provider && s[|provider|..] == ['/'] + rest
  {
  }

  /** A path under the prefix is its provider, and either nothing more or a slash and a rest. */
  lemma ParsePathIs(path: string)
    requires HasPrefix(path, PREFIX)
    ensures var (provider, up) := ParsePath(path).value;
            && '/' !in provider && up != "" && up[0] == '/'
            && ((path == PREFIX + provider && up == "/") || path == PREFIX + (provider + ['/'] + up[1..]))
  {
    var remainder := TrimPrefix(path, PREFIX);
    assert path == PREFIX + remainder;
    var slash := IndexOf(remainder, '/');
    if slash != -1 {
      assert remainder == remainder[..slash] + ['/'] + remainder[slash..][1..];
    }
  }

  // ---------------------------------------------------------------- the proxy

  /** The settings of `auth` are by field name. */
  datatype ProviderConfig = ProviderConfig(name: string, upstream: string, auth: map<string, string>)

  datatype Response = Response(status: int, headers: Headers, body: string)

  /** A request as it stands when it is handed over. */
  datatype Message = Message(verb: string, path: string, query: Query, headers: Headers, body: Body)

  ghost function MessageOf(r: Request): Message
    reads r
  {
    Message(r.verb, r.path, r.query, r.headers, r.body)
  }

  /** An upstream's answer to the request number `n` of the proxy: any function at all. */
  type Upstreams = (nat, ProviderConfig, Message) -> Response

  function NotFound(msg: string): Response {
    Response(404, map["Content-Type" := ["application/json"]], msg)
  }

  /** What one provider's configuration puts into the table: nothing when its target or credentials cannot be set up. */
  function Provided(cfg: ProviderConfig, usable: ProviderConfig -> bool): Offer<ProviderConfig> {
    Offer(cfg.name, if usable(cfg) then Some(cfg) else None)
  }

  function ProvidedBy(usable: ProviderConfig -> bool): ProviderConfig -> Offer<ProviderConfig> {
    cfg => Provided(cfg, usable)
  }

  function AllProvided(cfgs: seq<ProviderConfig>, usable: ProviderConfig -> bool): (offers: seq<Offer<ProviderConfig>>)
    ensures |offers| == |cfgs|
    ensures forall i :: 0 <= i < |cfgs| ==> offers[i] == Provided(cfgs[i], usable)
  {
    OffersOf(cfgs, ProvidedBy(usable))
  }

  lemma NextProvided(cfgs: seq<ProviderConfig>, usable: ProviderConfig -> bool, i: nat)
    requires i < |cfgs|
    ensures var m := Merged(AllProvided(cfgs[..i], usable));
            Merged(AllProvided(cfgs[..i + 1], usable)) == if usable(cfgs[i]) then m[cfgs[i].name := cfgs[i]] else m
  {
    NextOffer(cfgs, ProvidedBy(usable), i);
  }

  /** A name is served exactly when some usable configuration has it, and the last of those serves it. */
  lemma ServedByLastUsable(cfgs: seq<ProviderConfig>, usable: ProviderConfig -> bool, name: string)
    ensures var served := Merged(AllProvided(cfgs, usable));
            if exists i :: 0 <= i < |cfgs| && cfgs[i].name == name && usable(cfgs[i]) then
              exists i :: 0 <= i < |cfgs| && cfgs[i].name == name && usable(cfgs[i])
                && name in served && served[name] == cfgs[i]
                && forall j :: i < j < |cfgs| && cfgs[j].name == name ==> !usable(cfgs[j])
            else name !in served
  {
    var offers := AllProvided(cfgs, usable);
    if name in Merged(offers) {
      var i := KnownHasOffer(offers, name);
      assert offers[i] == Provided(cfgs[i], usable);
    } else if i :| 0 <= i < |cfgs| && cfgs[i].name == name && usable(cfgs[i]) {
      AnyOfferIsKnown(offers, name, i);
    }
  }

  /** The loop over the configurations. */
  method BuildTable(cfgs: seq<ProviderConfig>, usable: ProviderConfig -> bool)
    returns (table: map<string, ProviderConfig>)
    ensures table == Merged(AllProvided(cfgs, usable))
  {
    table := map[];
    for i := 0 to |cfgs|
      invariant table == Merged(AllProvided(cfgs[..i], usable))
    {
      NextProvided(cfgs, usable, i);
      if !usable(cfgs[i]) {
        continue;
      }
      table := table[cfgs[i].name := cfgs[i]];
    }
    assert cfgs[..|cfgs|] == cfgs;
  }

  class Proxy {
    const providers: map<string, ProviderConfig>
    const upstreams: Upstreams
    var seen: seq<Message>  // all requests so far

    constructor (cfgs: seq<ProviderConfig>, usable: ProviderConfig -> bool, upstreams: Upstreams)
      ensures providers == Merged(AllProvided(cfgs, usable)) && this.upstreams == upstreams && seen == []
    {
      var table := BuildTable(cfgs, usable);
      providers := table;
      this.upstreams := upstreams;
      seen := [];
    }

    /** The answer to a message that comes as number `n`. */
    function Answer(n: nat, m: Message): Response {
      match ParsePath(m.path)
      case None => NotFound("not found")
      case Some((provider, up)) =>
        if provider !in providers then NotFound("unknown provider: " + provider)
        else upstreams(n, providers[provider], m.(path := up))
    }

    /** The answers to messages that come one after the other, from number `n` on. */
    function AnswersTo(n: nat, ms: seq<Message>): (rs: seq<Response>)
      ensures |rs| == |ms|
      ensures forall i :: 0 <= i < |ms| ==> rs[i] == Answer(n + i, ms[i])
    {
      seq(|ms|, i requires 0 <= i < |ms| => Answer(n + i, ms[i]))
    }

    /** The request itself is changed: its path becomes the upstream's, and its body is used up. */
    method ServeHTTP(r: Request) returns (resp: Response)
      modifies this, r`path, r`body
      ensures seen == old(seen) + [old(MessageOf(r))]
      ensures resp == Answer(|old(seen)|, old(MessageOf(r)))
    {
      var n := |seen|;
      seen := seen + [Message(r.verb, r.path, r.query, r.headers, r.body)];
      if !HasPrefix(r.path, PREFIX) {
        return NotFound("not found");
      }
      var remainder := TrimPrefix(r.path, PREFIX);
      var slash := IndexOf(remainder, '/');
      var provider, upstreamPath;
      if slash == -1 {
        provider, upstreamPath := remainder, "/";
      } else {
        provider, upstreamPath := remainder[..slash], remainder[slash..];
      }
      if provider !in providers {
        return NotFound("unknown provider: " + provider);
      }
      r.path := upstreamPath;
      resp := Send(n, providers[provider], r);
    }

    /** Passing the request on; the answer may depend on everything that was sent before. */
    method Send(n: nat, cfg: ProviderConfig, r: Request) returns (resp: Response)
      modifies r`body
      ensures resp == upstreams(n, cfg, old(MessageOf(r)))
    {
      resp := upstreams(n, cfg, Message(r.verb, r.path, r.query, r.headers, r.body));
      if r.body != NoBody {
        r.body := Spent;
      }
    }
  }

  /** A path that names a provider goes to its upstream with the rest of the path; any other is answered with 404. */
  lemma Routed(p: Proxy, n: nat, m: Message, provider: string, rest: string)
    requires '/' !in provider
    ensures provider in p.providers && m.path == "/proxy/" + provider + "/" + rest ==>
              p.Answer(n, m) == p.upstreams(n, p.providers[provider], m.(path := "/" + rest))
    ensures provider in p.providers && m.path == "/proxy/" + provider ==>
              p.Answer(n, m) == p.upstreams(n, p.providers[provider], m.(path := "/"))
    ensures provider !in p.providers
            && (m.path == "/proxy/" + provider || m.path == "/proxy/" + provider + "/" + rest) ==>
              p.Answer(n, m).status == 404 && p.Answer(n, m).body == "unknown provider: " + provider
    ensures !("/proxy/" <= m.path) ==> p.Answer(n, m).status == 404 && p.Answer(n, m).body == "not found"
  {
    ParsePathOf(provider, rest);
    PathTogether(provider, rest);
  }

  lemma PathTogether(provider: string, rest: string)
    ensures "/proxy/" + provider + "/" + rest == PREFIX + (provider + ['/'] + rest)
    ensures "/" + rest == ['/'] + rest
  {
  }
}
