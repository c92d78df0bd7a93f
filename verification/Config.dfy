/** The checks of `validate` in internal/config/config.go, and what they are good for once requests come. */
module Configuration {
  import opened Text
  import opened LastWins
  import opened Proxying
  import opened Fallback
  import Auth

  datatype Config = Config(tokens: seq<Auth.TokenEntry>, providers: seq<ProviderConfig>, groups: seq<FallbackGroup>)

  // ---------------------------------------------------------------- faults of single entries

  datatype TokenFault = NoTokenName | NoToken

  function FaultOfToken(e: Auth.TokenEntry): Option<TokenFault> {
    if e.name == "" then Some(NoTokenName)
    else if e.token == "" then Some(NoToken)
    else None
  }

  datatype ProviderFault = NoName | NoUpstream | BadAuthType | Lacks(field: string)

  /** What each type of authentication needs, in the order of the checks. */
  function RequiredFields(kind: string): Option<seq<string>> {
    match kind
    case "bearer" => Some([])
    case "x-api-key" => Some([])
    case "none" => Some([])
    case "query-param" => Some(["param_name"])
    case "oauth2-client-credentials" => Some(["token_url", "client_id", "client_secret"])
    case "oauth2-azure-ad" => Some(["tenant_id", "client_id", "client_secret"])
    case "oauth2-service-account" => Some(["credentials_file"])
    case "aws-sigv4" => Some(["aws_region"])
    case _ => None
  }

  function Setting(auth: map<string, string>, field: string): string {
    if field in auth then auth[field] else ""
  }

  function FirstLacking(auth: map<string, string>, fields: seq<string>): Option<ProviderFault> {
    if fields == [] then None
    else if Setting(auth, fields[0]) == "" then Some(Lacks(fields[0]))
    else FirstLacking(auth, fields[1..])
  }

  function FaultOfProvider(p: ProviderConfig): Option<ProviderFault> {
    if p.name == "" then Some(NoName)
    else if p.upstream == "" then Some(NoUpstream)
    else FaultOfAuth(p.auth)
  }

  function FaultOfAuth(auth: map<string, string>): Option<ProviderFault> {
    match RequiredFields(Setting(auth, "type"))
    case None => Some(BadAuthType)
    case Some(fields) => FirstLacking(auth, fields)
  }

  /** What an entry of the token list must have; the first thing missing is the fault. */
  lemma FaultOfTokenIs(e: Auth.TokenEntry)
    ensures FaultOfToken(e) == Some(NoTokenName) <==> e.name == ""
    ensures FaultOfToken(e) == Some(NoToken) <==> e.name != "" && e.token == ""
    ensures FaultOfToken(e).None? <==> e.name != "" && e.token != ""
  {
  }

  /** The field is there and not empty. */
  predicate Given(p: ProviderConfig, field: string) {
    field in p.auth && p.auth[field] != ""
  }

  predicate AllGiven(p: ProviderConfig, fields: seq<string>) {
    forall i :: 0 <= i < |fields| ==> Given(p, fields[i])
  }

  /** The credentials are of a known type and have what that type needs. */
  predicate WellAuthorized(p: ProviderConfig) {
    && "type" in p.auth
    && var kind := p.auth["type"];
       || kind in ["bearer", "x-api-key", "none"]
       || (kind == "query-param" && Given(p, "param_name"))
       || (kind == "oauth2-client-credentials" && AllGiven(p, ["token_url", "client_id", "client_secret"]))
       || (kind == "oauth2-azure-ad" && AllGiven(p, ["tenant_id", "client_id", "client_secret"]))
       || (kind == "oauth2-service-account" && Given(p, "credentials_file"))
       || (kind == "aws-sigv4" && Given(p, "aws_region"))
  }

  lemma {:induction false} FirstLackingIs(p: ProviderConfig, fields: seq<string>)
    ensures FirstLacking(p.auth, fields).None? <==> AllGiven(p, fields)
    ensures FirstLacking(p.auth, fields).Some? ==>
      exists i :: 0 <= i < |fields| && FirstLacking(p.auth, fields) == Some(Lacks(fields[i])) && !Given(p, fields[i])
        && AllGiven(p, fields[..i])
    decreases |fields|
  {
    if fields != [] {
      var rest := fields[1..];
      FirstLackingIs(p, rest);
      assert fields == [fields[0]] + rest;
      if Given(p, fields[0]) {
        if FirstLacking(p.auth, rest).Some? {
          var i :| 0 <= i < |rest| && FirstLacking(p.auth, rest) == Some(Lacks(rest[i])) && !Given(p, rest[i])
                   && AllGiven(p, rest[..i]);
          assert fields[..i + 1] == [fields[0]] + rest[..i];
          assert fields[i + 1] == rest[i];
        }
      } else {
        assert AllGiven(p, fields[..0]) && !Given(p, fields[0]);
      }
    }
  }

  lemma WellAuthorizedIff(p: ProviderConfig)
    ensures FaultOfAuth(p.auth).None? <==> WellAuthorized(p)
  {
    var kind := Setting(p.auth, "type");
    var fields := RequiredFields(kind);
    if fields.Some? {
      FirstLackingIs(p, fields.value);
      if kind == "query-param" { OneField(p, "param_name"); }
      if kind == "oauth2-service-account" { OneField(p, "credentials_file"); }
      if kind == "aws-sigv4" { OneField(p, "aws_region"); }
    }
  }

  /** Three settings in a row: the first that is missing is named. */
  lemma ThreeFields(p: ProviderConfig, a: string, b: string, c: string)
    requires a != b && a != c && b != c
    ensures var fault := FirstLacking(p.auth, [a, b, c]);
            && (fault == Some(Lacks(a)) <==> !Given(p, a)) && (fault == Some(Lacks(b)) <==> Given(p, a) && !Given(p, b))
            && (fault == Some(Lacks(c)) <==> Given(p, a) && Given(p, b) && !Given(p, c))
  {
    assert [a, b, c][1..] == [b, c] && [b, c][1..] == [c] && [c][1..] == [];
    assert FirstLacking(p.auth, [c]) == if Given(p, c) then None else Some(Lacks(c));
    assert FirstLacking(p.auth, [b, c]) == if Given(p, b) then FirstLacking(p.auth, [c]) else Some(Lacks(b));
  }

  /** Which fault the credentials have: a type that is not known, or the first setting missing. */
  lemma AuthFaultIs(p: ProviderConfig)
    requires "type" in p.auth
    ensures FaultOfAuth(p.auth) == Some(BadAuthType) <==>
            p.auth["type"] !in ["bearer", "x-api-key", "query-param", "oauth2-client-credentials",
                                "oauth2-service-account", "oauth2-azure-ad", "aws-sigv4", "none"]
    ensures p.auth["type"] == "oauth2-client-credentials" ==>
      && (FaultOfAuth(p.auth) == Some(Lacks("token_url")) <==> !Given(p, "token_url"))
      && (FaultOfAuth(p.auth) == Some(Lacks("client_id")) <==> Given(p, "token_url") && !Given(p, "client_id"))
    ensures p.auth["type"] == "oauth2-azure-ad" ==>
      && (FaultOfAuth(p.auth) == Some(Lacks("tenant_id")) <==> !Given(p, "tenant_id"))
      && (FaultOfAuth(p.auth) == Some(Lacks("client_id")) <==> Given(p, "tenant_id") && !Given(p, "client_id"))
  {
    var fields := RequiredFields(Setting(p.auth, "type"));
    if fields.Some? { FirstLackingIs(p, fields.value); }
    if p.auth["type"] == "oauth2-client-credentials" {
      LengthsOfFields();
      ThreeFields(p, "token_url", "client_id", "client_secret");
    }
    if p.auth["type"] == "oauth2-azure-ad" {
      LengthsOfFields();
      ThreeFields(p, "tenant_id", "client_id", "client_secret");
    }
  }

  lemma LengthsOfFields()
    ensures "token_url" != "client_id" && "tenant_id" != "client_id"
    ensures |"token_url"| == |"client_id"| == |"tenant_id"| == 9 && |"client_secret"| == 13
  {
    assert "token_url"[0] == 't' && "client_id"[0] == 'c' && "tenant_id"[0] == 't';
  }

  /** A provider is fine exactly when it has a name, an upstream and well-formed credentials. */
  lemma FaultOfProviderIs(p: ProviderConfig)
    ensures FaultOfProvider(p) == Some(NoName) <==> p.name == ""
    ensures FaultOfProvider(p) == Some(NoUpstream) <==> p.name != "" && p.upstream == ""
    ensures FaultOfProvider(p).None? <==> p.name != "" && p.upstream != "" && WellAuthorized(p)
  {
    WellAuthorizedIff(p);
    AuthFaultsDiffer(p);
  }

  lemma AuthFaultsDiffer(p: ProviderConfig)
    ensures FaultOfAuth(p.auth) != Some(NoName) && FaultOfAuth(p.auth) != Some(NoUpstream)
  {
    var fields := RequiredFields(Setting(p.auth, "type"));
    if fields.Some? { FirstLackingIs(p, fields.value); }
  }

  lemma OneField(p: ProviderConfig, field: string)
    ensures AllGiven(p, [field]) <==> Given(p, field)
  {
    assert [field][0] == field;
  }

  // ---------------------------------------------------------------- the verdict

  datatype Verdict =
    | Acceptable
    | NoTokens
    | TokenRefused(i: nat, tokenFault: TokenFault)
    | ProviderRefused(i: nat, providerFault: ProviderFault)
    | UnknownProvider(group: nat, member: nat)

  /** Nothing is wrong with the first `n`. */
  predicate TokensFine(tokens: seq<Auth.TokenEntry>, n: nat) {
    n <= |tokens| && forall i :: 0 <= i < n ==> FaultOfToken(tokens[i]).None?
  }

  predicate ProvidersFine(providers: seq<ProviderConfig>, n: nat) {
    n <= |providers| && forall i :: 0 <= i < n ==> FaultOfProvider(providers[i]).None?
  }

  function Names(providers: seq<ProviderConfig>): (names: set<string>)
    ensures forall name :: name in names <==> exists i :: 0 <= i < |providers| && providers[i].name == name
  {
    set i | 0 <= i < |providers| :: providers[i].name
  }

  predicate MembersKnown(names: set<string>, members: seq<string>, n: nat) {
    n <= |members| && forall k :: 0 <= k < n ==> members[k] in names
  }

  predicate GroupKnown(names: set<string>, g: FallbackGroup) {
    MembersKnown(names, g.providers, |g.providers|)
  }

  predicate GroupsKnown(names: set<string>, groups: seq<FallbackGroup>, n: nat) {
    n <= |groups| && forall g :: 0 <= g < n ==> GroupKnown(names, groups[g])
  }

  /** The verdict names the first thing that is wrong with the configuration. */
  predicate IsVerdict(config: Config, verdict: Verdict) {
    var (tokens, providers, groups) := (config.tokens, config.providers, config.groups);
    match verdict
    case Acceptable =>
      && tokens != [] && TokensFine(tokens, |tokens|) && ProvidersFine(providers, |providers|)
      && GroupsKnown(Names(providers), groups, |groups|)
    case NoTokens =>
      tokens == []
    case TokenRefused(i, fault) =>
      i < |tokens| && TokensFine(tokens, i) && FaultOfToken(tokens[i]) == Some(fault)
    case ProviderRefused(i, fault) =>
      && tokens != [] && TokensFine(tokens, |tokens|)
      && i < |providers| && ProvidersFine(providers, i) && FaultOfProvider(providers[i]) == Some(fault)
    case UnknownProvider(g, k) =>
      && tokens != [] && TokensFine(tokens, |tokens|) && ProvidersFine(providers, |providers|)
      && FirstUnknown(Names(providers), groups, g, k)
  }

  predicate FirstUnknown(names: set<string>, groups: seq<FallbackGroup>, g: nat, k: nat) {
    && g < |groups| && GroupsKnown(names, groups, g)
    && k < |groups[g].providers| && MembersKnown(names, groups[g].providers, k) && groups[g].providers[k] !in names
  }

  /** There is one verdict at most; so the configuration is accepted exactly when nothing is wrong with it. */
  lemma VerdictIsUnique(config: Config, v: Verdict, w: Verdict)
    requires IsVerdict(config, v) && IsVerdict(config, w)
    ensures v == w
  {
  }

  // ---------------------------------------------------------------- the loops

  method CheckTokens(tokens: seq<Auth.TokenEntry>) returns (bad: Option<(nat, TokenFault)>)
    ensures match bad
      case None => TokensFine(tokens, |tokens|)
      case Some((i, fault)) => i < |tokens| && TokensFine(tokens, i) && FaultOfToken(tokens[i]) == Some(fault)
  {
    for i := 0 to |tokens|
      invariant TokensFine(tokens, i)
    {
      var fault := FaultOfToken(tokens[i]);
      if fault.Some? {
        return Some((i, fault.value));
      }
    }
    return None;
  }

  /** The names seen on the way are the names of all the providers. */
  method CheckProviders(providers: seq<ProviderConfig>) returns (bad: Option<(nat, ProviderFault)>, names: set<string>)
    ensures match bad
      case None => ProvidersFine(providers, |providers|) && names == Names(providers)
      case Some((i, fault)) =>
        i < |providers| && ProvidersFine(providers, i) && FaultOfProvider(providers[i]) == Some(fault)
  {
    names := {};
    for i := 0 to |providers|
      invariant ProvidersFine(providers, i) && names == Names(providers[..i])
    {
      var fault := FaultOfProvider(providers[i]);
      if fault.Some? {
        return Some((i, fault.value)), names;
      }
      NextName(providers, i);
      names := names + {providers[i].name};
    }
    assert providers[..|providers|] == providers;
    bad := None;
  }

  lemma NextName(providers: seq<ProviderConfig>, i: nat)
    requires i < |providers|
    ensures Names(providers[..i + 1]) == Names(providers[..i]) + {providers[i].name}
  {
    var more, few := providers[..i + 1], providers[..i];
    assert forall j :: 0 <= j < i ==> more[j] == few[j];
    assert more[i] == providers[i];
  }

  method CheckGroups(names: set<string>, groups: seq<FallbackGroup>) returns (bad: Option<(nat, nat)>)
    ensures match bad
      case None => GroupsKnown(names, groups, |groups|)
      case Some((g, k)) => FirstUnknown(names, groups, g, k)
  {
    for g := 0 to |groups|
      invariant GroupsKnown(names, groups, g)
    {
      for k := 0 to |groups[g].providers|
        invariant MembersKnown(names, groups[g].providers, k)
      {
        if groups[g].providers[k] !in names {
          return Some((g, k));
        }
      }
    }
    return None;
  }

  method Validate(config: Config) returns (verdict: Verdict)
    ensures IsVerdict(config, verdict)
  {
    if |config.tokens| == 0 {
      return NoTokens;
    }
    var badToken := CheckTokens(config.tokens);
    if badToken.Some? {
      return TokenRefused(badToken.value.0, badToken.value.1);
    }
    var badProvider, names := CheckProviders(config.providers);
    if badProvider.Some? {
      return ProviderRefused(badProvider.value.0, badProvider.value.1);
    }
    var badMember := CheckGroups(names, config.groups);
    if badMember.Some? {
      return UnknownProvider(badMember.value.0, badMember.value.1);
    }
    return Acceptable;
  }

  /** What an accepted configuration has, in full. */
  lemma AcceptableIff(config: Config)
    ensures IsVerdict(config, Acceptable) <==>
            && |config.tokens| >= 1
            && (forall i :: 0 <= i < |config.tokens| ==> config.tokens[i].name != "" && config.tokens[i].token != "")
            && (forall i :: 0 <= i < |config.providers| ==>
                  && config.providers[i].name != "" && config.providers[i].upstream != ""
                  && WellAuthorized(config.providers[i]))
            && (forall g, k :: 0 <= g < |config.groups| && 0 <= k < |config.groups[g].providers| ==>
                  Configured(config.providers, config.groups[g].providers[k]))
  {
    TokensFineIs(config.tokens);
    ProvidersFineIs(config.providers);
    GroupsKnownIs(config.providers, config.groups);
  }

  lemma TokensFineIs(tokens: seq<Auth.TokenEntry>)
    ensures TokensFine(tokens, |tokens|) <==>
            forall i :: 0 <= i < |tokens| ==> tokens[i].name != "" && tokens[i].token != ""
  {
    forall i | 0 <= i < |tokens| { FaultOfTokenIs(tokens[i]); }
  }

  lemma ProvidersFineIs(providers: seq<ProviderConfig>)
    ensures ProvidersFine(providers, |providers|) <==>
            forall i :: 0 <= i < |providers| ==>
              providers[i].name != "" && providers[i].upstream != "" && WellAuthorized(providers[i])
  {
    forall i | 0 <= i < |providers|
      ensures FaultOfProvider(providers[i]).None? <==>
              providers[i].name != "" && providers[i].upstream != "" && WellAuthorized(providers[i])
    {
      FaultOfProviderIs(providers[i]);
    }
  }

  /** Some provider has this name. */
  predicate Configured(providers: seq<ProviderConfig>, name: string) {
    exists i :: 0 <= i < |providers| && providers[i].name == name
  }

  lemma GroupsKnownIs(providers: seq<ProviderConfig>, groups: seq<FallbackGroup>)
    ensures GroupsKnown(Names(providers), groups, |groups|) <==>
            forall g, k :: 0 <= g < |groups| && 0 <= k < |groups[g].providers| ==>
              Configured(providers, groups[g].providers[k])
  {
    var names := Names(providers);
    forall g | 0 <= g < |groups|
      ensures GroupKnown(names, groups[g]) <==>
              forall k :: 0 <= k < |groups[g].providers| ==> Configured(providers, groups[g].providers[k])
    {
      GroupKnownIs(providers, groups[g]);
    }
  }

  lemma GroupKnownIs(providers: seq<ProviderConfig>, g: FallbackGroup)
    ensures GroupKnown(Names(providers), g) <==>
            forall k :: 0 <= k < |g.providers| ==> Configured(providers, g.providers[k])
  {
    forall k | 0 <= k < |g.providers|
      ensures g.providers[k] in Names(providers) <==> Configured(providers, g.providers[k])
    {
      NamesIs(providers, g.providers[k]);
    }
  }

  lemma NamesIs(providers: seq<ProviderConfig>, name: string)
    ensures name in Names(providers) <==> Configured(providers, name)
  {
  }

  // ---------------------------------------------------------------- what an accepted configuration is good for

  /**
   * In an accepted configuration every candidate of every group is served, exactly when it has a usable
   * configuration: the check of references leaves only the set-up to fail.
   */
  lemma CandidateServedIff(config: Config, usable: ProviderConfig -> bool, provider: string, candidate: string)
    requires IsVerdict(config, Acceptable)
    requires provider in GroupMap(config.groups) && candidate in GroupMap(config.groups)[provider].providers
    ensures candidate in Names(config.providers)
    ensures candidate in Merged(AllProvided(config.providers, usable)) <==> CanBeSetUp(config, usable, candidate)
  {
    GroupMapIsLast(config.groups, provider);
    ServedByLastUsable(config.providers, usable, candidate);
  }

  /** A configuration of this name can be set up. */
  predicate CanBeSetUp(config: Config, usable: ProviderConfig -> bool, name: string) {
    exists i :: 0 <= i < |config.providers| && config.providers[i].name == name && usable(config.providers[i])
  }

  /** What `candidate` answers to the message as request number `n`: its upstream, or the proxy when it has none. */
  function Upstream(p: Proxy, n: nat, m: Message, candidate: string): Response
    requires HasPrefix(m.path, PREFIX)
  {
    if candidate in p.providers then p.upstreams(n, p.providers[candidate], m.(path := ParsePath(m.path).value.1))
    else NotFound("unknown provider: " + candidate)
  }

  /** What the candidates answer, or would, when they are asked one after the other. */
  function UpstreamAnswers(p: Proxy, n: nat, m: Message, candidates: seq<string>): (answers: seq<Response>)
    requires HasPrefix(m.path, PREFIX)
    ensures |answers| == |candidates|
    ensures forall i :: 0 <= i < |candidates| ==> answers[i] == Upstream(p, n + i, m, candidates[i])
  {
    seq(|candidates|, i requires 0 <= i < |candidates| => Upstream(p, n + i, m, candidates[i]))
  }

  /**
   * In an accepted configuration without slashes in the candidates' names, the attempts of a fallback are answered by
   * the candidates' own upstreams with the original message and its direct path; the proxy itself answers for exactly
   * those that it could not set up.
   */
  lemma AttemptsReachUpstreams(config: Config, usable: ProviderConfig -> bool, p: Proxy, n: nat, m: Message)
    requires IsVerdict(config, Acceptable)
    requires p.providers == Merged(AllProvided(config.providers, usable)) && HasPrefix(m.path, PREFIX)
    requires ExtractProvider(m.path) in GroupMap(config.groups)
    requires Lacking(GroupMap(config.groups)[ExtractProvider(m.path)].providers, '/')
    ensures var candidates := GroupMap(config.groups)[ExtractProvider(m.path)].providers;
            && (forall c :: c in candidates ==> (c in p.providers <==> CanBeSetUp(config, usable, c)))
            && p.AnswersTo(n, Attempts(m, ExtractProvider(m.path), candidates)) == UpstreamAnswers(p, n, m, candidates)
  {
    var provider := ExtractProvider(m.path);
    var candidates := GroupMap(config.groups)[provider].providers;
    forall c | c in candidates
      ensures c in p.providers <==> CanBeSetUp(config, usable, c)
    {
      CandidateServedIff(config, usable, provider, c);
    }
    AllDirect(p, n, m, candidates);
  }

  lemma AllDirect(p: Proxy, n: nat, m: Message, candidates: seq<string>)
    requires HasPrefix(m.path, PREFIX) && Lacking(candidates, '/')
    ensures p.AnswersTo(n, Attempts(m, ExtractProvider(m.path), candidates)) == UpstreamAnswers(p, n, m, candidates)
  {
    var attempts := Attempts(m, ExtractProvider(m.path), candidates);
    forall i | 0 <= i < |candidates|
      ensures p.AnswersTo(n, attempts)[i] == Upstream(p, n + i, m, candidates[i])
    {
      DirectAt(p, n, m, candidates[i], attempts, i);
    }
  }

  lemma DirectAt(p: Proxy, n: nat, m: Message, candidate: string, attempts: seq<Message>, i: nat)
    requires HasPrefix(m.path, PREFIX) && '/' !in candidate
    requires i < |attempts| && attempts[i] == Attempt(m, ExtractProvider(m.path), candidate)
    ensures p.AnswersTo(n, attempts)[i] == Upstream(p, n + i, m, candidate)
  {
    NthAnswer(p, n, attempts, i);
    DirectAnswer(p, n + i, m, candidate, attempts[i]);
  }

  lemma DirectAnswer(p: Proxy, n: nat, m: Message, candidate: string, attempt: Message)
    requires HasPrefix(m.path, PREFIX) && '/' !in candidate
    requires attempt == Attempt(m, ExtractProvider(m.path), candidate)
    ensures p.Answer(n, attempt) == Upstream(p, n, m, candidate)
  {
    if candidate in p.providers {
      AttemptIsDirect(p, n, m, candidate);
    } else {
      UnservedAnswer(p, n, m, candidate, attempt);
    }
  }

  /** What the candidates answer when each is asked for the original message with its rest of the path. */
  predicate AskedDirectly(p: Proxy, n: nat, m: Message, rest: string, candidates: seq<string>, answers: seq<Response>) {
    && |answers| == |candidates|
    && forall i :: 0 <= i < |answers| ==>
         if candidates[i] in p.providers then
           answers[i] == p.upstreams(n + i, p.providers[candidates[i]], m.(path := "/" + rest))
         else answers[i].status == 404 && answers[i].body == "unknown provider: " + candidates[i]
  }

  /** The first of these answers that is neither 429 nor at least 500 is given, or else 502. */
  predicate GivesFirst(answers: seq<Response>, w: nat, resp: Response, asked: nat) {
    && w <= |answers| && (forall i :: 0 <= i < w ==> answers[i].status == 429 || answers[i].status >= 500)
    && (if w < |answers| then
          answers[w].status != 429 && answers[w].status < 500 && resp == answers[w] && asked == w + 1
        else resp.status == 502 && resp.body == "all providers in fallback group failed" && asked == w)
  }

  /**
   * From a message to its answer, in an accepted configuration with slash-free names: a provider in a group is answered
   * by the first of the group's candidates that gives a final answer to the original message, body included; one that
   * could not be set up counts as a 404.
   */
  lemma GroupAnswers(
    config: Config, usable: ProviderConfig -> bool, h: Handler, n: nat, m: Message, provider: string, rest: string,
    resp: Response, sent: seq<Message>) returns (answers: seq<Response>, w: nat)
    requires IsVerdict(config, Acceptable) && h.providerToGroup == GroupMap(config.groups)
    requires h.proxy.providers == Merged(AllProvided(config.providers, usable))
    requires m.path == "/proxy/" + provider + "/" + rest || (m.path == "/proxy/" + provider && rest == "")
    requires '/' !in provider && provider in GroupMap(config.groups)
    requires Lacking(GroupMap(config.groups)[provider].providers, '/') && (m.body.Unread? || m.body.NoBody?)
    requires h.Handles(n, m, resp, sent)
    ensures forall c :: c in GroupMap(config.groups)[provider].providers ==>
              (c in h.proxy.providers <==> CanBeSetUp(config, usable, c))
    ensures AskedDirectly(h.proxy, n, m, rest, GroupMap(config.groups)[provider].providers, answers)
    ensures GivesFirst(answers, w, resp, |sent|)
  {
    var candidates := GroupMap(config.groups)[provider].providers;
    ProviderOf(m.path, provider, rest);
    BufferedIs(m);
    AttemptsReachUpstreams(config, usable, h.proxy, n, m);
    answers := UpstreamAnswers(h.proxy, n, m, candidates);
    w := FinalPlace(answers, Attempts(m, provider, candidates), resp, sent);
  }

  lemma ProviderOf(path: string, provider: string, rest: string)
    requires path == "/proxy/" + provider + "/" + rest || (path == "/proxy/" + provider && rest == "")
    requires '/' !in provider
    ensures HasPrefix(path, PREFIX) && ParsePath(path) == Some((provider, "/" + rest))
    ensures ExtractProvider(path) == provider
  {
    PathTogether(provider, rest);
    assert rest == "" ==> "/" + rest == "/";
    ParsePathOf(provider, rest);
    PrefixConcat(PREFIX, provider + ['/'] + rest);
    PrefixConcat(PREFIX, provider);
    RewriteParts(path, provider);
  }

  lemma FinalPlace(answers: seq<Response>, attempts: seq<Message>, resp: Response, sent: seq<Message>) returns (w: nat)
    requires |answers| == |attempts| && FirstFinal(answers, attempts, resp, sent)
    ensures GivesFirst(answers, w, resp, |sent|)
  {
    var v: nat :| v <= |answers| && FinalAt(answers, attempts, resp, sent, v);
    w := v;
  }
}
