/**
 * A receiver that verifies signatures by the rules of AWS Signature Version 4, and which of the requests that
 * internal/awssign/awssign.go signs it accepts.
 */
module Verifying {
  import opened Text
  import opened Lists
  import opened Http
  import opened UriEncode
  import opened QueryRule
  import opened PathRule
  import opened SpacingRule
  import opened Canonical
  import opened RequestRule
  import opened Signing

  // ---------------------------------------------------------------- reading the Authorization header

  datatype Claim = Claim(
    accessKeyID: string, dateStamp: string, region: string, service: string, names: seq<string>, signature: string)

  const CREDENTIAL := "AWS4-HMAC-SHA256 Credential="
  const SIGNED := " SignedHeaders="
  const SIGNATURE := " Signature="
  const REQUEST := "aws4_request"

  function ReadAuthorization(value: string): Option<Claim> {
    if !HasPrefix(value, CREDENTIAL) then None
    else
      match Cut(TrimPrefix(value, CREDENTIAL), ',')
      case None => None
      case Some((credential, rest)) =>
        if !HasPrefix(rest, SIGNED) then None
        else
          match Cut(TrimPrefix(rest, SIGNED), ',')
          case None => None
          case Some((signed, last)) =>
            if !HasPrefix(last, SIGNATURE) then None
            else ReadClaim(Split(credential, '/'), signed, TrimPrefix(last, SIGNATURE))
  }

  function ReadClaim(parts: seq<string>, signed: string, signature: string): Option<Claim> {
    if |parts| != 5 || parts[4] != REQUEST then None
    else Some(Claim(parts[0], parts[1], parts[2], parts[3], if signed == "" then [] else Split(signed, ';'), signature))
  }

  /** Nothing in the credential can be taken for a separator. */
  predicate PlainCredential(creds: Credentials, scope: Scope) {
    forall part :: part in [creds.accessKeyID, scope.dateStamp, scope.region, scope.service] ==>
      '/' !in part && ',' !in part
  }

  lemma CredentialParts(creds: Credentials, scope: Scope)
    requires PlainCredential(creds, scope)
    ensures var credential := creds.accessKeyID + "/" + CredentialScope(scope);
            && ',' !in credential
            && Split(credential, '/') == [creds.accessKeyID, scope.dateStamp, scope.region, scope.service, REQUEST]
  {
    var first := [creds.accessKeyID, scope.dateStamp, scope.region, scope.service];
    var parts := first + [REQUEST];
    CredentialIsJoined(creds, scope);
    RequestIsPlain();
    AllLacking(first, REQUEST, '/');
    AllLacking(first, REQUEST, ',');
    SplitJoin(parts, '/');
    JoinKeepsOut(parts, "/", ',');
    assert parts == [creds.accessKeyID, scope.dateStamp, scope.region, scope.service, REQUEST];
  }

  lemma CredentialIsJoined(creds: Credentials, scope: Scope)
    ensures creds.accessKeyID + "/" + CredentialScope(scope)
            == Join([creds.accessKeyID, scope.dateStamp, scope.region, scope.service, REQUEST], "/")
  {
    FiveParts(creds.accessKeyID, scope.dateStamp, scope.region, scope.service, REQUEST);
    assert "/aws4_request" == "/" + REQUEST;
  }

  lemma RequestIsPlain()
    ensures '/' !in REQUEST && ',' !in REQUEST
  {
  }

  lemma AllLacking(first: seq<string>, last: string, c: char)
    requires c !in last && forall part :: part in first ==> c !in part
    ensures Lacking(first + [last], c)
  {
  }

  lemma FiveParts(a: string, b: string, c: string, d: string, e: string)
    ensures Join([a, b, c, d, e], "/") == a + "/" + (b + "/" + c + "/" + d + ("/" + e))
  {
    FourParts(b, c, d, e);
    JoinConcat([a], [b, c, d, e], "/");
    assert [a] + [b, c, d, e] == [a, b, c, d, e];
  }

  lemma FourParts(a: string, b: string, c: string, d: string)
    ensures Join([a, b, c, d], "/") == a + "/" + b + "/" + c + ("/" + d)
  {
    JoinConcat([a, b], [c, d], "/");
    JoinConcat([a], [b], "/");
    JoinConcat([c], [d], "/");
    assert [a, b] + [c, d] == [a, b, c, d] && [a] + [b] == [a, b] && [c] + [d] == [c, d];
  }

  lemma AuthorizationParts(credential: string, signed: string, signature: string)
    ensures "AWS4-HMAC-SHA256 Credential=" + credential + ", SignedHeaders=" + signed + ", Signature=" + signature
            == CREDENTIAL + (credential + [','] + (SIGNED + (signed + [','] + (SIGNATURE + signature))))
  {
    assert ", SignedHeaders=" == [','] + SIGNED && ", Signature=" == [','] + SIGNATURE;
  }

  /** The receiver reads from the Authorization header what the signer put into it. */
  lemma AuthorizationRoundTrip(names: seq<string>, text: string, creds: Credentials, scope: Scope, d: Digests)
    requires PlainCredential(creds, scope) && forall i :: 0 <= i < |names| ==> IsToken(names[i])
    ensures ReadAuthorization(AuthorizationValue(names, text, creds, scope, d))
            == Some(Claim(creds.accessKeyID, scope.dateStamp, scope.region, scope.service, names,
                          Signature(text, creds, scope, d)))
  {
    var credential := creds.accessKeyID + "/" + CredentialScope(scope);
    var signed, signature := Join(names, ";"), Signature(text, creds, scope, d);
    CredentialParts(creds, scope);
    NamesArePlain(names);
    AuthorizationIs(names, text, creds, scope, d);
    AuthorizationParts(credential, signed, signature);
    ReadParts(credential, signed, signature);
  }

  lemma AuthorizationIs(names: seq<string>, text: string, creds: Credentials, scope: Scope, d: Digests)
    ensures AuthorizationValue(names, text, creds, scope, d)
            == "AWS4-HMAC-SHA256 Credential=" + (creds.accessKeyID + "/" + CredentialScope(scope))
               + ", SignedHeaders=" + Join(names, ";") + ", Signature=" + Signature(text, creds, scope, d)
  {
    Regroup("AWS4-HMAC-SHA256 Credential=", creds.accessKeyID, "/", CredentialScope(scope));
  }

  lemma NamesArePlain(names: seq<string>)
    requires forall i :: 0 <= i < |names| ==> IsToken(names[i])
    ensures ',' !in Join(names, ";")
    ensures names == if Join(names, ";") == "" then [] else Split(Join(names, ";"), ';')
  {
    forall i | 0 <= i < |names|
      ensures ',' !in names[i] && ';' !in names[i] && '\n' !in names[i]
    {
      TokenIsPlain(names[i]);
    }
    JoinKeepsOut(names, ";", ',');
    SignedLine(names);
  }

  lemma ReadParts(credential: string, signed: string, signature: string)
    requires ',' !in credential && ',' !in signed
    ensures ReadAuthorization(
              CREDENTIAL + (credential + [','] + (SIGNED + (signed + [','] + (SIGNATURE + signature)))))
            == ReadClaim(Split(credential, '/'), signed, signature)
  {
    var last := SIGNATURE + signature;
    var rest := SIGNED + (signed + [','] + last);
    PrefixConcat(CREDENTIAL, credential + [','] + rest);
    CutConcat(credential, ',', rest);
    PrefixConcat(SIGNED, signed + [','] + last);
    CutConcat(signed, ',', last);
    PrefixConcat(SIGNATURE, signature);
  }

  // ---------------------------------------------------------------- the receiver

  /** A message as it arrives. */
  datatype Arrival = Arrival(verb: string, path: string, query: Query, headers: Headers, body: string)

  function Chain(d: Digests, key: string, parts: seq<string>): string
    decreases |parts|
  {
    if parts == [] then key else Chain(d, d.hmac(key, parts[0]), parts[1..])
  }

  function ContentOf(m: Arrival, d: Digests): Content {
    Content(m.verb, m.path, m.query, m.headers, d.sha256Hex(m.body))
  }

  /** The string to sign, and the signature of it under a chained key. */
  function Expected(date: string, c: Claim, secret: string, text: string, d: Digests): string {
    var scope := [c.dateStamp, c.region, c.service, REQUEST];
    var toSign := Join(["AWS4-HMAC-SHA256", date, Join(scope, "/"), d.sha256Hex(text)], "\n");
    d.hex(d.hmac(Chain(d, "AWS4" + secret, scope), toSign))
  }

  /** Signature verification, with the secrets of all access keys. */
  ghost predicate Accepts(m: Arrival, style: Style, secretOf: string -> string, d: Digests) {
    match ReadAuthorization(Get(m.headers, AUTHORIZATION))
    case None => false
    case Some(c) =>
      c.signature
      == Expected(Get(m.headers, AMZ_DATE), c, secretOf(c.accessKeyID), RuleText(ContentOf(m, d), c.names, style), d)
  }

  function ClaimOf(names: seq<string>, creds: Credentials, scope: Scope, signature: string): Claim {
    Claim(creds.accessKeyID, scope.dateStamp, scope.region, scope.service, names, signature)
  }

  lemma ExpectedIsSignature(names: seq<string>, text: string, creds: Credentials, scope: Scope, d: Digests, s: string)
    ensures Expected(scope.amzDate, ClaimOf(names, creds, scope, s), creds.secretAccessKey, text, d)
            == Signature(text, creds, scope, d)
  {
    var parts := [scope.dateStamp, scope.region, scope.service, REQUEST];
    KeyIsChain(creds.secretAccessKey, scope, d);
    ScopeIsJoined(scope);
    FourLines("AWS4-HMAC-SHA256", scope.amzDate, CredentialScope(scope), d.sha256Hex(text));
    assert "AWS4-HMAC-SHA256\n" == "AWS4-HMAC-SHA256" + "\n";
  }

  lemma KeyIsChain(secret: string, scope: Scope, d: Digests)
    ensures Chain(d, "AWS4" + secret, [scope.dateStamp, scope.region, scope.service, REQUEST])
            == SigningKey(secret, scope, d)
  {
    var a, b, c := scope.dateStamp, scope.region, scope.service;
    var k1 := d.hmac("AWS4" + secret, a);
    var k2 := d.hmac(k1, b);
    var k3 := d.hmac(k2, c);
    ChainStep(d, "AWS4" + secret, a, [b, c, REQUEST]);
    ChainStep(d, k1, b, [c, REQUEST]);
    ChainStep(d, k2, c, [REQUEST]);
    ChainStep(d, k3, REQUEST, []);
    assert [a] + [b, c, REQUEST] == [a, b, c, REQUEST] && [b] + [c, REQUEST] == [b, c, REQUEST];
    assert [c] + [REQUEST] == [c, REQUEST] && [REQUEST] + [] == [REQUEST];
  }

  lemma ChainStep(d: Digests, key: string, part: string, rest: seq<string>)
    ensures Chain(d, key, [part] + rest) == Chain(d, d.hmac(key, part), rest)
  {
    assert ([part] + rest)[1..] == rest;
  }

  lemma ScopeIsJoined(scope: Scope)
    ensures CredentialScope(scope) == Join([scope.dateStamp, scope.region, scope.service, REQUEST], "/")
  {
    FourParts(scope.dateStamp, scope.region, scope.service, REQUEST);
    assert "/aws4_request" == "/" + REQUEST;
  }

  lemma FourLines(a: string, b: string, c: string, e: string)
    ensures Join([a, b, c, e], "\n") == a + "\n" + b + "\n" + c + "\n" + e
  {
    JoinConcat([a, b, c], [e], "\n");
    ThreeParts(a, b, c);
    assert [a, b, c] + [e] == [a, b, c, e];
  }

  // ---------------------------------------------------------------- who is accepted

  /** What `signRequest` leaves in a request whose body can be read. */
  ghost function SignedMessage(m: Arrival, host: string, creds: Credentials, scope: Scope, d: Digests): Arrival {
    m.(headers := Signed(m.verb, m.path, m.query, m.headers, host, m.body, creds, scope, d))
  }

  /** The message as it is when its canonical request is made. */
  function PreparedMessage(m: Arrival, host: string, creds: Credentials, scope: Scope, d: Digests): Arrival {
    m.(headers := Prepared(m.headers, host, d.sha256Hex(m.body), creds, scope))
  }

  /** The receiver accepts a message with the Authorization value of some text as if that text had arrived. */
  lemma AcceptsAs(
    m: Arrival, names: seq<string>, text: string, style: Style, creds: Credentials, scope: Scope,
    secretOf: string -> string, d: Digests)
    requires PlainCredential(creds, scope) && forall i :: 0 <= i < |names| ==> IsToken(names[i])
    requires Get(m.headers, AUTHORIZATION) == AuthorizationValue(names, text, creds, scope, d)
    requires Get(m.headers, AMZ_DATE) == scope.amzDate && secretOf(creds.accessKeyID) == creds.secretAccessKey
    ensures Accepts(m, style, secretOf, d) <==>
            Signature(text, creds, scope, d) == Signature(RuleText(ContentOf(m, d), names, style), creds, scope, d)
  {
    AuthorizationRoundTrip(names, text, creds, scope, d);
    ExpectedIsSignature(names, RuleText(ContentOf(m, d), names, style), creds, scope, d, Signature(text, creds, scope, d));
  }

  /** Different texts have different digests, and digests are single lines. */
  ghost predicate Faithful(d: Digests) {
    && (forall s, t :: d.sha256Hex(s) == d.sha256Hex(t) ==> s == t)
    && (forall k, s, t :: d.hmac(k, s) == d.hmac(k, t) ==> s == t)
    && (forall s, t :: d.hex(s) == d.hex(t) ==> s == t)
    && (forall s :: OneLine(d.sha256Hex(s)))
  }

  /** Each character after a mark that tells whether it stands for a newline. */
  function Marked(s: string): string {
    if s == "" then ""
    else (if s[0] == '\n' then ['n', 'n'] else ['c', s[0]]) + Marked(s[1..])
  }

  lemma {:induction false} MarkedInjective(s: string, t: string)
    requires Marked(s) == Marked(t)
    ensures s == t
    decreases |s|
  {
    if s != "" && t != "" {
      assert Marked(s)[0] == Marked(t)[0] && Marked(s)[1] == Marked(t)[1];
      assert Marked(s)[2..] == Marked(s[1..]) && Marked(t)[2..] == Marked(t[1..]);
      MarkedInjective(s[1..], t[1..]);
    }
  }

  lemma {:induction false} MarkedIsOneLine(s: string)
    ensures OneLine(Marked(s))
    decreases |s|
  {
    if s != "" { MarkedIsOneLine(s[1..]); }
  }

  lemma FaithfulDigestsExist() returns (d: Digests)
    ensures Faithful(d)
  {
    d := Digests(s => Marked(s), (k: string, s: string) => s, s => s);
    forall s, t | d.sha256Hex(s) == d.sha256Hex(t)
      ensures s == t
    {
      MarkedInjective(s, t);
    }
    forall s
      ensures OneLine(d.sha256Hex(s))
    {
      MarkedIsOneLine(s);
    }
  }

  lemma SignatureInjective(s: string, t: string, creds: Credentials, scope: Scope, d: Digests)
    requires Faithful(d) && Signature(s, creds, scope, d) == Signature(t, creds, scope, d)
    ensures s == t
  {
    var before := "AWS4-HMAC-SHA256\n" + scope.amzDate + "\n" + CredentialScope(scope) + "\n";
    DigestInjective(d, SigningKey(creds.secretAccessKey, scope, d), before, s, t);
  }

  lemma DigestInjective(d: Digests, key: string, before: string, s: string, t: string)
    requires Faithful(d)
    requires d.hex(d.hmac(key, before + d.sha256Hex(s))) == d.hex(d.hmac(key, before + d.sha256Hex(t)))
    ensures s == t
  {
    SameTail(before, d.sha256Hex(s), d.sha256Hex(t));
  }

  lemma SameTail(before: string, s: string, t: string)
    requires before + s == before + t
    ensures s == t
  {
    assert s == (before + s)[|before|..] && t == (before + t)[|before|..];
  }

  /** With faithful digests, the receiver accepts a message only if it makes the very text of it that was signed. */
  lemma AcceptsIffText(
    m: Arrival, names: seq<string>, text: string, style: Style, creds: Credentials, scope: Scope,
    secretOf: string -> string, d: Digests)
    requires PlainCredential(creds, scope) && forall i :: 0 <= i < |names| ==> IsToken(names[i])
    requires Get(m.headers, AUTHORIZATION) == AuthorizationValue(names, text, creds, scope, d)
    requires Get(m.headers, AMZ_DATE) == scope.amzDate && secretOf(creds.accessKeyID) == creds.secretAccessKey
    ensures text == RuleText(ContentOf(m, d), names, style) ==> Accepts(m, style, secretOf, d)
    ensures Faithful(d) ==> (Accepts(m, style, secretOf, d) <==> text == RuleText(ContentOf(m, d), names, style))
  {
    AcceptsAs(m, names, text, style, creds, scope, secretOf, d);
    SignatureIff(text, RuleText(ContentOf(m, d), names, style), creds, scope, d);
  }

  lemma SignatureIff(s: string, t: string, creds: Credentials, scope: Scope, d: Digests)
    ensures Faithful(d) ==> (Signature(s, creds, scope, d) == Signature(t, creds, scope, d) <==> s == t)
  {
    if Faithful(d) && Signature(s, creds, scope, d) == Signature(t, creds, scope, d) {
      SignatureInjective(s, t, creds, scope, d);
    }
  }

  /** Under this condition the message is accepted, whatever the digests are; with faithful digests, only then. */
  ghost predicate AcceptedWhen(m: Arrival, condition: bool, style: Style, secretOf: string -> string, d: Digests) {
    (condition ==> Accepts(m, style, secretOf, d)) && (Faithful(d) ==> Accepts(m, style, secretOf, d) == condition)
  }

  /** The message carries the Authorization value and the date that signing gave to this other one. */
  ghost predicate Carries(m: Arrival, signed: Arrival, creds: Credentials, scope: Scope, d: Digests) {
    var names := SignedNames(signed.headers);
    && Get(m.headers, AUTHORIZATION)
       == AuthorizationValue(names, CodeText(ContentOf(signed, d), names), creds, scope, d)
    && Get(m.headers, AMZ_DATE) == scope.amzDate
  }

  lemma CarriedIsAcceptedIff(
    m: Arrival, signed: Arrival, style: Style, creds: Credentials, scope: Scope,
    secretOf: string -> string, d: Digests)
    requires PlainCredential(creds, scope) && secretOf(creds.accessKeyID) == creds.secretAccessKey
    requires TokenHeaders(signed.headers) && Carries(m, signed, creds, scope, d)
    ensures var names := SignedNames(signed.headers);
            AcceptedWhen(m, RuleText(ContentOf(m, d), names, style) == CodeText(ContentOf(signed, d), names),
                         style, secretOf, d)
  {
    var names := SignedNames(signed.headers);
    SignedNamesAreTokens(signed.headers);
    AcceptsIffText(m, names, CodeText(ContentOf(signed, d), names), style, creds, scope, secretOf, d);
  }

  /** What the rule makes of one message and the code of another, over the names signed in the other. */
  ghost predicate SaysTheSame(m: Arrival, signed: Arrival, style: Style, d: Digests) {
    var names := SignedNames(signed.headers);
    RuleParts(ContentOf(m, d), names, style) == CodeParts(ContentOf(signed, d), names)
  }

  ghost predicate BothReadable(m: Arrival, signed: Arrival, d: Digests) {
    var names := SignedNames(signed.headers);
    TokenHeaders(signed.headers) && WellFormed(ContentOf(signed, d), names) && WellFormed(ContentOf(m, d), names)
  }

  lemma SaysTheSameIff(m: Arrival, signed: Arrival, style: Style, d: Digests)
    requires BothReadable(m, signed, d)
    ensures var names := SignedNames(signed.headers);
            (RuleText(ContentOf(m, d), names, style) == CodeText(ContentOf(signed, d), names))
            == SaysTheSame(m, signed, style, d)
  {
    SignedNamesAreTokens(signed.headers);
    SignedNamesAreSorted(signed.headers);
    SameTextIff(ContentOf(m, d), ContentOf(signed, d), SignedNames(signed.headers), style);
  }

  /**
   * A message that carries the Authorization value and the date of a signed one is accepted exactly when, read by the
   * rule, it says what the signer's code says of the signed one: method, path, query, signed values and body digest.
   */
  lemma AcceptedIff(
    m: Arrival, signed: Arrival, style: Style, creds: Credentials, scope: Scope,
    secretOf: string -> string, d: Digests)
    requires PlainCredential(creds, scope) && secretOf(creds.accessKeyID) == creds.secretAccessKey
    requires BothReadable(m, signed, d) && Carries(m, signed, creds, scope, d)
    ensures AcceptedWhen(m, SaysTheSame(m, signed, style, d), style, secretOf, d)
  {
    CarriedIsAcceptedIff(m, signed, style, creds, scope, secretOf, d);
    SaysTheSameIff(m, signed, style, d);
  }

  /**
   * So an accepted message has the method, the query, the body and the signed values of the signed one, and its path,
   * if the rule leaves the path of the message alone.
   */
  lemma AcceptedIsUnaltered(
    m: Arrival, signed: Arrival, style: Style, creds: Credentials, scope: Scope,
    secretOf: string -> string, d: Digests)
    requires Faithful(d) && PlainCredential(creds, scope) && secretOf(creds.accessKeyID) == creds.secretAccessKey
    requires BothReadable(m, signed, d) && Carries(m, signed, creds, scope, d)
    requires Accepts(m, style, secretOf, d)
    ensures m.verb == signed.verb && m.body == signed.body
    ensures multiset(SortedPairs(m.query)) == multiset(SortedPairs(signed.query))
    ensures style.rounds >= 1 && PathKept(m.path, style) && m.path != "" && signed.path != "" ==> m.path == signed.path
    ensures forall i :: 0 <= i < |SignedNames(signed.headers)| ==>
      RuleHeader(m.headers, SignedNames(signed.headers)[i]) == HeaderValue(signed.headers, SignedNames(signed.headers)[i])
  {
    AcceptedIff(m, signed, style, creds, scope, secretOf, d);
    SameParts(ContentOf(m, d), ContentOf(signed, d), SignedNames(signed.headers), style);
  }

  lemma SameParts(m: Content, s: Content, names: seq<string>, style: Style)
    requires RuleParts(m, names, style) == CodeParts(s, names) && ByteQuery(m.query) && ByteQuery(s.query)
    ensures m.verb == s.verb && m.hash == s.hash
    ensures multiset(SortedPairs(m.query)) == multiset(SortedPairs(s.query))
    ensures style.rounds >= 1 && PathKept(m.path, style) && m.path != "" && s.path != "" ==> m.path == s.path
    ensures forall i :: 0 <= i < |names| ==> RuleHeader(m.headers, names[i]) == HeaderValue(s.headers, names[i])
  {
    SameQueryPairs(m.query, s.query);
    UriPathIs(s.path);
    if style.rounds >= 1 { RulePathIff(m.path, style); }
    forall i | 0 <= i < |names|
      ensures RuleHeader(m.headers, names[i]) == HeaderValue(s.headers, names[i])
    {
      assert RuleParts(m, names, style).values[i] == CodeParts(s, names).values[i];
    }
  }

  /** What was signed is well-formed, and an Authorization value that takes the place of a signed one is a line. */
  ghost predicate Readable(prepared: Arrival, sent: Arrival, d: Digests) {
    && WellFormed(ContentOf(prepared, d), SignedNames(prepared.headers))
    && (CanonicalKey(AUTHORIZATION) in prepared.headers ==> OneLine(Get(sent.headers, AUTHORIZATION)))
  }

  /** The receiver reads the message, as it was sent, as it was signed. */
  ghost predicate SentFits(prepared: Arrival, sent: Arrival, style: Style, d: Digests) {
    Fits(ContentOf(prepared, d), AUTHORIZATION, Get(sent.headers, AUTHORIZATION), style)
  }

  /**
   * A request that arrives as it was signed and sent is accepted, whatever the digests are, when it conforms to the
   * rule, its Authorization header aside, and had none before it was signed, or one that read as the new one does;
   * with faithful digests, only then.
   */
  lemma SignedIsAcceptedIff(
    m: Arrival, host: string, style: Style, creds: Credentials, scope: Scope, secretOf: string -> string, d: Digests)
    requires CanonicalHeaders(m.headers) && style.rounds >= 1
    requires PlainCredential(creds, scope) && secretOf(creds.accessKeyID) == creds.secretAccessKey
    requires Readable(PreparedMessage(m, host, creds, scope, d), SignedMessage(m, host, creds, scope, d), d)
    ensures var prepared, sent := PreparedMessage(m, host, creds, scope, d), SignedMessage(m, host, creds, scope, d);
            AcceptedWhen(sent, SentFits(prepared, sent, style, d), style, secretOf, d)
  {
    var prepared, sent := PreparedMessage(m, host, creds, scope, d), SignedMessage(m, host, creds, scope, d);
    PreparedIsCanonical(m.headers, host, d.sha256Hex(m.body), creds, scope);
    SentCarries(m, host, creds, scope, d);
    SentIsAcceptedIff(prepared, sent, style, creds, scope, secretOf, d);
  }

  lemma SentIsAcceptedIff(
    prepared: Arrival, sent: Arrival, style: Style, creds: Credentials, scope: Scope,
    secretOf: string -> string, d: Digests)
    requires CanonicalHeaders(prepared.headers) && style.rounds >= 1
    requires PlainCredential(creds, scope) && secretOf(creds.accessKeyID) == creds.secretAccessKey
    requires Readable(prepared, sent, d) && Carries(sent, prepared, creds, scope, d) && SentAs(prepared, sent)
    ensures AcceptedWhen(sent, SentFits(prepared, sent, style, d), style, secretOf, d)
  {
    CarriedIsAcceptedIff(sent, prepared, style, creds, scope, secretOf, d);
    ReceiverAgreesIff(ContentOf(prepared, d), AUTHORIZATION, Get(sent.headers, AUTHORIZATION), style);
  }

  lemma SentCarries(m: Arrival, host: string, creds: Credentials, scope: Scope, d: Digests)
    ensures var prepared, sent := PreparedMessage(m, host, creds, scope, d), SignedMessage(m, host, creds, scope, d);
            Carries(sent, prepared, creds, scope, d) && SentAs(prepared, sent)
  {
    DateIsKept(m, host, creds, scope, d);
    assert SentAs(PreparedMessage(m, host, creds, scope, d), SignedMessage(m, host, creds, scope, d));
  }

  /** Nothing but an Authorization header was added. */
  ghost predicate SentAs(prepared: Arrival, sent: Arrival) {
    sent == prepared.(headers := Set(prepared.headers, AUTHORIZATION, Get(sent.headers, AUTHORIZATION)))
  }

  lemma DateIsKept(m: Arrival, host: string, creds: Credentials, scope: Scope, d: Digests)
    ensures Get(SignedMessage(m, host, creds, scope, d).headers, AMZ_DATE) == scope.amzDate
  {
    OtherNames();
    var prepared := Prepared(m.headers, host, d.sha256Hex(m.body), creds, scope);
    var text := SignedText(m.verb, m.path, m.query, prepared, d.sha256Hex(m.body));
    PreparedKeepsDate(m.headers, host, d.sha256Hex(m.body), creds, scope);
    SetElsewhere(prepared, AUTHORIZATION, AuthorizationValue(SignedNames(prepared), text, creds, scope, d), AMZ_DATE);
  }

  lemma PreparedKeepsDate(headers: Headers, host: string, hash: string, creds: Credentials, scope: Scope)
    ensures Get(Prepared(headers, host, hash, creds, scope), AMZ_DATE) == scope.amzDate
  {
    OtherNames();
    var dated := Set(headers, AMZ_DATE, scope.amzDate);
    var hashed := Set(dated, AMZ_CONTENT, hash);
    SetElsewhere(dated, AMZ_CONTENT, hash, AMZ_DATE);
    var tokened := if creds.sessionToken != "" then Set(hashed, AMZ_TOKEN, creds.sessionToken) else hashed;
    SetElsewhere(hashed, AMZ_TOKEN, creds.sessionToken, AMZ_DATE);
    SetElsewhere(tokened, HOST, host, AMZ_DATE);
  }

  // ---------------------------------------------------------------- an Authorization header before signing

  lemma AuthorizationBegins(names: seq<string>, text: string, creds: Credentials, scope: Scope, d: Digests)
    ensures HasPrefix(AuthorizationValue(names, text, creds, scope, d), CREDENTIAL)
  {
    AuthorizationIs(names, text, creds, scope, d);
    AuthorizationParts(creds.accessKeyID + "/" + CredentialScope(scope), Join(names, ";"),
                       Signature(text, creds, scope, d));
  }

  lemma CredentialIsTidy()
    ensures CREDENTIAL != "" && SingleSpaced(CREDENTIAL)
    ensures !IsSpace(CREDENTIAL[0]) && !IsSpace(CREDENTIAL[|CREDENTIAL| - 1])
  {
  }

  /** The header was of another kind, such as a bearer token, or was not there. */
  predicate OtherKind(headers: Headers) {
    !HasPrefix(HeaderValue(headers, AUTHORIZATION), CREDENTIAL)
  }

  /**
   * With faithful digests, a request whose Authorization header, if it had one before it was signed, was of another
   * kind is accepted exactly when it had none and conforms to the rule.
   */
  lemma OtherKindIff(
    m: Arrival, host: string, style: Style, creds: Credentials, scope: Scope, secretOf: string -> string, d: Digests)
    requires CanonicalHeaders(m.headers) && OtherKind(m.headers) && style.rounds >= 1 && Faithful(d)
    requires PlainCredential(creds, scope) && secretOf(creds.accessKeyID) == creds.secretAccessKey
    requires Readable(PreparedMessage(m, host, creds, scope, d), SignedMessage(m, host, creds, scope, d), d)
    ensures var prepared := PreparedMessage(m, host, creds, scope, d);
            Accepts(SignedMessage(m, host, creds, scope, d), style, secretOf, d)
            == (CanonicalKey(AUTHORIZATION) !in m.headers
                && Conforms(ContentOf(prepared, d), SignedNames(prepared.headers), style))
  {
    var prepared, sent := PreparedMessage(m, host, creds, scope, d), SignedMessage(m, host, creds, scope, d);
    SignedIsAcceptedIff(m, host, style, creds, scope, secretOf, d);
    PreparedIsCanonical(m.headers, host, d.sha256Hex(m.body), creds, scope);
    PreparedIsOtherKind(m, host, creds, scope, d);
    SentBegins(m, host, creds, scope, d);
    OtherKindAcceptedIff(prepared, sent, style, secretOf, d);
  }

  lemma OtherKindAcceptedIff(
    prepared: Arrival, sent: Arrival, style: Style, secretOf: string -> string, d: Digests)
    requires OtherKind(prepared.headers) && HasPrefix(Get(sent.headers, AUTHORIZATION), CREDENTIAL)
    requires Faithful(d) && AcceptedWhen(sent, SentFits(prepared, sent, style, d), style, secretOf, d)
    ensures Accepts(sent, style, secretOf, d)
            == (CanonicalKey(AUTHORIZATION) !in prepared.headers
                && Conforms(ContentOf(prepared, d), SignedNames(prepared.headers), style))
  {
    OtherKindFitsIff(ContentOf(prepared, d), Get(sent.headers, AUTHORIZATION), style);
  }

  lemma PreparedIsOtherKind(m: Arrival, host: string, creds: Credentials, scope: Scope, d: Digests)
    requires OtherKind(m.headers)
    ensures OtherKind(PreparedMessage(m, host, creds, scope, d).headers)
  {
    OtherNames();
    PreparedKeeps(m.headers, host, d.sha256Hex(m.body), creds, scope, AUTHORIZATION);
  }

  lemma SentBegins(m: Arrival, host: string, creds: Credentials, scope: Scope, d: Digests)
    ensures HasPrefix(Get(SignedMessage(m, host, creds, scope, d).headers, AUTHORIZATION), CREDENTIAL)
  {
    SentCarries(m, host, creds, scope, d);
    var prepared := PreparedMessage(m, host, creds, scope, d);
    var names := SignedNames(prepared.headers);
    AuthorizationBegins(names, CodeText(ContentOf(prepared, d), names), creds, scope, d);
  }

  lemma OtherKindFitsIff(c: Content, auth: string, style: Style)
    requires OtherKind(c.headers) && HasPrefix(auth, CREDENTIAL)
    ensures Fits(c, AUTHORIZATION, auth, style)
            == (CanonicalKey(AUTHORIZATION) !in c.headers && Conforms(c, SignedNames(c.headers), style))
  {
    CredentialIsTidy();
    OtherBeginning(c.headers, AUTHORIZATION, auth, CREDENTIAL);
    if CanonicalKey(AUTHORIZATION) !in c.headers { FitsWithout(c, AUTHORIZATION, auth, style); }
  }
}
