/** `signRequest` of internal/awssign/awssign.go, over arbitrary digest functions. */
module Signing {
  import opened Text
  import opened Http
  import opened UriEncode
  import opened Canonical

  datatype Credentials = Credentials(accessKeyID: string, secretAccessKey: string, sessionToken: string)

  /** Who signs what, and when: the date as a day and as an instant. */
  datatype Scope = Scope(region: string, service: string, dateStamp: string, amzDate: string)

  /** SHA-256 in hexadecimal, HMAC-SHA-256, and hexadecimal. */
  datatype Digests = Digests(sha256Hex: string -> string, hmac: (string, string) -> string, hex: string -> string)

  const AUTHORIZATION := "Authorization"
  const AMZ_DATE := "X-Amz-Date"
  const AMZ_CONTENT := "X-Amz-Content-Sha256"
  const AMZ_TOKEN := "X-Amz-Security-Token"
  const HOST := "Host"

  function CredentialScope(scope: Scope): string {
    scope.dateStamp + "/" + scope.region + "/" + scope.service + "/aws4_request"
  }

  function SigningKey(secretKey: string, scope: Scope, d: Digests): string {
    d.hmac(d.hmac(d.hmac(d.hmac("AWS4" + secretKey, scope.dateStamp), scope.region), scope.service), "aws4_request")
  }

  function Signature(text: string, creds: Credentials, scope: Scope, d: Digests): string {
    var toSign := "AWS4-HMAC-SHA256\n" + scope.amzDate + "\n" + CredentialScope(scope) + "\n" + d.sha256Hex(text);
    d.hex(d.hmac(SigningKey(creds.secretAccessKey, scope, d), toSign))
  }

  function AuthorizationValue(names: seq<string>, text: string, creds: Credentials, scope: Scope, d: Digests): string {
    "AWS4-HMAC-SHA256 Credential=" + creds.accessKeyID + "/" + CredentialScope(scope)
    + ", SignedHeaders=" + Join(names, ";") + ", Signature=" + Signature(text, creds, scope, d)
  }

  /** The text over which the request is signed. */
  ghost function SignedText(verb: string, path: string, query: Query, headers: Headers, hash: string): string {
    CanonicalText(verb, path, query, headers, SignedNames(headers), hash)
  }

  /** The headers that are signed. */
  function Prepared(headers: Headers, host: string, hash: string, creds: Credentials, scope: Scope): Headers {
    var dated := Set(Set(headers, AMZ_DATE, scope.amzDate), AMZ_CONTENT, hash);
    var tokened := if creds.sessionToken != "" then Set(dated, AMZ_TOKEN, creds.sessionToken) else dated;
    if Get(tokened, HOST) == "" then Set(tokened, HOST, host) else tokened
  }

  /** The body is read as a whole and put back. */
  method BufferBody(req: Request) returns (ok: bool, body: string)
    modifies req`body
    ensures ok <==> !old(req.body).Broken?
    ensures ok ==> body == Content(old(req.body))
    ensures ok ==> req.body == if old(req.body).NoBody? then NoBody else Unread(body)
  {
    if req.body.NoBody? {
      return true, "";
    }
    if req.body.Broken? {
      return false, "";
    }
    body := Content(req.body);
    req.body := Unread(body);
    return true, body;
  }

  method SetRequiredHeaders(req: Request, payloadHash: string, creds: Credentials, scope: Scope)
    modifies req`headers
    ensures req.headers == Prepared(old(req.headers), req.host, payloadHash, creds, scope)
  {
    req.headers := Set(req.headers, AMZ_DATE, scope.amzDate);
    req.headers := Set(req.headers, AMZ_CONTENT, payloadHash);
    if creds.sessionToken != "" {
      req.headers := Set(req.headers, AMZ_TOKEN, creds.sessionToken);
    }
    if Get(req.headers, HOST) == "" {
      req.headers := Set(req.headers, HOST, req.host);
    }
  }

  method Authorize(req: Request, payloadHash: string, creds: Credentials, scope: Scope, d: Digests)
    modifies req`headers
    ensures var text := SignedText(req.verb, req.path, req.query, old(req.headers), payloadHash);
            var value := AuthorizationValue(SignedNames(old(req.headers)), text, creds, scope, d);
            req.headers == Set(old(req.headers), AUTHORIZATION, value)
  {
    var signedHeaders := BuildSignedHeaders(req.headers);
    var text := BuildCanonicalRequest(req.verb, req.path, req.query, req.headers, signedHeaders, payloadHash);
    var value := AuthorizationValue(signedHeaders, text, creds, scope, d);
    req.headers := Set(req.headers, AUTHORIZATION, value);
  }

  /** The headers of the signed request. */
  ghost function Signed(
    verb: string, path: string, query: Query, headers: Headers, host: string, body: string,
    creds: Credentials, scope: Scope, d: Digests): Headers
  {
    var hash := d.sha256Hex(body);
    var prepared := Prepared(headers, host, hash, creds, scope);
    var text := SignedText(verb, path, query, prepared, hash);
    Set(prepared, AUTHORIZATION, AuthorizationValue(SignedNames(prepared), text, creds, scope, d))
  }

  method SignRequest(req: Request, creds: Credentials, scope: Scope, d: Digests) returns (ok: bool)
    modifies req`headers, req`body
    ensures ok <==> !old(req.body).Broken?
    ensures !ok ==> req.headers == old(req.headers)
    ensures old(req.body).Unread? || old(req.body).NoBody? ==> req.body == old(req.body)
    ensures old(req.body).Spent? ==> req.body == Unread("")
    ensures ok ==>
      var bytes := if old(req.body).Unread? then old(req.body).bytes else "";
      req.headers == Signed(req.verb, req.path, req.query, old(req.headers), req.host, bytes, creds, scope, d)
  {
    var body;
    ok, body := BufferBody(req);
    if !ok {
      return;
    }
    var payloadHash := d.sha256Hex(body);
    SetRequiredHeaders(req, payloadHash, creds, scope);
    Authorize(req, payloadHash, creds, scope, d);
  }

  lemma AmzNames()
    ensures IsToken(AMZ_DATE) && IsToken(AMZ_CONTENT) && IsToken(AMZ_TOKEN)
  {
  }

  lemma OtherNames()
    ensures IsToken(HOST) && IsToken(AUTHORIZATION)
    ensures |AUTHORIZATION| == 13 && |HOST| == 4 && |AMZ_DATE| == 10 && |AMZ_CONTENT| == 20 && |AMZ_TOKEN| == 20
  {
  }

  /** The header names as they are written on the wire. */
  lemma NamesAre()
    ensures AMZ_DATE == "X-Amz-Date" && AMZ_CONTENT == "X-Amz-Content-Sha256" && AMZ_TOKEN == "X-Amz-Security-Token"
    ensures HOST == "Host" && AUTHORIZATION == "Authorization"
  {
  }

  lemma NamesDiffer()
    ensures var date, content, token, host := CanonicalKey(AMZ_DATE), CanonicalKey(AMZ_CONTENT),
                                              CanonicalKey(AMZ_TOKEN), CanonicalKey(HOST);
            date != content && date != token && date != host && content != token && content != host && token != host
    ensures var auth := CanonicalKey(AUTHORIZATION);
            auth != CanonicalKey(AMZ_DATE) && auth != CanonicalKey(AMZ_CONTENT) && auth != CanonicalKey(AMZ_TOKEN)
            && auth != CanonicalKey(HOST)
  {
    AmzNames();
    OtherNames();
    assert AMZ_CONTENT[5] == AMZ_TOKEN[5] == '-' && AMZ_CONTENT[6] == 'C' && AMZ_TOKEN[6] == 'S';
    SeventhDiffers(AMZ_CONTENT, AMZ_TOKEN);
    LengthsDiffer(AMZ_DATE, AMZ_CONTENT);
    LengthsDiffer(AMZ_DATE, AMZ_TOKEN);
    LengthsDiffer(AMZ_DATE, HOST);
    LengthsDiffer(AMZ_CONTENT, HOST);
    LengthsDiffer(AMZ_TOKEN, HOST);
    LengthsDiffer(AUTHORIZATION, AMZ_DATE);
    LengthsDiffer(AUTHORIZATION, AMZ_CONTENT);
    LengthsDiffer(AUTHORIZATION, AMZ_TOKEN);
    LengthsDiffer(AUTHORIZATION, HOST);
  }

  lemma LengthsDiffer(name: string, other: string)
    requires |name| != |other|
    ensures CanonicalKey(name) != CanonicalKey(other)
  {
    assert |CanonicalKey(name)| == |name| && |CanonicalKey(other)| == |other|;
  }

  lemma SeventhDiffers(name: string, other: string)
    requires IsToken(name) && IsToken(other) && |name| > 6 && |other| > 6 && name[5] == other[5] == '-'
    requires 'A' <= name[6] <= 'Z' && 'A' <= other[6] <= 'Z' && name[6] != other[6]
    ensures CanonicalKey(name) != CanonicalKey(other)
  {
    CanonicalKeyAt(name, 6);
    CanonicalKeyAt(other, 6);
  }

  /** Three headers set, the second of them only if it has a value, and a fourth that is filled in when it is missing. */
  lemma FilledIs(
    headers: Headers, date: string, amzDate: string, content: string, hash: string, token: string, session: string,
    host: string, default: string, other: string)
    requires var a, b, c, e := CanonicalKey(date), CanonicalKey(content), CanonicalKey(token), CanonicalKey(host);
             a != b && a != c && a != e && b != c && b != e && c != e
    ensures var dated := Set(Set(headers, date, amzDate), content, hash);
            var tokened := if session != "" then Set(dated, token, session) else dated;
            var filled := if Get(tokened, host) == "" then Set(tokened, host, default) else tokened;
            && Values(filled, date) == [amzDate] && Values(filled, content) == [hash]
            && Values(filled, token) == (if session != "" then [session] else Values(headers, token))
            && Values(filled, host) == (if Get(headers, host) == "" then [default] else Values(headers, host))
    ensures var dated := Set(Set(headers, date, amzDate), content, hash);
            var tokened := if session != "" then Set(dated, token, session) else dated;
            var filled := if Get(tokened, host) == "" then Set(tokened, host, default) else tokened;
            CanonicalKey(other) !in
              {CanonicalKey(date), CanonicalKey(content), CanonicalKey(token), CanonicalKey(host)} ==>
              Values(filled, other) == Values(headers, other)
  {
  }

  /** What is signed: the date, the digest of the body, the session token if there is one, a host, and all the rest. */
  lemma PreparedIs(headers: Headers, host: string, hash: string, creds: Credentials, scope: Scope, other: string)
    ensures var p := Prepared(headers, host, hash, creds, scope);
            && Values(p, AMZ_DATE) == [scope.amzDate] && Values(p, AMZ_CONTENT) == [hash]
            && Values(p, AMZ_TOKEN)
               == (if creds.sessionToken != "" then [creds.sessionToken] else Values(headers, AMZ_TOKEN))
            && Values(p, HOST) == (if Get(headers, HOST) == "" then [host] else Values(headers, HOST))
    ensures CanonicalKey(other) !in
              {CanonicalKey(AMZ_DATE), CanonicalKey(AMZ_CONTENT), CanonicalKey(AMZ_TOKEN), CanonicalKey(HOST)} ==>
              Values(Prepared(headers, host, hash, creds, scope), other) == Values(headers, other)
  {
    NamesDiffer();
    FilledIs(headers, AMZ_DATE, scope.amzDate, AMZ_CONTENT, hash, AMZ_TOKEN, creds.sessionToken, HOST, host, other);
  }

  lemma SetElsewhere(headers: Headers, name: string, value: string, other: string)
    requires |name| != |other|
    ensures Values(Set(headers, name, value), other) == Values(headers, other)
    ensures CanonicalKey(other) in Set(headers, name, value) <==> CanonicalKey(other) in headers
  {
    assert |CanonicalKey(name)| != |CanonicalKey(other)|;
  }

  /** A header whose name has another length than those that signing sets before it signs is left alone. */
  lemma PreparedKeeps(headers: Headers, host: string, hash: string, creds: Credentials, scope: Scope, name: string)
    requires |name| !in {|AMZ_DATE|, |AMZ_CONTENT|, |AMZ_TOKEN|, |HOST|}
    ensures Values(Prepared(headers, host, hash, creds, scope), name) == Values(headers, name)
    ensures CanonicalKey(name) in Prepared(headers, host, hash, creds, scope) <==> CanonicalKey(name) in headers
  {
    var dated := Set(headers, AMZ_DATE, scope.amzDate);
    var hashed := Set(dated, AMZ_CONTENT, hash);
    var tokened := if creds.sessionToken != "" then Set(hashed, AMZ_TOKEN, creds.sessionToken) else hashed;
    SetElsewhere(headers, AMZ_DATE, scope.amzDate, name);
    SetElsewhere(dated, AMZ_CONTENT, hash, name);
    SetElsewhere(hashed, AMZ_TOKEN, creds.sessionToken, name);
    SetElsewhere(tokened, HOST, host, name);
  }

  lemma PreparedStaysCanonical(headers: Headers, host: string, hash: string, creds: Credentials, scope: Scope)
    requires CanonicalHeaders(headers)
    ensures CanonicalHeaders(Prepared(headers, host, hash, creds, scope))
  {
    AmzNames();
    OtherNames();
    var dated := Set(headers, AMZ_DATE, scope.amzDate);
    var hashed := Set(dated, AMZ_CONTENT, hash);
    var tokened := if creds.sessionToken != "" then Set(hashed, AMZ_TOKEN, creds.sessionToken) else hashed;
    SetKeepsCanonical(headers, AMZ_DATE, scope.amzDate);
    SetKeepsCanonical(dated, AMZ_CONTENT, hash);
    SetKeepsCanonical(hashed, AMZ_TOKEN, creds.sessionToken);
    SetKeepsCanonical(tokened, HOST, host);
  }

  lemma PreparedIsCanonical(headers: Headers, host: string, hash: string, creds: Credentials, scope: Scope)
    requires CanonicalHeaders(headers)
    ensures CanonicalHeaders(Prepared(headers, host, hash, creds, scope))
    ensures CanonicalKey(AUTHORIZATION) in Prepared(headers, host, hash, creds, scope)
            <==> CanonicalKey(AUTHORIZATION) in headers
  {
    OtherNames();
    PreparedStaysCanonical(headers, host, hash, creds, scope);
    PreparedKeeps(headers, host, hash, creds, scope, AUTHORIZATION);
  }
}
