/** The parts of net/http that the sources rely on: header names, header maps and requests. */
module Http {

  // ---------------------------------------------------------------- header names

  type Headers = map<string, seq<string>>

  /** The `token` characters of section 5.6.2 of RFC 9110. */
  predicate IsTokenChar(c: char) {
    || 'a' <= c <= 'z' || 'A' <= c <= 'Z' || '0' <= c <= '9'
    || c == '!' || '#' <= c <= '\'' || c == '*' || c == '+' || c == '-' || c == '.'
    || '^' <= c <= '`' || c == '|' || c == '~'
  }

  predicate IsToken(s: string) {
    s != "" && forall i :: 0 <= i < |s| ==> IsTokenChar(s[i])
  }

  function LowerChar(c: char): char {
    if 'A' <= c <= 'Z' then (c as int + 32) as char else c
  }

  function UpperChar(c: char): char {
    if 'a' <= c <= 'z' then (c as int - 32) as char else c
  }

  /** `strings.ToLower`, on ASCII letters. */
  function Lower(s: string): (r: string)
    ensures |r| == |s|
    ensures forall i :: 0 <= i < |s| ==> r[i] == LowerChar(s[i])
  {
    if s == "" then "" else [LowerChar(s[0])] + Lower(s[1..])
  }

  function Capitals(s: string, upper: bool): (r: string)
    ensures |r| == |s|
    ensures forall i :: 0 <= i < |s| && IsTokenChar(s[i]) ==> IsTokenChar(r[i])
  {
    if s == "" then ""
    else [if upper then UpperChar(s[0]) else LowerChar(s[0])] + Capitals(s[1..], s[0] == '-')
  }

  /** `http.CanonicalHeaderKey`: a capital at the start and after each hyphen, in names that are tokens. */
  function CanonicalKey(s: string): string {
    if IsToken(s) then Capitals(s, true) else s
  }

  lemma {:induction false} CapitalsOfLower(s: string, upper: bool)
    ensures Capitals(Lower(s), upper) == Capitals(s, upper)
    decreases |s|
  {
    if s != "" { CapitalsOfLower(s[1..], s[0] == '-'); }
  }

  lemma {:induction false} CapitalsTwice(s: string, upper: bool)
    ensures Capitals(Capitals(s, upper), upper) == Capitals(s, upper)
    decreases |s|
  {
    if s != "" { CapitalsTwice(s[1..], s[0] == '-'); }
  }

  lemma LowerThenCanonical(s: string)
    requires IsToken(s)
    ensures IsToken(Lower(s)) && CanonicalKey(Lower(s)) == CanonicalKey(s)
    ensures CanonicalKey(CanonicalKey(s)) == CanonicalKey(s)
  {
    CapitalsOfLower(s, true);
    CapitalsTwice(s, true);
  }

  predicate TokenHeaders(headers: Headers) {
    forall k :: k in headers ==> IsToken(k)
  }

  predicate CanonicalHeaders(headers: Headers) {
    forall k :: k in headers ==> IsToken(k) && CanonicalKey(k) == k
  }

  lemma {:induction false} CapitalsAt(s: string, upper: bool, i: nat)
    requires i < |s|
    ensures Capitals(s, upper)[i]
            == if (if i == 0 then upper else s[i - 1] == '-') then UpperChar(s[i]) else LowerChar(s[i])
    decreases |s|
  {
    if i > 0 { CapitalsAt(s[1..], s[0] == '-', i - 1); }
  }

  /** Capitals stand at the beginning of a canonical name and after its hyphens, and nowhere else. */
  lemma CanonicalKeyAt(s: string, i: nat)
    requires IsToken(s) && i < |s|
    ensures |CanonicalKey(s)| == |s|
    ensures var c, first := CanonicalKey(s)[i], i == 0 || s[i - 1] == '-';
            && (first && 'a' <= s[i] <= 'z' ==> c as int == s[i] as int - 32)
            && (!first && 'A' <= s[i] <= 'Z' ==> c as int == s[i] as int + 32)
            && (first && !('a' <= s[i] <= 'z') ==> c == s[i]) && (!first && !('A' <= s[i] <= 'Z') ==> c == s[i])
  {
    CapitalsAt(s, true, i);
    LettersAre();
  }

  /** Lower case has no capital letters, and is otherwise the same. */
  lemma LowerAt(s: string, i: nat)
    requires i < |s|
    ensures var c := Lower(s)[i];
            && !('A' <= c <= 'Z') && ('A' <= s[i] <= 'Z' ==> c as int == s[i] as int + 32)
            && (!('A' <= s[i] <= 'Z') ==> c == s[i])
  {
    LettersAre();
  }

  lemma LettersAre()
    ensures forall c: char :: 'A' <= c <= 'Z' ==> LowerChar(c) as int == c as int + 32
    ensures forall c: char :: 'a' <= c <= 'z' ==> UpperChar(c) as int == c as int - 32
    ensures forall c: char :: !('A' <= c <= 'Z') ==> LowerChar(c) == c
    ensures forall c: char :: !('a' <= c <= 'z') ==> UpperChar(c) == c
  {
  }

  /** `Header.Values`. */
  function Values(headers: Headers, name: string): seq<string> {
    if CanonicalKey(name) in headers then headers[CanonicalKey(name)] else []
  }

  /** `Header.Get`: the first value, or nothing. */
  function Get(headers: Headers, name: string): string {
    var vals := Values(headers, name);
    if vals == [] then "" else vals[0]
  }

  function Set(headers: Headers, name: string, value: string): Headers {
    headers[CanonicalKey(name) := [value]]
  }

  /** A header that is set has that one value, in whatever case it is asked for; no other header changes. */
  lemma SetThenGet(headers: Headers, name: string, value: string, other: string)
    ensures CanonicalKey(other) == CanonicalKey(name) ==>
              Values(Set(headers, name, value), other) == [value] && Get(Set(headers, name, value), other) == value
    ensures CanonicalKey(other) != CanonicalKey(name) ==>
              Values(Set(headers, name, value), other) == Values(headers, other)
    ensures Values(headers, other) != [] ==> Get(headers, other) == Values(headers, other)[0]
    ensures Values(headers, other) == [] ==> Get(headers, other) == ""
  {
  }

  lemma SetKeepsCanonical(headers: Headers, name: string, value: string)
    requires CanonicalHeaders(headers) && IsToken(name)
    ensures CanonicalHeaders(Set(headers, name, value))
  {
    LowerThenCanonical(name);
  }

  // ---------------------------------------------------------------- requests

  type Query = map<string, seq<string>>

  /** A request body is a stream: it can be read once. */
  datatype Body = NoBody | Unread(bytes: string) | Broken | Spent

  /** What `io.ReadAll` gets from a body that does not fail. */
  function Content(body: Body): string {
    if body.Unread? then body.bytes else ""
  }

  /** A body that has not been read yields its bytes; one that is missing or was read before yields none. */
  lemma ContentIs(bytes: string)
    ensures Content(Unread(bytes)) == bytes && Content(NoBody) == Content(Spent) == ""
  {
  }

  class Request {
    var verb: string
    var host: string
    var path: string
    var query: Query
    var headers: Headers
    var body: Body

    constructor (verb: string, host: string, path: string, query: Query, headers: Headers, body: Body)
      ensures this.verb == verb && this.host == host && this.path == path && this.query == query
      ensures this.headers == headers && this.body == body
    {
      this.verb := verb;
      this.host := host;
      this.path := path;
      this.query := query;
      this.headers := headers;
      this.body := body;
    }

    /** `Request.Clone`: everything is copied, but both bodies are the same stream. */
    method Clone() returns (c: Request)
      ensures fresh(c)
      ensures c.verb == verb && c.host == host && c.path == path && c.query == query
      ensures c.headers == headers && c.body == body
    {
      c := new Request(verb, host, path, query, headers, body);
    }
  }
}
