/** The canonical request of internal/awssign/awssign.go, and what can be read back from it. */
module Canonical {
  import opened Text
  import opened Order
  import opened Lists
  import opened UriEncode
  import opened Http

  // ---------------------------------------------------------------- the list of signed headers

  /** The lower-case names, sorted. */
  ghost function SignedNames(headers: Headers): seq<string> {
    Sort(Each(Lower, SortedKeys(headers.Keys)))
  }

  /** The loop over the header map, in any order. */
  method BuildSignedHeaders(headers: Headers) returns (names: seq<string>)
    ensures names == SignedNames(headers)
  {
    var order := WalkKeys(headers.Keys);
    names := [];
    for i := 0 to |order|
      invariant names == Each(Lower, order[..i])
    {
      EachNext(Lower, order, i);
      names := names + [Lower(order[i])];
    }
    assert order[..|order|] == order;
    EachBag(Lower, order, SortedKeys(headers.Keys));
    SortedAnyOrder(names, Each(Lower, SortedKeys(headers.Keys)));
    names := SortStrings(names);
  }

  lemma SignedNamesAreKeys(headers: Headers, i: nat) returns (k: string)
    requires i < |SignedNames(headers)|
    ensures k in headers && SignedNames(headers)[i] == Lower(k)
  {
    var keys := SortedKeys(headers.Keys);
    var lowered := Each(Lower, keys);
    SortedKeysAreStrict(headers.Keys);
    SameCounts(lowered, SignedNames(headers));
    assert SignedNames(headers)[i] in lowered;
    var j :| 0 <= j < |lowered| && lowered[j] == SignedNames(headers)[i];
    k := keys[j];
  }

  lemma KeysAreSignedNames(headers: Headers, k: string) returns (i: nat)
    requires k in headers
    ensures i < |SignedNames(headers)| && SignedNames(headers)[i] == Lower(k)
  {
    var keys := SortedKeys(headers.Keys);
    SortedKeysAreStrict(headers.Keys);
    EachHas(Lower, keys, k);
    SameCounts(Each(Lower, keys), SignedNames(headers));
    i :| 0 <= i < |SignedNames(headers)| && SignedNames(headers)[i] == Lower(k);
  }

  /**
   * Looking each signed name up again, in canonical form, finds every entry of the header map exactly once,
   * precisely when all its entries are stored in canonical form.
   */
  lemma CoveredOnceIff(headers: Headers)
    requires TokenHeaders(headers)
    ensures multiset(Each(CanonicalKey, SignedNames(headers))) == multiset(headers.Keys) <==> CanonicalHeaders(headers)
  {
    var keys := SortedKeys(headers.Keys);
    SortedKeysAreStrict(headers.Keys);
    EachBag(CanonicalKey, SignedNames(headers), Each(Lower, keys));
    LowerThenCanonicalAll(keys);
    FixedIff(keys, Each(CanonicalKey, Each(Lower, keys)));
  }

  lemma LowerThenCanonicalAll(keys: seq<string>)
    requires forall i :: 0 <= i < |keys| ==> IsToken(keys[i])
    ensures var found := Each(CanonicalKey, Each(Lower, keys));
            forall i :: 0 <= i < |keys| ==> found[i] == CanonicalKey(keys[i]) && CanonicalKey(found[i]) == found[i]
  {
    forall i | 0 <= i < |keys| { LowerThenCanonical(keys[i]); }
  }

  /** A list of pairwise different names is a permutation of its own canonical forms only when it is all canonical. */
  lemma FixedIff(keys: seq<string>, found: seq<string>)
    requires |found| == |keys|
    requires forall i :: 0 <= i < |keys| ==> found[i] == CanonicalKey(keys[i]) && CanonicalKey(found[i]) == found[i]
    ensures multiset(found) == multiset(keys) <==> forall k :: k in keys ==> CanonicalKey(k) == k
  {
    if forall k :: k in keys ==> CanonicalKey(k) == k {
      assert forall i :: 0 <= i < |keys| ==> keys[i] in keys;
      assert found == keys;
    }
    if multiset(found) == multiset(keys) {
      forall k | k in keys
        ensures CanonicalKey(k) == k
      {
        assert k in multiset(found);
      }
    }
  }

  // ---------------------------------------------------------------- the canonical request

  function HeaderValue(headers: Headers, name: string): string {
    TrimSpace(Join(Values(headers, name), ","))
  }

  predicate OneLineValues(headers: Headers, names: seq<string>) {
    forall i :: 0 <= i < |names| ==> '\n' !in HeaderValue(headers, names[i])
  }

  function HeaderLine(headers: Headers, name: string): string {
    name + [':'] + HeaderValue(headers, name)
  }

  function ValueOf(headers: Headers): string -> string {
    name => HeaderValue(headers, name)
  }

  /** A header line, given what the values are. */
  function LineOf(v: string -> string): string -> string {
    name => name + [':'] + v(name)
  }

  /** Each line with its newline. */
  function Block(lines: seq<string>): string {
    if lines == [] then "" else Block(lines[..|lines| - 1]) + lines[|lines| - 1] + "\n"
  }

  lemma BlockNext(lines: seq<string>, i: nat)
    requires i < |lines|
    ensures Block(lines[..i + 1]) == Block(lines[..i]) + lines[i] + "\n"
  {
    assert lines[..i + 1][..i] == lines[..i];
  }

  function HeaderBlock(headers: Headers, names: seq<string>): string {
    Block(Each(LineOf(ValueOf(headers)), names))
  }

  function UriPath(path: string): string {
    if path == "" then "/" else path
  }

  function RequestText(
    verb: string, uri: string, q: string, block: seq<string>, names: seq<string>, hash: string): string
  {
    Join([verb, uri, q, Block(block), Join(names, ";"), hash], "\n")
  }

  ghost function CanonicalText(
    verb: string, path: string, query: Query, headers: Headers, names: seq<string>, hash: string): string
  {
    RequestText(verb, UriPath(path), CanonicalQuery(query), Each(LineOf(ValueOf(headers)), names), names, hash)
  }

  /** The loop over the signed names, into a builder. */
  method BuildHeaderBlock(headers: Headers, names: seq<string>) returns (block: string)
    ensures block == HeaderBlock(headers, names)
  {
    block := "";
    for i := 0 to |names|
      invariant block == HeaderBlock(headers, names[..i])
    {
      HeaderBlockNext(headers, names, i);
      block := block + HeaderLine(headers, names[i]) + "\n";
    }
    assert names[..|names|] == names;
  }

  lemma HeaderBlockNext(headers: Headers, names: seq<string>, i: nat)
    requires i < |names|
    ensures HeaderBlock(headers, names[..i + 1])
            == HeaderBlock(headers, names[..i]) + HeaderLine(headers, names[i]) + "\n"
  {
    EachBlockNext(LineOf(ValueOf(headers)), names, i);
  }

  lemma EachBlockNext(f: string -> string, names: seq<string>, i: nat)
    requires i < |names|
    ensures Block(Each(f, names[..i + 1])) == Block(Each(f, names[..i])) + f(names[i]) + "\n"
  {
    var lines := Each(f, names);
    BlockNext(lines, i);
    assert Each(f, names[..i]) == lines[..i];
    assert Each(f, names[..i + 1]) == lines[..i + 1];
  }

  method BuildCanonicalRequest(
    verb: string, path: string, query: Query, headers: Headers, names: seq<string>, hash: string)
    returns (text: string)
    ensures text == CanonicalText(verb, path, query, headers, names, hash)
    ensures path != "" ==>
      text == RequestText(verb, path, CanonicalQuery(query), Each(LineOf(ValueOf(headers)), names), names, hash)
    ensures path == "" ==>
      text == RequestText(verb, "/", CanonicalQuery(query), Each(LineOf(ValueOf(headers)), names), names, hash)
  {
    var uri := path;
    if uri == "" {
      uri := "/";
    }
    var canonicalQuery := BuildCanonicalQuery(query);
    var canonicalHeaders := BuildHeaderBlock(headers, names);
    text := Join([verb, uri, canonicalQuery, canonicalHeaders, Join(names, ";"), hash], "\n");
  }

  // ---------------------------------------------------------------- reading it back

  datatype Recovered = Recovered(
    verb: string, path: string, pairs: seq<(string, string)>, names: seq<string>, values: seq<string>, hash: string)

  function AfterColon(line: string): string {
    match Cut(line, ':')
    case None => ""
    case Some((_, value)) => value
  }

  /** The last three lines tell how many header lines there are; the query line is before those. */
  function Recover(text: string): Option<Recovered> {
    RecoverFrom(Split(text, '\n'))
  }

  function RecoverFrom(lines: seq<string>): Option<Recovered> {
    var n := |lines|;
    if n < 5 then None
    else
      var names := if lines[n - 2] == "" then [] else Split(lines[n - 2], ';');
      var q := n - 4 - |names|;
      if q < 2 then None
      else Some(Recovered(lines[0], Join(lines[1..q], "\n"), ParseQuery(lines[q]), names,
                          Each(AfterColon, lines[q + 1..n - 3]), lines[n - 1]))
  }

  lemma {:induction false} BlockLines(lines: seq<string>, tail: seq<string>)
    requires tail != []
    ensures Block(lines) + Join(tail, "\n") == Join(lines + tail, "\n")
    decreases |lines|
  {
    if lines == [] {
      assert lines + tail == tail;
    } else {
      var before, last := lines[..|lines| - 1], lines[|lines| - 1];
      BlockLines(before, [last] + tail);
      assert before + ([last] + tail) == lines + tail;
      JoinConcat([last], tail, "\n");
      Regroup(Block(before), last, "\n", Join(tail, "\n"));
    }
  }

  lemma Regroup(a: string, b: string, c: string, d: string)
    ensures a + (b + c + d) == a + b + c + d
  {
  }

  /** The request's lines, each of them whole; only the path may be several. */
  function Lines(
    verb: string, uri: string, q: string, block: seq<string>, names: seq<string>, hash: string): seq<string>
  {
    [verb] + Split(uri, '\n') + [q] + (block + ["", Join(names, ";"), hash])
  }

  lemma TextIsLines(verb: string, uri: string, q: string, block: seq<string>, names: seq<string>, hash: string)
    ensures RequestText(verb, uri, q, block, names, hash) == Join(Lines(verb, uri, q, block, names, hash), "\n")
  {
    var parts, signed := Split(uri, '\n'), Join(names, ";");
    JoinSplit(uri, '\n');
    BlockLines(block, ["", signed, hash]);
    JoinConcat([verb] + parts + [q], block + ["", signed, hash], "\n");
    JoinConcat([verb] + parts, [q], "\n");
    JoinConcat([verb], parts, "\n");
    SixParts(verb, uri, q, Block(block), signed, hash);
  }

  lemma TextSplits(verb: string, uri: string, q: string, block: seq<string>, names: seq<string>, hash: string)
    requires OneLine(verb) && OneLine(q) && OneLine(hash) && OneLine(Join(names, ";")) && Lacking(block, '\n')
    ensures Split(RequestText(verb, uri, q, block, names, hash), '\n') == Lines(verb, uri, q, block, names, hash)
  {
    LinesAreWhole(verb, Split(uri, '\n'), q, block, Join(names, ";"), hash);
    SplitJoin(Lines(verb, uri, q, block, names, hash), '\n');
    TextIsLines(verb, uri, q, block, names, hash);
  }

  /** Texts with the same signed names are the same only if they agree part by part. */
  lemma TextInjective(
    names: seq<string>, verb: string, uri: string, q: string, block: seq<string>, hash: string,
    verb': string, uri': string, q': string, block': seq<string>, hash': string)
    requires OneLine(verb) && OneLine(q) && OneLine(hash) && Lacking(block, '\n')
    requires OneLine(verb') && OneLine(q') && OneLine(hash') && Lacking(block', '\n')
    requires OneLine(Join(names, ";")) && |block| == |block'|
    requires RequestText(verb, uri, q, block, names, hash) == RequestText(verb', uri', q', block', names, hash')
    ensures verb == verb' && uri == uri' && q == q' && block == block' && hash == hash'
  {
    TextSplits(verb, uri, q, block, names, hash);
    TextSplits(verb', uri', q', block', names, hash');
    Layout(verb, Split(uri, '\n'), q, block, Join(names, ";"), hash);
    Layout(verb', Split(uri', '\n'), q', block', Join(names, ";"), hash');
    JoinSplit(uri, '\n');
    JoinSplit(uri', '\n');
  }

  lemma SixParts(a: string, b: string, c: string, d: string, e: string, f: string)
    ensures Join([a, b, c, d, e, f], "\n")
            == a + "\n" + b + "\n" + c + "\n" + (d + Join(["", e, f], "\n"))
  {
    JoinConcat([a, b, c], [d, e, f], "\n");
    assert [a, b, c] + [d, e, f] == [a, b, c, d, e, f];
    ThreeParts(a, b, c);
    ThreeParts(d, e, f);
    ThreeParts("", e, f);
  }

  lemma ThreeParts(a: string, b: string, c: string)
    ensures Join([a, b, c], "\n") == a + "\n" + b + "\n" + c
  {
    JoinConcat([a, b], [c], "\n");
    JoinConcat([a], [b], "\n");
    assert [a, b] + [c] == [a, b, c] && [a] + [b] == [a, b];
  }

  lemma TokenIsPlain(name: string)
    requires IsToken(name)
    ensures '\n' !in name && ';' !in name && ':' !in name
  {
  }

  lemma ColonLine(name: string, value: string)
    requires ':' !in name && '\n' !in name && '\n' !in value
    ensures '\n' !in name + [':'] + value && AfterColon(name + [':'] + value) == value
  {
    CutConcat(name, ':', value);
  }

  lemma SignedLine(names: seq<string>)
    requires forall i :: 0 <= i < |names| ==> IsToken(names[i]) && ';' !in names[i] && '\n' !in names[i]
    ensures '\n' !in Join(names, ";")
    ensures names == if Join(names, ";") == "" then [] else Split(Join(names, ";"), ';')
  {
    JoinKeepsOut(names, ";", '\n');
    if names != [] {
      SplitJoin(names, ';');
      assert Join(names, ";") != "";
    }
  }

  /** What the reader finds in lines that are laid out as the canonical request lays them out. */
  lemma RecoverLines(
    verb: string, uri: seq<string>, q: string, block: seq<string>, names: seq<string>, signed: string, hash: string)
    requires uri != [] && |block| == |names| && names == if signed == "" then [] else Split(signed, ';')
    ensures RecoverFrom([verb] + uri + [q] + (block + ["", signed, hash]))
            == Some(Recovered(verb, Join(uri, "\n"), ParseQuery(q), names, Each(AfterColon, block), hash))
  {
    Layout(verb, uri, q, block, signed, hash);
  }

  lemma Layout(verb: string, uri: seq<string>, q: string, block: seq<string>, signed: string, hash: string)
    ensures var lines, at := [verb] + uri + [q] + (block + ["", signed, hash]), 1 + |uri|;
            && |lines| == at + 1 + |block| + 3 && lines[0] == verb && lines[1..at] == uri && lines[at] == q
            && lines[at + 1..|lines| - 3] == block && lines[|lines| - 2] == signed && lines[|lines| - 1] == hash
  {
  }

  /** What the canonical request stands for. */
  ghost function Meaning(
    verb: string, path: string, query: Query, headers: Headers, names: seq<string>, hash: string): Recovered
  {
    Recovered(verb, if path == "" then "/" else path, SortedPairs(query), names, Each(ValueOf(headers), names), hash)
  }

  /** The path itself is what is signed; the empty one is a slash. */
  lemma UriPathIs(path: string)
    ensures path != "" ==> UriPath(path) == path
    ensures path == "" ==> UriPath(path) == "/"
  {
  }

  /**
   * From the canonical request alone one reads back the method, the path, the query's pairs, the header names,
   * the header values and the payload hash. Only the path may hold newlines.
   */
  lemma CanonicalRoundTrip(
    verb: string, path: string, query: Query, headers: Headers, names: seq<string>, hash: string)
    requires '\n' !in verb && '\n' !in hash && ByteQuery(query)
    requires (forall i :: 0 <= i < |names| ==> IsToken(names[i])) && OneLineValues(headers, names)
    ensures Recover(CanonicalText(verb, path, query, headers, names, hash))
            == Some(Meaning(verb, path, query, headers, names, hash))
  {
    TokenLines(ValueOf(headers), names);
    SignedLine(names);
    QueryRoundTrip(query);
    TextRoundTrip(verb, UriPath(path), CanonicalQuery(query), Each(LineOf(ValueOf(headers)), names), names, hash);
  }

  lemma TextRoundTrip(verb: string, uri: string, q: string, block: seq<string>, names: seq<string>, hash: string)
    requires OneLine(verb) && OneLine(q) && OneLine(hash) && OneLine(Join(names, ";")) && Lacking(block, '\n')
    requires |block| == |names| && names == if Join(names, ";") == "" then [] else Split(Join(names, ";"), ';')
    ensures Recover(RequestText(verb, uri, q, block, names, hash))
            == Some(Recovered(verb, uri, ParseQuery(q), names, Each(AfterColon, block), hash))
  {
    TextSplits(verb, uri, q, block, names, hash);
    JoinSplit(uri, '\n');
    RecoverLines(verb, Split(uri, '\n'), q, block, names, Join(names, ";"), hash);
  }

  lemma TokenLines(v: string -> string, names: seq<string>)
    requires forall i :: 0 <= i < |names| ==> IsToken(names[i]) && OneLine(v(names[i]))
    ensures forall i :: 0 <= i < |names| ==> ';' !in names[i] && '\n' !in names[i]
    ensures Lacking(Each(LineOf(v), names), '\n')
    ensures Each(AfterColon, Each(LineOf(v), names)) == Each(v, names)
  {
    forall i | 0 <= i < |names|
      ensures ';' !in names[i] && '\n' !in names[i]
      ensures OneLine(LineOf(v)(names[i])) && AfterColon(LineOf(v)(names[i])) == v(names[i])
    {
      TokenIsPlain(names[i]);
      ColonLine(names[i], v(names[i]));
    }
    EachAfterEach(AfterColon, LineOf(v), v, names);
  }

  lemma LinesAreWhole(verb: string, uri: seq<string>, q: string, block: seq<string>, signed: string, hash: string)
    requires '\n' !in verb && '\n' !in q && '\n' !in signed && '\n' !in hash
    requires Lacking(uri, '\n') && Lacking(block, '\n')
    ensures Lacking([verb] + uri + [q] + (block + ["", signed, hash]), '\n')
  {
  }

  /**
   * Requests with one canonical request agree in method, path, query pairs, header names, trimmed values and payload
   * hash.
   */
  lemma CanonicalInjective(
    verb: string, path: string, query: Query, headers: Headers, hash: string,
    verb': string, path': string, query': Query, headers': Headers, hash': string)
    requires '\n' !in verb && '\n' !in hash && ByteQuery(query) && TokenHeaders(headers)
    requires '\n' !in verb' && '\n' !in hash' && ByteQuery(query') && TokenHeaders(headers')
    requires OneLineValues(headers, SignedNames(headers)) && OneLineValues(headers', SignedNames(headers'))
    requires CanonicalText(verb, path, query, headers, SignedNames(headers), hash)
             == CanonicalText(verb', path', query', headers', SignedNames(headers'), hash')
    ensures Meaning(verb, path, query, headers, SignedNames(headers), hash)
            == Meaning(verb', path', query', headers', SignedNames(headers'), hash')
    ensures path != "" && path' != "" ==> path == path'
    ensures path == "" && path' != "" ==> path' == "/"
  {
    SignedNamesAreTokens(headers);
    SignedNamesAreTokens(headers');
    CanonicalRoundTrip(verb, path, query, headers, SignedNames(headers), hash);
    CanonicalRoundTrip(verb', path', query', headers', SignedNames(headers'), hash');
  }

  lemma SignedNamesAreTokens(headers: Headers)
    requires TokenHeaders(headers)
    ensures forall i :: 0 <= i < |SignedNames(headers)| ==> IsToken(SignedNames(headers)[i])
  {
    forall i | 0 <= i < |SignedNames(headers)|
      ensures IsToken(SignedNames(headers)[i])
    {
      var k := SignedNamesAreKeys(headers, i);
      LowerThenCanonical(k);
    }
  }
}
