/**
 * The whole of "Create a canonical request" of AWS Signature Version 4, next to what internal/awssign/awssign.go
 * makes of it.
 */
module RequestRule {
  import opened Text
  import opened Lists
  import opened Order
  import opened Http
  import opened UriEncode
  import opened QueryRule
  import opened PathRule
  import opened SpacingRule
  import opened Canonical

  function RuleValue(headers: Headers): string -> string {
    name => RuleHeader(headers, name)
  }

  // ---------------------------------------------------------------- the request

  /** A request as it stands when it is to be canonicalised, with the digest of its body. */
  datatype Content = Content(verb: string, path: string, query: Query, headers: Headers, hash: string)

  /** The canonical request by the rule, over these signed names. */
  ghost function RuleText(c: Content, names: seq<string>, style: Style): string {
    RequestText(c.verb, RulePath(c.path, style), RuleQuery(c.query), Each(LineOf(RuleValue(c.headers)), Sort(names)),
                Sort(names), c.hash)
  }

  lemma RuleTextIs(c: Content, names: seq<string>, style: Style)
    requires Sorted(names)
    ensures RuleText(c, names, style)
            == RequestText(c.verb, RulePath(c.path, style), RuleQuery(c.query), Each(LineOf(RuleValue(c.headers)), names),
                           names, c.hash)
  {
    SortSorts(names);
    SortedUnique(Sort(names), names);
  }

  ghost function CodeText(c: Content, names: seq<string>): string {
    CanonicalText(c.verb, c.path, c.query, c.headers, names, c.hash)
  }

  /** What a canonical request says. */
  datatype Parts = Parts(verb: string, uri: string, q: string, values: seq<string>, hash: string)

  ghost function RuleParts(c: Content, names: seq<string>, style: Style): Parts {
    Parts(c.verb, RulePath(c.path, style), RuleQuery(c.query), Each(RuleValue(c.headers), names), c.hash)
  }

  ghost function CodeParts(c: Content, names: seq<string>): Parts {
    Parts(c.verb, UriPath(c.path), CanonicalQuery(c.query), Each(ValueOf(c.headers), names), c.hash)
  }

  /** What HTTP requires of a request, and a digest without newlines. */
  ghost predicate WellFormed(c: Content, names: seq<string>) {
    OneLine(c.verb) && OneLine(c.hash) && ByteQuery(c.query) && OneLineValues(c.headers, names)
  }

  predicate Tokens(names: seq<string>) {
    forall i :: 0 <= i < |names| ==> IsToken(names[i])
  }

  lemma RuleValueIsOneLine(headers: Headers, name: string)
    requires OneLine(HeaderValue(headers, name))
    ensures OneLine(RuleValue(headers)(name))
  {
    RuleHeaderKeepsOut(headers, name, '\n');
  }

  lemma RuleLines(headers: Headers, names: seq<string>)
    requires Tokens(names) && OneLineValues(headers, names)
    ensures Lacking(Each(LineOf(RuleValue(headers)), names), '\n')
  {
    forall i | 0 <= i < |names|
      ensures OneLine(RuleValue(headers)(names[i]))
    {
      RuleValueIsOneLine(headers, names[i]);
    }
    TokenLines(RuleValue(headers), names);
  }

  lemma CodeLines(headers: Headers, names: seq<string>)
    requires Tokens(names) && OneLineValues(headers, names)
    ensures Lacking(Each(LineOf(ValueOf(headers)), names), '\n') && OneLine(Join(names, ";"))
  {
    TokenLines(ValueOf(headers), names);
    SignedLine(names);
  }

  lemma LineInjective(name: string, v: string, w: string)
    requires name + [':'] + v == name + [':'] + w
    ensures v == w
  {
    assert v == (name + [':'] + v)[|name| + 1..] && w == (name + [':'] + w)[|name| + 1..];
  }

  function TextOf(p: Parts, names: seq<string>): string
    requires |p.values| == |names|
  {
    RequestText(p.verb, p.uri, p.q, NamedLines(names, p.values), names, p.hash)
  }

  function NamedLines(names: seq<string>, values: seq<string>): (lines: seq<string>)
    requires |values| == |names|
    ensures |lines| == |names|
    ensures forall i :: 0 <= i < |names| ==> lines[i] == names[i] + [':'] + values[i]
  {
    seq(|names|, i requires 0 <= i < |names| => names[i] + [':'] + values[i])
  }

  lemma NamedLinesAre(v: string -> string, names: seq<string>)
    ensures NamedLines(names, Each(v, names)) == Each(LineOf(v), names)
  {
  }

  lemma NamedLinesInjective(names: seq<string>, a: seq<string>, b: seq<string>)
    requires |a| == |b| == |names| && NamedLines(names, a) == NamedLines(names, b)
    ensures a == b
  {
    forall i | 0 <= i < |names|
      ensures a[i] == b[i]
    {
      assert NamedLines(names, a)[i] == NamedLines(names, b)[i];
      LineInjective(names[i], a[i], b[i]);
    }
  }

  predicate OneLineParts(p: Parts, names: seq<string>) {
    && |p.values| == |names| && OneLine(p.verb) && OneLine(p.q) && OneLine(p.hash)
    && Lacking(NamedLines(names, p.values), '\n')
  }

  /** Two texts over the same names are one only when all their parts are. */
  lemma PartsInjective(names: seq<string>, p: Parts, r: Parts)
    requires OneLineParts(p, names) && OneLineParts(r, names) && OneLine(Join(names, ";"))
    requires TextOf(p, names) == TextOf(r, names)
    ensures p == r
  {
    TextInjective(names, p.verb, p.uri, p.q, NamedLines(names, p.values), p.hash,
                  r.verb, r.uri, r.q, NamedLines(names, r.values), r.hash);
    NamedLinesInjective(names, p.values, r.values);
  }

  lemma RuleTextOf(c: Content, names: seq<string>, style: Style)
    requires Sorted(names) && Tokens(names) && WellFormed(c, names)
    ensures RuleText(c, names, style) == TextOf(RuleParts(c, names, style), names)
    ensures OneLineParts(RuleParts(c, names, style), names)
  {
    RuleTextIs(c, names, style);
    RuleLines(c.headers, names);
    RuleQueryIsOneLine(c.query);
    NamedLinesAre(RuleValue(c.headers), names);
  }

  lemma CodeTextOf(c: Content, names: seq<string>)
    requires Tokens(names) && WellFormed(c, names)
    ensures CodeText(c, names) == TextOf(CodeParts(c, names), names)
    ensures OneLineParts(CodeParts(c, names), names) && OneLine(Join(names, ";"))
  {
    CodeLines(c.headers, names);
    QueryRoundTrip(c.query);
    NamedLinesAre(ValueOf(c.headers), names);
  }

  /** Rule and code give one text for two requests, exactly when they say the same of them. */
  lemma SameTextIff(m: Content, s: Content, names: seq<string>, style: Style)
    requires Sorted(names) && Tokens(names) && WellFormed(m, names) && WellFormed(s, names)
    ensures RuleText(m, names, style) == CodeText(s, names) <==> RuleParts(m, names, style) == CodeParts(s, names)
  {
    var p, r := RuleParts(m, names, style), CodeParts(s, names);
    RuleTextOf(m, names, style);
    CodeTextOf(s, names);
    if TextOf(p, names) == TextOf(r, names) { PartsInjective(names, p, r); }
  }

  // ---------------------------------------------------------------- where the code follows the rule

  predicate SpacingKept(headers: Headers, names: seq<string>) {
    forall i :: 0 <= i < |names| ==> AllTidy(Ends(Values(headers, names[i])))
  }

  /** What a request needs for the code to canonicalise it by the rule. */
  predicate Conforms(c: Content, names: seq<string>, style: Style) {
    PathKept(c.path, style) && OrderKept(c.query) && SpacingKept(c.headers, names)
  }

  lemma SpacingKeptIff(headers: Headers, names: seq<string>)
    ensures Each(RuleValue(headers), names) == Each(ValueOf(headers), names) <==> SpacingKept(headers, names)
  {
    forall i | 0 <= i < |names|
      ensures Each(RuleValue(headers), names)[i] == Each(ValueOf(headers), names)[i]
              <==> AllTidy(Ends(Values(headers, names[i])))
    {
      RuleHeaderIff(headers, names[i]);
    }
  }

  lemma ConformsIff(c: Content, names: seq<string>, style: Style)
    requires ByteQuery(c.query) && style.rounds >= 1
    ensures RuleParts(c, names, style) == CodeParts(c, names) <==> Conforms(c, names, style)
  {
    RulePathIff(c.path, style);
    QueryFollowsRuleIff(c.query);
    SpacingKeptIff(c.headers, names);
  }

  /**
   * The code's canonical request is the rule's, exactly when the path needs neither encoding nor normalising, encoding
   * turns around no names and no values of one name, and of no header the values, but for the two ends of their list,
   * begin or end with white space or have two spaces in a row.
   */
  lemma FollowsRuleIff(c: Content, names: seq<string>, style: Style)
    requires style.rounds >= 1 && Sorted(names) && Tokens(names) && WellFormed(c, names)
    ensures RuleText(c, names, style) == CodeText(c, names) <==> Conforms(c, names, style)
  {
    SameTextIff(c, c, names, style);
    ConformsIff(c, names, style);
  }

  // ---------------------------------------------------------------- a header that is set after signing

  /** There was no such header when the request was signed, or one that read as the new one does. */
  predicate Unreplaced(headers: Headers, header: string, value: string) {
    CanonicalKey(header) in headers ==> HeaderValue(headers, header) == Tidied(value)
  }

  function WithoutHeader(headers: Headers, header: string): Headers {
    headers - {CanonicalKey(header)}
  }

  lemma OneValue(headers: Headers, name: string, value: string)
    requires Values(headers, name) == [value]
    ensures HeaderValue(headers, name) == TrimSpace(value) && RuleHeader(headers, name) == Tidied(value)
  {
    assert Each(Tidied, [value]) == [Tidied(value)];
  }

  lemma SameValuesSameRule(h: Headers, name: string, g: Headers)
    requires Values(h, name) == Values(g, name)
    ensures RuleHeader(h, name) == RuleHeader(g, name) && HeaderValue(h, name) == HeaderValue(g, name)
  {
  }

  /** A value signed before the header was set, and as the rule reads it afterwards. */
  lemma ValueAfterIff(headers: Headers, header: string, value: string, name: string)
    requires CanonicalKey(name) in headers
    ensures RuleHeader(Set(headers, header, value), name) == HeaderValue(headers, name)
            <==> AllTidy(Ends(Values(WithoutHeader(headers, header), name)))
                 && (CanonicalKey(name) == CanonicalKey(header) ==> Unreplaced(headers, header, value))
  {
    if CanonicalKey(name) == CanonicalKey(header) {
      OneValue(Set(headers, header, value), name, value);
      assert Values(WithoutHeader(headers, header), name) == [];
    } else {
      SameValuesSameRule(Set(headers, header, value), name, headers);
      SameValuesSameRule(WithoutHeader(headers, header), name, headers);
      RuleHeaderIff(headers, name);
    }
  }

  lemma ValuesAfterIff(headers: Headers, header: string, value: string)
    requires CanonicalHeaders(headers)
    ensures var names := SignedNames(headers);
            Each(RuleValue(Set(headers, header, value)), names) == Each(ValueOf(headers), names)
            <==> SpacingKept(WithoutHeader(headers, header), names) && Unreplaced(headers, header, value)
  {
    var names, after := SignedNames(headers), Set(headers, header, value);
    forall i | 0 <= i < |names|
      ensures Each(RuleValue(after), names)[i] == Each(ValueOf(headers), names)[i]
              <==> AllTidy(Ends(Values(WithoutHeader(headers, header), names[i])))
                   && (CanonicalKey(names[i]) == CanonicalKey(header) ==> Unreplaced(headers, header, value))
    {
      var k := SignedNamesAreKeys(headers, i);
      LowerThenCanonical(k);
      ValueAfterIff(headers, header, value, names[i]);
    }
    if CanonicalKey(header) in headers {
      var i := KeysAreSignedNames(headers, CanonicalKey(header));
      LowerThenCanonical(CanonicalKey(header));
      assert CanonicalKey(names[i]) == CanonicalKey(header);
    }
  }

  /** What a request needs for the rule to read it as it was signed, once this header is set. */
  ghost predicate Fits(c: Content, header: string, value: string, style: Style) {
    && Conforms(c.(headers := WithoutHeader(c.headers, header)), SignedNames(c.headers), style)
    && Unreplaced(c.headers, header, value)
  }

  lemma FitsIff(c: Content, header: string, value: string, style: Style)
    requires CanonicalHeaders(c.headers) && ByteQuery(c.query) && style.rounds >= 1
    ensures (RuleParts(c.(headers := Set(c.headers, header, value)), SignedNames(c.headers), style)
             == CodeParts(c, SignedNames(c.headers)))
            == Fits(c, header, value, style)
  {
    RulePathIff(c.path, style);
    QueryFollowsRuleIff(c.query);
    ValuesAfterIff(c.headers, header, value);
  }

  lemma ValuesAfterAreLines(headers: Headers, header: string, value: string)
    requires CanonicalHeaders(headers) && OneLineValues(headers, SignedNames(headers))
    requires CanonicalKey(header) in headers ==> OneLine(value)
    ensures OneLineValues(Set(headers, header, value), SignedNames(headers))
  {
    var names := SignedNames(headers);
    forall i | 0 <= i < |names|
      ensures OneLine(HeaderValue(Set(headers, header, value), names[i]))
    {
      var k := SignedNamesAreKeys(headers, i);
      LowerThenCanonical(k);
      ValueAfterIsLine(headers, header, value, names[i]);
    }
  }

  /** What a name stands for once this header is set. */
  function ValueAfter(headers: Headers, header: string, value: string, name: string): string {
    if CanonicalKey(name) == CanonicalKey(header) then TrimSpace(value) else HeaderValue(headers, name)
  }

  lemma ValueAfterIs(headers: Headers, header: string, value: string, name: string)
    ensures HeaderValue(Set(headers, header, value), name) == ValueAfter(headers, header, value, name)
  {
    if CanonicalKey(name) == CanonicalKey(header) {
      OneValue(Set(headers, header, value), name, value);
    } else {
      SameValuesSameRule(Set(headers, header, value), name, headers);
    }
  }

  lemma ValueAfterIsLine(headers: Headers, header: string, value: string, name: string)
    requires OneLine(HeaderValue(headers, name)) && (CanonicalKey(name) == CanonicalKey(header) ==> OneLine(value))
    ensures OneLine(HeaderValue(Set(headers, header, value), name))
  {
    ValueAfterIs(headers, header, value, name);
    if CanonicalKey(name) == CanonicalKey(header) { TrimSpaceKeepsOut(value, '\n'); }
  }

  /**
   * A receiver that follows the rule reads the request, with the header that was set last, as it was signed without
   * it, exactly when the rest conforms and the header replaced nothing that read otherwise.
   */
  lemma ReceiverAgreesIff(c: Content, header: string, value: string, style: Style)
    requires CanonicalHeaders(c.headers) && style.rounds >= 1
    requires WellFormed(c, SignedNames(c.headers)) && (CanonicalKey(header) in c.headers ==> OneLine(value))
    ensures (RuleText(c.(headers := Set(c.headers, header, value)), SignedNames(c.headers), style)
             == CodeText(c, SignedNames(c.headers)))
            == Fits(c, header, value, style)
  {
    SignedNamesAreTokens(c.headers);
    SignedNamesAreSorted(c.headers);
    ValuesAfterAreLines(c.headers, header, value);
    SameTextIff(c.(headers := Set(c.headers, header, value)), c, SignedNames(c.headers), style);
    FitsIff(c, header, value, style);
  }

  lemma SignedNamesAreSorted(headers: Headers)
    ensures Sorted(SignedNames(headers))
  {
    SortSorts(Each(Lower, SortedKeys(headers.Keys)));
  }

  /** In particular none that began otherwise. */
  lemma OtherBeginning(headers: Headers, header: string, value: string, p: string)
    requires HasPrefix(value, p) && p != "" && SingleSpaced(p) && !IsSpace(p[0]) && !IsSpace(p[|p| - 1])
    requires !HasPrefix(HeaderValue(headers, header), p)
    ensures Unreplaced(headers, header, value) <==> CanonicalKey(header) !in headers
  {
    DifferentBeginning(HeaderValue(headers, header), value, p);
  }

  lemma DifferentBeginning(before: string, value: string, p: string)
    requires HasPrefix(value, p) && p != "" && SingleSpaced(p) && !IsSpace(p[0]) && !IsSpace(p[|p| - 1])
    requires !HasPrefix(before, p)
    ensures before != Tidied(value)
  {
    var rest := value[|p|..];
    assert value == p + rest;
    TidiedAfter(p, rest);
  }

  lemma FitsWithout(c: Content, header: string, value: string, style: Style)
    requires CanonicalKey(header) !in c.headers
    ensures Fits(c, header, value, style) <==> Conforms(c, SignedNames(c.headers), style)
  {
    assert WithoutHeader(c.headers, header) == c.headers;
  }
}
