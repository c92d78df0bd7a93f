/**
 * Header values by "Create a canonical request" of AWS Signature Version 4: each value is trimmed and gets one space
 * where it had several, and then they are separated by commas; internal/awssign/awssign.go separates them first, and
 * trims the whole.
 */
module SpacingRule {
  import opened Text
  import opened Lists
  import opened Http
  import opened Canonical

  // ---------------------------------------------------------------- one value

  /** Several spaces in a row become one. */
  function Collapse(s: string): string {
    if |s| < 2 then s
    else if s[0] == ' ' && s[1] == ' ' then Collapse(s[1..])
    else [s[0]] + Collapse(s[1..])
  }

  predicate SingleSpaced(s: string) {
    forall i :: 0 < i < |s| ==> !(s[i - 1] == ' ' && s[i] == ' ')
  }

  function Tidied(value: string): string {
    Collapse(TrimSpace(value))
  }

  predicate Tidy(value: string) {
    Trimmed(value) && SingleSpaced(value)
  }

  lemma {:induction false} CollapseShrinks(s: string)
    ensures |Collapse(s)| <= |s|
    ensures SingleSpaced(s) ==> Collapse(s) == s
    ensures !SingleSpaced(s) ==> |Collapse(s)| < |s|
    decreases |s|
  {
    if |s| >= 2 {
      CollapseShrinks(s[1..]);
      assert s == [s[0]] + s[1..];
      SingleSpacedTail(s);
    }
  }

  lemma SingleSpacedTail(s: string)
    requires |s| >= 2
    ensures SingleSpaced(s) <==> SingleSpaced(s[1..]) && !(s[0] == ' ' && s[1] == ' ')
  {
    var t := s[1..];
    assert forall i :: 0 < i < |t| ==> t[i - 1] == s[i] && t[i] == s[i + 1];
    if SingleSpaced(t) && !(s[0] == ' ' && s[1] == ' ') {
      forall i | 0 < i < |s|
        ensures !(s[i - 1] == ' ' && s[i] == ' ')
      {
        if i > 1 { assert t[i - 2] == s[i - 1] && t[i - 1] == s[i]; }
      }
    }
    if SingleSpaced(s) {
      assert !(s[1 - 1] == ' ' && s[1] == ' ');
      forall i | 0 < i < |t|
        ensures !(t[i - 1] == ' ' && t[i] == ' ')
      {
        assert !(s[i + 1 - 1] == ' ' && s[i + 1] == ' ');
      }
    }
  }

  lemma {:induction false} CollapseKeepsOut(s: string, c: char)
    requires c !in s
    ensures c !in Collapse(s)
    decreases |s|
  {
    if |s| >= 2 { CollapseKeepsOut(s[1..], c); }
  }

  lemma CollapseStep(c: char, rest: string)
    requires rest == "" || !(c == ' ' && rest[0] == ' ')
    ensures Collapse([c] + rest) == [c] + Collapse(rest)
  {
    assert ([c] + rest)[1..] == rest;
  }

  /** What has no space to lose stays in front. */
  lemma {:induction false} CollapseAfter(p: string, rest: string)
    requires p != "" && SingleSpaced(p) && p[|p| - 1] != ' '
    ensures Collapse(p + rest) == p + Collapse(rest)
    decreases |p|
  {
    var c, tail := p[0], p[1..];
    assert p == [c] + tail;
    Regrouped([c], tail, rest);
    CollapseStep(c, tail + rest);
    if tail != "" {
      SingleSpacedTail(p);
      CollapseAfter(tail, rest);
      Regrouped([c], tail, Collapse(rest));
    } else {
      assert tail + rest == rest;
    }
  }

  lemma TidiedAfter(p: string, rest: string)
    requires p != "" && SingleSpaced(p) && !IsSpace(p[0]) && !IsSpace(p[|p| - 1])
    ensures HasPrefix(Tidied(p + rest), p)
  {
    assert (p + rest)[0] == p[0];
    TrimRightAfter(p, rest);
    CollapseAfter(p, TrimRight(rest));
  }

  /** Tidying takes something away from all but tidy values. */
  lemma TidiedShrinks(value: string)
    ensures |Tidied(value)| <= |value|
    ensures Tidied(value) == value <==> Tidy(value)
    ensures Tidied(value) != value ==> |Tidied(value)| < |value|
  {
    var left, right := TrimSpaceRest(value);
    CollapseShrinks(TrimSpace(value));
    if left == "" && right == "" {
      assert value == TrimSpace(value);
    } else if Trimmed(value) {
      TrimmedStays(value);
    }
  }

  // ---------------------------------------------------------------- the values of a header

  /** The values without the leading space of the first and the trailing space of the last. */
  function Ends(values: seq<string>): (r: seq<string>)
    ensures |r| == |values|
  {
    if values == [] then []
    else
      var last := |values| - 1;
      var begun := values[0 := TrimLeft(values[0])];
      begun[last := TrimRight(begun[last])]
  }

  lemma {:induction false} TrimLeftOfJoin(values: seq<string>)
    requires values != []
    ensures TrimLeft(Join(values, ",")) == Join(values[0 := TrimLeft(values[0])], ",")
  {
    var begun := values[0 := TrimLeft(values[0])];
    if |values| > 1 {
      assert begun[1..] == values[1..];
      var rest := "," + Join(values[1..], ",");
      Regrouped(values[0], ",", Join(values[1..], ","));
      Regrouped(begun[0], ",", Join(values[1..], ","));
      TrimLeftBefore(values[0], rest);
    }
  }

  lemma TrimRightOfJoin(values: seq<string>)
    requires values != []
    ensures TrimRight(Join(values, ",")) == Join(values[|values| - 1 := TrimRight(values[|values| - 1])], ",")
  {
    var last := |values| - 1;
    var ended := values[last := TrimRight(values[last])];
    if last > 0 {
      var before := Join(values[..last], ",") + ",";
      JoinConcat(values[..last], [values[last]], ",");
      JoinConcat(values[..last], [ended[last]], ",");
      assert values == values[..last] + [values[last]] && ended == values[..last] + [ended[last]];
      TrimRightAfter(before, values[last]);
    }
  }

  /** Trimming the joined text trims at its two ends only, because a comma is no space. */
  lemma TrimSpaceOfJoin(values: seq<string>)
    ensures TrimSpace(Join(values, ",")) == Join(Ends(values), ",")
  {
    if values != [] {
      TrimLeftOfJoin(values);
      TrimRightOfJoin(values[0 := TrimLeft(values[0])]);
    }
  }

  lemma TrimSpaceOfPadded(s: string, pad: string)
    requires AllSpace(pad)
    ensures TrimSpace(s + pad) == TrimSpace(s)
  {
    var left, right := TrimSpaceRest(s);
    CoreOfPadded(s, left, TrimSpace(s), right, pad);
  }

  lemma CoreOfPadded(s: string, left: string, core: string, right: string, pad: string)
    requires s == left + core + right && AllSpace(left) && AllSpace(right) && AllSpace(pad) && Trimmed(core)
    ensures TrimSpace(s + pad) == core
  {
    AllSpaceConcat(right, pad);
    Regrouped(left + core, right, pad);
    TrimSpacePadded(left, core, right + pad);
  }

  /** Which of the ends was trimmed before makes no difference. */
  lemma TidiedFromEnds(value: string)
    ensures Tidied(TrimLeft(value)) == Tidied(value) == Tidied(TrimRight(value))
  {
    TidiedFromLeft(value, TrimLeft(value));
    var pad := TrimmedFromRight(value);
    TidiedFromRight(value, TrimRight(value), pad);
  }

  lemma TidiedFromLeft(value: string, begun: string)
    requires begun == TrimLeft(value)
    ensures Tidied(begun) == Tidied(value)
  {
    assert TrimLeft(begun) == begun;
  }

  lemma TidiedFromRight(value: string, ended: string, pad: string)
    requires AllSpace(pad) && value == ended + pad
    ensures Tidied(ended) == Tidied(value)
  {
    TrimSpaceOfPadded(ended, pad);
  }

  lemma TidiedEnds(values: seq<string>)
    ensures Each(Tidied, Ends(values)) == Each(Tidied, values)
  {
    if values != [] {
      var first := TrimLeft(values[0]);
      var before := values[0 := first][|values| - 1];
      TidiedFromEnds(values[0]);
      TidiedFromEnds(before);
      EndsAgree(Tidied, values, first, TrimRight(before));
    }
  }

  lemma EndsAgree(f: string -> string, values: seq<string>, first: string, last: string)
    requires values != [] && f(first) == f(values[0]) && f(last) == f(values[0 := first][|values| - 1])
    ensures Each(f, values[0 := first][|values| - 1 := last]) == Each(f, values)
  {
    SameAfterUpdate(f, values, 0, first);
    SameAfterUpdate(f, values[0 := first], |values| - 1, last);
  }

  lemma SameAfterUpdate(f: string -> string, values: seq<string>, i: nat, value: string)
    requires i < |values| && f(value) == f(values[i])
    ensures Each(f, values[i := value]) == Each(f, values)
  {
  }

  predicate AllTidy(values: seq<string>) {
    forall i :: 0 <= i < |values| ==> Tidy(values[i])
  }

  lemma TidiedJoinIff(values: seq<string>)
    ensures Join(values, ",") == Join(Each(Tidied, values), ",") <==> AllTidy(values)
  {
    var tidied := Each(Tidied, values);
    forall i | 0 <= i < |values|
      ensures |tidied[i]| <= |values[i]| && (Tidy(values[i]) <==> tidied[i] == values[i])
      ensures tidied[i] != values[i] ==> |tidied[i]| < |values[i]|
    {
      TidiedShrinks(values[i]);
    }
    JoinGrows(tidied, values, ",");
    if AllTidy(values) { assert tidied == values; }
  }

  function RuleHeader(headers: Headers, name: string): string {
    Join(Each(Tidied, Values(headers, name)), ",")
  }

  /**
   * The code's value of a header is the rule's, exactly when, but for the leading space of the first and the trailing
   * space of the last, no value begins or ends with white space or has two spaces in a row.
   */
  lemma RuleHeaderIff(headers: Headers, name: string)
    ensures RuleHeader(headers, name) == HeaderValue(headers, name) <==> AllTidy(Ends(Values(headers, name)))
  {
    var values := Values(headers, name);
    TrimSpaceOfJoin(values);
    TidiedEnds(values);
    TidiedJoinIff(Ends(values));
  }

  /** Space after the first of two tidy values stays in the code's value, and not in the rule's. */
  lemma SpaceBeforeComma(headers: Headers, name: string, a: string, pad: string, b: string)
    requires Values(headers, name) == [a + pad, b] && a != "" && b != "" && Tidy(a) && Tidy(b) && AllSpace(pad)
    ensures HeaderValue(headers, name) == a + pad + "," + b
    ensures RuleHeader(headers, name) == a + "," + b
  {
    CodeOfTwo(a, pad, b);
    RuleOfTwo(a, pad, b);
  }

  lemma CodeOfTwo(a: string, pad: string, b: string)
    requires a != "" && b != "" && Trimmed(a) && Trimmed(b)
    ensures TrimSpace(Join([a + pad, b], ",")) == a + pad + "," + b
  {
    TwoValues(a + pad, b);
    TrimmedBetween(a, pad + ",", b);
    Regrouped(a, pad, ",");
    TrimmedStays(a + pad + "," + b);
  }

  lemma RuleOfTwo(a: string, pad: string, b: string)
    requires Tidy(a) && Tidy(b) && AllSpace(pad)
    ensures Join(Each(Tidied, [a + pad, b]), ",") == a + "," + b
  {
    TidiedShrinks(a);
    TidiedShrinks(b);
    TidiedFromRight(a + pad, a, pad);
    EachOfTwo(Tidied, a + pad, b);
    TwoValues(a, b);
  }

  lemma EachOfTwo(f: string -> string, a: string, b: string)
    ensures Each(f, [a, b]) == [f(a), f(b)]
  {
  }

  lemma TwoValues(a: string, b: string)
    ensures Join([a, b], ",") == a + "," + b
  {
    JoinConcat([a], [b], ",");
    assert [a] + [b] == [a, b];
  }

  /** A character that is not in the code's value is not in the rule's. */
  lemma RuleHeaderKeepsOut(headers: Headers, name: string, c: char)
    requires c != ',' && c !in HeaderValue(headers, name)
    ensures c !in RuleHeader(headers, name)
  {
    var values := Values(headers, name);
    TrimSpaceOfJoin(values);
    PartsKeepOut(Ends(values), ",", c);
    TidiedEnds(values);
    TidiedJoinKeepsOut(Ends(values), c);
  }

  lemma TidiedJoinKeepsOut(values: seq<string>, c: char)
    requires c != ',' && Lacking(values, c)
    ensures c !in Join(Each(Tidied, values), ",")
  {
    forall i | 0 <= i < |values| { TidiedKeepsOut(values[i], c); }
    JoinKeepsOut(Each(Tidied, values), ",", c);
  }

  lemma TidiedKeepsOut(value: string, c: char)
    requires c !in value
    ensures c !in Tidied(value)
  {
    TrimSpaceKeepsOut(value, c);
    CollapseKeepsOut(TrimSpace(value), c);
  }
}
