/** `expandEnv` of internal/config/config.go: ${VAR} and ${VAR:-default}. */
module ExpandEnv {
  import opened Text

  // ---------------------------------------------------------------- references

  datatype Ref = Ref(name: string, fallback: Option<string>)

  predicate NameStart(c: char) {
    'a' <= c <= 'z' || 'A' <= c <= 'Z' || c == '_'
  }

  predicate NameChar(c: char) {
    NameStart(c) || '0' <= c <= '9'
  }

  /** What the pattern accepts as a name and as a default. */
  predicate ValidRef(ref: Ref) {
    && ref.name != "" && NameStart(ref.name[0])
    && (forall i :: 0 <= i < |ref.name| ==> NameChar(ref.name[i]))
    && (ref.fallback.Some? ==> '}' !in ref.fallback.value)
  }

  function Closing(ref: Ref): string {
    if ref.fallback.None? then ['}'] else [':', '-'] + (ref.fallback.value + ['}'])
  }

  function TextOf(ref: Ref): string {
    ['$', '{'] + (ref.name + Closing(ref))
  }

  /** A reference begins here. */
  ghost predicate StartsRef(s: string) {
    exists ref :: ValidRef(ref) && TextOf(ref) <= s
  }

  type Env = map<string, string>

  /** The variable when it is set and not empty, else the default. */
  function ValueOf(ref: Ref, env: Env): string {
    var val := if ref.name in env then env[ref.name] else "";
    if val != "" then val else if ref.fallback.Some? then ref.fallback.value else ""
  }

  // ---------------------------------------------------------------- the scanner

  function NameLength(s: string): (n: nat)
    ensures n <= |s|
    ensures forall i :: 0 <= i < n ==> NameChar(s[i])
    ensures n < |s| ==> !NameChar(s[n])
  {
    if s == "" || !NameChar(s[0]) then 0 else 1 + NameLength(s[1..])
  }

  /** The reference at the very beginning of `s`, if there is one. */
  function MatchAt(s: string): (r: Option<Ref>)
    ensures r.Some? ==> ValidRef(r.value) && TextOf(r.value) <= s
  {
    if !HasPrefix(s, ['$', '{']) || |s| == 2 || !NameStart(s[2]) then None
    else
      var n := NameLength(s[2..]);
      var name, fallback := s[2..][..n], MatchClosing(s[2..][n..]);
      if fallback.None? then None
      else
        assert s == ['$', '{'] + (name + s[2..][n..]);
        Some(Ref(name, fallback.value))
  }

  /** The rest of a reference after its name: the default, if any, up to the brace. */
  function MatchClosing(t: string): (r: Option<Option<string>>)
    ensures r.Some? && r.value.Some? ==> '}' !in r.value.value
    ensures r.Some? ==> Closing(Ref("", r.value)) <= t
  {
    if HasPrefix(t, ['}']) then Some(None)
    else if HasPrefix(t, [':', '-']) then
      var end := Cut(t[2..], '}');
      if end.None? then None
      else
        assert t == [':', '-'] + (end.value.0 + ['}']) + end.value.1;
        Some(Some(end.value.0))
    else None
  }

  lemma {:induction false} NameLengthConcat(name: string, rest: string)
    requires forall i :: 0 <= i < |name| ==> NameChar(name[i])
    requires rest != "" && !NameChar(rest[0])
    ensures NameLength(name + rest) == |name|
    decreases |name|
  {
    if name == "" {
      assert name + rest == rest;
    } else {
      assert (name + rest)[1..] == name[1..] + rest;
      NameLengthConcat(name[1..], rest);
    }
  }

  lemma MatchClosingComplete(ref: Ref, rest: string)
    requires ValidRef(ref)
    ensures MatchClosing(Closing(ref) + rest) == Some(ref.fallback)
  {
    if ref.fallback.Some? {
      var t := Closing(ref) + rest;
      CutConcat(ref.fallback.value, '}', rest);
      assert t[2..] == ref.fallback.value + ['}'] + rest;
    }
  }

  /** The scanner finds every reference, whatever follows it; so none is a prefix of another. */
  lemma MatchComplete(ref: Ref, rest: string)
    requires ValidRef(ref)
    ensures MatchAt(TextOf(ref) + rest) == Some(ref)
  {
    var tail := Closing(ref) + rest;
    NameLengthConcat(ref.name, tail);
    MatchClosingComplete(ref, rest);
    RefTogether(ref.name, Closing(ref), rest);
    MatchNameAnd(ref.name, tail);
  }

  lemma RefTogether(name: string, closing: string, rest: string)
    ensures ['$', '{'] + (name + closing) + rest == ['$', '{'] + (name + (closing + rest))
  {
  }

  lemma MatchNameAnd(name: string, tail: string)
    requires name != "" && NameStart(name[0]) && NameLength(name + tail) == |name| && MatchClosing(tail).Some?
    ensures MatchAt(['$', '{'] + (name + tail)) == Some(Ref(name, MatchClosing(tail).value))
  {
    var s := ['$', '{'] + (name + tail);
    assert s[2..] == name + tail;
    assert (name + tail)[..|name|] == name && (name + tail)[|name|..] == tail;
  }

  lemma PrefixAndRest(p: string, s: string)
    requires p <= s
    ensures s == p + s[|p|..]
  {
  }

  lemma StartsRefIff(s: string)
    ensures StartsRef(s) <==> MatchAt(s).Some?
  {
    if StartsRef(s) {
      var ref :| ValidRef(ref) && TextOf(ref) <= s;
      MatchComplete(ref, s[|TextOf(ref)|..]);
      PrefixAndRest(TextOf(ref), s);
    }
  }

  // ---------------------------------------------------------------- the replacement

  /** `FindStringSubmatch`: the leftmost match, anywhere in `s`. */
  function FindSubmatch(s: string): Option<Ref> {
    if s == "" then None
    else if MatchAt(s).Some? then MatchAt(s)
    else FindSubmatch(s[1..])
  }

  /** The callback, which matches the matched text a second time. */
  function Replacement(matched: string, env: Env): string {
    match FindSubmatch(matched)
    case None => matched
    case Some(ref) => ValueOf(ref, env)
  }

  /** `ReplaceAllStringFunc`. */
  function Expand(s: string, env: Env): string
    decreases |s|
  {
    if s == "" then ""
    else
      match MatchAt(s)
      case None => [s[0]] + Expand(s[1..], env)
      case Some(ref) => Replacement(s[..|TextOf(ref)|], env) + Expand(s[|TextOf(ref)|..], env)
  }

  /** The second match is the whole of the first, so the branch that returns the text itself is never taken. */
  lemma RematchIsWhole(ref: Ref)
    requires ValidRef(ref)
    ensures FindSubmatch(TextOf(ref)) == Some(ref)
  {
    MatchComplete(ref, "");
    assert TextOf(ref) + "" == TextOf(ref);
  }

  /** A reference is replaced by its value, and the value itself is not looked at again. */
  lemma ExpandRef(ref: Ref, rest: string, env: Env)
    requires ValidRef(ref)
    ensures Expand(TextOf(ref) + rest, env) == ValueOf(ref, env) + Expand(rest, env)
  {
    MatchComplete(ref, rest);
    RematchIsWhole(ref);
    var s := TextOf(ref) + rest;
    assert s[..|TextOf(ref)|] == TextOf(ref) && s[|TextOf(ref)|..] == rest;
  }

  /** A letter of the alphabet, or an underscore. */
  predicate IsLetter(c: char) {
    65 <= c as int <= 90 || 97 <= c as int <= 122 || c as int == 95
  }

  predicate IsName(name: string) {
    && name != "" && IsLetter(name[0])
    && forall i :: 0 <= i < |name| ==> IsLetter(name[i]) || 48 <= name[i] as int <= 57
  }

  /** A reference as it is written, without a default or with one. */
  function Written(name: string, fallback: Option<string>): string {
    match fallback
    case None => "${" + name + "}"
    case Some(text) => "${" + name + ":-" + text + "}"
  }

  predicate NoBrace(fallback: Option<string>) {
    fallback.Some? ==> '}' !in fallback.value
  }

  lemma WrittenIs(name: string, fallback: Option<string>)
    ensures Written(name, fallback) == TextOf(Ref(name, fallback))
    ensures ValidRef(Ref(name, fallback)) <==> IsName(name) && NoBrace(fallback)
  {
    match fallback
    case None => ClosedName(name);
    case Some(text) => ClosedDefault(name, text);
  }

  lemma ClosedName(name: string)
    ensures "${" + name + "}" == ['$', '{'] + (name + ['}'])
  {
  }

  lemma ClosedDefault(name: string, text: string)
    ensures "${" + name + ":-" + text + "}" == ['$', '{'] + (name + ([':', '-'] + (text + ['}'])))
  {
  }

  /**
   * A written reference becomes the variable's value, if that is set and not empty, or else the default, or nothing;
   * a default may hold anything but a closing brace.
   */
  lemma ExpandWritten(name: string, fallback: Option<string>, rest: string, env: Env)
    requires IsName(name) && NoBrace(fallback)
    ensures Expand(Written(name, fallback) + rest, env)
            == (if name in env && |env[name]| >= 1 then env[name]
                else if fallback.Some? then fallback.value else "") + Expand(rest, env)
  {
    WrittenIs(name, fallback);
    ExpandRef(Ref(name, fallback), rest, env);
  }

  /** And whatever the scanner takes for a reference is written so. */
  lemma MatchedIsWritten(s: string) returns (name: string, fallback: Option<string>, rest: string)
    requires MatchAt(s).Some?
    ensures IsName(name) && NoBrace(fallback) && s == Written(name, fallback) + rest
  {
    var ref := MatchAt(s).value;
    name, fallback := ref.name, ref.fallback;
    rest := s[|TextOf(ref)|..];
    PrefixAndRest(TextOf(ref), s);
    WrittenIs(name, fallback);
  }

  // ---------------------------------------------------------------- decompositions

  datatype Piece = Lit(text: string) | Var(ref: Ref)

  function Raw(pieces: seq<Piece>): string {
    if pieces == [] then ""
    else (match pieces[0] case Lit(text) => text case Var(ref) => TextOf(ref)) + Raw(pieces[1..])
  }

  function Output(pieces: seq<Piece>, env: Env): string {
    if pieces == [] then ""
    else (match pieces[0] case Lit(text) => text case Var(ref) => ValueOf(ref, env)) + Output(pieces[1..], env)
  }

  /** No reference begins inside `text` when `rest` follows it. */
  ghost predicate NoneBegins(text: string, rest: string) {
    forall i :: 0 <= i < |text| ==> !StartsRef(text[i..] + rest)
  }

  /** The literal pieces are as long as they can be: every reference that begins in the text is a piece or inside one. */
  ghost predicate Leftmost(pieces: seq<Piece>) {
    pieces == []
    || (Leftmost(pieces[1..])
        && match pieces[0]
           case Lit(text) => NoneBegins(text, Raw(pieces[1..]))
           case Var(ref) => ValidRef(ref))
  }

  lemma ExpandStep(s: string, env: Env)
    requires s != "" && MatchAt(s).None?
    ensures Expand(s, env) == [s[0]] + Expand(s[1..], env)
  {
  }

  lemma {:induction false} ExpandLit(text: string, rest: string, env: Env)
    requires NoneBegins(text, rest)
    ensures Expand(text + rest, env) == text + Expand(rest, env)
    decreases |text|
  {
    if text == "" {
      assert text + rest == rest;
    } else {
      NoneBeginsTail(text, rest);
      ExpandLit(text[1..], rest, env);
      ExpandStep(text + rest, env);
      HeadOfConcat(text, rest);
      HeadOfConcat(text, Expand(rest, env));
    }
  }

  lemma NoneBeginsTail(text: string, rest: string)
    requires text != "" && NoneBegins(text, rest)
    ensures NoneBegins(text[1..], rest) && MatchAt(text + rest).None?
  {
    assert text[0..] + rest == text + rest;
    StartsRefIff(text + rest);
    assert forall i :: 0 <= i < |text[1..]| ==> text[1..][i..] == text[i + 1..];
  }

  /** Any leftmost decomposition of the input tells the output. */
  lemma {:induction false} ExpandIsOutput(pieces: seq<Piece>, env: Env)
    requires Leftmost(pieces)
    ensures Expand(Raw(pieces), env) == Output(pieces, env)
    decreases |pieces|
  {
    if pieces != [] {
      ExpandIsOutput(pieces[1..], env);
      match pieces[0]
      case Lit(text) => ExpandLit(text, Raw(pieces[1..]), env);
      case Var(ref) => ExpandRef(ref, Raw(pieces[1..]), env);
    }
  }

  /** And every input has one. */
  lemma {:induction false} Decomposition(s: string) returns (pieces: seq<Piece>)
    ensures Leftmost(pieces) && Raw(pieces) == s
    decreases |s|
  {
    if s == "" {
      pieces := [];
    } else {
      StartsRefIff(s);
      match MatchAt(s)
      case None =>
        var rest := Decomposition(s[1..]);
        pieces := [Lit([s[0]])] + rest;
        assert pieces[1..] == rest && [s[0]][0..] + Raw(rest) == s;
      case Some(ref) =>
        var rest := Decomposition(s[|TextOf(ref)|..]);
        pieces := [Var(ref)] + rest;
        assert pieces[1..] == rest;
    }
  }

  /** Exactly the texts without references are left alone under every environment. */
  lemma FixedPointIff(s: string)
    ensures (forall env :: Expand(s, env) == s) <==> NoneBegins(s, "")
  {
    if NoneBegins(s, "") {
      forall env ensures Expand(s, env) == s {
        ExpandLit(s, "", env);
        assert s + "" == s;
      }
    } else {
      var pieces := Decomposition(s);
      if forall j :: 0 <= j < |pieces| ==> pieces[j].Lit? { OnlyText(pieces); }
      var j :| 0 <= j < |pieces| && pieces[j].Var?;
      var long := seq(|s| + 1, _ => 'x');
      var env := map[pieces[j].ref.name := long];
      ExpandIsOutput(pieces, env);
      OutputAtLeast(pieces, j, env);
      assert |Expand(s, env)| > |s|;
    }
  }

  lemma NoneBeginsConcat(text: string, rest: string)
    requires NoneBegins(text, rest) && NoneBegins(rest, "")
    ensures NoneBegins(text + rest, "")
  {
    forall i | 0 <= i < |text + rest|
      ensures !StartsRef((text + rest)[i..] + "")
    {
      Suffix(text, rest, i);
    }
  }

  lemma Suffix(text: string, rest: string, i: nat)
    requires i < |text + rest|
    ensures (text + rest)[i..] + "" == if i < |text| then text[i..] + rest else rest[i - |text|..] + ""
  {
  }

  lemma {:induction false} OnlyText(pieces: seq<Piece>)
    requires Leftmost(pieces) && forall j :: 0 <= j < |pieces| ==> pieces[j].Lit?
    ensures NoneBegins(Raw(pieces), "")
    decreases |pieces|
  {
    if pieces != [] {
      OnlyText(pieces[1..]);
      NoneBeginsConcat(pieces[0].text, Raw(pieces[1..]));
    }
  }

  lemma {:induction false} OutputAtLeast(pieces: seq<Piece>, j: nat, env: Env)
    requires j < |pieces| && pieces[j].Var?
    ensures |Output(pieces, env)| >= |ValueOf(pieces[j].ref, env)|
    decreases |pieces|
  {
    if j > 0 { OutputAtLeast(pieces[1..], j - 1, env); }
  }
}
