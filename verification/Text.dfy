/** The string operations that the Go sources call, on sequences of characters. */
module Text {

  datatype Option<+T> = None | Some(value: T)

  /** The place of the first `c` in `s`, or -1. */
  function IndexOf(s: string, c: char): (i: int)
    ensures -1 <= i < |s|
    ensures i == -1 <==> c !in s
    ensures i >= 0 ==> s[i] == c && c !in s[..i]
  {
    if s == "" then -1
    else if s[0] == c then 0
    else
      var i := IndexOf(s[1..], c);
      if i == -1 then -1 else
        assert s[..i + 1] == [s[0]] + s[1..][..i];
        i + 1
  }

  /** Whatever stands before a separator can be found again. */
  lemma {:induction false} IndexOfConcat(a: string, c: char, b: string)
    requires c !in a
    ensures IndexOf(a + [c] + b, c) == |a|
    decreases |a|
  {
    if a != "" {
      assert (a + [c] + b)[1..] == a[1..] + [c] + b;
      IndexOfConcat(a[1..], c, b);
    }
  }

  /** The two sides of the first separator, as `strings.SplitN(s, sep, 2)` gives them. */
  function Cut(s: string, c: char): (r: Option<(string, string)>)
    ensures r.None? <==> c !in s
    ensures r.Some? ==> c !in r.value.0 && s == r.value.0 + [c] + r.value.1
  {
    var i := IndexOf(s, c);
    if i == -1 then None else Some((s[..i], s[i + 1..]))
  }

  lemma CutConcat(a: string, c: char, b: string)
    requires c !in a
    ensures Cut(a + [c] + b, c) == Some((a, b))
  {
    IndexOfConcat(a, c, b);
    var s := a + [c] + b;
    assert s[..|a|] == a && s[|a| + 1..] == b;
  }

  predicate HasPrefix(s: string, p: string) {
    |p| <= |s| && s[..|p|] == p
  }

  function TrimPrefix(s: string, p: string): string {
    if HasPrefix(s, p) then s[|p|..] else s
  }

  lemma PrefixConcat(p: string, rest: string)
    ensures HasPrefix(p + rest, p) && TrimPrefix(p + rest, p) == rest
  {
  }

  lemma HeadOfConcat(a: string, b: string)
    requires a != ""
    ensures (a + b)[0] == a[0] && (a + b)[1..] == a[1..] + b
    ensures [a[0]] + (a[1..] + b) == a + b
  {
  }

  predicate OneLine(s: string) {
    '\n' !in s
  }

  function Join(parts: seq<string>, sep: string): string {
    if parts == [] then ""
    else if |parts| == 1 then parts[0]
    else parts[0] + sep + Join(parts[1..], sep)
  }

  predicate Lacking(parts: seq<string>, c: char) {
    forall k :: 0 <= k < |parts| ==> c !in parts[k]
  }

  /** `strings.Split` with a separator of one character: never the empty list. */
  function Split(s: string, c: char): (parts: seq<string>)
    ensures parts != [] && Lacking(parts, c)
    decreases |s|
  {
    match Cut(s, c)
    case None => [s]
    case Some((a, b)) => [a] + Split(b, c)
  }

  lemma {:induction false} SplitJoin(parts: seq<string>, c: char)
    requires parts != [] && Lacking(parts, c)
    ensures Split(Join(parts, [c]), c) == parts
    decreases |parts|
  {
    if |parts| > 1 {
      CutConcat(parts[0], c, Join(parts[1..], [c]));
      SplitJoin(parts[1..], c);
    }
  }

  lemma {:induction false} JoinSplit(s: string, c: char)
    ensures Join(Split(s, c), [c]) == s
    decreases |s|
  {
    var cut := Cut(s, c);
    if cut.Some? { JoinSplit(cut.value.1, c); }
  }

  lemma {:induction false} JoinConcat(a: seq<string>, b: seq<string>, sep: string)
    requires a != [] && b != []
    ensures Join(a + b, sep) == Join(a, sep) + sep + Join(b, sep)
    decreases |a|
  {
    if |a| == 1 {
      assert (a + b)[1..] == b;
    } else {
      assert (a + b)[1..] == a[1..] + b;
      JoinConcat(a[1..], b, sep);
    }
  }

  lemma {:induction false} JoinKeepsOut(parts: seq<string>, sep: string, c: char)
    requires c !in sep && Lacking(parts, c)
    ensures c !in Join(parts, sep)
    decreases |parts|
  {
    if |parts| > 1 { JoinKeepsOut(parts[1..], sep, c); }
  }

  lemma {:induction false} PartsKeepOut(parts: seq<string>, sep: string, c: char)
    requires c !in Join(parts, sep)
    ensures Lacking(parts, c)
    decreases |parts|
  {
    if |parts| > 1 {
      PartsKeepOut(parts[1..], sep, c);
      assert parts == [parts[0]] + parts[1..];
    }
  }

  /** Joining longer parts gives a longer text. */
  lemma {:induction false} JoinGrows(a: seq<string>, b: seq<string>, sep: string)
    requires |a| == |b| && forall i :: 0 <= i < |a| ==> |a[i]| <= |b[i]|
    ensures |Join(a, sep)| <= |Join(b, sep)|
    ensures (exists i :: 0 <= i < |a| && |a[i]| < |b[i]|) ==> |Join(a, sep)| < |Join(b, sep)|
    decreases |a|
  {
    if |a| > 1 {
      JoinGrows(a[1..], b[1..], sep);
      if i :| 0 < i < |a| && |a[i]| < |b[i]| {
        assert a[1..][i - 1] == a[i] && b[1..][i - 1] == b[i];
      }
    }
  }

  /** `unicode.IsSpace`. */
  predicate IsSpace(c: char) {
    || '\t' <= c <= '\r' || c == ' ' || c == '\U{0085}' || c == '\U{00A0}' || c == '\U{1680}'
    || '\U{2000}' <= c <= '\U{200A}' || c == '\U{2028}' || c == '\U{2029}'
    || c == '\U{202F}' || c == '\U{205F}' || c == '\U{3000}'
  }

  predicate AllSpace(s: string) {
    forall i :: 0 <= i < |s| ==> IsSpace(s[i])
  }

  lemma AllSpaceConcat(a: string, b: string)
    requires AllSpace(a) && AllSpace(b)
    ensures AllSpace(a + b)
  {
  }

  /** No space at either end. */
  predicate Trimmed(s: string) {
    s == "" || (!IsSpace(s[0]) && !IsSpace(s[|s| - 1]))
  }

  function TrimLeft(s: string): (r: string)
    ensures r == "" || !IsSpace(r[0])
    ensures |r| <= |s| && r == s[|s| - |r|..]
  {
    if s != "" && IsSpace(s[0]) then TrimLeft(s[1..]) else s
  }

  function TrimRight(s: string): (r: string)
    ensures r <= s
    ensures r == "" || !IsSpace(r[|r| - 1])
  {
    if s != "" && IsSpace(s[|s| - 1]) then TrimRight(s[..|s| - 1]) else s
  }

  /** `strings.TrimSpace`. */
  function TrimSpace(s: string): (r: string)
    ensures Trimmed(r)
  {
    var l := TrimLeft(s);
    var r := TrimRight(l);
    assert r != "" ==> r[0] == l[0];
    r
  }

  lemma {:induction false} TrimLeftPadded(pad: string, s: string)
    requires AllSpace(pad)
    ensures TrimLeft(pad + s) == TrimLeft(s)
    decreases |pad|
  {
    if pad == "" {
      assert pad + s == s;
    } else {
      assert (pad + s)[1..] == pad[1..] + s;
      TrimLeftPadded(pad[1..], s);
    }
  }

  lemma {:induction false} TrimRightPadded(s: string, pad: string)
    requires AllSpace(pad)
    ensures TrimRight(s + pad) == TrimRight(s)
    decreases |pad|
  {
    if pad == "" {
      assert s + pad == s;
    } else {
      var t := s + pad;
      assert t[..|t| - 1] == s + pad[..|pad| - 1];
      TrimRightPadded(s, pad[..|pad| - 1]);
    }
  }

  lemma {:induction false} TrimLeftBefore(s: string, rest: string)
    requires rest != "" && !IsSpace(rest[0])
    ensures TrimLeft(s + rest) == TrimLeft(s) + rest
    decreases |s|
  {
    if s == "" {
      assert s + rest == rest;
    } else {
      HeadOfConcat(s, rest);
      TrimLeftBefore(s[1..], rest);
    }
  }

  lemma {:induction false} TrimRightAfter(p: string, s: string)
    requires p != "" && !IsSpace(p[|p| - 1])
    ensures TrimRight(p + s) == p + TrimRight(s)
    decreases |s|
  {
    if s == "" {
      assert p + s == p;
    } else {
      assert (p + s)[|p + s| - 1] == s[|s| - 1] && (p + s)[..|p + s| - 1] == p + s[..|s| - 1];
      TrimRightAfter(p, s[..|s| - 1]);
    }
  }

  lemma Regrouped(a: string, b: string, c: string)
    ensures a + b + c == a + (b + c)
  {
  }

  /** Padding of spaces around a trimmed text is exactly what trimming takes away. */
  lemma TrimSpacePadded(left: string, s: string, right: string)
    requires AllSpace(left) && AllSpace(right) && Trimmed(s)
    ensures TrimSpace(left + s + right) == s
  {
    Regrouped(left, s, right);
    TrimLeftPadded(left, s + right);
    TrimSpaceRight(s, right);
  }

  lemma TrimSpaceRight(s: string, right: string)
    requires AllSpace(right) && Trimmed(s)
    ensures TrimRight(TrimLeft(s + right)) == s
  {
    if s == "" {
      assert s + right == right + "";
      TrimLeftPadded(right, "");
    } else {
      assert (s + right)[0] == s[0];
      TrimRightPadded(s, right);
    }
  }

  lemma TrimmedStays(s: string)
    requires Trimmed(s)
    ensures TrimRight(TrimLeft(s)) == s
  {
  }

  lemma TrimSpacePaddedLeft(left: string, s: string)
    requires AllSpace(left) && Trimmed(s)
    ensures TrimSpace(left + s) == s
  {
    TrimLeftPadded(left, s);
    TrimmedStays(s);
  }

  lemma TrimSpacePaddedRight(s: string, right: string)
    requires AllSpace(right) && Trimmed(s)
    ensures TrimSpace(s + right) == s
  {
    TrimSpaceRight(s, right);
  }

  lemma TrimmedBetween(a: string, mid: string, b: string)
    requires a != "" && b != "" && Trimmed(a) && Trimmed(b)
    ensures Trimmed(a + mid + b)
  {
    var s := a + mid + b;
    assert s[0] == a[0] && s[|s| - 1] == b[|b| - 1];
  }

  /** A text without `c` still has none after trimming. */
  lemma TrimSpaceKeepsOut(s: string, c: char)
    requires c !in s
    ensures c !in TrimSpace(s)
  {
  }

  lemma {:induction false} TrimRightRest(s: string)
    ensures AllSpace(s[|TrimRight(s)|..])
    decreases |s|
  {
    if s != "" && IsSpace(s[|s| - 1]) {
      var t := s[..|s| - 1];
      TrimRightRest(t);
      var n := |TrimRight(t)|;
      assert s[n..] == t[n..] + [s[|s| - 1]];
    }
  }

  lemma {:induction false} TrimLeftRest(s: string)
    ensures AllSpace(s[..|s| - |TrimLeft(s)|])
    decreases |s|
  {
    if s != "" && IsSpace(s[0]) {
      TrimLeftRest(s[1..]);
      var n := |s[1..]| - |TrimLeft(s[1..])|;
      assert s[..n + 1] == [s[0]] + s[1..][..n];
      AllSpaceConcat([s[0]], s[1..][..n]);
    }
  }

  lemma TrimmedFromLeft(s: string) returns (left: string)
    ensures AllSpace(left) && s == left + TrimLeft(s)
  {
    left := s[..|s| - |TrimLeft(s)|];
    TrimLeftRest(s);
  }

  lemma TrimmedFromRight(s: string) returns (right: string)
    ensures AllSpace(right) && s == TrimRight(s) + right
  {
    right := s[|TrimRight(s)|..];
    TrimRightRest(s);
  }

  /** Trimming takes spaces away and nothing else. */
  lemma TrimSpaceRest(s: string) returns (left: string, right: string)
    ensures AllSpace(left) && AllSpace(right) && s == left + TrimSpace(s) + right
  {
    left := TrimmedFromLeft(s);
    right := TrimmedFromRight(TrimLeft(s));
    Regrouped(left, TrimSpace(s), right);
  }

  /** Only a text of spaces is trimmed away. */
  lemma TrimmedAwayIff(s: string)
    ensures TrimSpace(s) == "" <==> AllSpace(s)
  {
    var left, right := TrimSpaceRest(s);
    if AllSpace(s) {
      assert s + "" == s;
      TrimSpacePaddedLeft(s, "");
    } else if TrimSpace(s) == "" {
      OnlyPadding(s, left, right);
    }
  }

  lemma OnlyPadding(s: string, left: string, right: string)
    requires AllSpace(left) && AllSpace(right) && s == left + "" + right
    ensures AllSpace(s)
  {
    assert s == left + right;
    AllSpaceConcat(left, right);
  }

  /** What is no space is still there after trimming. */
  lemma TrimSpaceKeeps(s: string, c: char)
    requires !IsSpace(c)
    ensures c in TrimSpace(s) <==> c in s
  {
    var left, right := TrimSpaceRest(s);
    AroundCore(s, left, TrimSpace(s), right, c);
  }

  lemma AroundCore(s: string, left: string, core: string, right: string, c: char)
    requires !IsSpace(c) && AllSpace(left) && AllSpace(right) && s == left + core + right
    ensures c in core <==> c in s
  {
  }

  /** White space among the characters of one byte. */
  lemma SpacesAre(c: char)
    requires c as int < 128
    ensures IsSpace(c) <==> c in " \t\n\r" || c as int == 11 || c as int == 12
  {
  }
}
