/**
 * The path as "Create a canonical request" of AWS Signature Version 4 has it: some services normalise it, and each
 * segment is encoded, once or twice. The code of internal/awssign/awssign.go takes the decoded path as it is.
 */
module PathRule {
  import opened Text
  import opened Lists
  import opened UriEncode
  import opened Canonical

  /** What a service wants: Amazon S3 neither normalises nor encodes twice, the others do both. */
  datatype Style = Style(normalises: bool, rounds: nat)

  // ---------------------------------------------------------------- encoding by segments

  function EncodePath(path: string): string {
    Join(Each(Encode, Split(path, '/')), "/")
  }

  function Iterate(f: string -> string, s: string, n: nat): string {
    if n == 0 then s else f(Iterate(f, s, n - 1))
  }

  function EncodeRounds(path: string, rounds: nat): string {
    Iterate(EncodePath, path, rounds)
  }

  predicate AllUnreserved(s: string) {
    forall i :: 0 <= i < |s| ==> IsUnreserved(s[i])
  }

  /** Only unreserved characters and slashes. */
  predicate PlainPath(path: string) {
    forall i :: 0 <= i < |path| ==> IsUnreserved(path[i]) || path[i] == '/'
  }

  lemma {:induction false} EncodeGrows(s: string)
    ensures |Encode(s)| >= |s|
    ensures AllUnreserved(s) ==> Encode(s) == s
    ensures !AllUnreserved(s) ==> |Encode(s)| > |s|
    decreases |s|
  {
    if s != "" {
      EncodeGrows(s[1..]);
      assert s == [s[0]] + s[1..];
    }
  }

  lemma EncodePathGrows(path: string)
    ensures |EncodePath(path)| >= |path|
    ensures SegmentsUnreserved(path) ==> EncodePath(path) == path
    ensures !SegmentsUnreserved(path) ==> |EncodePath(path)| > |path|
  {
    var segments := Split(path, '/');
    JoinSplit(path, '/');
    forall i | 0 <= i < |segments| { EncodeGrows(segments[i]); }
    JoinGrows(segments, Each(Encode, segments), "/");
    if SegmentsUnreserved(path) { assert Each(Encode, segments) == segments; }
  }

  predicate SegmentsUnreserved(path: string) {
    forall i :: 0 <= i < |Split(path, '/')| ==> AllUnreserved(Split(path, '/')[i])
  }

  lemma {:induction false} SplitWithin(s: string, c: char, d: char)
    requires d !in s
    ensures Lacking(Split(s, c), d)
    decreases |s|
  {
    var cut := Cut(s, c);
    if cut.Some? { SplitWithin(cut.value.1, c, d); }
  }

  lemma PlainPathIff(path: string)
    ensures PlainPath(path) <==> SegmentsUnreserved(path)
  {
    var segments := Split(path, '/');
    JoinSplit(path, '/');
    if PlainPath(path) {
      forall i, j | 0 <= i < |segments| && 0 <= j < |segments[i]|
        ensures IsUnreserved(segments[i][j])
      {
        var d := segments[i][j];
        assert d in segments[i] && '/' !in segments[i];
        if d !in path { SplitWithin(path, '/', d); }
      }
    }
    if SegmentsUnreserved(path) {
      forall i | 0 <= i < |path|
        ensures IsUnreserved(path[i]) || path[i] == '/'
      {
        if !IsUnreserved(path[i]) && path[i] != '/' { JoinKeepsOut(segments, "/", path[i]); }
      }
    }
  }

  lemma EncodePathIff(path: string)
    ensures |EncodePath(path)| >= |path| && (EncodePath(path) == path <==> PlainPath(path))
    ensures !PlainPath(path) ==> |EncodePath(path)| > |path|
  {
    EncodePathGrows(path);
    PlainPathIff(path);
  }

  lemma {:induction false} IterateFixed(f: string -> string, s: string, n: nat)
    requires f(s) == s
    ensures Iterate(f, s, n) == s
    decreases n
  {
    if n > 0 { IterateFixed(f, s, n - 1); }
  }

  lemma {:induction false} IterateGrows(f: string -> string, s: string, n: nat)
    requires (forall t :: |f(t)| >= |t|) && |f(s)| > |s| && n >= 1
    ensures |Iterate(f, s, n)| > |s|
    decreases n
  {
    if n > 1 { IterateGrows(f, s, n - 1); }
  }

  /** However often it is done, encoding changes every path but the plain ones. */
  lemma EncodeRoundsIff(path: string, rounds: nat)
    requires rounds >= 1
    ensures EncodeRounds(path, rounds) == path <==> PlainPath(path)
  {
    EncodePathIff(path);
    if PlainPath(path) {
      IterateFixed(EncodePath, path, rounds);
    } else {
      forall t
        ensures |EncodePath(t)| >= |t|
      {
        EncodePathIff(t);
      }
      IterateGrows(EncodePath, path, rounds);
    }
  }

  // ---------------------------------------------------------------- normalising

  /** Without empty segments and dots; two dots take the segment before them away. */
  function Kept(segments: seq<string>): (kept: seq<string>)
    ensures forall i :: 0 <= i < |kept| ==> kept[i] in segments && Solid(kept[i])
  {
    if segments == [] then []
    else
      var before, last := Kept(segments[..|segments| - 1]), segments[|segments| - 1];
      if last == "" || last == "." then before
      else if last == ".." then (if before == [] then [] else before[..|before| - 1])
      else before + [last]
  }

  /** A segment that stays. */
  predicate Solid(segment: string) {
    segment != "" && segment != "." && segment != ".."
  }

  /** The segments of the normal path: it begins with a slash, and ends with one if the path ended in no name. */
  function NormalSegments(path: string): seq<string> {
    var segments := Split(path, '/');
    var kept := Kept(segments);
    [""] + kept + if kept == [] || !Solid(segments[|segments| - 1]) then [""] else []
  }

  function Normalised(path: string): string {
    Join(NormalSegments(path), "/")
  }

  predicate NormalList(segments: seq<string>) {
    && |segments| >= 2 && segments[0] == ""
    && (forall i :: 0 < i < |segments| - 1 ==> Solid(segments[i]))
    && (segments[|segments| - 1] == "" || Solid(segments[|segments| - 1]))
  }

  /** It begins with a slash, and has no dots and no empty segments but the last. */
  predicate NormalPath(path: string) {
    NormalList(Split(path, '/'))
  }

  lemma NormalSegmentsAreNormal(path: string)
    ensures NormalList(NormalSegments(path)) && Lacking(NormalSegments(path), '/')
  {
  }

  lemma {:induction false} KeptSolid(segments: seq<string>)
    requires forall i :: 0 <= i < |segments| ==> Solid(segments[i])
    ensures Kept(segments) == segments
    decreases |segments|
  {
    if segments != [] { KeptSolid(segments[..|segments| - 1]); }
  }

  lemma {:induction false} KeptAfterEmpty(segments: seq<string>)
    ensures Kept([""] + segments) == Kept(segments)
    decreases |segments|
  {
    var all := [""] + segments;
    if segments == [] {
      assert all[..0] == [];
    } else {
      assert all[..|all| - 1] == [""] + segments[..|segments| - 1];
      KeptAfterEmpty(segments[..|segments| - 1]);
    }
  }

  lemma NormalListStays(segments: seq<string>)
    requires NormalList(segments)
    ensures var kept := Kept(segments);
            [""] + kept + (if kept == [] || !Solid(segments[|segments| - 1]) then [""] else []) == segments
  {
    var inner := segments[1..|segments| - 1];
    KeptSolid(inner);
    KeptAfterEmpty(inner);
    assert segments[..|segments| - 1] == [""] + inner;
    OuterAndInner(segments);
  }

  lemma OuterAndInner(segments: seq<string>)
    requires |segments| >= 2 && segments[0] == ""
    ensures segments == [""] + segments[1..|segments| - 1] + [segments[|segments| - 1]]
    ensures segments == [""] + (segments[1..|segments| - 1] + [segments[|segments| - 1]]) + []
  {
  }

  /** Normalising changes every path but the normal ones. */
  lemma NormalisedIff(path: string)
    ensures Normalised(path) == path <==> NormalPath(path)
    ensures NormalPath(Normalised(path))
  {
    NormalSegmentsAreNormal(path);
    SplitJoin(NormalSegments(path), '/');
    if NormalPath(path) {
      NormalListStays(Split(path, '/'));
      JoinSplit(path, '/');
    }
  }

  // ---------------------------------------------------------------- both

  /** The path of a request; an absent one is the root. */
  function Absolute(path: string): string {
    if path == "" then "/" else path
  }

  function RulePath(path: string, style: Style): string {
    EncodeRounds(if style.normalises then Normalised(Absolute(path)) else Absolute(path), style.rounds)
  }

  /** The service's rule leaves this path alone. */
  predicate PathKept(path: string, style: Style) {
    PlainPath(path) && (style.normalises && path != "" ==> NormalPath(path))
  }

  lemma {:induction false} EncodeMarks(s: string)
    requires !AllUnreserved(s)
    ensures '%' in Encode(s)
    decreases |s|
  {
    if IsUnreserved(s[0]) {
      assert s == [s[0]] + s[1..];
      EncodeMarks(s[1..]);
    } else {
      assert Encode(s)[0] == '%';
    }
  }

  lemma EncodeSolid(segment: string)
    ensures Encode(segment) == "" <==> segment == ""
    ensures Solid(segment) ==> Solid(Encode(segment))
  {
    EncodeGrows(segment);
    if !AllUnreserved(segment) { EncodeMarks(segment); }
  }

  lemma EncodedSegments(path: string)
    ensures Split(EncodePath(path), '/') == Each(Encode, Split(path, '/'))
  {
    EncodedLack(Split(path, '/'), '/');
    SplitJoin(Each(Encode, Split(path, '/')), '/');
  }

  lemma EncodedLack(segments: seq<string>, c: char)
    requires !Plain(c)
    ensures Lacking(Each(Encode, segments), c)
  {
    forall i | 0 <= i < |segments|
      ensures c !in Encode(segments[i])
    {
      EncodeKeepsOut(segments[i], c);
    }
  }

  lemma EncodeNormalList(segments: seq<string>)
    requires NormalList(segments)
    ensures NormalList(Each(Encode, segments))
  {
    forall i | 0 <= i < |segments|
      ensures Encode(segments[i]) == "" <==> segments[i] == ""
      ensures Solid(segments[i]) ==> Solid(Encode(segments[i]))
    {
      EncodeSolid(segments[i]);
    }
    EachKeepsNormal(Encode, segments);
  }

  lemma EachKeepsNormal(f: string -> string, segments: seq<string>)
    requires NormalList(segments)
    requires forall i :: 0 <= i < |segments| ==> (f(segments[i]) == "" <==> segments[i] == "")
    requires forall i :: 0 <= i < |segments| && Solid(segments[i]) ==> Solid(f(segments[i]))
    ensures NormalList(Each(f, segments))
  {
    var encoded := Each(f, segments);
    forall i | 0 < i < |encoded| - 1
      ensures Solid(encoded[i])
    {
      assert Solid(segments[i]);
    }
  }

  lemma EncodePathNormal(path: string)
    requires NormalPath(path)
    ensures NormalPath(EncodePath(path))
  {
    EncodedSegments(path);
    EncodeNormalList(Split(path, '/'));
  }

  lemma {:induction false} IterateNormal(f: string -> string, s: string, n: nat)
    requires NormalPath(s) && forall t :: NormalPath(t) ==> NormalPath(f(t))
    ensures NormalPath(Iterate(f, s, n))
    decreases n
  {
    if n > 0 { IterateNormal(f, s, n - 1); }
  }

  lemma EncodeRoundsNormal(path: string, rounds: nat)
    requires NormalPath(path)
    ensures NormalPath(EncodeRounds(path, rounds))
  {
    forall t | NormalPath(t)
      ensures NormalPath(EncodePath(t))
    {
      EncodePathNormal(t);
    }
    IterateNormal(EncodePath, path, rounds);
  }

  lemma AbsoluteIs(path: string)
    ensures Absolute(path) == UriPath(path)
    ensures PlainPath(Absolute(path)) <==> PlainPath(path)
    ensures NormalPath(Absolute(path)) <==> path == "" || NormalPath(path)
  {
    if path == "" {
      SplitJoin(["", ""], '/');
      assert Join(["", ""], "/") == "/";
    }
  }

  /**
   * The rule's path is the code's, exactly when the path has only unreserved characters and slashes, and, for a service
   * that normalises, is normal already.
   */
  lemma RulePathIff(path: string, style: Style)
    requires style.rounds >= 1
    ensures RulePath(path, style) == UriPath(path) <==> PathKept(path, style)
    ensures path != "" ==> (RulePath(path, style) == path <==> PathKept(path, style))
  {
    var p := Absolute(path);
    AbsoluteIs(path);
    if style.normalises {
      NormalisedIff(p);
      EncodeRoundsNormal(Normalised(p), style.rounds);
      EncodeRoundsIff(Normalised(p), style.rounds);
    } else {
      EncodeRoundsIff(p, style.rounds);
    }
  }
}
