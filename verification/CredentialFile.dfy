/** `parseINI` of internal/awssign/awssign.go: one section of a credentials file. */
module CredentialFile {
  import opened Text
  import opened Signing

  const KEY_ID := "aws_access_key_id"
  const SECRET := "aws_secret_access_key"
  const TOKEN := "aws_session_token"

  function Target(profile: string): string {
    "[" + profile + "]"
  }

  // ---------------------------------------------------------------- the parser

  datatype State = State(creds: Credentials, inSection: bool)

  const START := State(Credentials("", "", ""), false)

  function Assigned(creds: Credentials, key: string, val: string): Credentials {
    if key == KEY_ID then creds.(accessKeyID := val)
    else if key == SECRET then creds.(secretAccessKey := val)
    else if key == TOKEN then creds.(sessionToken := val)
    else creds
  }

  /** What a line does, once it is trimmed. */
  function Step(st: State, line: string, target: string): State {
    if line == "" || line[0] == '#' then st
    else if line[0] == '[' then st.(inSection := line == target)
    else if !st.inSection then st
    else
      match Cut(line, '=')
      case None => st
      case Some((left, right)) => st.(creds := Assigned(st.creds, TrimSpace(left), TrimSpace(right)))
  }

  function Scan(lines: seq<string>, target: string): State {
    if lines == [] then START
    else Step(Scan(lines[..|lines| - 1], target), TrimSpace(lines[|lines| - 1]), target)
  }

  /** The body of the loop over the lines. */
  method ParseLine(creds: Credentials, inSection: bool, raw: string, target: string)
    returns (creds': Credentials, inSection': bool)
    ensures State(creds', inSection') == Step(State(creds, inSection), TrimSpace(raw), target)
  {
    creds', inSection' := creds, inSection;
    var line := TrimSpace(raw);
    if line == "" || line[0] == '#' {
      return;
    }
    if line[0] == '[' {
      inSection' := line == target;
      return;
    }
    if !inSection {
      return;
    }
    var parts := Cut(line, '=');
    if parts.Some? {
      creds' := Assigned(creds, TrimSpace(parts.value.0), TrimSpace(parts.value.1));
    }
  }

  method ParseINI(content: string, profile: string) returns (creds: Credentials)
    ensures creds == Scan(Split(content, '\n'), Target(profile)).creds
  {
    var inSection;
    creds, inSection := ScanLines(Split(content, '\n'), Target(profile));
  }

  /** The loop over the lines. */
  method ScanLines(lines: seq<string>, target: string) returns (creds: Credentials, inSection: bool)
    ensures State(creds, inSection) == Scan(lines, target)
  {
    creds, inSection := Credentials("", "", ""), false;
    for i := 0 to |lines|
      invariant State(creds, inSection) == Scan(lines[..i], target)
    {
      ScanNext(lines, i, target);
      creds, inSection := ParseLine(creds, inSection, lines[i], target);
    }
    assert lines[..|lines|] == lines;
  }

  lemma ScanNext(lines: seq<string>, i: nat, target: string)
    requires i < |lines|
    ensures Scan(lines[..i + 1], target) == Step(Scan(lines[..i], target), TrimSpace(lines[i]), target)
  {
    assert lines[..i + 1][..i] == lines[..i];
  }

  // ---------------------------------------------------------------- files, line by line

  /** The kinds of lines; every `l`, `m`, `n`, `r` is padding. */
  datatype Item =
    | Blank(l: string)
    | Comment(l: string, text: string)
    | Header(l: string, header: string, r: string)
    | Assign(l: string, key: string, m: string, n: string, val: string, r: string)
    | Bare(l: string, word: string, r: string)

  predicate Pad(s: string) {
    AllSpace(s) && OneLine(s)
  }

  predicate Ordinary(s: string) {
    Trimmed(s) && OneLine(s) && (s != "" ==> s[0] != '#' && s[0] != '[')
  }

  predicate WellFormed(item: Item) {
    match item
    case Blank(l) => Pad(l)
    case Comment(l, text) => Pad(l) && OneLine(text)
    case Header(l, header, r) => Pad(l) && Pad(r) && Trimmed(header) && OneLine(header) && header != "" && header[0] == '['
    case Assign(l, key, m, n, val, r) =>
      && Pad(l) && Pad(m) && Pad(n) && Pad(r) && Ordinary(key) && '=' !in key && Trimmed(val) && OneLine(val)
    case Bare(l, word, r) => Pad(l) && Pad(r) && Ordinary(word) && word != "" && '=' !in word
  }

  function Line(item: Item): string {
    match item
    case Blank(l) => l
    case Comment(l, text) => l + ("#" + text)
    case Header(l, header, r) => l + header + r
    case Assign(l, key, m, n, val, r) => (l + key + m) + "=" + (n + val + r)
    case Bare(l, word, r) => l + word + r
  }

  function FileLines(items: seq<Item>): (lines: seq<string>)
    ensures |lines| == |items|
  {
    if items == [] then [] else FileLines(items[..|items| - 1]) + [Line(items[|items| - 1])]
  }

  /** The file's text; a file has at least one line. */
  function FileText(items: seq<Item>): string {
    Join(FileLines(items), "\n")
  }

  // ---------------------------------------------------------------- what a file says

  /** Whether the last header among the items is the profile's. */
  predicate InSection(items: seq<Item>, target: string) {
    items != []
    && var last := items[|items| - 1];
       if last.Header? then last.header == target else InSection(items[..|items| - 1], target)
  }

  /** The assignment number `i` is one to `key` in a section of the profile. */
  predicate Sets(items: seq<Item>, target: string, key: string, i: nat) {
    i < |items| && items[i].Assign? && items[i].key == key && InSection(items[..i], target)
  }

  function Setting(items: seq<Item>, target: string, key: string): string {
    if items == [] then ""
    else
      var last := |items| - 1;
      if Sets(items, target, key, last) then items[last].val else Setting(items[..last], target, key)
  }

  /** The last assignment to a key in any section of the profile decides; without one the setting is empty. */
  lemma {:induction false} LastAssignmentWins(items: seq<Item>, target: string, key: string)
    ensures if exists i: nat :: Sets(items, target, key, i) then
              exists i: nat :: Sets(items, target, key, i) && Setting(items, target, key) == items[i].val
                && forall j: nat :: Sets(items, target, key, j) ==> j <= i
            else Setting(items, target, key) == ""
    decreases |items|
  {
    if items != [] {
      var last := |items| - 1;
      if !Sets(items, target, key, last) {
        var before := items[..last];
        forall i: nat
          ensures Sets(items, target, key, i) <==> Sets(before, target, key, i)
        {
          if i < last { assert before[..i] == items[..i]; }
        }
        LastAssignmentWins(before, target, key);
      }
    }
  }

  // ---------------------------------------------------------------- reading back what was written

  lemma TrimFirst(l: string, s: string)
    requires AllSpace(l) && s != "" && !IsSpace(s[0])
    ensures TrimSpace(l + s) != "" && TrimSpace(l + s)[0] == s[0]
  {
    TrimLeftPadded(l, s);
    TrimRightKeepsFirst(s);
  }

  lemma {:induction false} TrimRightKeepsFirst(s: string)
    requires s != "" && !IsSpace(s[0])
    ensures TrimRight(s) != "" && TrimRight(s)[0] == s[0]
    decreases |s|
  {
    if |s| > 1 && IsSpace(s[|s| - 1]) { TrimRightKeepsFirst(s[..|s| - 1]); }
  }

  /** The trimmed form of an assignment still splits at its first '=' into the padded key and the padded value. */
  lemma TrimAssign(l: string, key: string, m: string, n: string, val: string, r: string)
    requires WellFormed(Assign(l, key, m, n, val, r))
    ensures var t := TrimSpace(Line(Assign(l, key, m, n, val, r)));
            && t != "" && t[0] != '#' && t[0] != '[' && '=' in t
            && TrimSpace(Cut(t, '=').value.0) == key && TrimSpace(Cut(t, '=').value.1) == val
  {
    var before, left := if key == "" then l + m else l, if key == "" then "" else key + m;
    var right, after := if val == "" then "" else n + val, if val == "" then n + r else r;
    var t := left + ['='] + right;
    AssignParts(l, key, m, n, val, r);
    assert Trimmed(t) by {
      assert t[0] == if key == "" then '=' else key[0];
      assert t[|t| - 1] == if val == "" then '=' else val[|val| - 1];
    }
    TrimSpacePadded(before, t, after);
    assert !IsSpace('=');
    CutConcat(left, '=', right);
    TrimSpacePaddedRight(key, m);
    TrimSpacePaddedLeft(n, val);
  }

  lemma AssignParts(l: string, key: string, m: string, n: string, val: string, r: string)
    ensures var before, left := if key == "" then l + m else l, if key == "" then "" else key + m;
            var right, after := if val == "" then "" else n + val, if val == "" then n + r else r;
            (l + key + m) + "=" + (n + val + r) == before + (left + ['='] + right) + after
  {
  }

  /** One line of a written file does to the settings what it says. */
  lemma StepOfLine(st: State, item: Item, target: string)
    requires WellFormed(item)
    ensures Step(st, TrimSpace(Line(item)), target)
            == match item
               case Header(_, header, _) => st.(inSection := header == target)
               case Assign(_, key, _, _, val, _) =>
                 if st.inSection then st.(creds := Assigned(st.creds, key, val)) else st
               case _ => st
  {
    match item
    case Blank(l) =>
      TrimSpacePaddedLeft(l, "");
      assert l + "" == l;
    case Comment(l, text) =>
      TrimFirst(l, "#" + text);
    case Header(l, header, r) =>
      TrimSpacePadded(l, header, r);
    case Assign(l, key, m, n, val, r) =>
      TrimAssign(l, key, m, n, val, r);
    case Bare(l, word, r) =>
      TrimSpacePadded(l, word, r);
  }

  predicate AllWellFormed(items: seq<Item>) {
    forall i :: 0 <= i < |items| ==> WellFormed(items[i])
  }

  lemma KeysDiffer()
    ensures KEY_ID != SECRET && KEY_ID != TOKEN && SECRET != TOKEN
  {
    assert |KEY_ID| == 17 && |SECRET| == 21 && |TOKEN| == 17 && KEY_ID[4] == 'a' && TOKEN[4] == 's';
  }

  /** The settings for all three keys. */
  function Settings(items: seq<Item>, target: string): Credentials {
    Credentials(Setting(items, target, KEY_ID), Setting(items, target, SECRET), Setting(items, target, TOKEN))
  }

  lemma SettingsNext(items: seq<Item>, target: string)
    requires items != []
    ensures var before, last := items[..|items| - 1], items[|items| - 1];
            Settings(items, target)
            == if last.Assign? && InSection(before, target) then Assigned(Settings(before, target), last.key, last.val)
               else Settings(before, target)
  {
    KeysDiffer();
  }

  lemma {:induction false} ScanFile(items: seq<Item>, target: string)
    requires AllWellFormed(items)
    ensures var st := Scan(FileLines(items), target);
            st.inSection == InSection(items, target) && st.creds == Settings(items, target)
    decreases |items|
  {
    if items != [] {
      var before, last := items[..|items| - 1], items[|items| - 1];
      ScanFile(before, target);
      SettingsNext(items, target);
      var lines := FileLines(items);
      assert lines[..|lines| - 1] == FileLines(before);
      StepOfLine(Scan(FileLines(before), target), last, target);
    }
  }

  lemma LineIsOneLine(item: Item)
    requires WellFormed(item)
    ensures OneLine(Line(item))
  {
  }

  lemma {:induction false} FileLinesAreOneLine(items: seq<Item>)
    requires AllWellFormed(items)
    ensures Lacking(FileLines(items), '\n')
    decreases |items|
  {
    if items != [] {
      FileLinesAreOneLine(items[..|items| - 1]);
      LineIsOneLine(items[|items| - 1]);
    }
  }

  /** Parsing a written file gives the settings that the file was written with, values with '=' included. */
  lemma ParseFile(items: seq<Item>, profile: string)
    requires AllWellFormed(items) && items != []
    ensures Scan(Split(FileText(items), '\n'), Target(profile)).creds
            == Settings(items, Target(profile))
  {
    FileLinesAreOneLine(items);
    SplitJoin(FileLines(items), '\n');
    ScanFile(items, Target(profile));
  }

  predicate OneValue(s: string) {
    Trimmed(s) && OneLine(s)
  }

  lemma FourLines(a: Item, b: Item, c: Item, e: Item)
    ensures FileLines([a, b, c, e]) == [Line(a), Line(b), Line(c), Line(e)]
  {
    assert [a, b, c, e][..3] == [a, b, c] && [a, b, c][..2] == [a, b] && [a, b][..1] == [a] && [a][..0] == [];
    assert FileLines([a]) == [Line(a)] && FileLines([a, b]) == [Line(a), Line(b)];
    assert FileLines([a, b, c]) == [Line(a), Line(b), Line(c)];
  }

  /** Items and settings of a section with one assignment to each key. */
  lemma ThreeAssigned(h: Item, a: Item, b: Item, c: Item, target: string)
    requires h.Header? && h.header == target && a.Assign? && b.Assign? && c.Assign?
    requires a.key == KEY_ID && b.key == SECRET && c.key == TOKEN
    ensures Settings([h, a, b, c], target) == Credentials(a.val, b.val, c.val)
  {
    assert [h, a, b, c][..3] == [h, a, b] && [h, a, b][..2] == [h, a] && [h, a][..1] == [h] && [h][..0] == [];
    KeysDiffer();
    SettingsNext([h], target);
    SettingsNext([h, a], target);
    SettingsNext([h, a, b], target);
    SettingsNext([h, a, b, c], target);
    assert InSection([h], target) && InSection([h, a], target) && InSection([h, a, b], target);
    assert Settings([], target) == Credentials("", "", "");
  }

  function Spaced(key: string, val: string): Item {
    Assign("", key, " ", " ", val, "")
  }

  lemma SpacedLine(key: string, val: string)
    ensures Line(Spaced(key, val)) == key + " = " + val
  {
  }

  lemma SpacedIsWellFormed(key: string, val: string)
    requires OneValue(val) && key in [KEY_ID, SECRET, TOKEN]
    ensures WellFormed(Spaced(key, val))
  {
    KeyIsOrdinary(key);
  }

  lemma KeyIsOrdinary(key: string)
    requires key in [KEY_ID, SECRET, TOKEN]
    ensures Ordinary(key) && '=' !in key && key != ""
  {
  }

  lemma HeaderLine(profile: string)
    requires OneLine(profile)
    ensures var h := Header("", "[" + profile + "]", "");
            WellFormed(h) && Line(h) == "[" + profile + "]" && h.header == Target(profile)
  {
  }

  /** The file that is usually written for a profile, and what is read from it. */
  lemma UsualFile(profile: string, id: string, secret: string, token: string)
    requires OneValue(id) && OneValue(secret) && OneValue(token) && OneLine(profile)
    ensures var lines := ["[" + profile + "]", "aws_access_key_id" + " = " + id, "aws_secret_access_key" + " = " + secret,
                          "aws_session_token" + " = " + token];
            Scan(Split(Join(lines, "\n"), '\n'), Target(profile)).creds == Credentials(id, secret, token)
  {
    var h := Header("", "[" + profile + "]", "");
    var a, b, c := Spaced(KEY_ID, id), Spaced(SECRET, secret), Spaced(TOKEN, token);
    HeaderLine(profile);
    SpacedIsWellFormed(KEY_ID, id);
    SpacedIsWellFormed(SECRET, secret);
    SpacedIsWellFormed(TOKEN, token);
    SpacedLine(KEY_ID, id);
    SpacedLine(SECRET, secret);
    SpacedLine(TOKEN, token);
    FourLines(h, a, b, c);
    ThreeAssigned(h, a, b, c, Target(profile));
    ParseFile([h, a, b, c], profile);
  }

  // ---------------------------------------------------------------- every file is a written one

  lemma PartsOneLine(a: string, b: string, c: string)
    requires OneLine(a + b + c)
    ensures OneLine(a) && OneLine(b) && OneLine(c)
  {
    var s := a + b + c;
    assert forall i :: 0 <= i < |a| ==> a[i] == s[i];
    assert forall i :: 0 <= i < |b| ==> b[i] == s[|a| + i];
    assert forall i :: 0 <= i < |c| ==> c[i] == s[|a| + |b| + i];
  }

  /** A line, taken apart into its text and what trimming takes away. */
  lemma Padding(s: string) returns (left: string, right: string)
    requires OneLine(s)
    ensures Pad(left) && Pad(right) && OneLine(TrimSpace(s)) && s == left + TrimSpace(s) + right
  {
    left, right := TrimSpaceRest(s);
    PartsOneLine(left, TrimSpace(s), right);
  }

  lemma PadConcat(a: string, b: string)
    requires Pad(a) && Pad(b)
    ensures Pad(a + b)
  {
  }

  /** A trimmed line with an equals sign is an assignment. */
  lemma AssignOf(l: string, t: string, r: string) returns (item: Item)
    requires Pad(l) && Pad(r) && OneLine(t) && Trimmed(t) && t != "" && t[0] != '#' && t[0] != '[' && '=' in t
    ensures WellFormed(item) && Line(item) == l + t + r
  {
    var (left, right) := Cut(t, '=').value;
    PartsOneLine(left, ['='], right);
    var a, m := Padding(left);
    var n, b := Padding(right);
    NoPadBefore(a, TrimSpace(left), m, right, t);
    TrimSpaceKeepsOut(left, '=');
    PadConcat(b, r);
    item := AssignFrom(l, TrimSpace(left), m, n, TrimSpace(right), b, r);
  }

  lemma AssignFrom(l: string, key: string, m: string, n: string, val: string, b: string, r: string) returns (item: Item)
    requires WellFormed(Assign(l, key, m, n, val, b + r))
    ensures WellFormed(item) && Line(item) == l + ((key + m) + ['='] + (n + val + b)) + r
  {
    item := Assign(l, key, m, n, val, b + r);
    AssignText(l, key, m, n, val, b, r);
  }

  lemma NoPadBefore(a: string, key: string, m: string, right: string, t: string)
    requires AllSpace(a) && t == (a + key + m) + ['='] + right && t != "" && !IsSpace(t[0])
    ensures a == "" && (key != "" ==> key[0] == t[0]) && a + key + m == key + m
  {
  }

  lemma AssignText(l: string, key: string, m: string, n: string, val: string, b: string, r: string)
    ensures (l + key + m) + "=" + (n + val + (b + r)) == l + ((key + m) + ['='] + (n + val + b)) + r
  {
  }

  lemma CommentOf(l: string, t: string, r: string) returns (item: Item)
    requires Pad(l) && OneLine(t) && OneLine(r) && t != "" && t[0] == '#'
    ensures WellFormed(item) && Line(item) == l + t + r
  {
    item := Comment(l, t[1..] + r);
    assert "#" + (t[1..] + r) == t + r;
    Regrouped(l, t, r);
  }

  lemma ItemOf(raw: string) returns (item: Item)
    requires OneLine(raw)
    ensures WellFormed(item) && Line(item) == raw
  {
    var l, r := Padding(raw);
    var t := TrimSpace(raw);
    if t == "" {
      PadConcat(l, r);
      item := Blank(l + r);
    } else if t[0] == '#' {
      item := CommentOf(l, t, r);
    } else if t[0] == '[' {
      item := Header(l, t, r);
    } else if '=' in t {
      item := AssignOf(l, t, r);
    } else {
      item := Bare(l, t, r);
    }
  }

  lemma {:induction false} ItemsOf(lines: seq<string>) returns (items: seq<Item>)
    requires Lacking(lines, '\n')
    ensures AllWellFormed(items) && FileLines(items) == lines
    decreases |lines|
  {
    if lines == [] {
      items := [];
    } else {
      var before := ItemsOf(lines[..|lines| - 1]);
      var last := ItemOf(lines[|lines| - 1]);
      items := before + [last];
      assert items[..|items| - 1] == before;
    }
  }

  /** So what a parse gives is told by the items of the file, whatever the file. */
  lemma EveryFile(content: string, profile: string) returns (items: seq<Item>)
    ensures items != [] && AllWellFormed(items) && FileText(items) == content
    ensures Scan(Split(content, '\n'), Target(profile)).creds == Settings(items, Target(profile))
  {
    items := ItemsOf(Split(content, '\n'));
    JoinSplit(content, '\n');
    ParseFile(items, profile);
  }

  // ---------------------------------------------------------------- what does not matter

  predicate Quiet(items: seq<Item>) {
    forall i :: 0 <= i < |items| ==> items[i].Blank? || items[i].Comment? || items[i].Bare?
  }

  /** A whole section of another profile. */
  predicate Foreign(items: seq<Item>, target: string) {
    && items != [] && items[0].Header? && items[0].header != target
    && forall i :: 0 < i < |items| ==> !items[i].Header? || items[i].header != target
  }

  predicate StartsSection(items: seq<Item>) {
    items == [] || items[0].Header?
  }

  lemma {:induction false} InsertQuiet(a: seq<Item>, x: seq<Item>, b: seq<Item>, target: string, key: string)
    requires Quiet(x)
    ensures InSection(a + x + b, target) == InSection(a + b, target)
    ensures Setting(a + x + b, target, key) == Setting(a + b, target, key)
    decreases |b|, |x|
  {
    if b != [] {
      var last := |b| - 1;
      assert (a + x + b)[..|a + x| + last] == a + x + b[..last];
      assert (a + b)[..|a| + last] == a + b[..last];
      InsertQuiet(a, x, b[..last], target, key);
    } else if x != [] {
      var last := |x| - 1;
      assert a + x + b == a + x && a + x[..last] + b == a + x[..last];
      assert (a + x)[..|a| + last] == a + x[..last];
      InsertQuiet(a, x[..last], b, target, key);
    } else {
      assert a + x + b == a + b;
    }
  }

  lemma {:induction false} ForeignIsOutside(a: seq<Item>, x: seq<Item>, target: string, key: string)
    requires Foreign(x, target)
    ensures !InSection(a + x, target) && Setting(a + x, target, key) == Setting(a, target, key)
    decreases |x|
  {
    var last := |x| - 1;
    assert (a + x)[..|a| + last] == a + x[..last];
    if last == 0 {
      assert a + x[..last] == a;
    } else {
      ForeignIsOutside(a, x[..last], target, key);
    }
  }

  /** Other profiles' sections may stand anywhere between sections. */
  lemma {:induction false} InsertForeign(a: seq<Item>, x: seq<Item>, b: seq<Item>, target: string, key: string)
    requires Foreign(x, target) && StartsSection(b)
    ensures b != [] ==> InSection(a + x + b, target) == InSection(a + b, target)
    ensures Setting(a + x + b, target, key) == Setting(a + b, target, key)
    decreases |b|
  {
    if b == [] {
      assert a + x + b == a + x && a + b == a;
      ForeignIsOutside(a, x, target, key);
    } else {
      var last := |b| - 1;
      assert (a + x + b)[..|a + x| + last] == a + x + b[..last];
      assert (a + b)[..|a| + last] == a + b[..last];
      InsertForeign(a, x, b[..last], target, key);
    }
  }
}
