/** Percent-encoding and the canonical query of internal/awssign/awssign.go. A string holds one byte per character. */
module UriEncode {
  import opened Text
  import opened Lists
  import opened Order
  import opened Http

  predicate IsByte(c: char) {
    c as int < 256
  }

  predicate IsBytes(s: string) {
    forall i :: 0 <= i < |s| ==> IsByte(s[i])
  }

  predicate IsUnreserved(c: char) {
    || 'A' <= c <= 'Z' || 'a' <= c <= 'z' || '0' <= c <= '9'
    || c == '-' || c == '_' || c == '.' || c == '~'
  }

  function Hex(n: int): char
    requires 0 <= n < 16
  {
    if n < 10 then (n + '0' as int) as char else (n - 10 + 'A' as int) as char
  }

  function EncodeByte(c: char): string {
    if IsUnreserved(c) then [c] else ['%', Hex(c as int / 16 % 16), Hex(c as int % 16)]
  }

  function Encode(s: string): string {
    if s == "" then "" else EncodeByte(s[0]) + Encode(s[1..])
  }

  lemma {:induction false} EncodeConcat(a: string, b: string)
    ensures Encode(a + b) == Encode(a) + Encode(b)
    decreases |a|
  {
    if a == "" {
      assert a + b == b;
    } else {
      assert (a + b)[1..] == a[1..] + b;
      EncodeConcat(a[1..], b);
    }
  }

  /** The unreserved characters of section 2.3 of RFC 3986. */
  lemma UnreservedAre(c: char)
    ensures IsUnreserved(c) <==>
            || c in "ABCDEFGHIJKLMNOPQRSTUVWXYZ" || c in "abcdefghijklmnopqrstuvwxyz" || c in "0123456789"
            || c in "-_.~"
  {
  }

  /** Any other byte is a percent sign and two hexadecimal digits in capitals, the high one first. */
  lemma EscapeIs(c: char)
    requires IsByte(c) && !IsUnreserved(c)
    ensures Encode([c])
            == ['%', "0123456789ABCDEF"[c as int / 16], "0123456789ABCDEF"[c as int % 16]]
  {
    HexIs(c as int / 16);
    HexIs(c as int % 16);
    assert [c][1..] == "";
  }

  lemma HexIs(n: int)
    requires 0 <= n < 16
    ensures Hex(n) == "0123456789ABCDEF"[n]
  {
  }

  lemma EncodeNext(s: string, i: nat)
    requires i < |s|
    ensures Encode(s[..i + 1]) == Encode(s[..i]) + EncodeByte(s[i])
  {
    assert s[..i + 1] == s[..i] + [s[i]];
    EncodeConcat(s[..i], [s[i]]);
    assert Encode([s[i]]) == EncodeByte(s[i]) + Encode([s[i]][1..]);
  }

  /** The loop of `uriEncode`, byte by byte into a buffer. */
  method UriEncode(s: string) returns (buf: string)
    ensures buf == Encode(s)
  {
    buf := "";
    for i := 0 to |s|
      invariant buf == Encode(s[..i])
    {
      EncodeNext(s, i);
      if IsUnreserved(s[i]) {
        buf := buf + [s[i]];
      } else {
        buf := buf + ['%', Hex(s[i] as int / 16 % 16), Hex(s[i] as int % 16)];
      }
    }
    assert s[..|s|] == s;
  }

  // ---------------------------------------------------------------- decoding

  function HexValue(c: char): int {
    if '0' <= c <= '9' then c as int - '0' as int
    else if 'A' <= c <= 'F' then c as int - 'A' as int + 10
    else if 'a' <= c <= 'f' then c as int - 'a' as int + 10
    else -1
  }

  /** Percent-decoding as section 2.1 of RFC 3986 defines it; anything else stands for itself. */
  function Decode(t: string): string {
    if t == "" then ""
    else if t[0] == '%' && |t| >= 3 && HexValue(t[1]) >= 0 && HexValue(t[2]) >= 0 then
      [(16 * HexValue(t[1]) + HexValue(t[2])) as char] + Decode(t[3..])
    else [t[0]] + Decode(t[1..])
  }

  lemma HexHex(n: int)
    requires 0 <= n < 16
    ensures HexValue(Hex(n)) == n && IsUnreserved(Hex(n))
  {
  }

  lemma {:induction false} DecodeEncode(s: string)
    requires IsBytes(s)
    ensures Decode(Encode(s)) == s
    decreases |s|
  {
    if s != "" {
      var c, rest := s[0], Encode(s[1..]);
      DecodeEncode(s[1..]);
      DecodeByte(c, rest);
    }
  }

  lemma DecodeByte(c: char, rest: string)
    requires IsByte(c)
    ensures Decode(EncodeByte(c) + rest) == [c] + Decode(rest)
  {
    if IsUnreserved(c) {
      DecodePlain(c, rest);
    } else {
      var high, low := c as int / 16, c as int % 16;
      DecodeEscape(high, low, rest);
      assert (16 * high + low) as char == c && EncodeByte(c) == ['%', Hex(high), Hex(low)];
    }
  }

  lemma DecodePlain(c: char, rest: string)
    requires c != '%'
    ensures Decode([c] + rest) == [c] + Decode(rest)
  {
    assert ([c] + rest)[1..] == rest;
  }

  lemma DecodeEscape(high: int, low: int, rest: string)
    requires 0 <= high < 16 && 0 <= low < 16
    ensures Decode(['%', Hex(high), Hex(low)] + rest) == [(16 * high + low) as char] + Decode(rest)
  {
    HexHex(high);
    HexHex(low);
    assert (['%', Hex(high), Hex(low)] + rest)[3..] == rest;
  }

  lemma EncodeInjective(a: string, b: string)
    requires IsBytes(a) && IsBytes(b) && Encode(a) == Encode(b)
    ensures a == b
  {
    DecodeEncode(a);
    DecodeEncode(b);
  }

  predicate Plain(c: char) {
    IsUnreserved(c) || c == '%'
  }

  lemma {:induction false} EncodeIsPlain(s: string)
    ensures forall i :: 0 <= i < |Encode(s)| ==> Plain(Encode(s)[i])
    decreases |s|
  {
    if s != "" {
      EncodeIsPlain(s[1..]);
      HexHex(s[0] as int / 16 % 16);
      HexHex(s[0] as int % 16);
    }
  }

  lemma EncodeKeepsOut(s: string, c: char)
    requires !Plain(c)
    ensures c !in Encode(s)
  {
    EncodeIsPlain(s);
  }

  // ---------------------------------------------------------------- order before and after encoding

  /** The order that encoding turns into the bytewise order: all escaped bytes come before the unreserved ones. */
  predicate RuleByteLess(x: char, y: char) {
    if IsUnreserved(x) == IsUnreserved(y) then x < y else !IsUnreserved(x)
  }

  predicate RuleLess(a: string, b: string) {
    b != "" && (a == "" || (if a[0] == b[0] then RuleLess(a[1..], b[1..]) else RuleByteLess(a[0], b[0])))
  }

  lemma HexOrder(i: int, j: int)
    requires 0 <= i < 16 && 0 <= j < 16
    ensures Hex(i) < Hex(j) <==> i < j
    ensures Hex(i) == Hex(j) <==> i == j
  {
  }

  lemma EncodeByteOrder(x: char, y: char, a: string, b: string)
    requires IsByte(x) && IsByte(y) && x != y
    ensures LexLess(EncodeByte(x) + a, EncodeByte(y) + b) <==> RuleByteLess(x, y)
  {
    if !IsUnreserved(x) && !IsUnreserved(y) {
      var i, j := x as int, y as int;
      assert EncodeByte(x) + a == "%" + Digits(i, a) && EncodeByte(y) + b == "%" + Digits(j, b);
      LexCommonPrefix("%", Digits(i, a), Digits(j, b));
      DigitsOrder(i, j, a, b);
    }
  }

  /** Two hexadecimal digits before a text. */
  function Digits(n: int, rest: string): string
    requires 0 <= n < 256
  {
    [Hex(n / 16)] + ([Hex(n % 16)] + rest)
  }

  lemma DigitsOrder(i: int, j: int, a: string, b: string)
    requires 0 <= i < 256 && 0 <= j < 256 && i != j
    ensures LexLess(Digits(i, a), Digits(j, b)) <==> i < j
  {
    HexOrder(i / 16, j / 16);
    HexOrder(i % 16, j % 16);
    if i / 16 == j / 16 {
      LexCommonPrefix([Hex(i / 16)], [Hex(i % 16)] + a, [Hex(j % 16)] + b);
    }
  }

  /** Comparing encoded strings is comparing the strings themselves under the rule's order, for all strings. */
  lemma {:induction false} EncodeOrder(a: string, b: string)
    requires IsBytes(a) && IsBytes(b)
    ensures LexLess(Encode(a), Encode(b)) <==> RuleLess(a, b)
    decreases |a|
  {
    if a != "" && b != "" {
      if a[0] == b[0] {
        LexCommonPrefix(EncodeByte(a[0]), Encode(a[1..]), Encode(b[1..]));
        EncodeOrder(a[1..], b[1..]);
      } else {
        EncodeByteOrder(a[0], b[0], Encode(a[1..]), Encode(b[1..]));
      }
    }
  }

  /** Where the two first differ, `a` has an unreserved byte below an escaped byte of `b`. */
  predicate Inverted(a: string, b: string) {
    a != "" && b != ""
    && if a[0] == b[0] then Inverted(a[1..], b[1..])
       else a[0] < b[0] && IsUnreserved(a[0]) && !IsUnreserved(b[0])
  }

  /** Encoding keeps the order of two strings exactly when they are not inverted. */
  lemma {:induction false} EncodeKeepsOrderIff(a: string, b: string)
    requires IsBytes(a) && IsBytes(b) && LexLess(a, b)
    ensures LexLess(Encode(a), Encode(b)) <==> !Inverted(a, b)
    decreases |a|
  {
    EncodeOrder(a, b);
    if a != "" && a[0] == b[0] {
      EncodeKeepsOrderIff(a[1..], b[1..]);
      EncodeOrder(a[1..], b[1..]);
    }
  }

  /**
   * Sorting and then encoding (the code) arranges a set of keys as encoding and then sorting does ("Create a
   * canonical request" of AWS Signature Version 4), exactly when no key is inverted with a later one.
   */
  lemma SortBeforeIsSortAfterIff(keys: set<string>)
    requires forall k :: k in keys ==> IsBytes(k)
    ensures var sorted := SortedKeys(keys);
            Sort(Each(Encode, sorted)) == Each(Encode, sorted)
            <==> forall i, j :: 0 <= i < j < |sorted| ==> !Inverted(sorted[i], sorted[j])
  {
    var sorted := SortedKeys(keys);
    var encoded := Each(Encode, sorted);
    SortedKeysAreStrict(keys);
    forall i, j | 0 <= i < j < |sorted|
      ensures LexLess(encoded[j], encoded[i]) <==> Inverted(sorted[i], sorted[j])
    {
      assert sorted[i] in keys && sorted[j] in keys && LexLess(sorted[i], sorted[j]);
      EncodeKeepsOrderIff(sorted[i], sorted[j]);
      LexTotal(encoded[i], encoded[j]);
      LexTotal(sorted[i], sorted[j]);
      if encoded[i] == encoded[j] { EncodeInjective(sorted[i], sorted[j]); }
    }
    SortSorts(encoded);
    if Sorted(encoded) { SortedUnique(encoded, Sort(encoded)); }
  }

  predicate Over(s: string, alphabet: set<char>) {
    forall i :: 0 <= i < |s| ==> s[i] in alphabet
  }

  /** No unreserved byte of the alphabet is below an escaped one. */
  predicate InOrderAlphabet(alphabet: set<char>) {
    forall x, y :: x in alphabet && y in alphabet && IsUnreserved(x) && !IsUnreserved(y) ==> y < x
  }

  ghost predicate EncodesInOrder(alphabet: set<char>) {
    forall a, b :: Over(a, alphabet) && Over(b, alphabet) && LexLess(a, b) ==> LexLess(Encode(a), Encode(b))
  }

  /** The alphabets whose strings always keep their order, all of them and no others. */
  lemma EncodesInOrderIff(alphabet: set<char>)
    requires forall c :: c in alphabet ==> IsByte(c)
    ensures EncodesInOrder(alphabet) <==> InOrderAlphabet(alphabet)
  {
    if InOrderAlphabet(alphabet) {
      forall a, b | Over(a, alphabet) && Over(b, alphabet) && LexLess(a, b)
        ensures LexLess(Encode(a), Encode(b))
      {
        EncodeKeepsOrderIff(a, b);
        NeverInverted(a, b, alphabet);
      }
    } else {
      var x, y :| x in alphabet && y in alphabet && IsUnreserved(x) && !IsUnreserved(y) && !(y < x);
      EncodeKeepsOrderIff([x], [y]);
      assert Over([x], alphabet) && Over([y], alphabet) && LexLess([x], [y]);
    }
  }

  lemma {:induction false} NeverInverted(a: string, b: string, alphabet: set<char>)
    requires InOrderAlphabet(alphabet) && Over(a, alphabet) && Over(b, alphabet)
    ensures !Inverted(a, b)
    decreases |a|
  {
    if a != "" && b != "" && a[0] == b[0] { NeverInverted(a[1..], b[1..], alphabet); }
  }

  /** Unreserved bytes and those below '-' keep their order; "A" and "[" do not. */
  lemma WhereOrderIsKept(alphabet: set<char>)
    requires forall c :: c in alphabet ==> IsByte(c) && (IsUnreserved(c) || c < '-')
    ensures EncodesInOrder(alphabet)
    ensures LexLess("A", "[") && LexLess(Encode("["), Encode("A"))
  {
    EncodesInOrderIff(alphabet);
    EncodeOrder("[", "A");
  }

  // ---------------------------------------------------------------- the canonical query

  predicate ByteQuery(query: Query) {
    forall k :: k in query ==> IsBytes(k) && forall i :: 0 <= i < |query[k]| ==> IsBytes(query[k][i])
  }

  function PairsOf(k: string, vals: seq<string>): (r: seq<(string, string)>)
    ensures |r| == |vals|
    ensures forall i :: 0 <= i < |vals| ==> r[i] == (k, vals[i])
  {
    if vals == [] then [] else [(k, vals[0])] + PairsOf(k, vals[1..])
  }

  function PairsFor(query: Query, keys: seq<string>): seq<(string, string)>
    requires forall k :: k in keys ==> k in query
  {
    if keys == [] then []
    else
      var last := keys[|keys| - 1];
      PairsFor(query, keys[..|keys| - 1]) + PairsOf(last, Sort(query[last]))
  }

  /** Every key and value, keys in order and the values of each key in order. */
  ghost function SortedPairs(query: Query): seq<(string, string)> {
    SortedKeysAreStrict(query.Keys);
    PairsFor(query, SortedKeys(query.Keys))
  }

  function EncodePair(p: (string, string)): string {
    Encode(p.0) + "=" + Encode(p.1)
  }

  function EncodePairs(pairs: seq<(string, string)>): (r: seq<string>)
    ensures |r| == |pairs|
    ensures forall i :: 0 <= i < |pairs| ==> r[i] == EncodePair(pairs[i])
  {
    if pairs == [] then []
    else EncodePairs(pairs[..|pairs| - 1]) + [EncodePair(pairs[|pairs| - 1])]
  }

  lemma {:induction false} EncodePairsConcat(a: seq<(string, string)>, b: seq<(string, string)>)
    ensures EncodePairs(a + b) == EncodePairs(a) + EncodePairs(b)
    decreases |b|
  {
    if b == [] {
      assert a + b == a;
    } else {
      var last := |b| - 1;
      assert (a + b)[..|a| + last] == a + b[..last];
      EncodePairsConcat(a, b[..last]);
    }
  }

  ghost function CanonicalQuery(query: Query): string {
    Join(EncodePairs(SortedPairs(query)), "&")
  }

  method AppendPairs(parts: seq<string>, k: string, vals: seq<string>) returns (r: seq<string>)
    ensures r == parts + EncodePairs(PairsOf(k, vals))
  {
    ghost var pairs := PairsOf(k, vals);
    r := parts;
    for j := 0 to |vals|
      invariant r == parts + EncodePairs(pairs[..j])
    {
      var name := UriEncode(k);
      var value := UriEncode(vals[j]);
      r := r + [name + "=" + value];
      assert pairs[..j + 1][..j] == pairs[..j];
    }
    assert pairs[..|vals|] == pairs;
  }

  lemma PairsForNext(query: Query, keys: seq<string>, i: nat)
    requires i < |keys| && forall k :: k in keys ==> k in query
    ensures EncodePairs(PairsFor(query, keys[..i + 1]))
            == EncodePairs(PairsFor(query, keys[..i])) + EncodePairs(PairsOf(keys[i], Sort(query[keys[i]])))
  {
    assert keys[..i + 1][..i] == keys[..i];
    EncodePairsConcat(PairsFor(query, keys[..i]), PairsOf(keys[i], Sort(query[keys[i]])));
  }

  /** The loops over the query; the walk over the map may take any order. */
  method BuildCanonicalQuery(query: Query) returns (r: string)
    ensures r == CanonicalQuery(query)
  {
    var keys := WalkKeys(query.Keys);
    SortedKeysAnyWalk(keys, query.Keys);
    SortedKeysAreStrict(query.Keys);
    keys := SortStrings(keys);
    var parts: seq<string> := [];
    for i := 0 to |keys|
      invariant parts == EncodePairs(PairsFor(query, keys[..i]))
    {
      var vals := SortStrings(query[keys[i]]);
      parts := AppendPairs(parts, keys[i], vals);
      PairsForNext(query, keys, i);
    }
    assert keys[..|keys|] == keys;
    r := Join(parts, "&");
  }

  /** A reader of query strings: parts at '&', names up to '='. */
  function ParsePart(part: string): (string, string) {
    match Cut(part, '=')
    case None => (Decode(part), "")
    case Some((name, value)) => (Decode(name), Decode(value))
  }

  function ParseParts(parts: seq<string>): (r: seq<(string, string)>)
    ensures |r| == |parts|
    ensures forall i :: 0 <= i < |parts| ==> r[i] == ParsePart(parts[i])
  {
    if parts == [] then [] else [ParsePart(parts[0])] + ParseParts(parts[1..])
  }

  function ParseQuery(s: string): seq<(string, string)> {
    if s == "" then [] else ParseParts(Split(s, '&'))
  }

  lemma ParseEncodedPair(p: (string, string))
    requires IsBytes(p.0) && IsBytes(p.1)
    ensures ParsePart(EncodePair(p)) == p
    ensures EncodePair(p) != "" && '&' !in EncodePair(p) && '\n' !in EncodePair(p)
  {
    EncodeKeepsOut(p.0, '=');
    EncodeKeepsOut(p.0, '&');
    EncodeKeepsOut(p.1, '&');
    EncodeKeepsOut(p.0, '\n');
    EncodeKeepsOut(p.1, '\n');
    CutConcat(Encode(p.0), '=', Encode(p.1));
    DecodeEncode(p.0);
    DecodeEncode(p.1);
  }

  lemma ParseEncodedPairs(pairs: seq<(string, string)>)
    requires forall i :: 0 <= i < |pairs| ==> IsBytes(pairs[i].0) && IsBytes(pairs[i].1)
    ensures ParseQuery(Join(EncodePairs(pairs), "&")) == pairs
    ensures '\n' !in Join(EncodePairs(pairs), "&")
  {
    var parts := EncodePairs(pairs);
    forall i | 0 <= i < |pairs|
      ensures ParsePart(parts[i]) == pairs[i] && parts[i] != "" && '&' !in parts[i] && '\n' !in parts[i]
    {
      ParseEncodedPair(pairs[i]);
    }
    JoinKeepsOut(parts, "&", '\n');
    if parts != [] {
      SplitJoin(parts, '&');
      assert Join(parts, "&") != "";
    }
  }

  lemma {:induction false} PairsForAreBytes(query: Query, keys: seq<string>)
    requires ByteQuery(query) && forall k :: k in keys ==> k in query
    ensures forall i :: 0 <= i < |PairsFor(query, keys)| ==>
      IsBytes(PairsFor(query, keys)[i].0) && IsBytes(PairsFor(query, keys)[i].1)
    decreases |keys|
  {
    if keys != [] {
      var last := keys[|keys| - 1];
      PairsForAreBytes(query, keys[..|keys| - 1]);
      forall i | 0 <= i < |Sort(query[last])|
        ensures IsBytes(Sort(query[last])[i])
      {
        assert Sort(query[last])[i] in multiset(query[last]);
      }
    }
  }

  /** The canonical query gives back exactly the sorted pairs, empty names and values included. */
  lemma QueryRoundTrip(query: Query)
    requires ByteQuery(query)
    ensures ParseQuery(CanonicalQuery(query)) == SortedPairs(query)
    ensures '\n' !in CanonicalQuery(query)
  {
    SortedKeysAreStrict(query.Keys);
    PairsForAreBytes(query, SortedKeys(query.Keys));
    ParseEncodedPairs(SortedPairs(query));
  }

  lemma {:induction false} PairsForCount(query: Query, keys: seq<string>, k: string, v: string)
    requires StrictlySorted(keys) && forall j :: j in keys ==> j in query
    ensures multiset(PairsFor(query, keys))[(k, v)] == if k in keys then multiset(query[k])[v] else 0
    decreases |keys|
  {
    if keys != [] {
      var last := |keys| - 1;
      PairsForCount(query, keys[..last], k, v);
      PairsOfCount(keys[last], Sort(query[keys[last]]), k, v);
      LastIsNew(keys);
      assert multiset(Sort(query[keys[last]])) == multiset(query[keys[last]]);
    }
  }

  lemma LastIsNew(keys: seq<string>)
    requires StrictlySorted(keys) && keys != []
    ensures keys[|keys| - 1] !in keys[..|keys| - 1]
    ensures forall k :: k in keys <==> k in keys[..|keys| - 1] || k == keys[|keys| - 1]
  {
    var last := |keys| - 1;
    assert keys == keys[..last] + [keys[last]];
    LexTotal(keys[last], keys[last]);
  }

  lemma {:induction false} PairsOfCount(key: string, vals: seq<string>, k: string, v: string)
    ensures multiset(PairsOf(key, vals))[(k, v)] == if k == key then multiset(vals)[v] else 0
    decreases |vals|
  {
    if vals != [] {
      PairsOfCount(key, vals[1..], k, v);
      assert vals == [vals[0]] + vals[1..];
    }
  }

  /** Nothing of the query is lost or added: each value of each key is there as often as the query has it. */
  lemma SortedPairsAreTheQuery(query: Query, k: string, v: string)
    ensures multiset(SortedPairs(query))[(k, v)] == if k in query then multiset(query[k])[v] else 0
  {
    SortedKeysAreStrict(query.Keys);
    PairsForCount(query, SortedKeys(query.Keys), k, v);
  }
}
