/** The rate limit notation "count/window" of internal/ratelimit/ratelimit.go. Windows are in nanoseconds. */
module LimitSyntax {
  import opened Text
  import opened RateLimit
  import opened Time

  // ---------------------------------------------------------------- numbers

  predicate IsDigit(c: char) {
    '0' <= c <= '9'
  }

  predicate AllDigits(s: string) {
    forall i :: 0 <= i < |s| ==> IsDigit(s[i])
  }

  function Value(digits: string): nat
    requires AllDigits(digits)
  {
    if digits == "" then 0
    else
      var last := |digits| - 1;
      10 * Value(digits[..last]) + (digits[last] as int - '0' as int)
  }

  function Decimal(n: nat): (s: string)
    ensures s != "" && AllDigits(s) && Value(s) == n
  {
    var digit := ['0' + (n % 10) as char];
    if n < 10 then
      assert digit[..0] == "";
      digit
    else
      var s := Decimal(n / 10) + digit;
      assert s[..|s| - 1] == Decimal(n / 10);
      s
  }

  datatype Number = Int(n: int) | OutOfRange(nearest: int) | NotANumber

  /** `strconv.Atoi`: decimal, with an optional sign, in 64 bits. */
  function Atoi(s: string): (r: Number)
    ensures r.Int? ==> -TWO_63 <= r.n < TWO_63
  {
    var signed := s != "" && (s[0] == '+' || s[0] == '-');
    var digits := if signed then s[1..] else s;
    if digits == "" || !AllDigits(digits) then NotANumber
    else if signed && s[0] == '-' then
      if Value(digits) > TWO_63 then OutOfRange(-TWO_63) else Int(0 - Value(digits))
    else
      if Value(digits) >= TWO_63 then OutOfRange(TWO_63 - 1) else Int(Value(digits))
  }

  /** The verb %d. */
  function IntText(n: int): string {
    if n < 0 then "-" + Decimal(-n) else Decimal(n)
  }

  lemma AtoiIntText(n: int)
    requires -TWO_63 <= n < TWO_63
    ensures Atoi(IntText(n)) == Int(n)
  {
    if n < 0 { assert IntText(n)[1..] == Decimal(-n); }
  }

  // ---------------------------------------------------------------- the parser

  datatype Why = EmptyLimit | NoSlash | BadCount | BadWindow

  datatype Parsed = Accepted(limit: Limit) | Rejected(why: Why)

  function ParseLimit(s: string): (r: Parsed)
    ensures r.Accepted? ==> 0 < r.limit.count < TWO_63 && -TWO_63 <= r.limit.window < TWO_63
  {
    ParseTrimmed(TrimSpace(s))
  }

  function ParseTrimmed(t: string): (r: Parsed)
    ensures r.Accepted? ==> 0 < r.limit.count < TWO_63 && -TWO_63 <= r.limit.window < TWO_63
  {
    if t == "" then Rejected(EmptyLimit)
    else if '/' !in t then Rejected(NoSlash)
    else
      var (left, right) := Cut(t, '/').value;
      ParseParts(TrimSpace(left), TrimSpace(right))
  }

  function ParseParts(left: string, right: string): (r: Parsed)
    ensures r.Accepted? ==> 0 < r.limit.count < TWO_63 && -TWO_63 <= r.limit.window < TWO_63
  {
    var count := Atoi(left);
    if !count.Int? || count.n <= 0 then Rejected(BadCount)
    else
      var window := ParseWindow(right);
      if window.None? then Rejected(BadWindow) else Accepted(Limit(count.n, window.value))
  }

  function Named(s: string): Option<int> {
    match s
    case "s" => Some(SECOND)
    case "sec" => Some(SECOND)
    case "second" => Some(SECOND)
    case "min" => Some(60 * SECOND)
    case "minute" => Some(60 * SECOND)
    case "h" => Some(3600 * SECOND)
    case "hour" => Some(3600 * SECOND)
    case "d" => Some(86400 * SECOND)
    case "day" => Some(86400 * SECOND)
    case _ => None
  }

  /** How many digits `s` begins with. */
  function Leading(s: string): (n: nat)
    ensures n <= |s| && AllDigits(s[..n]) && (n < |s| ==> !IsDigit(s[n]))
  {
    if s == "" || !IsDigit(s[0]) then 0
    else
      var n := Leading(s[1..]);
      assert s[..n + 1] == [s[0]] + s[1..][..n];
      n + 1
  }

  function ParseWindow(s: string): (r: Option<int>)
    ensures r.Some? ==> -TWO_63 <= r.value < TWO_63
  {
    if Named(s).Some? then Named(s)
    else
      var n := Leading(s);
      if n > 0 && (s[n..] == "s" || s[n..] == "ms") then
        Some(Wrap64(Clamped(s[..n]) * if s[n..] == "s" then SECOND else MILLISECOND))
      else None
  }

  /** A number as 64 bits can hold it. */
  function Held(n: nat): nat {
    if n < TWO_63 then n else TWO_63 - 1
  }

  /** The number that the window is computed from: the range error of a long number is dropped. */
  function Clamped(digits: string): (n: nat)
    requires AllDigits(digits)
    ensures n == Held(Value(digits))
  {
    match Atoi(digits)
    case Int(n) => n
    case OutOfRange(n) => n
    case NotANumber => 0
  }

  // ---------------------------------------------------------------- the notation

  datatype WindowText = Word(word: string) | Amount(digits: string, milli: bool)

  /** Every part of a written limit: spaces, an optional plus, the count, a slash, the window. */
  datatype Spelling = Spelling(
    before: string, plus: bool, count: string, beforeSlash: string,
    afterSlash: string, window: WindowText, after: string)

  predicate WellSpelled(p: Spelling) {
    && AllSpace(p.before) && AllSpace(p.beforeSlash) && AllSpace(p.afterSlash) && AllSpace(p.after)
    && AllDigits(p.count) && 0 < Value(p.count) < TWO_63
    && (match p.window
        case Word(word) => Named(word).Some?
        case Amount(digits, _) => digits != "" && AllDigits(digits))
  }

  function WindowSpelled(w: WindowText): string {
    match w
    case Word(word) => word
    case Amount(digits, milli) => digits + if milli then "ms" else "s"
  }

  function Spelled(p: Spelling): string {
    p.before + (NumberSpelled(p) + p.beforeSlash + ['/'] + (p.afterSlash + WindowSpelled(p.window))) + p.after
  }

  function Unit(milli: bool): int {
    if milli then MILLISECOND else SECOND
  }

  function WindowMeant(w: WindowText): int
    requires w.Word? ==> Named(w.word).Some?
    requires w.Amount? ==> AllDigits(w.digits)
  {
    match w
    case Word(word) => Named(word).value
    case Amount(digits, milli) => Value(digits) * Unit(milli)
  }

  /** The nanoseconds of a written window fit in 64 bits. */
  predicate Fits(w: WindowText)
    requires w.Word? ==> Named(w.word).Some?
    requires w.Amount? ==> AllDigits(w.digits)
  {
    WindowMeant(w) < TWO_63
  }

  lemma WordIsPlain(word: string)
    requires Named(word).Some?
    ensures word != "" && '/' !in word && Trimmed(word)
  {
  }

  lemma {:induction false} LeadingConcat(digits: string, rest: string)
    requires AllDigits(digits) && rest != "" && !IsDigit(rest[0])
    ensures Leading(digits + rest) == |digits|
    decreases |digits|
  {
    if digits == "" {
      assert digits + rest == rest;
    } else {
      LeadingConcat(digits[1..], rest);
      HeadOfConcat(digits, rest);
    }
  }

  /** A written window is read back, as itself exactly when it fits. */
  lemma ParseWindowSpelled(w: WindowText)
    requires w.Word? ==> Named(w.word).Some?
    requires w.Amount? ==> w.digits != "" && AllDigits(w.digits)
    ensures var s := WindowSpelled(w); s != "" && '/' !in s && Trimmed(s) && ParseWindow(s).Some?
    ensures ParseWindow(WindowSpelled(w)) == Some(WindowMeant(w)) <==> Fits(w)
  {
    match w
    case Word(word) => WordIsPlain(word);
    case Amount(digits, milli) =>
      var unit := if milli then "ms" else "s";
      AmountIsPlain(digits, unit);
      AmountParts(digits, unit);
      ClampKeepsFit(Value(digits), Unit(milli));
  }

  lemma AmountParts(digits: string, unit: string)
    requires AllDigits(digits) && unit != "" && !IsDigit(unit[0])
    ensures var s, n := digits + unit, Leading(digits + unit); n == |digits| && s[..n] == digits && s[n..] == unit
  {
    LeadingConcat(digits, unit);
  }

  lemma AmountIsPlain(digits: string, unit: string)
    requires digits != "" && AllDigits(digits) && (unit == "s" || unit == "ms")
    ensures Named(digits + unit).None? && '/' !in digits + unit && Trimmed(digits + unit)
  {
    var s := digits + unit;
    assert s[0] == digits[0] && s[|s| - 1] == unit[|unit| - 1];
    NoDigitFirst(s);
  }

  lemma NoDigitFirst(s: string)
    requires s != "" && IsDigit(s[0])
    ensures Named(s).None?
  {
  }

  lemma ClampKeepsFit(v: nat, unit: int)
    requires unit >= 1
    ensures var n := if v < TWO_63 then v else TWO_63 - 1;
            Wrap64(n * unit) == v * unit <==> v * unit < TWO_63
  {
    if v >= TWO_63 {
      assert v * unit >= TWO_63 * unit >= TWO_63;
    }
  }

  function NumberSpelled(p: Spelling): string {
    (if p.plus then "+" else "") + p.count
  }

  lemma NumberIsPlain(p: Spelling)
    requires WellSpelled(p)
    ensures var s := NumberSpelled(p); s != "" && '/' !in s && Trimmed(s) && Atoi(s) == Int(Value(p.count))
  {
    var s := NumberSpelled(p);
    assert if p.plus then s[1..] == p.count else s == p.count;
  }

  /** The two halves around a slash, once the spaces around each are gone. */
  lemma HalvesTrim(number: string, l: string, r: string, word: string)
    requires number != "" && Trimmed(number) && '/' !in number && AllSpace(l)
    requires word != "" && Trimmed(word) && AllSpace(r)
    ensures var t := number + l + ['/'] + (r + word);
            Trimmed(t) && t != "" && Cut(t, '/') == Some((number + l, r + word))
    ensures TrimSpace(number + l) == number && TrimSpace(r + word) == word
  {
    assert '/' !in l by { assert !IsSpace('/'); }
    CutConcat(number + l, '/', r + word);
    TrimSpacePaddedRight(number, l);
    TrimSpacePaddedLeft(r, word);
    TrimmedBetween(number, l + ['/'] + r, word);
    HalvesTogether(number, l, r, word);
  }

  lemma HalvesTogether(number: string, l: string, r: string, word: string)
    ensures number + (l + ['/'] + r) + word == number + l + ['/'] + (r + word)
  {
  }

  lemma ParseLimitParts(before: string, t: string, after: string, left: string, right: string)
    requires AllSpace(before) && AllSpace(after) && t != "" && Trimmed(t) && Cut(t, '/') == Some((left, right))
    ensures ParseLimit(before + t + after) == ParseParts(TrimSpace(left), TrimSpace(right))
  {
    TrimSpacePadded(before, t, after);
  }

  /** Every spelling is accepted with its count; the window is the one meant exactly when it fits in 64 bits. */
  lemma ParseSpelled(p: Spelling)
    requires WellSpelled(p)
    ensures var r := ParseLimit(Spelled(p));
            && r.Accepted? && r.limit.count == Value(p.count)
            && Some(r.limit.window) == ParseWindow(WindowSpelled(p.window))
            && (r.limit.window == WindowMeant(p.window) <==> Fits(p.window))
  {
    ParseWindowSpelled(p.window);
    NumberIsPlain(p);
    var number, word := NumberSpelled(p), WindowSpelled(p.window);
    HalvesParse(p.before, number, p.beforeSlash, p.afterSlash, word, p.after);
  }

  lemma HalvesParse(before: string, number: string, l: string, r: string, word: string, after: string)
    requires AllSpace(before) && AllSpace(l) && AllSpace(r) && AllSpace(after)
    requires number != "" && Trimmed(number) && '/' !in number && word != "" && Trimmed(word)
    ensures ParseLimit(before + (number + l + ['/'] + (r + word)) + after) == ParseParts(number, word)
  {
    HalvesTrim(number, l, r, word);
    ParseLimitParts(before, number + l + ['/'] + (r + word), after, number + l, r + word);
  }

  lemma AtoiIsSpelled(s: string)
    requires Atoi(s).Int? && Atoi(s).n > 0
    ensures s != ""
    ensures var count := if s[0] == '+' then s[1..] else s;
            count != "" && AllDigits(count) && Value(count) == Atoi(s).n
  {
  }

  lemma AcceptedParts(s: string)
    requires ParseLimit(s).Accepted?
    ensures '/' in TrimSpace(s)
    ensures var (left, right) := Cut(TrimSpace(s), '/').value;
            && Atoi(TrimSpace(left)).Int? && Atoi(TrimSpace(left)).n > 0
            && ParseWindow(TrimSpace(right)).Some?
  {
  }

  /** Nothing else is accepted. */
  lemma AcceptedIsSpelled(s: string) returns (p: Spelling)
    requires ParseLimit(s).Accepted?
    ensures WellSpelled(p) && Spelled(p) == s
  {
    AcceptedParts(s);
    var before, after := TrimSpaceRest(s);
    var (left, right) := Cut(TrimSpace(s), '/').value;
    var l0, l1 := TrimSpaceRest(left);
    var r0, r1 := TrimSpaceRest(right);
    var number, word := TrimSpace(left), TrimSpace(right);
    AtoiIsSpelled(number);
    var window := WindowIsSpelled(word);
    AllSpaceConcat(before, l0);
    AllSpaceConcat(r1, after);
    p := SpelledFrom(before + l0, number, l1, r0, window, r1 + after);
    assert s == before + ((l0 + number + l1) + ['/'] + (r0 + word + r1)) + after;
    SameText(before, l0, number, l1, r0, word, r1, after);
  }

  lemma SpelledFrom(b: string, number: string, l: string, r: string, w: WindowText, a: string) returns (p: Spelling)
    requires AllSpace(b) && AllSpace(l) && AllSpace(r) && AllSpace(a)
    requires Atoi(number).Int? && Atoi(number).n > 0
    requires w.Word? ==> Named(w.word).Some?
    requires w.Amount? ==> w.digits != "" && AllDigits(w.digits)
    ensures WellSpelled(p) && Spelled(p) == b + (number + l + ['/'] + (r + WindowSpelled(w))) + a
  {
    AtoiIsSpelled(number);
    var plus := number[0] == '+';
    p := Spelling(b, plus, if plus then number[1..] else number, l, r, w, a);
    assert NumberSpelled(p) == number;
  }

  lemma WindowIsSpelled(word: string) returns (w: WindowText)
    requires ParseWindow(word).Some?
    ensures WindowSpelled(w) == word
    ensures w.Word? ==> Named(w.word).Some?
    ensures w.Amount? ==> w.digits != "" && AllDigits(w.digits)
  {
    var n := Leading(word);
    if Named(word).Some? {
      w := Word(word);
    } else {
      w := Amount(word[..n], word[n..] == "ms");
      assert word == word[..n] + word[n..];
    }
  }

  lemma SameText(b: string, l0: string, number: string, l1: string, r0: string, word: string, r1: string, a: string)
    ensures b + ((l0 + number + l1) + ['/'] + (r0 + word + r1)) + a
            == (b + l0) + (number + l1 + ['/'] + (r0 + word)) + (r1 + a)
  {
  }

  /** What a written window is read as, whether it is the one meant or not. */
  function WindowRead(w: WindowText): int
    requires w.Word? ==> Named(w.word).Some?
    requires w.Amount? ==> AllDigits(w.digits)
  {
    match w
    case Word(word) => Named(word).value
    case Amount(digits, milli) => Wrap64(Held(Value(digits)) * Unit(milli))
  }

  lemma WindowIsRead(w: WindowText)
    requires w.Word? ==> Named(w.word).Some?
    requires w.Amount? ==> w.digits != "" && AllDigits(w.digits)
    ensures ParseWindow(WindowSpelled(w)) == Some(WindowRead(w))
  {
    if w.Amount? {
      AmountIsPlain(w.digits, if w.milli then "ms" else "s");
      AmountParts(w.digits, if w.milli then "ms" else "s");
    }
  }

  lemma NamedIsPositive(word: string)
    requires Named(word).Some?
    ensures Named(word).value > 0
  {
  }

  /** The texts whose limit limits nothing are those with a numeric window that wraps around to a negative one. */
  lemma UnlimitingIff(p: Spelling)
    requires WellSpelled(p)
    ensures var parsed := ParseLimit(Spelled(p));
            parsed.Accepted? && (!Limiting(parsed.limit) <==> p.window.Amount? && WindowRead(p.window) < 0)
  {
    ParseSpelled(p);
    WindowIsRead(p.window);
    if p.window.Word? { NamedIsPositive(p.window.word); }
  }

  /** What a printed limit is read as, whatever its window. */
  lemma PrintedWindow(count: nat, n: nat, milli: bool)
    requires 0 < count < TWO_63
    ensures ParseLimit(Decimal(count) + "/" + Decimal(n) + if milli then "ms" else "s")
            == Accepted(Limit(count, Wrap64(Held(n) * Unit(milli))))
  {
    var p := PrintedSpelling(count, n, milli);
    ParseSpelled(p);
    WindowIsRead(p.window);
  }

  /** One such text is that of 10000000000 seconds, with any count. */
  lemma TenBillionSeconds(count: nat, n: nat, milli: bool)
    requires 0 < count < TWO_63 && n == 10_000_000_000 && !milli
    ensures var parsed := ParseLimit(Decimal(count) + "/" + Decimal(n) + if milli then "ms" else "s");
            parsed.Accepted? && parsed.limit.window == -8_446_744_073_709_551_616 && !Limiting(parsed.limit)
  {
    PrintedWindow(count, n, milli);
    TenBillionWrap(n);
  }

  /** A number beyond 64 bits, however long, is read as 2^63 - 1, whose product wraps to minus one of the unit. */
  lemma BeyondSixtyFour(count: nat, n: nat)
    requires 0 < count < TWO_63 && n >= 9_223_372_036_854_775_808
    ensures ParseLimit(Decimal(count) + "/" + Decimal(n) + if false then "ms" else "s")
            == Accepted(Limit(count, -1_000_000_000))
    ensures ParseLimit(Decimal(count) + "/" + Decimal(n) + if true then "ms" else "s")
            == Accepted(Limit(count, -1_000_000))
  {
    PrintedWindow(count, n, false);
    PrintedWindow(count, n, true);
    HeldWraps(n);
  }

  lemma HeldWraps(n: nat)
    requires n >= 9_223_372_036_854_775_808
    ensures Wrap64(Held(n) * Unit(false)) == -1_000_000_000 && Wrap64(Held(n) * Unit(true)) == -1_000_000
  {
  }

  lemma TenBillionWrap(n: nat)
    requires n == 10_000_000_000
    ensures Wrap64(Held(n) * Unit(false)) == -8_446_744_073_709_551_616
  {
  }

  /** The windows written by a number: `n` seconds or `n` milliseconds, exactly up to the 64-bit limit. */
  lemma PrintedLimit(count: nat, n: nat, milli: bool)
    requires 0 < count < TWO_63
    ensures ParseLimit(Decimal(count) + "/" + Decimal(n) + if milli then "ms" else "s")
            == Accepted(Limit(count, n * Unit(milli)))
            <==> n <= if milli then 9223372036854 else 9223372036
  {
    var p := PrintedSpelling(count, n, milli);
    ParseSpelled(p);
  }

  lemma PrintedSpelling(count: nat, n: nat, milli: bool) returns (p: Spelling)
    requires 0 < count < TWO_63
    ensures WellSpelled(p) && Value(p.count) == count && p.window == Amount(Decimal(n), milli)
    ensures Spelled(p) == Decimal(count) + "/" + Decimal(n) + if milli then "ms" else "s"
    ensures WindowMeant(p.window) == n * Unit(milli)
    ensures Fits(p.window) <==> n <= if milli then 9223372036854 else 9223372036
  {
    var unit := if milli then "ms" else "s";
    p := Spelling("", false, Decimal(count), "", "", Amount(Decimal(n), milli), "");
    PrintedText(Decimal(count), Decimal(n), unit);
  }

  lemma PrintedText(count: string, n: string, unit: string)
    ensures "" + (("" + count) + "" + ['/'] + ("" + (n + unit))) + "" == count + "/" + n + unit
  {
  }

  // ---------------------------------------------------------------- the words and the refusals

  /** The named windows, in nanoseconds. */
  lemma NamedWindows()
    ensures ParseWindow("s") == ParseWindow("sec") == ParseWindow("second") == Some(1_000_000_000)
    ensures ParseWindow("min") == ParseWindow("minute") == Some(60_000_000_000)
    ensures ParseWindow("h") == ParseWindow("hour") == Some(3_600_000_000_000)
    ensures ParseWindow("d") == ParseWindow("day") == Some(86_400_000_000_000)
  {
  }

  /** There are no other words. */
  lemma OnlyTheseWords(word: string)
    requires ParseWindow(word).Some?
    ensures || word in ["s", "sec", "second", "min", "minute", "h", "hour", "d", "day"]
            || (word != "" && '0' <= word[0] <= '9' && word[|word| - 1] == 's')
  {
    if Named(word).None? {
      var n := Leading(word);
      assert word == word[..n] + word[n..];
    }
  }

  /** A count of digits under a named window, as it is usually written. */
  lemma PlainLimit(count: string, word: string)
    requires AllDigits(count) && 0 < Value(count) < TWO_63
    requires word in ["s", "sec", "second", "min", "minute", "h", "hour", "d", "day"]
    ensures ParseLimit(count + "/" + word) == Accepted(Limit(Value(count), ParseWindow(word).value))
  {
    var p := Spelling("", false, count, "", "", Word(word), "");
    WordsAreNamed(word);
    ParseSpelled(p);
    PlainText(count, word);
  }

  lemma WordsAreNamed(word: string)
    requires word in ["s", "sec", "second", "min", "minute", "h", "hour", "d", "day"]
    ensures Named(word).Some?
  {
  }

  lemma PlainText(count: string, word: string)
    ensures "" + (("" + count) + "" + ['/'] + ("" + word)) + "" == count + "/" + word
  {
  }

  lemma {:induction false} NumbersOfOnes()
    ensures AllDigits("60") && Value("60") == 60 && AllDigits("1000") && Value("1000") == 1000
    ensures AllDigits("10") && Value("10") == 10 && AllDigits("100") && Value("100") == 100
  {
    assert "60"[..1] == "6" && "6"[..0] == "" && "100"[..2] == "10" && "10"[..1] == "1" && "1"[..0] == "";
    assert "1000"[..3] == "100";
  }

  /** The examples of the function's comment. */
  lemma DocumentedLimits()
    ensures ParseLimit("60" + "/" + "min") == Accepted(Limit(60, 60_000_000_000))
    ensures ParseLimit("1000" + "/" + "hour") == Accepted(Limit(1000, 3_600_000_000_000))
    ensures ParseLimit("10" + "/" + "s") == Accepted(Limit(10, 1_000_000_000))
  {
    NumbersOfOnes();
    NamedWindows();
    PlainLimit("60", "min");
    PlainLimit("1000", "hour");
    PlainLimit("10", "s");
  }

  /** What is refused, and why: the first thing that is wrong, from left to right. */
  lemma RefusedBecause(s: string)
    ensures ParseLimit(s) == Rejected(EmptyLimit) <==> AllSpace(s)
    ensures ParseLimit(s) == Rejected(NoSlash) <==> !AllSpace(s) && '/' !in s
  {
    TrimmedAwayIff(s);
    TrimSpaceKeeps(s, '/');
    RefusedWhenTrimmed(TrimSpace(s));
  }

  lemma RefusedWhenTrimmed(t: string)
    ensures ParseTrimmed(t) == Rejected(EmptyLimit) <==> t == ""
    ensures ParseTrimmed(t) == Rejected(NoSlash) <==> t != "" && '/' !in t
  {
    if '/' in t { RefusedHalf(TrimSpace(Cut(t, '/').value.0), TrimSpace(Cut(t, '/').value.1)); }
  }

  /** With a slash: a number that is not a positive one of 64 bits is refused first, then a window of no kind. */
  lemma RefusedHalf(left: string, right: string)
    ensures ParseParts(left, right) == Rejected(BadCount) <==> !(Atoi(left).Int? && Atoi(left).n >= 1)
    ensures ParseParts(left, right) == Rejected(BadWindow) <==>
            Atoi(left).Int? && Atoi(left).n >= 1 && ParseWindow(right).None?
  {
  }
}
