/** The per-key window counter of internal/ratelimit/ratelimit.go. Instants and durations are whole ticks. */
module RateLimit {
  import opened Text

  datatype Limit = Limit(count: int, window: int)

  datatype Result = Result(allowed: bool, limit: int, remaining: int, retryAfter: int)

  // ---------------------------------------------------------------- one counter

  /** What one `window` record holds. */
  datatype Counter = Counter(count: int, resetAt: int)

  /** The counter that a call at `now` meets: the stored one, or a new one when there is none or it has expired. */
  function Meet(limit: Limit, stored: Option<Counter>, now: int): Counter {
    if stored.None? || now > stored.value.resetAt then Counter(0, now + limit.window) else stored.value
  }

  function Take(limit: Limit, c: Counter): Counter {
    if c.count >= limit.count then c else c.(count := c.count + 1)
  }

  function Answer(limit: Limit, c: Counter, now: int): Result {
    if c.count >= limit.count then Result(false, limit.count, 0, c.resetAt - now)
    else Result(true, limit.count, limit.count - (c.count + 1), 0)
  }

  /** The counter of a single key after it was called at the given times, in order, and never swept. */
  function Single(limit: Limit, times: seq<int>): Option<Counter> {
    if times == [] then None
    else
      var last := |times| - 1;
      Some(Take(limit, Meet(limit, Single(limit, times[..last]), times[last])))
  }

  /** The answer to the call number `i` of a run of a single key. */
  function SingleAnswer(limit: Limit, times: seq<int>, i: nat): Result
    requires i < |times|
  {
    Answer(limit, Meet(limit, Single(limit, times[..i]), times[i]), times[i])
  }

  predicate Nondecreasing(times: seq<int>) {
    forall i, j :: 0 <= i <= j < |times| ==> times[i] <= times[j]
  }

  /** How many of the calls of a run are admitted at times from `a` to `b`, both included. */
  function Admitted(limit: Limit, times: seq<int>, a: int, b: int): nat {
    if times == [] then 0
    else
      var last := |times| - 1;
      Admitted(limit, times[..last], a, b)
      + (if a <= times[last] <= b && SingleAnswer(limit, times, last).allowed then 1 else 0)
  }

  // ---------------------------------------------------------------- the exact bound

  /**
   * The limits that limit anything. Under a negative window, which the notation can spell, every record has expired
   * by the time it is stored.
   */
  predicate Limiting(limit: Limit) {
    limit.window >= 0 || limit.count <= 0
  }

  /** The largest number of calls that any interval of `length` ticks (both ends included) can admit. */
  function MaxAdmitted(limit: Limit, length: nat): int
    requires Limiting(limit)
  {
    var period := limit.window + 1;
    if limit.count <= 0 then 0
    else if length % period == 0 then limit.count * (length / period + 1)
    else limit.count * (length / period + 2) - 1
  }

  /** The same number, counted one window at a time. */
  function Room(limit: Limit, length: nat): int
    requires limit.window >= 0 && limit.count > 0
    decreases length
  {
    if length == 0 then limit.count
    else if length <= limit.window then 2 * limit.count - 1
    else limit.count + Room(limit, length - (limit.window + 1))
  }

  lemma DivStep(x: nat, p: nat)
    requires 0 < p <= x
    ensures (x - p) / p == x / p - 1 && (x - p) % p == x % p
  {
    var q, r := (x - p) / p, (x - p) % p;
    assert x == p * (q + 1) + r;
    DivModUnique(x, p, q + 1, r);
  }

  lemma DivModUnique(x: nat, p: nat, q: nat, r: nat)
    requires 0 < p && x == p * q + r && r < p
    ensures x / p == q && x % p == r
  {
    var d := x / p - q;
    assert p * d == r - x % p by {
      assert p * (x / p) + x % p == p * q + r;
      assert p * d == p * (x / p) - p * q;
    }
    assert d >= 1 ==> p * d >= p * 1;
    assert d <= -1 ==> p * d <= p * -1;
  }

  lemma {:induction false} RoomIsMax(limit: Limit, length: nat)
    requires limit.window >= 0 && limit.count > 0
    ensures Room(limit, length) == MaxAdmitted(limit, length)
    decreases length
  {
    var p := limit.window + 1;
    if length < p {
      DivModUnique(length, p, 0, length);
    } else {
      RoomIsMax(limit, length - p);
      MaxStep(limit, length);
    }
  }

  lemma MaxStep(limit: Limit, length: nat)
    requires limit.count > 0 && 0 <= limit.window < length
    ensures MaxAdmitted(limit, length) == limit.count + MaxAdmitted(limit, length - (limit.window + 1))
  {
    DivStep(length, limit.window + 1);
    OneMore(limit.count, length / (limit.window + 1));
    OneMore(limit.count, length / (limit.window + 1) + 1);
  }

  lemma OneMore(c: int, q: int)
    ensures c * (q + 1) == c + c * q
  {
  }

  lemma {:induction false} RoomGrows(limit: Limit, x: nat, y: nat)
    requires limit.window >= 0 && limit.count > 0 && x <= y
    ensures limit.count <= Room(limit, x) <= Room(limit, y)
    ensures y > 0 && limit.window > 0 ==> 2 * limit.count - 1 <= Room(limit, y)
    decreases y
  {
    if y > limit.window {
      var p := limit.window + 1;
      if x > limit.window {
        RoomGrows(limit, x - p, y - p);
      } else {
        RoomGrows(limit, 0, y - p);
      }
    }
  }

  /** The run up to each call: how full `[a, b]` can be by then, given the window that is open. */
  predicate Packed(limit: Limit, times: seq<int>, a: int, b: int)
    requires limit.window >= 0 && limit.count > 0 && a <= b
  {
    var n := Admitted(limit, times, a, b);
    match Single(limit, times)
    case None => n == 0
    case Some(c) =>
      var openedAt := c.resetAt - limit.window;
      && openedAt <= times[|times| - 1] && 1 <= c.count <= limit.count
      && (times[|times| - 1] < a ==> n == 0)
      && (if openedAt < a then (if c.resetAt < a then n == 0 else n <= c.count - 1)
          else if openedAt <= b then n <= Room(limit, openedAt - a) - limit.count + c.count
          else n <= Room(limit, b - a))
  }

  lemma {:induction false} PackedAlways(limit: Limit, times: seq<int>, a: int, b: int)
    requires limit.window >= 0 && limit.count > 0 && Nondecreasing(times) && a <= b
    ensures Packed(limit, times, a, b)
    decreases |times|
  {
    if times == [] { return; }
    var last := |times| - 1;
    var before, now := times[..last], times[last];
    PackedAlways(limit, before, a, b);
    assert before != [] ==> before[|before| - 1] <= now;
    match Single(limit, before) {
      case None =>
        PackedStep(limit, now, now, a, b);
      case Some(c) =>
        PackedStep(limit, c.resetAt - limit.window, now, a, b);
    }
  }

  /** The arithmetic of opening a window at `now` after one that was openedAt at `openedAt` has expired. */
  lemma PackedStep(limit: Limit, openedAt: int, now: int, a: int, b: int)
    requires limit.window >= 0 && limit.count > 0 && a <= b
    ensures a <= openedAt && openedAt + limit.window < now ==>
      Room(limit, openedAt - a) + limit.count <= Room(limit, now - a)
    ensures openedAt < a <= openedAt + limit.window < now ==> 2 * limit.count - 1 <= Room(limit, now - a)
    ensures a <= now ==> limit.count <= Room(limit, now - a)
    ensures limit.count <= Room(limit, b - a)
    ensures a <= openedAt <= b ==> Room(limit, openedAt - a) <= Room(limit, b - a)
  {
    if a <= now { RoomGrows(limit, 0, now - a); }
    RoomGrows(limit, 0, b - a);
    if a <= openedAt <= b { RoomGrows(limit, openedAt - a, b - a); }
    if a <= openedAt && openedAt + limit.window < now {
      var p := limit.window + 1;
      RoomGrows(limit, openedAt - a + p, now - a);
    }
  }

  lemma {:induction false} NoQuota(limit: Limit, times: seq<int>, a: int, b: int)
    requires limit.count <= 0 || b < a
    ensures Admitted(limit, times, a, b) == 0
    decreases |times|
  {
    if times != [] {
      var before := times[..|times| - 1];
      NoQuota(limit, before, a, b);
      if limit.count <= 0 { CountNeverNegative(limit, before); }
    }
  }

  lemma {:induction false} CountNeverNegative(limit: Limit, times: seq<int>)
    ensures Single(limit, times).Some? ==> 0 <= Single(limit, times).value.count
    decreases |times|
  {
    if times != [] { CountNeverNegative(limit, times[..|times| - 1]); }
  }

  lemma SingleBound(limit: Limit, times: seq<int>, a: int, length: nat)
    requires Limiting(limit) && Nondecreasing(times)
    ensures Admitted(limit, times, a, a + length) <= MaxAdmitted(limit, length)
  {
    if limit.count <= 0 {
      NoQuota(limit, times, a, a + length);
    } else {
      PackedAlways(limit, times, a, a + length);
      RoomIsMax(limit, length);
      RoomGrows(limit, 0, length);
      match Single(limit, times) {
        case None =>
        case Some(c) =>
          PackedStep(limit, c.resetAt - limit.window, a, a, a + length);
          if c.resetAt >= a { RoomGrows(limit, length, length); }
      }
    }
  }

  /** How many of the calls of a run are made at times from `a` to `b`. */
  function Asked(times: seq<int>, a: int, b: int): nat {
    if times == [] then 0
    else Asked(times[..|times| - 1], a, b) + if a <= times[|times| - 1] <= b then 1 else 0
  }

  /** A limit that is not limiting admits every call. */
  lemma {:induction false} EveryCallAdmitted(limit: Limit, times: seq<int>, a: int, b: int)
    requires !Limiting(limit) && Nondecreasing(times)
    ensures Admitted(limit, times, a, b) == Asked(times, a, b)
    ensures times != [] ==> Single(limit, times) == Some(Counter(1, times[|times| - 1] + limit.window))
    decreases |times|
  {
    if times != [] {
      var before := times[..|times| - 1];
      EveryCallAdmitted(limit, before, a, b);
      assert before != [] ==> before[|before| - 1] <= times[|times| - 1];
    }
  }

  // ---------------------------------------------------------------- the bound is reached

  function Burst(t: int, n: nat): seq<int> {
    seq(n, _ => t)
  }

  lemma {:induction false} BurstAdmits(limit: Limit, before: seq<int>, t: int, n: nat, a: int, b: int)
    requires var c := Meet(limit, Single(limit, before), t); c.count + n <= limit.count && t <= c.resetAt
    ensures var c := Meet(limit, Single(limit, before), t);
            n > 0 ==> Single(limit, before + Burst(t, n)) == Some(Counter(c.count + n, c.resetAt))
    ensures Admitted(limit, before + Burst(t, n), a, b)
            == Admitted(limit, before, a, b) + if a <= t <= b then n else 0
    decreases n
  {
    if n == 0 {
      assert before + Burst(t, n) == before;
    } else {
      BurstNext(before, t, n);
      BurstAdmits(limit, before, t, n - 1, a, b);
      OneMoreAdmitted(limit, before + Burst(t, n - 1), t, a, b);
    }
  }

  lemma BurstNext(before: seq<int>, t: int, n: nat)
    requires n > 0
    ensures before + Burst(t, n) == before + Burst(t, n - 1) + [t]
    ensures n == 1 ==> before + Burst(t, n - 1) == before
  {
  }

  lemma OneMoreAdmitted(limit: Limit, most: seq<int>, t: int, a: int, b: int)
    requires Meet(limit, Single(limit, most), t).count < limit.count
    ensures var c := Meet(limit, Single(limit, most), t); Single(limit, most + [t]) == Some(c.(count := c.count + 1))
    ensures Admitted(limit, most + [t], a, b) == Admitted(limit, most, a, b) + if a <= t <= b then 1 else 0
  {
    assert (most + [t])[..|most|] == most;
  }

  /** From `t` on, a full burst as soon as each window allows it, up to time `b`. */
  function Fill(limit: Limit, before: seq<int>, t: int, b: int): seq<int>
    requires limit.window >= 0 && limit.count > 0
    decreases b - t
  {
    if t > b then before else Fill(limit, before + Burst(t, limit.count), t + limit.window + 1, b)
  }

  function Full(limit: Limit, x: int): int
    requires limit.window >= 0
    decreases x
  {
    if x < 0 then 0 else limit.count + Full(limit, x - (limit.window + 1))
  }

  lemma BurstInOrder(before: seq<int>, t: int, n: nat)
    requires Nondecreasing(before) && (before != [] ==> before[|before| - 1] <= t)
    ensures Nondecreasing(before + Burst(t, n))
    ensures n > 0 ==> (before + Burst(t, n))[|before| + n - 1] == t
  {
  }

  /** One full burst, in a window of its own. */
  lemma FillRound(limit: Limit, before: seq<int>, t: int, a: int, b: int)
    requires limit.window >= 0 && limit.count > 0 && a <= t <= b && Nondecreasing(before)
    requires before != [] ==> before[|before| - 1] <= t
    requires Single(limit, before).Some? ==> Single(limit, before).value.resetAt < t
    ensures var after := before + Burst(t, limit.count);
            && Nondecreasing(after) && after != [] && after[|after| - 1] == t
            && Single(limit, after) == Some(Counter(limit.count, t + limit.window))
            && Admitted(limit, after, a, b) == Admitted(limit, before, a, b) + limit.count
  {
    assert Meet(limit, Single(limit, before), t) == Counter(0, t + limit.window);
    BurstAdmits(limit, before, t, limit.count, a, b);
    BurstInOrder(before, t, limit.count);
  }

  lemma {:induction false} FillAdmits(limit: Limit, before: seq<int>, t: int, a: int, b: int)
    requires limit.window >= 0 && limit.count > 0 && a <= t && Nondecreasing(before)
    requires before != [] ==> before[|before| - 1] <= t
    requires Single(limit, before).Some? ==> Single(limit, before).value.resetAt < t
    ensures Nondecreasing(Fill(limit, before, t, b))
    ensures Admitted(limit, Fill(limit, before, t, b), a, b) == Admitted(limit, before, a, b) + Full(limit, b - t)
    decreases b - t
  {
    if t <= b {
      FillRound(limit, before, t, a, b);
      FillAdmits(limit, before + Burst(t, limit.count), t + limit.window + 1, a, b);
    }
  }

  lemma {:induction false} RoomIsFull(limit: Limit, x: nat)
    requires limit.window >= 0 && limit.count > 0
    ensures || Room(limit, x) == Full(limit, x)
            || (x > 0 && limit.window > 0 && Room(limit, x) == limit.count - 1 + Full(limit, x - 1))
    decreases x
  {
    if x > limit.window { RoomIsFull(limit, x - (limit.window + 1)); }
  }

  lemma SingleBoundReached(limit: Limit, a: int, length: nat) returns (times: seq<int>)
    requires Limiting(limit)
    ensures Nondecreasing(times)
    ensures Admitted(limit, times, a, a + length) == MaxAdmitted(limit, length)
  {
    times := [];
    if limit.count > 0 {
      var b := a + length;
      RoomIsFull(limit, length);
      RoomIsMax(limit, length);
      if Room(limit, length) == Full(limit, length) {
        FillAdmits(limit, [], a, a, b);
        times := Fill(limit, [], a, b);
      } else {
        var before := OpenedEarly(limit, a, b);
        FillAdmits(limit, before, a + 1, a, b);
        times := Fill(limit, before, a + 1, b);
      }
    }
  }

  /** A window opened just in time to be over after `a`, and filled up at `a`. */
  lemma OpenedEarly(limit: Limit, a: int, b: int) returns (times: seq<int>)
    requires limit.window > 0 && limit.count > 0 && a <= b
    ensures times != [] && Nondecreasing(times) && times[|times| - 1] <= a
    ensures Single(limit, times).Some? && Single(limit, times).value.resetAt == a
    ensures Admitted(limit, times, a, b) == limit.count - 1
  {
    var opener := [a - limit.window];
    assert opener[..0] == [];
    BurstAdmits(limit, opener, a, limit.count - 1, a, b);
    BurstInOrder(opener, a, limit.count - 1);
    times := opener + Burst(a, limit.count - 1);
    assert limit.count == 1 ==> times == opener;
  }

  // ---------------------------------------------------------------- the table of all keys

  type Table = map<string, Counter>

  datatype Op = Call(key: string, now: int) | Sweep(now: int)

  function Stored(table: Table, key: string): Option<Counter> {
    if key in table then Some(table[key]) else None
  }

  function Swept(table: Table, now: int): Table {
    map key | key in table && !(now > table[key].resetAt) :: table[key]
  }

  function Apply(limit: Limit, table: Table, op: Op): Table {
    match op
    case Call(key, now) => table[key := Take(limit, Meet(limit, Stored(table, key), now))]
    case Sweep(now) => Swept(table, now)
  }

  /** The table after a history of calls and sweeps. */
  function After(limit: Limit, ops: seq<Op>): Table {
    if ops == [] then map[] else Apply(limit, After(limit, ops[..|ops| - 1]), ops[|ops| - 1])
  }

  /** The answer to the call number `i` of a history. */
  function AnswerAt(limit: Limit, ops: seq<Op>, i: nat): Result
    requires i < |ops| && ops[i].Call?
  {
    Answer(limit, Meet(limit, Stored(After(limit, ops[..i]), ops[i].key), ops[i].now), ops[i].now)
  }

  predicate InOrder(ops: seq<Op>) {
    forall i, j :: 0 <= i <= j < |ops| ==> ops[i].now <= ops[j].now
  }

  function Times(ops: seq<Op>, key: string): seq<int> {
    if ops == [] then []
    else
      var last := ops[|ops| - 1];
      var before := Times(ops[..|ops| - 1], key);
      if last.Call? && last.key == key then before + [last.now] else before
  }

  lemma {:induction false} TimesNondecreasing(ops: seq<Op>, key: string)
    requires InOrder(ops)
    ensures Nondecreasing(Times(ops, key))
    ensures forall i :: 0 <= i < |Times(ops, key)| ==> ops != [] && Times(ops, key)[i] <= ops[|ops| - 1].now
    decreases |ops|
  {
    if ops != [] {
      var before := ops[..|ops| - 1];
      TimesNondecreasing(before, key);
      assert before != [] ==> before[|before| - 1].now <= ops[|ops| - 1].now;
    }
  }

  /** Whatever the other keys and the sweeps do, a key sees its own counter, up to the removal of an expired one. */
  lemma {:induction false} Projection(limit: Limit, ops: seq<Op>, key: string)
    requires InOrder(ops)
    ensures var stored, single := Stored(After(limit, ops), key), Single(limit, Times(ops, key));
            || stored == single
            || (stored.None? && single.Some? && ops != [] && single.value.resetAt < ops[|ops| - 1].now)
    decreases |ops|
  {
    if ops != [] {
      var before, last := ops[..|ops| - 1], ops[|ops| - 1];
      Projection(limit, before, key);
      var t := Times(ops, key);
      if last.Call? && last.key == key {
        assert t[..|t| - 1] == Times(before, key);
      }
    }
  }

  /** The answers to one key are those of that key's run alone. */
  lemma {:induction false} KeysAreIndependent(limit: Limit, ops: seq<Op>, i: nat)
    requires i < |ops| && ops[i].Call? && InOrder(ops)
    ensures var t := Times(ops[..i + 1], ops[i].key);
            t != [] && AnswerAt(limit, ops, i) == SingleAnswer(limit, t, |t| - 1)
  {
    Projection(limit, ops[..i], ops[i].key);
    var t := Times(ops[..i + 1], ops[i].key);
    assert ops[..i + 1][..i] == ops[..i];
    assert t[..|t| - 1] == Times(ops[..i], ops[i].key);
  }

  /** The answers of a history, one for each call. */
  function Answers(limit: Limit, ops: seq<Op>): seq<Result> {
    if ops == [] then []
    else
      var last := |ops| - 1;
      var before := Answers(limit, ops[..last]);
      if ops[last].Call? then before + [AnswerAt(limit, ops, last)] else before
  }

  function WithoutSweeps(ops: seq<Op>): seq<Op> {
    if ops == [] then []
    else
      var last := |ops| - 1;
      var before := WithoutSweeps(ops[..last]);
      if ops[last].Call? then before + [ops[last]] else before
  }

  lemma {:induction false} WithoutSweepsTimes(ops: seq<Op>, key: string)
    ensures Times(WithoutSweeps(ops), key) == Times(ops, key)
    decreases |ops|
  {
    if ops != [] {
      var last := |ops| - 1;
      WithoutSweepsTimes(ops[..last], key);
      if ops[last].Call? {
        var w := WithoutSweeps(ops);
        assert w[..|w| - 1] == WithoutSweeps(ops[..last]);
      }
    }
  }

  lemma {:induction false} WithoutSweepsInOrder(ops: seq<Op>)
    requires InOrder(ops)
    ensures InOrder(WithoutSweeps(ops))
    ensures forall op :: op in WithoutSweeps(ops) ==> ops != [] && op.now <= ops[|ops| - 1].now
    decreases |ops|
  {
    if ops != [] { WithoutSweepsInOrder(ops[..|ops| - 1]); }
  }

  /** Sweeping, wherever it happens, never changes an answer. */
  lemma {:induction false} SweepsAreInvisible(limit: Limit, ops: seq<Op>)
    requires InOrder(ops)
    ensures Answers(limit, WithoutSweeps(ops)) == Answers(limit, ops)
    decreases |ops|
  {
    if ops != [] {
      var last := |ops| - 1;
      var before := ops[..last];
      SweepsAreInvisible(limit, before);
      if ops[last].Call? { LastAnswerIsSame(limit, ops); }
    }
  }

  lemma LastAnswerIsSame(limit: Limit, ops: seq<Op>)
    requires InOrder(ops) && ops != [] && ops[|ops| - 1].Call?
    ensures var w, last := WithoutSweeps(ops), |ops| - 1;
            && w != [] && w[|w| - 1] == ops[last] && w[..|w| - 1] == WithoutSweeps(ops[..last])
            && AnswerAt(limit, w, |w| - 1) == AnswerAt(limit, ops, last)
  {
    WithoutSweepsInOrder(ops);
    WithoutSweepsTimes(ops, ops[|ops| - 1].key);
    SameTimesSameAnswer(limit, ops, WithoutSweeps(ops));
  }

  /** The last answer depends on the called key's times only. */
  lemma SameTimesSameAnswer(limit: Limit, ops: seq<Op>, w: seq<Op>)
    requires ops != [] && w != [] && InOrder(ops) && InOrder(w)
    requires ops[|ops| - 1].Call? && ops[|ops| - 1] == w[|w| - 1]
    requires Times(ops, ops[|ops| - 1].key) == Times(w, ops[|ops| - 1].key)
    ensures AnswerAt(limit, w, |w| - 1) == AnswerAt(limit, ops, |ops| - 1)
  {
    assert ops[..|ops| - 1 + 1] == ops && w[..|w| - 1 + 1] == w;
    KeysAreIndependent(limit, ops, |ops| - 1);
    KeysAreIndependent(limit, w, |w| - 1);
  }

  /** How many calls of `key` a history admits at times from `a` to `b`, both included. */
  function AdmittedTo(limit: Limit, ops: seq<Op>, key: string, a: int, b: int): nat {
    if ops == [] then 0
    else
      var last := |ops| - 1;
      AdmittedTo(limit, ops[..last], key, a, b)
      + (if ops[last].Call? && ops[last].key == key && a <= ops[last].now <= b && AnswerAt(limit, ops, last).allowed
         then 1 else 0)
  }

  lemma {:induction false} AdmittedToIsSingle(limit: Limit, ops: seq<Op>, key: string, a: int, b: int)
    requires InOrder(ops)
    ensures AdmittedTo(limit, ops, key, a, b) == Admitted(limit, Times(ops, key), a, b)
    decreases |ops|
  {
    if ops != [] {
      var last := |ops| - 1;
      AdmittedToIsSingle(limit, ops[..last], key, a, b);
      if ops[last].Call? && ops[last].key == key {
        KeysAreIndependent(limit, ops, last);
        assert ops[..last + 1] == ops;
        var t := Times(ops, key);
        assert t[..|t| - 1] == Times(ops[..last], key);
      }
    }
  }

  /**
   * The bound, for every key, every interval and every history with sweeps anywhere; a limit that is not limiting
   * admits every call instead.
   */
  lemma IntervalBound(limit: Limit, ops: seq<Op>, key: string, a: int, length: nat)
    requires InOrder(ops)
    ensures var n := AdmittedTo(limit, ops, key, a, a + length);
            if Limiting(limit) then n <= MaxAdmitted(limit, length) else n == Asked(Times(ops, key), a, a + length)
  {
    TimesNondecreasing(ops, key);
    AdmittedToIsSingle(limit, ops, key, a, a + length);
    if Limiting(limit) {
      SingleBound(limit, Times(ops, key), a, length);
    } else {
      EveryCallAdmitted(limit, Times(ops, key), a, a + length);
    }
  }

  function CallsOf(key: string, times: seq<int>): seq<Op> {
    seq(|times|, i requires 0 <= i < |times| => Call(key, times[i]))
  }

  lemma {:induction false} CallsOfTimes(key: string, times: seq<int>)
    ensures Times(CallsOf(key, times), key) == times
    decreases |times|
  {
    if times != [] {
      var last := |times| - 1;
      CallsOfTimes(key, times[..last]);
      assert CallsOf(key, times)[..last] == CallsOf(key, times[..last]);
    }
  }

  /** No smaller bound holds: some history reaches it, for every key and every interval. */
  lemma IntervalBoundReached(limit: Limit, key: string, a: int, length: nat) returns (ops: seq<Op>)
    requires Limiting(limit)
    ensures InOrder(ops)
    ensures AdmittedTo(limit, ops, key, a, a + length) == MaxAdmitted(limit, length)
  {
    var times := SingleBoundReached(limit, a, length);
    ops := CallsOf(key, times);
    CallsOfTimes(key, times);
    AdmittedToIsSingle(limit, ops, key, a, a + length);
  }

  lemma {:induction false} BurstAsked(t: int, n: nat, a: int, b: int)
    requires a <= t <= b
    ensures Asked(Burst(t, n), a, b) == n
    decreases n
  {
    if n > 0 {
      assert Burst(t, n)[..n - 1] == Burst(t, n - 1);
      BurstAsked(t, n - 1, a, b);
    }
  }

  /** And without limiting there is no bound: any number of calls is admitted at one instant. */
  lemma AnyNumberAdmitted(limit: Limit, key: string, a: int, length: nat, n: nat) returns (ops: seq<Op>)
    requires !Limiting(limit)
    ensures InOrder(ops)
    ensures AdmittedTo(limit, ops, key, a, a + length) == n
  {
    ops := CallsOf(key, Burst(a, n));
    CallsOfTimes(key, Burst(a, n));
    IntervalBound(limit, ops, key, a, length);
    BurstAsked(a, n, a, a + length);
  }

  /** No interval of this length ever admits more than `n` calls of one key. */
  ghost predicate Bounds(limit: Limit, length: nat, n: int) {
    forall ops, key, a :: InOrder(ops) ==> BoundedOn(limit, length, n, ops, key, a)
  }

  predicate BoundedOn(limit: Limit, length: nat, n: int, ops: seq<Op>, key: string, a: int) {
    AdmittedTo(limit, ops, key, a, a + length) <= n
  }

  /** The numbers that bound a limit: those from the maximum up, and none when the limit is not limiting. */
  lemma BoundsIff(limit: Limit, length: nat, n: int)
    ensures Bounds(limit, length, n) <==> Limiting(limit) && MaxAdmitted(limit, length) <= n
  {
    if Limiting(limit) {
      forall ops, key, a | InOrder(ops)
        ensures MaxAdmitted(limit, length) <= n ==> BoundedOn(limit, length, n, ops, key, a)
      {
        IntervalBound(limit, ops, key, a, length);
      }
      var ops := IntervalBoundReached(limit, "", 0, length);
      assert Bounds(limit, length, n) ==> BoundedOn(limit, length, n, ops, "", 0);
    } else {
      var ops := AnyNumberAdmitted(limit, "", 0, length, if n < 0 then 0 else n + 1);
      assert Bounds(limit, length, n) ==> BoundedOn(limit, length, n, ops, "", 0);
    }
  }

  /** The length of one window, which for a negative window is that of an instant. */
  function WindowLength(limit: Limit): nat {
    if limit.window < 0 then 0 else limit.window
  }

  /** At most `count` calls in any interval of one window's length: what a sliding window would promise. */
  ghost predicate Slides(limit: Limit) {
    Bounds(limit, WindowLength(limit), if limit.count < 0 then 0 else limit.count)
  }

  /** The sliding limits are those of no calls, those of an empty window, and those of one call in a window. */
  lemma SlidesIff(limit: Limit)
    ensures Slides(limit)
            <==> limit.count <= 0 || limit.window == 0 || (limit.count == 1 && limit.window > 0)
  {
    BoundsIff(limit, WindowLength(limit), if limit.count < 0 then 0 else limit.count);
    if limit.count > 0 && limit.window >= 0 { FullWindow(limit); }
  }

  /** One window's length admits `2 * count - 1` calls: the opener of the first window stays outside. */
  lemma FullWindow(limit: Limit)
    requires limit.window >= 0 && limit.count > 0
    ensures MaxAdmitted(limit, limit.window) == if limit.window == 0 then limit.count else 2 * limit.count - 1
  {
    RoomIsMax(limit, limit.window);
  }

  lemma WindowBound(limit: Limit, ops: seq<Op>, key: string, a: int)
    requires InOrder(ops)
    ensures var n := AdmittedTo(limit, ops, key, a, a + WindowLength(limit));
            && (limit.count <= 0 ==> n == 0)
            && (limit.count > 0 && limit.window < 0 ==> n == Asked(Times(ops, key), a, a))
            && (limit.count > 0 && limit.window == 0 ==> n <= limit.count)
            && (limit.count > 0 && limit.window > 0 ==> n <= 2 * limit.count - 1)
  {
    IntervalBound(limit, ops, key, a, WindowLength(limit));
    if limit.count > 0 && limit.window >= 0 { FullWindow(limit); }
  }

  // ---------------------------------------------------------------- what a denial says

  lemma {:induction false} CountersAreCapped(limit: Limit, ops: seq<Op>, key: string)
    requires InOrder(ops)
    ensures var stored := Stored(After(limit, ops), key);
            stored.Some? && limit.count > 0 ==>
              stored.value.count <= limit.count && ops != [] && stored.value.resetAt <= ops[|ops| - 1].now + limit.window
    decreases |ops|
  {
    if ops != [] { CountersAreCapped(limit, ops[..|ops| - 1], key); }
  }

  /** A denial at call `i` ends at the instant it announces, and not before. */
  function DenialEnd(limit: Limit, ops: seq<Op>, i: nat): int
    requires i < |ops| && ops[i].Call?
  {
    ops[i].now + AnswerAt(limit, ops, i).retryAfter
  }

  ghost predicate QuietUntil(ops: seq<Op>, key: string, from: nat, to: nat, end: int)
    requires to <= |ops|
  {
    forall k :: from < k < to && ops[k].Call? && ops[k].key == key ==> ops[k].now <= end
  }

  lemma {:induction false} DenialLasts(limit: Limit, ops: seq<Op>, i: nat, j: nat)
    requires InOrder(ops) && i < j <= |ops| && ops[i].Call? && !AnswerAt(limit, ops, i).allowed
    requires QuietUntil(ops, ops[i].key, i, j, DenialEnd(limit, ops, i))
    ensures var stored, end := Stored(After(limit, ops[..j]), ops[i].key), DenialEnd(limit, ops, i);
            if stored.None? then end < ops[j - 1].now
            else stored.value.count >= limit.count && stored.value.resetAt == end
    decreases j
  {
    var before := ops[..j - 1];
    assert ops[..j][..j - 1] == before;
    if i < j - 1 { DenialLasts(limit, ops, i, j - 1); }
  }

  /**
   * A denial of a limit that admits anything at all: up to the announced instant, that instant included, every call
   * of the key is denied, and all denials announce the same end; the first later call is admitted.
   */
  lemma DenialIsAccurate(limit: Limit, ops: seq<Op>, i: nat, j: nat)
    requires InOrder(ops) && i < j < |ops| && limit.count > 0
    requires ops[i].Call? && !AnswerAt(limit, ops, i).allowed
    requires ops[j].Call? && ops[j].key == ops[i].key
    requires QuietUntil(ops, ops[i].key, i, j, DenialEnd(limit, ops, i))
    ensures AnswerAt(limit, ops, j).allowed <==> ops[j].now > DenialEnd(limit, ops, i)
    ensures !AnswerAt(limit, ops, j).allowed ==> DenialEnd(limit, ops, j) == DenialEnd(limit, ops, i)
  {
    DenialLasts(limit, ops, i, j);
  }

  lemma RetryAfterRange(limit: Limit, ops: seq<Op>, i: nat)
    requires InOrder(ops) && i < |ops| && ops[i].Call? && !AnswerAt(limit, ops, i).allowed
    requires limit.count > 0 || limit.window >= 0
    ensures 0 <= AnswerAt(limit, ops, i).retryAfter
    ensures limit.count > 0 ==> AnswerAt(limit, ops, i).retryAfter <= limit.window
  {
    CountersAreCapped(limit, ops[..i], ops[i].key);
  }

  /** The call opens a window: it is told that it was the first of `count`. */
  predicate Opens(limit: Limit, ops: seq<Op>, k: nat, key: string)
    requires k < |ops|
  {
    ops[k].Call? && ops[k].key == key && AnswerAt(limit, ops, k) == Result(true, limit.count, limit.count - 1, 0)
  }

  /** The last call of the key before `n` to open a window is `k`. */
  predicate LastOpener(limit: Limit, ops: seq<Op>, k: nat, key: string, n: nat)
    requires k < n <= |ops|
  {
    Opens(limit, ops, k, key) && forall j :: k < j < n ==> !Opens(limit, ops, j, key)
  }

  /** The prefix of a history answers as the history does. */
  lemma PrefixOpens(limit: Limit, ops: seq<Op>, n: nat, key: string)
    requires n <= |ops|
    ensures forall k :: 0 <= k < n ==> (Opens(limit, ops[..n], k, key) <==> Opens(limit, ops, k, key))
  {
    forall k | 0 <= k < n
      ensures Opens(limit, ops[..n], k, key) <==> Opens(limit, ops, k, key)
    {
      assert ops[..n][..k] == ops[..k];
    }
  }

  /** A stored record ends one window after the last call of its key that opened one. */
  lemma {:induction false} StoredHasOpener(limit: Limit, ops: seq<Op>, key: string) returns (k: nat)
    requires limit.count > 0 && Stored(After(limit, ops), key).Some?
    ensures k < |ops| && LastOpener(limit, ops, k, key, |ops|)
    ensures Stored(After(limit, ops), key).value.resetAt == ops[k].now + limit.window
    ensures Stored(After(limit, ops), key).value.count >= 1
    decreases |ops|
  {
    var n := |ops| - 1;
    var before, last := ops[..n], ops[n];
    PrefixOpens(limit, ops, n, key);
    var stored := Stored(After(limit, before), key);
    if last.Call? && last.key == key && (stored.None? || last.now > stored.value.resetAt) {
      k := n;
    } else {
      k := StoredHasOpener(limit, before, key);
    }
  }

  /**
   * A denial tells the time to the end of the window: one window's length after the last earlier call of the key that
   * was told it was the first. So it is 0 exactly when the call comes at that very instant.
   */
  lemma RetryAfterIs(limit: Limit, ops: seq<Op>, i: nat) returns (k: nat)
    requires i < |ops| && ops[i].Call? && !AnswerAt(limit, ops, i).allowed && limit.count > 0
    ensures k < i && LastOpener(limit, ops, k, ops[i].key, i)
    ensures AnswerAt(limit, ops, i).retryAfter == ops[k].now + limit.window - ops[i].now
    ensures AnswerAt(limit, ops, i).retryAfter > 0 <==> ops[i].now < ops[k].now + limit.window
    ensures AnswerAt(limit, ops, i).retryAfter == 0 <==> ops[i].now == ops[k].now + limit.window
  {
    PrefixOpens(limit, ops, i, ops[i].key);
    k := StoredHasOpener(limit, ops[..i], ops[i].key);
  }

  /** One call in ten ticks: the second call, at the last instant of the window, is denied without a wait. */
  lemma DeniedWithoutWait(key: string)
    ensures AnswerAt(Limit(1, 10), [Call(key, 0), Call(key, 10)], 1) == Result(false, 1, 0, 0)
  {
    var ops := [Call(key, 0), Call(key, 10)];
    assert ops[..1] == [Call(key, 0)] && ops[..1][..0] == [];
    assert After(Limit(1, 10), ops[..1]) == map[key := Counter(1, 10)];
  }

  // ---------------------------------------------------------------- the answers, told from the calls alone

  /** The last of the first `n` calls of the key to come after the window of the opener before it was over. */
  function Opener(limit: Limit, ops: seq<Op>, key: string, n: nat): (k: Option<nat>)
    requires n <= |ops|
    ensures k.Some? ==> k.value < n && ops[k.value].Call? && ops[k.value].key == key
  {
    if n == 0 then None
    else
      var before, last := Opener(limit, ops, key, n - 1), ops[n - 1];
      if last.Call? && last.key == key && (before.None? || last.now > ops[before.value].now + limit.window) then
        Some(n - 1)
      else before
  }

  /** How many calls of the key there are from number `k` on, before number `n`. */
  function CallsFrom(ops: seq<Op>, key: string, k: nat, n: nat): nat
    requires n <= |ops|
  {
    if n <= k then 0
    else CallsFrom(ops, key, k, n - 1) + if ops[n - 1].Call? && ops[n - 1].key == key then 1 else 0
  }

  /** How many of them are admitted. */
  function AdmittedFrom(limit: Limit, ops: seq<Op>, key: string, k: nat, n: nat): nat
    requires n <= |ops|
  {
    if n <= k then 0
    else
      AdmittedFrom(limit, ops, key, k, n - 1)
      + if ops[n - 1].Call? && ops[n - 1].key == key && AnswerAt(limit, ops, n - 1).allowed then 1 else 0
  }

  function AtMost(x: int, max: int): int {
    if x < max then x else if max < 0 then 0 else max
  }

  /** The record of the key is that of its last opener; only an expired one can be missing. */
  predicate KeptSince(limit: Limit, ops: seq<Op>, key: string, n: nat)
    requires n <= |ops|
  {
    var stored, k := Stored(After(limit, ops[..n]), key), Opener(limit, ops, key, n);
    if stored.None? then k.None? || ops[k.value].now + limit.window < ops[n - 1].now
    else
      && k.Some? && stored.value.resetAt == ops[k.value].now + limit.window
      && stored.value.count == AtMost(CallsFrom(ops, key, k.value, n), limit.count)
  }

  lemma {:induction false} RecordIsKept(limit: Limit, ops: seq<Op>, key: string, n: nat)
    requires InOrder(ops) && n <= |ops|
    ensures KeptSince(limit, ops, key, n)
    decreases n
  {
    if n > 0 {
      RecordIsKept(limit, ops, key, n - 1);
      assert ops[..n][..n - 1] == ops[..n - 1];
    }
  }

  /**
   * Every answer, told from the times of the calls alone. The windows of a key begin with the calls that come after
   * the window before is over; the first `count` calls from there on are admitted, each with one fewer remaining, and
   * the others are told the time that is left of the window.
   */
  lemma AnswerIs(limit: Limit, ops: seq<Op>, i: nat)
    requires InOrder(ops) && i < |ops| && ops[i].Call?
    ensures var k := Opener(limit, ops, ops[i].key, i + 1);
            && k.Some?
            && var earlier := CallsFrom(ops, ops[i].key, k.value, i);
               AnswerAt(limit, ops, i)
               == if earlier < limit.count then Result(true, limit.count, limit.count - 1 - earlier, 0)
                  else Result(false, limit.count, 0, ops[k.value].now + limit.window - ops[i].now)
  {
    RecordIsKept(limit, ops, ops[i].key, i);
  }

  lemma {:induction false} CallsAreAdmitted(limit: Limit, ops: seq<Op>, key: string, k: nat, n: nat)
    requires InOrder(ops) && k <= n <= |ops| && CallsFrom(ops, key, k, n) <= limit.count
    requires k < n ==> forall m :: k < m <= n ==> Opener(limit, ops, key, m) == Some(k)
    ensures AdmittedFrom(limit, ops, key, k, n) == CallsFrom(ops, key, k, n)
    decreases n
  {
    if k < n {
      CallsAreAdmitted(limit, ops, key, k, n - 1);
      if ops[n - 1].Call? && ops[n - 1].key == key { AnswerIs(limit, ops, n - 1); }
    }
  }

  lemma {:induction false} OpenerStays(limit: Limit, ops: seq<Op>, key: string, m: nat, n: nat)
    requires m <= n <= |ops| && Opener(limit, ops, key, n).Some? && Opener(limit, ops, key, n).value < m
    ensures Opener(limit, ops, key, m) == Opener(limit, ops, key, n)
    decreases n
  {
    if m < n { OpenerStays(limit, ops, key, m, n - 1); }
  }

  /** What remains after an admitted call is the count less the calls admitted since the window's opener. */
  lemma RemainingIs(limit: Limit, ops: seq<Op>, i: nat) returns (k: nat)
    requires InOrder(ops) && i < |ops| && ops[i].Call? && AnswerAt(limit, ops, i).allowed
    ensures Opener(limit, ops, ops[i].key, i + 1) == Some(k)
    ensures AnswerAt(limit, ops, i).remaining == limit.count - AdmittedFrom(limit, ops, ops[i].key, k, i + 1)
    ensures 0 <= AnswerAt(limit, ops, i).remaining < limit.count
  {
    AnswerIs(limit, ops, i);
    k := Opener(limit, ops, ops[i].key, i + 1).value;
    forall m | k < m <= i + 1
      ensures Opener(limit, ops, ops[i].key, m) == Some(k)
    {
      OpenerStays(limit, ops, ops[i].key, m, i + 1);
    }
    CallsAreAdmitted(limit, ops, ops[i].key, k, i + 1);
  }

  // ---------------------------------------------------------------- the limiter object

  /** A record knows whose it is, so no two keys and no two limiters share one. */
  class Window {
    ghost const owner: Limiter
    ghost const key: string
    var count: int
    var resetAt: int

    constructor (ghost owner: Limiter, ghost key: string, count: int, resetAt: int)
      ensures this.owner == owner && this.key == key && this.count == count && this.resetAt == resetAt
    {
      this.owner := owner;
      this.key := key;
      this.count := count;
      this.resetAt := resetAt;
    }
  }

  class Limiter {
    const limit: Limit
    var windows: map<string, Window>
    ghost var history: seq<Op>

    ghost function Repr(): set<object>
      reads this
    {
      {this} + windows.Values
    }

    ghost function Records(): Table
      reads this, windows.Values
    {
      map key | key in windows :: Counter(windows[key].count, windows[key].resetAt)
    }

    ghost predicate Owned()
      reads this
    {
      forall k :: k in windows ==> windows[k].owner == this && windows[k].key == k
    }

    /** The records are this limiter's own, and they are those that the history leaves behind. */
    ghost predicate Valid()
      reads this, windows.Values
    {
      && Owned()
      && Records() == After(limit, history)
    }

    /** It was only ever called under one name, at these times. */
    ghost predicate Serves(name: string, times: seq<int>)
      reads this, windows.Values
    {
      Valid() && windows.Keys <= {name} && history == CallsOf(name, times)
    }

    constructor (limit: Limit)
      ensures Valid() && this.limit == limit && history == [] && windows == map[]
    {
      this.limit := limit;
      windows := map[];
      history := [];
    }

    /** One call, at the instant that the clock shows under the lock. */
    method Allow(key: string, now: int) returns (r: Result)
      requires Valid()
      modifies this, windows.Values
      ensures Valid() && fresh(Repr() - old(Repr()))
      ensures windows.Keys == old(windows.Keys) + {key}
      ensures history == old(history) + [Call(key, now)]
      ensures r == AnswerAt(limit, history, |history| - 1)
    {
      r := Consume(key, now);
      assert (history + [Call(key, now)])[..|history|] == history;
      history := history + [Call(key, now)];
    }

    /** The record that a call meets: the stored one, or a new one in its place. */
    method Find(key: string, now: int) returns (w: Window)
      requires Owned()
      modifies this`windows
      ensures Owned() && fresh(Repr() - old(Repr()))
      ensures windows.Keys == old(windows.Keys) + {key} && windows[key] == w
      ensures forall k :: k in windows && k != key ==> k in old(windows) && windows[k] == old(windows)[k]
      ensures unchanged(old(windows.Values))
      ensures var met := Meet(limit, Stored(old(Records()), key), now);
        Counter(w.count, w.resetAt) == met && Records() == old(Records())[key := met]
    {
      if key !in windows || now > windows[key].resetAt {
        w := new Window(this, key, 0, now + limit.window);
        windows := windows[key := w];
      } else {
        w := windows[key];
      }
    }

    /** The call's effect on that record, and its answer. */
    method Spend(w: Window, key: string, now: int) returns (r: Result)
      requires Owned() && key in windows && windows[key] == w
      modifies w
      ensures Records() == old(Records())[key := Take(limit, old(Counter(w.count, w.resetAt)))]
      ensures r == Answer(limit, old(Counter(w.count, w.resetAt)), now)
    {
      if w.count >= limit.count {
        r := Result(false, limit.count, 0, w.resetAt - now);
      } else {
        w.count := w.count + 1;
        r := Result(true, limit.count, limit.count - w.count, 0);
      }
    }

    method Consume(key: string, now: int) returns (r: Result)
      requires Owned()
      modifies this`windows, windows.Values
      ensures Owned() && fresh(Repr() - old(Repr()))
      ensures windows.Keys == old(windows.Keys) + {key}
      ensures Records() == Apply(limit, old(Records()), Call(key, now))
      ensures r == Answer(limit, Meet(limit, Stored(old(Records()), key), now), now)
    {
      ghost var before := Records();
      ghost var met := Meet(limit, Stored(before, key), now);
      var w := Find(key, now);
      r := Spend(w, key, now);
      assert Records() == before[key := met][key := Take(limit, met)];
    }

    /** Removes the expired records, in whatever order the map is walked. */
    method Cleanup(now: int)
      requires Valid()
      modifies this
      ensures Valid() && Repr() <= old(Repr())
      ensures history == old(history) + [Sweep(now)]
      ensures forall key :: key in windows <==> key in old(windows) && now <= old(windows)[key].resetAt
      ensures forall key :: key in windows ==> windows[key] == old(windows)[key]
    {
      assert (history + [Sweep(now)])[..|history|] == history;
      ghost var before := Records();
      var left := windows.Keys;
      while left != {}
        invariant left <= windows.Keys <= old(windows.Keys)
        invariant forall key :: key in windows ==> windows[key] == old(windows)[key]
        invariant forall key :: key in old(windows) && key !in left ==>
          (key in windows <==> !(now > old(windows)[key].resetAt))
        invariant history == old(history) && unchanged(old(windows.Values))
      {
        var key :| key in left;
        left := left - {key};
        if now > windows[key].resetAt {
          windows := windows - {key};
        }
      }
      history := history + [Sweep(now)];
      assert Records() == Apply(limit, before, Sweep(now));
    }
  }
}
