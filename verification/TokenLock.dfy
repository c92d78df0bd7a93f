/**
 * The lock of the token sources in internal/oauth2/oauth2.go: calls of `Token` from any number of goroutines, step by
 * step, against one clock that does not go back.
 */
module TokenLock {
  import opened Text
  import opened OAuth

  /** How far a caller has come; at the end, which call of the source it made, and what it was answered. */
  datatype Phase =
    | Waiting
    | Locked
    | Checked(now: int)
    | Asking(now: int, started: int)
    | Issued(now: int, started: int, issued: int)
    | Returned(call: nat, answer: Option<Token>)

  datatype State = State(clock: int, token: Option<Token>, holder: Option<nat>, callers: seq<Phase>, calls: seq<Call>)

  function Initial(from: int): State {
    State(from, None, None, [], [])
  }

  datatype Event =
    | Tick(ticks: nat)
    | Arrive
    | Lock(c: nat)
    | Check(c: nat)
    | Ask(c: nat)
    | Issue(c: nat)
    | Receive(c: nat, reply: Reply)

  function Go(s: State, c: nat, phase: Phase): State
    requires c < |s.callers|
  {
    s.(callers := s.callers[c := phase])
  }

  /** The caller returns, and gives the lock back. */
  function Return(s: State, c: nat, call: Call, token: Option<Token>, answer: Option<Token>): State
    requires c < |s.callers|
  {
    Go(s, c, Returned(|s.calls|, answer)).(holder := None, calls := s.calls + [call], token := token)
  }

  /** What is on record for a call that needs no exchange. */
  function NoExchange(now: int): Exchange {
    Exchange(now, now, now, TransportFailed)
  }

  function CallerStep(kind: Kind, s: State, c: nat, e: Event): Option<State>
    requires c < |s.callers|
  {
    match (s.callers[c], e)
    case (Waiting, Lock(_)) => if s.holder.Some? then None else Some(Go(s, c, Locked).(holder := Some(c)))
    case (Locked, Check(_)) =>
      if ValidAt(s.token, s.clock) then Some(Return(s, c, Call(s.clock, NoExchange(s.clock)), s.token, s.token))
      else Some(Go(s, c, Checked(s.clock)))
    case (Checked(now), Ask(_)) => Some(Go(s, c, Asking(now, s.clock)))
    case (Asking(now, started), Issue(_)) => Some(Go(s, c, Issued(now, started, s.clock)))
    case (Issued(now, started, issued), Receive(_, reply)) =>
      var e := Exchange(started, issued, s.clock, reply);
      var r := Refreshed(kind, e);
      Some(Return(s, c, Call(now, e), if r.Some? then r else s.token, r))
    case _ => None
  }

  function Step(kind: Kind, s: State, e: Event): Option<State> {
    match e
    case Tick(ticks) => Some(s.(clock := s.clock + ticks))
    case Arrive => Some(s.(callers := s.callers + [Waiting]))
    case _ => if e.c < |s.callers| then CallerStep(kind, s, e.c, e) else None
  }

  function Run(kind: Kind, from: int, events: seq<Event>): Option<State> {
    if events == [] then Some(Initial(from))
    else
      match Run(kind, from, events[..|events| - 1])
      case None => None
      case Some(s) => Step(kind, s, events[|events| - 1])
  }

  // ---------------------------------------------------------------- the invariant

  predicate Inside(phase: Phase) {
    !phase.Waiting? && !phase.Returned?
  }

  /** What a caller has read of the clock, in order, all since the last call was over. */
  predicate PhaseInTime(phase: Phase, token: Option<Token>, end: int, clock: int) {
    match phase
    case Waiting => true
    case Locked => true
    case Checked(now) => end <= now <= clock && !ValidAt(token, now)
    case Asking(now, started) => end <= now <= started <= clock && !ValidAt(token, now)
    case Issued(now, started, issued) => end <= now <= started <= issued <= clock && !ValidAt(token, now)
    case Returned(_, _) => true
  }

  predicate CallersInv(kind: Kind, from: int, s: State) {
    && (s.holder.Some? ==> s.holder.value < |s.callers|)
    && (forall c :: 0 <= c < |s.callers| ==> (Inside(s.callers[c]) <==> s.holder == Some(c)))
    && (forall c :: 0 <= c < |s.callers| && Inside(s.callers[c]) ==>
          PhaseInTime(s.callers[c], s.token, EndTime(kind, s.calls, from), s.clock))
  }

  predicate AnswersInv(kind: Kind, s: State) {
    forall c :: 0 <= c < |s.callers| && s.callers[c].Returned? ==> Answered(kind, s.calls, s.callers[c])
  }

  /** The caller was answered as the call it made is. */
  predicate Answered(kind: Kind, calls: seq<Call>, phase: Phase)
    requires phase.Returned?
  {
    phase.call < |calls| && phase.answer == Answer(kind, calls, phase.call)
  }

  predicate Inv(kind: Kind, from: int, s: State) {
    && s.token == Cached(kind, s.calls) && InTime(kind, s.calls, from) && EndTime(kind, s.calls, from) <= s.clock
    && CallersInv(kind, from, s) && AnswersInv(kind, s)
  }

  lemma AnsweredStays(kind: Kind, calls: seq<Call>, call: Call, phase: Phase)
    requires phase.Returned? && Answered(kind, calls, phase)
    ensures Answered(kind, calls + [call], phase)
  {
    assert (calls + [call])[..phase.call] == calls[..phase.call];
  }

  /** One more call at the end of a run. */
  lemma CallEnds(kind: Kind, from: int, calls: seq<Call>, call: Call)
    requires InTime(kind, calls, from) && EndTime(kind, calls, from) <= call.now
    requires ValidAt(Cached(kind, calls), call.now) || ExchangeInTime(call.now, call.exchange)
    ensures InTime(kind, calls + [call], from)
    ensures Cached(kind, calls + [call]) == Renewed(kind, Cached(kind, calls), call)
    ensures EndTime(kind, calls + [call], from)
            == if ValidAt(Cached(kind, calls), call.now) then call.now else call.exchange.ended
    ensures Answer(kind, calls + [call], |calls|)
            == if ValidAt(Cached(kind, calls), call.now) then Cached(kind, calls) else Refreshed(kind, call.exchange)
  {
    assert (calls + [call])[..|calls|] == calls;
  }

  lemma ReturnKeepsInv(kind: Kind, from: int, s: State, c: nat, call: Call)
    requires Inv(kind, from, s) && s.holder == Some(c) && c < |s.callers|
    requires EndTime(kind, s.calls, from) <= call.now <= s.clock
    requires ValidAt(s.token, call.now) || (ExchangeInTime(call.now, call.exchange) && call.exchange.ended <= s.clock)
    ensures var calls := s.calls + [call];
            Inv(kind, from, Return(s, c, call, Cached(kind, calls), Answer(kind, calls, |s.calls|)))
  {
    CallEnds(kind, from, s.calls, call);
    forall d | 0 <= d < |s.callers| && s.callers[d].Returned?
      ensures Answered(kind, s.calls + [call], s.callers[d])
    {
      AnsweredStays(kind, s.calls, call, s.callers[d]);
    }
  }

  lemma GoKeepsInv(kind: Kind, from: int, s: State, c: nat, phase: Phase)
    requires Inv(kind, from, s) && c < |s.callers| && Inside(phase)
    requires s.holder == Some(c) || (s.holder.None? && s.callers[c].Waiting?)
    requires PhaseInTime(phase, s.token, EndTime(kind, s.calls, from), s.clock)
    ensures Inv(kind, from, Go(s, c, phase).(holder := Some(c)))
  {
  }

  lemma LockKeepsInv(kind: Kind, from: int, s: State, c: nat)
    requires Inv(kind, from, s) && c < |s.callers| && s.callers[c].Waiting? && s.holder.None?
    ensures Inv(kind, from, CallerStep(kind, s, c, Lock(c)).value)
  {
    GoKeepsInv(kind, from, s, c, Locked);
  }

  lemma CheckKeepsInv(kind: Kind, from: int, s: State, c: nat)
    requires Inv(kind, from, s) && c < |s.callers| && s.callers[c].Locked?
    ensures Inv(kind, from, CallerStep(kind, s, c, Check(c)).value)
  {
    if ValidAt(s.token, s.clock) {
      var call := Call(s.clock, NoExchange(s.clock));
      CallEnds(kind, from, s.calls, call);
      ReturnKeepsInv(kind, from, s, c, call);
    } else {
      GoKeepsInv(kind, from, s, c, Checked(s.clock));
    }
  }

  lemma AskKeepsInv(kind: Kind, from: int, s: State, c: nat)
    requires Inv(kind, from, s) && c < |s.callers| && s.callers[c].Checked?
    ensures Inv(kind, from, CallerStep(kind, s, c, Ask(c)).value)
  {
    GoKeepsInv(kind, from, s, c, Asking(s.callers[c].now, s.clock));
  }

  lemma IssueKeepsInv(kind: Kind, from: int, s: State, c: nat)
    requires Inv(kind, from, s) && c < |s.callers| && s.callers[c].Asking?
    ensures Inv(kind, from, CallerStep(kind, s, c, Issue(c)).value)
  {
    GoKeepsInv(kind, from, s, c, Issued(s.callers[c].now, s.callers[c].started, s.clock));
  }

  lemma ReceiveKeepsInv(kind: Kind, from: int, s: State, c: nat, reply: Reply)
    requires Inv(kind, from, s) && c < |s.callers| && s.callers[c].Issued?
    ensures Inv(kind, from, CallerStep(kind, s, c, Receive(c, reply)).value)
  {
    var phase := s.callers[c];
    var call := Call(phase.now, Exchange(phase.started, phase.issued, s.clock, reply));
    CallEnds(kind, from, s.calls, call);
    ReturnKeepsInv(kind, from, s, c, call);
  }

  lemma CallerKeepsInv(kind: Kind, from: int, s: State, e: Event)
    requires Inv(kind, from, s) && !e.Tick? && !e.Arrive? && e.c < |s.callers| && CallerStep(kind, s, e.c, e).Some?
    ensures Inv(kind, from, CallerStep(kind, s, e.c, e).value)
  {
    match e
    case Lock(c) => LockKeepsInv(kind, from, s, c);
    case Check(c) => CheckKeepsInv(kind, from, s, c);
    case Ask(c) => AskKeepsInv(kind, from, s, c);
    case Issue(c) => IssueKeepsInv(kind, from, s, c);
    case Receive(c, reply) => ReceiveKeepsInv(kind, from, s, c, reply);
  }

  lemma StepKeepsInv(kind: Kind, from: int, s: State, e: Event)
    requires Inv(kind, from, s) && Step(kind, s, e).Some?
    ensures Inv(kind, from, Step(kind, s, e).value)
  {
    if !e.Tick? && !e.Arrive? { CallerKeepsInv(kind, from, s, e); }
  }

  lemma {:induction false} Reachable(kind: Kind, from: int, events: seq<Event>)
    requires Run(kind, from, events).Some?
    ensures Inv(kind, from, Run(kind, from, events).value)
    decreases |events|
  {
    if events != [] {
      Reachable(kind, from, events[..|events| - 1]);
      StepKeepsInv(kind, from, Run(kind, from, events[..|events| - 1]).value, events[|events| - 1]);
    }
  }

  // ---------------------------------------------------------------- what holds in every run

  /**
   * However the callers overlap, the lock makes one run of calls of them, in which none begins before the one before
   * it is over; the cached token is that run's, and every caller was answered as its call of that run is.
   */
  lemma CallsAreInTime(kind: Kind, from: int, events: seq<Event>)
    requires Run(kind, from, events).Some?
    ensures var s := Run(kind, from, events).value;
            && InTime(kind, s.calls, from) && EndTime(kind, s.calls, from) <= s.clock
            && s.token == Cached(kind, s.calls) && AnswersInv(kind, s)
  {
    Reachable(kind, from, events);
  }

  /** No two callers are between locking and unlocking, so no two exchanges with the issuer overlap. */
  lemma OneInside(kind: Kind, from: int, events: seq<Event>, c: nat, d: nat)
    requires Run(kind, from, events).Some?
    requires var s := Run(kind, from, events).value;
             c < |s.callers| && d < |s.callers| && Inside(s.callers[c]) && Inside(s.callers[d])
    ensures c == d
  {
    Reachable(kind, from, events);
  }

  /** So whatever is served from the cache is served in good time, whoever asks. */
  lemma LockServesInTime(kind: Kind, from: int, events: seq<Event>, i: nat) returns (j: nat)
    requires Run(kind, from, events).Some?
    requires var calls := Run(kind, from, events).value.calls;
             && i < |calls| && Served(kind, calls, i)
             && forall k :: 0 <= k < i && Refreshes(kind, calls, k) ==>
                  Prompt(kind, calls[k].exchange) && !Stretched(calls[k].exchange.reply.expiresIn)
    ensures var calls := Run(kind, from, events).value.calls;
            && ServedFrom(kind, calls, from, i, j)
            && calls[i].now + (if kind.ClientCredentials? then 50_000_000_000 else 60_000_000_000)
               < calls[j].exchange.issued + calls[j].exchange.reply.expiresIn * 1_000_000_000
  {
    CallsAreInTime(kind, from, events);
    j := ServedInTime(kind, Run(kind, from, events).value.calls, from, i);
  }
}
