/**
 * Hot reload of internal/server/server.go as a system of steps: reloads, requests, edits of the configuration
 * file and a shutdown, interleaved in any way. A generation is the version of the file that was read for it.
 */
module Reload {
  import opened Text

  // ---------------------------------------------------------------- the state

  /** What `liveHandler` holds: for each component the version it was built from, and which checker it reports. */
  datatype Snapshot = Snapshot(tokens: nat, proxy: nat, groups: nat, checker: nat)

  datatype Checker = Built | Running | Stopped

  /** How far the reload that holds the lock has come. */
  datatype Pc =
    | Locked
    | Parsed
    | TokensBuilt
    | ProxyBuilt
    | OldStopped
    | CheckerBuilt
    | CheckerStarted
    | CheckerAssigned
    | GroupsBuilt
    | HandlerStored
    | Failing

  /** Its local variables, and what it found when it got the lock. */
  datatype Work = Work(
    pc: Pc, called: nat, version: nat, tokens: nat, proxy: nat, groups: nat, checker: nat,
    liveBefore: Snapshot, checkerBefore: nat)

  /** A reload that has returned, and the version the file had when it was called. */
  datatype Outcome = Succeeded(called: nat) | Failed(called: nat)

  /** A request: the handler it loaded, and the versions of what it has used of it. */
  datatype Request = Request(loaded: Option<Snapshot>, used: set<nat>)

  /** A stop of the server: the checker it read, and whether it has stopped that one yet. */
  datatype Stop = Stop(read: nat, cancelled: bool)

  datatype State = State(
    disk: nat, live: Snapshot, checker: nat, checkers: seq<Checker>, stops: seq<Stop>,
    waiting: seq<nat>, holder: Option<Work>, done: seq<Outcome>,
    requests: seq<Request>, loads: seq<nat>)

  /** After `New`, which runs `load` before anything is shared. */
  function Initial(version: nat): State {
    State(version, Snapshot(version, version, version, 0), 0, [Running], [], [], None, [], [], [])
  }

  // ---------------------------------------------------------------- the steps

  datatype Event =
    | Edit
    | CallReload
    | Acquire(i: nat)
    | OpenFails
    | ReadFile
    | BuildTokens
    | BuildProxy
    | StopOld
    | BuildChecker
    | StartChecker
    | AssignChecker
    | BuildGroups
    | StoreHandler
    | Release
    | StopReads
    | StopCancels(i: nat)
    | Arrive
    | LoadHandler(r: nat)
    | UseTokens(r: nat)
    | UseGroups(r: nat)
    | UseProxy(r: nat)

  predicate At(s: State, pc: Pc) {
    s.holder.Some? && s.holder.value.pc == pc
  }

  /** The holder goes on, with these local variables. */
  function Go(s: State, w: Work): State {
    s.(holder := Some(w))
  }

  /** A step of the reload that holds the lock. */
  function HolderStep(valid: nat -> bool, s: State, w: Work, e: Event): Option<State> {
    match (w.pc, e)
    case (Locked, OpenFails) => Some(Go(s, w.(pc := Failing)))
    case (Locked, ReadFile) =>
      Some(Go(s, if valid(s.disk) then w.(pc := Parsed, version := s.disk) else w.(pc := Failing)))
    case (Parsed, BuildTokens) => Some(Go(s, w.(pc := TokensBuilt, tokens := w.version)))
    case (TokensBuilt, BuildProxy) => Some(Go(s, w.(pc := ProxyBuilt, proxy := w.version)))
    case (ProxyBuilt, StopOld) =>
      if s.checker < |s.checkers| then
        Some(Go(s, w.(pc := OldStopped)).(checkers := s.checkers[s.checker := Stopped]))
      else None
    case (OldStopped, BuildChecker) =>
      Some(Go(s, w.(pc := CheckerBuilt, checker := |s.checkers|)).(checkers := s.checkers + [Built]))
    case (CheckerBuilt, StartChecker) =>
      if w.checker < |s.checkers| then
        Some(Go(s, w.(pc := CheckerStarted)).(checkers := s.checkers[w.checker := Running]))
      else None
    case (CheckerStarted, AssignChecker) => Some(Go(s, w.(pc := CheckerAssigned)).(checker := w.checker))
    case (CheckerAssigned, BuildGroups) => Some(Go(s, w.(pc := GroupsBuilt, groups := w.version)))
    case (GroupsBuilt, StoreHandler) =>
      Some(Go(s, w.(pc := HandlerStored)).(live := Snapshot(w.tokens, w.proxy, w.groups, w.checker)))
    case (HandlerStored, Release) => Some(s.(holder := None, done := s.done + [Succeeded(w.called)]))
    case (Failing, Release) => Some(s.(holder := None, done := s.done + [Failed(w.called)]))
    case _ => None
  }

  /** A step of request `r`. */
  function RequestStep(s: State, r: nat, e: Event): Option<State>
    requires r < |s.requests|
  {
    var q := s.requests[r];
    match e
    case LoadHandler(_) =>
      if q.loaded.Some? then None
      else Some(s.(requests := s.requests[r := q.(loaded := Some(s.live))], loads := s.loads + [s.live.tokens]))
    case UseTokens(_) =>
      if q.loaded.None? then None
      else Some(s.(requests := s.requests[r := q.(used := q.used + {q.loaded.value.tokens})]))
    case UseGroups(_) =>
      if q.loaded.None? then None
      else Some(s.(requests := s.requests[r := q.(used := q.used + {q.loaded.value.groups})]))
    case UseProxy(_) =>
      if q.loaded.None? then None
      else Some(s.(requests := s.requests[r := q.(used := q.used + {q.loaded.value.proxy})]))
    case _ => None
  }

  predicate IsRequestEvent(e: Event) {
    e.LoadHandler? || e.UseTokens? || e.UseGroups? || e.UseProxy?
  }

  function Step(valid: nat -> bool, s: State, e: Event): Option<State> {
    match e
    case Edit => Some(s.(disk := s.disk + 1))
    case CallReload => Some(s.(waiting := s.waiting + [s.disk]))
    case Acquire(i) =>
      if s.holder.Some? || i >= |s.waiting| then None
      else
        var w := Work(Locked, s.waiting[i], 0, 0, 0, 0, 0, s.live, s.checker);
        Some(Go(s, w).(waiting := s.waiting[..i] + s.waiting[i + 1..]))
    case StopReads => Some(s.(stops := s.stops + [Stop(s.checker, false)]))
    case StopCancels(i) =>
      if i < |s.stops| && !s.stops[i].cancelled && s.stops[i].read < |s.checkers| then
        Some(s.(checkers := s.checkers[s.stops[i].read := Stopped], stops := s.stops[i := Stop(s.stops[i].read, true)]))
      else None
    case Arrive => Some(s.(requests := s.requests + [Request(None, {})]))
    case _ =>
      if IsRequestEvent(e) then
        if e.r < |s.requests| then RequestStep(s, e.r, e) else None
      else if s.holder.Some? then HolderStep(valid, s, s.holder.value, e)
      else None
  }

  /** The state after a run of events, if every one of them can happen. */
  function Run(valid: nat -> bool, version: nat, events: seq<Event>): Option<State> {
    if events == [] then Some(Initial(version))
    else
      match Run(valid, version, events[..|events| - 1])
      case None => None
      case Some(s) => Step(valid, s, events[|events| - 1])
  }

  // ---------------------------------------------------------------- the invariant

  function Rank(pc: Pc): nat {
    match pc
    case Locked => 0
    case Failing => 0
    case Parsed => 1
    case TokensBuilt => 2
    case ProxyBuilt => 3
    case OldStopped => 4
    case CheckerBuilt => 5
    case CheckerStarted => 6
    case CheckerAssigned => 7
    case GroupsBuilt => 8
    case HandlerStored => 9
  }

  /** All of a snapshot is of one generation. */
  predicate Coherent(snap: Snapshot) {
    snap.tokens == snap.proxy == snap.groups
  }

  predicate WorkInv(valid: nat -> bool, s: State, w: Work)
    requires s.checker < |s.checkers| && s.live.checker < |s.checkers|
  {
    var rank := Rank(w.pc);
    && w.called <= s.disk
    && (rank >= 1 ==> w.version <= s.disk && w.called <= w.version && valid(w.version) && s.live.tokens <= w.version)
    && (rank >= 2 ==> w.tokens == w.version)
    && (rank >= 3 ==> w.proxy == w.version)
    && (rank >= 8 ==> w.groups == w.version)
    && (rank >= 9 ==> s.live == Snapshot(w.version, w.version, w.version, w.checker))
    && (rank < 9 ==> s.live == w.liveBefore)
    && (rank < 7 ==> s.checker == w.checkerBefore)
    && (rank >= 7 ==> s.checker == w.checker)
    && (rank >= 5 ==> w.checker < |s.checkers|)
    && (rank in {4, 5, 6} ==> s.checkers[s.checker] == Stopped)
    && (rank in {5, 6} ==> s.checker < w.checker)
    && (rank == 5 ==> s.checkers[w.checker] == Built)
    && (rank == 6 ==> s.checkers[w.checker] == Running)
    && (rank < 7 ==> s.live.checker == s.checker)
    && (rank in {7, 8} ==> s.checkers[s.live.checker] == Stopped)
  }

  /** The only checker that may be running. */
  function Active(s: State): nat {
    if At(s, CheckerStarted) then s.holder.value.checker else s.checker
  }

  /** No stop of the server has stopped a checker yet. */
  predicate NeverStopped(s: State) {
    forall i :: 0 <= i < |s.stops| ==> !s.stops[i].cancelled
  }

  predicate CoreInv(valid: nat -> bool, s: State) {
    && s.checker < |s.checkers| && s.live.checker < |s.checkers|
    && Coherent(s.live) && s.live.tokens <= s.disk && valid(s.live.tokens)
    && (forall c :: 0 <= c < |s.checkers| && s.checkers[c] == Running ==> c == Active(s))
    && (if s.holder.Some? then WorkInv(valid, s, s.holder.value) else s.live.checker == s.checker)
    && (forall i :: 0 <= i < |s.stops| ==> s.stops[i].read <= s.checker)
    && (NeverStopped(s) && !(s.holder.Some? && Rank(s.holder.value.pc) in {4, 5, 6}) ==> s.checkers[s.checker] == Running)
  }

  predicate RequestInv(q: Request, newest: nat) {
    match q.loaded
    case None => q.used == {}
    case Some(snap) => Coherent(snap) && snap.tokens <= newest && q.used <= {snap.tokens}
  }

  predicate Ascending(versions: seq<nat>, newest: nat) {
    && (forall i, j :: 0 <= i <= j < |versions| ==> versions[i] <= versions[j])
    && (forall i :: 0 <= i < |versions| ==> versions[i] <= newest)
  }

  predicate HistoryInv(s: State) {
    && (forall r :: 0 <= r < |s.requests| ==> RequestInv(s.requests[r], s.live.tokens))
    && Ascending(s.loads, s.live.tokens)
    && (forall i :: 0 <= i < |s.waiting| ==> s.waiting[i] <= s.disk)
    && (forall i :: 0 <= i < |s.done| && s.done[i].Succeeded? ==> s.done[i].called <= s.live.tokens)
  }

  predicate Inv(valid: nat -> bool, s: State) {
    CoreInv(valid, s) && HistoryInv(s)
  }

  predicate Quiet(e: Event) {
    e in {OpenFails, ReadFile, BuildTokens, BuildProxy, BuildGroups, Release}
  }

  /** Local variables alone: the checkers and the live handler stay. */
  lemma WorkKeepsCore(valid: nat -> bool, s: State, w: Work)
    requires CoreInv(valid, s) && s.holder.Some? && WorkInv(valid, s, w)
    requires Rank(s.holder.value.pc) !in {4, 5, 6} && Rank(w.pc) !in {4, 5, 6}
    ensures CoreInv(valid, Go(s, w))
  {
    assert Active(Go(s, w)) == Active(s);
  }

  lemma ReleaseKeepsCore(valid: nat -> bool, s: State)
    requires CoreInv(valid, s) && (At(s, HandlerStored) || At(s, Failing))
    ensures CoreInv(valid, HolderStep(valid, s, s.holder.value, Release).value)
  {
    var s' := HolderStep(valid, s, s.holder.value, Release).value;
    assert Active(s') == Active(s) && s'.stops == s.stops;
  }

  /** Steps that touch neither the checkers nor the live handler. */
  lemma QuietKeepsCore(valid: nat -> bool, s: State, e: Event)
    requires CoreInv(valid, s) && s.holder.Some? && HolderStep(valid, s, s.holder.value, e).Some? && Quiet(e)
    ensures CoreInv(valid, HolderStep(valid, s, s.holder.value, e).value)
  {
    if e.Release? {
      ReleaseKeepsCore(valid, s);
    } else {
      WorkKeepsCore(valid, s, HolderStep(valid, s, s.holder.value, e).value.holder.value);
    }
  }

  lemma StopOldKeepsCore(valid: nat -> bool, s: State)
    requires CoreInv(valid, s) && At(s, ProxyBuilt)
    ensures CoreInv(valid, HolderStep(valid, s, s.holder.value, StopOld).value)
  {
  }

  lemma BuildCheckerKeepsCore(valid: nat -> bool, s: State)
    requires CoreInv(valid, s) && At(s, OldStopped)
    ensures CoreInv(valid, HolderStep(valid, s, s.holder.value, BuildChecker).value)
  {
  }

  lemma StartCheckerKeepsCore(valid: nat -> bool, s: State)
    requires CoreInv(valid, s) && At(s, CheckerBuilt)
    ensures CoreInv(valid, HolderStep(valid, s, s.holder.value, StartChecker).value)
  {
  }

  lemma AssignCheckerKeepsCore(valid: nat -> bool, s: State)
    requires CoreInv(valid, s) && At(s, CheckerStarted)
    ensures CoreInv(valid, HolderStep(valid, s, s.holder.value, AssignChecker).value)
  {
  }

  lemma StoreHandlerKeepsCore(valid: nat -> bool, s: State)
    requires CoreInv(valid, s) && At(s, GroupsBuilt)
    ensures CoreInv(valid, HolderStep(valid, s, s.holder.value, StoreHandler).value)
    ensures s.live.tokens <= HolderStep(valid, s, s.holder.value, StoreHandler).value.live.tokens
  {
  }

  lemma HolderKeepsCore(valid: nat -> bool, s: State, e: Event)
    requires CoreInv(valid, s) && s.holder.Some? && HolderStep(valid, s, s.holder.value, e).Some?
    ensures CoreInv(valid, HolderStep(valid, s, s.holder.value, e).value)
    ensures s.live.tokens <= HolderStep(valid, s, s.holder.value, e).value.live.tokens
  {
    match e
    case StopOld => StopOldKeepsCore(valid, s);
    case BuildChecker => BuildCheckerKeepsCore(valid, s);
    case StartChecker => StartCheckerKeepsCore(valid, s);
    case AssignChecker => AssignCheckerKeepsCore(valid, s);
    case StoreHandler => StoreHandlerKeepsCore(valid, s);
    case _ => QuietKeepsCore(valid, s, e);
  }

  lemma RequestKeepsCore(valid: nat -> bool, s: State, r: nat, e: Event)
    requires CoreInv(valid, s) && r < |s.requests| && RequestStep(s, r, e).Some?
    ensures CoreInv(valid, RequestStep(s, r, e).value) && RequestStep(s, r, e).value.live == s.live
  {
    var s' := RequestStep(s, r, e).value;
    SameCore(valid, s, s');
  }

  /** Requests, calls and edits are nothing to the core. */
  lemma SameCore(valid: nat -> bool, s: State, s': State)
    requires CoreInv(valid, s) && s.disk <= s'.disk
    requires s' == s.(disk := s'.disk, waiting := s'.waiting, requests := s'.requests, loads := s'.loads)
    ensures CoreInv(valid, s')
  {
    assert Active(s') == Active(s);
  }

  lemma AcquireKeepsCore(valid: nat -> bool, s: State, i: nat)
    requires Inv(valid, s) && Step(valid, s, Acquire(i)).Some?
    ensures CoreInv(valid, Step(valid, s, Acquire(i)).value)
  {
  }

  lemma StopReadsKeepsCore(valid: nat -> bool, s: State)
    requires CoreInv(valid, s)
    ensures CoreInv(valid, Step(valid, s, StopReads).value)
  {
    var s' := Step(valid, s, StopReads).value;
    assert forall i :: 0 <= i < |s.stops| ==> s'.stops[i] == s.stops[i];
    assert Active(s') == Active(s);
  }

  lemma StopCancelsKeepsCore(valid: nat -> bool, s: State, i: nat)
    requires CoreInv(valid, s) && Step(valid, s, StopCancels(i)).Some?
    ensures CoreInv(valid, Step(valid, s, StopCancels(i)).value)
  {
    var s' := Step(valid, s, StopCancels(i)).value;
    assert s'.stops[i].cancelled;
    assert Active(s') == Active(s);
  }

  lemma StepKeepsCore(valid: nat -> bool, s: State, e: Event)
    requires Inv(valid, s) && Step(valid, s, e).Some?
    ensures CoreInv(valid, Step(valid, s, e).value)
    ensures s.live.tokens <= Step(valid, s, e).value.live.tokens
  {
    if IsRequestEvent(e) {
      RequestKeepsCore(valid, s, e.r, e);
    } else if e.Acquire? {
      AcquireKeepsCore(valid, s, e.i);
    } else if e.StopReads? {
      StopReadsKeepsCore(valid, s);
    } else if e.StopCancels? {
      StopCancelsKeepsCore(valid, s, e.i);
    } else if e.Edit? || e.CallReload? || e.Arrive? {
      SameCore(valid, s, Step(valid, s, e).value);
    } else {
      HolderKeepsCore(valid, s, e);
    }
  }

  lemma RequestKeepsHistory(s: State, r: nat, e: Event)
    requires HistoryInv(s) && Coherent(s.live) && r < |s.requests| && RequestStep(s, r, e).Some?
    ensures HistoryInv(RequestStep(s, r, e).value)
  {
  }

  lemma NewerKeepsRequests(s: State, newest: nat)
    requires HistoryInv(s) && s.live.tokens <= newest
    ensures forall r :: 0 <= r < |s.requests| ==> RequestInv(s.requests[r], newest)
    ensures Ascending(s.loads, newest)
  {
  }

  lemma ReleaseKeepsHistory(valid: nat -> bool, s: State)
    requires Inv(valid, s) && (At(s, HandlerStored) || At(s, Failing))
    ensures HistoryInv(HolderStep(valid, s, s.holder.value, Release).value)
  {
  }

  lemma HolderKeepsHistory(valid: nat -> bool, s: State, e: Event)
    requires Inv(valid, s) && s.holder.Some? && HolderStep(valid, s, s.holder.value, e).Some?
    ensures HistoryInv(HolderStep(valid, s, s.holder.value, e).value)
  {
    var s' := HolderStep(valid, s, s.holder.value, e).value;
    if e.Release? {
      ReleaseKeepsHistory(valid, s);
    } else {
      HolderKeepsCore(valid, s, e);
      assert s'.requests == s.requests && s'.loads == s.loads && s'.waiting == s.waiting && s'.disk == s.disk;
      assert s'.done == s.done;
      NewerKeepsRequests(s, s'.live.tokens);
    }
  }

  lemma StepKeepsHistory(valid: nat -> bool, s: State, e: Event)
    requires Inv(valid, s) && Step(valid, s, e).Some?
    ensures HistoryInv(Step(valid, s, e).value)
  {
    if IsRequestEvent(e) {
      RequestKeepsHistory(s, e.r, e);
    } else if !e.Edit? && !e.CallReload? && !e.Acquire? && !e.StopReads? && !e.StopCancels? && !e.Arrive? {
      HolderKeepsHistory(valid, s, e);
    }
  }

  lemma {:induction false} Reachable(valid: nat -> bool, version: nat, events: seq<Event>)
    requires valid(version) && Run(valid, version, events).Some?
    ensures Inv(valid, Run(valid, version, events).value)
    decreases |events|
  {
    if events != [] {
      var before, last := events[..|events| - 1], events[|events| - 1];
      Reachable(valid, version, before);
      var s := Run(valid, version, before).value;
      StepKeepsCore(valid, s, last);
      StepKeepsHistory(valid, s, last);
    }
  }

  // ---------------------------------------------------------------- what holds in every run

  /** All that a request uses is of one generation, the one it loaded. */
  lemma OneGeneration(valid: nat -> bool, version: nat, events: seq<Event>, r: nat)
    requires valid(version) && Run(valid, version, events).Some?
    requires r < |Run(valid, version, events).value.requests|
    ensures var q := Run(valid, version, events).value.requests[r];
            forall v :: v in q.used ==> q.loaded.Some? && v == q.loaded.value.tokens
  {
    Reachable(valid, version, events);
  }

  /** The generations that requests load never go back, and each of them is of a valid file. */
  lemma LoadsGoForward(valid: nat -> bool, version: nat, events: seq<Event>, i: nat, j: nat)
    requires valid(version) && Run(valid, version, events).Some?
    requires i <= j < |Run(valid, version, events).value.loads|
    ensures var s := Run(valid, version, events).value; s.loads[i] <= s.loads[j] <= s.live.tokens && valid(s.live.tokens)
  {
    Reachable(valid, version, events);
  }

  /** Two checkers never run at once. */
  lemma OneChecker(valid: nat -> bool, version: nat, events: seq<Event>, c: nat, d: nat)
    requires valid(version) && Run(valid, version, events).Some?
    requires var s := Run(valid, version, events).value;
             c < |s.checkers| && d < |s.checkers| && s.checkers[c] == Running && s.checkers[d] == Running
    ensures c == d
  {
    Reachable(valid, version, events);
  }

  /** Between getting the lock and giving it back, a reload that fails has changed neither handler nor checker. */
  lemma FailureChangesNothing(valid: nat -> bool, version: nat, events: seq<Event>)
    requires valid(version) && Run(valid, version, events).Some?
    requires At(Run(valid, version, events).value, Failing)
    ensures var s := Run(valid, version, events).value;
            && s.live == s.holder.value.liveBefore && s.checker == s.holder.value.checkerBefore
            && s.checker < |s.checkers| && (NeverStopped(s) ==> s.checkers[s.checker] == Running)
  {
    Reachable(valid, version, events);
  }

  /**
   * A request that loads the handler after some reload has succeeded gets a generation at least as new as the file
   * was when that reload was called.
   */
  lemma ReloadTakesEffect(valid: nat -> bool, version: nat, events: seq<Event>, i: nat, r: nat)
    requires valid(version) && Run(valid, version, events).Some?
    requires var s := Run(valid, version, events).value;
             i < |s.done| && s.done[i].Succeeded? && Step(valid, s, LoadHandler(r)).Some?
    ensures var s := Run(valid, version, events).value;
            Step(valid, s, LoadHandler(r)).value.requests[r].loaded.value.tokens >= s.done[i].called
  {
    Reachable(valid, version, events);
  }

  /** Until the server is stopped, the live handler's checker runs, but for the time a reload takes to replace it. */
  lemma LiveCheckerRunsIff(valid: nat -> bool, version: nat, events: seq<Event>)
    requires valid(version) && Run(valid, version, events).Some? && NeverStopped(Run(valid, version, events).value)
    ensures var s := Run(valid, version, events).value;
            s.live.checker < |s.checkers|
            && (s.checkers[s.live.checker] == Running
                <==> s.holder.None? || Rank(s.holder.value.pc) < 4 || Rank(s.holder.value.pc) == 9)
  {
    Reachable(valid, version, events);
  }

  // ---------------------------------------------------------------- what stopping the server comes to, over runs

  predicate SomeRuns(s: State) {
    exists c :: 0 <= c < |s.checkers| && s.checkers[c] == Running
  }

  predicate NoneRuns(s: State) {
    forall c :: 0 <= c < |s.checkers| ==> s.checkers[c] != Running
  }

  /**
   * Whether a checker runs after an event, given whether one did before it. A stop of the server comes too late when
   * the checker that it read has been replaced, and too early for one that a reload has started and not recorded yet.
   */
  predicate RunsNext(s: State, e: Event, ran: bool) {
    match e
    case StartChecker => true
    case StopOld => false
    case StopCancels(i) => if i < |s.stops| && s.stops[i].read == s.checker then At(s, CheckerStarted) else ran
    case _ => ran
  }

  /** Whether a checker runs, told from the events alone: the last of them that starts or stops one decides. */
  predicate RunsAfter(valid: nat -> bool, version: nat, events: seq<Event>) {
    events == []
    || var before, last := events[..|events| - 1], events[|events| - 1];
       Run(valid, version, before).Some?
       && RunsNext(Run(valid, version, before).value, last, RunsAfter(valid, version, before))
  }

  lemma HolderRuns(valid: nat -> bool, s: State, e: Event)
    requires CoreInv(valid, s) && s.holder.Some? && HolderStep(valid, s, s.holder.value, e).Some?
    ensures SomeRuns(HolderStep(valid, s, s.holder.value, e).value) == RunsNext(s, e, SomeRuns(s))
  {
    var s' := HolderStep(valid, s, s.holder.value, e).value;
    if e.StartChecker? {
      assert s'.checkers[s.holder.value.checker] == Running;
    } else if e.BuildChecker? {
      assert s'.checkers == s.checkers + [Built];
      assert NoneRuns(s) && NoneRuns(s');
    } else if e.StopOld? {
      assert NoneRuns(s');
    } else {
      assert s'.checkers == s.checkers;
    }
  }

  lemma StopCancelsRuns(valid: nat -> bool, s: State, i: nat)
    requires CoreInv(valid, s) && Step(valid, s, StopCancels(i)).Some?
    ensures SomeRuns(Step(valid, s, StopCancels(i)).value) == RunsNext(s, StopCancels(i), SomeRuns(s))
  {
    var s' := Step(valid, s, StopCancels(i)).value;
    if s.stops[i].read != s.checker {
      assert s.checkers[s.stops[i].read] != Running;
      assert forall c :: 0 <= c < |s.checkers| ==> (s'.checkers[c] == Running <==> s.checkers[c] == Running);
    } else if At(s, CheckerStarted) {
      assert s'.checkers[s.holder.value.checker] == Running;
    } else {
      assert NoneRuns(s');
    }
  }

  lemma OthersKeepCheckers(valid: nat -> bool, s: State, e: Event)
    requires s.holder.None? || HolderStep(valid, s, s.holder.value, e).None?
    requires !e.StopCancels? && Step(valid, s, e).Some?
    ensures SomeRuns(Step(valid, s, e).value) == RunsNext(s, e, SomeRuns(s))
  {
    assert Step(valid, s, e).value.checkers == s.checkers;
  }

  lemma HolderStepIsStep(valid: nat -> bool, s: State, e: Event)
    requires s.holder.Some? && HolderStep(valid, s, s.holder.value, e).Some?
    ensures Step(valid, s, e) == HolderStep(valid, s, s.holder.value, e)
  {
  }

  lemma StepRuns(valid: nat -> bool, s: State, e: Event)
    requires CoreInv(valid, s) && Step(valid, s, e).Some?
    ensures SomeRuns(Step(valid, s, e).value) == RunsNext(s, e, SomeRuns(s))
  {
    if e.StopCancels? {
      StopCancelsRuns(valid, s, e.i);
    } else if s.holder.Some? && HolderStep(valid, s, s.holder.value, e).Some? {
      HolderStepIsStep(valid, s, e);
      HolderRuns(valid, s, e);
    } else {
      OthersKeepCheckers(valid, s, e);
    }
  }

  /** In every run, a checker runs exactly when its events say so. */
  lemma {:induction false} CheckerRunsIff(valid: nat -> bool, version: nat, events: seq<Event>)
    requires valid(version) && Run(valid, version, events).Some?
    ensures SomeRuns(Run(valid, version, events).value) == RunsAfter(valid, version, events)
    decreases |events|
  {
    if events == [] {
      assert Initial(version).checkers[0] == Running;
    } else {
      var before := events[..|events| - 1];
      CheckerRunsIff(valid, version, before);
      Reachable(valid, version, before);
      StepRuns(valid, Run(valid, version, before).value, events[|events| - 1]);
    }
  }

  /**
   * When the first stop of the server stops the checker that it read, another one is left running exactly when a
   * reload has started one and not recorded it, or has recorded one since the stop read.
   */
  lemma StopServerIff(valid: nat -> bool, version: nat, events: seq<Event>, i: nat)
    requires valid(version) && Run(valid, version, events).Some?
    requires var s := Run(valid, version, events).value; NeverStopped(s) && Step(valid, s, StopCancels(i)).Some?
    ensures var s := Run(valid, version, events).value;
            SomeRuns(Step(valid, s, StopCancels(i)).value)
            <==> At(s, CheckerStarted) || (s.stops[i].read != s.checker && !At(s, OldStopped) && !At(s, CheckerBuilt))
  {
    Reachable(valid, version, events);
    var s := Run(valid, version, events).value;
    StopCancelsRuns(valid, s, i);
    if !At(s, CheckerStarted) { RunningIsRecorded(valid, s); }
  }

  /** But for the time a reload takes to replace it, the recorded checker runs until the server is stopped. */
  lemma RunningIsRecorded(valid: nat -> bool, s: State)
    requires CoreInv(valid, s) && NeverStopped(s) && !At(s, CheckerStarted)
    ensures SomeRuns(s) <==> !At(s, OldStopped) && !At(s, CheckerBuilt)
  {
    if !At(s, OldStopped) && !At(s, CheckerBuilt) {
      assert s.checkers[s.checker] == Running;
    }
  }

  /** No reload is under way or called, and this stop, which has not stopped anything yet, has read the last checker. */
  predicate Idle(s: State, i: nat) {
    s.holder.None? && s.waiting == [] && i < |s.stops| && s.stops[i].read == s.checker
  }

  lemma IdleStep(valid: nat -> bool, s: State, e: Event, i: nat)
    requires Idle(s, i) && e != CallReload && Step(valid, s, e).Some?
    ensures var s' := Step(valid, s, e).value; Idle(s', i) && (NoneRuns(s) ==> NoneRuns(s'))
  {
  }

  lemma {:induction false} StaysIdle(valid: nat -> bool, version: nat, before: seq<Event>, after: seq<Event>, i: nat)
    requires Run(valid, version, before).Some? && Idle(Run(valid, version, before).value, i)
    requires CallReload !in after && Run(valid, version, before + after).Some?
    ensures var s, s' := Run(valid, version, before).value, Run(valid, version, before + after).value;
            Idle(s', i) && (NoneRuns(s) ==> NoneRuns(s'))
    decreases |after|
  {
    if after == [] {
      assert before + after == before;
    } else {
      var most, last := before + after[..|after| - 1], after[|after| - 1];
      assert before + after == most + [last] && last in after;
      LastStep(valid, version, most, last);
      StaysIdle(valid, version, before, after[..|after| - 1], i);
      IdleStep(valid, Run(valid, version, most).value, last, i);
    }
  }

  /** The run begins with this one. */
  lemma {:induction false} RunBegins(valid: nat -> bool, version: nat, before: seq<Event>, after: seq<Event>)
    requires Run(valid, version, before + after).Some?
    ensures Run(valid, version, before).Some?
    decreases |after|
  {
    if after == [] {
      assert before + after == before;
    } else {
      assert (before + after)[..|before + after| - 1] == before + after[..|after| - 1];
      RunBegins(valid, version, before, after[..|after| - 1]);
    }
  }

  /** After a stop that no reload overlaps, and that none follows, no checker ever runs again. */
  lemma StoppedForGood(
    valid: nat -> bool, version: nat, before: seq<Event>, during: seq<Event>, after: seq<Event>, i: nat)
    requires valid(version) && Run(valid, version, before).Some?
    requires var s := Run(valid, version, before).value; s.holder.None? && s.waiting == [] && i == |s.stops|
    requires CallReload !in during && CallReload !in after
    requires Run(valid, version, before + [StopReads] + during + [StopCancels(i)] + after).Some?
    ensures NoneRuns(Run(valid, version, before + [StopReads] + during + [StopCancels(i)] + after).value)
  {
    var read := before + [StopReads];
    var reached := read + during;
    var stopped := reached + [StopCancels(i)];
    RunBegins(valid, version, stopped, after);
    LastStep(valid, version, before, StopReads);
    LastStep(valid, version, reached, StopCancels(i));
    StaysIdle(valid, version, read, during, i);
    Reachable(valid, version, reached);
    StopCancelsRuns(valid, Run(valid, version, reached).value, i);
    IdleStep(valid, Run(valid, version, reached).value, StopCancels(i), i);
    StaysIdle(valid, version, stopped, after, i);
  }

  lemma LastStep(valid: nat -> bool, version: nat, events: seq<Event>, e: Event)
    ensures Run(valid, version, events + [e])
            == if Run(valid, version, events).None? then None else Step(valid, Run(valid, version, events).value, e)
  {
    assert (events + [e])[..|events|] == events;
  }

  // ---------------------------------------------------------------- a load without anything in between

  function Steps(valid: nat -> bool, s: State, events: seq<Event>): Option<State>
    decreases |events|
  {
    if events == [] then Some(s)
    else
      match Step(valid, s, events[0])
      case None => None
      case Some(s') => Steps(valid, s', events[1..])
  }

  lemma {:induction false} StepsConcat(valid: nat -> bool, s: State, a: seq<Event>, b: seq<Event>)
    requires Steps(valid, s, a).Some?
    ensures Steps(valid, s, a + b) == Steps(valid, Steps(valid, s, a).value, b)
    decreases |a|
  {
    if a == [] {
      assert a + b == b;
    } else {
      assert (a + b)[1..] == a[1..] + b;
      StepsConcat(valid, Step(valid, s, a[0]).value, a[1..], b);
    }
  }

  lemma FirstStep(valid: nat -> bool, s: State, e: Event, rest: seq<Event>)
    ensures Steps(valid, s, [e] + rest)
            == if Step(valid, s, e).None? then None else Steps(valid, Step(valid, s, e).value, rest)
  {
    assert ([e] + rest)[1..] == rest;
  }

  lemma FourSteps(
    valid: nat -> bool, s: State, a: Event, b: Event, c: Event, d: Event, s1: State, s2: State, s3: State, s4: State)
    requires Step(valid, s, a) == Some(s1) && Step(valid, s1, b) == Some(s2)
    requires Step(valid, s2, c) == Some(s3) && Step(valid, s3, d) == Some(s4)
    ensures Steps(valid, s, [a, b, c, d]) == Some(s4)
  {
    FirstStep(valid, s3, d, []);
    FirstStep(valid, s2, c, [d]);
    FirstStep(valid, s1, b, [c, d]);
    FirstStep(valid, s, a, [b, c, d]);
    assert [d] + [] == [d] && [c] + [d] == [c, d] && [b] + [c, d] == [b, c, d] && [a] + [b, c, d] == [a, b, c, d];
  }

  const REPLACE_CHECKER := [BuildTokens, BuildProxy, StopOld, BuildChecker]
  const PUBLISH := [StartChecker, AssignChecker, BuildGroups, StoreHandler]

  /** The old checker is stopped, and a new one is there but not started. */
  lemma ReplaceCheckerRuns(valid: nat -> bool, s: State)
    requires At(s, Parsed) && s.checker < |s.checkers|
    ensures var v := s.holder.value.version;
            var w := s.holder.value.(pc := CheckerBuilt, tokens := v, proxy := v, checker := |s.checkers|);
            Steps(valid, s, REPLACE_CHECKER)
            == Some(s.(checkers := s.checkers[s.checker := Stopped] + [Built], holder := Some(w)))
  {
    var w := s.holder.value;
    var s1 := Go(s, w.(pc := TokensBuilt, tokens := w.version));
    var s2 := Go(s1, w.(pc := ProxyBuilt, tokens := w.version, proxy := w.version));
    var s3 := Go(s2, s2.holder.value.(pc := OldStopped)).(checkers := s.checkers[s.checker := Stopped]);
    var s4 := Go(s3, s2.holder.value.(pc := CheckerBuilt, checker := |s.checkers|)).(checkers := s3.checkers + [Built]);
    assert Step(valid, s, BuildTokens) == Some(s1);
    assert Step(valid, s1, BuildProxy) == Some(s2);
    assert Step(valid, s2, StopOld) == Some(s3);
    assert Step(valid, s3, BuildChecker) == Some(s4);
    FourSteps(valid, s, BuildTokens, BuildProxy, StopOld, BuildChecker, s1, s2, s3, s4);
  }

  /** The new checker is started, and the handler that reports it is stored. */
  lemma PublishRuns(valid: nat -> bool, s: State)
    requires At(s, CheckerBuilt) && s.holder.value.checker < |s.checkers|
    ensures var w := s.holder.value;
            Steps(valid, s, PUBLISH)
            == Some(s.(live := Snapshot(w.tokens, w.proxy, w.version, w.checker), checker := w.checker,
                       checkers := s.checkers[w.checker := Running],
                       holder := Some(w.(pc := HandlerStored, groups := w.version))))
  {
    var w := s.holder.value;
    var s1 := Go(s, w.(pc := CheckerStarted)).(checkers := s.checkers[w.checker := Running]);
    var s2 := Go(s1, w.(pc := CheckerAssigned)).(checker := w.checker);
    var s3 := Go(s2, w.(pc := GroupsBuilt, groups := w.version));
    var s4 := Go(s3, w.(pc := HandlerStored, groups := w.version))
      .(live := Snapshot(w.tokens, w.proxy, w.version, w.checker));
    assert Step(valid, s, StartChecker) == Some(s1);
    assert Step(valid, s1, AssignChecker) == Some(s2);
    assert Step(valid, s2, BuildGroups) == Some(s3);
    assert Step(valid, s3, StoreHandler) == Some(s4);
    FourSteps(valid, s, StartChecker, AssignChecker, BuildGroups, StoreHandler, s1, s2, s3, s4);
  }

  /** The steps of `load` without anything in between: the sequential meaning of a reload. */
  lemma LoadRuns(valid: nat -> bool, s: State)
    requires At(s, Parsed) && s.checker < |s.checkers|
    ensures var loaded := Steps(valid, s, REPLACE_CHECKER + PUBLISH);
            var v, c := s.holder.value.version, |s.checkers|;
            && loaded.Some? && At(loaded.value, HandlerStored)
            && loaded.value.live == Snapshot(v, v, v, c) && loaded.value.checker == c
            && loaded.value.checkers == s.checkers[s.checker := Stopped] + [Running]
  {
    ReplaceCheckerRuns(valid, s);
    var mid := Steps(valid, s, REPLACE_CHECKER).value;
    PublishRuns(valid, mid);
    StepsConcat(valid, s, REPLACE_CHECKER, PUBLISH);
    assert mid.checkers[|s.checkers| := Running] == s.checkers[s.checker := Stopped] + [Running];
  }

  // ---------------------------------------------------------------- a stop that a reload overtakes

  lemma {:induction false} RunIsSteps(valid: nat -> bool, version: nat, events: seq<Event>)
    requires Steps(valid, Initial(version), events).Some?
    ensures Run(valid, version, events) == Steps(valid, Initial(version), events)
    decreases |events|
  {
    if events != [] {
      var before, last := events[..|events| - 1], events[|events| - 1];
      assert events == before + [last];
      StepsBegin(valid, Initial(version), before, [last]);
      RunIsSteps(valid, version, before);
      StepsConcat(valid, Initial(version), before, [last]);
      FirstStep(valid, Run(valid, version, before).value, last, []);
      assert [last] + [] == [last];
    }
  }

  lemma {:induction false} StepsBegin(valid: nat -> bool, s: State, a: seq<Event>, b: seq<Event>)
    requires Steps(valid, s, a + b).Some?
    ensures Steps(valid, s, a).Some?
    decreases |a|
  {
    if a != [] {
      assert (a + b)[1..] == a[1..] + b;
      StepsBegin(valid, Step(valid, s, a[0]).value, a[1..], b);
    }
  }

  const STOP_THEN_RELOAD := [StopReads, CallReload, Acquire(0), ReadFile]
  const RETURN_THEN_STOP := [Release, StopCancels(0)]

  /**
   * A stop reads the checker, a whole reload goes by, and then the stop stops what it has read: the server is
   * stopped, no reload is under way or called, and the checker of the live handler runs on.
   */
  lemma OvertakenStop(valid: nat -> bool, version: nat)
    requires valid(version)
    ensures var run := Run(valid, version, STOP_THEN_RELOAD + (REPLACE_CHECKER + PUBLISH + RETURN_THEN_STOP));
            && run.Some? && run.value.stops == [Stop(0, true)] && run.value.holder.None? && run.value.waiting == []
            && run.value.live.checker == run.value.checker == 1 && run.value.checkers == [Stopped, Running]
  {
    var s1 := ReloadBegins(valid, version);
    var s2 := ReloadPublishes(valid, s1);
    var s3 := StopComesLate(valid, s2);
    StepsConcat(valid, s1, REPLACE_CHECKER + PUBLISH, RETURN_THEN_STOP);
    StepsConcat(valid, Initial(version), STOP_THEN_RELOAD, REPLACE_CHECKER + PUBLISH + RETURN_THEN_STOP);
    RunIsSteps(valid, version, STOP_THEN_RELOAD + (REPLACE_CHECKER + PUBLISH + RETURN_THEN_STOP));
  }

  /** The state when the whole reload has gone by, but for its return. */
  predicate Published(s: State) {
    && At(s, HandlerStored) && s.stops == [Stop(0, false)] && s.waiting == []
    && s.live.checker == s.checker == 1 && s.checkers == [Stopped, Running]
  }

  lemma ReloadPublishes(valid: nat -> bool, s: State) returns (s': State)
    requires At(s, Parsed) && s.stops == [Stop(0, false)] && s.waiting == []
    requires s.checker == 0 && s.checkers == [Running]
    ensures Steps(valid, s, REPLACE_CHECKER + PUBLISH) == Some(s') && Published(s')
  {
    ReplaceCheckerRuns(valid, s);
    var mid := Steps(valid, s, REPLACE_CHECKER).value;
    assert mid.checkers == [Stopped, Built];
    PublishRuns(valid, mid);
    s' := Steps(valid, mid, PUBLISH).value;
    StepsConcat(valid, s, REPLACE_CHECKER, PUBLISH);
  }

  lemma StopComesLate(valid: nat -> bool, s: State) returns (s': State)
    requires Published(s)
    ensures Steps(valid, s, RETURN_THEN_STOP) == Some(s')
    ensures s'.stops == [Stop(0, true)] && s'.holder.None? && s'.waiting == []
    ensures s'.live.checker == s'.checker == 1 && s'.checkers == [Stopped, Running]
  {
    var mid := Step(valid, s, Release).value;
    s' := Step(valid, mid, StopCancels(0)).value;
    TwoSteps(valid, s, Release, StopCancels(0), mid, s');
  }

  lemma TwoSteps(valid: nat -> bool, s: State, a: Event, b: Event, s1: State, s2: State)
    requires Step(valid, s, a) == Some(s1) && Step(valid, s1, b) == Some(s2)
    ensures Steps(valid, s, [a, b]) == Some(s2)
  {
    FirstStep(valid, s1, b, []);
    FirstStep(valid, s, a, [b]);
    assert [b] + [] == [b] && [a] + [b] == [a, b];
  }

  lemma ReloadBegins(valid: nat -> bool, version: nat) returns (s: State)
    requires valid(version)
    ensures Steps(valid, Initial(version), STOP_THEN_RELOAD) == Some(s)
    ensures s == Initial(version).(stops := [Stop(0, false)],
                                   holder := Some(Work(Parsed, version, version, 0, 0, 0, 0, Initial(version).live, 0)))
  {
    var s0 := Initial(version);
    var s1 := s0.(stops := [Stop(0, false)]);
    var s2 := s1.(waiting := [version]);
    var w := Work(Locked, version, 0, 0, 0, 0, 0, s0.live, 0);
    var s3 := s1.(holder := Some(w));
    s := s1.(holder := Some(w.(pc := Parsed, version := version)));
    assert s0.stops + [Stop(0, false)] == s1.stops && s1.waiting + [version] == s2.waiting;
    assert s2.waiting[..0] + s2.waiting[0 + 1..] == s3.waiting;
    assert Step(valid, s0, StopReads) == Some(s1);
    assert Step(valid, s1, CallReload) == Some(s2);
    assert Step(valid, s2, Acquire(0)) == Some(s3);
    assert Step(valid, s3, ReadFile) == Some(s);
    FourSteps(valid, s0, StopReads, CallReload, Acquire(0), ReadFile, s1, s2, s3, s);
  }
}
