/** The circuit breaker as a state machine, and what holds over whole runs of it. */
module BreakerModel {
  datatype Mode = Closed | Open | HalfOpen

  datatype Config = Config(failureThreshold: int, openDurationMs: int, halfOpenMaxCalls: int, successThreshold: int) {
    /** Values that make no sense count as 1. */
    function Failures(): nat {
      if failureThreshold > 0 then failureThreshold else 1
    }

    function Successes(): nat {
      if successThreshold > 0 then successThreshold else 1
    }

    function Probes(): nat {
      if halfOpenMaxCalls > 0 then halfOpenMaxCalls else 1
    }
  }

  datatype Stats = Stats(allowed: nat, rejected: nat, successes: nat, failures: nat, stateChanges: nat)

  datatype State = State(mode: Mode, openedAt: int, failures: nat, inFlight: nat, successes: nat, stats: Stats)

  const NO_STATS := Stats(0, 0, 0, 0, 0)
  const INITIAL := State(Closed, 0, 0, 0, 0, NO_STATS)

  /** Entering a mode clears every counter of an episode; entering Open starts the clock. */
  function Transition(s: State, to: Mode, now: int): State {
    if s.mode == to then s else
    State(to, if to == Open then now else s.openedAt, 0, 0, 0, s.stats.(stateChanges := s.stats.stateChanges + 1))
  }

  /** An open breaker whose cool-down is over turns half-open. */
  function Advance(c: Config, s: State, now: int): State {
    if s.mode == Open && now - s.openedAt >= c.openDurationMs then Transition(s, HalfOpen, now) else s
  }

  function Allow(c: Config, s: State, now: int): (State, bool) {
    var a := Advance(c, s, now);
    if a.mode == Closed then (a.(stats := a.stats.(allowed := a.stats.allowed + 1)), true)
    else if a.mode == HalfOpen && a.inFlight < c.Probes() then
      (a.(inFlight := a.inFlight + 1, stats := a.stats.(allowed := a.stats.allowed + 1)), true)
    else (a.(stats := a.stats.(rejected := a.stats.rejected + 1)), false)
  }

  function OneBack(n: nat): nat {
    if n > 0 then n - 1 else 0
  }

  function RecordSuccess(c: Config, s: State, now: int): State {
    var t := s.(stats := s.stats.(successes := s.stats.successes + 1));
    match s.mode
    case Closed => t.(failures := 0)
    case Open => t
    case HalfOpen =>
      var u := t.(inFlight := OneBack(t.inFlight), successes := t.successes + 1);
      if u.successes >= c.Successes() then Transition(u, Closed, now) else u
  }

  function RecordFailure(c: Config, s: State, now: int): State {
    var t := s.(stats := s.stats.(failures := s.stats.failures + 1));
    match s.mode
    case Closed =>
      var u := t.(failures := t.failures + 1);
      if u.failures >= c.Failures() then Transition(u, Open, now) else u
    case Open => t
    case HalfOpen => Transition(t.(inFlight := OneBack(t.inFlight)), Open, now)
  }

  function Reset(s: State, now: int): State {
    if s.mode != Closed then Transition(s, Closed, now) else s.(failures := 0, inFlight := 0, successes := 0)
  }

  function ResetStats(s: State): State {
    s.(stats := NO_STATS)
  }

  // ---- runs

  datatype Event =
    | Admit(now: int)
    | Success(now: int)
    | Failure(now: int)
    | Query(now: int)
    | ResetAll(now: int)
    | ClearStats(now: int)

  function Step(c: Config, s: State, e: Event): State {
    match e
    case Admit(now) => Allow(c, s, now).0
    case Success(now) => RecordSuccess(c, s, now)
    case Failure(now) => RecordFailure(c, s, now)
    case Query(now) => Advance(c, s, now)
    case ResetAll(now) => Reset(s, now)
    case ClearStats(now) => ResetStats(s)
  }

  predicate Admitted(c: Config, s: State, e: Event) {
    e.Admit? && Allow(c, s, e.now).1
  }

  function Run(c: Config, es: seq<Event>): State {
    if |es| == 0 then INITIAL else Step(c, Run(c, es[..|es| - 1]), es[|es| - 1])
  }

  // ---- when it trips

  /** The results recorded since the breaker last closed or was reset. */
  function History(c: Config, es: seq<Event>): seq<bool> {
    if |es| == 0 then [] else
    var front, e := es[..|es| - 1], es[|es| - 1];
    var before, after := Run(c, front), Run(c, es);
    if e.ResetAll? || before.mode != Closed then []
    else if e.Success? then History(c, front) + [true]
    else if e.Failure? then History(c, front) + [false]
    else History(c, front)
  }

  /** The last n results are all failures. */
  predicate EndsInFailures(h: seq<bool>, n: nat) {
    |h| >= n && forall i :: |h| - n <= i < |h| ==> !h[i]
  }

  /** While closed, the counter is the length of the run of failures the history ends in. */
  lemma {:induction false} CounterIsTrailingRun(c: Config, es: seq<Event>)
    ensures var s, h := Run(c, es), History(c, es);
            s.mode == Closed ==>
              && s.failures < c.Failures()
              && EndsInFailures(h, s.failures) && !EndsInFailures(h, s.failures + 1)
    decreases |es|
  {
    if |es| > 0 {
      var front, e := es[..|es| - 1], es[|es| - 1];
      CounterIsTrailingRun(c, front);
      var s, h := Run(c, front), History(c, front);
      if s.mode == Closed && e.Failure? {
        var g := h + [false];
        assert EndsInFailures(g, s.failures + 1);
        if EndsInFailures(g, s.failures + 2) {
          assert forall i :: |h| - (s.failures + 1) <= i < |h| ==> !g[i] && h[i] == g[i];
          assert EndsInFailures(h, s.failures + 1);
        }
      }
      if s.mode == Closed && e.Success? {
        assert (h + [true])[|h|];
      }
    }
  }

  /**
   A closed breaker trips exactly when the threshold's worth of latest results, since it
   closed or was reset, are all failures.
   */
  lemma TripsIff(c: Config, es: seq<Event>, e: Event)
    requires Run(c, es).mode == Closed
    ensures Step(c, Run(c, es), e).mode == Open <==>
            e.Failure? && EndsInFailures(History(c, es) + [false], c.Failures())
    ensures Step(c, Run(c, es), e).mode != HalfOpen
  {
    CounterIsTrailingRun(c, es);
    var s, h := Run(c, es), History(c, es);
    var g := h + [false];
    if e.Failure? {
      if s.failures + 1 == c.Failures() {
        assert EndsInFailures(g, c.Failures());
      } else if EndsInFailures(g, c.Failures()) {
        assert forall i :: |h| - (s.failures + 1) <= i < |h| ==> !g[i] && h[i] == g[i];
        assert EndsInFailures(h, s.failures + 1);
      }
    }
  }

  // ---- cooling down

  function RunFrom(c: Config, s: State, es: seq<Event>): State
    decreases |es|
  {
    if |es| == 0 then s else RunFrom(c, Step(c, s, es[0]), es[1..])
  }

  /** The clock never runs back, starting from t. */
  predicate Monotone(es: seq<Event>, t: int)
    decreases |es|
  {
    |es| > 0 ==> t <= es[0].now && Monotone(es[1..], es[0].now)
  }

  predicate NoReset(es: seq<Event>) {
    forall i :: 0 <= i < |es| ==> !es[i].ResetAll?
  }

  /** Nothing is admitted before the cool-down is over, unless the breaker is reset. */
  lemma {:induction false} NoAdmissionWhileCooling(c: Config, s: State, es: seq<Event>, e: Event)
    requires s.mode == Open && NoReset(es) && Monotone(es + [e], s.openedAt)
    requires Admitted(c, RunFrom(c, s, es), e)
    ensures e.now - s.openedAt >= c.openDurationMs
    decreases |es|
  {
    if |es| > 0 {
      var next := Step(c, s, es[0]);
      assert (es + [e])[1..] == es[1..] + [e];
      if next.mode == Open {
        EarlierMonotone(es[1..] + [e], es[0].now, s.openedAt);
        NoAdmissionWhileCooling(c, next, es[1..], e);
      } else {
        assert es[0].now - s.openedAt >= c.openDurationMs;
        LastIsLatest(es[1..], e, es[0].now);
      }
    }
  }

  lemma EarlierMonotone(es: seq<Event>, t: int, u: int)
    requires Monotone(es, t) && u <= t
    ensures Monotone(es, u)
  {
  }

  lemma {:induction false} LastIsLatest(es: seq<Event>, e: Event, t: int)
    requires Monotone(es + [e], t)
    ensures t <= e.now
    decreases |es|
  {
    if |es| > 0 {
      assert (es + [e])[1..] == es[1..] + [e];
      LastIsLatest(es[1..], e, es[0].now);
    }
  }

  // ---- probing

  function Admissions(c: Config, s: State, es: seq<Event>): nat
    decreases |es|
  {
    if |es| == 0 then 0 else (if Admitted(c, s, es[0]) then 1 else 0) + Admissions(c, Step(c, s, es[0]), es[1..])
  }

  function SuccessCount(es: seq<Event>): nat
    decreases |es|
  {
    if |es| == 0 then 0 else (if es[0].Success? then 1 else 0) + SuccessCount(es[1..])
  }

  /** The run never leaves the half-open mode it is in, and is not reset. */
  predicate StaysHalfOpen(c: Config, s: State, es: seq<Event>)
    decreases |es|
  {
    s.mode == HalfOpen && (|es| > 0 ==> StaysHalfOpen(c, Step(c, s, es[0]), es[1..]))
  }

  /** Every admission takes a probe slot, and only a recorded success gives one back. */
  lemma {:induction false} ProbesAreBounded(c: Config, s: State, es: seq<Event>)
    requires StaysHalfOpen(c, s, es) && s.inFlight <= c.Probes()
    ensures s.inFlight + Admissions(c, s, es) <= c.Probes() + SuccessCount(es)
    ensures RunFrom(c, s, es).successes == s.successes + SuccessCount(es)
    decreases |es|
  {
    if |es| > 0 {
      ProbesAreBounded(c, Step(c, s, es[0]), es[1..]);
    }
  }

  /** In the episode an open breaker's first admission opens, likewise, that one included. */
  lemma EpisodeIsBounded(c: Config, s: State, first: Event, es: seq<Event>)
    requires s.mode == Open && (first.Admit? || first.Query?)
    requires StaysHalfOpen(c, Step(c, s, first), es)
    ensures Admissions(c, s, [first] + es) <= c.Probes() + SuccessCount([first] + es)
  {
    var whole := [first] + es;
    assert whole[1..] == es;
    ProbesAreBounded(c, Step(c, s, first), es);
  }

  predicate NoResult(es: seq<Event>) {
    forall i :: 0 <= i < |es| ==> !es[i].Success? && !es[i].Failure?
  }

  /** With all probes out, nothing is admitted until a result is recorded or a reset, whatever time passes. */
  lemma {:induction false} AllProbesOutStaysShut(c: Config, s: State, es: seq<Event>)
    requires s.mode == HalfOpen && s.inFlight >= c.Probes() && NoResult(es) && NoReset(es)
    ensures Admissions(c, s, es) == 0
    ensures var r := RunFrom(c, s, es); r.mode == HalfOpen && r.inFlight == s.inFlight && r.successes == s.successes
    decreases |es|
  {
    if |es| > 0 {
      AllProbesOutStaysShut(c, Step(c, s, es[0]), es[1..]);
    }
  }

  // ---- counting

  predicate Legal(a: Mode, b: Mode) {
    (a == Closed && b == Open) || (a == Open && b == HalfOpen) || (a == HalfOpen && b == Closed)
        || (a == HalfOpen && b == Open)
  }

  /** Steps that changed the mode, since the statistics were last cleared. */
  function Changes(c: Config, es: seq<Event>): nat {
    if |es| == 0 then 0 else
    var front, e := es[..|es| - 1], es[|es| - 1];
    if e.ClearStats? then 0
    else Changes(c, front) + if Run(c, es).mode != Run(c, front).mode then 1 else 0
  }

  /** state_changes counts exactly the mode changes, each a legal one or a reset to Closed. */
  lemma {:induction false} ChangesAreCounted(c: Config, es: seq<Event>)
    ensures Run(c, es).stats.stateChanges == Changes(c, es)
    ensures |es| > 0 ==>
              var a, b := Run(c, es[..|es| - 1]).mode, Run(c, es).mode;
              a == b || Legal(a, b) || (es[|es| - 1].ResetAll? && b == Closed)
    decreases |es|
  {
    if |es| > 0 {
      ChangesAreCounted(c, es[..|es| - 1]);
    }
  }
}

/** The breaker object: every method is one region under its lock. */
module CircuitBreakerObject {
  import opened BreakerModel

  /** How a protected call ends for its caller; Rethrown is the call's own exception passed on. */
  datatype Outcome = Succeeded | Failed | Rejected | Rethrown

  /** What the protected call did; an exception counts as a failure. */
  datatype CallResult = Returned(ok: bool) | Threw

  datatype Notice = Quiet | Changed(from: Mode, to: Mode)

  class CircuitBreaker {
    const config: Config
    var mode: Mode
    var openedAt: int
    var consecutiveFailures: nat
    var halfOpenInFlight: nat
    var halfOpenSuccesses: nat
    var stats: Stats
    var hasHandler: bool

    function View(): State
      reads this
    {
      State(mode, openedAt, consecutiveFailures, halfOpenInFlight, halfOpenSuccesses, stats)
    }

    constructor (config: Config)
      ensures this.config == config && View() == INITIAL && !hasHandler
    {
      this.config := config;
      mode, openedAt, consecutiveFailures, halfOpenInFlight, halfOpenSuccesses := Closed, 0, 0, 0, 0;
      stats := NO_STATS;
      hasHandler := false;
    }

    method TransitionLocked(to: Mode, now: int)
      modifies this
      ensures View() == Transition(old(View()), to, now) && hasHandler == old(hasHandler)
    {
      if mode == to {
        return;
      }
      mode := to;
      stats := stats.(stateChanges := stats.stateChanges + 1);
      if to == Open {
        openedAt := now;
        halfOpenInFlight := 0;
        halfOpenSuccesses := 0;
        consecutiveFailures := 0;
      } else if to == HalfOpen {
        halfOpenInFlight := 0;
        halfOpenSuccesses := 0;
        consecutiveFailures := 0;
      } else {
        consecutiveFailures := 0;
        halfOpenInFlight := 0;
        halfOpenSuccesses := 0;
      }
    }

    method AdvanceTimeLocked(now: int) returns (moved: bool)
      modifies this
      ensures View() == Advance(config, old(View()), now) && hasHandler == old(hasHandler)
      ensures moved == (mode != old(mode))
    {
      if mode == Open && now - openedAt >= config.openDurationMs {
        TransitionLocked(HalfOpen, now);
        return true;
      }
      return false;
    }

    /** The handler hears of a change exactly when there was one and a handler is set. */
    ghost predicate Noticed(notice: Notice, before: Mode)
      reads this
    {
      notice == if hasHandler && mode != before then Changed(before, mode) else Quiet
    }

    method AllowCall(now: int) returns (allowed: bool, notice: Notice)
      modifies this
      ensures (View(), allowed) == Allow(config, old(View()), now)
      ensures hasHandler == old(hasHandler) && Noticed(notice, old(mode))
    {
      var before := mode;
      notice := Quiet;
      var moved := AdvanceTimeLocked(now);
      if moved && hasHandler {
        notice := Changed(before, mode);
      }
      match mode {
        case Closed =>
          allowed := true;
        case Open =>
          allowed := false;
        case HalfOpen =>
          if halfOpenInFlight < config.Probes() {
            halfOpenInFlight := halfOpenInFlight + 1;
            allowed := true;
          } else {
            allowed := false;
          }
      }
      if allowed {
        stats := stats.(allowed := stats.allowed + 1);
      } else {
        stats := stats.(rejected := stats.rejected + 1);
      }
    }

    method RecordSuccessResult(now: int) returns (notice: Notice)
      modifies this
      ensures View() == RecordSuccess(config, old(View()), now)
      ensures hasHandler == old(hasHandler) && Noticed(notice, old(mode))
    {
      notice := Quiet;
      stats := stats.(successes := stats.successes + 1);
      match mode {
        case Closed =>
          consecutiveFailures := 0;
        case Open =>
        case HalfOpen =>
          if halfOpenInFlight > 0 {
            halfOpenInFlight := halfOpenInFlight - 1;
          }
          halfOpenSuccesses := halfOpenSuccesses + 1;
          if halfOpenSuccesses >= config.Successes() {
            TransitionLocked(Closed, now);
            if hasHandler {
              notice := Changed(HalfOpen, Closed);
            }
          }
      }
    }

    method RecordFailureResult(now: int) returns (notice: Notice)
      modifies this
      ensures View() == RecordFailure(config, old(View()), now)
      ensures hasHandler == old(hasHandler) && Noticed(notice, old(mode))
    {
      notice := Quiet;
      stats := stats.(failures := stats.failures + 1);
      match mode {
        case Closed =>
          consecutiveFailures := consecutiveFailures + 1;
          if consecutiveFailures >= config.Failures() {
            TransitionLocked(Open, now);
            if hasHandler {
              notice := Changed(Closed, Open);
            }
          }
        case Open =>
        case HalfOpen =>
          if halfOpenInFlight > 0 {
            halfOpenInFlight := halfOpenInFlight - 1;
          }
          TransitionLocked(Open, now);
          if hasHandler {
            notice := Changed(HalfOpen, Open);
          }
      }
    }

    /** Runs a protected call: one admission, and one result if it was admitted. */
    method Execute(now: int, result: CallResult, later: int) returns (outcome: Outcome)
      modifies this
      ensures var (s, allowed) := Allow(config, old(View()), now);
              if !allowed then outcome == Rejected && View() == s
              else if result == Returned(true) then outcome == Succeeded && View() == RecordSuccess(config, s, later)
              else outcome == (if result.Threw? then Rethrown else Failed) && View() == RecordFailure(config, s, later)
    {
      var allowed, _ := AllowCall(now);
      if !allowed {
        return Rejected;
      }
      if result == Returned(true) {
        var _ := RecordSuccessResult(later);
        return Succeeded;
      }
      var _ := RecordFailureResult(later);
      return if result.Threw? then Rethrown else Failed;
    }

    method CurrentMode(now: int) returns (m: Mode, notice: Notice)
      modifies this
      ensures View() == Advance(config, old(View()), now) && m == mode
      ensures hasHandler == old(hasHandler) && Noticed(notice, old(mode))
    {
      var before := mode;
      notice := Quiet;
      var moved := AdvanceTimeLocked(now);
      if moved && hasHandler {
        notice := Changed(before, mode);
      }
      m := mode;
    }

    method ResetBreaker(now: int) returns (notice: Notice)
      modifies this
      ensures View() == Reset(old(View()), now)
      ensures hasHandler == old(hasHandler) && Noticed(notice, old(mode))
    {
      notice := Quiet;
      if mode != Closed {
        var from := mode;
        TransitionLocked(Closed, now);
        if hasHandler {
          notice := Changed(from, Closed);
        }
      } else {
        consecutiveFailures := 0;
        halfOpenInFlight := 0;
        halfOpenSuccesses := 0;
      }
    }

    method ResetStatistics()
      modifies this
      ensures View() == ResetStats(old(View())) && hasHandler == old(hasHandler)
    {
      stats := NO_STATS;
    }
  }
}
