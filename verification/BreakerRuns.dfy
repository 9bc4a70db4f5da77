/** The breaker over whole runs, by what happened and when, without its counters. */
module BreakerRuns {
  import opened BreakerModel

  /** A configured number that makes no sense counts as 1. */
  predicate Means(configured: int, n: nat) {
    n >= 1 && (configured >= 1 ==> n == configured) && (configured < 1 ==> n == 1)
  }

  // ---- when it opened, and how it got through

  /** When the breaker last opened. */
  function OpenSince(c: Config, es: seq<Event>): int {
    if |es| == 0 then 0 else
    var front, e := es[..|es| - 1], es[|es| - 1];
    if Run(c, es).mode == Open && Run(c, front).mode != Open then e.now else OpenSince(c, front)
  }

  /** The results of the present half-open episode. */
  function Probed(c: Config, es: seq<Event>): nat {
    if |es| == 0 then 0 else
    var front, e := es[..|es| - 1], es[|es| - 1];
    if Run(c, front).mode != HalfOpen then 0 else Probed(c, front) + if e.Success? then 1 else 0
  }

  /** Probes of the present half-open episode that are out: let through, and no result yet. */
  function Out(c: Config, es: seq<Event>): nat {
    if |es| == 0 then 0 else
    var front, e := es[..|es| - 1], es[|es| - 1];
    var before := if Run(c, front).mode == HalfOpen then Out(c, front) else 0;
    if Run(c, es).mode != HalfOpen then 0
    else if Admitted(c, Run(c, front), e) then before + 1
    else if e.Success? && before > 0 then before - 1
    else before
  }

  lemma {:induction false} CountersAgree(c: Config, es: seq<Event>)
    ensures var s := Run(c, es);
            && (s.mode == Open ==> s.openedAt == OpenSince(c, es))
            && (s.mode == HalfOpen ==> s.successes == Probed(c, es) && s.inFlight == Out(c, es))
    decreases |es|
  {
    if |es| > 0 {
      CountersAgree(c, es[..|es| - 1]);
    }
  }

  /**
   A call is let through exactly if the breaker is closed, or has been open for the cool-down,
   or is half-open with fewer probes out than it may have.
   */
  lemma AdmittedIff(c: Config, es: seq<Event>, now: int, probes: nat)
    requires Means(c.halfOpenMaxCalls, probes)
    ensures Admitted(c, Run(c, es), Admit(now)) <==>
            match Run(c, es).mode
            case Closed => true
            case Open => now - OpenSince(c, es) >= c.openDurationMs
            case HalfOpen => Out(c, es) < probes
  {
    CountersAgree(c, es);
  }

  /**
   Where the breaker goes: half-open at the first question after the cool-down; from there back
   open at any failure, and closed at the success that makes up the number; from closed to open
   when the latest results, as many as configured, are failures; and closed at a reset.
   */
  lemma NextMode(c: Config, es: seq<Event>, e: Event, failures: nat, successes: nat)
    requires Means(c.failureThreshold, failures) && Means(c.successThreshold, successes)
    ensures var now := Run(c, es + [e]).mode;
            if e.ResetAll? then now == Closed else
            match Run(c, es).mode
            case Closed =>
              now == (if e.Failure? && EndsInFailures(History(c, es) + [false], failures) then Open else Closed)
            case Open =>
              now == (if (e.Admit? || e.Query?) && e.now - OpenSince(c, es) >= c.openDurationMs then HalfOpen else Open)
            case HalfOpen =>
              now == (if e.Failure? then Open
                      else if e.Success? && Probed(c, es) + 1 >= successes then Closed else HalfOpen)
  {
    hide EndsInFailures, History;
    assert (es + [e])[..|es|] == es;
    CountersAgree(c, es);
    if Run(c, es).mode == Closed {
      TripsIff(c, es, e);
    }
  }

  // ---- statistics

  function Count(c: Config, es: seq<Event>, what: (Config, seq<Event>, Event) -> bool): nat {
    if |es| == 0 then 0 else
    var front, e := es[..|es| - 1], es[|es| - 1];
    if e.ClearStats? then 0 else Count(c, front, what) + if what(c, front, e) then 1 else 0
  }

  function LetThrough(c: Config, front: seq<Event>, e: Event): bool {
    Admitted(c, Run(c, front), e)
  }

  function Refused(c: Config, front: seq<Event>, e: Event): bool {
    e.Admit? && !Admitted(c, Run(c, front), e)
  }

  function Succeeded(c: Config, front: seq<Event>, e: Event): bool {
    e.Success?
  }

  function Failed(c: Config, front: seq<Event>, e: Event): bool {
    e.Failure?
  }

  /** The statistics count calls let through and refused, and results of both kinds, since they were cleared. */
  lemma {:induction false} StatisticsCount(c: Config, es: seq<Event>)
    ensures var n := Run(c, es).stats;
            && n.allowed == Count(c, es, LetThrough) && n.rejected == Count(c, es, Refused)
            && n.successes == Count(c, es, Succeeded) && n.failures == Count(c, es, Failed)
    decreases |es|
  {
    if |es| > 0 {
      StatisticsCount(c, es[..|es| - 1]);
    }
  }
}
