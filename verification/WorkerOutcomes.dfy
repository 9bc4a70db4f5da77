/** What a run of the worker pool ends with: the reported outcomes, the calls made, and why it was stopped. */
module WorkerOutcomes {
  import opened WorkerPool

  // ---- outcomes

  /** What a suite's run reported, and whether a callback was in force at that moment. */
  datatype Report = Report(outcome: SuiteState, heard: bool)

  /** In this step a worker runs suite i, and this is what it reports. */
  function Reported(s: State, e: Event, i: nat, heard: bool): seq<Report> {
    if e.Work? && e.w < |s.workers| && s.workers[e.w] == Executing(i) then [Report(e.outcome, heard)] else []
  }

  /** Is a callback in force after this event? */
  function HeardAfter(e: Event, heard: bool): bool {
    if e.SetCallback? then e.present else heard
  }

  /** All reports of suite i in a run that begins with a callback in force or not, in order. */
  ghost function Reports(s: State, events: seq<Event>, i: nat, heard: bool): seq<Report>
    requires Inv(s) && Legal(events, |s.workers|)
    decreases |events|
  {
    if |events| == 0 then []
    else
      InvInRange(s);
      StepKeeps(s, events[0]);
      StepShape(s, events[0]);
      Reported(s, events[0], i, heard) + Reports(Step(s, events[0]), events[1..], i, HeardAfter(events[0], heard))
  }

  /** An entry without an outcome gets the one reported in the step, and one with an outcome keeps it. */
  lemma StepReports(s: State, e: Event, i: nat)
    requires Inv(s) && Possible(s, e) && i < |s.suites|
    ensures var (x, y, reports) := (s.suites[i], Step(s, e).suites[i], Reported(s, e, i, s.hasCallback));
            if Finished(x.state) then reports == [] && y.state == x.state && y.armed == x.armed
            else if reports == [] then !Finished(y.state)
            else Finished(y.state) && reports == [Report(y.state, y.armed)]
    ensures Step(s, e).hasCallback == HeardAfter(e, s.hasCallback)
  {
    hide FreesOk, ClaimsOk, Apart;
    if e.Work? && Busy(s.workers[e.w]) {
      assert WorkerOk(s, e.w);
    }
  }

  lemma {:induction false} RunReports(s: State, events: seq<Event>, i: nat)
    requires Inv(s) && Legal(events, |s.workers|) && i < |s.suites|
    ensures var (x, y, reports) := (s.suites[i], Run(s, events).suites[i], Reports(s, events, i, s.hasCallback));
            if Finished(x.state) then reports == [] && y.state == x.state && y.armed == x.armed
            else reports == if Finished(y.state) then [Report(y.state, y.armed)] else []
    decreases |events|
  {
    hide Inv, Step, Reported, HeardAfter;
    if |events| > 0 {
      InvInRange(s);
      StepKeeps(s, events[0]);
      StepShape(s, events[0]);
      StepReports(s, events[0], i);
      RunReports(Step(s, events[0]), events[1..], i);
    }
  }

  /**
   In any interleaving, a suite that reported did so once, and its entry ends with the outcome
   it reported, and with a call made exactly if a callback was in force then; the others were
   skipped, which needs the stop flag, or not selected.
   */
  lemma OutcomesAreReported(picks: seq<string>, ids: seq<string>, asked: int, keepGoing: bool, hasCallback: bool,
                            events: seq<Event>, i: nat)
    requires Chosen(picks, ids) > 0 && Legal(events, Jobs(asked, Chosen(picks, ids))) && i < |ids|
    requires Over(Run(Started(picks, ids, asked, keepGoing, hasCallback), events))
    ensures var s := Started(picks, ids, asked, keepGoing, hasCallback);
            var x := Run(s, events).suites[i];
            var reports := Reports(s, events, i, hasCallback);
            var wanted := |picks| == 0 || ids[i] in picks;
            if |reports| == 0 then x.state == (if wanted then NotRun else Pending) && x.fired == 0
            else
              && |reports| == 1 && wanted && x.state == reports[0].outcome
              && x.fired == if reports[0].heard then 1 else 0
  {
    hide Run;
    var s := Started(picks, ids, asked, keepGoing, hasCallback);
    RunAccountsForEverySuite(picks, ids, asked, keepGoing, hasCallback, events);
    RunReports(s, events, i);
  }

  // ---- why the stop flag is up

  predicate Bad(r: SuiteState) {
    r == Failed || r == Crashed
  }

  /** A worker has stored suite i's outcome and has not yet looked whether to stop. */
  ghost predicate Undecided(s: State, i: nat) {
    exists w :: 0 <= w < |s.workers| && s.workers[w].Stopping? && s.workers[w].index == i
  }

  ghost predicate AnyBad(s: State) {
    exists i :: 0 <= i < |s.suites| && Bad(s.suites[i].state)
  }

  ghost predicate Caused(s: State, requested: bool) {
    && (s.stop ==> requested || (!s.keepGoing && AnyBad(s)))
    && (requested ==> s.stop)
    && (!s.keepGoing && !s.stop ==> forall i :: 0 <= i < |s.suites| && Bad(s.suites[i].state) ==> Undecided(s, i))
  }

  lemma StaysBad(s: State, e: Event, i: nat)
    requires Inv(s) && Possible(s, e) && i < |s.suites| && Finished(s.suites[i].state)
    ensures Step(s, e).suites[i].state == s.suites[i].state
  {
    StepReports(s, e, i);
  }

  lemma StepCauses(s: State, e: Event, requested: bool)
    requires Inv(s) && Possible(s, e) && Caused(s, requested)
    ensures Caused(Step(s, e), requested || e.RequestStop?) && Step(s, e).keepGoing == s.keepGoing
  {
    hide FreesOk, ClaimsOk, Apart;
    var t := Step(s, e);
    if e.Work? && Busy(s.workers[e.w]) {
      assert WorkerOk(s, e.w);
    }
    forall i | 0 <= i < |s.suites| && Bad(s.suites[i].state)
      ensures Bad(t.suites[i].state)
    {
      StaysBad(s, e, i);
    }
    if !t.keepGoing && !t.stop {
      forall i | 0 <= i < |t.suites| && Bad(t.suites[i].state)
        ensures Undecided(t, i)
      {
        StepReports(s, e, i);
        if Bad(s.suites[i].state) {
          var w :| 0 <= w < |s.workers| && s.workers[w].Stopping? && s.workers[w].index == i;
          assert WorkerOk(s, w);
          assert t.workers[w] == s.workers[w];
        } else {
          assert t.workers[e.w].Stopping? && t.workers[e.w].index == i;
        }
      }
    }
  }

  ghost predicate Requested(events: seq<Event>) {
    exists k :: 0 <= k < |events| && events[k].RequestStop?
  }

  lemma {:induction false} RunCauses(s: State, events: seq<Event>, requested: bool)
    requires Inv(s) && Legal(events, |s.workers|) && Caused(s, requested)
    ensures Caused(Run(s, events), requested || Requested(events)) && Run(s, events).keepGoing == s.keepGoing
    decreases |events|
  {
    hide Inv, Step, Caused;
    if |events| > 0 {
      InvInRange(s);
      StepKeeps(s, events[0]);
      StepShape(s, events[0]);
      StepCauses(s, events[0], requested);
      RunCauses(Step(s, events[0]), events[1..], requested || events[0].RequestStop?);
      assert Requested(events) <==> events[0].RequestStop? || Requested(events[1..]) by {
        assert forall k :: 1 <= k < |events| ==> events[1..][k - 1] == events[k];
      }
    }
  }

  /**
   When all workers have left, the stop flag is up exactly if somebody asked to stop, or some
   suite failed or crashed in a run that was not told to keep going.
   */
  lemma StoppedIff(picks: seq<string>, ids: seq<string>, asked: int, keepGoing: bool, hasCallback: bool,
                   events: seq<Event>)
    requires Chosen(picks, ids) > 0 && Legal(events, Jobs(asked, Chosen(picks, ids)))
    requires Over(Run(Started(picks, ids, asked, keepGoing, hasCallback), events))
    ensures var t := Run(Started(picks, ids, asked, keepGoing, hasCallback), events);
            t.stop <==> Requested(events) || (!keepGoing && AnyBad(t))
  {
    hide Run, Wanted;
    RunCauses(Started(picks, ids, asked, keepGoing, hasCallback), events, false);
  }
}
