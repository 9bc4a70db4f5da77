/**
 The test runner's worker pool. Workers interleave freely; each atomic operation or locked
 region of the worker loop is one step of one worker.
 */
module WorkerPool {
  datatype SuiteState = Pending | Running | Passed | Failed | Crashed | NotRun

  predicate Finished(r: SuiteState) {
    r == Passed || r == Failed || r == Crashed
  }

  /** What running a suite can report. */
  type Outcome = r: SuiteState | Finished(r) witness Passed

  /**
   One suite's entry. The last four fields are history: how often the index was claimed and
   the suite started, whether a callback was in force when its result was stored, and how
   often one was called for it.
   */
  datatype Suite = Suite(selected: bool, state: SuiteState, claims: nat, starts: nat, armed: bool, fired: nat)

  /** Where a worker is in its loop, with the suite index it has claimed. */
  datatype Pc =
    | Claiming
    | Looking(index: nat)
    | Checking(index: nat)
    | Skipping(index: nat)
    | Starting(index: nat)
    | Executing(index: nat)
    | Stopping(index: nat, result: Outcome, armed: bool)
    | Calling(index: nat, result: Outcome, armed: bool)
    | Gone

  datatype State = State(
    suites: seq<Suite>,
    next: nat,
    stop: bool,
    keepGoing: bool,
    hasCallback: bool,
    workers: seq<Pc>)

  datatype Event =
    | Work(w: nat, outcome: Outcome)
    | RequestStop
    | SetCallback(present: bool)

  /** Workers past their check and about to start. */
  function AboutToStart(workers: seq<Pc>): set<nat> {
    set w: nat | 0 <= w < |workers| && workers[w].Starting?
  }

  predicate Busy(pc: Pc) {
    !pc.Claiming? && !pc.Gone?
  }

  /** One step on the suite in hand: where the worker goes and what it leaves in the entry. */
  function Advance(pc: Pc, x: Suite, stop: bool, hasCallback: bool, outcome: Outcome): (Pc, Suite)
    requires Busy(pc)
  {
    match pc
    case Looking(i) => (if x.selected then Checking(i) else Claiming, x)
    case Checking(i) => (if stop then Skipping(i) else Starting(i), x)
    case Skipping(i) => (Claiming, x.(state := NotRun))
    case Starting(i) => (Executing(i), x.(state := Running, starts := x.starts + 1))
    case Executing(i) => (Stopping(i, outcome, hasCallback), x.(state := outcome, armed := hasCallback))
    case Stopping(i, r, armed) => (Calling(i, r, armed), x)
    case Calling(i, r, armed) => (Claiming, if armed then x.(fired := x.fired + 1) else x)
  }

  /** A failure raises the stop flag unless the run keeps going; storing true again changes nothing. */
  predicate StopAfter(s: State, pc: Pc) {
    s.stop || (pc.Stopping? && (pc.result == Failed || pc.result == Crashed) && !s.keepGoing)
  }

  /** Taking the next index, or leaving when there is none; the counter moves either way. */
  function Claim(s: State, w: nat): State
    requires w < |s.workers|
  {
    if s.next < |s.suites| then
      s.(next := s.next + 1, workers := s.workers[w := Looking(s.next)],
         suites := s.suites[s.next := s.suites[s.next].(claims := s.suites[s.next].claims + 1)])
    else
      s.(next := s.next + 1, workers := s.workers[w := Gone])
  }

  function Handle(s: State, w: nat, outcome: Outcome): State
    requires w < |s.workers| && Busy(s.workers[w]) && s.workers[w].index < |s.suites|
  {
    var pc := s.workers[w];
    var next := Advance(pc, s.suites[pc.index], s.stop, s.hasCallback, outcome);
    s.(workers := s.workers[w := next.0], suites := s.suites[pc.index := next.1], stop := StopAfter(s, pc))
  }

  /** Every worker stands at an index of the table, if at any. */
  predicate InRange(s: State) {
    forall w :: 0 <= w < |s.workers| && Busy(s.workers[w]) ==> s.workers[w].index < |s.suites|
  }

  predicate Possible(s: State, e: Event) {
    InRange(s) && (e.Work? ==> e.w < |s.workers|)
  }

  function Step(s: State, e: Event): State
    requires Possible(s, e)
  {
    match e
    case Work(w, outcome) =>
      if s.workers[w].Claiming? then Claim(s, w)
      else if s.workers[w].Gone? then s
      else Handle(s, w, outcome)
    case RequestStop => s.(stop := true)
    case SetCallback(present) => s.(hasCallback := present)
  }

  // ---- what every step keeps

  predicate Untouched(x: Suite) {
    x.state == Pending && x.starts == 0 && !x.armed && x.fired == 0
  }

  /** What the entry says while a worker has it in hand. */
  predicate Held(pc: Pc, x: Suite, stop: bool)
    requires Busy(pc)
  {
    match pc
    case Looking(_) => Untouched(x)
    case Checking(_) => x.selected && Untouched(x)
    case Skipping(_) => x.selected && Untouched(x) && stop
    case Starting(_) => x.selected && Untouched(x)
    case Executing(_) => x.selected && x.state == Running && x.starts == 1 && !x.armed && x.fired == 0
    case Stopping(_, r, armed) => x.selected && x.state == r && x.starts == 1 && x.armed == armed && x.fired == 0
    case Calling(_, r, armed) => x.selected && x.state == r && x.starts == 1 && x.armed == armed && x.fired == 0
  }

  /** What the entry says once a worker is done with it. */
  predicate Done(x: Suite, stop: bool) {
    if !x.selected then Untouched(x)
    else if x.state == NotRun then stop && x.starts == 0 && !x.armed && x.fired == 0
    else Finished(x.state) && x.starts == 1 && x.fired == if x.armed then 1 else 0
  }

  predicate WorkerOk(s: State, w: nat)
    requires w < |s.workers|
  {
    var pc := s.workers[w];
    if Busy(pc) then pc.index < |s.suites| && pc.index < s.next && Held(pc, s.suites[pc.index], s.stop)
    else pc.Gone? ==> |s.suites| <= s.next
  }

  predicate Holds(pc: Pc, i: nat) {
    Busy(pc) && pc.index == i
  }

  ghost predicate Free(workers: seq<Pc>, i: nat) {
    forall w :: 0 <= w < |workers| ==> !Holds(workers[w], i)
  }

  predicate FreeOk(x: Suite, claimed: bool, stop: bool) {
    if claimed then Done(x, stop) else Untouched(x)
  }

  ghost predicate ClaimsOk(s: State) {
    forall i :: 0 <= i < |s.suites| ==> s.suites[i].claims == if i < s.next then 1 else 0
  }

  ghost predicate WorkersOk(s: State) {
    forall w :: 0 <= w < |s.workers| ==> WorkerOk(s, w)
  }

  ghost predicate Apart(workers: seq<Pc>) {
    forall v, w :: 0 <= v < |workers| && 0 <= w < |workers| && v != w && Busy(workers[v]) && Busy(workers[w]) ==>
      workers[v].index != workers[w].index
  }

  ghost predicate FreesOk(s: State) {
    forall i :: 0 <= i < |s.suites| && Free(s.workers, i) ==> FreeOk(s.suites[i], i < s.next, s.stop)
  }

  ghost predicate Inv(s: State) {
    ClaimsOk(s) && WorkersOk(s) && Apart(s.workers) && FreesOk(s)
  }

  // One worker's step

  lemma AdvanceKeeps(pc: Pc, x: Suite, stop: bool, hasCallback: bool, outcome: Outcome)
    requires Busy(pc) && Held(pc, x, stop)
    ensures var (after, y) := Advance(pc, x, stop, hasCallback, outcome);
            && y.claims == x.claims
            && (after.Starting? ==> !stop)
            && (pc.Starting? ==> !after.Starting?)
            && (if Busy(after) then after.index == pc.index && Held(after, y, stop)
                else after.Claiming? && Done(y, stop))
  {
  }

  lemma HeldLater(pc: Pc, x: Suite, stop: bool, later: bool)
    requires Busy(pc) && Held(pc, x, stop) && (stop ==> later)
    ensures Held(pc, x, later)
  {
  }

  lemma DoneLater(x: Suite, stop: bool, later: bool)
    requires Done(x, stop) && (stop ==> later)
    ensures Done(x, later)
  {
  }

  lemma ClaimHeld(x: Suite, i: nat, claims: nat, stop: bool)
    requires Untouched(x)
    ensures Held(Looking(i), x.(claims := claims), stop)
  {
  }

  /** The next index is nobody's, so its entry is as the run's start left it. */
  lemma NextIsUntouched(s: State)
    requires Inv(s) && s.next < |s.suites|
    ensures Untouched(s.suites[s.next])
  {
    hide Held, Done, Untouched;
    assert Free(s.workers, s.next) by {
      forall v | 0 <= v < |s.workers|
        ensures !Holds(s.workers[v], s.next)
      {
        assert WorkerOk(s, v);
      }
    }
    assert FreeOk(s.suites[s.next], false, s.stop);
  }

  lemma ClaimKeepsWorkers(s: State, w: nat)
    requires Inv(s) && w < |s.workers| && s.workers[w].Claiming?
    ensures WorkersOk(Claim(s, w)) && Apart(Claim(s, w).workers)
  {
    hide Held, Done, Untouched;
    var t := Claim(s, w);
    if s.next < |s.suites| {
      NextIsUntouched(s);
      ClaimHeld(s.suites[s.next], s.next, s.suites[s.next].claims + 1, s.stop);
    }
    forall v | 0 <= v < |t.workers|
      ensures WorkerOk(t, v)
    {
      assert WorkerOk(s, v);
    }
    forall u, v | 0 <= u < |t.workers| && 0 <= v < |t.workers| && u != v && Busy(t.workers[u]) && Busy(t.workers[v])
      ensures t.workers[u].index != t.workers[v].index
    {
      assert WorkerOk(s, u) && WorkerOk(s, v);
    }
  }

  lemma ClaimKeeps(s: State, w: nat)
    requires Inv(s) && w < |s.workers| && s.workers[w].Claiming?
    ensures Inv(Claim(s, w))
  {
    hide Held, Done, Untouched, WorkersOk;
    var t := Claim(s, w);
    ClaimKeepsWorkers(s, w);
    forall i | 0 <= i < |t.suites| && Free(t.workers, i)
      ensures FreeOk(t.suites[i], i < t.next, t.stop)
    {
      assert !Holds(t.workers[w], i);
      forall v | 0 <= v < |s.workers|
        ensures !Holds(s.workers[v], i)
      {
        assert !Holds(t.workers[v], i);
      }
      assert FreeOk(s.suites[i], i < s.next, s.stop);
    }
  }

  /** What a handled step changes, and what the changed parts satisfy. */
  lemma HandleAt(s: State, w: nat, outcome: Outcome)
    requires Inv(s) && w < |s.workers| && Busy(s.workers[w])
    ensures s.workers[w].index < |s.suites| && s.workers[w].index < s.next
    ensures var (t, i) := (Handle(s, w, outcome), s.workers[w].index);
            && t.next == s.next && (s.stop ==> t.stop)
            && |t.suites| == |s.suites| && t.suites[i].claims == s.suites[i].claims
            && t.suites == s.suites[i := t.suites[i]] && t.workers == s.workers[w := t.workers[w]]
            && (if Busy(t.workers[w]) then t.workers[w].index == i && Held(t.workers[w], t.suites[i], t.stop)
                else t.workers[w].Claiming? && Done(t.suites[i], t.stop))
  {
    hide FreesOk, ClaimsOk, Apart, Held, Done, Untouched, Advance;
    assert WorkerOk(s, w);
    var pc, x := s.workers[w], s.suites[s.workers[w].index];
    var t := Handle(s, w, outcome);
    AdvanceKeeps(pc, x, s.stop, s.hasCallback, outcome);
    if Busy(t.workers[w]) {
      HeldLater(t.workers[w], t.suites[pc.index], s.stop, t.stop);
    } else {
      DoneLater(t.suites[pc.index], s.stop, t.stop);
    }
  }

  lemma HandleKeeps(s: State, w: nat, outcome: Outcome)
    requires Inv(s) && InRange(s) && w < |s.workers| && Busy(s.workers[w])
    ensures Inv(Handle(s, w, outcome))
  {
    hide Handle, Held, Done, Untouched;
    HandleAt(s, w, outcome);
    var t, at := Handle(s, w, outcome), s.workers[w].index;
    forall v | 0 <= v < |t.workers|
      ensures WorkerOk(t, v)
    {
      assert WorkerOk(s, v);
      if v != w && Busy(s.workers[v]) {
        HeldLater(s.workers[v], s.suites[s.workers[v].index], s.stop, t.stop);
      }
    }
    forall i | 0 <= i < |t.suites| && Free(t.workers, i)
      ensures FreeOk(t.suites[i], i < t.next, t.stop)
    {
      if i != at {
        forall v | 0 <= v < |s.workers|
          ensures !Holds(s.workers[v], i)
        {
          assert !Holds(t.workers[v], i);
        }
        assert FreeOk(s.suites[i], i < s.next, s.stop);
        if i < s.next {
          DoneLater(s.suites[i], s.stop, t.stop);
        }
      } else {
        assert !Holds(t.workers[w], i);
      }
    }
  }

  lemma RaiseKeeps(s: State)
    requires Inv(s)
    ensures Inv(s.(stop := true))
  {
    hide Held, Done, Untouched;
    var t := s.(stop := true);
    forall v | 0 <= v < |t.workers|
      ensures WorkerOk(t, v)
    {
      assert WorkerOk(s, v);
      if Busy(s.workers[v]) {
        HeldLater(s.workers[v], s.suites[s.workers[v].index], s.stop, true);
      }
    }
    forall i | 0 <= i < |t.suites| && Free(t.workers, i)
      ensures FreeOk(t.suites[i], i < t.next, t.stop)
    {
      assert FreeOk(s.suites[i], i < s.next, s.stop);
      if i < s.next {
        DoneLater(s.suites[i], s.stop, true);
      }
    }
  }

  lemma InvInRange(s: State)
    requires Inv(s)
    ensures InRange(s)
  {
    forall w | 0 <= w < |s.workers| && Busy(s.workers[w])
      ensures s.workers[w].index < |s.suites|
    {
      assert WorkerOk(s, w);
    }
  }

  /** Whatever worker moves, and whoever asks to stop or changes the callback, the invariant survives. */
  lemma StepKeeps(s: State, e: Event)
    requires Inv(s) && Possible(s, e)
    ensures Inv(Step(s, e)) && InRange(Step(s, e))
  {
    hide Claim, Handle, ClaimsOk, FreesOk, WorkersOk, Apart, InRange;
    if e.Work? {
      if s.workers[e.w].Claiming? {
        ClaimKeeps(s, e.w);
      } else if Busy(s.workers[e.w]) {
        HandleKeeps(s, e.w, e.outcome);
      }
    } else if e.RequestStop? {
      RaiseKeeps(s);
    } else {
      CallbackKeeps(s, e.present);
    }
    InvInRange(Step(s, e));
  }

  lemma CallbackKeeps(s: State, present: bool)
    requires Inv(s)
    ensures Inv(s.(hasCallback := present))
  {
    hide Held, Done, Untouched;
    var t := s.(hasCallback := present);
    forall v | 0 <= v < |t.workers|
      ensures WorkerOk(t, v)
    {
      assert WorkerOk(s, v);
    }
  }

  // ---- whole runs

  ghost predicate Legal(events: seq<Event>, workers: nat) {
    forall k :: 0 <= k < |events| && events[k].Work? ==> events[k].w < workers
  }

  lemma StepShape(s: State, e: Event)
    requires Possible(s, e)
    ensures |Step(s, e).workers| == |s.workers| && |Step(s, e).suites| == |s.suites|
    ensures forall i :: 0 <= i < |s.suites| ==> Step(s, e).suites[i].selected == s.suites[i].selected
    ensures s.stop ==> Step(s, e).stop
  {
  }

  /** Any interleaving of worker steps, stop requests and callback changes. */
  ghost function Run(s: State, events: seq<Event>): (t: State)
    requires Inv(s) && Legal(events, |s.workers|)
    ensures Inv(t) && |t.workers| == |s.workers| && |t.suites| == |s.suites|
    ensures forall i :: 0 <= i < |s.suites| ==> t.suites[i].selected == s.suites[i].selected
    decreases |events|
  {
    if |events| == 0 then s
    else
      InvInRange(s);
      StepKeeps(s, events[0]);
      StepShape(s, events[0]);
      Run(Step(s, events[0]), events[1..])
  }

  // Starting a run

  predicate Wanted(picks: seq<string>, id: string) {
    |picks| == 0 || id in picks
  }

  function Chosen(picks: seq<string>, ids: seq<string>): nat {
    if |ids| == 0 then 0
    else Chosen(picks, ids[..|ids| - 1]) + if Wanted(picks, ids[|ids| - 1]) then 1 else 0
  }

  /** How many workers a run gets: at least one, at most one for each chosen suite. */
  function Jobs(asked: int, chosen: nat): nat {
    var jobs := if asked < 1 then 1 else asked;
    if jobs > chosen then chosen else jobs
  }

  /** As many as asked for and of use, one at least asked for. */
  lemma JobsIff(asked: int, chosen: nat, j: nat)
    ensures j <= Jobs(asked, chosen) <==> j <= chosen && (j <= 1 || j <= asked)
  {
  }

  /**
   The state in which a run starts: the chosen suites marked, every entry fresh, the workers
   at the top of their loop.
   */
  function Started(picks: seq<string>, ids: seq<string>, asked: int, keepGoing: bool, hasCallback: bool): (s: State)
    ensures Inv(s)
  {
    State(seq(|ids|, i requires 0 <= i < |ids| => Suite(Wanted(picks, ids[i]), Pending, 0, 0, false, 0)),
          0, false, keepGoing, hasCallback, seq(Jobs(asked, Chosen(picks, ids)), _ => Claiming))
  }

  /** Every worker has left its loop. */
  predicate Over(s: State) {
    |s.workers| > 0 && forall w :: 0 <= w < |s.workers| ==> s.workers[w].Gone?
  }

  /**
   When all workers have left, whatever the interleaving: every index was claimed exactly
   once; a suite not selected was never touched; a selected one either ran exactly once and
   has its outcome, or was skipped, which needs the stop flag; and the callback was called
   once for each suite that ran while one was in force, never otherwise.
   */
  lemma RunAccountsForEverySuite(picks: seq<string>, ids: seq<string>, asked: int, keepGoing: bool, hasCallback: bool,
                                 events: seq<Event>)
    requires Chosen(picks, ids) > 0 && Legal(events, Jobs(asked, Chosen(picks, ids)))
    requires Over(Run(Started(picks, ids, asked, keepGoing, hasCallback), events))
    ensures var t := Run(Started(picks, ids, asked, keepGoing, hasCallback), events);
            |t.suites| == |ids| &&
            forall i :: 0 <= i < |ids| ==>
              && t.suites[i].claims == 1
              && t.suites[i].selected == Wanted(picks, ids[i])
              && Done(t.suites[i], t.stop)
  {
    var s := Started(picks, ids, asked, keepGoing, hasCallback);
    var t := Run(s, events);
    assert WorkerOk(t, 0);
    forall i | 0 <= i < |ids|
      ensures t.suites[i].claims == 1 && t.suites[i].selected == Wanted(picks, ids[i]) && Done(t.suites[i], t.stop)
    {
      assert s.suites[i].selected == Wanted(picks, ids[i]);
      assert Free(t.workers, i);
      assert FreeOk(t.suites[i], i < t.next, t.stop);
    }
  }

  // After the stop flag is up

  function Starts(suites: seq<Suite>): nat {
    if |suites| == 0 then 0 else Starts(suites[..|suites| - 1]) + suites[|suites| - 1].starts
  }

  lemma {:induction false} StartsUpdate(suites: seq<Suite>, i: nat, x: Suite)
    requires i < |suites|
    ensures Starts(suites[i := x]) == Starts(suites) - suites[i].starts + x.starts
  {
    var n := |suites| - 1;
    if i == n {
      assert suites[i := x][..n] == suites[..n];
    } else {
      StartsUpdate(suites[..n], i, x);
      assert suites[i := x][..n] == suites[..n][i := x];
    }
  }

  lemma ClaimStartsNothing(s: State, w: nat)
    requires w < |s.workers| && s.workers[w].Claiming?
    ensures AboutToStart(Claim(s, w).workers) == AboutToStart(s.workers)
    ensures Starts(Claim(s, w).suites) == Starts(s.suites)
  {
    hide Starts;
    if s.next < |s.suites| {
      StartsUpdate(s.suites, s.next, Claim(s, w).suites[s.next]);
    }
  }

  lemma AdvanceStarts(pc: Pc, x: Suite, hasCallback: bool, outcome: Outcome)
    requires Busy(pc)
    ensures var (after, y) := Advance(pc, x, true, hasCallback, outcome);
            !after.Starting? && y.starts == x.starts + if pc.Starting? then 1 else 0
  {
  }

  lemma HandleStarts(s: State, w: nat, outcome: Outcome)
    requires InRange(s) && s.stop && w < |s.workers| && Busy(s.workers[w])
    ensures var t := Handle(s, w, outcome);
            && AboutToStart(t.workers) <= AboutToStart(s.workers)
            && Starts(t.suites) + |AboutToStart(t.workers)| == Starts(s.suites) + |AboutToStart(s.workers)|
  {
    hide Starts, Advance;
    var t, i := Handle(s, w, outcome), s.workers[w].index;
    AdvanceStarts(s.workers[w], s.suites[i], s.hasCallback, outcome);
    StartsUpdate(s.suites, i, t.suites[i]);
    if s.workers[w].Starting? {
      assert w in AboutToStart(s.workers);
      assert AboutToStart(t.workers) == AboutToStart(s.workers) - {w};
    } else {
      assert AboutToStart(t.workers) == AboutToStart(s.workers);
    }
  }

  /** With the flag up, a step starts a suite only by using up a worker that was about to start. */
  lemma StartUsesAWorker(s: State, e: Event)
    requires Possible(s, e) && s.stop
    ensures var t := Step(s, e);
            && AboutToStart(t.workers) <= AboutToStart(s.workers)
            && Starts(t.suites) + |AboutToStart(t.workers)| == Starts(s.suites) + |AboutToStart(s.workers)|
  {
    hide Starts, AboutToStart, Handle, Claim;
    if e.Work? && s.workers[e.w].Claiming? {
      ClaimStartsNothing(s, e.w);
    } else if e.Work? && Busy(s.workers[e.w]) {
      HandleStarts(s, e.w, e.outcome);
    }
  }

  /** From any moment after the flag went up, at most as many suites start as workers were past their check then. */
  lemma {:induction false} StartsAfterStop(s: State, events: seq<Event>)
    requires Inv(s) && s.stop && Legal(events, |s.workers|)
    ensures Starts(Run(s, events).suites) <= Starts(s.suites) + |AboutToStart(s.workers)|
    decreases |events|
  {
    hide Starts, AboutToStart, Step;
    if |events| > 0 {
      InvInRange(s);
      StepKeeps(s, events[0]);
      StepShape(s, events[0]);
      StartUsesAWorker(s, events[0]);
      StartsAfterStop(Step(s, events[0]), events[1..]);
    }
  }

  lemma {:induction false} SmallSet(x: set<nat>, n: nat)
    requires forall i :: i in x ==> i < n
    ensures |x| <= n
    decreases n
  {
    if n > 0 {
      SmallSet(x - {n - 1}, n - 1);
    } else {
      assert x == {};
    }
  }

  /**
   The step that raises the flag leaves at most as many suites still to start as there are
   workers, and one fewer when a failing worker raised it.
   */
  lemma LateStartsAreFew(s: State, e: Event, events: seq<Event>)
    requires Inv(s) && Possible(s, e) && !s.stop && Step(s, e).stop
    requires Inv(Step(s, e)) && Legal(events, |Step(s, e).workers|)
    ensures Starts(Run(Step(s, e), events).suites) <= Starts(s.suites) + |s.workers| - if e.Work? then 1 else 0
  {
    hide Starts, Run;
    var t := Step(s, e);
    StepShape(s, e);
    StartsAfterStop(t, events);
    var late := AboutToStart(t.workers);
    if e.Work? {
      assert s.workers[e.w].Stopping?;
      SmallSet(late + {e.w}, |s.workers|);
      assert e.w !in late && |late + {e.w}| == |late| + 1;
      StartsUpdate(s.suites, s.workers[e.w].index, t.suites[s.workers[e.w].index]);
    } else {
      SmallSet(late, |s.workers|);
    }
  }

  // A run drains

  function Rank(pc: Pc): nat {
    match pc
    case Gone => 0
    case Claiming => 1
    case Calling(_, _, _) => 2
    case Skipping(_) => 2
    case Stopping(_, _, _) => 3
    case Executing(_) => 4
    case Starting(_) => 5
    case Checking(_) => 6
    case Looking(_) => 7
  }

  function Ranks(workers: seq<Pc>): nat {
    if |workers| == 0 then 0 else Ranks(workers[..|workers| - 1]) + Rank(workers[|workers| - 1])
  }

  function ToDo(s: State): nat {
    Ranks(s.workers) + 7 * (if s.next < |s.suites| then |s.suites| - s.next else 0)
  }

  lemma {:induction false} RanksUpdate(workers: seq<Pc>, w: nat, pc: Pc)
    requires w < |workers|
    ensures Ranks(workers[w := pc]) == Ranks(workers) - Rank(workers[w]) + Rank(pc)
  {
    var n := |workers| - 1;
    if w == n {
      assert workers[w := pc][..n] == workers[..n];
    } else {
      RanksUpdate(workers[..n], w, pc);
      assert workers[w := pc][..n] == workers[..n][w := pc];
    }
  }

  lemma AdvanceRank(pc: Pc, x: Suite, stop: bool, hasCallback: bool, outcome: Outcome)
    requires Busy(pc)
    ensures Rank(Advance(pc, x, stop, hasCallback, outcome).0) < Rank(pc)
  {
  }

  /** Every step of a worker still in its loop uses up some of a fixed amount of work, so a run ends. */
  lemma WorkersDrain(s: State, w: nat, outcome: Outcome)
    requires InRange(s) && w < |s.workers| && !s.workers[w].Gone?
    ensures ToDo(Step(s, Work(w, outcome))) < ToDo(s)
  {
    hide Ranks, Advance;
    var t := Step(s, Work(w, outcome));
    RanksUpdate(s.workers, w, t.workers[w]);
    if Busy(s.workers[w]) {
      AdvanceRank(s.workers[w], s.suites[s.workers[w].index], s.stop, s.hasCallback, outcome);
    }
  }

  /** How many steps of a sequence of events are taken by workers still in their loop. */
  ghost function Moves(s: State, events: seq<Event>): nat
    requires Inv(s) && Legal(events, |s.workers|)
    decreases |events|
  {
    if |events| == 0 then 0
    else
      InvInRange(s);
      StepKeeps(s, events[0]);
      StepShape(s, events[0]);
      (if events[0].Work? && !s.workers[events[0].w].Gone? then 1 else 0) + Moves(Step(s, events[0]), events[1..])
  }

  /** However the steps interleave, the workers take no more of them than the work there was. */
  lemma {:induction false} RunsEnd(s: State, events: seq<Event>)
    requires Inv(s) && Legal(events, |s.workers|)
    ensures Moves(s, events) + ToDo(Run(s, events)) <= ToDo(s)
    decreases |events|
  {
    hide ToDo, Inv;
    if |events| > 0 {
      InvInRange(s);
      StepKeeps(s, events[0]);
      StepShape(s, events[0]);
      var t := Step(s, events[0]);
      assert ToDo(t) + (if events[0].Work? && !s.workers[events[0].w].Gone? then 1 else 0) <= ToDo(s) by {
        if events[0].Work? && !s.workers[events[0].w].Gone? {
          WorkersDrain(s, events[0].w, events[0].outcome);
        } else {
          SameToDo(s, t);
        }
      }
      RunsEnd(t, events[1..]);
    }
  }

  lemma SameToDo(s: State, t: State)
    requires t.workers == s.workers && t.next == s.next && |t.suites| == |s.suites|
    ensures ToDo(t) == ToDo(s)
  {
  }
}
