/**
 The scheduler seen from outside, as the set of its live tasks: what every step does to that
 set, how long a task stays in it, and which one is picked.
 */
module SchedulerLive {
  import Arithmetic
  import opened AsyncSchedulerObject
  import opened SchedulerModel
  import opened Wrappers

  /** The entries that are not cancelled. */
  function Alive(ts: seq<Task>): set<Task> {
    set t | t in ts && !t.cancelled
  }

  lemma {:induction false} InsertAll(ts: seq<Task>, t: Task)
    ensures multiset(Insert(ts, t)) == multiset(ts) + multiset{t}
    decreases |ts|
  {
    if |ts| > 0 {
      assert ts == [ts[0]] + ts[1..];
      if t.due >= ts[0].due {
        InsertAll(ts[1..], t);
      }
    }
  }

  lemma InsertAlive(ts: seq<Task>, t: Task)
    requires !t.cancelled
    ensures Alive(Insert(ts, t)) == Alive(ts) + {t}
  {
    hide Insert;
    InsertAll(ts, t);
    forall x
      ensures x in Insert(ts, t) <==> x in ts || x == t
    {
      assert x in Insert(ts, t) <==> x in multiset(Insert(ts, t));
      assert x in ts <==> x in multiset(ts);
    }
  }

  lemma {:induction false} WithoutAll(ts: seq<Task>, id: nat, t: Task)
    ensures t in Without(ts, id) <==> t in ts && t.id != id
    decreases |ts|
  {
    if |ts| > 0 {
      WithoutAll(ts[1..], id, t);
      assert t in ts <==> t == ts[0] || t in ts[1..];
    }
  }

  // ---- what each step does to the live tasks

  function OneShot(s: State, now: int, delay: int): Task {
    Task(s.nextId, now + if delay > 0 then delay else 0, 0, false, s.nextStamp, now, 0)
  }

  function Periodic(s: State, now: int, interval: int): Task {
    var every := if interval > 1 then interval else 1;
    Task(s.nextId, now + every, every, false, s.nextStamp, now, 0)
  }

  /** A periodic task's entry for its next period. */
  function Next(t: Task, stamp: nat): Task {
    t.(due := t.due + t.interval, stamp := stamp, runs := t.runs + 1)
  }

  ghost function Others(ts: set<Task>, id: nat): set<Task> {
    set t | t in ts && t.id != id
  }

  /** The live tasks after a step, given the task it picked, if any. */
  ghost function AliveAfter(s: State, e: Event): set<Task> {
    var now := Alive(s.tasks);
    match e
    case After(at, delay) => now + {OneShot(s, at, delay)}
    case Every(at, interval) => now + {Periodic(s, at, interval)}
    case CancelOne(id) => Others(now, id)
    case CancelEvery => {}
    case Work(at) =>
      (match Pick(s, at).1
       case None => now
       case Some(t) => now - {t} + if t.interval > 0 then {Next(t, s.nextStamp)} else {})
    case Done(picked, again) => if again || picked.interval == 0 then now else Others(now, picked.id)
    case Stop => now
  }

  lemma SubmitAlive(s: State, now: int, delay: int, interval: nat)
    ensures Alive(Submit(s, now, delay, interval).tasks) ==
            Alive(s.tasks) + {Task(s.nextId, now + delay, interval, false, s.nextStamp, now, 0)}
  {
    InsertAlive(s.tasks, Task(s.nextId, now + delay, interval, false, s.nextStamp, now, 0));
  }

  lemma CancelAlive(s: State, id: nat)
    requires Inv(s)
    ensures Alive(Cancel(s, id).0.tasks) == Others(Alive(s.tasks), id)
  {
    FindFirst(s.tasks, id);
    var i, ts, r := Find(s.tasks, id), s.tasks, Cancel(s, id).0.tasks;
    assert forall j :: 0 <= j < |ts| && ts[j].id == id ==> j == i;
    forall t
      ensures t in r && !t.cancelled <==> t in ts && !t.cancelled && t.id != id
    {
      if t in r && !t.cancelled {
        var j :| 0 <= j < |r| && r[j] == t;
        assert ts[j] == t;
      }
      if t in ts && t.id != id {
        var j :| 0 <= j < |ts| && ts[j] == t;
        assert r[j] == t;
      }
    }
  }

  lemma {:induction false} PickAlive(s: State, now: int)
    requires Inv(s)
    ensures Alive(Pick(s, now).0.tasks) == AliveAfter(s, Work(now))
    decreases |s.tasks|
  {
    hide Insert;
    if !s.stopping && |s.tasks| > 0 {
      var front, rest := s.tasks[0], s.tasks[1..];
      assert forall u :: u in s.tasks <==> u == front || u in rest;
      assert Alive(rest) == Alive(s.tasks) - {front} by {
        assert front !in rest;
      }
      if front.cancelled {
        PickAlive(s.(tasks := rest), now);
      } else if front.due <= now && front.interval > 0 {
        InsertAlive(rest, Next(front, s.nextStamp));
      }
    }
  }

  lemma WithoutAlive(ts: seq<Task>, id: nat)
    ensures Alive(Without(ts, id)) == Others(Alive(ts), id)
  {
    hide Without;
    forall t
      ensures t in Without(ts, id) <==> t in ts && t.id != id
    {
      WithoutAll(ts, id, t);
    }
  }

  /** The table, with its order and its entries left behind by cancelling, stands for a plain set of tasks. */
  lemma StepAlive(s: State, e: Event)
    requires Inv(s)
    ensures Alive(Step(s, e).tasks) == AliveAfter(s, e)
  {
    hide Pick, Insert, Without, Cancel, Alive, Inv;
    match e
    case After(now, delay) => SubmitAlive(s, now, Max(0, delay), 0);
    case Every(now, interval) => SubmitAlive(s, now, Max(1, interval), Max(1, interval));
    case CancelOne(id) => CancelAlive(s, id);
    case CancelEvery => AllMarked(s.tasks);
    case Work(now) => PickAlive(s, now);
    case Done(picked, again) => WithoutAlive(s.tasks, picked.id);
    case Stop =>
  }

  lemma AllMarked(ts: seq<Task>)
    ensures Alive(Marked(ts)) == {}
  {
  }

  // ---- how long a task stays

  /** The step ends the task of this id: a cancellation, a single run, or its callback's wish to stop. */
  predicate Ends(s: State, e: Event, id: nat) {
    match e
    case CancelOne(i) => i == id
    case CancelEvery => true
    case Work(now) => Pick(s, now).1.Some? && Pick(s, now).1.value.id == id && Pick(s, now).1.value.interval == 0
    case Done(picked, again) => !again && picked.interval > 0 && picked.id == id
    case _ => false
  }

  predicate NeverEnds(s: State, es: seq<Event>, id: nat)
    decreases |es|
  {
    |es| == 0 || (!Ends(s, es[0], id) && NeverEnds(Step(s, es[0]), es[1..], id))
  }

  ghost predicate HasLive(s: State, id: nat) {
    exists t :: t in Alive(s.tasks) && t.id == id
  }

  lemma OneEntryEach(s: State, t: Task, u: Task)
    requires Inv(s) && t in Alive(s.tasks) && u in Alive(s.tasks) && t.id == u.id
    ensures t == u
  {
  }

  lemma PickedIsAlive(s: State, now: int)
    requires Inv(s)
    ensures match Pick(s, now).1 case Some(t) => t in Alive(s.tasks) case None => true
  {
    hide Pick, Inv;
    if s.stopping {
      StoppedPicksNothing(s, now);
    } else {
      PickTakesFirst(s, now);
    }
  }

  lemma StepEnds(s: State, e: Event, id: nat)
    requires Inv(s) && HasLive(s, id) && id < s.nextId
    ensures HasLive(Step(s, e), id) <==> !Ends(s, e, id)
  {
    hide Pick, Step, Inv, Alive;
    StepAlive(s, e);
    var t :| t in Alive(s.tasks) && t.id == id;
    if e.Work? {
      PickedIsAlive(s, e.now);
      match Pick(s, e.now).1
      case None => assert t in AliveAfter(s, e);
      case Some(u) =>
        if u.id == id {
          OneEntryEach(s, t, u);
          if u.interval > 0 {
            assert Next(u, s.nextStamp) in AliveAfter(s, e);
          } else {
            forall v | v in AliveAfter(s, e)
              ensures v.id != id
            {
              if v.id == id {
                OneEntryEach(s, u, v);
              }
            }
          }
        } else {
          assert t in AliveAfter(s, e);
        }
    } else if !Ends(s, e, id) {
      assert t in AliveAfter(s, e);
    }
  }

  lemma EndedStaysAway(s: State, es: seq<Event>, id: nat)
    requires Inv(s) && id < s.nextId && !HasLive(s, id)
    ensures !HasLive(Run(s, es), id)
  {
    hide Run, Inv;
    assert Dead(s, id) by {
      forall i | 0 <= i < |s.tasks| && s.tasks[i].id == id
        ensures s.tasks[i].cancelled
      {
        assert s.tasks[i] in s.tasks;
      }
    }
    RunKeepsDead(s, es, id);
  }

  /** A task stays in the table, or comes back to it, exactly until a step ends it. */
  lemma {:induction false} LiveIff(s: State, es: seq<Event>, id: nat)
    requires Inv(s) && HasLive(s, id) && id < s.nextId
    ensures HasLive(Run(s, es), id) <==> NeverEnds(s, es, id)
    decreases |es|
  {
    hide Step, Inv, HasLive, Ends;
    if |es| > 0 {
      StepKeeps(s, es[0]);
      StepEnds(s, es[0], id);
      if Ends(s, es[0], id) {
        EndedStaysAway(Step(s, es[0]), es[1..], id);
      } else {
        LiveIff(Step(s, es[0]), es[1..], id);
      }
    }
  }

  lemma {:induction false} EntryStays(s: State, es: seq<Event>, t: Task)
    requires Inv(s) && t in Alive(s.tasks) && t.interval == 0 && t.id < s.nextId
    ensures t in Alive(Run(s, es).tasks) <==> NeverEnds(s, es, t.id)
    decreases |es|
  {
    hide Step, Inv, Alive;
    if |es| > 0 {
      StepKeeps(s, es[0]);
      EntryStep(s, es[0], t);
      if t in Alive(Step(s, es[0]).tasks) {
        EntryStays(Step(s, es[0]), es[1..], t);
      } else {
        EndedStaysAway(Step(s, es[0]), es[1..], t.id);
      }
    }
  }

  lemma EntryStep(s: State, e: Event, t: Task)
    requires Inv(s) && t in Alive(s.tasks) && t.interval == 0 && t.id < s.nextId
    ensures if Ends(s, e, t.id) then !HasLive(Step(s, e), t.id) else t in Alive(Step(s, e).tasks)
  {
    hide Pick, Step, Inv, Alive;
    StepAlive(s, e);
    StepEnds(s, e, t.id);
    if e.Work? && Pick(s, e.now).1.Some? {
      var u := Pick(s, e.now).1.value;
      PickedIsAlive(s, e.now);
      if u.id == t.id {
        OneEntryEach(s, t, u);
      }
    }
  }

  /**
   A task submitted to run once is in the table, due at its submission plus its delay, exactly
   until it is cancelled or picked.
   */
  lemma SubmittedOnceStays(s: State, now: int, delay: int, es: seq<Event>)
    requires Inv(s)
    ensures var s1 := Step(s, After(now, delay));
            OneShot(s, now, delay) in Alive(Run(s1, es).tasks) <==> NeverEnds(s1, es, s.nextId)
  {
    hide Step, Inv, Alive, Run;
    StepKeeps(s, After(now, delay));
    StepAlive(s, After(now, delay));
    NextIdAfter(s, After(now, delay));
    EntryStays(Step(s, After(now, delay)), es, OneShot(s, now, delay));
  }

  /** A periodic task is in the table, for one period or another, exactly until it is cancelled or stops itself. */
  lemma SubmittedEveryStays(s: State, now: int, interval: int, es: seq<Event>)
    requires Inv(s)
    ensures var s1 := Step(s, Every(now, interval));
            Periodic(s, now, interval) in Alive(s1.tasks) && (HasLive(Run(s1, es), s.nextId) <==>
            NeverEnds(s1, es, s.nextId))
  {
    hide Step, Inv, Alive, Run;
    StepKeeps(s, Every(now, interval));
    StepAlive(s, Every(now, interval));
    NextIdAfter(s, Every(now, interval));
    assert HasLive(Step(s, Every(now, interval)), s.nextId) by {
      assert Periodic(s, now, interval).id == s.nextId;
    }
    LiveIff(Step(s, Every(now, interval)), es, s.nextId);
  }

  lemma NextIdAfter(s: State, e: Event)
    requires e.After? || e.Every?
    ensures Step(s, e).nextId == s.nextId + 1
  {
    hide Insert;
  }

  // ---- what is picked

  /** While the scheduler runs, a pick takes exactly the due live task that no live task comes before. */
  lemma PicksIff(s: State, now: int, t: Task)
    requires Inv(s) && !s.stopping
    ensures Pick(s, now).1 == Some(t) <==>
            t in Alive(s.tasks) && t.due <= now && forall u :: u in Alive(s.tasks) && u != t ==> Before(t, u)
  {
    hide Pick, Inv;
    PickTakesFirst(s, now);
    forall u
      ensures u in Alive(s.tasks) <==> Live(s, u)
    {
    }
  }

  // ---- no starvation

  /** How many picks a task can take before t's turn: a periodic one comes back for as long as it is due earlier. */
  function Turns(u: Task, t: Task): nat {
    if !Before(u, t) then 0 else if u.interval == 0 then 1 else (t.due - u.due) / u.interval + 1
  }

  ghost function AllTurns(ts: set<Task>, t: Task): nat {
    if ts == {} then 0
    else
      var u :| u in ts;
      Turns(u, t) + AllTurns(ts - {u}, t)
  }

  lemma {:induction false} TurnsOf(ts: set<Task>, t: Task, u: Task)
    requires u in ts
    ensures AllTurns(ts, t) == Turns(u, t) + AllTurns(ts - {u}, t)
    decreases |ts|
  {
    hide Turns;
    var v :| v in ts && AllTurns(ts, t) == Turns(v, t) + AllTurns(ts - {v}, t);
    if v != u {
      TurnsOf(ts - {v}, t, u);
      TurnsOf(ts - {u}, t, v);
      assert ts - {v} - {u} == ts - {u} - {v};
    }
  }

  lemma {:induction false} FewerTurns(ts: set<Task>, us: set<Task>, t: Task)
    requires ts <= us
    ensures AllTurns(ts, t) <= AllTurns(us, t)
    decreases |ts|
  {
    hide Turns, AllTurns;
    if ts != {} {
      var u :| u in ts;
      TurnsOf(ts, t, u);
      TurnsOf(us, t, u);
      FewerTurns(ts - {u}, us - {u}, t);
    } else {
      NoTurns(t);
    }
  }

  lemma NoTurns(t: Task)
    ensures AllTurns({}, t) == 0
  {
  }

  lemma LaterTakesNone(ts: set<Task>, u: Task, t: Task)
    requires !Before(u, t)
    ensures AllTurns(ts + {u}, t) == AllTurns(ts, t)
  {
    hide AllTurns;
    if u in ts {
      assert ts + {u} == ts;
    } else {
      TurnsOf(ts + {u}, t, u);
      assert ts + {u} - {u} == ts;
    }
  }

  lemma NextTakesFewer(u: Task, t: Task, stamp: nat)
    requires Before(u, t) && t.stamp < stamp
    ensures Turns(u, t) >= 1
    ensures u.interval > 0 ==> Turns(Next(u, stamp), t) < Turns(u, t)
  {
    if u.interval > 0 {
      var q := (t.due - u.due) / u.interval;
      if Before(Next(u, stamp), t) {
        Arithmetic.Quotient(t.due - u.due - u.interval, q - 1, u.interval, (t.due - u.due) % u.interval);
      }
    }
  }

  lemma PickTakesATurn(ts: set<Task>, u: Task, t: Task, stamp: nat)
    requires u in ts && Before(u, t) && t.stamp < stamp
    ensures AllTurns(ts - {u} + if u.interval > 0 then {Next(u, stamp)} else {}, t) < AllTurns(ts, t)
  {
    hide AllTurns, Turns;
    var rest, next := ts - {u}, Next(u, stamp);
    TurnsOf(ts, t, u);
    NextTakesFewer(u, t, stamp);
    if u.interval > 0 {
      if next in rest {
        assert rest + {next} == rest;
      } else {
        TurnsOf(rest + {next}, t, next);
        assert rest + {next} - {next} == rest;
      }
    } else {
      assert rest + {} == rest;
    }
  }

  /** An event that does not happen before the task is due, and does not shut the scheduler down. */
  predicate Late(e: Event, due: int) {
    !e.Stop? && (e.After? || e.Every? || e.Work? ==> e.now >= due)
  }

  predicate AllLate(es: seq<Event>, due: int) {
    forall k :: 0 <= k < |es| ==> Late(es[k], due)
  }

  function Picks(es: seq<Event>): nat {
    if |es| == 0 then 0 else (if es[0].Work? then 1 else 0) + Picks(es[1..])
  }

  lemma LateStep(s: State, e: Event, t: Task)
    requires Inv(s) && !s.stopping && t in Alive(s.tasks) && Late(e, t.due)
    ensures Inv(Step(s, e)) && !Step(s, e).stopping
    ensures t in Alive(Step(s, e).tasks) ==>
              AllTurns(Alive(Step(s, e).tasks), t) + (if e.Work? then 1 else 0) <= AllTurns(Alive(s.tasks), t)
  {
    hide Pick, Insert, Inv, Alive, AllTurns, Turns, Step;
    StepKeeps(s, e);
    StepAlive(s, e);
    StampIssued(s, t);
    StillRunning(s, e);
    var now := Alive(s.tasks);
    match e
    case After(at, delay) => LaterTakesNone(now, OneShot(s, at, delay), t);
    case Every(at, interval) => LaterTakesNone(now, Periodic(s, at, interval), t);
    case Work(at) =>
      PicksIff(s, at, t);
      match Pick(s, at).1 {
        case None => NothingDue(s, at, t);
        case Some(u) =>
          PicksIff(s, at, u);
          if u != t {
            PickTakesATurn(now, u, t, s.nextStamp);
          }
      }
    case CancelOne(_) => FewerTurns(AliveAfter(s, e), now, t);
    case Done(_, _) => FewerTurns(AliveAfter(s, e), now, t);
    case CancelEvery =>
  }

  lemma NothingDue(s: State, now: int, t: Task)
    requires Inv(s) && !s.stopping && Pick(s, now).1.None? && t in Alive(s.tasks)
    ensures t.due > now
  {
    hide Pick;
    PickTakesFirst(s, now);
    assert Live(s, t);
  }

  lemma StampIssued(s: State, t: Task)
    requires Inv(s) && t in Alive(s.tasks)
    ensures t.stamp < s.nextStamp
  {
  }

  lemma {:induction false} PickGoesOn(s: State, now: int)
    ensures Pick(s, now).0.stopping == s.stopping
    decreases |s.tasks|
  {
    hide Insert;
    if !s.stopping && |s.tasks| > 0 && s.tasks[0].cancelled {
      PickGoesOn(s.(tasks := s.tasks[1..]), now);
    }
  }

  lemma StillRunning(s: State, e: Event)
    ensures !e.Stop? ==> Step(s, e).stopping == s.stopping
  {
    hide Pick, Insert;
    if e.Work? {
      PickGoesOn(s, e.now);
    }
  }

  lemma GoneStaysGone(s: State, e: Event, t: Task)
    requires Inv(s) && t !in Alive(s.tasks) && t.stamp < s.nextStamp
    ensures t !in Alive(Step(s, e).tasks) && t.stamp < Step(s, e).nextStamp
  {
    hide Pick, Insert, Inv, Alive;
    StepAlive(s, e);
    if e.Work? {
      StampsGrow(s, e.now);
    }
  }

  lemma {:induction false} StampsGrow(s: State, now: int)
    ensures Pick(s, now).0.nextStamp >= s.nextStamp
    decreases |s.tasks|
  {
    hide Insert;
    if !s.stopping && |s.tasks| > 0 && s.tasks[0].cancelled {
      StampsGrow(s.(tasks := s.tasks[1..]), now);
    }
  }

  lemma {:induction false} GoneForGood(s: State, es: seq<Event>, t: Task)
    requires Inv(s) && t !in Alive(s.tasks) && t.stamp < s.nextStamp
    ensures t !in Alive(Run(s, es).tasks)
    decreases |es|
  {
    hide Step, Inv, Alive;
    if |es| > 0 {
      StepKeeps(s, es[0]);
      GoneStaysGone(s, es[0], t);
      GoneForGood(Step(s, es[0]), es[1..], t);
    }
  }

  /**
   Nothing starves: from the time a task is due, whatever is submitted, cancelled or finished,
   it has been picked or cancelled once the worker has picked more often than the tasks before
   it can come first.
   */
  lemma {:induction false} DueIsTaken(s: State, es: seq<Event>, t: Task)
    requires Inv(s) && !s.stopping && t in Alive(s.tasks) && AllLate(es, t.due)
    requires Picks(es) > AllTurns(Alive(s.tasks), t)
    ensures t !in Alive(Run(s, es).tasks)
    decreases |es|
  {
    hide Step, Inv, Alive, AllTurns, Late;
    var after := Step(s, es[0]);
    LateStep(s, es[0], t);
    if t in Alive(after.tasks) {
      DueIsTaken(after, es[1..], t);
    } else {
      StampIssued(s, t);
      GoneAfter(s, es[0], t);
      GoneForGood(after, es[1..], t);
    }
  }

  lemma GoneAfter(s: State, e: Event, t: Task)
    requires t.stamp < s.nextStamp
    ensures t.stamp < Step(s, e).nextStamp
  {
    hide Pick, Insert;
    if e.Work? {
      StampsGrow(s, e.now);
    }
  }

  /** pending_count is the number of live tasks. */
  lemma {:induction false} CountIsAlive(ts: seq<Task>)
    requires forall i, j :: 0 <= i < j < |ts| ==> ts[i].id != ts[j].id
    ensures CountLive(ts) == |Alive(ts)|
    decreases |ts|
  {
    if |ts| > 0 {
      var n := |ts| - 1;
      CountIsAlive(ts[..n]);
      assert forall t :: t in ts <==> t in ts[..n] || t == ts[n];
      assert Alive(ts) == Alive(ts[..n]) + if ts[n].cancelled then {} else {ts[n]};
      assert ts[n] !in ts[..n];
    } else {
      assert Alive(ts) == {};
    }
  }
}
