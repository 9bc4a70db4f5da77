/**
 The task scheduler as a state machine: every region the scheduler's lock protects is one
 step. Times are milliseconds on a clock that never runs back.
 */
module SchedulerModel {
  import opened Wrappers

  /**
   A table entry. interval 0 means run once. stamp is the order of insertion, which keeps
   entries of equal due time apart; the multimap keeps that order without storing it.
   Born and runs are history: when it was submitted and how often it was picked.
   */
  datatype Task = Task(id: nat, due: int, interval: nat, cancelled: bool, stamp: nat, born: int, runs: nat)

  datatype State = State(tasks: seq<Task>, nextId: nat, nextStamp: nat, stopping: bool)

  const INITIAL := State([], 1, 0, false)

  function Max(a: int, b: int): int {
    if a < b then b else a
  }

  /** Inserts after every entry that is not due later: equal due times stay in arrival order. */
  function Insert(ts: seq<Task>, t: Task): seq<Task> {
    if |ts| == 0 || t.due < ts[0].due then [t] + ts else [ts[0]] + Insert(ts[1..], t)
  }

  /** run_after_ms and run_every_ms, called at time now. */
  function Submit(s: State, now: int, delay: int, interval: nat): State {
    s.(tasks := Insert(s.tasks, Task(s.nextId, now + delay, interval, false, s.nextStamp, now, 0)),
       nextId := s.nextId + 1, nextStamp := s.nextStamp + 1)
  }

  function RunAfter(s: State, now: int, delay: int): State {
    Submit(s, now, Max(0, delay), 0)
  }

  function RunEvery(s: State, now: int, interval: int): State {
    Submit(s, now, Max(1, interval), Max(1, interval))
  }

  /** Position of the first entry with this id, or |ts|. */
  function Find(ts: seq<Task>, id: nat): (i: nat)
    ensures i <= |ts|
  {
    if |ts| == 0 || ts[0].id == id then 0 else Find(ts[1..], id) + 1
  }

  /** cancel_task: marks the entry; false if there is none or it is marked already. */
  function Cancel(s: State, id: nat): (State, bool) {
    var i := Find(s.tasks, id);
    if i < |s.tasks| && !s.tasks[i].cancelled
    then (s.(tasks := s.tasks[i := s.tasks[i].(cancelled := true)]), true)
    else (s, false)
  }

  function Marked(ts: seq<Task>): seq<Task> {
    seq(|ts|, i requires 0 <= i < |ts| => ts[i].(cancelled := true))
  }

  function CancelAll(s: State): State {
    s.(tasks := Marked(s.tasks))
  }

  /**
   The worker's locked region at time now: cancelled entries at the front go, and the front
   entry is taken if it is due. A periodic task is entered for its next period right away.
   */
  function Pick(s: State, now: int): (State, Option<Task>)
    decreases |s.tasks|
  {
    if s.stopping || |s.tasks| == 0 then (s, None) else
    var front, rest := s.tasks[0], s.tasks[1..];
    if front.cancelled then Pick(s.(tasks := rest), now)
    else if front.due > now then (s, None)
    else if front.interval == 0 then (s.(tasks := rest), Some(front))
    else
      var next := front.(due := front.due + front.interval, stamp := s.nextStamp, runs := front.runs + 1);
      (s.(tasks := Insert(rest, next), nextStamp := s.nextStamp + 1), Some(front))
  }

  function Without(ts: seq<Task>, id: nat): seq<Task> {
    if |ts| == 0 then [] else if ts[0].id == id then Without(ts[1..], id) else [ts[0]] + Without(ts[1..], id)
  }

  /** After the callback: a periodic task whose callback said stop is taken out of the table. */
  function Finish(s: State, picked: Task, again: bool): State {
    if !again && picked.interval > 0 then s.(tasks := Without(s.tasks, picked.id)) else s
  }

  // ---- runs

  datatype Event =
    | After(now: int, delay: int)
    | Every(now: int, interval: int)
    | CancelOne(id: nat)
    | CancelEvery
    | Work(now: int)
    | Done(picked: Task, again: bool)
    | Stop

  function Step(s: State, e: Event): State {
    match e
    case After(now, delay) => RunAfter(s, now, delay)
    case Every(now, interval) => RunEvery(s, now, interval)
    case CancelOne(id) => Cancel(s, id).0
    case CancelEvery => CancelAll(s)
    case Work(now) => Pick(s, now).0
    case Done(picked, again) => Finish(s, picked, again)
    case Stop => s.(stopping := true)
  }

  function Run(s: State, es: seq<Event>): State
    decreases |es|
  {
    if |es| == 0 then s else Run(Step(s, es[0]), es[1..])
  }

  /** The task a step runs, if it runs one. */
  function Ran(s: State, e: Event): Option<Task> {
    if e.Work? then Pick(s, e.now).1 else None
  }

  // ---- what every step keeps

  ghost predicate Among(t: Task, ts: seq<Task>) {
    exists j :: 0 <= j < |ts| && ts[j] == t
  }

  predicate Before(a: Task, b: Task) {
    a.due < b.due || (a.due == b.due && a.stamp < b.stamp)
  }

  ghost predicate Ascending(ts: seq<Task>) {
    forall i, j :: 0 <= i < j < |ts| ==> Before(ts[i], ts[j]) && ts[i].id != ts[j].id
  }

  ghost predicate AllSound(ts: seq<Task>, nextId: nat, nextStamp: nat) {
    forall i :: 0 <= i < |ts| ==> Sound(ts[i], nextId, nextStamp)
  }

  ghost predicate AllAmong(r: seq<Task>, ts: seq<Task>) {
    forall i :: 0 <= i < |r| ==> Among(r[i], ts)
  }

  ghost predicate AllFrom(r: seq<Task>, t: Task, ts: seq<Task>) {
    forall i :: 0 <= i < |r| ==> r[i] == t || Among(r[i], ts)
  }

  /** Entries in due order, ties in insertion order; ids and stamps used once and already issued. */
  ghost predicate Inv(s: State) {
    s.nextId >= 1 && Ascending(s.tasks) && AllSound(s.tasks, s.nextId, s.nextStamp)
  }

  /** A periodic task is entered for run number runs, due a whole number of intervals after its submission. */
  predicate Sound(t: Task, nextId: nat, nextStamp: nat) {
    && 1 <= t.id < nextId && t.stamp < nextStamp
    && (t.interval > 0 ==> t.due == t.born + (t.runs + 1) * t.interval)
    && (t.interval == 0 ==> t.runs == 0 && t.due >= t.born)
  }

  lemma {:induction false} InsertMembers(ts: seq<Task>, t: Task)
    ensures AllFrom(Insert(ts, t), t, ts)
    decreases |ts|
  {
    if |ts| > 0 && t.due >= ts[0].due {
      InsertMembers(ts[1..], t);
      var tail := Insert(ts[1..], t);
      forall i | 0 <= i < |tail|
        ensures tail[i] == t || Among(tail[i], ts)
      {
        if tail[i] != t {
          InTail(ts, tail[i]);
        }
      }
      assert Among(ts[0], ts);
    } else {
      forall i | 0 <= i < |ts|
        ensures Among(ts[i], ts)
      {
      }
    }
  }

  lemma {:induction false} InsertAscends(ts: seq<Task>, t: Task)
    requires Ascending(ts) && forall i :: 0 <= i < |ts| ==> ts[i].id != t.id && ts[i].stamp < t.stamp
    ensures Ascending(Insert(ts, t))
    decreases |ts|
  {
    if |ts| > 0 && t.due >= ts[0].due {
      var rest := ts[1..];
      InsertAscends(rest, t);
      InsertMembers(rest, t);
      var tail := Insert(rest, t);
      forall j | 0 <= j < |tail|
        ensures Before(ts[0], tail[j]) && ts[0].id != tail[j].id
      {
        if tail[j] != t {
          assert Among(tail[j], rest);
          var k :| 0 <= k < |rest| && rest[k] == tail[j];
          assert ts[k + 1] == tail[j];
        }
      }
    }
  }

  lemma InsertKeeps(ts: seq<Task>, t: Task, nextId: nat, nextStamp: nat)
    requires Ascending(ts) && AllSound(ts, nextId, nextStamp) && Sound(t, nextId, nextStamp)
    requires forall i :: 0 <= i < |ts| ==> ts[i].id != t.id && ts[i].stamp < t.stamp
    ensures Ascending(Insert(ts, t)) && AllSound(Insert(ts, t), nextId, nextStamp)
  {
    InsertAscends(ts, t);
    InsertMembers(ts, t);
    var r := Insert(ts, t);
    forall i | 0 <= i < |r|
      ensures Sound(r[i], nextId, nextStamp)
    {
      if r[i] != t {
        assert Among(r[i], ts);
      }
    }
  }

  lemma InTail(ts: seq<Task>, x: Task)
    requires |ts| > 0 && Among(x, ts[1..])
    ensures Among(x, ts)
  {
    var k :| 0 <= k < |ts[1..]| && ts[1..][k] == x;
    assert ts[k + 1] == x;
  }

  /** The same entries, some of them gone: order, ids and soundness stay. */
  lemma {:induction false} WithoutKeeps(ts: seq<Task>, id: nat)
    ensures AllAmong(Without(ts, id), ts)
    ensures Ascending(ts) ==> Ascending(Without(ts, id))
    decreases |ts|
  {
    if |ts| > 0 {
      var rest := ts[1..];
      WithoutKeeps(rest, id);
      var tail := Without(rest, id);
      forall i | 0 <= i < |tail|
        ensures Among(tail[i], ts)
      {
        assert Among(tail[i], rest);
        InTail(ts, tail[i]);
      }
      assert Among(ts[0], ts);
      if ts[0].id != id && Ascending(ts) {
        forall i | 0 <= i < |tail|
          ensures Before(ts[0], tail[i]) && ts[0].id != tail[i].id
        {
          assert Among(tail[i], rest);
          var k :| 0 <= k < |rest| && rest[k] == tail[i];
          assert ts[k + 1] == tail[i];
        }
      }
    }
  }

  lemma FinishKeeps(s: State, picked: Task, again: bool)
    requires Inv(s)
    ensures Inv(Finish(s, picked, again))
  {
    hide Without;
    WithoutKeeps(s.tasks, picked.id);
    var r := Without(s.tasks, picked.id);
    forall i | 0 <= i < |r|
      ensures Sound(r[i], s.nextId, s.nextStamp)
    {
      assert Among(r[i], s.tasks);
    }
  }

  lemma {:induction false} PickKeeps(s: State, now: int)
    requires Inv(s)
    ensures Inv(Pick(s, now).0) && Pick(s, now).0.nextId == s.nextId
    decreases |s.tasks|
  {
    if !s.stopping && |s.tasks| > 0 {
      var front, rest := s.tasks[0], s.tasks[1..];
      if front.cancelled {
        PickKeeps(s.(tasks := rest), now);
      } else if front.due <= now && front.interval > 0 {
        var next := front.(due := front.due + front.interval, stamp := s.nextStamp, runs := front.runs + 1);
        assert next.due == next.born + (next.runs + 1) * next.interval by {
          assert (front.runs + 2) * front.interval == (front.runs + 1) * front.interval + front.interval;
        }
        InsertKeeps(rest, next, s.nextId, s.nextStamp + 1);
      }
    }
  }

  lemma SubmitKeeps(s: State, now: int, delay: int, interval: nat)
    requires Inv(s) && delay >= 0 && (interval > 0 ==> delay == interval)
    ensures Inv(Submit(s, now, delay, interval))
  {
    InsertKeeps(s.tasks, Task(s.nextId, now + delay, interval, false, s.nextStamp, now, 0), s.nextId + 1,
        s.nextStamp + 1);
  }

  lemma StepKeeps(s: State, e: Event)
    requires Inv(s)
    ensures Inv(Step(s, e)) && Step(s, e).nextId >= s.nextId
  {
    hide Pick, Insert, Without, Find;
    match e
    case After(now, delay) => SubmitKeeps(s, now, Max(0, delay), 0);
    case Every(now, interval) => SubmitKeeps(s, now, Max(1, interval), Max(1, interval));
    case CancelOne(id) =>
    case CancelEvery =>
    case Work(now) => PickKeeps(s, now);
    case Done(picked, again) => FinishKeeps(s, picked, again);
    case Stop =>
  }

  /** In every run each id has at most one entry, and the table is in due order, ties first come first served. */
  lemma {:induction false} RunKeeps(s: State, es: seq<Event>)
    requires Inv(s)
    ensures Inv(Run(s, es)) && Run(s, es).nextId >= s.nextId
    decreases |es|
  {
    hide Step, Inv;
    if |es| > 0 {
      StepKeeps(s, es[0]);
      RunKeeps(Step(s, es[0]), es[1..]);
    }
  }

  // ---- what a pick takes

  ghost predicate Live(s: State, t: Task) {
    t in s.tasks && !t.cancelled
  }

  /**
   A pick takes the first live entry if it is due, and only then: no live entry comes
   before it, and if nothing is taken nothing live is due.
   */
  lemma {:induction false} PickTakesFirst(s: State, now: int)
    requires Inv(s) && !s.stopping
    ensures match Pick(s, now).1
            case Some(t) => Live(s, t) && t.due <= now && forall u :: Live(s, u) && u != t ==> Before(t, u)
            case None => forall u :: Live(s, u) ==> u.due > now
    decreases |s.tasks|
  {
    if |s.tasks| > 0 {
      var front, rest := s.tasks[0], s.tasks[1..];
      assert forall u :: u in s.tasks <==> u == front || u in rest;
      if front.cancelled {
        PickTakesFirst(s.(tasks := rest), now);
        assert forall u :: Live(s, u) <==> Live(s.(tasks := rest), u);
      } else {
        forall u | Live(s, u) && u != front
          ensures Before(front, u)
        {
          var j :| 0 <= j < |s.tasks| && s.tasks[j] == u;
          assert Before(s.tasks[0], s.tasks[j]);
        }
      }
    }
  }

  // ---- ids that are done for

  /** The id has been issued, and no live entry carries it. */
  ghost predicate Dead(s: State, id: nat) {
    id < s.nextId && forall i :: 0 <= i < |s.tasks| && s.tasks[i].id == id ==> s.tasks[i].cancelled
  }

  lemma {:induction false} PickKeepsDead(s: State, now: int, id: nat)
    requires Dead(s, id)
    ensures Dead(Pick(s, now).0, id)
    ensures Pick(s, now).1.Some? ==> Pick(s, now).1.value.id != id
    decreases |s.tasks|
  {
    if !s.stopping && |s.tasks| > 0 {
      var front, rest := s.tasks[0], s.tasks[1..];
      assert Dead(s.(tasks := rest), id);
      if front.cancelled {
        PickKeepsDead(s.(tasks := rest), now, id);
      } else if front.due <= now && front.interval > 0 {
        var next := front.(due := front.due + front.interval, stamp := s.nextStamp, runs := front.runs + 1);
        InsertMembers(rest, next);
        assert s.tasks[0].id != id;
        DeadByMembers(s.(tasks := rest), Pick(s, now).0, next, id);
      }
    }
  }

  /** Adding an entry for another id keeps an id dead. */
  lemma DeadByMembers(s: State, r: State, t: Task, id: nat)
    requires Dead(s, id) && t.id != id && r.nextId >= s.nextId
    requires AllFrom(r.tasks, t, s.tasks)
    ensures Dead(r, id)
  {
    forall i | 0 <= i < |r.tasks| && r.tasks[i].id == id
      ensures r.tasks[i].cancelled
    {
      assert r.tasks[i] == t || Among(r.tasks[i], s.tasks);
    }
  }

  /** Once dead, an id stays dead, and no step runs it. */
  lemma StepKeepsDead(s: State, e: Event, id: nat)
    requires Dead(s, id)
    ensures Dead(Step(s, e), id)
    ensures Ran(s, e).Some? ==> Ran(s, e).value.id != id
  {
    hide Pick, Insert, Without, Find;
    match e
    case After(now, delay) => SubmitKeepsDead(s, now, Max(0, delay), 0, id);
    case Every(now, interval) => SubmitKeepsDead(s, now, Max(1, interval), Max(1, interval), id);
    case CancelOne(i) =>
    case CancelEvery =>
    case Work(now) => PickKeepsDead(s, now, id);
    case Done(picked, again) =>
      WithoutKeeps(s.tasks, picked.id);
      WithoutKeepsDead(s, picked.id, id);
    case Stop =>
  }

  lemma SubmitKeepsDead(s: State, now: int, delay: int, interval: nat, id: nat)
    requires Dead(s, id)
    ensures Dead(Submit(s, now, delay, interval), id)
  {
    var t := Task(s.nextId, now + delay, interval, false, s.nextStamp, now, 0);
    InsertMembers(s.tasks, t);
    DeadByMembers(s, Submit(s, now, delay, interval), t, id);
  }

  lemma WithoutKeepsDead(s: State, gone: nat, id: nat)
    requires Dead(s, id)
    ensures Dead(s.(tasks := Without(s.tasks, gone)), id)
  {
    var r := Without(s.tasks, gone);
    WithoutKeeps(s.tasks, gone);
    forall i | 0 <= i < |r| && r[i].id == id
      ensures r[i].cancelled
    {
      assert Among(r[i], s.tasks);
    }
  }

  /** Step number k of a run runs this task, if any. */
  function RanAt(s: State, es: seq<Event>, k: nat): Option<Task>
    requires k < |es|
  {
    Ran(Run(s, es[..k]), es[k])
  }

  lemma {:induction false} RunKeepsDead(s: State, es: seq<Event>, id: nat)
    requires Dead(s, id)
    ensures Dead(Run(s, es), id)
    decreases |es|
  {
    hide Step, Dead;
    if |es| > 0 {
      StepKeepsDead(s, es[0], id);
      RunKeepsDead(Step(s, es[0]), es[1..], id);
    }
  }

  lemma NeverRunsDead(s: State, es: seq<Event>, id: nat, k: nat)
    requires Dead(s, id) && k < |es|
    ensures RanAt(s, es, k).Some? ==> RanAt(s, es, k).value.id != id
  {
    RunKeepsDead(s, es[..k], id);
    StepKeepsDead(Run(s, es[..k]), es[k], id);
  }

  lemma {:induction false} FindFirst(ts: seq<Task>, id: nat)
    ensures var i := Find(ts, id);
            (i < |ts| ==> ts[i].id == id) && forall j :: 0 <= j < i ==> ts[j].id != id
    decreases |ts|
  {
    if |ts| > 0 && ts[0].id != id {
      FindFirst(ts[1..], id);
    }
  }

  /** Cancelling succeeds exactly when the id has a live entry, and leaves it dead either way. */
  lemma CancelIff(s: State, id: nat)
    requires Inv(s)
    ensures Cancel(s, id).1 <==> exists i :: 0 <= i < |s.tasks| && s.tasks[i].id == id && !s.tasks[i].cancelled
    ensures id < s.nextId ==> Dead(Cancel(s, id).0, id)
  {
    FindFirst(s.tasks, id);
  }

  /** After cancel returned true, nothing that follows runs the cancelled id. */
  lemma CancelledNeverRuns(s: State, id: nat, es: seq<Event>, k: nat)
    requires Inv(s) && Cancel(s, id).1 && k < |es|
    ensures var r := RanAt(Cancel(s, id).0, es, k); r.Some? ==> r.value.id != id
  {
    hide Cancel, Inv, Dead, RanAt;
    CancelIff(s, id);
    LiveIsIssued(s, id);
    NeverRunsDead(Cancel(s, id).0, es, id, k);
  }

  lemma LiveIsIssued(s: State, id: nat)
    requires Inv(s)
    ensures (exists i :: 0 <= i < |s.tasks| && s.tasks[i].id == id && !s.tasks[i].cancelled) ==> id < s.nextId
  {
  }

  /** cancel_all: no task submitted before runs any more. */
  lemma CancelAllNeverRuns(s: State, id: nat, es: seq<Event>, k: nat)
    requires id < s.nextId && k < |es|
    ensures var r := RanAt(CancelAll(s), es, k); r.Some? ==> r.value.id != id
  {
    NeverRunsDead(CancelAll(s), es, id, k);
  }

  /** A picked one-shot task is gone for good. */
  lemma {:induction false} OneShotDies(s: State, now: int)
    requires Inv(s)
    ensures match Pick(s, now).1 case Some(t) => (t.interval == 0 ==> Dead(Pick(s, now).0, t.id)) case None => true
    decreases |s.tasks|
  {
    if !s.stopping && |s.tasks| > 0 {
      var front, rest := s.tasks[0], s.tasks[1..];
      if front.cancelled {
        OneShotDies(s.(tasks := rest), now);
      }
    }
  }

  /** A one-shot task runs at most once in any run. */
  lemma OneShotRunsOnce(s: State, es: seq<Event>, j: nat, k: nat)
    requires Inv(s) && j < k < |es|
    requires RanAt(s, es, j).Some? && RanAt(s, es, j).value.interval == 0
    ensures RanAt(s, es, k).Some? ==> RanAt(s, es, k).value.id != RanAt(s, es, j).value.id
  {
    hide Inv, Dead, Pick;
    var before := Run(s, es[..j]);
    RunKeeps(s, es[..j]);
    OneShotDies(before, es[j].now);
    var after := Step(before, es[j]);
    RunSplit(s, es, j, k);
    NeverRunsDead(after, es[j + 1..], RanAt(s, es, j).value.id, k - j - 1);
  }

  lemma {:induction false} RunAppend(s: State, a: seq<Event>, b: seq<Event>)
    ensures Run(s, a + b) == Run(Run(s, a), b)
    decreases |a|
  {
    hide Step;
    if |a| == 0 {
      assert a + b == b;
    } else {
      assert (a + b)[1..] == a[1..] + b;
      RunAppend(Step(s, a[0]), a[1..], b);
    }
  }

  lemma RunOne(s: State, e: Event)
    ensures Run(s, [e]) == Step(s, e)
  {
    assert Run(s, [e]) == Run(Step(s, e), [e][1..]);
  }

  /** Step k of a run is step k - j - 1 of the run that starts after step j. */
  lemma RunSplit(s: State, es: seq<Event>, j: nat, k: nat)
    requires j < k < |es|
    ensures RanAt(s, es, k) == RanAt(Step(Run(s, es[..j]), es[j]), es[j + 1..], k - j - 1)
  {
    hide Step, Ran;
    var tail := es[j + 1..];
    assert es[..k] == es[..j] + ([es[j]] + tail[..k - j - 1]);
    RunAppend(s, es[..j], [es[j]] + tail[..k - j - 1]);
    RunAppend(Run(s, es[..j]), [es[j]], tail[..k - j - 1]);
    RunOne(Run(s, es[..j]), es[j]);
  }

  // ---- periods

  /** How many steps of a run ran the id. */
  function Runs(s: State, es: seq<Event>, id: nat): nat
    decreases |es|
  {
    if |es| == 0 then 0 else
    (if Ran(s, es[0]).Some? && Ran(s, es[0]).value.id == id then 1 else 0) + Runs(Step(s, es[0]), es[1..], id)
  }

  /** The id belongs to a periodic task submitted at born and run a number of times since. */
  ghost predicate Tracks(s: State, id: nat, born: int, interval: nat, runs: nat) {
    && id < s.nextId
    && forall i :: 0 <= i < |s.tasks| && s.tasks[i].id == id ==>
         s.tasks[i].born == born && s.tasks[i].interval == interval && s.tasks[i].runs == runs
  }

  lemma TracksByMembers(s: State, r: State, t: Task, id: nat, born: int, interval: nat, runs: nat)
    requires Tracks(s, id, born, interval, runs) && r.nextId >= s.nextId
    requires t.id == id ==> t.born == born && t.interval == interval && t.runs == runs
    requires AllFrom(r.tasks, t, s.tasks)
    ensures Tracks(r, id, born, interval, runs)
  {
    forall i | 0 <= i < |r.tasks| && r.tasks[i].id == id && r.tasks[i] != t
      ensures r.tasks[i].born == born && r.tasks[i].interval == interval && r.tasks[i].runs == runs
    {
      assert r.tasks[i] == t || Among(r.tasks[i], s.tasks);
    }
  }

  lemma {:induction false} PickTracks(s: State, now: int, id: nat, born: int, interval: nat, runs: nat)
    requires Inv(s) && Tracks(s, id, born, interval, runs) && interval > 0
    ensures var (r, t) := Pick(s, now);
            if t.Some? && t.value.id == id
            then t.value.born == born && t.value.interval == interval && t.value.runs == runs
                && Tracks(r, id, born, interval, runs + 1)
            else Tracks(r, id, born, interval, runs)
    decreases |s.tasks|
  {
    if !s.stopping && |s.tasks| > 0 {
      var front, rest := s.tasks[0], s.tasks[1..];
      if front.cancelled {
        PickTracks(s.(tasks := rest), now, id, born, interval, runs);
      } else if front.due <= now && front.interval > 0 {
        var next := front.(due := front.due + front.interval, stamp := s.nextStamp, runs := front.runs + 1);
        InsertMembers(rest, next);
        var n := if front.id == id then runs + 1 else runs;
        assert forall i :: 0 <= i < |rest| ==> rest[i] == s.tasks[i + 1] && rest[i].id != s.tasks[0].id;
        TracksByMembers(s.(tasks := rest), Pick(s, now).0, next, id, born, interval, n);
      }
    }
  }

  lemma StepTracks(s: State, e: Event, id: nat, born: int, interval: nat, runs: nat)
    requires Inv(s) && Tracks(s, id, born, interval, runs) && interval > 0
    ensures Tracks(Step(s, e), id, born, interval,
                   if Ran(s, e).Some? && Ran(s, e).value.id == id then runs + 1 else runs)
  {
    hide Pick, Insert, Without, Find;
    match e
    case After(now, delay) => SubmitTracks(s, now, Max(0, delay), 0, id, born, interval, runs);
    case Every(now, i) => SubmitTracks(s, now, Max(1, i), Max(1, i), id, born, interval, runs);
    case CancelOne(i) =>
    case CancelEvery =>
    case Work(now) => PickTracks(s, now, id, born, interval, runs);
    case Done(picked, again) =>
      WithoutKeeps(s.tasks, picked.id);
      if |s.tasks| > 0 {
        TracksByMembers(s, Step(s, e), s.tasks[0], id, born, interval, runs);
      }
    case Stop =>
  }

  lemma SubmitTracks(s: State, now: int, delay: int, every: nat, id: nat, born: int, interval: nat, runs: nat)
    requires Tracks(s, id, born, interval, runs)
    ensures Tracks(Submit(s, now, delay, every), id, born, interval, runs)
  {
    var t := Task(s.nextId, now + delay, every, false, s.nextStamp, now, 0);
    InsertMembers(s.tasks, t);
    TracksByMembers(s, Submit(s, now, delay, every), t, id, born, interval, runs);
  }

  lemma {:induction false} RunTracks(s: State, es: seq<Event>, id: nat, born: int, interval: nat, runs: nat)
    requires Inv(s) && Tracks(s, id, born, interval, runs) && interval > 0
    ensures Tracks(Run(s, es), id, born, interval, runs + Runs(s, es, id))
    decreases |es|
  {
    hide Step, Inv, Tracks, Ran;
    if |es| > 0 {
      var n := if Ran(s, es[0]).Some? && Ran(s, es[0]).value.id == id then runs + 1 else runs;
      StepKeeps(s, es[0]);
      StepTracks(s, es[0], id, born, interval, runs);
      RunTracks(Step(s, es[0]), es[1..], id, born, interval, n);
    }
  }

  /**
   A periodic task never drifts: whatever happens in between, its run after n earlier ones
   is due n + 1 intervals after its submission, and does not start before that.
   */
  lemma PeriodicNeverDrifts(s: State, now: int, interval: int, es: seq<Event>, k: nat)
    requires Inv(s) && k < |es|
    requires RanAt(RunEvery(s, now, interval), es, k).Some?
             && RanAt(RunEvery(s, now, interval), es, k).value.id == s.nextId
    ensures var s1 := RunEvery(s, now, interval);
            var t := RanAt(s1, es, k).value;
            t.due == now + (Runs(s1, es[..k], s.nextId) + 1) * Max(1, interval) && t.due <= es[k].now
  {
    hide Inv, Tracks, Pick, Insert, Run, Runs;
    var s1, every := RunEvery(s, now, interval), Max(1, interval);
    var id := s.nextId;
    SubmitKeeps(s, now, every, every);
    FreshTracks(s, now, interval);
    RunKeeps(s1, es[..k]);
    RunTracks(s1, es[..k], id, now, every, 0);
    var at := Run(s1, es[..k]);
    PickTracks(at, es[k].now, id, now, every, Runs(s1, es[..k], id));
    PickTakesSound(at, es[k].now);
  }

  lemma FreshTracks(s: State, now: int, interval: int)
    requires Inv(s)
    ensures Tracks(RunEvery(s, now, interval), s.nextId, now, Max(1, interval), 0)
  {
    var every := Max(1, interval);
    var t := Task(s.nextId, now + every, every, false, s.nextStamp, now, 0);
    InsertMembers(s.tasks, t);
    TracksByMembers(s.(nextId := s.nextId + 1), RunEvery(s, now, interval), t, s.nextId, now, every, 0);
  }

  lemma PickTakesSound(s: State, now: int)
    requires Inv(s)
    ensures match Pick(s, now).1 case Some(t) => Sound(t, s.nextId, s.nextStamp) && t.due <= now case None => true
  {
    hide Pick;
    if s.stopping {
      StoppedPicksNothing(s, now);
    } else {
      PickTakesFirst(s, now);
    }
  }

  lemma StoppedPicksNothing(s: State, now: int)
    requires s.stopping
    ensures Pick(s, now) == (s, None)
  {
  }
}
