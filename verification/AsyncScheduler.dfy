/** The scheduler object: its table, and the methods that run under its lock. */
module AsyncSchedulerObject {
  import opened SchedulerModel
  import opened Wrappers

  function CountLive(ts: seq<Task>): nat {
    if |ts| == 0 then 0 else CountLive(ts[..|ts| - 1]) + if ts[|ts| - 1].cancelled then 0 else 1
  }

  /** What erasing an id will leave once the entries before i have been looked at. */
  function Erasing(ts: seq<Task>, i: nat, id: nat): seq<Task>
    requires i <= |ts|
  {
    ts[..i] + Without(ts[i..], id)
  }

  lemma ErasingOne(ts: seq<Task>, i: nat, id: nat)
    requires i < |ts|
    ensures Erasing(ts, i, id) == if ts[i].id == id then Erasing(ts[..i] + ts[i + 1..], i, id)
            else Erasing(ts, i + 1, id)
  {
    assert ts[i..][1..] == ts[i + 1..];
    if ts[i].id == id {
      var less := ts[..i] + ts[i + 1..];
      assert less[..i] == ts[..i] && less[i..] == ts[i + 1..];
    } else {
      assert ts[..i + 1] == ts[..i] + [ts[i]];
    }
  }

  lemma ErasingDone(ts: seq<Task>, id: nat)
    ensures Erasing(ts, |ts|, id) == ts && Erasing(ts, 0, id) == Without(ts, id)
  {
    assert ts[0..] == ts;
  }

  class AsyncScheduler {
    var tasks: seq<Task>
    var nextId: nat
    var nextStamp: nat
    var stopping: bool

    function View(): State
      reads this
    {
      State(tasks, nextId, nextStamp, stopping)
    }

    ghost predicate Valid()
      reads this
    {
      Inv(View())
    }

    constructor ()
      ensures Valid() && View() == INITIAL
    {
      tasks, nextId, nextStamp, stopping := [], 1, 0, false;
    }

    method RunAfterMs(now: int, delay: int) returns (id: nat)
      requires Valid()
      modifies this
      ensures Valid() && View() == RunAfter(old(View()), now, delay) && id == old(nextId)
    {
      StepKeeps(View(), After(now, delay));
      id := nextId;
      nextId := nextId + 1;
      var task := Task(id, now + Max(0, delay), 0, false, nextStamp, now, 0);
      tasks := Insert(tasks, task);
      nextStamp := nextStamp + 1;
    }

    method RunEveryMs(now: int, interval: int) returns (id: nat)
      requires Valid()
      modifies this
      ensures Valid() && View() == RunEvery(old(View()), now, interval) && id == old(nextId)
    {
      StepKeeps(View(), Every(now, interval));
      id := nextId;
      nextId := nextId + 1;
      var task := Task(id, now + Max(1, interval), Max(1, interval), false, nextStamp, now, 0);
      tasks := Insert(tasks, task);
      nextStamp := nextStamp + 1;
    }

    method PendingCount() returns (n: nat)
      ensures n == CountLive(tasks)
    {
      n := 0;
      for i := 0 to |tasks|
        invariant n == CountLive(tasks[..i])
      {
        assert tasks[..i + 1][..i] == tasks[..i];
        if !tasks[i].cancelled {
          n := n + 1;
        }
      }
      assert tasks[..|tasks|] == tasks;
    }

    method CancelAllTasks()
      requires Valid()
      modifies this
      ensures Valid() && View() == CancelAll(old(View()))
    {
      StepKeeps(View(), CancelEvery);
      ghost var before := tasks;
      for i := 0 to |tasks|
        invariant |tasks| == |before| && nextId == old(nextId) && nextStamp == old(nextStamp)
                  && stopping == old(stopping)
        invariant forall j :: 0 <= j < i ==> tasks[j] == before[j].(cancelled := true)
        invariant forall j :: i <= j < |tasks| ==> tasks[j] == before[j]
      {
        tasks := tasks[i := tasks[i].(cancelled := true)];
      }
      assert tasks == Marked(before);
    }

    method CancelTask(id: nat) returns (ok: bool)
      requires Valid()
      modifies this
      ensures Valid() && (View(), ok) == Cancel(old(View()), id)
    {
      StepKeeps(View(), CancelOne(id));
      FindFirst(tasks, id);
      for i := 0 to |tasks|
        invariant View() == old(View())
        invariant i <= Find(tasks, id)
      {
        if tasks[i].id == id {
          if tasks[i].cancelled {
            return false;
          }
          tasks := tasks[i := tasks[i].(cancelled := true)];
          return true;
        }
      }
      return false;
    }

    /** One pass of the worker's locked region: what to run now, if anything. */
    method PickReady(now: int) returns (ready: Option<Task>)
      requires Valid()
      modifies this
      ensures Valid() && (View(), ready) == Pick(old(View()), now)
    {
      hide Insert;
      StepKeeps(View(), Work(now));
      while true
        invariant Pick(View(), now) == Pick(old(View()), now)
        decreases |tasks|
      {
        if stopping || |tasks| == 0 {
          return None;
        }
        var front := tasks[0];
        if front.cancelled {
          tasks := tasks[1..];
          continue;
        }
        if front.due > now {
          return None;
        }
        if front.interval > 0 {
          var next := front.(due := front.due + front.interval, stamp := nextStamp, runs := front.runs + 1);
          tasks := Insert(tasks[1..], next);
          nextStamp := nextStamp + 1;
        } else {
          tasks := tasks[1..];
        }
        return Some(front);
      }
    }

    /** After a callback: a periodic task that asked to stop is erased wherever it stands. */
    method FinishTask(ready: Task, again: bool)
      requires Valid()
      modifies this
      ensures Valid() && View() == Finish(old(View()), ready, again)
    {
      hide Inv, Without, Erasing;
      StepKeeps(View(), Done(ready, again));
      if !again && ready.interval > 0 {
        var i := 0;
        ErasingDone(tasks, ready.id);
        while i < |tasks|
          invariant 0 <= i <= |tasks|
          invariant Erasing(tasks, i, ready.id) == Without(old(tasks), ready.id)
          invariant nextId == old(nextId) && nextStamp == old(nextStamp) && stopping == old(stopping)
          decreases |tasks| - i
        {
          ErasingOne(tasks, i, ready.id);
          if tasks[i].id == ready.id {
            tasks := tasks[..i] + tasks[i + 1..];
          } else {
            i := i + 1;
          }
        }
        ErasingDone(tasks, ready.id);
      }
    }

    method RequestStop()
      requires Valid()
      modifies this
      ensures Valid() && View() == Step(old(View()), Stop)
    {
      stopping := true;
    }
  }
}
