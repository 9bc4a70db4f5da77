/**
 The run state object: starting a run, asking it to stop, and the worker loop cut at its
 atomic operations and locked regions.
 */
module RunStateObject {
  import opened WorkerPool

  class RunState {
    const ids: seq<string>
    var results: seq<Suite>
    var next: nat
    var stop: bool
    var running: bool
    var keepGoing: bool
    var hasCallback: bool
    var workers: seq<Pc>

    function View(): State
      reads this
    {
      State(results, next, stop, keepGoing, hasCallback, workers)
    }

    /** Between runs every worker has left, so nothing is claimed behind a new run's back. */
    ghost predicate Valid()
      reads this
    {
      && |results| == |ids| && Inv(View())
      && (running ==> 0 < |workers|)
      && (!running ==> forall w :: 0 <= w < |workers| ==> workers[w].Gone?)
    }

    constructor (ids: seq<string>)
      ensures Valid() && !running && this.ids == ids && workers == []
      ensures forall i :: 0 <= i < |ids| ==> results[i] == Suite(false, Pending, 0, 0, false, 0)
    {
      this.ids := ids;
      results := seq(|ids|, _ => Suite(false, Pending, 0, 0, false, 0));
      next, stop, running, keepGoing, hasCallback, workers := 0, false, false, false, false, [];
    }

    /** The indices of the wanted suites, in order. */
    method Choose(picks: seq<string>) returns (chosen: seq<nat>)
      ensures |chosen| == Chosen(picks, ids)
      ensures forall i: nat :: i in chosen <==> i < |ids| && Wanted(picks, ids[i])
    {
      chosen := [];
      var i := 0;
      while i < |ids|
        invariant 0 <= i <= |ids|
        invariant |chosen| == Chosen(picks, ids[..i])
        invariant forall k: nat :: k in chosen <==> k < i && Wanted(picks, ids[k])
      {
        assert ids[..i + 1][..i] == ids[..i];
        if Wanted(picks, ids[i]) {
          chosen := chosen + [i];
        }
        i := i + 1;
      }
      assert ids[..i] == ids;
    }

    /** Refused while a run goes on or when nothing is wanted; otherwise everything starts afresh. */
    method Start(picks: seq<string>, asked: int, keepGoing: bool) returns (ok: bool)
      requires Valid()
      modifies this
      ensures Valid()
      ensures ok <==> !old(running) && exists i :: 0 <= i < |ids| && Wanted(picks, ids[i])
      ensures !ok ==> View() == old(View()) && running == old(running)
      ensures ok ==> running && View() == Started(picks, ids, asked, keepGoing, old(hasCallback))
      ensures ok ==> 1 <= |workers| <= (if asked < 1 then 1 else asked)
    {
      if running {
        return false;
      }
      var chosen := Choose(picks);
      if |chosen| == 0 {
        assert forall i: nat :: i < |ids| ==> i !in chosen;
        return false;
      }
      assert chosen[0] in chosen;
      var table := seq(|ids|, _ => Suite(false, Pending, 0, 0, false, 0));
      var k := 0;
      while k < |chosen|
        invariant 0 <= k <= |chosen| && |table| == |ids|
        invariant forall i: nat :: i < |ids| ==> table[i] == Suite(i in chosen[..k], Pending, 0, 0, false, 0)
      {
        assert chosen[k] in chosen;
        table := table[chosen[k] := table[chosen[k]].(selected := true)];
        k := k + 1;
      }
      assert chosen[..k] == chosen;
      results, this.keepGoing, stop, next, running := table, keepGoing, false, 0, true;
      var jobs := if asked < 1 then 1 else asked;
      if jobs > |chosen| {
        jobs := |chosen|;
      }
      workers := seq(jobs, _ => Claiming);
      assert View() == Started(picks, ids, asked, keepGoing, hasCallback);
      ok := true;
    }

    method RequestStop()
      requires Valid()
      modifies this`stop
      ensures Valid() && Possible(old(View()), WorkerPool.RequestStop)
      ensures View() == Step(old(View()), WorkerPool.RequestStop)
    {
      InvInRange(View());
      StepKeeps(View(), WorkerPool.RequestStop);
      stop := true;
    }

    method SetOnSuiteFinished(present: bool)
      requires Valid()
      modifies this`hasCallback
      ensures Valid() && Possible(old(View()), SetCallback(present))
      ensures View() == Step(old(View()), SetCallback(present))
    {
      InvInRange(View());
      StepKeeps(View(), SetCallback(present));
      hasCallback := present;
    }

    /** The top of the loop: take the next index, or leave. */
    method ClaimNext(w: nat)
      requires w < |workers| && workers[w].Claiming?
      modifies this`next, this`results, this`workers
      ensures View() == Claim(old(View()), w)
    {
      var index := next;
      next := next + 1;
      if index >= |results| {
        workers := workers[w := Gone];
        return;
      }
      results := results[index := results[index].(claims := results[index].claims + 1)];
      workers := workers[w := Looking(index)];
    }

    /** The rest of the loop body, for the index in hand. */
    method HandleNext(w: nat, outcome: Outcome)
      requires w < |workers| && Busy(workers[w]) && workers[w].index < |results|
      modifies this`results, this`workers, this`stop
      ensures View() == Handle(old(View()), w, outcome)
    {
      var pc := workers[w];
      assert results[pc.index := results[pc.index]] == results;
      match pc
      case Looking(i) =>
        workers := workers[w := if results[i].selected then Checking(i) else Claiming];
      case Checking(i) =>
        workers := workers[w := if stop then Skipping(i) else Starting(i)];
      case Skipping(i) =>
        results := results[i := results[i].(state := NotRun)];
        workers := workers[w := Claiming];
      case Starting(i) =>
        results := results[i := results[i].(state := SuiteState.Running, starts := results[i].starts + 1)];
        workers := workers[w := Executing(i)];
      case Executing(i) =>
        results := results[i := results[i].(state := outcome, armed := hasCallback)];
        workers := workers[w := Stopping(i, outcome, hasCallback)];
      case Stopping(i, r, armed) =>
        if r == Failed || r == Crashed {
          if !keepGoing {
            stop := true;
          }
        }
        workers := workers[w := Calling(i, r, armed)];
      case Calling(i, r, armed) =>
        if armed {
          results := results[i := results[i].(fired := results[i].fired + 1)];
        }
        workers := workers[w := Claiming];
    }

    /** One atomic operation of worker w's loop; outcome is what the suite reports if this one runs it. */
    method WorkerLoopStep(w: nat, outcome: Outcome)
      requires Valid() && running && w < |workers|
      modifies this
      ensures Valid() && running && Possible(old(View()), Work(w, outcome))
      ensures View() == Step(old(View()), Work(w, outcome))
    {
      hide Inv, Claim, Handle;
      InvInRange(View());
      StepKeeps(View(), Work(w, outcome));
      StepShape(View(), Work(w, outcome));
      if workers[w].Claiming? {
        ClaimNext(w);
      } else if !workers[w].Gone? {
        HandleNext(w, outcome);
      }
    }

    /** The supervisor, once it has joined every worker. */
    method Supervise()
      requires Valid() && running && Over(View())
      modifies this`running
      ensures Valid() && !running
    {
      running := false;
    }
  }
}
