/**
 The token bucket without its bucket: a request is granted exactly when it stays, together
 with what was granted before, within the bucket size and the rate over every window.
 */
module RateWindows {
  import opened RateLimiter
  import opened Wrappers

  /** What the calls from the i-th on were granted. */
  function Since(b: Bucket, cs: seq<Call>, i: nat): real
    requires i <= |cs|
  {
    Granted(Run(b, cs[..i]), cs[i..])
  }

  /** A window from one of the calls up to now has room for permits more. */
  ghost predicate RoomSince(b: Bucket, cs: seq<Call>, now: real, permits: real, i: nat)
    requires i < |cs|
  {
    Since(b, cs, i) + permits <= b.burst + Earned(b, now - cs[i].now)
  }

  /** So has every one, and so has the time since the bucket held what it starts with. */
  ghost predicate Room(b: Bucket, cs: seq<Call>, now: real, permits: real) {
    && permits <= b.burst
    && Granted(b, cs) + permits <= b.tokens + Earned(b, now - b.last)
    && forall i :: 0 <= i < |cs| ==> RoomSince(b, cs, now, permits, i)
  }

  predicate AllBy(cs: seq<Call>, now: real) {
    forall i :: 0 <= i < |cs| ==> cs[i].now <= now
  }

  function LastTime(cs: seq<Call>, start: real): real {
    if |cs| == 0 then start else cs[|cs| - 1].now
  }

  lemma {:induction false} RunAlike(b: Bucket, c: Bucket, cs: seq<Call>, t: real)
    requires Sound(b) && Sound(c) && Alike(b, c, t) && Ordered(cs, t)
    ensures Alike(Run(b, cs), Run(c, cs), LastTime(cs, t))
    decreases |cs|
  {
    hide Alike, Step;
    if |cs| > 0 {
      StepSound(b, cs[0]);
      StepSound(c, cs[0]);
      StepAlike(b, c, cs[0], t);
      RunAlike(Step(b, cs[0]), Step(c, cs[0]), cs[1..], cs[0].now);
    }
  }

  lemma {:induction false} LastIsLate(cs: seq<Call>, start: real)
    requires Ordered(cs, start)
    ensures start <= LastTime(cs, start) && AllBy(cs, LastTime(cs, start))
    decreases |cs|
  {
    if |cs| > 0 {
      LastIsLate(cs[1..], cs[0].now);
      forall i | 0 <= i < |cs|
        ensures cs[i].now <= LastTime(cs, start)
      {
        if i > 0 {
          assert cs[i] == cs[1..][i - 1];
        }
      }
    }
  }

  lemma {:induction false} OrderedBack(cs: seq<Call>, i: nat, start: real)
    requires i <= |cs| && Ordered(cs, start)
    ensures Ordered(cs[i..], LastTime(cs[..i], start)) && Ordered(cs[..i], start)
    decreases i
  {
    if i > 0 {
      OrderedBack(cs[1..], i - 1, cs[0].now);
      assert cs[1..][i - 1..] == cs[i..] && cs[..i][1..] == cs[1..][..i - 1];
    } else {
      assert cs[0..] == cs;
    }
  }

  /** Refilling first changes neither what is granted nor what is left. */
  lemma RefilledAlike(b: Bucket, r: Bucket, cs: seq<Call>, t: real, now: real)
    requires Sound(b) && b.last <= t && r == Refill(b, t) && Ordered(cs, t) && AllBy(cs, now) && t <= now
    ensures Sound(r) && Granted(b, cs) == Granted(r, cs) && Refill(Run(b, cs), now) == Refill(Run(r, cs), now)
    ensures forall i :: 0 <= i <= |cs| ==> Since(b, cs, i) == Since(r, cs, i)
  {
    hide Earned, Refill;
    RefillSound(b, t);
    forall u | t <= u
      ensures Refill(b, u) == Refill(r, u)
    {
      RefillTwice(b, t, u);
    }
    SameFromAlike(b, r, cs, t);
    RunAlike(b, r, cs, t);
    assert LastTime(cs, t) <= now;
    forall i | 0 <= i <= |cs|
      ensures Since(b, cs, i) == Since(r, cs, i)
    {
      OrderedBack(cs, i, t);
      RunAlike(b, r, cs[..i], t);
      RunSound(b, cs[..i]);
      RunSound(r, cs[..i]);
      SameFromAlike(Run(b, cs[..i]), Run(r, cs[..i]), cs[i..], LastTime(cs[..i], t));
    }
  }

  /** The bucket a call leaves, refilled to its own time even where the call asked for nothing. */
  function After(b: Bucket, c: Call): Bucket {
    if c.Ask? && c.permits <= 0.0 then Refill(b, c.now) else Step(b, c)
  }

  lemma FirstCall(b: Bucket, c: Call)
    requires Sound(b) && b.last <= c.now
    ensures var next := After(b, c);
            && Sound(next) && next.last == c.now && next.rate == b.rate && next.burst == b.burst
            && next.tokens == Min(b.burst, b.tokens + Earned(b, c.now - b.last)) - Grant(b, c)
  {
    RefillSound(b, c.now);
    NothingEarned(b);
    StepSound(b, c);
  }

  lemma AfterAlike(b: Bucket, cs: seq<Call>, now: real)
    requires Sound(b) && |cs| > 0 && Ordered(cs, b.last) && AllBy(cs, now)
    ensures var next, rest := After(b, cs[0]), cs[1..];
            && Granted(b, cs) == Grant(b, cs[0]) + Granted(next, rest)
            && Refill(Run(b, cs), now) == Refill(Run(next, rest), now)
            && forall i :: 1 <= i <= |cs| ==> Since(b, cs, i) == Since(next, rest, i - 1)
  {
    hide Refill;
    var rest := cs[1..];
    assert forall i :: 0 <= i < |rest| ==> rest[i] == cs[i + 1];
    forall i | 1 <= i <= |cs|
      ensures Since(b, cs, i) == Since(Step(b, cs[0]), rest, i - 1)
    {
      assert cs[..i][1..] == rest[..i - 1] && cs[i..] == rest[i - 1..];
    }
    if cs[0].Ask? && cs[0].permits <= 0.0 {
      RefilledAlike(b, Refill(b, cs[0].now), rest, cs[0].now, now);
    }
  }

  /** A bucket at work holds permits exactly when every window has room for them. */
  lemma {:induction false} HoldsIff(b: Bucket, cs: seq<Call>, now: real, permits: real)
    requires Sound(b) && Ordered(cs, b.last) && AllBy(cs, now) && b.last <= now
    ensures Refill(Run(b, cs), now).tokens >= permits <==> Room(b, cs, now, permits)
    decreases |cs|
  {
    hide Earned, Since, Grant;
    if |cs| == 0 {
      NothingEarned(b);
    } else {
      var c, next, rest := cs[0], After(b, cs[0]), cs[1..];
      assert c.now <= now;
      FirstCall(b, c);
      AfterAlike(b, cs, now);
      assert forall i :: 0 <= i < |rest| ==> rest[i] == cs[i + 1];
      HoldsIff(next, rest, now, permits);
      EarnedAdds(b, c.now - b.last, now - c.now);
      assert now - b.last == (c.now - b.last) + (now - c.now);
      RoomSplit(b, cs, now, permits);
    }
  }

  lemma RoomSplit(b: Bucket, cs: seq<Call>, now: real, permits: real)
    requires Sound(b) && |cs| > 0 && Ordered(cs, b.last) && AllBy(cs, now)
    requires Earned(b, now - b.last) == Earned(b, cs[0].now - b.last) + Earned(b, now - cs[0].now)
    ensures Room(b, cs, now, permits) <==> Room(After(b, cs[0]), cs[1..], now, permits)
  {
    hide Earned, Grant, Run, After, RoomSince, Granted;
    var next := After(b, cs[0]);
    FirstCall(b, cs[0]);
    AfterAlike(b, cs, now);
    SameRate(b, next, now - cs[0].now);
    WindowsShift(b, cs, now, permits);
    FirstWindow(b, cs, now, permits);
  }

  /** The windows of a run are its first one and those of the rest. */
  lemma WindowsShift(b: Bucket, cs: seq<Call>, now: real, permits: real)
    requires Sound(b) && |cs| > 0 && Ordered(cs, b.last) && AllBy(cs, now)
    ensures var (next, rest) := (After(b, cs[0]), cs[1..]);
            (forall i :: 0 <= i < |cs| ==> RoomSince(b, cs, now, permits, i)) <==>
            RoomSince(b, cs, now, permits, 0)
            && forall j :: 0 <= j < |rest| ==> RoomSince(next, rest, now, permits, j)
  {
    hide RoomSince, After;
    var next, rest := After(b, cs[0]), cs[1..];
    if forall i :: 0 <= i < |cs| ==> RoomSince(b, cs, now, permits, i) {
      forall j | 0 <= j < |rest|
        ensures RoomSince(next, rest, now, permits, j)
      {
        SameWindow(b, cs, now, permits, j + 1);
      }
    }
    if RoomSince(b, cs, now, permits, 0) && forall j :: 0 <= j < |rest| ==> RoomSince(next, rest, now, permits, j) {
      forall i | 0 <= i < |cs|
        ensures RoomSince(b, cs, now, permits, i)
      {
        if i > 0 {
          SameWindow(b, cs, now, permits, i);
        }
      }
    }
  }

  lemma SameWindow(b: Bucket, cs: seq<Call>, now: real, permits: real, i: nat)
    requires Sound(b) && 0 < i < |cs| && Ordered(cs, b.last) && AllBy(cs, now)
    ensures RoomSince(b, cs, now, permits, i) <==> RoomSince(After(b, cs[0]), cs[1..], now, permits, i - 1)
  {
    hide Earned, Since, After;
    FirstCall(b, cs[0]);
    AfterAlike(b, cs, now);
    assert cs[1..][i - 1] == cs[i];
    SameRate(b, After(b, cs[0]), now - cs[i].now);
  }

  lemma FirstWindow(b: Bucket, cs: seq<Call>, now: real, permits: real)
    requires |cs| > 0
    ensures RoomSince(b, cs, now, permits, 0) <==> Granted(b, cs) + permits <= b.burst + Earned(b, now - cs[0].now)
  {
    hide Earned, Granted;
    RunNothing(b, cs[..0]);
    assert cs[0..] == cs;
  }

  lemma RunNothing(b: Bucket, cs: seq<Call>)
    requires |cs| == 0
    ensures Run(b, cs) == b
  {
  }

  /** What a rate per second gives in a span of seconds. */
  function Gives(rate: real, span: real): real {
    span * rate
  }

  /**
   A limiter of a positive rate and size grants a request exactly if it asks for nothing, or if
   it and everything granted in every window that reaches back from it, to a call or to the
   start, come to no more than the size and what the rate gives for the time.
   */
  lemma GrantedIff(rate: real, size: real, start: real, cs: seq<Call>, now: real, permits: real)
    requires rate > 0.0 && size > 0.0
    requires Ordered(cs, start) && AllBy(cs, now) && start <= now
    ensures var b := Fresh(rate, size, start);
            TryAcquire(Run(b, cs), now, permits).1 <==>
            permits <= 0.0 ||
            (&& Granted(b, cs) + permits <= size + Gives(rate, now - start)
             && permits <= size
             && forall i :: 0 <= i < |cs| ==> Since(b, cs, i) + permits <= size + Gives(rate, now - cs[i].now))
  {
    hide Run, Refill, Since, Granted, Earned, Gives, TryAcquire;
    var b := Fresh(rate, size, start);
    HoldsIff(b, cs, now, permits);
    EarnedIs(b, now - start, rate);
    forall i | 0 <= i < |cs|
      ensures RoomSince(b, cs, now, permits, i) <==> Since(b, cs, i) + permits <= size + Gives(rate, now - cs[i].now)
    {
      EarnedIs(b, now - cs[i].now, rate);
    }
    TakenIff(Run(b, cs), now, permits);
  }

  lemma EarnedIs(b: Bucket, span: real, rate: real)
    requires b.rate == rate
    ensures Earned(b, span) == Gives(rate, span)
  {
  }

  lemma TakenIff(b: Bucket, now: real, permits: real)
    ensures TryAcquire(b, now, permits).1 <==> permits <= 0.0 || Refill(b, now).tokens >= permits
  {
  }

  /** Sizes and rates that are not positive count as 1. */
  lemma DefaultsAreOne(rate: real, size: real, start: real)
    ensures rate <= 0.0 ==> Fresh(rate, size, start) == Fresh(1.0, size, start)
    ensures size <= 0.0 ==> Fresh(rate, size, start) == Fresh(rate, 1.0, start)
  {
  }

  /** The wait computed for a blocked caller is less than a millisecond longer than its deficit needs, plus one. */
  lemma WaitIsShort(b: Bucket, permits: real)
    requires Sound(b) && b.tokens < permits
    ensures (WaitMs(b, permits) - 1) as real * b.rate <= (permits - b.tokens) * 1000.0
  {
    var sec := (permits - b.tokens) / b.rate;
    assert sec * b.rate == permits - b.tokens;
    var ms := (WaitMs(b, permits) - 1) as real;
    assert ms <= sec * 1000.0;
    assert ms * b.rate <= sec * 1000.0 * b.rate;
  }

  // ---- a blocked caller

  /** What reaches the bucket in the first n turns: the calls of others, and the caller's own try. */
  function Calls(permits: real, turns: seq<Turn>, n: nat): seq<Call>
    requires n <= |turns|
  {
    if n == 0 then [] else turns[0].others + [Ask(turns[0].now, permits)] + Calls(permits, turns[1..], n - 1)
  }

  /** The caller's try at turn k is granted, after what reached the bucket before. */
  predicate Served(b: Bucket, permits: real, turns: seq<Turn>, k: nat)
    requires k < |turns|
  {
    TryAcquire(Run(b, Calls(permits, turns, k) + turns[k].others), turns[k].now, permits).1
  }

  lemma {:induction false} RunBoth(b: Bucket, xs: seq<Call>, ys: seq<Call>)
    ensures Run(b, xs + ys) == Run(Run(b, xs), ys)
    decreases |xs|
  {
    hide Step;
    if |xs| == 0 {
      assert xs + ys == ys;
    } else {
      assert (xs + ys)[1..] == xs[1..] + ys;
      RunBoth(Step(b, xs[0]), xs[1..], ys);
    }
  }

  lemma ServedLater(b: Bucket, permits: real, turns: seq<Turn>, k: nat)
    requires 0 < k < |turns|
    ensures var r := TryAcquire(Run(b, turns[0].others), turns[0].now, permits).0;
            Served(b, permits, turns, k) <==> Served(r, permits, turns[1..], k - 1)
  {
    hide TryAcquire;
    var others, ask, rest := turns[0].others, [Ask(turns[0].now, permits)], turns[1..];
    var more := Calls(permits, rest, k - 1) + rest[k - 1].others;
    assert Calls(permits, turns, k) + turns[k].others == others + (ask + more);
    RunBoth(b, others, ask + more);
    RunBoth(Run(b, others), ask, more);
    RunNothing(Step(Run(b, others), ask[0]), ask[1..]);
  }

  /** A blocked caller is served at the first turn at which its request, made then like any other, is granted. */
  lemma {:induction false} ServedAtFirst(b: Bucket, permits: real, turns: seq<Turn>)
    ensures match Waiting(b, permits, turns).1
            case None => forall k :: 0 <= k < |turns| ==> !Served(b, permits, turns, k)
            case Some(n) =>
              n < |turns| && Served(b, permits, turns, n) && forall k :: 0 <= k < n ==> !Served(b, permits, turns, k)
    decreases |turns|
  {
    hide TryAcquire, Run, Calls;
    if |turns| > 0 {
      var (r, ok) := TryAcquire(Run(b, turns[0].others), turns[0].now, permits);
      assert Served(b, permits, turns, 0) <==> ok by {
        NoCalls(permits, turns);
        assert [] + turns[0].others == turns[0].others;
      }
      ServedAtFirst(r, permits, turns[1..]);
      forall k | 0 < k < |turns|
        ensures Served(b, permits, turns, k) <==> Served(r, permits, turns[1..], k - 1)
      {
        ServedLater(b, permits, turns, k);
      }
      assert forall j :: 0 <= j < |turns| - 1 ==>
          (Served(r, permits, turns[1..], j) <==> Served(b, permits, turns, j + 1));
    }
  }

  lemma NoCalls(permits: real, turns: seq<Turn>)
    ensures Calls(permits, turns, 0) == []
  {
  }
}
