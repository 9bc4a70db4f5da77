/** The token bucket, with tokens and times as reals. */
module RateLimiter {
  import opened Wrappers

  datatype Bucket = Bucket(rate: real, burst: real, tokens: real, last: real)

  function Min(a: real, b: real): real {
    if b < a then b else a
  }

  /** Rates and sizes that are not positive count as 1; the bucket starts full. */
  function Fresh(rate: real, burst: real, now: real): Bucket {
    var size := if burst > 0.0 then burst else 1.0;
    Bucket(if rate > 0.0 then rate else 1.0, size, size, now)
  }

  predicate Sound(b: Bucket) {
    b.rate > 0.0 && b.burst > 0.0 && 0.0 <= b.tokens <= b.burst
  }

  /** What a time span earns. */
  function Earned(b: Bucket, span: real): real {
    span * b.rate
  }

  /** The lazy refill at time now. */
  function Refill(b: Bucket, now: real): Bucket {
    if now - b.last > 0.0
    then b.(tokens := Min(b.burst, b.tokens + Earned(b, now - b.last)), last := now)
    else b
  }

  function TryAcquire(b: Bucket, now: real, permits: real): (Bucket, bool) {
    if permits <= 0.0 then (b, true) else
    var r := Refill(b, now);
    if r.tokens >= permits then (r.(tokens := r.tokens - permits), true) else (r, false)
  }

  /** What a caller may do at time now: ask for permits, or only look at what is available. */
  datatype Call = Ask(now: real, permits: real) | Look(now: real)

  function Step(b: Bucket, c: Call): Bucket {
    match c
    case Ask(now, permits) => TryAcquire(b, now, permits).0
    case Look(now) => Refill(b, now)
  }

  /** Permits this call takes out of the bucket. */
  function Grant(b: Bucket, c: Call): real {
    if c.Ask? && c.permits > 0.0 && TryAcquire(b, c.now, c.permits).1 then c.permits else 0.0
  }

  function Run(b: Bucket, cs: seq<Call>): Bucket
    decreases |cs|
  {
    if |cs| == 0 then b else Run(Step(b, cs[0]), cs[1..])
  }

  function Granted(b: Bucket, cs: seq<Call>): real
    decreases |cs|
  {
    if |cs| == 0 then 0.0 else Grant(b, cs[0]) + Granted(Step(b, cs[0]), cs[1..])
  }

  /** The calls happen in order, none before start. */
  predicate Ordered(cs: seq<Call>, start: real)
    decreases |cs|
  {
    |cs| > 0 ==> start <= cs[0].now && Ordered(cs[1..], cs[0].now)
  }

  // ---- refilling

  lemma EarnedAdds(b: Bucket, x: real, y: real)
    ensures Earned(b, x + y) == Earned(b, x) + Earned(b, y)
  {
  }

  lemma EarnedPositive(b: Bucket, x: real)
    requires Sound(b) && x >= 0.0
    ensures Earned(b, x) >= 0.0
  {
  }

  lemma RefillSound(b: Bucket, now: real)
    requires Sound(b)
    ensures Sound(Refill(b, now))
  {
    if now - b.last > 0.0 {
      EarnedPositive(b, now - b.last);
    }
  }

  /** Refilling on the way changes nothing about a later refill. */
  lemma RefillTwice(b: Bucket, t: real, u: real)
    requires Sound(b) && t <= u
    ensures Refill(Refill(b, t), u) == Refill(b, u)
  {
    hide Earned;
    if t > b.last && u > t {
      EarnedAdds(b, t - b.last, u - t);
      assert u - b.last == (t - b.last) + (u - t);
      EarnedPositive(b, t - b.last);
      EarnedPositive(b, u - t);
      SameRate(b, Refill(b, t), u - t);
    }
  }

  lemma SameRate(b: Bucket, c: Bucket, x: real)
    requires b.rate == c.rate
    ensures Earned(b, x) == Earned(c, x)
  {
  }

  lemma StepSound(b: Bucket, c: Call)
    requires Sound(b)
    ensures Sound(Step(b, c)) && Step(b, c).rate == b.rate && Step(b, c).burst == b.burst
  {
    RefillSound(b, c.now);
  }

  // ---- never too many permits

  /** Every run pays for its grants with tokens it had or earned since. */
  lemma {:induction false} GrantsArePaid(b: Bucket, cs: seq<Call>, until: real)
    requires Sound(b) && Ordered(cs, b.last) && b.last <= until
    requires forall i :: 0 <= i < |cs| ==> cs[i].now <= until
    ensures Granted(b, cs) <= b.tokens + Earned(b, until - b.last)
    decreases |cs|
  {
    hide Earned;
    EarnedPositive(b, until - b.last);
    if |cs| > 0 {
      var c, rest := cs[0], cs[1..];
      var next := Step(b, c);
      assert c.now <= until;
      StepSound(b, c);
      OrderedFrom(rest, c.now, next.last);
      assert forall i :: 0 <= i < |rest| ==> rest[i] == cs[i + 1];
      GrantsArePaid(next, rest, until);
      EarnedAdds(b, next.last - b.last, until - next.last);
      assert until - b.last == (next.last - b.last) + (until - next.last);
      SameRate(b, next, until - next.last);
      NothingEarned(b);
    }
  }

  lemma NothingEarned(b: Bucket)
    ensures Earned(b, 0.0) == 0.0
  {
  }

  lemma OrderedFrom(cs: seq<Call>, start: real, earlier: real)
    requires Ordered(cs, start) && earlier <= start
    ensures Ordered(cs, earlier)
  {
  }

  /**
   Within any window the permits granted come to at most the bucket size plus what the
   window earns, whatever state the bucket was in before.
   */
  lemma WindowBound(b: Bucket, cs: seq<Call>, t1: real, t2: real)
    requires Sound(b) && Ordered(cs, b.last) && t1 <= t2 && b.last <= t2
    requires forall i :: 0 <= i < |cs| ==> t1 <= cs[i].now <= t2
    ensures Granted(b, cs) <= b.burst + Earned(b, t2 - t1)
  {
    hide Earned;
    EarnedPositive(b, t2 - t1);
    if |cs| > 0 {
      var r := Refill(b, t1);
      RefillSound(b, t1);
      OrderedAfter(cs, t1, b.last);
      SameFrom(b, r, cs, t1);
      GrantsArePaid(r, cs, t2);
      EarnedAdds(b, r.last - t1, t2 - r.last);
      assert t2 - t1 == (r.last - t1) + (t2 - r.last);
      EarnedPositive(b, r.last - t1);
      SameRate(b, r, t2 - r.last);
    }
  }

  lemma {:induction false} RunSound(b: Bucket, cs: seq<Call>)
    requires Sound(b)
    ensures Sound(Run(b, cs)) && Run(b, cs).rate == b.rate && Run(b, cs).burst == b.burst
    decreases |cs|
  {
    if |cs| > 0 {
      StepSound(b, cs[0]);
      RunSound(Step(b, cs[0]), cs[1..]);
    }
  }

  lemma {:induction false} OrderedFront(cs: seq<Call>, n: nat, start: real)
    requires n <= |cs| && Ordered(cs, start)
    ensures Ordered(cs[..n], start)
    decreases n
  {
    if n > 0 {
      OrderedFront(cs[1..], n - 1, cs[0].now);
      assert cs[..n][1..] == cs[1..][..n - 1];
    }
  }

  /**
   In every run, the permits granted by the calls from the i-th to the j-th come to at most
   the bucket size plus what the time they span earns.
   */
  lemma {:induction false} WindowInRun(b: Bucket, cs: seq<Call>, i: nat, j: nat, t1: real, t2: real)
    requires Sound(b) && Ordered(cs, b.last) && i <= j <= |cs| && t1 <= t2
    requires forall k :: i <= k < j ==> t1 <= cs[k].now <= t2
    ensures Granted(Run(b, cs[..i]), cs[i..j]) <= b.burst + Earned(b, t2 - t1)
    decreases i
  {
    hide Earned;
    if i == j {
      RunSound(b, cs[..i]);
      EarnedPositive(b, t2 - t1);
    } else if i == 0 {
      assert cs[0..j] == cs[..j];
      OrderedFront(cs, j, b.last);
      WindowBound(b, cs[..j], t1, t2);
    } else {
      var next := Step(b, cs[0]);
      StepSound(b, cs[0]);
      StepLast(b, cs[0]);
      OrderedFrom(cs[1..], cs[0].now, next.last);
      assert cs[..i][1..] == cs[1..][..i - 1] && cs[1..][i - 1..j - 1] == cs[i..j];
      WindowInRun(next, cs[1..], i - 1, j - 1, t1, t2);
      SameRate(b, next, t2 - t1);
    }
  }

  /** So for a limiter from its construction on. */
  lemma WindowFromFresh(rate: real, burst: real, now: real, cs: seq<Call>, i: nat, j: nat, t1: real, t2: real)
    requires Ordered(cs, now) && i <= j <= |cs| && t1 <= t2
    requires forall k :: i <= k < j ==> t1 <= cs[k].now <= t2
    ensures var b := Fresh(rate, burst, now);
            Granted(Run(b, cs[..i]), cs[i..j]) <= b.burst + Earned(b, t2 - t1)
  {
    hide Run, Granted, Ordered;
    WindowInRun(Fresh(rate, burst, now), cs, i, j, t1, t2);
  }

  lemma OrderedAfter(cs: seq<Call>, t1: real, start: real)
    requires Ordered(cs, start) && forall i :: 0 <= i < |cs| ==> t1 <= cs[i].now
    ensures Ordered(cs, if t1 < start then start else t1)
  {
    if |cs| > 0 {
      assert t1 <= cs[0].now;
    }
  }

  // ---- looking changes nothing

  /** Both buckets look the same to any refill from t on. */
  ghost predicate Alike(b: Bucket, c: Bucket, t: real) {
    forall u :: t <= u ==> Refill(b, u) == Refill(c, u)
  }

  lemma {:induction false} SameFromAlike(b: Bucket, c: Bucket, cs: seq<Call>, t: real)
    requires Sound(b) && Sound(c) && Alike(b, c, t) && Ordered(cs, t)
    ensures Granted(b, cs) == Granted(c, cs) && Answers(b, cs) == Answers(c, cs)
    decreases |cs|
  {
    hide Earned;
    if |cs| > 0 {
      var now := cs[0].now;
      assert Refill(b, now) == Refill(c, now);
      StepSound(b, cs[0]);
      StepSound(c, cs[0]);
      StepAlike(b, c, cs[0], t);
      SameFromAlike(Step(b, cs[0]), Step(c, cs[0]), cs[1..], now);
    }
  }

  lemma StepAlike(b: Bucket, c: Bucket, call: Call, t: real)
    requires Alike(b, c, t) && t <= call.now
    ensures Alike(Step(b, call), Step(c, call), call.now)
  {
    hide Earned;
    assert Refill(b, call.now) == Refill(c, call.now);
  }

  lemma SameFrom(b: Bucket, r: Bucket, cs: seq<Call>, t: real)
    requires Sound(b) && r == Refill(b, t) && Ordered(cs, if t < b.last then b.last else t)
    ensures Granted(b, cs) == Granted(r, cs) && Answers(b, cs) == Answers(r, cs)
  {
    var from := if t < b.last then b.last else t;
    RefillSound(b, t);
    forall u | from <= u
      ensures Refill(b, u) == Refill(r, u)
    {
      RefillTwice(b, t, u);
    }
    SameFromAlike(b, r, cs, from);
  }

  /** The answers callers get, in order. */
  function Answers(b: Bucket, cs: seq<Call>): seq<bool>
    decreases |cs|
  {
    if |cs| == 0 then [] else
    (if cs[0].Ask? then [TryAcquire(b, cs[0].now, cs[0].permits).1] else []) + Answers(Step(b, cs[0]), cs[1..])
  }

  function WithoutLooks(cs: seq<Call>): seq<Call> {
    if |cs| == 0 then []
    else if cs[0].Look? then WithoutLooks(cs[1..])
    else [cs[0]] + WithoutLooks(cs[1..])
  }

  lemma {:induction false} WithoutLooksOrdered(cs: seq<Call>, start: real)
    requires Ordered(cs, start)
    ensures Ordered(WithoutLooks(cs), start)
    decreases |cs|
  {
    if |cs| > 0 {
      WithoutLooksOrdered(cs[1..], cs[0].now);
      if cs[0].Look? {
        OrderedFrom(WithoutLooks(cs), cs[0].now, start);
      } else {
        assert WithoutLooks(cs)[1..] == WithoutLooks(cs[1..]);
      }
    }
  }

  /** Asking what is available, however often, never changes an answer. */
  lemma {:induction false} LookingChangesNothing(b: Bucket, cs: seq<Call>)
    requires Sound(b) && Ordered(cs, b.last)
    ensures Answers(b, cs) == Answers(b, WithoutLooks(cs))
    decreases |cs|
  {
    hide Refill;
    if |cs| > 0 {
      var next, rest := Step(b, cs[0]), cs[1..];
      StepSound(b, cs[0]);
      StepLast(b, cs[0]);
      OrderedFrom(rest, cs[0].now, next.last);
      LookingChangesNothing(next, rest);
      if cs[0].Look? {
        WithoutLooksOrdered(rest, cs[0].now);
        SameFrom(b, next, WithoutLooks(cs), cs[0].now);
      } else {
        assert WithoutLooks(cs)[1..] == WithoutLooks(rest);
      }
    }
  }

  lemma StepLast(b: Bucket, c: Call)
    requires b.last <= c.now
    ensures b.last <= Step(b, c).last <= c.now
  {
  }

  // ---- waiting long enough

  /** The wait acquire computes: the deficit at the bucket's rate in whole milliseconds, plus one. */
  function WaitMs(b: Bucket, permits: real): int
    requires b.rate > 0.0
  {
    ((permits - b.tokens) / b.rate * 1000.0).Floor + 1
  }

  /** Without competitors, a caller who waited that long gets permits that fit the bucket. */
  lemma WaitSuffices(b: Bucket, permits: real, later: real)
    requires Sound(b) && b.tokens < permits <= b.burst
    requires later >= b.last + WaitMs(b, permits) as real / 1000.0
    ensures TryAcquire(b, later, permits).1
  {
    var deficit := permits - b.tokens;
    var sec := deficit / b.rate;
    assert sec * b.rate == deficit;
    assert sec > 0.0 by {
      DividePositive(deficit, b.rate);
    }
    assert WaitMs(b, permits) as real > sec * 1000.0;
    var span := later - b.last;
    assert span >= sec;
    EarnedMore(b, sec, span);
  }

  lemma DividePositive(x: real, y: real)
    requires x > 0.0 && y > 0.0
    ensures x / y > 0.0
  {
  }

  lemma EarnedMore(b: Bucket, x: real, y: real)
    requires Sound(b) && x <= y
    ensures Earned(b, x) <= Earned(b, y)
  {
  }

  /** More permits than the bucket holds are never granted, at any time and in any state. */
  lemma TooManyNeverGranted(b: Bucket, now: real, permits: real)
    requires Sound(b) && permits > b.burst
    ensures !TryAcquire(b, now, permits).1
  {
  }

  /** So a blocked caller is served in the end exactly when the request fits the bucket. */
  lemma ServedIff(b: Bucket, permits: real)
    requires Sound(b) && b.tokens < permits
    ensures (exists later :: later >= b.last && TryAcquire(b, later, permits).1) <==> permits <= b.burst
  {
    if permits <= b.burst {
      var later := b.last + WaitMs(b, permits) as real / 1000.0;
      DividePositive(permits - b.tokens, b.rate);
      WaitSuffices(b, permits, later);
      assert later >= b.last;
    } else {
      forall later
        ensures !TryAcquire(b, later, permits).1
      {
        TooManyNeverGranted(b, later, permits);
      }
    }
  }

  // ---- a blocked caller

  /** One turn of acquire's loop: what other callers did since the last, and when it looks again. */
  datatype Turn = Turn(others: seq<Call>, now: real)

  /** The bucket after these turns of a caller, and the turn at which it was served, if any. */
  function Waiting(b: Bucket, permits: real, turns: seq<Turn>): (Bucket, Option<nat>)
    decreases |turns|
  {
    if |turns| == 0 then (b, None)
    else
      var (r, ok) := TryAcquire(Run(b, turns[0].others), turns[0].now, permits);
      if ok then (r, Some(0))
      else
        var (t, k) := Waiting(r, permits, turns[1..]);
        (t, if k.Some? then Some(k.value + 1) else None)
  }

  /** Too large a request is never served, whatever the others do and however long it waits. */
  lemma {:induction false} WaitsForever(b: Bucket, permits: real, turns: seq<Turn>)
    requires Sound(b) && permits > b.burst
    ensures Waiting(b, permits, turns).1 == None
    decreases |turns|
  {
    hide TryAcquire, Run;
    if |turns| > 0 {
      var before := Run(b, turns[0].others);
      RunSound(b, turns[0].others);
      TooManyNeverGranted(before, turns[0].now, permits);
      StepSound(before, Ask(turns[0].now, permits));
      WaitsForever(TryAcquire(before, turns[0].now, permits).0, permits, turns[1..]);
    }
  }

  /** Alone, a caller whose request fits the bucket is served at its second turn at the latest. */
  lemma ServedInTwoTurns(b: Bucket, permits: real, now: real, later: real)
    requires Sound(b) && 0.0 < permits <= b.burst && b.last <= now
    requires later >= now + WaitMs(Refill(b, now), permits) as real / 1000.0
    ensures Waiting(b, permits, [Turn([], now), Turn([], later)]).1.Some?
  {
    hide WaitMs;
    var turns := [Turn([], now), Turn([], later)];
    assert turns[1..] == [Turn([], later)];
    assert Run(b, []) == b;
    if !TryAcquire(b, now, permits).1 {
      var r := Refill(b, now);
      RefillSound(b, now);
      WaitSuffices(r, permits, later);
      assert Run(r, []) == r;
      assert Waiting(r, permits, turns[1..]).1 == Some(0);
    }
  }

  class Limiter {
    var rate: real
    var burst: real
    var tokens: real
    var last: real

    function View(): Bucket
      reads this
    {
      Bucket(rate, burst, tokens, last)
    }

    ghost predicate Valid()
      reads this
    {
      Sound(View())
    }

    constructor (ratePerSec: real, burstSize: real, now: real)
      ensures Valid() && View() == Fresh(ratePerSec, burstSize, now)
    {
      rate := if ratePerSec > 0.0 then ratePerSec else 1.0;
      burst := if burstSize > 0.0 then burstSize else 1.0;
      tokens := if burstSize > 0.0 then burstSize else 1.0;
      last := now;
    }

    method RefillLocked(now: real)
      requires Valid()
      modifies this
      ensures Valid() && View() == Refill(old(View()), now)
    {
      RefillSound(View(), now);
      var elapsed := now - last;
      if elapsed > 0.0 {
        tokens := Min(burst, tokens + elapsed * rate);
        last := now;
      }
    }

    method TryTake(now: real, permits: real) returns (ok: bool)
      requires Valid()
      modifies this
      ensures Valid() && (View(), ok) == TryAcquire(old(View()), now, permits)
    {
      if permits <= 0.0 {
        return true;
      }
      RefillLocked(now);
      if tokens >= permits {
        tokens := tokens - permits;
        return true;
      }
      return false;
    }

    /**
     Waits for permits, turn by turn, and reports the milliseconds it took; None if these
     turns did not serve it. The calls of others come between the turns.
     */
    method Acquire(start: real, permits: real, turns: seq<Turn>, finish: real) returns (waited: Option<int>)
      requires Valid() && start <= finish
      modifies this
      ensures Valid()
      ensures permits <= 0.0 ==> waited == Some(0) && View() == old(View())
      ensures permits > 0.0 ==>
                View() == Waiting(old(View()), permits, turns).0
                && waited == (if Waiting(old(View()), permits, turns).1.Some?
                    then Some(((finish - start) * 1000.0).Floor) else None)
    {
      hide Run;
      if permits <= 0.0 {
        return Some(0);
      }
      var i := 0;
      assert turns[0..] == turns;
      while i < |turns|
        invariant 0 <= i <= |turns| && Valid()
        invariant Waiting(View(), permits, turns[i..]).0 == Waiting(old(View()), permits, turns).0
        invariant Waiting(View(), permits, turns[i..]).1.Some? <==> Waiting(old(View()), permits, turns).1.Some?
      {
        assert turns[i..][0] == turns[i] && turns[i..][1..] == turns[i + 1..];
        Others(turns[i].others);
        RefillLocked(turns[i].now);
        if tokens >= permits {
          tokens := tokens - permits;
          return Some(((finish - start) * 1000.0).Floor);
        }
        i := i + 1;
      }
      return None;
    }

    /** The lock passes to other callers. */
    method Others(cs: seq<Call>)
      requires Valid()
      modifies this`tokens, this`last
      ensures Valid() && View() == Run(old(View()), cs)
    {
      RunSound(View(), cs);
      var b := Run(View(), cs);
      tokens, last := b.tokens, b.last;
    }

    method Available(now: real) returns (n: real)
      requires Valid()
      modifies this
      ensures Valid() && View() == Refill(old(View()), now) && n == View().tokens
    {
      RefillLocked(now);
      n := tokens;
    }
  }
}
