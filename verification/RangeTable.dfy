/** Property tables: code-point ranges with a value, searched by bisection. */
module RangeTable {
  datatype Range<V> = Range(lo: nat, hi: nat, value: V)

  predicate Covers<V>(r: Range<V>, cp: nat) {
    r.lo <= cp <= r.hi
  }

  /** The value of the first range that covers cp, or otherwise when none does. */
  function ValueAt<V>(t: seq<Range<V>>, otherwise: V, cp: nat): V {
    if |t| == 0 then otherwise
    else if Covers(t[0], cp) then t[0].value
    else ValueAt(t[1..], otherwise, cp)
  }

  ghost predicate CoveredBy<V>(t: seq<Range<V>>, cp: nat) {
    exists i :: 0 <= i < |t| && Covers(t[i], cp)
  }

  /** In ascending order and without overlap, as the search needs it. */
  ghost predicate Ordered<V>(t: seq<Range<V>>) {
    && (forall i :: 0 <= i < |t| ==> t[i].lo <= t[i].hi)
    && (forall i, j :: 0 <= i < j < |t| ==> t[i].hi < t[j].lo)
  }

  predicate Apart<V>(a: Range<V>, b: Range<V>) {
    a.hi < b.lo || b.hi < a.lo
  }

  /** In any order, but without overlap. */
  ghost predicate Disjoint<V>(t: seq<Range<V>>) {
    && (forall i :: 0 <= i < |t| ==> t[i].lo <= t[i].hi)
    && (forall i, j :: 0 <= i < j < |t| ==> Apart(t[i], t[j]))
  }

  lemma {:induction false} ValueWhereCovered<V>(t: seq<Range<V>>, otherwise: V, cp: nat, i: nat)
    requires Disjoint(t) && i < |t| && Covers(t[i], cp)
    ensures ValueAt(t, otherwise, cp) == t[i].value
    decreases |t|
  {
    if i > 0 {
      assert Apart(t[0], t[i]);
      ValueWhereCovered(t[1..], otherwise, cp, i - 1);
    }
  }

  lemma {:induction false} ValueWhereUncovered<V>(t: seq<Range<V>>, otherwise: V, cp: nat)
    requires !CoveredBy(t, cp)
    ensures ValueAt(t, otherwise, cp) == otherwise
    decreases |t|
  {
    if |t| > 0 {
      ValueWhereUncovered(t[1..], otherwise, cp);
    }
  }

  /** Bisection over an ordered table. */
  method Lookup<V>(t: seq<Range<V>>, otherwise: V, cp: nat) returns (v: V)
    requires Ordered(t)
    ensures v == ValueAt(t, otherwise, cp)
  {
    var lo, hi := 0, |t|;
    while lo < hi
      invariant 0 <= lo <= hi <= |t|
      invariant forall i :: 0 <= i < lo ==> t[i].hi < cp
      invariant forall i :: hi <= i < |t| ==> cp < t[i].lo
    {
      var mid := lo + (hi - lo) / 2;
      if cp < t[mid].lo {
        hi := mid;
      } else if cp > t[mid].hi {
        lo := mid + 1;
      } else {
        ValueWhereCovered(t, otherwise, cp, mid);
        return t[mid].value;
      }
    }
    ValueWhereUncovered(t, otherwise, cp);
    return otherwise;
  }

  // ---- building the table

  /** The order of the generator's sort; disjoint ranges never tie. */
  function Inserted<V>(r: Range<V>, t: seq<Range<V>>): seq<Range<V>> {
    if |t| == 0 || r.lo <= t[0].lo then [r] + t else [t[0]] + Inserted(r, t[1..])
  }

  function Sorted<V>(t: seq<Range<V>>): seq<Range<V>> {
    if |t| == 0 then [] else Inserted(t[0], Sorted(t[1..]))
  }

  ghost predicate AllApart<V>(x: Range<V>, t: seq<Range<V>>) {
    forall k :: 0 <= k < |t| ==> Apart(x, t[k])
  }

  ghost predicate AllAbove<V>(t: seq<Range<V>>, bound: nat) {
    forall k :: 0 <= k < |t| ==> bound < t[k].lo
  }

  lemma {:induction false} InsertedSpread<V>(r: Range<V>, t: seq<Range<V>>, x: Range<V>, bound: nat)
    ensures Apart(x, r) && AllApart(x, t) ==> AllApart(x, Inserted(r, t))
    ensures bound < r.lo && AllAbove(t, bound) ==> AllAbove(Inserted(r, t), bound)
    decreases |t|
  {
    if |t| > 0 && r.lo > t[0].lo {
      var rest := t[1..];
      assert AllApart(x, t) ==> AllApart(x, rest);
      assert AllAbove(t, bound) ==> AllAbove(rest, bound);
      InsertedSpread(r, rest, x, bound);
    }
  }

  lemma {:induction false} InsertedOrdered<V>(r: Range<V>, t: seq<Range<V>>)
    requires Ordered(t) && r.lo <= r.hi && AllApart(r, t)
    ensures Ordered(Inserted(r, t))
    decreases |t|
  {
    if |t| > 0 {
      assert Apart(r, t[0]);
      if r.lo > t[0].lo {
        var rest := t[1..];
        InsertedOrdered(r, rest);
        assert AllAbove(rest, t[0].hi);
        InsertedSpread(r, rest, r, t[0].hi);
      }
    }
  }

  lemma {:induction false} InsertedValue<V>(r: Range<V>, t: seq<Range<V>>, otherwise: V, cp: nat)
    requires AllApart(r, t)
    ensures ValueAt(Inserted(r, t), otherwise, cp) == ValueAt([r] + t, otherwise, cp)
    decreases |t|
  {
    assert ([r] + t)[1..] == t;
    if |t| > 0 && r.lo > t[0].lo {
      assert Apart(r, t[0]);
      var rest := t[1..];
      InsertedValue(r, rest, otherwise, cp);
      assert ([r] + rest)[1..] == rest;
    }
  }

  lemma {:induction false} SortedSpread<V>(t: seq<Range<V>>, x: Range<V>)
    requires AllApart(x, t)
    ensures AllApart(x, Sorted(t))
    decreases |t|
  {
    if |t| > 0 {
      assert Apart(x, t[0]);
      SortedSpread(t[1..], x);
      InsertedSpread(t[0], Sorted(t[1..]), x, 0);
    }
  }

  lemma {:induction false} SortedOrdered<V>(t: seq<Range<V>>)
    requires Disjoint(t)
    ensures Ordered(Sorted(t))
    decreases |t|
  {
    if |t| > 0 {
      SortedOrdered(t[1..]);
      SortedSpread(t[1..], t[0]);
      InsertedOrdered(t[0], Sorted(t[1..]));
    }
  }

  /** Sorting disjoint ranges keeps the value at every code point. */
  lemma {:induction false} SortedValue<V>(t: seq<Range<V>>, otherwise: V, cp: nat)
    requires Disjoint(t)
    ensures ValueAt(Sorted(t), otherwise, cp) == ValueAt(t, otherwise, cp)
    decreases |t|
  {
    if |t| > 0 {
      SortedValue(t[1..], otherwise, cp);
      SortedSpread(t[1..], t[0]);
      InsertedValue(t[0], Sorted(t[1..]), otherwise, cp);
      assert ([t[0]] + Sorted(t[1..]))[1..] == Sorted(t[1..]);
    }
  }

  /** Two tables denote the same map. */
  ghost predicate SameMap<V(!new)>(s: seq<Range<V>>, t: seq<Range<V>>) {
    forall otherwise, cp :: ValueAt(s, otherwise, cp) == ValueAt(t, otherwise, cp)
  }

  lemma SortedSameMap<V(!new)>(t: seq<Range<V>>)
    requires Disjoint(t)
    ensures SameMap(Sorted(t), t)
  {
    forall otherwise, cp
      ensures ValueAt(Sorted(t), otherwise, cp) == ValueAt(t, otherwise, cp)
    {
      SortedValue(t, otherwise, cp);
    }
  }

  lemma {:induction false} ValueAtSplit<V>(a: seq<Range<V>>, b: seq<Range<V>>, otherwise: V, cp: nat)
    ensures ValueAt(a + b, otherwise, cp) == ValueAt(a, ValueAt(b, otherwise, cp), cp)
    decreases |a|
  {
    if |a| == 0 {
      assert a + b == b;
    } else {
      assert (a + b)[1..] == a[1..] + b;
      ValueAtSplit(a[1..], b, otherwise, cp);
    }
  }

  /** Neighbouring ranges of one value could still be joined. */
  ghost predicate Joinable<V>(a: Range<V>, b: Range<V>) {
    a.hi + 1 == b.lo && a.value == b.value
  }

  /** Joining two neighbours at the end of a table changes nothing about its map. */
  lemma JoinSameMap<V(!new)>(front: seq<Range<V>>, last: Range<V>, r: Range<V>)
    requires Joinable(last, r) && last.lo <= last.hi && r.lo <= r.hi
    ensures SameMap(front + [Range(last.lo, r.hi, r.value)], front + [last, r])
  {
    forall otherwise, cp
      ensures ValueAt(front + [Range(last.lo, r.hi, r.value)], otherwise, cp) ==
              ValueAt(front + [last, r], otherwise, cp)
    {
      ValueAtSplit(front, [Range(last.lo, r.hi, r.value)], otherwise, cp);
      ValueAtSplit(front, [last, r], otherwise, cp);
      ValueAtSplit([last], [r], otherwise, cp);
      assert [last] + [r] == [last, r];
    }
  }

  lemma AppendSameMap<V(!new)>(s: seq<Range<V>>, t: seq<Range<V>>, r: Range<V>)
    requires SameMap(s, t)
    ensures SameMap(s + [r], t + [r])
  {
    forall otherwise, cp
      ensures ValueAt(s + [r], otherwise, cp) == ValueAt(t + [r], otherwise, cp)
    {
      ValueAtSplit(s, [r], otherwise, cp);
      ValueAtSplit(t, [r], otherwise, cp);
    }
  }

  /**
   Sorts the ranges and joins neighbours of equal value: an ordered table for the same map,
   with no two neighbours left to join.
   */
  method Merge<V(!new, ==)>(entries: seq<Range<V>>) returns (merged: seq<Range<V>>)
    requires Disjoint(entries)
    ensures Ordered(merged) && SameMap(merged, entries)
    ensures forall i :: 0 < i < |merged| ==> !Joinable(merged[i - 1], merged[i])
  {
    hide ValueAt, Disjoint, SameMap, Sorted;
    SortedOrdered(entries);
    SortedSameMap(entries);
    var sorted := Sorted(entries);
    merged := [];
    assert sorted[..0] == merged;
    SameMapSelf(merged);
    for i := 0 to |sorted|
      invariant Ordered(merged) && SameMap(merged, sorted[..i])
      invariant |merged| > 0 ==> i > 0 && merged[|merged| - 1].hi == sorted[i - 1].hi
      invariant forall k :: 0 < k < |merged| ==> !Joinable(merged[k - 1], merged[k])
    {
      var r := sorted[i];
      AppendSameMap(merged, sorted[..i], r);
      assert sorted[..i + 1] == sorted[..i] + [r];
      if |merged| > 0 && merged[|merged| - 1].hi + 1 == r.lo && merged[|merged| - 1].value == r.value {
        var front, last := merged[..|merged| - 1], merged[|merged| - 1];
        JoinSameMap(front, last, r);
        assert front + [last, r] == merged + [r];
        SameMapTrans(front + [Range(last.lo, r.hi, r.value)], merged + [r], sorted[..i + 1]);
        merged := front + [Range(last.lo, r.hi, r.value)];
      } else {
        merged := merged + [r];
      }
    }
    assert sorted[..|sorted|] == sorted;
    SameMapTrans(merged, sorted, entries);
  }

  lemma SameMapTrans<V(!new)>(a: seq<Range<V>>, b: seq<Range<V>>, c: seq<Range<V>>)
    requires SameMap(a, b) && SameMap(b, c)
    ensures SameMap(a, c)
  {
    forall otherwise, cp
      ensures ValueAt(a, otherwise, cp) == ValueAt(c, otherwise, cp)
    {
      assert ValueAt(a, otherwise, cp) == ValueAt(b, otherwise, cp);
    }
  }

  lemma SameMapSelf<V(!new)>(a: seq<Range<V>>)
    ensures SameMap(a, a)
  {
  }
}
