/** The forward scan: three small automata that start afresh at every cluster. */
module GraphemeScan {
  import opened Bytes
  import opened RangeTable
  import opened GraphemeSpec
  import Utf8

  // ---- text as elements

  function ElementAt(s: seq<Byte>, pos: nat): (e: Elem)
    requires pos < |s|
    ensures 1 <= Size(e) && pos + Size(e) <= |s|
  {
    var d := Utf8.Decode(s, pos);
    if d.Invalid? then Stray else Char(d.codePoint, d.length)
  }

  function Elements(s: seq<Byte>, pos: nat): (es: seq<Elem>)
    requires pos <= |s|
    ensures |es| == 0 <==> pos == |s|
    ensures forall k :: 0 <= k < |es| ==> Size(es[k]) >= 1
    decreases |s| - pos
  {
    if pos == |s| then [] else
    var e := ElementAt(s, pos);
    [e] + Elements(s, pos + Size(e))
  }

  /** The bytes the first i elements take. */
  function Offset(es: seq<Elem>, i: nat): nat
    requires i <= |es|
  {
    if i == 0 then 0 else Offset(es, i - 1) + Size(es[i - 1])
  }

  /** The elements from the i-th on are the elements of the text from their offset on. */
  lemma {:induction false} ElementsFrom(s: seq<Byte>, pos: nat, i: nat)
    requires pos <= |s| && i <= |Elements(s, pos)|
    ensures var es := Elements(s, pos);
            var at := pos + Offset(es, i);
            at <= |s| && Elements(s, at) == es[i..]
    decreases i
  {
    var es := Elements(s, pos);
    if i > 0 {
      ElementsFrom(s, pos, i - 1);
      var before := pos + Offset(es, i - 1);
      assert es[i - 1..][0] == es[i - 1] && es[i - 1..][1..] == es[i..];
      assert before < |s|;
      assert Elements(s, before) == [ElementAt(s, before)] + Elements(s, before + Size(ElementAt(s, before)));
    }
  }

  /** The first boundary at or after i. */
  ghost function NextBoundary(tb: Tables, es: seq<Elem>, i: nat): (n: nat)
    requires i <= |es|
    ensures i <= n <= |es| && IsBoundary(tb, es, n)
    ensures forall j :: i <= j < n ==> !IsBoundary(tb, es, j)
    decreases |es| - i
  {
    if IsBoundary(tb, es, i) then i else NextBoundary(tb, es, i + 1)
  }

  lemma NextBoundaryIs(tb: Tables, es: seq<Elem>, i: nat, n: nat)
    requires i <= n <= |es| && IsBoundary(tb, es, n)
    requires forall j :: i <= j < n ==> !IsBoundary(tb, es, j)
    ensures NextBoundary(tb, es, i) == n
  {
  }

  /** The element at the cursor. */
  lemma NextElement(str: seq<Byte>, pos: nat, i: nat)
    requires pos <= |str| && i <= |Elements(str, pos)|
    ensures var es := Elements(str, pos);
            var cursor := pos + Offset(es, i);
            && cursor <= |str| && (i == |es| <==> cursor == |str|)
            && (i < |es| ==> es[i] == ElementAt(str, cursor) && Offset(es, i + 1) == Offset(es, i) + Size(es[i]))
  {
    hide ElementAt;
    ElementsFrom(str, pos, i);
    var es := Elements(str, pos);
    if i < |es| {
      assert es[i..][0] == es[i];
    }
  }

  // ---- the automata

  function AdvanceIncb(klass: Incb, linkerRun: bool): bool {
    if klass == Linker then true else if klass != IncbExtend then false else linkerRun
  }

  /** 1: the text ends in a pictograph and extenders; 2: and then a joiner; 0: neither. */
  function AdvancePict(pict: bool, klass: Gcb, state: nat): nat {
    if pict then 1
    else if klass == Extend then (if state == 1 then 1 else 0)
    else if klass == ZWJ then (if state == 1 then 2 else 0)
    else 0
  }

  /** What the automata hold after i elements is what looking back from i sees. */
  ghost predicate InStep(tb: Tables, es: seq<Elem>, i: nat, linkerRun: bool, pictState: nat, riRun: nat)
    requires i <= |es|
  {
    && (linkerRun <==> LinkerRun(tb, es, i))
    && (pictState == 1 <==> PictRun(tb, es, i))
    && (pictState == 2 <==> PictZwj(tb, es, i))
    && riRun == RiRun(tb, es, i)
  }

  lemma LinkerStep(tb: Tables, es: seq<Elem>, i: nat)
    requires i < |es| && es[i].Char?
    ensures LinkerRun(tb, es, i + 1) <==> AdvanceIncb(tb.IncbOf(es[i].codePoint), LinkerRun(tb, es, i))
  {
    if IsIncb(tb, es[i], IncbExtend) && LinkerRun(tb, es, i + 1) {
      var k :| 0 <= k < i + 1 && IsIncb(tb, es[k], Linker) && forall m :: k < m < i + 1 ==>
          IsIncb(tb, es[m], IncbExtend);
      assert k < i;
    }
    if LinkerRun(tb, es, i + 1) && !IsIncb(tb, es[i], Linker) {
      var k :| 0 <= k < i + 1 && IsIncb(tb, es[k], Linker) && forall m :: k < m < i + 1 ==>
          IsIncb(tb, es[m], IncbExtend);
      assert IsIncb(tb, es[i], IncbExtend);
    }
  }

  lemma PictRunStep(tb: Tables, es: seq<Elem>, i: nat)
    requires i < |es| && es[i].Char?
    ensures PictRun(tb, es, i + 1) <==>
            IsPictogram(tb, es[i]) || (IsGcb(tb, es[i], Extend) && PictRun(tb, es, i))
  {
    if PictRun(tb, es, i + 1) && !IsPictogram(tb, es[i]) {
      var k :| 0 <= k < i + 1 && IsPictogram(tb, es[k]) && forall m :: k < m < i + 1 ==> IsGcb(tb, es[m], Extend);
      assert k < i && IsGcb(tb, es[i], Extend);
    }
  }

  /** One more character keeps the automata in step. */
  lemma StepKeeps(tb: Tables, es: seq<Elem>, i: nat, linkerRun: bool, pictState: nat, riRun: nat)
    requires tb.Consistent() && i < |es| && es[i].Char?
    requires InStep(tb, es, i, linkerRun, pictState, riRun)
    ensures var cp := es[i].codePoint;
            InStep(tb, es, i + 1, AdvanceIncb(tb.IncbOf(cp), linkerRun),
                AdvancePict(tb.IsPict(cp), tb.GcbOf(cp), pictState),
                   if tb.GcbOf(cp) == RegionalIndicator then riRun + 1 else 0)
  {
    hide LinkerRun, PictRun;
    LinkerStep(tb, es, i);
    PictRunStep(tb, es, i);
  }

  /** In step, the scan's decision is the rules' decision. */
  lemma DecisionIsRule(tb: Tables, es: seq<Elem>, i: nat, linkerRun: bool, pictState: nat, riRun: nat)
    requires 0 < i < |es| && es[i - 1].Char? && es[i].Char?
    requires InStep(tb, es, i, linkerRun, pictState, riRun)
    ensures IsBoundary(tb, es, i) <==>
            Breaks(tb.GcbOf(es[i - 1].codePoint), tb.GcbOf(es[i].codePoint), tb.IncbOf(es[i].codePoint),
                   tb.IsPict(es[i].codePoint), linkerRun, pictState == 2, riRun % 2 == 1)
  {
    hide Breaks, LinkerRun, PictZwj, RiRun;
  }

  lemma StartsInStep(tb: Tables, es: seq<Elem>)
    ensures InStep(tb, es, 0, false, 0, 0)
  {
  }

  // ---- the scan

  method GcbClass(tb: Tables, cp: nat) returns (c: Gcb)
    requires tb.Ordered()
    ensures c == tb.GcbOf(cp)
  {
    if 0xAC00 <= cp <= 0xD7A3 {
      return if (cp - 0xAC00) % 28 == 0 then LV else LVT;
    }
    c := Lookup(tb.gcb, Other, cp);
  }

  lemma NoOffset(es: seq<Elem>)
    ensures Offset(es, 0) == 0
  {
  }

  /** The ends of the text and both sides of a stray byte are boundaries. */
  lemma BoundaryAtEdge(tb: Tables, es: seq<Elem>, i: nat)
    requires i <= |es| && (i == 0 || i == |es| || es[i - 1].Stray? || es[i].Stray?)
    ensures IsBoundary(tb, es, i)
  {
  }

  /** grapheme_cluster_step: the bytes of the cluster at pos; 0 at the end of the text. */
  method ClusterStep(tb: Tables, str: seq<Byte>, pos: nat) returns (step: nat)
    requires tb.Ordered() && tb.Consistent()
    ensures pos >= |str| ==> step == 0
    ensures pos < |str| ==> var es := Elements(str, pos); step == Offset(es, NextBoundary(tb, es, 1))
  {
    hide InStep, IsBoundary, Breaks, NextBoundary, AdvanceIncb, AdvancePict, tb.Consistent, tb.GcbOf, Utf8.Decode;
    hide Elements, Offset;
    if pos >= |str| {
      return 0;
    }
    ghost var es := Elements(str, pos);
    NextElement(str, pos, 0);
    NoOffset(es);
    var d := Utf8.Decode(str, pos);
    if d.Invalid? {
      BoundaryAtEdge(tb, es, 1);
      NextBoundaryIs(tb, es, 1, 1);
      return 1;
    }
    var prev := GcbClass(tb, d.codePoint);
    var pict := Lookup(tb.pict, false, d.codePoint);
    var pictState := AdvancePict(pict, prev, 0);
    var incb := Lookup(tb.incb, NoIncb, d.codePoint);
    var linkerRun := AdvanceIncb(incb, false);
    var riRun: nat := if prev == RegionalIndicator then 1 else 0;
    StartsInStep(tb, es);
    StepKeeps(tb, es, 0, false, 0, 0);
    var cursor := pos + d.length;
    ghost var i: nat := 1;
    while cursor < |str|
      invariant 1 <= i <= |es| && cursor == pos + Offset(es, i) && cursor <= |str|
      invariant es[i - 1].Char? && prev == tb.GcbOf(es[i - 1].codePoint)
      invariant InStep(tb, es, i, linkerRun, pictState, riRun)
      invariant forall j :: 1 <= j < i ==> !IsBoundary(tb, es, j)
      decreases |str| - cursor
    {
      NextElement(str, pos, i);
      d := Utf8.Decode(str, cursor);
      if d.Invalid? {
        BoundaryAtEdge(tb, es, i);
        NextBoundaryIs(tb, es, 1, i);
        return cursor - pos;
      }
      var next := GcbClass(tb, d.codePoint);
      incb := Lookup(tb.incb, NoIncb, d.codePoint);
      pict := Lookup(tb.pict, false, d.codePoint);
      DecisionIsRule(tb, es, i, linkerRun, pictState, riRun);
      if Breaks(prev, next, incb, pict, linkerRun, pictState == 2, riRun % 2 == 1) {
        NextBoundaryIs(tb, es, 1, i);
        return cursor - pos;
      }
      StepKeeps(tb, es, i, linkerRun, pictState, riRun);
      pictState := AdvancePict(pict, next, pictState);
      linkerRun := AdvanceIncb(incb, linkerRun);
      riRun := if next == RegionalIndicator then riRun + 1 else 0;
      prev := next;
      cursor := cursor + d.length;
      i := i + 1;
    }
    NextElement(str, pos, i);
    BoundaryAtEdge(tb, es, i);
    NextBoundaryIs(tb, es, 1, i);
    return cursor - pos;
  }

  // ---- the whole text

  /** The element positions before n where a cluster starts. */
  ghost function Starts(tb: Tables, es: seq<Elem>, n: nat): set<nat>
    requires n <= |es|
  {
    set i: nat | 0 <= i < n && IsBoundary(tb, es, i)
  }

  lemma StartsGrow(tb: Tables, es: seq<Elem>, b: nat, n: nat)
    requires b < n <= |es| && IsBoundary(tb, es, b)
    requires forall j :: b < j < n ==> !IsBoundary(tb, es, j)
    ensures |Starts(tb, es, n)| == |Starts(tb, es, b)| + 1
  {
    assert Starts(tb, es, n) == Starts(tb, es, b) + {b};
  }

  lemma {:induction false} OffsetGrows(es: seq<Elem>, i: nat, j: nat)
    requires i <= j <= |es| && forall k :: 0 <= k < |es| ==> Size(es[k]) >= 1
    ensures Offset(es, i) + (j - i) <= Offset(es, j)
    decreases j
  {
    if i < j {
      OffsetGrows(es, i, j - 1);
    }
  }

  /** From a boundary, one step leads to the next boundary of the whole text. */
  lemma StepFromBoundary(tb: Tables, str: seq<Byte>, b: nat) returns (n: nat)
    requires tb.Consistent()
    requires b < |Elements(str, 0)| && IsBoundary(tb, Elements(str, 0), b)
    ensures var es := Elements(str, 0);
            var at := Offset(es, b);
            && at < |str| && b < n <= |es| && IsBoundary(tb, es, n)
            && (forall j :: b < j < n ==> !IsBoundary(tb, es, j))
            && Offset(es, n) == at + Offset(Elements(str, at), NextBoundary(tb, Elements(str, at), 1))
            && Offset(es, n) > at
  {
    hide NextBoundary, IsBoundary, Elements, Offset, tb.Consistent;
    var es := Elements(str, 0);
    ElementsFrom(str, 0, b);
    var cut := es[b..];
    var m := NextBoundary(tb, cut, 1);
    n := b + m;
    RestartAtBoundary(tb, es, b, n);
    forall j | b < j < n
      ensures !IsBoundary(tb, es, j)
    {
      RestartAtBoundary(tb, es, b, j);
    }
    OffsetSplit(es, b, m);
    OffsetGrows(es, b, n);
  }

  lemma {:induction false} OffsetSplit(es: seq<Elem>, b: nat, m: nat)
    requires b + m <= |es|
    ensures Offset(es, b + m) == Offset(es, b) + Offset(es[b..], m)
    decreases m
  {
    if m > 0 {
      OffsetSplit(es, b, m - 1);
      assert es[b..][m - 1] == es[b + m - 1];
    }
  }

  /** grapheme_cluster_count: one for every boundary that starts a cluster. */
  method ClusterCount(tb: Tables, str: seq<Byte>) returns (count: nat)
    requires tb.Ordered() && tb.Consistent()
    ensures var es := Elements(str, 0); count == |Starts(tb, es, |es|)|
  {
    hide NextBoundary, IsBoundary, Elements, Offset, tb.Consistent, tb.Ordered;
    ghost var es := Elements(str, 0);
    var pos := 0;
    count := 0;
    ghost var b := 0;
    Origin(tb, es);
    while pos < |str|
      invariant b <= |es| && IsBoundary(tb, es, b) && pos == Offset(es, b) && pos <= |str|
      invariant count == |Starts(tb, es, b)|
      decreases |es| - b
    {
      AtEnd(str, b);
      var step := ClusterStep(tb, str, pos);
      ghost var n := StepFromBoundary(tb, str, b);
      StartsGrow(tb, es, b, n);
      pos := pos + if step == 0 then 1 else step;
      count := count + 1;
      b := n;
      AtEnd(str, b);
    }
    AtEnd(str, b);
  }

  lemma Origin(tb: Tables, es: seq<Elem>)
    ensures IsBoundary(tb, es, 0) && Offset(es, 0) == 0 && |Starts(tb, es, 0)| == 0
  {
  }

  lemma AtEnd(str: seq<Byte>, b: nat)
    requires b <= |Elements(str, 0)|
    ensures var es := Elements(str, 0); Offset(es, b) <= |str| && (b == |es| <==> Offset(es, b) == |str|)
  {
    ElementsFrom(str, 0, b);
  }

  datatype Position = Npos | At(offset: nat)

  /** grapheme_byte_offset: where cluster number index starts; the end counts as one more start. */
  method ByteOffset(tb: Tables, str: seq<Byte>, index: nat) returns (r: Position)
    requires tb.Ordered() && tb.Consistent()
    ensures var es := Elements(str, 0);
            if index > |Starts(tb, es, |es|)| then r == Npos
            else
              exists b ::
                && 0 <= b <= |es| && IsBoundary(tb, es, b)
                && |Starts(tb, es, b)| == index && r == At(Offset(es, b))
  {
    hide NextBoundary, IsBoundary, Elements, Offset, tb.Consistent, tb.Ordered;
    ghost var es := Elements(str, 0);
    var pos, count := 0, 0;
    ghost var b := 0;
    Origin(tb, es);
    while pos < |str| && count < index
      invariant b <= |es| && IsBoundary(tb, es, b) && pos == Offset(es, b) && pos <= |str|
      invariant count == |Starts(tb, es, b)| && count <= index
      decreases |es| - b
    {
      AtEnd(str, b);
      var step := ClusterStep(tb, str, pos);
      ghost var n := StepFromBoundary(tb, str, b);
      StartsGrow(tb, es, b, n);
      assert pos + step == Offset(es, n);
      pos := pos + step;
      count := count + 1;
      b := n;
      AtEnd(str, b);
    }
    AtEnd(str, b);
    if count < index {
      return Npos;
    }
    StartsMonotone(tb, es, b, |es|);
    return At(pos);
  }

  lemma StartsMonotone(tb: Tables, es: seq<Elem>, b: nat, n: nat)
    requires b <= n <= |es|
    ensures |Starts(tb, es, b)| <= |Starts(tb, es, n)|
  {
    CardSubset(Starts(tb, es, b), Starts(tb, es, n));
  }

  lemma {:induction false} CardSubset(a: set<nat>, b: set<nat>)
    requires a <= b
    ensures |a| <= |b|
  {
    var extra := b - a;
    assert a + extra == b && a !! extra;
  }
}
