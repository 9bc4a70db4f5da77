/**
 Extended grapheme clusters by look-back rules over the whole text: UAX #29 section 3.1.1,
 with GB9c in the library's form (a linker, any conjunct extenders, a consonant).
 */
module GraphemeSpec {
  import opened RangeTable

  datatype Gcb =
    | Other | CR | LF | Control | Extend | ZWJ | RegionalIndicator | Prepend | SpacingMark
    | L | V | T | LV | LVT

  datatype Incb = NoIncb | Consonant | IncbExtend | Linker

  /** The three property tables. */
  datatype Tables = Tables(gcb: seq<Range<Gcb>>, pict: seq<Range<bool>>, incb: seq<Range<Incb>>) {
    /** Hangul syllables are classified by arithmetic, everything else by the table. */
    function GcbOf(cp: nat): Gcb {
      if 0xAC00 <= cp <= 0xD7A3 then (if (cp - 0xAC00) % 28 == 0 then LV else LVT) else ValueAt(gcb, Other, cp)
    }

    function IsPict(cp: nat): bool {
      ValueAt(pict, false, cp)
    }

    function IncbOf(cp: nat): Incb {
      ValueAt(incb, NoIncb, cp)
    }

    ghost predicate Ordered() {
      RangeTable.Ordered(gcb) && RangeTable.Ordered(pict) && RangeTable.Ordered(incb)
    }

    /** What the Unicode data guarantees about how the three properties overlap. */
    ghost predicate Consistent() {
      forall cp: nat ::
        && (IsPict(cp) ==> !IsControl(GcbOf(cp)) && GcbOf(cp) != ZWJ)
        && (IncbOf(cp) == Linker ==> !IsControl(GcbOf(cp)))
        && (IncbOf(cp) == IncbExtend ==> GcbOf(cp) == Extend || GcbOf(cp) == ZWJ)
    }
  }

  predicate IsControl(c: Gcb) {
    c == CR || c == LF || c == Control
  }

  /** The rules for one pair of characters, in order; the first that applies decides. */
  function Breaks(prev: Gcb, next: Gcb, nextIncb: Incb, nextPict: bool, linkerRun: bool, pictZwj: bool,
          oddRi: bool): bool {
    if prev == CR && next == LF then false                                                       // GB3
    else if IsControl(prev) then true                                                            // GB4
    else if IsControl(next) then true                                                            // GB5
    else if prev == L && (next == L || next == V || next == LV || next == LVT) then false        // GB6
    else if (prev == LV || prev == V) && (next == V || next == T) then false                     // GB7
    else if (prev == LVT || prev == T) && next == T then false                                   // GB8
    else if next == Extend || next == ZWJ then false                                             // GB9
    else if next == SpacingMark then false                                                       // GB9a
    else if prev == Prepend then false                                                           // GB9b
    else if linkerRun && nextIncb == Consonant then false                                        // GB9c
    else if pictZwj && nextPict then false                                                       // GB11
    else if prev == RegionalIndicator && next == RegionalIndicator && oddRi then false           // GB12, GB13
    else true                                                                                    // GB999
  }

  /** A text is a list of characters and stray bytes. */
  datatype Elem = Stray | Char(codePoint: nat, length: nat)

  function Size(e: Elem): nat {
    if e.Stray? then 1 else e.length
  }

  // ---- looking back from position i

  /** The text before i ends in a linker and any number of conjunct extenders. */
  ghost predicate LinkerRun(tb: Tables, es: seq<Elem>, i: nat)
    requires i <= |es|
  {
    exists k :: 0 <= k < i && IsIncb(tb, es[k], Linker) && forall m :: k < m < i ==> IsIncb(tb, es[m], IncbExtend)
  }

  predicate IsIncb(tb: Tables, e: Elem, v: Incb) {
    e.Char? && tb.IncbOf(e.codePoint) == v
  }

  predicate IsGcb(tb: Tables, e: Elem, v: Gcb) {
    e.Char? && tb.GcbOf(e.codePoint) == v
  }

  predicate IsPictogram(tb: Tables, e: Elem) {
    e.Char? && tb.IsPict(e.codePoint)
  }

  /** The text before i ends in a pictograph and any number of extenders. */
  ghost predicate PictRun(tb: Tables, es: seq<Elem>, i: nat)
    requires i <= |es|
  {
    exists k :: 0 <= k < i && IsPictogram(tb, es[k]) && forall m :: k < m < i ==> IsGcb(tb, es[m], Extend)
  }

  /** ... and then a zero-width joiner. */
  ghost predicate PictZwj(tb: Tables, es: seq<Elem>, i: nat)
    requires i <= |es|
  {
    i > 0 && IsGcb(tb, es[i - 1], ZWJ) && PictRun(tb, es, i - 1)
  }

  /** How many regional indicators stand immediately before i. */
  function RiRun(tb: Tables, es: seq<Elem>, i: nat): (n: nat)
    requires i <= |es|
    ensures n <= i
  {
    if i > 0 && IsGcb(tb, es[i - 1], RegionalIndicator) then RiRun(tb, es, i - 1) + 1 else 0
  }

  /** Is there a cluster boundary before element i, by the rules read over the whole text? */
  ghost predicate IsBoundary(tb: Tables, es: seq<Elem>, i: nat)
    requires i <= |es|
  {
    i == 0 || i == |es| || es[i - 1].Stray? || es[i].Stray? ||
    Breaks(tb.GcbOf(es[i - 1].codePoint), tb.GcbOf(es[i].codePoint), tb.IncbOf(es[i].codePoint),
           tb.IsPict(es[i].codePoint), LinkerRun(tb, es, i), PictZwj(tb, es, i), RiRun(tb, es, i) % 2 == 1)
  }

  // ---- starting over at a boundary loses nothing

  /** No boundary falls before an extender or joiner that follows anything but a control. */
  lemma NoBoundaryBeforeExtender(tb: Tables, es: seq<Elem>, b: nat)
    requires 0 < b < |es| && es[b - 1].Char? && es[b].Char?
    requires !IsControl(tb.GcbOf(es[b - 1].codePoint))
    requires tb.GcbOf(es[b].codePoint) == Extend || tb.GcbOf(es[b].codePoint) == ZWJ
    ensures !IsBoundary(tb, es, b)
  {
  }

  lemma LinkerRunLocal(tb: Tables, es: seq<Elem>, b: nat, i: nat)
    requires tb.Consistent() && b < i <= |es| && b < |es| && IsBoundary(tb, es, b)
    ensures LinkerRun(tb, es[b..], i - b) <==> LinkerRun(tb, es, i)
  {
    var cut := es[b..];
    if LinkerRun(tb, cut, i - b) {
      var k :| 0 <= k < i - b && IsIncb(tb, cut[k], Linker) && forall m :: k < m < i - b ==>
          IsIncb(tb, cut[m], IncbExtend);
      forall m | b + k < m < i
        ensures IsIncb(tb, es[m], IncbExtend)
      {
        assert cut[m - b] == es[m];
      }
      assert IsIncb(tb, es[b + k], Linker);
    }
    if LinkerRun(tb, es, i) {
      var k :| 0 <= k < i && IsIncb(tb, es[k], Linker) && forall m :: k < m < i ==> IsIncb(tb, es[m], IncbExtend);
      if k < b {
        assert IsIncb(tb, es[b], IncbExtend);
        assert k == b - 1 || IsIncb(tb, es[b - 1], IncbExtend);
        NoBoundaryBeforeExtender(tb, es, b);
        assert false;
      } else {
        assert IsIncb(tb, cut[k - b], Linker);
        forall m | k - b < m < i - b
          ensures IsIncb(tb, cut[m], IncbExtend)
        {
          assert cut[m] == es[m + b];
        }
      }
    }
  }

  lemma PictRunLocal(tb: Tables, es: seq<Elem>, b: nat, i: nat)
    requires tb.Consistent() && b <= i < |es| && IsBoundary(tb, es, b)
    requires IsGcb(tb, es[i], ZWJ) || IsGcb(tb, es[i], Extend)
    ensures PictRun(tb, es[b..], i - b) <==> PictRun(tb, es, i)
  {
    var cut := es[b..];
    if PictRun(tb, cut, i - b) {
      var k :| 0 <= k < i - b && IsPictogram(tb, cut[k]) && forall m :: k < m < i - b ==> IsGcb(tb, cut[m], Extend);
      forall m | b + k < m < i
        ensures IsGcb(tb, es[m], Extend)
      {
        assert cut[m - b] == es[m];
      }
      assert IsPictogram(tb, es[b + k]);
    }
    if PictRun(tb, es, i) {
      var k :| 0 <= k < i && IsPictogram(tb, es[k]) && forall m :: k < m < i ==> IsGcb(tb, es[m], Extend);
      if k < b {
        assert b == i || IsGcb(tb, es[b], Extend);
        assert k == b - 1 || IsGcb(tb, es[b - 1], Extend);
        NoBoundaryBeforeExtender(tb, es, b);
        assert false;
      } else {
        assert IsPictogram(tb, cut[k - b]);
        forall m | k - b < m < i - b
          ensures IsGcb(tb, cut[m], Extend)
        {
          assert cut[m] == es[m + b];
        }
      }
    }
  }

  /** Counting from b on misses the indicators before b, if the run reaches that far. */
  lemma {:induction false} RiRunSplit(tb: Tables, es: seq<Elem>, b: nat, i: nat)
    requires b <= i <= |es|
    ensures var n := RiRun(tb, es[b..], i - b);
            RiRun(tb, es, i) == if n == i - b then n + RiRun(tb, es, b) else n
    decreases i
  {
    if b < i {
      assert es[b..][i - b - 1] == es[i - 1];
      RiRunSplit(tb, es, b, i - 1);
    }
  }

  /** At a boundary inside a run of indicators, an even number of them has gone by. */
  lemma EvenAtBoundary(tb: Tables, es: seq<Elem>, b: nat)
    requires b < |es| && IsBoundary(tb, es, b) && IsGcb(tb, es[b], RegionalIndicator)
    ensures RiRun(tb, es, b) % 2 == 0
  {
  }

  lemma {:induction false} RunCoversStart(tb: Tables, es: seq<Elem>, i: nat)
    requires 0 < i <= |es| && RiRun(tb, es, i) == i
    ensures IsGcb(tb, es[0], RegionalIndicator)
    decreases i
  {
    if i > 1 {
      RunCoversStart(tb, es, i - 1);
    }
  }

  lemma RiParityLocal(tb: Tables, es: seq<Elem>, b: nat, i: nat)
    requires b < i <= |es| && IsBoundary(tb, es, b)
    ensures RiRun(tb, es[b..], i - b) % 2 == RiRun(tb, es, i) % 2
  {
    hide RiRun, IsBoundary;
    RiRunSplit(tb, es, b, i);
    if RiRun(tb, es[b..], i - b) == i - b {
      RunCoversStart(tb, es[b..], i - b);
      EvenAtBoundary(tb, es, b);
      EvenPlus(i - b, RiRun(tb, es, b));
    }
  }

  lemma EvenPlus(a: nat, b: nat)
    requires b % 2 == 0
    ensures (a + b) % 2 == a % 2
  {
  }

  /**
   Why the scan may restart at every cluster: read from a boundary on, the rules give the
   same boundaries as read over the whole text.
   */
  lemma RestartAtBoundary(tb: Tables, es: seq<Elem>, b: nat, i: nat)
    requires tb.Consistent() && b < i <= |es| && IsBoundary(tb, es, b)
    ensures IsBoundary(tb, es[b..], i - b) <==> IsBoundary(tb, es, i)
  {
    hide LinkerRun, PictRun, RiRun;
    var cut := es[b..];
    assert cut[i - b - 1] == es[i - 1];
    if i < |es| {
      assert cut[i - b] == es[i];
      LinkerRunLocal(tb, es, b, i);
      RiParityLocal(tb, es, b, i);
      if IsGcb(tb, es[i - 1], ZWJ) {
        PictRunLocal(tb, es, b, i - 1);
      }
    }
  }
}
