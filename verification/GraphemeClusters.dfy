/**
 What the rules mean for whole texts: where no boundary falls, said without their order, and
 the clusters users know, such as Hangul syllables, flags and joined emoji.
 */
module GraphemeClusters {
  import opened GraphemeSpec

  /** The characters on both sides of position i have these classes. */
  predicate Between(tb: Tables, es: seq<Elem>, i: nat, before: set<Gcb>, after: set<Gcb>) {
    && 0 < i < |es| && es[i - 1].Char? && es[i].Char?
    && tb.GcbOf(es[i - 1].codePoint) in before && tb.GcbOf(es[i].codePoint) in after
  }

  const CONTROLS := {CR, LF, Control}
  const HANGUL := {L, V, T, LV, LVT}

  /** Neither side is a control or a stray byte. */
  predicate Plain(tb: Tables, es: seq<Elem>, i: nat) {
    && 0 < i < |es| && es[i - 1].Char? && es[i].Char?
    && tb.GcbOf(es[i - 1].codePoint) !in CONTROLS && tb.GcbOf(es[i].codePoint) !in CONTROLS
  }

  /** A leading consonant before anything but a final one, a vowel or final consonant after what it can follow. */
  predicate SameSyllable(tb: Tables, es: seq<Elem>, i: nat) {
    || Between(tb, es, i, {L}, {L, V, LV, LVT})
    || Between(tb, es, i, {V, LV}, {V, T})
    || Between(tb, es, i, {T, LVT}, {T})
  }

  ghost predicate Attached(tb: Tables, es: seq<Elem>, i: nat)
    requires 0 < i < |es|
  {
    || SameSyllable(tb, es, i)
    || IsGcb(tb, es[i], Extend) || IsGcb(tb, es[i], ZWJ) || IsGcb(tb, es[i], SpacingMark)
    || IsGcb(tb, es[i - 1], Prepend)
    || (LinkerRun(tb, es, i) && IsIncb(tb, es[i], Consonant))
    || (PictZwj(tb, es, i) && IsPictogram(tb, es[i]))
    || (Between(tb, es, i, {RegionalIndicator}, {RegionalIndicator}) && RiRun(tb, es, i) % 2 == 1)
  }

  /**
   Inside a text no boundary falls exactly between CR and LF, and between characters that are
   no controls and of which one is attached to the other.
   */
  lemma BoundaryIff(tb: Tables, es: seq<Elem>, i: nat)
    requires 0 < i < |es|
    ensures !IsBoundary(tb, es, i) <==>
            Between(tb, es, i, {CR}, {LF}) || (Plain(tb, es, i) && Attached(tb, es, i))
  {
    hide LinkerRun, PictZwj, RiRun;
  }

  // ---- joined emoji

  /** A pictograph, and extenders, and pictographs behind a joiner. */
  predicate Joined(tb: Tables, es: seq<Elem>, a: nat, b: nat)
    requires a < b <= |es|
    decreases b
  {
    if b == a + 1 then IsPictogram(tb, es[a])
    else if IsGcb(tb, es[b - 1], Extend) then Joined(tb, es, a, b - 1)
    else IsPictogram(tb, es[b - 1]) && b > a + 2 && IsGcb(tb, es[b - 2], ZWJ) && Joined(tb, es, a, b - 2)
  }

  lemma {:induction false} JoinedEndsInPict(tb: Tables, es: seq<Elem>, a: nat, b: nat)
    requires a < b <= |es| && Joined(tb, es, a, b)
    ensures PictRun(tb, es, b)
    decreases b
  {
    if b == a + 1 || !IsGcb(tb, es[b - 1], Extend) {
      assert IsPictogram(tb, es[b - 1]);
    } else {
      JoinedEndsInPict(tb, es, a, b - 1);
      var k :| 0 <= k < b - 1 && IsPictogram(tb, es[k]) && forall m :: k < m < b - 1 ==> IsGcb(tb, es[m], Extend);
    }
  }

  /** A pictograph behind a joiner is never cut off from a pictograph and its extenders. */
  lemma JoinerKeeps(tb: Tables, es: seq<Elem>, i: nat)
    requires tb.Consistent() && 0 < i < |es| && PictZwj(tb, es, i) && IsPictogram(tb, es[i])
    ensures !IsBoundary(tb, es, i)
  {
    BoundaryIff(tb, es, i);
  }

  /** No boundary falls inside joined emoji, however many are joined. */
  lemma {:induction false} JoinedIsWhole(tb: Tables, es: seq<Elem>, a: nat, b: nat, i: nat)
    requires tb.Consistent() && a < i < b <= |es| && Joined(tb, es, a, b)
    ensures !IsBoundary(tb, es, i)
    decreases b
  {
    hide PictRun, IsBoundary;
    if IsGcb(tb, es[b - 1], Extend) && b > a + 1 {
      if i < b - 1 {
        JoinedIsWhole(tb, es, a, b - 1, i);
      } else {
        JoinedIsPlain(tb, es, a, b - 1);
        BoundaryIff(tb, es, i);
      }
    } else {
      JoinedEndsInPict(tb, es, a, b - 2);
      if i < b - 2 {
        JoinedIsWhole(tb, es, a, b - 2, i);
      } else if i == b - 2 {
        JoinedIsPlain(tb, es, a, b - 2);
        BoundaryIff(tb, es, i);
      } else {
        JoinerKeeps(tb, es, i);
      }
    }
  }

  lemma JoinedIsPlain(tb: Tables, es: seq<Elem>, a: nat, b: nat)
    requires tb.Consistent() && a < b <= |es| && Joined(tb, es, a, b)
    ensures es[b - 1].Char? && tb.GcbOf(es[b - 1].codePoint) !in CONTROLS
  {
  }

  /** A joiner whose extenders do not go back to a pictograph joins nothing to a pictograph. */
  lemma JoinerAlone(tb: Tables, es: seq<Elem>, k: nat, i: nat)
    requires k < i - 1 < i < |es| && IsGcb(tb, es[i - 1], ZWJ)
    requires !IsPictogram(tb, es[k]) && !IsGcb(tb, es[k], Extend)
    requires forall m :: k < m < i - 1 ==> IsGcb(tb, es[m], Extend) && !IsPictogram(tb, es[m])
    requires IsGcb(tb, es[i], Other) && !IsIncb(tb, es[i], Consonant)
    ensures IsBoundary(tb, es, i)
  {
    hide LinkerRun, PictRun;
    NoPictRun(tb, es, k, i - 1);
    BoundaryIff(tb, es, i);
  }

  lemma NoPictRun(tb: Tables, es: seq<Elem>, k: nat, i: nat)
    requires k < i <= |es| && !IsPictogram(tb, es[k]) && !IsGcb(tb, es[k], Extend)
    requires forall m :: k < m < i ==> !IsPictogram(tb, es[m])
    ensures !PictRun(tb, es, i)
  {
    forall j | 0 <= j < i && IsPictogram(tb, es[j])
      ensures j < k && !IsGcb(tb, es[k], Extend)
    {
    }
  }

  // ---- conjuncts

  /** Where the conjunct extenders do not go back to a linker, a consonant starts a cluster. */
  lemma NoLinkerCuts(tb: Tables, es: seq<Elem>, k: nat, i: nat)
    requires k < i < |es| && !IsIncb(tb, es[k], Linker) && !IsIncb(tb, es[k], IncbExtend)
    requires forall m :: k < m < i ==> IsIncb(tb, es[m], IncbExtend)
    requires IsGcb(tb, es[i], Other) && !IsPictogram(tb, es[i]) && !IsGcb(tb, es[i - 1], Prepend)
    ensures IsBoundary(tb, es, i)
  {
    hide PictZwj, LinkerRun;
    NoLinkerRun(tb, es, k, i);
    BoundaryIff(tb, es, i);
  }

  lemma NoLinkerRun(tb: Tables, es: seq<Elem>, k: nat, i: nat)
    requires k < i <= |es| && !IsIncb(tb, es[k], Linker) && !IsIncb(tb, es[k], IncbExtend)
    requires forall m :: k < m < i ==> IsIncb(tb, es[m], IncbExtend)
    ensures !LinkerRun(tb, es, i)
  {
    forall j | 0 <= j < i && IsIncb(tb, es[j], Linker)
      ensures j < k && !IsIncb(tb, es[k], IncbExtend)
    {
    }
  }

  /** A consonant is never cut off from a linker, whatever conjunct extenders stand between. */
  lemma LinkerKeeps(tb: Tables, es: seq<Elem>, k: nat, i: nat)
    requires tb.Consistent() && k < i < |es| && IsIncb(tb, es[k], Linker) && IsIncb(tb, es[i], Consonant)
    requires forall m :: k < m < i ==> IsIncb(tb, es[m], IncbExtend)
    requires tb.GcbOf(es[i].codePoint) !in CONTROLS
    ensures !IsBoundary(tb, es, i)
  {
    assert LinkerRun(tb, es, i);
    assert k == i - 1 || IsIncb(tb, es[i - 1], IncbExtend);
    BoundaryIff(tb, es, i);
  }

  // ---- flags

  /** In a run of regional indicators a boundary falls after every second one. */
  lemma {:induction false} IndicatorCount(tb: Tables, es: seq<Elem>, a: nat, i: nat)
    requires a <= i <= |es| && (a > 0 ==> !IsGcb(tb, es[a - 1], RegionalIndicator))
    requires forall k :: a <= k < i ==> IsGcb(tb, es[k], RegionalIndicator)
    ensures RiRun(tb, es, i) == i - a
    decreases i
  {
    if a < i {
      IndicatorCount(tb, es, a, i - 1);
    }
  }

  lemma FlagsArePairs(tb: Tables, es: seq<Elem>, a: nat, i: nat)
    requires a < i < |es| && (a > 0 ==> !IsGcb(tb, es[a - 1], RegionalIndicator))
    requires forall k :: a <= k <= i ==> IsGcb(tb, es[k], RegionalIndicator)
    requires !IsIncb(tb, es[i], Consonant)
    ensures IsBoundary(tb, es, i) <==> (i - a) % 2 == 0
  {
    hide RiRun;
    IndicatorCount(tb, es, a, i);
    BoundaryIff(tb, es, i);
  }

  // ---- Hangul

  ghost predicate AllIn(tb: Tables, es: seq<Elem>, a: nat, b: nat, classes: set<Gcb>)
    requires b <= |es|
  {
    forall k :: a <= k < b ==> es[k].Char? && tb.GcbOf(es[k].codePoint) in classes
  }

  /** A vowel part: vowels, of which the first may be a syllable without final consonant; or a full syllable. */
  ghost predicate VowelPart(tb: Tables, es: seq<Elem>, a: nat, b: nat)
    requires b <= |es|
  {
    a < b && ((AllIn(tb, es, a, a + 1, {V, LV}) && AllIn(tb, es, a + 1, b, {V})) ||
              (b == a + 1 && AllIn(tb, es, a, b, {LVT})))
  }

  /** Leading consonants, a vowel part, final consonants; or leading or final consonants alone. */
  ghost predicate SyllableAt(tb: Tables, es: seq<Elem>, a: nat, p: nat, q: nat, b: nat)
    requires b <= |es|
  {
    && a <= p <= q <= b && a < b
    && AllIn(tb, es, a, p, {L}) && AllIn(tb, es, q, b, {T})
    && if p == q then a == p || q == b else VowelPart(tb, es, p, q)
  }

  /** Characters of Hangul classes that hold together form one syllable block. */
  lemma {:induction false} WholeIsSyllable(tb: Tables, es: seq<Elem>, a: nat, b: nat) returns (p: nat, q: nat)
    requires a < b <= |es| && AllIn(tb, es, a, b, HANGUL)
    requires forall i :: a < i < b ==> SameSyllable(tb, es, i)
    ensures SyllableAt(tb, es, a, p, q, b)
    decreases b
  {
    var c := tb.GcbOf(es[b - 1].codePoint);
    if b == a + 1 {
      p := if c == L then b else a;
      q := if c == T then a else b;
    } else {
      p, q := WholeIsSyllable(tb, es, a, b - 1);
      assert SameSyllable(tb, es, b - 1);
      assert forall k :: q <= k < b - 1 ==> tb.GcbOf(es[k].codePoint) in {T};
      if c == L {
        p, q := b, b;
      } else if c != T {
        q := b;
      }
    }
  }

  lemma SyllableIsWhole(tb: Tables, es: seq<Elem>, a: nat, p: nat, q: nat, b: nat, i: nat)
    requires b <= |es| && SyllableAt(tb, es, a, p, q, b) && a < i < b
    ensures SameSyllable(tb, es, i)
  {
    assert es[i].Char? && es[i - 1].Char?;
  }

  /** A stretch of Hangul is without a boundary exactly when it is one syllable block. */
  lemma SyllablesAreWhole(tb: Tables, es: seq<Elem>, a: nat, b: nat)
    requires a < b <= |es| && AllIn(tb, es, a, b, HANGUL)
    requires forall k :: a <= k < b ==> !IsIncb(tb, es[k], Consonant)
    ensures (forall i :: a < i < b ==> !IsBoundary(tb, es, i)) <==> exists p, q :: SyllableAt(tb, es, a, p, q, b)
  {
    hide IsBoundary, SyllableAt, SameSyllable;
    forall i | a < i < b
      ensures IsBoundary(tb, es, i) <==> !SameSyllable(tb, es, i)
    {
      HangulBoundary(tb, es, i);
    }
    if forall i :: a < i < b ==> !IsBoundary(tb, es, i) {
      var p, q := WholeIsSyllable(tb, es, a, b);
    }
    if p, q :| SyllableAt(tb, es, a, p, q, b) {
      forall i | a < i < b
        ensures !IsBoundary(tb, es, i)
      {
        SyllableIsWhole(tb, es, a, p, q, b, i);
      }
    }
  }

  lemma HangulBoundary(tb: Tables, es: seq<Elem>, i: nat)
    requires Between(tb, es, i, HANGUL, HANGUL) && !IsIncb(tb, es[i], Consonant)
    ensures IsBoundary(tb, es, i) <==> !SameSyllable(tb, es, i)
  {
    BoundaryIff(tb, es, i);
  }

  /** A composed syllable's number gives its parts, and without final consonant it can take one. */
  lemma ComposedSyllables(tb: Tables, l: nat, v: nat, t: nat)
    requires l < 19 && v < 21 && t < 28
    ensures tb.GcbOf(44032 + (l * 21 + v) * 28 + t) == if t == 0 then LV else LVT
  {
    assert l * 21 + v < 399;
  }
}
