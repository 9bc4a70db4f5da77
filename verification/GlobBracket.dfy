/**
 The upper bound of a range in a bracket expression is read again as the next entry. When
 that makes no difference, and what it does otherwise.
 */
module GlobBracket {
  import opened GlobSpec

  // ---- reading each bound once

  /** Where the upper bound stands, if a range starts at j. */
  function BoundAt(p: string, j: nat): (u: nat)
    requires RangeAt(p, j)
    ensures j + 2 <= u < |p|
  {
    if p[j + 2] == '\\' && j + 3 < |p| then j + 3 else j + 2
  }

  predicate RangeAt(p: string, j: nat) {
    j + 2 < |p| && p[j + 1] == '-' && p[j + 2] != ']'
  }

  /** Where the character of the entry at i stands, behind an escape if there is one. */
  function CharAt(p: string, i: nat): (j: nat)
    requires i < |p|
    ensures i <= j < |p|
  {
    if p[i] == '\\' && i + 1 < |p| then i + 1 else i
  }

  function EntriesOnce(p: string, i: nat, first: bool, ranges: seq<Range>, negated: bool): (b: Bracket)
    requires i <= |p|
    ensures b.Bracket? ==> i < b.next <= |p|
    decreases |p| - i
  {
    if i == |p| then NoBracket
    else if p[i] == ']' && !first then (if |ranges| == 0 then NoBracket else Bracket(ranges, negated, i + 1))
    else
      var j := CharAt(p, i);
      if RangeAt(p, j) then
        EntriesOnce(p, BoundAt(p, j) + 1, false, ranges + [Range(p[j], p[BoundAt(p, j)])], negated)
      else EntriesOnce(p, j + 1, false, ranges + [Range(p[j], p[j])], negated)
  }

  predicate Negates(p: string, pos: nat) {
    pos + 1 < |p| && (p[pos + 1] == '!' || p[pos + 1] == '^')
  }

  function FirstEntry(p: string, pos: nat): (i: nat)
    requires pos < |p|
    ensures pos < i <= |p|
  {
    if Negates(p, pos) then pos + 2 else pos + 1
  }

  function ReadBracketOnce(p: string, pos: nat): (b: Bracket)
    requires pos < |p|
    ensures b.Bracket? ==> pos < b.next <= |p|
  {
    EntriesOnce(p, FirstEntry(p, pos), true, [], Negates(p, pos))
  }

  // ---- when both readings agree

  /** A bound that, read again, adds itself and nothing else. */
  predicate HarmlessBound(p: string, j: nat)
    requires RangeAt(p, j)
  {
    var u := BoundAt(p, j);
    p[u] != ']' && p[u] != '\\' && Rank(p[j]) <= Rank(p[u]) && !RangeAt(p, u)
  }

  predicate Harmless(p: string, i: nat, first: bool)
    requires i <= |p|
    decreases |p| - i
  {
    i == |p| || (p[i] == ']' && !first) ||
    var j := CharAt(p, i);
    if RangeAt(p, j) then HarmlessBound(p, j) && Harmless(p, BoundAt(p, j) + 1, false) else Harmless(p, j + 1, false)
  }

  /** The same characters, and both empty or neither. */
  ghost predicate SameClass(a: seq<Range>, b: seq<Range>) {
    (|a| == 0 <==> |b| == 0) && forall c :: InSome(a, c) <==> InSome(b, c)
  }

  ghost predicate SameBracket(a: Bracket, b: Bracket) {
    if a.Bracket? && b.Bracket? then a.next == b.next && a.negated == b.negated && SameClass(a.ranges, b.ranges)
    else a == b
  }

  lemma InSomeMore(rs: seq<Range>, r: Range, c: char)
    ensures InSome(rs + [r], c) <==> InSome(rs, c) || InRange(r, c)
  {
    var more := rs + [r];
    if InSome(rs, c) {
      var i :| 0 <= i < |rs| && InRange(rs[i], c);
      assert InRange(more[i], c);
    }
    if InRange(r, c) {
      assert InRange(more[|rs|], c);
    }
  }

  lemma SameClassMore(a: seq<Range>, b: seq<Range>, r: Range)
    requires SameClass(a, b)
    ensures SameClass(a + [r], b + [r])
  {
    hide InSome;
    forall c
      ensures InSome(a + [r], c) <==> InSome(b + [r], c)
    {
      InSomeMore(a, r, c);
      InSomeMore(b, r, c);
    }
  }

  /** A bound of a range that is not reversed is in the range already. */
  lemma BoundAddsNothing(a: seq<Range>, b: seq<Range>, lo: char, hi: char)
    requires SameClass(a, b) && Rank(lo) <= Rank(hi)
    ensures SameClass(a + [Range(lo, hi)] + [Range(hi, hi)], b + [Range(lo, hi)])
  {
    hide InSome;
    forall c
      ensures InSome(a + [Range(lo, hi)] + [Range(hi, hi)], c) <==> InSome(b + [Range(lo, hi)], c)
    {
      InSomeMore(a, Range(lo, hi), c);
      InSomeMore(a + [Range(lo, hi)], Range(hi, hi), c);
      InSomeMore(b, Range(lo, hi), c);
    }
  }

  /** What the code's reading does with the entry at i. */
  lemma EntriesStep(p: string, i: nat, first: bool, ranges: seq<Range>, negated: bool)
    requires i < |p| && !(p[i] == ']' && !first)
    ensures var j := CharAt(p, i);
            Entries(p, i, first, ranges, negated) ==
            if RangeAt(p, j) then Entries(p, BoundAt(p, j), false, ranges + [Range(p[j], p[BoundAt(p, j)])], negated)
            else Entries(p, j + 1, false, ranges + [Range(p[j], p[j])], negated)
  {
  }

  lemma {:induction false} EntriesAgree(p: string, i: nat, first: bool, a: seq<Range>, b: seq<Range>, negated: bool)
    requires i <= |p| && Harmless(p, i, first) && SameClass(a, b)
    ensures SameBracket(Entries(p, i, first, a, negated), EntriesOnce(p, i, first, b, negated))
    decreases |p| - i
  {
    hide SameClass, Rank;
    if i < |p| && !(p[i] == ']' && !first) {
      var j := CharAt(p, i);
      EntriesStep(p, i, first, a, negated);
      if RangeAt(p, j) {
        var u := BoundAt(p, j);
        var r := Range(p[j], p[u]);
        EntriesStep(p, u, false, a + [r], negated);
        BoundAddsNothing(a, b, p[j], p[u]);
        EntriesAgree(p, u + 1, false, a + [r] + [Range(p[u], p[u])], b + [r], negated);
      } else {
        SameClassMore(a, b, Range(p[j], p[j]));
        EntriesAgree(p, j + 1, false, a + [Range(p[j], p[j])], b + [Range(p[j], p[j])], negated);
      }
    } else {
      EmptyTogether(a, b);
    }
  }

  lemma EmptyTogether(a: seq<Range>, b: seq<Range>)
    requires SameClass(a, b)
    ensures |a| == 0 <==> |b| == 0
  {
  }

  /** Both readings give the same class and the same end where every bound is harmless. */
  lemma BracketsAgree(p: string, pos: nat)
    requires pos < |p| && Harmless(p, FirstEntry(p, pos), true)
    ensures SameBracket(ReadBracket(p, pos), ReadBracketOnce(p, pos))
  {
    hide Entries, EntriesOnce, Harmless;
    EntriesAgree(p, FirstEntry(p, pos), true, [], [], Negates(p, pos));
  }

  /** Bounds are harmless but for escaped brackets, as far as the first of these. */
  predicate OnlyBracketsHarm(p: string, i: nat, first: bool)
    requires i <= |p|
    decreases |p| - i
  {
    i == |p| || (p[i] == ']' && !first) ||
    var j := CharAt(p, i);
    if RangeAt(p, j) then
      p[BoundAt(p, j)] == ']' || (HarmlessBound(p, j) && OnlyBracketsHarm(p, BoundAt(p, j) + 1, false))
    else OnlyBracketsHarm(p, j + 1, false)
  }

  lemma {:induction false} EntriesDisagree(p: string, i: nat, first: bool, a: seq<Range>, b: seq<Range>, negated: bool)
    requires i <= |p| && OnlyBracketsHarm(p, i, first) && !Harmless(p, i, first)
    ensures !SameBracket(Entries(p, i, first, a, negated), EntriesOnce(p, i, first, b, negated))
    decreases |p| - i
  {
    hide SameClass, Rank;
    var j := CharAt(p, i);
    EntriesStep(p, i, first, a, negated);
    if RangeAt(p, j) {
      var u := BoundAt(p, j);
      var r := Range(p[j], p[u]);
      if p[u] != ']' {
        EntriesStep(p, u, false, a + [r], negated);
        EntriesDisagree(p, u + 1, false, a + [r] + [Range(p[u], p[u])], b + [r], negated);
      }
    } else {
      EntriesDisagree(p, j + 1, false, a + [Range(p[j], p[j])], b + [Range(p[j], p[j])], negated);
    }
  }

  /** Where nothing else does harm, both readings agree exactly when no bound is an escaped bracket. */
  lemma BracketBoundsIff(p: string, pos: nat)
    requires pos < |p| && OnlyBracketsHarm(p, FirstEntry(p, pos), true)
    ensures SameBracket(ReadBracket(p, pos), ReadBracketOnce(p, pos)) <==> Harmless(p, FirstEntry(p, pos), true)
  {
    hide Entries, EntriesOnce, Harmless, OnlyBracketsHarm;
    if Harmless(p, FirstEntry(p, pos), true) {
      BracketsAgree(p, pos);
    } else {
      EntriesDisagree(p, FirstEntry(p, pos), true, [], [], Negates(p, pos));
    }
  }

  // ---- whole patterns

  function TokenOnce(p: string, pos: nat): (r: (Token, nat))
    requires pos < |p|
    ensures pos < r.1 <= |p|
  {
    if p[pos] == '[' then
      var b := ReadBracketOnce(p, pos);
      if b.Bracket? then (Class(b.ranges, b.negated), b.next) else (Literal('['), pos + 1)
    else TokenAt(p, pos)
  }

  function TokensOnce(p: string, pos: nat): (ts: seq<Token>)
    requires pos <= |p|
    decreases |p| - pos
  {
    if pos == |p| then [] else
    var (t, next) := TokenOnce(p, pos);
    [t] + TokensOnce(p, next)
  }

  predicate HarmlessPattern(p: string, pos: nat)
    requires pos <= |p|
    decreases |p| - pos
  {
    pos == |p| ||
    ((p[pos] == '[' ==> Harmless(p, FirstEntry(p, pos), true)) && HarmlessPattern(p, TokenOnce(p, pos).1))
  }

  ghost predicate AlikeToken(t: Token, u: Token) {
    (t.Star? <==> u.Star?) && forall c :: Accepts(t, c) <==> Accepts(u, c)
  }

  ghost predicate Alike(ts: seq<Token>, us: seq<Token>) {
    |ts| == |us| && forall i :: 0 <= i < |ts| ==> AlikeToken(ts[i], us[i])
  }

  lemma {:induction false} AlikeMatches(ts: seq<Token>, us: seq<Token>, name: string)
    requires Alike(ts, us)
    ensures Matches(ts, name) <==> Matches(us, name)
    decreases |ts|
  {
    hide Accepts;
    if |ts| > 0 {
      assert AlikeToken(ts[0], us[0]);
      assert Alike(ts[1..], us[1..]);
      if ts[0].Star? {
        forall k | 0 <= k <= |name|
          ensures Matches(ts[1..], name[k..]) <==> Matches(us[1..], name[k..])
        {
          AlikeMatches(ts[1..], us[1..], name[k..]);
        }
      } else if |name| > 0 {
        AlikeMatches(ts[1..], us[1..], name[1..]);
      }
    }
  }

  lemma TokensAlikeAt(p: string, pos: nat)
    requires pos < |p| && (p[pos] == '[' ==> Harmless(p, FirstEntry(p, pos), true))
    ensures AlikeToken(TokenAt(p, pos).0, TokenOnce(p, pos).0) && TokenAt(p, pos).1 == TokenOnce(p, pos).1
  {
    hide ReadBracket, ReadBracketOnce, Harmless, InSome;
    if p[pos] == '[' {
      BracketsAgree(p, pos);
    }
  }

  lemma {:induction false} TokensAlike(p: string, pos: nat)
    requires pos <= |p| && HarmlessPattern(p, pos)
    ensures Alike(Tokens(p, pos), TokensOnce(p, pos))
    decreases |p| - pos
  {
    hide Harmless, AlikeToken, TokenAt, TokenOnce;
    if pos < |p| {
      TokensAlikeAt(p, pos);
      TokensAlike(p, TokenOnce(p, pos).1);
    }
  }

  /** Where every bound is harmless, a pattern matches the names it would match if bounds were read once. */
  lemma HarmlessPatternsAgree(p: string, name: string)
    requires HarmlessPattern(p, 0)
    ensures GlobMatches(p, name) <==> Matches(TokensOnce(p, 0), name)
  {
    hide HarmlessPattern, Tokens, TokensOnce, Matches;
    TokensAlike(p, 0);
    AlikeMatches(Tokens(p, 0), TokensOnce(p, 0), name);
  }

  // ---- what an escaped bracket does as a bound

  /** An escaped ']' as a bound closes the bracket expression. */
  lemma EscapedBoundCloses(p: string, i: nat, first: bool, ranges: seq<Range>, negated: bool)
    requires i < |p| && !(p[i] == ']' && !first)
    requires RangeAt(p, CharAt(p, i)) && p[BoundAt(p, CharAt(p, i))] == ']'
    ensures var j := CharAt(p, i);
            Entries(p, i, first, ranges, negated) == Bracket(ranges + [Range(p[j], ']')], negated, BoundAt(p, j) + 1)
  {
    EntriesStep(p, i, first, ranges, negated);
  }

  /** So an escaped bracket as a bound is no literal: the class ends there, and what follows is text. */
  lemma EscapedBracketIsNoLiteral(p: string)
    requires p == "[A-\\]]"
    ensures GlobMatches(p, "B]") && !GlobMatches(p, "B")
    ensures Matches(TokensOnce(p, 0), "B") && !Matches(TokensOnce(p, 0), "B]")
  {
    var t := Class([Range('A', ']')], false);
    assert p[0] == '[' && p[1] == 'A' && p[2] == '-' && p[3] == '\\' && p[4] == ']' && p[5] == ']' && |p| == 6;
    EscapedBoundCloses(p, 1, true, [], false);
    assert Tokens(p, 0) == [t, Literal(']')] by {
      assert [] + [Range('A', ']')] == [Range('A', ']')];
      assert TokenAt(p, 0) == (t, 5) && TokenAt(p, 5) == (Literal(']'), 6);
      assert Tokens(p, 6) == [];
      assert Tokens(p, 5) == [Literal(']')] + Tokens(p, 6);
      assert Tokens(p, 0) == [t] + Tokens(p, 5);
    }
    assert TokensOnce(p, 0) == [t] by {
      assert CharAt(p, 1) == 1 && RangeAt(p, 1) && BoundAt(p, 1) == 4;
      assert EntriesOnce(p, 5, false, t.ranges, false) == Bracket(t.ranges, false, 6);
      assert [] + [Range(p[1], p[4])] == t.ranges;
      assert EntriesOnce(p, 1, true, [], false) == Bracket(t.ranges, false, 6);
      assert FirstEntry(p, 0) == 1 && !Negates(p, 0);
      assert TokenOnce(p, 0) == (t, 6);
      assert TokensOnce(p, 6) == [];
    }
    assert InRange(t.ranges[0], 'B') && Accepts(t, 'B');
    TwoTokens(t, "B]");
    TwoTokens(t, "B");
    OneToken(t, "B]");
    OneToken(t, "B");
  }

  lemma TwoTokens(t: Token, name: string)
    requires t.Class?
    ensures Matches([t, Literal(']')], name) <==> |name| == 2 && Accepts(t, name[0]) && name[1] == ']'
  {
    assert [t, Literal(']')][1..] == [Literal(']')] && [Literal(']')][1..] == [];
  }

  lemma OneToken(t: Token, name: string)
    requires t.Class?
    ensures Matches([t], name) <==> |name| == 1 && Accepts(t, name[0])
  {
    assert [t][1..] == [];
  }
}
