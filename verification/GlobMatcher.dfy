/** The iterative matcher: greedy, and able to go back to the last star only. */
module GlobMatcher {
  import opened GlobSpec

  /** Reads the bracket expression that opens at pos. */
  method ParseBracket(pattern: string, pos: nat) returns (b: Bracket)
    requires pos < |pattern|
    ensures b == ReadBracket(pattern, pos)
  {
    var i := pos + 1;
    var negated := false;
    if i < |pattern| && (pattern[i] == '!' || pattern[i] == '^') {
      negated := true;
      i := i + 1;
    }
    var ranges: seq<Range> := [];
    var closed, first := false, true;
    while i < |pattern| && !closed
      invariant i <= |pattern|
      invariant !closed ==> Entries(pattern, i, first, ranges, negated) == ReadBracket(pattern, pos)
      invariant closed ==> ReadBracket(pattern, pos) == if |ranges| == 0 then NoBracket else Bracket(ranges, negated, i)
      decreases |pattern| - i
    {
      if pattern[i] == ']' && !first {
        closed := true;
        i := i + 1;
      } else {
        first := false;
        if pattern[i] == '\\' && i + 1 < |pattern| {
          i := i + 1;
        }
        var lo := pattern[i];
        if i + 2 < |pattern| && pattern[i + 1] == '-' && pattern[i + 2] != ']' {
          var hi := pattern[i + 2];
          if hi == '\\' && i + 3 < |pattern| {
            hi := pattern[i + 3];
            i := i + 1;
          }
          ranges := ranges + [Range(lo, hi)];
          i := i + 2;
        } else {
          ranges := ranges + [Range(lo, lo)];
          i := i + 1;
        }
      }
    }
    if !closed || |ranges| == 0 {
      return NoBracket;
    }
    b := Bracket(ranges, negated, i);
  }

  /** Does some entry of a bracket expression cover the character? */
  method Hit(ranges: seq<Range>, c: char) returns (hit: bool)
    ensures hit == InSome(ranges, c)
  {
    for i := 0 to |ranges|
      invariant forall j :: 0 <= j < i ==> !InRange(ranges[j], c)
    {
      if Rank(c) >= Rank(ranges[i].lo) && Rank(c) <= Rank(ranges[i].hi) {
        assert InRange(ranges[i], c);
        return true;
      }
    }
    return false;
  }

  /** Tries the token at p, not a star, on one character; next is where the pattern goes on. */
  method TryToken(pattern: string, p: nat, c: char) returns (matched: bool, next: nat)
    requires p < |pattern| && pattern[p] != '*'
    ensures next == TokenAt(pattern, p).1 && matched == Accepts(TokenAt(pattern, p).0, c)
  {
    var pc := pattern[p];
    if pc == '?' {
      return true, p + 1;
    }
    if pc == '[' {
      var b := ParseBracket(pattern, p);
      if b.Bracket? {
        var hit := Hit(b.ranges, c);
        return hit != b.negated, b.next;
      }
      return c == '[', p + 1;
    }
    if pc == '\\' && p + 1 < |pattern| {
      return c == pattern[p + 1], p + 2;
    }
    return c == pc, p + 1;
  }

  lemma MatchesFromStep(ts: seq<Token>, name: string, from: nat)
    requires from <= |name|
    ensures MatchesFrom(ts, name, from) <==> Matches(ts, name[from..]) || MatchesFrom(ts, name, from + 1)
  {
  }

  lemma StarIsFrom(ts: seq<Token>, name: string, n: nat)
    requires |ts| > 0 && ts[0].Star? && n <= |name|
    ensures Matches(ts, name[n..]) <==> MatchesFrom(ts[1..], name, n)
  {
    if Matches(ts, name[n..]) {
      var m :| 0 <= m <= |name[n..]| && Matches(ts[1..], name[n..][m..]);
      assert name[n..][m..] == name[n + m..];
    }
    if MatchesFrom(ts[1..], name, n) {
      var k :| n <= k <= |name| && Matches(ts[1..], name[k..]);
      assert name[n..][k - n..] == name[k..];
    }
  }

  /** With the name used up, no later start for the remembered star can work. */
  lemma NothingLater(tail: seq<Token>, lits: seq<Token>, here: seq<Token>, name: string, starN: nat)
    requires NoStars(lits) && tail == lits + here && |name| == starN + |lits|
    ensures !MatchesFrom(tail, name, starN + 1)
  {
    if MatchesFrom(tail, name, starN + 1) {
      var k :| starN + 1 <= k <= |name| && Matches(tail, name[k..]);
      FixedPrefix(lits, here, name[k..]);
    }
  }

  /**
   What the matcher knows: the answer is a match from here, or, if a star is remembered, a
   match of its tail further on. The tokens since the star are fixed, one per character taken.
   */
  ghost predicate OnTrack(pattern: string, name: string, p: nat, n: nat, starP: int, starN: nat, lits: seq<Token>) {
    && p <= |pattern| && n <= |name| && starN <= n && -1 <= starP < |pattern|
    && (starP < 0 ==> (GlobMatches(pattern, name) <==> Matches(Tokens(pattern, p), name[n..])))
    && (starP >= 0 ==>
          && starP < p && NoStars(lits) && n == starN + |lits|
          && Tokens(pattern, starP + 1) == lits + Tokens(pattern, p)
          && (GlobMatches(pattern, name) <==>
                Matches(Tokens(pattern, p), name[n..]) || MatchesFrom(Tokens(pattern, starP + 1), name, starN + 1)))
  }

  /** Meeting a star: it replaces the remembered one. */
  lemma TakeStar(pattern: string, name: string, p: nat, n: nat, starP: int, starN: nat, lits: seq<Token>)
    requires OnTrack(pattern, name, p, n, starP, starN, lits) && p < |pattern| && pattern[p] == '*'
    ensures OnTrack(pattern, name, p + 1, n, p, n, [])
  {
    hide Matches, MatchesFrom;
    var here := Tokens(pattern, p);
    assert here == [Star] + Tokens(pattern, p + 1) && here[1..] == Tokens(pattern, p + 1);
    StarIsFrom(here, name, n);
    MatchesFromStep(here[1..], name, n);
    if starP >= 0 && MatchesFrom(Tokens(pattern, starP + 1), name, starN + 1) {
      LastStarSuffices(Tokens(pattern, starP + 1), lits, here, name, starN, n);
    }
  }

  /** Going back: the remembered star takes one more character. */
  lemma GoBack(pattern: string, name: string, p: nat, n: nat, starP: int, starN: nat, lits: seq<Token>)
    requires OnTrack(pattern, name, p, n, starP, starN, lits) && starP >= 0 && n < |name|
    requires !Matches(Tokens(pattern, p), name[n..])
    ensures OnTrack(pattern, name, starP + 1, starN + 1, starP, starN + 1, [])
  {
    hide Matches, MatchesFrom;
    MatchesFromStep(Tokens(pattern, starP + 1), name, starN + 1);
  }

  /** Going on past a token that accepted the character. */
  lemma GoOn(pattern: string, name: string, p: nat, n: nat, starP: int, starN: nat, lits: seq<Token>)
    requires OnTrack(pattern, name, p, n, starP, starN, lits) && p < |pattern| && n < |name|
    requires Accepts(TokenAt(pattern, p).0, name[n])
    ensures OnTrack(pattern, name, TokenAt(pattern, p).1, n + 1, starP, starN, lits + [TokenAt(pattern, p).0])
  {
    hide MatchesFrom;
    var (t, next) := TokenAt(pattern, p);
    assert Tokens(pattern, p)[1..] == Tokens(pattern, next);
    assert name[n..][1..] == name[n + 1..];
    if starP >= 0 {
      assert lits + Tokens(pattern, p) == lits + [t] + Tokens(pattern, next);
    }
  }

  method MatchHere(pattern: string, name: string) returns (matched: bool)
    ensures matched <==> GlobMatches(pattern, name)
  {
    hide Matches, MatchesFrom, Tokens, TokenAt, Accepts;
    var p: nat, n: nat := 0, 0;
    var starP: int, starN: nat := -1, 0;
    ghost var lits: seq<Token> := [];
    assert name[0..] == name;
    while n < |name|
      invariant OnTrack(pattern, name, p, n, starP, starN, lits)
      decreases |pattern| - starP, |name| - starN, |name| - n
    {
      if p < |pattern| && pattern[p] == '*' {
        TakeStar(pattern, name, p, n, starP, starN, lits);
        starP, starN, lits := p, n, [];
        p := p + 1;
        continue;
      }
      if p < |pattern| {
        var ok, next := TryToken(pattern, p, name[n]);
        if ok {
          GoOn(pattern, name, p, n, starP, starN, lits);
          lits := lits + [TokenAt(pattern, p).0];
          p, n := next, n + 1;
          continue;
        }
      }
      NoMatchHere(pattern, p, name, n);
      if starP < 0 {
        return false;
      }
      GoBack(pattern, name, p, n, starP, starN, lits);
      starN, lits := starN + 1, [];
      p, n := starP + 1, starN;
    }
    if starP >= 0 {
      NothingLater(Tokens(pattern, starP + 1), lits, Tokens(pattern, p), name, starN);
    }
    assert name[n..] == [];
    while p < |pattern| && pattern[p] == '*'
      invariant p <= |pattern|
      invariant Matches(Tokens(pattern, p), []) <==> GlobMatches(pattern, name)
    {
      StarOnNothing(pattern, p);
      p := p + 1;
    }
    NothingLeft(pattern, p);
    return p == |pattern|;
  }

  lemma NoMatchHere(pattern: string, p: nat, name: string, n: nat)
    requires p <= |pattern| && n < |name|
    requires p < |pattern| ==> pattern[p] != '*' && !Accepts(TokenAt(pattern, p).0, name[n])
    ensures !Matches(Tokens(pattern, p), name[n..])
  {
  }

  lemma StarOnNothing(pattern: string, p: nat)
    requires p < |pattern| && pattern[p] == '*'
    ensures Matches(Tokens(pattern, p), []) <==> Matches(Tokens(pattern, p + 1), [])
  {
    var ts := Tokens(pattern, p);
    var nothing: string := [];
    assert ts[1..] == Tokens(pattern, p + 1) && nothing[0..] == nothing;
  }

  lemma NothingLeft(pattern: string, p: nat)
    requires p <= |pattern| && (p < |pattern| ==> pattern[p] != '*')
    ensures Matches(Tokens(pattern, p), []) <==> p == |pattern|
  {
  }

  method GlobMatch(pattern: string, name: string) returns (matched: bool)
    ensures matched <==> GlobMatches(pattern, name)
  {
    matched := MatchHere(pattern, name);
  }
}
