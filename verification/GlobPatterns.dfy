/** What the patterns people write match, said of whole names. */
module GlobPatterns {
  import opened GlobBracket
  import opened GlobSpec

  // ---- a pattern reads the same wherever it stands

  function Moved(b: Bracket, n: nat): Bracket {
    match b case NoBracket => NoBracket case Bracket(ranges, negated, next) => Bracket(ranges, negated, next + n)
  }

  lemma {:induction false} EntriesMove(a: string, q: string, i: nat, first: bool, ranges: seq<Range>, negated: bool)
    requires i <= |q|
    ensures Entries(a + q, |a| + i, first, ranges, negated) == Moved(Entries(q, i, first, ranges, negated), |a|)
    decreases |q| - i
  {
    hide Entries;
    var p, n := a + q, |a|;
    if i == |q| || (q[i] == ']' && !first) {
      EntriesEnd(q, i, first, ranges, negated);
      EntriesEnd(p, n + i, first, ranges, negated);
    } else {
      var j := CharAt(q, i);
      PlacesMove(a, q, i);
      EntriesStep(p, n + i, first, ranges, negated);
      EntriesStep(q, i, first, ranges, negated);
      if RangeAt(q, j) {
        EntriesMove(a, q, BoundAt(q, j), false, ranges + [Range(q[j], q[BoundAt(q, j)])], negated);
      } else {
        EntriesMove(a, q, j + 1, false, ranges + [Range(q[j], q[j])], negated);
      }
    }
  }

  lemma EntriesEnd(p: string, i: nat, first: bool, ranges: seq<Range>, negated: bool)
    requires i <= |p| && (i == |p| || (p[i] == ']' && !first))
    ensures Entries(p, i, first, ranges, negated) ==
            if i == |p| || |ranges| == 0 then NoBracket else Bracket(ranges, negated, i + 1)
  {
  }

  lemma PlacesMove(a: string, q: string, i: nat)
    requires i < |q|
    ensures var (p, n, j) := (a + q, |a|, CharAt(q, i));
            && p[n + i] == q[i] && CharAt(p, n + i) == n + j && p[n + j] == q[j]
            && (RangeAt(p, n + j) <==> RangeAt(q, j))
            && (RangeAt(q, j) ==> BoundAt(p, n + j) == n + BoundAt(q, j) && p[n + BoundAt(q, j)] == q[BoundAt(q, j)])
  {
    assert forall k :: 0 <= k < |q| ==> (a + q)[|a| + k] == q[k];
  }

  lemma TokenMoves(a: string, q: string, i: nat)
    requires i < |q|
    ensures TokenAt(a + q, |a| + i) == (TokenAt(q, i).0, TokenAt(q, i).1 + |a|)
  {
    hide Entries;
    assert forall k :: 0 <= k < |q| ==> (a + q)[|a| + k] == q[k];
    if q[i] == '[' {
      EntriesMove(a, q, i + 1, true, [], false);
      if i + 1 < |q| {
        EntriesMove(a, q, i + 2, true, [], true);
      }
    }
  }

  lemma {:induction false} TokensMove(a: string, q: string, i: nat)
    requires i <= |q|
    ensures Tokens(a + q, |a| + i) == Tokens(q, i)
    decreases |q| - i
  {
    hide TokenAt;
    if i < |q| {
      TokenMoves(a, q, i);
      TokensMove(a, q, TokenAt(q, i).1);
    }
  }

  /** A token that ends where a ends is read first, and the rest as a pattern of its own. */
  lemma FirstToken(a: string, q: string)
    requires |a| > 0 && TokenAt(a + q, 0).1 == |a|
    ensures Tokens(a + q, 0) == [TokenAt(a + q, 0).0] + Tokens(q, 0)
  {
    TokensMove(a, q, 0);
  }

  // ---- ordinary characters

  predicate Special(c: char) {
    c == '*' || c == '?' || c == '[' || c == '\\'
  }

  predicate Ordinary(text: string) {
    forall i :: 0 <= i < |text| ==> !Special(text[i])
  }

  function Literals(text: string): seq<Token> {
    seq(|text|, i requires 0 <= i < |text| => Literal(text[i]))
  }

  function EscapedChar(c: char): string {
    if Special(c) then ['\\', c] else [c]
  }

  /** Every special character behind a backslash. */
  function Escaped(text: string): string {
    if |text| == 0 then [] else EscapedChar(text[0]) + Escaped(text[1..])
  }

  lemma FirstEscaped(c: char, q: string)
    ensures Tokens(EscapedChar(c) + q, 0) == [Literal(c)] + Tokens(q, 0)
  {
    hide Tokens;
    var a := EscapedChar(c);
    assert (a + q)[0] == a[0] && (|a| > 1 ==> (a + q)[1] == a[1]);
    FirstToken(a, q);
  }

  lemma LiteralsMore(c: char, text: string)
    ensures Literals([c] + text) == [Literal(c)] + Literals(text)
  {
  }

  lemma {:induction false} EscapedTokens(text: string, rest: string)
    ensures Tokens(Escaped(text) + rest, 0) == Literals(text) + Tokens(rest, 0)
    decreases |text|
  {
    hide Tokens, EscapedChar, Special, TokenAt;
    if |text| == 0 {
      assert [] + rest == rest;
    } else {
      var a, more := EscapedChar(text[0]), Escaped(text[1..]);
      assert Escaped(text) + rest == a + (more + rest);
      FirstEscaped(text[0], more + rest);
      EscapedTokens(text[1..], rest);
      LiteralsMore(text[0], text[1..]);
      assert [text[0]] + text[1..] == text;
    }
  }

  lemma {:induction false} OrdinaryIsEscaped(text: string)
    requires Ordinary(text)
    ensures Escaped(text) == text
    decreases |text|
  {
    if |text| > 0 {
      OrdinaryIsEscaped(text[1..]);
      assert text == [text[0]] + text[1..];
    }
  }

  lemma {:induction false} LiteralsMatch(text: string, ts: seq<Token>, name: string)
    ensures Matches(Literals(text) + ts, name) <==> text <= name && Matches(ts, name[|text|..])
    decreases |text|
  {
    if |text| == 0 {
      assert Literals(text) + ts == ts && name[0..] == name;
    } else {
      assert (Literals(text) + ts)[1..] == Literals(text[1..]) + ts;
      if |name| > 0 {
        LiteralsMatch(text[1..], ts, name[1..]);
        if |text| <= |name| {
          assert name[1..][|text| - 1..] == name[|text|..];
          assert text[1..] <= name[1..] && text[0] == name[0] <==> text <= name by {
            assert text == [text[0]] + text[1..];
            assert name == [name[0]] + name[1..];
          }
        }
      }
    }
  }

  /** Escaping makes any text match itself and nothing else. */
  lemma EscapedMatchesItself(text: string, name: string)
    ensures GlobMatches(Escaped(text), name) <==> name == text
  {
    hide Matches;
    EscapedTokens(text, []);
    assert Escaped(text) + [] == Escaped(text) && Literals(text) + Tokens([], 0) == Literals(text) + [];
    LiteralsMatch(text, [], name);
    NothingMatchesNothing(name, |text|);
  }

  lemma NothingMatchesNothing(name: string, n: nat)
    ensures n <= |name| ==> (Matches([], name[n..]) <==> n == |name|)
  {
  }

  /** So does text without special characters. */
  lemma OrdinaryMatchesItself(text: string, name: string)
    requires Ordinary(text)
    ensures GlobMatches(text, name) <==> name == text
  {
    OrdinaryIsEscaped(text);
    EscapedMatchesItself(text, name);
  }

  /** A backslash with nothing behind it stands for itself. */
  lemma LastBackslash(text: string, name: string)
    ensures GlobMatches(Escaped(text) + "\\", name) <==> name == text + "\\"
  {
    hide Matches, Tokens, Escaped, Literals;
    var last := "\\";
    EscapedTokens(text, last);
    BackslashAlone(last);
    LiteralsJoin(text, last);
    LiteralsMatch(text + last, [], name);
    assert Literals(text + last) + [] == Literals(text + last);
    NothingMatchesNothing(name, |text| + 1);
  }

  lemma BackslashAlone(last: string)
    requires last == "\\"
    ensures Tokens(last, 0) == Literals(last)
  {
    assert last + [] == last;
    FirstToken(last, []);
  }

  lemma LiteralsJoin(a: string, b: string)
    ensures Literals(a + b) == Literals(a) + Literals(b)
  {
  }

  // ---- wildcards

  /** A star between two texts matches the names that begin with one and end with the other, apart. */
  lemma StarMatchesBetween(front: string, back: string, name: string)
    ensures GlobMatches(Escaped(front) + "*" + Escaped(back), name) <==>
            |front| + |back| <= |name| && front == name[..|front|] && back == name[|name| - |back|..]
  {
    hide Matches, Tokens, Escaped, Literals;
    BetweenTokens(front, back);
    LiteralsMatch(front, [Star] + Literals(back), name);
    if front <= name {
      var rest := name[|front|..];
      StarThenText(back, rest);
      assert |back| <= |rest| ==> name[|name| - |back|..] == rest[|rest| - |back|..];
    }
  }

  lemma BetweenTokens(front: string, back: string)
    ensures Tokens(Escaped(front) + "*" + Escaped(back), 0) == Literals(front) + ([Star] + Literals(back))
  {
    hide Tokens, Escaped, Literals;
    var tail := "*" + Escaped(back);
    assert Escaped(front) + "*" + Escaped(back) == Escaped(front) + tail;
    EscapedTokens(front, tail);
    StarTokens(back);
  }

  lemma StarTokens(back: string)
    ensures Tokens("*" + Escaped(back), 0) == [Star] + Literals(back)
  {
    hide Tokens, Escaped;
    FirstToken("*", Escaped(back));
    AllEscaped(back);
  }

  lemma AllEscaped(text: string)
    ensures Tokens(Escaped(text), 0) == Literals(text)
  {
    hide Tokens, Escaped;
    EscapedTokens(text, []);
    NoTokens();
    assert Escaped(text) + [] == Escaped(text) && Literals(text) + [] == Literals(text);
  }

  lemma NoTokens()
    ensures Tokens([], 0) == []
  {
  }

  lemma StarThenText(back: string, name: string)
    ensures Matches([Star] + Literals(back), name) <==> |back| <= |name| && back == name[|name| - |back|..]
  {
    var ts := [Star] + Literals(back);
    assert ts[1..] == Literals(back) == Literals(back) + [];
    forall k | 0 <= k <= |name|
      ensures Matches(ts[1..], name[k..]) <==> name[k..] == back
    {
      LiteralsMatch(back, [], name[k..]);
      NothingMatchesNothing(name[k..], |back|);
    }
    if |back| <= |name| && back == name[|name| - |back|..] {
      assert Matches(ts[1..], name[|name| - |back|..]);
    }
  }

  /** Question marks match by number alone. */
  lemma {:induction false} QuestionMarksCount(marks: string, name: string)
    requires forall i :: 0 <= i < |marks| ==> marks[i] == '?'
    ensures GlobMatches(marks, name) <==> |name| == |marks|
    decreases |marks|
  {
    if |marks| > 0 {
      assert marks == ['?'] + marks[1..];
      FirstToken(['?'], marks[1..]);
      if |name| > 0 {
        QuestionMarksCount(marks[1..], name[1..]);
      }
    }
  }

  // ---- bracket expressions

  /** The whole pattern is one bracket expression. */
  predicate OneBracket(p: string) {
    |p| > 0 && p[0] == '[' && TokenAt(p, 0).0.Class? && TokenAt(p, 0).1 == |p|
  }

  /** One bracket expression matches names of one character only, and tests that. */
  lemma BracketMatches(p: string, name: string)
    requires OneBracket(p)
    ensures GlobMatches(p, name) <==> |name| == 1 && Accepts(TokenAt(p, 0).0, name[0])
  {
    hide TokenAt, Accepts, Matches;
    assert Tokens(p, |p|) == [];
    assert Tokens(p, 0) == [TokenAt(p, 0).0];
    OneToken(TokenAt(p, 0).0, name);
  }

  lemma OneToken(t: Token, name: string)
    requires !t.Star?
    ensures Matches([t], name) <==> |name| == 1 && Accepts(t, name[0])
  {
    hide Accepts;
    assert [t][1..] == [];
  }

  lemma {:induction false} NegationRides(p: string, i: nat, first: bool, ranges: seq<Range>)
    requires i <= |p|
    ensures var b := Entries(p, i, first, ranges, false);
            Entries(p, i, first, ranges, true) == if b.Bracket? then b.(negated := true) else b
    decreases |p| - i
  {
    hide Entries;
    if i == |p| || (p[i] == ']' && !first) {
      EntriesEnd(p, i, first, ranges, false);
      EntriesEnd(p, i, first, ranges, true);
    } else {
      var j := CharAt(p, i);
      EntriesStep(p, i, first, ranges, false);
      EntriesStep(p, i, first, ranges, true);
      if RangeAt(p, j) {
        NegationRides(p, BoundAt(p, j), false, ranges + [Range(p[j], p[BoundAt(p, j)])]);
      } else {
        NegationRides(p, j + 1, false, ranges + [Range(p[j], p[j])]);
      }
    }
  }

  /** The same content with and without '!' or '^' in front never agrees on a character. */
  lemma NegationComplements(content: string, sign: char, c: char)
    requires |content| > 0 && OneBracket("[" + content) && content[0] != '!' && content[0] != '^'
    requires sign == '!' || sign == '^'
    ensures OneBracket(['[', sign] + content)
    ensures GlobMatches("[" + content, [c]) <==> !GlobMatches(['[', sign] + content, [c])
  {
    hide Entries, Accepts, GlobMatches;
    var p, q := "[" + content, ['[', sign] + content;
    assert p[0] == '[' && p[1] == content[0] && q[0] == '[' && q[1] == sign;
    EntriesMove("[", content, 0, true, [], false);
    EntriesMove(['[', sign], content, 0, true, [], true);
    NegationRides(content, 0, true, []);
    EntriesBounds(p, 1, true, [], false);
    var t, u := TokenAt(p, 0).0, TokenAt(q, 0).0;
    assert t == Class(t.ranges, false) && u == Class(t.ranges, true) && TokenAt(q, 0).1 == |q|;
    BracketMatches(p, [c]);
    BracketMatches(q, [c]);
    Opposite(TokenAt(p, 0).0, TokenAt(q, 0).0, c);
  }

  lemma Opposite(t: Token, u: Token, c: char)
    requires t.Class? && u.Class? && t.ranges == u.ranges && !t.negated && u.negated
    ensures Accepts(t, c) <==> !Accepts(u, c)
  {
  }

  /** Characters that stand for themselves in a bracket expression; ']' may come first, '-' first or last. */
  predicate Listed(cs: string) {
    |cs| > 0 && cs[0] != '!' && cs[0] != '^'
    && forall i :: 0 <= i < |cs| ==>
         cs[i] != '\\' && (i > 0 ==> cs[i] != ']') && (0 < i < |cs| - 1 ==> cs[i] != '-')
  }

  function Singles(cs: string): seq<Range> {
    seq(|cs|, i requires 0 <= i < |cs| => Range(cs[i], cs[i]))
  }

  lemma {:induction false} ListedEntries(cs: string, i: nat)
    requires Listed(cs) && i <= |cs|
    ensures Entries(cs + "]", i, i == 0, Singles(cs[..i]), false) == Bracket(Singles(cs), false, |cs| + 1)
    decreases |cs| - i
  {
    var p := cs + "]";
    assert p[|cs|] == ']';
    if i < |cs| {
      assert p[i] == cs[i] && (i + 1 < |cs| ==> p[i + 1] == cs[i + 1]);
      assert !RangeAt(p, i);
      assert Singles(cs[..i + 1]) == Singles(cs[..i]) + [Range(cs[i], cs[i])];
      ListedEntries(cs, i + 1);
    } else {
      assert cs[..i] == cs;
    }
  }

  lemma SinglesHold(cs: string, c: char)
    ensures InSome(Singles(cs), c) <==> exists i :: 0 <= i < |cs| && Rank(cs[i]) == Rank(c)
  {
    hide Rank;
    forall i | 0 <= i < |cs|
      ensures InRange(Singles(cs)[i], c) <==> Rank(cs[i]) == Rank(c)
    {
      RankPoint(cs[i], c);
    }
  }

  lemma RankPoint(x: char, c: char)
    ensures InRange(Range(x, x), c) <==> Rank(x) == Rank(c)
  {
  }

  lemma RankIsOneToOne(x: char, y: char)
    requires x as int < 256 && y as int < 256
    ensures Rank(x) == Rank(y) <==> x == y
  {
  }

  /** A list in brackets matches exactly its characters, and with a sign in front exactly the others. */
  lemma ListMatchesIff(cs: string, sign: char, name: string)
    requires Listed(cs) && (sign == '!' || sign == '^')
    requires forall i :: 0 <= i < |cs| ==> cs[i] as int < 256
    requires forall i :: 0 <= i < |name| ==> name[i] as int < 256
    ensures GlobMatches("[" + (cs + "]"), name) <==> |name| == 1 && name[0] in cs
    ensures GlobMatches(['[', sign] + (cs + "]"), name) <==> |name| == 1 && name[0] !in cs
  {
    hide Entries, InSome, GlobMatches, Singles, Rank;
    var content := cs + "]";
    var p, q := "[" + content, ['[', sign] + content;
    ListedEntries(cs, 0);
    assert Singles(cs[..0]) == [] by { NoSingles(cs[..0]); }
    EntriesMove("[", content, 0, true, [], false);
    assert p[0] == '[' && p[1] == cs[0];
    assert OneBracket(p) && TokenAt(p, 0).0 == Class(Singles(cs), false);
    BracketMatches(p, name);
    if |name| == 1 {
      var c := name[0];
      assert name == [c];
      NegationComplements(content, sign, c);
      SinglesHold(cs, c);
      forall i | 0 <= i < |cs|
        ensures Rank(cs[i]) == Rank(c) <==> cs[i] == c
      {
        RankIsOneToOne(cs[i], c);
      }
    } else {
      NegationComplements(content, sign, 'x');
      BracketMatches(q, name);
    }
  }

  lemma NoSingles(cs: string)
    requires |cs| == 0
    ensures Singles(cs) == []
  {
  }

  predicate PlainEnds(lo: char, hi: char) {
    lo != '!' && lo != '^' && lo != '\\' && hi != ']' && hi != '\\'
  }

  lemma RangeReads(lo: char, hi: char, name: string)
    requires PlainEnds(lo, hi)
    ensures GlobMatches(['[', lo, '-', hi, ']'], name) <==>
            |name| == 1 && (InRange(Range(lo, hi), name[0]) || Rank(name[0]) == Rank(hi))
  {
    hide GlobMatches;
    var p := ['[', lo, '-', hi, ']'];
    assert [] + [Range(lo, hi)] == [Range(lo, hi)];
    assert Entries(p, 3, false, [Range(lo, hi)], false) == Bracket([Range(lo, hi), Range(hi, hi)], false, 5) by {
      assert [Range(lo, hi)] + [Range(hi, hi)] == [Range(lo, hi), Range(hi, hi)];
      assert Entries(p, 4, false, [Range(lo, hi), Range(hi, hi)], false)
          == Bracket([Range(lo, hi), Range(hi, hi)], false, 5);
    }
    BracketMatches(p, name);
    if |name| == 1 {
      TwoRanges(Range(lo, hi), Range(hi, hi), name[0]);
      RankPoint(hi, name[0]);
    }
  }

  /** A range of ASCII characters matches exactly what lies between its ends, and its upper end in any case. */
  lemma RangeMatchesIff(lo: char, hi: char, name: string)
    requires lo as int < 128 && hi as int < 128 && PlainEnds(lo, hi)
    requires forall i :: 0 <= i < |name| ==> name[i] as int < 256
    ensures GlobMatches(['[', lo, '-', hi, ']'], name) <==>
            |name| == 1 && (lo <= name[0] <= hi || name[0] == hi)
  {
    hide GlobMatches;
    RangeReads(lo, hi, name);
  }

  /** A range from ASCII to a byte above it matches that byte alone: bytes above ASCII count as negative. */
  lemma RangeAcrossIff(lo: char, hi: char, name: string)
    requires lo as int < 128 <= hi as int < 256 && PlainEnds(lo, hi)
    requires forall i :: 0 <= i < |name| ==> name[i] as int < 256
    ensures GlobMatches(['[', lo, '-', hi, ']'], name) <==> name == [hi]
  {
    hide GlobMatches;
    RangeReads(lo, hi, name);
  }

  lemma TwoRanges(a: Range, b: Range, c: char)
    ensures InSome([a, b], c) <==> InRange(a, c) || InRange(b, c)
  {
    var rs := [a, b];
    assert rs[0] == a && rs[1] == b;
  }

  // ---- what is no bracket expression

  lemma {:induction false} NeverClosed(p: string, i: nat, first: bool, ranges: seq<Range>, negated: bool)
    requires i <= |p| && forall k :: i <= k < |p| ==> p[k] != ']'
    ensures Entries(p, i, first, ranges, negated) == NoBracket
    decreases |p| - i
  {
    hide Entries;
    if i == |p| {
      EntriesEnd(p, i, first, ranges, negated);
    } else {
      var j := CharAt(p, i);
      EntriesStep(p, i, first, ranges, negated);
      if RangeAt(p, j) {
        NeverClosed(p, BoundAt(p, j), false, ranges + [Range(p[j], p[BoundAt(p, j)])], negated);
      } else {
        NeverClosed(p, j + 1, false, ranges + [Range(p[j], p[j])], negated);
      }
    }
  }

  /** A '[' that nothing closes stands for itself. */
  lemma UnclosedIsLiteral(text: string, name: string)
    requires forall k :: 0 <= k < |text| ==> text[k] != ']'
    ensures GlobMatches("[" + Escaped(text), name) <==> name == "[" + text
  {
    hide Matches, Tokens, Escaped;
    UnclosedTokens(text);
    LiteralsMatch("[" + text, [], name);
    assert Literals("[" + text) + [] == Literals("[" + text);
    NothingMatchesNothing(name, |text| + 1);
  }

  lemma UnclosedTokens(text: string)
    requires forall k :: 0 <= k < |text| ==> text[k] != ']'
    ensures Tokens("[" + Escaped(text), 0) == Literals("[" + text)
  {
    hide Tokens, Escaped, TokenAt, Literals;
    EscapedCloses(text);
    UnclosedToken(Escaped(text));
    FirstToken("[", Escaped(text));
    AllEscaped(text);
    LiteralsMore('[', text);
  }

  lemma UnclosedToken(q: string)
    requires forall k :: 0 <= k < |q| ==> q[k] != ']'
    ensures TokenAt("[" + q, 0) == (Literal('['), 1)
  {
    hide Entries;
    var p := "[" + q;
    assert p[0] == '[' && forall k :: 1 <= k < |p| ==> p[k] == q[k - 1];
    NeverClosed(p, 1, true, [], false);
    if |p| > 1 {
      NeverClosed(p, 2, true, [], true);
    }
  }

  lemma {:induction false} EscapedCloses(text: string)
    requires forall k :: 0 <= k < |text| ==> text[k] != ']'
    ensures forall k :: 0 <= k < |Escaped(text)| ==> Escaped(text)[k] != ']'
    decreases |text|
  {
    if |text| > 0 {
      EscapedCloses(text[1..]);
    }
  }
}
