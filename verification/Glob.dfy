/**
 What a wildcard pattern means: the pattern is a list of tokens, and a name matches if it
 can be cut so that every star takes some stretch and every other token one character.
 */
module GlobSpec {
  /** A character class entry; single characters have lo == hi. */
  datatype Range = Range(lo: char, hi: char)

  datatype Token =
    | Star
    | Any
    | Class(ranges: seq<Range>, negated: bool)
    | Literal(c: char)

  /** The order of a signed eight-bit char, which is what the range test compares. */
  function Rank(c: char): int {
    if c as int < 128 then c as int else c as int - 256
  }

  predicate InRange(r: Range, c: char) {
    Rank(r.lo) <= Rank(c) <= Rank(r.hi)
  }

  predicate InSome(ranges: seq<Range>, c: char) {
    exists i :: 0 <= i < |ranges| && InRange(ranges[i], c)
  }

  /** One token other than a star takes exactly one character. */
  predicate Accepts(t: Token, c: char) {
    match t
    case Star => false
    case Any => true
    case Class(ranges, negated) => InSome(ranges, c) != negated
    case Literal(l) => c == l
  }

  /** The declarative relation: a star takes any stretch of the name, even an empty one. */
  ghost predicate Matches(ts: seq<Token>, name: string)
    decreases |ts|
  {
    if |ts| == 0 then |name| == 0
    else if ts[0].Star? then exists k :: 0 <= k <= |name| && Matches(ts[1..], name[k..])
    else |name| > 0 && Accepts(ts[0], name[0]) && Matches(ts[1..], name[1..])
  }

  // ---- reading a pattern

  /** A bracket expression read so far: its entries and where reading goes on. */
  datatype Bracket = NoBracket | Bracket(ranges: seq<Range>, negated: bool, next: nat)

  /** The entries from position i on, up to the closing bracket. */
  function Entries(p: string, i: nat, first: bool, ranges: seq<Range>, negated: bool): (b: Bracket)
    requires i <= |p|
    decreases |p| - i
  {
    if i == |p| then NoBracket
    else if p[i] == ']' && !first then (if |ranges| == 0 then NoBracket else Bracket(ranges, negated, i + 1))
    else
      var j := if p[i] == '\\' && i + 1 < |p| then i + 1 else i;
      if j + 2 < |p| && p[j + 1] == '-' && p[j + 2] != ']' then
        if p[j + 2] == '\\' && j + 3 < |p|
        then Entries(p, j + 3, false, ranges + [Range(p[j], p[j + 3])], negated)
        else Entries(p, j + 2, false, ranges + [Range(p[j], p[j + 2])], negated)
      else Entries(p, j + 1, false, ranges + [Range(p[j], p[j])], negated)
  }

  /** The bracket expression opening at pos; unclosed ones are no brackets at all. */
  function ReadBracket(p: string, pos: nat): (b: Bracket)
    requires pos < |p|
  {
    if pos + 1 < |p| && (p[pos + 1] == '!' || p[pos + 1] == '^')
    then Entries(p, pos + 2, true, [], true)
    else Entries(p, pos + 1, true, [], false)
  }

  lemma {:induction false} EntriesBounds(p: string, i: nat, first: bool, ranges: seq<Range>, negated: bool)
    requires i <= |p|
    ensures var b := Entries(p, i, first, ranges, negated);
            b.Bracket? ==> i < b.next <= |p| && p[b.next - 1] == ']' && |b.ranges| > 0 && b.negated == negated
    decreases |p| - i
  {
    if i < |p| && !(p[i] == ']' && !first) {
      var j := if p[i] == '\\' && i + 1 < |p| then i + 1 else i;
      if j + 2 < |p| && p[j + 1] == '-' && p[j + 2] != ']' {
        if p[j + 2] == '\\' && j + 3 < |p| {
          EntriesBounds(p, j + 3, false, ranges + [Range(p[j], p[j + 3])], negated);
        } else {
          EntriesBounds(p, j + 2, false, ranges + [Range(p[j], p[j + 2])], negated);
        }
      } else {
        EntriesBounds(p, j + 1, false, ranges + [Range(p[j], p[j])], negated);
      }
    }
  }

  /** The token at p, and the position after it. */
  function TokenAt(p: string, pos: nat): (r: (Token, nat))
    requires pos < |p|
    ensures pos < r.1 <= |p|
  {
    var c := p[pos];
    if c == '*' then (Star, pos + 1)
    else if c == '?' then (Any, pos + 1)
    else if c == '[' then
      BracketBounds(p, pos);
      var b := ReadBracket(p, pos);
      if b.Bracket? then (Class(b.ranges, b.negated), b.next) else (Literal('['), pos + 1)
    else if c == '\\' && pos + 1 < |p| then (Literal(p[pos + 1]), pos + 2)
    else (Literal(c), pos + 1)
  }

  /** A bracket expression ends right after its ']' and has at least one entry. */
  lemma BracketBounds(p: string, pos: nat)
    requires pos < |p|
    ensures var b := ReadBracket(p, pos);
            b.Bracket? ==> pos + 1 < b.next <= |p| && p[b.next - 1] == ']' && |b.ranges| > 0
  {
    if pos + 1 < |p| && (p[pos + 1] == '!' || p[pos + 1] == '^') {
      EntriesBounds(p, pos + 2, true, [], true);
    } else {
      EntriesBounds(p, pos + 1, true, [], false);
    }
  }

  function Tokens(p: string, pos: nat): (ts: seq<Token>)
    requires pos <= |p|
    decreases |p| - pos
  {
    if pos == |p| then [] else
    var (t, next) := TokenAt(p, pos);
    [t] + Tokens(p, next)
  }

  /** A name matches a pattern. */
  ghost predicate GlobMatches(pattern: string, name: string) {
    Matches(Tokens(pattern, 0), name)
  }

  // ---- stars

  predicate NoStars(ts: seq<Token>) {
    forall i :: 0 <= i < |ts| ==> !ts[i].Star?
  }

  /** Tokens without stars take exactly their number of characters. */
  lemma {:induction false} FixedPrefix(lits: seq<Token>, rest: seq<Token>, name: string)
    requires NoStars(lits) && Matches(lits + rest, name)
    ensures |lits| <= |name| && Matches(rest, name[|lits|..])
    decreases |lits|
  {
    if |lits| == 0 {
      assert lits + rest == rest && name[0..] == name;
    } else {
      assert (lits + rest)[1..] == lits[1..] + rest;
      FixedPrefix(lits[1..], rest, name[1..]);
      assert name[1..][|lits| - 1..] == name[|lits|..];
    }
  }

  /** A match of a star's tail at from or later. */
  ghost predicate MatchesFrom(ts: seq<Token>, name: string, from: nat) {
    exists k :: from <= k <= |name| && Matches(ts, name[k..])
  }

  /**
   Why one remembered star is enough. Between an earlier star and a later one stand as many
   fixed tokens as characters were taken since; any later match for the earlier star's tail
   is therefore also a match the later star finds.
   */
  lemma LastStarSuffices(tail: seq<Token>, lits: seq<Token>, here: seq<Token>, name: string, starN: nat, n: nat)
    requires |here| > 0 && here[0].Star? && NoStars(lits) && tail == lits + here
    requires n == starN + |lits| && n <= |name|
    requires MatchesFrom(tail, name, starN + 1)
    ensures MatchesFrom(here[1..], name, n)
  {
    var k :| starN + 1 <= k <= |name| && Matches(tail, name[k..]);
    FixedPrefix(lits, here, name[k..]);
    var at := k + |lits|;
    assert name[k..][|lits|..] == name[at..];
    var m :| 0 <= m <= |name[at..]| && Matches(here[1..], name[at..][m..]);
    assert name[at..][m..] == name[at + m..];
  }
}
