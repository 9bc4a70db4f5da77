/** A NUL quote character is meant to switch quoting off; when the parser really has none. */
module CsvNoQuotes {
  import opened Csv
  import opened CsvCounts
  import opened Wrappers

  predicate Separator(c: char, o: Options) {
    c == o.delimiter || c == CR || c == LF
  }

  // ---- the parser without quotes

  function BareTurn(text: string, s: State, o: Options): (r: (nat, State))
    requires |text| > 0
    ensures 1 <= r.0 <= |text|
  {
    var c := text[0];
    if c == o.delimiter then (1, EndField(s))
    else if c == CR && |text| > 1 && text[1] == LF then (2, EndLine(s, o))
    else if c == CR || c == LF then (1, EndLine(s, o))
    else (1, s.(field := s.field + [c], started := true))
  }

  function BareRun(text: string, s: State, o: Options): Table
    decreases |text|
  {
    if |text| == 0 then (if s.started || |s.field| > 0 || |s.row| > 0 then s.out + [s.row + [s.field]] else s.out)
    else
      var (k, next) := BareTurn(text, s, o);
      BareRun(text[k..], next, o)
  }

  function Start(text: string, o: Options): string {
    if o.skipBom && HasBom(text) then text[3..] else text
  }

  function BareParsed(text: string, o: Options): Table {
    BareRun(Start(text, o), START, o)
  }

  /** No field of the text starts with NUL; first says whether a field starts at its front. */
  predicate NoNulField(text: string, first: bool, o: Options) {
    && (first && |text| > 0 ==> text[0] != NUL)
    && forall i :: 0 < i < |text| && text[i] == NUL ==> !Separator(text[i - 1], o)
  }

  predicate Fresh(s: State) {
    |s.field| == 0 && !s.started
  }

  predicate Outside(s: State) {
    !s.inQuotes && !s.quoteClosed
  }

  lemma NoNulRest(text: string, first: bool, k: nat, o: Options)
    requires 0 < k <= |text|
    ensures NoNulField(text, first, o) ==> NoNulField(text[k..], Separator(text[k - 1], o), o)
    ensures k == 1 && NoNulField(text[1..], Separator(text[0], o), o) && (first ==> text[0] != NUL) ==>
            NoNulField(text, first, o)
    ensures k == 2 && text[0] == CR && text[1] == LF && NoNulField(text[2..], true, o) ==> NoNulField(text, first, o)
  {
    var rest := text[k..];
    forall i | 0 < i < |text| && text[i] == NUL
      ensures i > k ==> rest[i - k] == text[i] && rest[i - k - 1] == text[i - 1]
      ensures i == k ==> rest[0] == NUL
    {
    }
  }

  /** A turn outside quotes that opens none is the bare one. */
  lemma SameTurn(text: string, s: State, o: Options)
    requires |text| > 0 && o.quote == NUL && Outside(s) && (Fresh(s) ==> text[0] != NUL)
    ensures Turn(text, s, o) == BareTurn(text, s, o)
    ensures var (k, next) := BareTurn(text, s, o); Outside(next) && (Fresh(next) <==> Separator(text[k - 1], o))
  {
  }

  lemma {:induction false} SameRun(text: string, s: State, o: Options)
    requires o.quote == NUL && Outside(s) && NoNulField(text, Fresh(s), o)
    ensures Run(text, s, o) == Some(BareRun(text, s, o))
    decreases |text|
  {
    hide Turn, BareTurn, NoNulField;
    if |text| > 0 {
      assert Fresh(s) ==> text[0] != NUL by { FirstIsNoNul(text, Fresh(s), o); }
      SameTurn(text, s, o);
      var (k, next) := BareTurn(text, s, o);
      NoNulRest(text, Fresh(s), k, o);
      SameRun(text[k..], next, o);
    }
  }

  lemma FirstIsNoNul(text: string, first: bool, o: Options)
    requires NoNulField(text, first, o) && |text| > 0
    ensures first ==> text[0] != NUL
  {
  }

  // ---- counting NULs tells the two parsers apart

  lemma BareTurnCount(text: string, s: State, o: Options, c: char)
    requires |text| > 0 && c != o.delimiter && c != CR && c != LF
    ensures var (k, next) := BareTurn(text, s, o);
            StateCount(next, c) + Count(text[k..], c) == StateCount(s, c) + Count(text, c)
  {
    hide Count, RowCount, TableCount;
    CountTail(text, c);
    EndLineCount(s, o, c);
    RowMore(s.row, s.field, c);
    CountMore(s.field, text[0], c);
    NothingCounted(c);
  }

  /** Without quotes no character but a separator is lost. */
  lemma {:induction false} BareRunCount(text: string, s: State, o: Options, c: char)
    requires c != o.delimiter && c != CR && c != LF
    ensures TableCount(BareRun(text, s, o), c) == StateCount(s, c) + Count(text, c)
    decreases |text|
  {
    hide BareTurn, StateCount, Count;
    NothingCounted(c);
    EndCount(s, c);
    if |text| > 0 {
      BareTurnCount(text, s, o, c);
      var (k, next) := BareTurn(text, s, o);
      BareRunCount(text[k..], next, o, c);
    }
  }

  lemma TurnNuls(text: string, s: State, o: Options)
    requires |text| > 0 && o.delimiter != NUL && o.quote == NUL
    ensures var (k, next) := Turn(text, s, o);
            && StateCount(next, NUL) + Count(text[k..], NUL) <= StateCount(s, NUL) + Count(text, NUL)
            && (Outside(s) && Fresh(s) && text[0] == NUL ==>
                  StateCount(next, NUL) + Count(text[k..], NUL) < StateCount(s, NUL) + Count(text, NUL))
  {
    hide Count, RowCount, TableCount;
    CountTail(text, NUL);
    EndLineCount(s, o, NUL);
    RowMore(s.row, s.field, NUL);
    CountMore(s.field, text[0], NUL);
    CountMore(s.field, o.quote, NUL);
    NothingCounted(NUL);
    assert text[0..] == text;
  }

  lemma {:induction false} RunNuls(text: string, s: State, o: Options)
    requires o.delimiter != NUL && o.quote == NUL
    ensures Run(text, s, o).Some? ==> TableCount(Run(text, s, o).value, NUL) <= StateCount(s, NUL) + Count(text, NUL)
    decreases |text|, s.quoteClosed
  {
    hide Turn, StateCount, Count;
    NothingCounted(NUL);
    EndCount(s, NUL);
    if |text| > 0 {
      TurnNuls(text, s, o);
      var (k, next) := Turn(text, s, o);
      RunNuls(text[k..], next, o);
    }
  }

  /** A field that starts with NUL opens a quoted field, and that NUL is lost. */
  lemma {:induction false} OpeningLosesNul(text: string, s: State, o: Options)
    requires o.delimiter != NUL && o.quote == NUL && Outside(s) && !NoNulField(text, Fresh(s), o)
    ensures Run(text, s, o).Some? ==> TableCount(Run(text, s, o).value, NUL) < StateCount(s, NUL) + Count(text, NUL)
    decreases |text|
  {
    hide Turn, BareTurn, StateCount, Count, NoNulField;
    assert |text| > 0 by { NoNulNothing(text, Fresh(s), o); }
    TurnNuls(text, s, o);
    var (k, next) := Turn(text, s, o);
    if Fresh(s) && text[0] == NUL {
      RunNuls(text[k..], next, o);
    } else {
      SameTurn(text, s, o);
      OneOrTwo(text, s, o);
      NoNulRest(text, Fresh(s), k, o);
      OpeningLosesNul(text[k..], next, o);
    }
  }

  lemma NoNulNothing(text: string, first: bool, o: Options)
    ensures |text| == 0 ==> NoNulField(text, first, o)
  {
  }

  lemma OneOrTwo(text: string, s: State, o: Options)
    requires |text| > 0
    ensures var k := BareTurn(text, s, o).0; k == 1 || (k == 2 && text[0] == CR && text[1] == LF)
  {
  }

  /**
   With a NUL quote the parser reads a text as if it had no quotes exactly when no field of
   the text starts with NUL.
   */
  lemma QuotingIsOffIff(text: string, o: Options)
    requires Usable(o) && o.quote == NUL
    ensures Parsed(text, o) == Some(BareParsed(text, o)) <==> NoNulField(Start(text, o), true, o)
  {
    hide Run, BareRun, NoNulField, StateCount, TableCount, Count;
    var t := Start(text, o);
    if NoNulField(t, true, o) {
      SameRun(t, START, o);
    } else {
      OpeningLosesNul(t, START, o);
      BareRunCount(t, START, o, NUL);
    }
  }

  // ---- delimiters are not literal

  /** The reading in which every character but a line end is literal: a line is a field. */
  function LineTurn(text: string, s: State, o: Options): (r: (nat, State))
    requires |text| > 0
    ensures 1 <= r.0 <= |text|
  {
    var c := text[0];
    if c == CR && |text| > 1 && text[1] == LF then (2, EndLine(s, o))
    else if c == CR || c == LF then (1, EndLine(s, o))
    else (1, s.(field := s.field + [c], started := true))
  }

  function LineRun(text: string, s: State, o: Options): Table
    decreases |text|
  {
    if |text| == 0 then (if s.started || |s.field| > 0 || |s.row| > 0 then s.out + [s.row + [s.field]] else s.out)
    else
      var (k, next) := LineTurn(text, s, o);
      LineRun(text[k..], next, o)
  }

  function Lines(text: string, o: Options): Table {
    LineRun(Start(text, o), START, o)
  }

  lemma {:induction false} SameLines(text: string, s: State, o: Options)
    requires o.delimiter != CR && o.delimiter != LF && Count(text, o.delimiter) == 0
    ensures BareRun(text, s, o) == LineRun(text, s, o)
    decreases |text|
  {
    hide Count;
    if |text| > 0 {
      CountTail(text, o.delimiter);
      var (k, next) := BareTurn(text, s, o);
      SameLines(text[k..], next, o);
    }
  }

  lemma LineTurnCount(text: string, s: State, o: Options, c: char)
    requires |text| > 0 && c != CR && c != LF
    ensures var (k, next) := LineTurn(text, s, o);
            StateCount(next, c) + Count(text[k..], c) == StateCount(s, c) + Count(text, c)
  {
    hide Count, RowCount, TableCount;
    CountTail(text, c);
    EndLineCount(s, o, c);
    CountMore(s.field, text[0], c);
  }

  lemma {:induction false} LineRunCount(text: string, s: State, o: Options, c: char)
    requires c != CR && c != LF
    ensures TableCount(LineRun(text, s, o), c) == StateCount(s, c) + Count(text, c)
    decreases |text|
  {
    hide LineTurn, StateCount, Count;
    NothingCounted(c);
    EndCount(s, c);
    if |text| > 0 {
      LineTurnCount(text, s, o, c);
      var (k, next) := LineTurn(text, s, o);
      LineRunCount(text[k..], next, o, c);
    }
  }

  lemma BareTurnSeparators(text: string, s: State, o: Options, c: char)
    requires |text| > 0 && Separator(c, o)
    ensures StateCount(BareTurn(text, s, o).1, c) == StateCount(s, c)
  {
    hide Count, RowCount, TableCount;
    EndLineCount(s, o, c);
    RowMore(s.row, s.field, c);
    CountMore(s.field, text[0], c);
    NothingCounted(c);
  }

  /** Without quotes no separator gets into a field. */
  lemma {:induction false} BareRunSeparators(text: string, s: State, o: Options, c: char)
    requires Separator(c, o)
    ensures TableCount(BareRun(text, s, o), c) == StateCount(s, c)
    decreases |text|
  {
    hide BareTurn, StateCount;
    EndCount(s, c);
    if |text| > 0 {
      BareTurnSeparators(text, s, o, c);
      var (k, next) := BareTurn(text, s, o);
      BareRunSeparators(text[k..], next, o, c);
    }
  }

  lemma NothingRead(c: char)
    ensures StateCount(START, c) == 0
  {
  }

  /**
   Every character is literal with a NUL quote, delimiters included, only for texts without
   delimiters and without a field that starts with NUL.
   */
  lemma AllLiteralIff(text: string, o: Options)
    requires Usable(o) && o.quote == NUL && o.delimiter != CR && o.delimiter != LF
    ensures var t := Start(text, o);
            Parsed(text, o) == Some(Lines(text, o)) <==>
            (forall i :: 0 <= i < |t| ==> t[i] != o.delimiter) && NoNulField(t, true, o)
  {
    hide Run, BareRun, LineRun, NoNulField, StateCount, TableCount, Count;
    var t := Start(text, o);
    CountIsZero(t, o.delimiter);
    NothingRead(o.delimiter);
    NothingRead(NUL);
    if NoNulField(t, true, o) {
      SameRun(t, START, o);
      BareRunSeparators(t, START, o, o.delimiter);
      LineRunCount(t, START, o, o.delimiter);
      if Count(t, o.delimiter) == 0 {
        SameLines(t, START, o);
      }
    } else {
      OpeningLosesNul(t, START, o);
      LineRunCount(t, START, o, NUL);
    }
  }
}
