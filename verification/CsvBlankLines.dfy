/** Which lines the skipping of blank lines drops, and which it is documented to drop. */
module CsvBlankLines {
  import opened Csv
  import opened Wrappers

  function Filled(t: Table): Table {
    if |t| == 0 then []
    else if |t[|t| - 1]| > 0 then Filled(t[..|t| - 1]) + [t[|t| - 1]]
    else Filled(t[..|t| - 1])
  }

  lemma FilledMore(t: Table, row: Row)
    ensures Filled(t + [row]) == if |row| > 0 then Filled(t) + [row] else Filled(t)
  {
    assert (t + [row])[..|t|] == t;
  }

  function Skipping(o: Options): Options {
    o.(skipBlankLines := true)
  }

  function Keeping(o: Options): Options {
    o.(skipBlankLines := false)
  }

  function FilledState(s: State): State {
    s.(out := Filled(s.out))
  }

  lemma FilledEndLine(s: State, o: Options)
    ensures EndLine(FilledState(s), Skipping(o)) == FilledState(EndLine(s, Keeping(o)))
  {
    hide Filled;
    FilledMore(s.out, s.row);
    FilledMore(s.out, s.row + [s.field]);
  }

  lemma FilledTurn(text: string, s: State, o: Options)
    requires |text| > 0
    ensures var (k, next) := Turn(text, s, Keeping(o));
            Turn(text, FilledState(s), Skipping(o)) == (k, FilledState(next))
  {
    hide Filled, EndLine;
    FilledEndLine(s, o);
  }

  lemma {:induction false} FilledRun(text: string, s: State, o: Options)
    ensures Run(text, FilledState(s), Skipping(o)) ==
            match Run(text, s, Keeping(o)) case None => None case Some(t) => Some(Filled(t))
    decreases |text|, s.quoteClosed
  {
    hide Turn, Filled;
    FilledMore(s.out, s.row + [s.field]);
    if |text| > 0 {
      FilledTurn(text, s, o);
      var (k, next) := Turn(text, s, Keeping(o));
      FilledRun(text[k..], next, o);
    }
  }

  /** Skipping blank lines drops exactly the rows without any field. */
  lemma SkippingIsFilter(text: string, o: Options)
    ensures Parsed(text, Skipping(o)) ==
            match Parsed(text, Keeping(o)) case None => None case Some(t) => Some(Filled(t))
  {
    hide Run;
    assert FilledState(START) == START;
    FilledRun(text, START, o);
    if |text| >= 3 {
      FilledRun(text[3..], START, o);
    }
  }

  // ---- the documented rule

  /**
   The documented rule, a line of only separators and blanks, read on the row the parser makes
   of a line: all its fields are empty or blank. Two quote characters make an empty field too.
   */
  predicate OnlyBlanks(row: Row) {
    forall i :: 0 <= i < |row| ==> forall j :: 0 <= j < |row[i]| ==> row[i][j] == ' ' || row[i][j] == '\t'
  }

  function WithoutBlanks(t: Table): Table {
    if |t| == 0 then []
    else if OnlyBlanks(t[|t| - 1]) then WithoutBlanks(t[..|t| - 1])
    else WithoutBlanks(t[..|t| - 1]) + [t[|t| - 1]]
  }

  lemma {:induction false} FewerWithoutBlanks(t: Table)
    ensures |WithoutBlanks(t)| <= |Filled(t)|
    ensures WithoutBlanks(t) == Filled(t) <==> forall i :: 0 <= i < |t| && |t[i]| > 0 ==> !OnlyBlanks(t[i])
  {
    hide OnlyBlanks;
    if |t| > 0 {
      var front, row := t[..|t| - 1], t[|t| - 1];
      FewerWithoutBlanks(front);
      EmptyIsBlank(row);
      assert forall i :: 0 <= i < |front| ==> front[i] == t[i];
      if WithoutBlanks(t) == Filled(t) {
        assert |WithoutBlanks(t)| == |WithoutBlanks(front)| + if OnlyBlanks(row) then 0 else 1;
        assert |Filled(t)| == |Filled(front)| + if |row| > 0 then 1 else 0;
        assert WithoutBlanks(t)[..|WithoutBlanks(front)|] == WithoutBlanks(front);
        assert Filled(t)[..|Filled(front)|] == Filled(front);
      }
    }
  }

  lemma EmptyIsBlank(row: Row)
    ensures |row| == 0 ==> OnlyBlanks(row)
  {
  }

  /**
   The rows dropped are the documented ones exactly when no row that has a field consists of
   blank fields only.
   */
  lemma DocumentedIff(text: string, o: Options)
    requires Parsed(text, Keeping(o)).Some?
    ensures var t := Parsed(text, Keeping(o)).value;
            Parsed(text, Skipping(o)) == Some(WithoutBlanks(t)) <==>
            forall i :: 0 <= i < |t| && |t[i]| > 0 ==> !OnlyBlanks(t[i])
  {
    hide Parsed, WithoutBlanks, Filled, OnlyBlanks;
    SkippingIsFilter(text, o);
    FewerWithoutBlanks(Parsed(text, Keeping(o)).value);
  }

  /** A line that is one delimiter is kept, as two empty fields. */
  lemma DelimiterLineIsKept(o: Options)
    requires Usable(o) && o.delimiter != CR && o.delimiter != LF && o.quote != LF
    ensures Parsed([o.delimiter, LF], Skipping(o)) == Some([["", ""]]) && OnlyBlanks(["", ""])
  {
    hide Run;
    var text, p := [o.delimiter, LF], Skipping(o);
    RunTurn(text, START, p);
    assert text[1..] == [LF];
    var s := State([], [""], "", false, false, false);
    assert Turn(text, START, p) == (1, s) by { assert [] + [""] == [""]; }
    RunTurn([LF], s, p);
    assert [LF][1..] == [];
    var t := State([["", ""]], [], "", false, false, false);
    assert Turn([LF], s, p) == (1, t) by {
      assert s.row + [s.field] == ["", ""];
      assert s.out + [["", ""]] == [["", ""]];
    }
    RunEnd(t, p);
    assert !HasBom(text);
  }
}
