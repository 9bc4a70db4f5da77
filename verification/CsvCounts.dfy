/** Counting a character in texts and tables: parsing neither makes nor loses one that is no separator and no quote. */
module CsvCounts {
  import opened Csv
  import opened Wrappers

  function Count(text: string, c: char): nat {
    if |text| == 0 then 0 else Count(text[1..], c) + if text[0] == c then 1 else 0
  }

  function RowCount(row: Row, c: char): nat {
    if |row| == 0 then 0 else RowCount(row[..|row| - 1], c) + Count(row[|row| - 1], c)
  }

  function TableCount(t: Table, c: char): nat {
    if |t| == 0 then 0 else TableCount(t[..|t| - 1], c) + RowCount(t[|t| - 1], c)
  }

  function StateCount(s: State, c: char): nat {
    TableCount(s.out, c) + RowCount(s.row, c) + Count(s.field, c)
  }

  lemma {:induction false} CountMore(field: string, d: char, c: char)
    ensures Count(field + [d], c) == Count(field, c) + if d == c then 1 else 0
  {
    if |field| == 0 {
      assert field + [d] == [d] && [d][1..] == [];
    } else {
      CountMore(field[1..], d, c);
      assert (field + [d])[1..] == field[1..] + [d];
    }
  }

  lemma {:induction false} CountSplit(a: string, b: string, c: char)
    ensures Count(a + b, c) == Count(a, c) + Count(b, c)
  {
    if |a| == 0 {
      assert a + b == b;
    } else {
      CountSplit(a[1..], b, c);
      assert (a + b)[1..] == a[1..] + b;
    }
  }

  lemma {:induction false} CountIsZero(text: string, c: char)
    ensures Count(text, c) == 0 <==> forall i :: 0 <= i < |text| ==> text[i] != c
  {
    if |text| > 0 {
      CountIsZero(text[1..], c);
      assert forall i :: 0 < i < |text| ==> text[i] == text[1..][i - 1];
      if forall i :: 0 <= i < |text| ==> text[i] != c {
        assert forall i :: 0 <= i < |text[1..]| ==> text[1..][i] == text[i + 1];
      }
    }
  }

  lemma RowMore(row: Row, field: string, c: char)
    ensures RowCount(row + [field], c) == RowCount(row, c) + Count(field, c)
  {
    assert (row + [field])[..|row|] == row;
  }

  lemma TableMore(t: Table, row: Row, c: char)
    ensures TableCount(t + [row], c) == TableCount(t, c) + RowCount(row, c)
  {
    assert (t + [row])[..|t|] == t;
  }

  lemma EndLineCount(s: State, o: Options, c: char)
    ensures StateCount(EndLine(s, o), c) == StateCount(s, c)
  {
    RowMore(s.row, s.field, c);
    TableMore(s.out, s.row, c);
    TableMore(s.out, s.row + [s.field], c);
  }

  /** The end of the text turns the state into its table. */
  lemma EndCount(s: State, c: char)
    ensures TableCount(s.out + [s.row + [s.field]], c) == StateCount(s, c)
    ensures |s.field| == 0 && |s.row| == 0 ==> StateCount(s, c) == TableCount(s.out, c)
  {
    RowMore(s.row, s.field, c);
    TableMore(s.out, s.row + [s.field], c);
  }

  lemma CountTail(text: string, c: char)
    requires |text| > 0
    ensures Count(text, c) == Count(text[1..], c) + (if text[0] == c then 1 else 0)
    ensures |text| > 1 ==> text[1..][1..] == text[2..]
    ensures |text| > 1 ==> Count(text[1..], c) == Count(text[2..], c) + if text[1] == c then 1 else 0
  {
  }

  lemma NothingCounted(c: char)
    ensures Count("", c) == 0 && RowCount([], c) == 0 && TableCount([], c) == 0
  {
  }

  /** A character that only ever stands for itself. */
  predicate Ordinary(c: char, o: Options) {
    c != o.delimiter && c != o.quote && c != CR && c != LF
  }

  lemma TurnCount(text: string, s: State, o: Options, c: char)
    requires |text| > 0 && Ordinary(c, o)
    ensures var (k, next) := Turn(text, s, o);
            StateCount(next, c) + Count(text[k..], c) == StateCount(s, c) + Count(text, c)
  {
    hide Count, RowCount, TableCount;
    CountTail(text, c);
    EndLineCount(s, o, c);
    RowMore(s.row, s.field, c);
    CountMore(s.field, text[0], c);
    CountMore(s.field, o.quote, c);
    NothingCounted(c);
    assert text[0..] == text;
  }

  /** Whatever the text, parsing keeps every ordinary character. */
  lemma {:induction false} RunCount(text: string, s: State, o: Options, c: char)
    requires Ordinary(c, o)
    ensures Run(text, s, o).Some? ==> TableCount(Run(text, s, o).value, c) == StateCount(s, c) + Count(text, c)
    decreases |text|, s.quoteClosed
  {
    hide Turn, StateCount, Count;
    NothingCounted(c);
    EndCount(s, c);
    if |text| > 0 {
      TurnCount(text, s, o, c);
      var (k, next) := Turn(text, s, o);
      RunCount(text[k..], next, o, c);
    }
  }
}
