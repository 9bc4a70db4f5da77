/** Printing and parsing with quoting switched off: exactly which tables come back. */
module CsvUnquoted {
  import opened Csv
  import opened CsvCounts
  import opened CsvNoQuotes
  import opened CsvRoundTrip
  import opened Wrappers

  lemma {:induction false} RowSplit(a: Row, b: Row, c: char)
    ensures RowCount(a + b, c) == RowCount(a, c) + RowCount(b, c)
    decreases |b|
  {
    if |b| == 0 {
      assert a + b == a;
    } else {
      var front := b[..|b| - 1];
      RowSplit(a, front, c);
      assert (a + b)[..|a + b| - 1] == a + front;
    }
  }

  lemma {:induction false} RowTextCount(row: Row, eol: string, o: Options, c: char)
    requires o.quote == NUL && c != o.delimiter && Count(eol, c) == 0
    ensures Count(RowText(row, eol, o), c) == RowCount(row, c)
    decreases |row|
  {
    hide Count, RowCount;
    NothingCounted(c);
    if |row| > 0 {
      RowMore([], row[0], c);
      assert [] + [row[0]] == [row[0]];
      if |row| == 1 {
        CountSplit(row[0], eol, c);
        assert row == [row[0]];
      } else {
        RowTextCount(row[1..], eol, o, c);
        RowSplit([row[0]], row[1..], c);
        assert [row[0]] + row[1..] == row;
        CountMore(row[0], o.delimiter, c);
        CountSplit(row[0] + [o.delimiter], RowText(row[1..], eol, o), c);
      }
    }
  }

  lemma {:induction false} TableTextCount(rows: Table, eol: string, o: Options, c: char)
    requires o.quote == NUL && c != o.delimiter && Count(eol, c) == 0
    ensures Count(TableText(rows, eol, o), c) == TableCount(rows, c)
    decreases |rows|
  {
    hide Count, RowText, TableCount, RowCount;
    NothingCounted(c);
    if |rows| > 0 {
      RowTextCount(rows[0], eol, o, c);
      TableTextCount(rows[1..], eol, o, c);
      CountSplit(RowText(rows[0], eol, o), TableText(rows[1..], eol, o), c);
      TableFirst(rows, c);
      TableMore([], rows[0], c);
      assert [] + [rows[0]] == [rows[0]];
    }
  }

  lemma EolHasNoNul(crlf: bool)
    ensures Count(Eol(crlf), NUL) == 0
  {
    CountIsZero(Eol(crlf), NUL);
  }

  // ---- a field that starts with NUL shows in the printed text

  predicate StartsWithNul(f: string) {
    |f| > 0 && f[0] == NUL
  }

  lemma AfterSeparator(text: string, a: string, b: string, first: bool, o: Options)
    requires text == a + b && |a| > 0 && Separator(a[|a| - 1], o) && NoNulField(text, first, o)
    ensures NoNulField(b, true, o)
  {
    NoNulRest(text, first, |a|, o);
    assert text[|a|..] == b;
  }

  lemma FirstOf(f: string, tail: string, o: Options)
    requires NoNulField(f + tail, true, o)
    ensures !StartsWithNul(f)
  {
    if |f| > 0 {
      assert (f + tail)[0] == f[0];
    }
  }

  lemma {:induction false} RowStarts(row: Row, eol: string, rest: string, o: Options)
    requires o.quote == NUL && IsEol(eol) && NoNulField(RowText(row, eol, o) + rest, true, o)
    ensures NoNulField(rest, true, o) && forall i :: 0 <= i < |row| ==> !StartsWithNul(row[i])
    decreases |row|
  {
    hide NoNulField, StartsWithNul;
    var text := RowText(row, eol, o) + rest;
    if |row| == 0 {
      AfterSeparator(text, eol, rest, true, o);
    } else if |row| == 1 {
      assert text == row[0] + (eol + rest);
      FirstOf(row[0], eol + rest, o);
      AfterSeparator(text, row[0] + eol, rest, true, o);
    } else {
      var tail := RowText(row[1..], eol, o) + rest;
      assert text == row[0] + ([o.delimiter] + tail);
      assert text == (row[0] + [o.delimiter]) + tail;
      FirstOf(row[0], [o.delimiter] + tail, o);
      AfterSeparator(text, row[0] + [o.delimiter], tail, true, o);
      RowStarts(row[1..], eol, rest, o);
    }
  }

  ghost predicate NoFieldStarts(rows: Table) {
    forall i, j :: 0 <= i < |rows| && 0 <= j < |rows[i]| ==> !StartsWithNul(rows[i][j])
  }

  lemma {:induction false} TableStarts(rows: Table, eol: string, o: Options)
    requires o.quote == NUL && IsEol(eol) && NoNulField(TableText(rows, eol, o), true, o)
    ensures NoFieldStarts(rows)
    decreases |rows|
  {
    hide NoNulField, StartsWithNul;
    if |rows| > 0 {
      RowStarts(rows[0], eol, TableText(rows[1..], eol, o), o);
      TableStarts(rows[1..], eol, o);
      forall i, j | 0 <= i < |rows| && 0 <= j < |rows[i]|
        ensures !StartsWithNul(rows[i][j])
      {
        if i > 0 {
          assert rows[1..][i - 1] == rows[i];
        }
      }
    }
  }

  // ---- no field holds a separator

  lemma {:induction false} RowHolds(row: Row, j: nat, c: char)
    requires j < |row|
    ensures Count(row[j], c) <= RowCount(row, c)
  {
    if j < |row| - 1 {
      RowHolds(row[..|row| - 1], j, c);
    }
  }

  lemma {:induction false} TableHolds(t: Table, i: nat, j: nat, c: char)
    requires i < |t| && j < |t[i]|
    ensures Count(t[i][j], c) <= TableCount(t, c)
  {
    if i < |t| - 1 {
      TableHolds(t[..|t| - 1], i, j, c);
    } else {
      RowHolds(t[i], j, c);
    }
  }

  ghost predicate AllBare(rows: Table, o: Options) {
    forall i, j :: 0 <= i < |rows| && 0 <= j < |rows[i]| ==> Bare(rows[i][j], o)
  }

  lemma FieldIsBare(rows: Table, i: nat, j: nat, o: Options)
    requires i < |rows| && j < |rows[i]| && o.quote == NUL && !StartsWithNul(rows[i][j])
    requires TableCount(rows, o.delimiter) == 0 && TableCount(rows, CR) == 0 && TableCount(rows, LF) == 0
    ensures Bare(rows[i][j], o)
  {
    hide TableCount, Count;
    var f := rows[i][j];
    TableHolds(rows, i, j, o.delimiter);
    TableHolds(rows, i, j, CR);
    TableHolds(rows, i, j, LF);
    CountIsZero(f, o.delimiter);
    CountIsZero(f, CR);
    CountIsZero(f, LF);
  }

  lemma ComesBackBare(rows: Table, crlf: bool, o: Options)
    requires Sensible(o) && o.quote == NUL && Run(Printed(rows, crlf, o), START, o) == Some(rows)
    ensures AllBare(rows, o)
  {
    hide Run, BareRun, Count, TableCount, StateCount, NoNulField, TableText, Bare, StartsWithNul;
    var text := Printed(rows, crlf, o);
    EolHasNoNul(crlf);
    TableTextCount(rows, Eol(crlf), o, NUL);
    NothingRead(NUL);
    NothingRead(o.delimiter);
    NothingRead(CR);
    NothingRead(LF);
    if !NoNulField(text, true, o) {
      OpeningLosesNul(text, START, o);
    } else {
      SameRun(text, START, o);
      BareRunSeparators(text, START, o, o.delimiter);
      BareRunSeparators(text, START, o, CR);
      BareRunSeparators(text, START, o, LF);
      TableStarts(rows, Eol(crlf), o);
      forall i, j | 0 <= i < |rows| && 0 <= j < |rows[i]|
        ensures Bare(rows[i][j], o)
      {
        FieldIsBare(rows, i, j, o);
      }
    }
  }

  lemma UnskippedIff(rows: Table, crlf: bool, o: Options)
    requires Sensible(o) && o.quote == NUL
    ensures Run(Printed(rows, crlf, o), START, o) == Some(rows) <==> NoRowLost(rows, o) && AllBare(rows, o)
  {
    hide Run, NoRowLost, Bare, TableText;
    if Run(Printed(rows, crlf, o), START, o) == Some(rows) {
      ComesBackBare(rows, crlf, o);
    }
    if AllBare(rows, o) {
      forall row, f | row in rows && f in row
        ensures Readable(f, o)
      {
        var i :| 0 <= i < |rows| && rows[i] == row;
        var j :| 0 <= j < |row| && row[j] == f;
        assert Bare(rows[i][j], o);
      }
      ReadTable(rows, Eol(crlf), [], o);
      assert [] + Normalised(rows, o) == Normalised(rows, o);
      NormalisedIff(rows, o);
    }
  }

  /** One of the BOM's bytes stands for itself, so the bytes skipped are missing from what is read. */
  lemma SkippedBomIsMissed(rows: Table, crlf: bool, o: Options)
    requires Sensible(o) && o.quote == NUL && HasBom(Printed(rows, crlf, o))
    ensures Run(Printed(rows, crlf, o)[3..], START, o) != Some(rows)
  {
    hide Run, TableText, Count, TableCount, StateCount;
    var text, c := Printed(rows, crlf, o), OrdinaryBomByte(o);
    CountIsZero(Eol(crlf), c);
    TableTextCount(rows, Eol(crlf), o, c);
    NothingRead(c);
    RunCount(text[3..], START, o, c);
    assert text[..3] == BOM && text == BOM + text[3..];
    CountSplit(BOM, text[3..], c);
    CountIsZero(BOM, c);
  }

  /**
   With quoting switched off, a table comes back exactly when no row is lost, no field holds a
   separator or starts with NUL, and no first row starts with a BOM that is skipped.
   */
  lemma UnquotedIff(rows: Table, crlf: bool, o: Options)
    requires Sensible(o) && o.quote == NUL
    ensures Parsed(Printed(rows, crlf, o), o) == Some(rows) <==>
            NoRowLost(rows, o) && AllBare(rows, o) && !(o.skipBom && LeadingBom(rows, o))
  {
    hide Run, Printed, NoRowLost, AllBare, LeadingBom;
    HasBomIff(rows, crlf, o);
    UnskippedIff(rows, crlf, o);
    if o.skipBom && LeadingBom(rows, o) {
      SkippedBomIsMissed(rows, crlf, o);
    }
  }
}
