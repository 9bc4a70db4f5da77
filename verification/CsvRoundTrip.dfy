/** What the parser makes of printed tables: exactly the rows, but for blank lines and a BOM. */
module CsvRoundTrip {
  import opened Csv
  import opened CsvCounts
  import opened Wrappers

  /** A delimiter and quote the printer's text can be read back with; quote may be disabled. */
  predicate Sensible(o: Options) {
    Usable(o) && o.delimiter != CR && o.delimiter != LF && o.quote != CR && o.quote != LF
  }

  /** Printed bare, the field would not be cut or taken for a quoted one. */
  predicate Bare(field: string, o: Options) {
    && (forall i :: 0 <= i < |field| ==> field[i] != o.delimiter && field[i] != CR && field[i] != LF)
    && (|field| > 0 ==> field[0] != o.quote)
  }

  predicate Readable(field: string, o: Options) {
    NeedsQuotes(field, o) || Bare(field, o)
  }

  /** With quoting on, every field can be printed. */
  lemma AllReadable(field: string, o: Options)
    requires o.quote != NUL
    ensures Readable(field, o)
  {
    if !NeedsQuotes(field, o) {
      assert forall i :: 0 <= i < |field| ==> !Special(field[i], o);
    }
  }

  /** Between fields: nothing read of the next one yet. */
  function Between(out: Table, row: Row): State {
    State(out, row, "", false, false, false)
  }

  predicate EndsField(text: string, o: Options) {
    |text| > 0 && (text[0] == o.delimiter || text[0] == CR || text[0] == LF)
  }

  lemma {:induction false} ReadBare(f: string, rest: string, s: State, o: Options)
    requires forall i :: 0 <= i < |f| ==> f[i] != o.delimiter && f[i] != CR && f[i] != LF
    requires !s.inQuotes && !s.quoteClosed
    requires |f| > 0 && |s.field| == 0 && !s.started ==> f[0] != o.quote
    ensures Run(f + rest, s, o) == Run(rest, s.(field := s.field + f, started := s.started || |f| > 0), o)
    decreases |f|
  {
    if |f| == 0 {
      assert f + rest == rest && s.field + f == s.field;
    } else {
      var next := s.(field := s.field + [f[0]], started := true);
      RunTurn(f + rest, s, o);
      assert (f + rest)[1..] == f[1..] + rest;
      ReadBare(f[1..], rest, next, o);
      assert next.field + f[1..] == s.field + f;
    }
  }

  /** One escaped character inside quotes. */
  lemma ReadEscapedChar(c: char, tail: string, s: State, o: Options)
    requires s.inQuotes
    ensures var text := (if c == o.quote then [o.quote, o.quote] else [c]) + tail;
            Run(text, s, o) == Run(tail, s.(field := s.field + [c]), o)
  {
    var head := if c == o.quote then [o.quote, o.quote] else [c];
    RunTurn(head + tail, s, o);
    assert (head + tail)[|head|..] == tail;
  }

  lemma ReadClosingQuote(rest: string, s: State, o: Options)
    requires s.inQuotes && |rest| > 0 && rest[0] != o.quote
    ensures Run([o.quote] + rest, s, o) == Run(rest, s.(inQuotes := false, quoteClosed := true), o)
  {
    RunTurn([o.quote] + rest, s, o);
    assert ([o.quote] + rest)[1..] == rest;
  }

  lemma {:induction false} ReadEscaped(f: string, rest: string, s: State, o: Options)
    requires s.inQuotes && !s.quoteClosed && |rest| > 0 && rest[0] != o.quote
    ensures Run(Escaped(f, o) + [o.quote] + rest, s, o) ==
            Run(rest, s.(field := s.field + f, inQuotes := false, quoteClosed := true), o)
    decreases |f|
  {
    hide Run;
    var text := Escaped(f, o) + [o.quote] + rest;
    if |f| == 0 {
      assert text == [o.quote] + rest && s.field + f == s.field;
      ReadClosingQuote(rest, s, o);
    } else {
      var next := s.(field := s.field + [f[0]]);
      var tail := Escaped(f[1..], o) + [o.quote] + rest;
      assert text == (if f[0] == o.quote then [o.quote, o.quote] else [f[0]]) + tail;
      ReadEscapedChar(f[0], tail, s, o);
      ReadEscaped(f[1..], rest, next, o);
      assert next.field + f[1..] == s.field + f;
    }
  }

  /** One printed field, read back in full. */
  lemma ReadField(f: string, rest: string, out: Table, row: Row, o: Options)
    requires Sensible(o) && Readable(f, o) && EndsField(rest, o)
    ensures Run(FieldText(f, o) + rest, Between(out, row), o) ==
            Run(rest, Between(out, row).(field := f, started := |f| > 0), o)
  {
    var s := Between(out, row);
    if NeedsQuotes(f, o) {
      var inside := s.(inQuotes := true, started := true);
      var closed := inside.(field := f, inQuotes := false, quoteClosed := true);
      var text := FieldText(f, o) + rest;
      RunTurn(text, s, o);
      assert text[1..] == Escaped(f, o) + [o.quote] + rest;
      ReadEscaped(f, rest, inside, o);
      assert "" + f == f;
      RunTurn(rest, closed, o);
      assert rest[0..] == rest;
    } else {
      ReadBare(f, rest, s, o);
      assert "" + f == f;
    }
  }

  predicate IsEol(eol: string) {
    eol == [LF] || eol == [CR, LF]
  }

  /** A row that prints as a bare line end. */
  predicate Blank(row: Row) {
    |row| == 0 || (|row| == 1 && |row[0]| == 0)
  }

  function RowResult(out: Table, row: Row, o: Options): Table {
    if !Blank(row) then out + [row]
    else if o.skipBlankLines then out
    else out + [[]]
  }

  lemma ReadEol(eol: string, rest: string, s: State, o: Options)
    requires Sensible(o) && IsEol(eol) && !s.inQuotes && !s.quoteClosed
    requires s.started <==> |s.field| > 0
    ensures Run(eol + rest, s, o) == Run(rest, EndLine(s, o), o)
  {
    RunTurn(eol + rest, s, o);
    assert (eol + rest)[|eol|..] == rest;
  }

  lemma ReadDelimiter(f: string, tail: string, out: Table, before: Row, o: Options)
    requires Sensible(o)
    ensures Run([o.delimiter] + tail, Between(out, before).(field := f, started := |f| > 0), o) ==
            Run(tail, Between(out, before + [f]), o)
  {
    RunTurn([o.delimiter] + tail, Between(out, before).(field := f, started := |f| > 0), o);
    assert ([o.delimiter] + tail)[1..] == tail;
  }

  /** One printed row, after the fields already read. */
  lemma {:induction false} ReadRow(row: Row, before: Row, eol: string, rest: string, out: Table, o: Options)
    requires Sensible(o) && IsEol(eol) && |row| + |before| > 0 && |row| > 0
    requires forall f :: f in row ==> Readable(f, o)
    ensures Run(RowText(row, eol, o) + rest, Between(out, before), o) ==
            Run(rest, Between(RowResult(out, before + row, o), []), o)
    decreases |row|
  {
    hide Run, Readable, FieldText;
    var f := row[0];
    var read := Between(out, before).(field := f, started := |f| > 0);
    if |row| == 1 {
      assert RowText(row, eol, o) + rest == FieldText(f, o) + (eol + rest);
      ReadField(f, eol + rest, out, before, o);
      ReadEol(eol, rest, read, o);
      assert before + row == before + [f];
    } else {
      var tail := RowText(row[1..], eol, o) + rest;
      assert RowText(row, eol, o) + rest == FieldText(f, o) + ([o.delimiter] + tail);
      ReadField(f, [o.delimiter] + tail, out, before, o);
      ReadDelimiter(f, tail, out, before, o);
      ReadRow(row[1..], before + [f], eol, rest, out, o);
      assert before + [f] + row[1..] == before + row;
    }
  }

  /** The rows as they come back: blank ones vanish, or lose their empty field. */
  function Normalised(rows: Table, o: Options): Table {
    if |rows| == 0 then [] else RowResult([], rows[0], o) + Normalised(rows[1..], o)
  }

  predicate AllFieldsReadable(rows: Table, o: Options) {
    forall row, f :: row in rows && f in row ==> Readable(f, o)
  }

  lemma EmptyRowText(eol: string, o: Options)
    ensures RowText([], eol, o) == eol
  {
  }

  lemma {:induction false} ReadTable(rows: Table, eol: string, out: Table, o: Options)
    requires Sensible(o) && IsEol(eol) && AllFieldsReadable(rows, o)
    ensures Run(TableText(rows, eol, o), Between(out, []), o) == Some(out + Normalised(rows, o))
    decreases |rows|
  {
    hide Run, Readable, RowText;
    if |rows| == 0 {
      RunEnd(Between(out, []), o);
      assert out + [] == out;
    } else {
      var row, rest := rows[0], TableText(rows[1..], eol, o);
      var next := RowResult(out, row, o);
      if |row| == 0 {
        EmptyRowText(eol, o);
        ReadEol(eol, rest, Between(out, []), o);
      } else {
        ReadRow(row, [], eol, rest, out, o);
        assert [] + row == row;
      }
      ReadTable(rows[1..], eol, next, o);
      assert next + Normalised(rows[1..], o) == out + Normalised(rows, o);
    }
  }

  /** What parsing a printed table gives, unless the text happens to start with a BOM. */
  lemma ParsePrinted(rows: Table, crlf: bool, o: Options)
    requires Sensible(o) && AllFieldsReadable(rows, o)
    requires o.skipBom ==> !HasBom(Printed(rows, crlf, o))
    ensures Parsed(Printed(rows, crlf, o), o) == Some(Normalised(rows, o))
  {
    ReadTable(rows, Eol(crlf), [], o);
    assert [] + Normalised(rows, o) == Normalised(rows, o);
  }

  // ---- when exactly the table comes back

  /** No row is a lone empty field, and no row is empty while blank lines are skipped. */
  predicate NoRowLost(rows: Table, o: Options) {
    forall row :: row in rows ==> row != [""] && (o.skipBlankLines ==> |row| > 0)
  }

  lemma {:induction false} NormalisedIsShorter(rows: Table, o: Options)
    ensures |Normalised(rows, o)| <= |rows|
    decreases |rows|
  {
    if |rows| > 0 {
      NormalisedIsShorter(rows[1..], o);
    }
  }

  lemma {:induction false} NormalisedIff(rows: Table, o: Options)
    ensures Normalised(rows, o) == rows <==> NoRowLost(rows, o)
    decreases |rows|
  {
    if |rows| > 0 {
      var row, rest := rows[0], rows[1..];
      var n := Normalised(rest, o);
      NormalisedIff(rest, o);
      NormalisedIsShorter(rest, o);
      assert rows == [row] + rest;
      LonelyRow(row);
      if RowResult([], row, o) == [row] {
        assert ([row] + n)[1..] == n;
        assert NoRowLost(rows, o) <==> NoRowLost(rest, o) by {
          assert forall r :: r in rows <==> r == row || r in rest;
        }
      } else {
        assert row in rows && !NoRowLost(rows, o);
        if |RowResult([], row, o)| == 1 {
          assert Normalised(rows, o)[0] == [];
        }
      }
    }
  }

  lemma LonelyRow(row: Row)
    ensures Blank(row) && |row| > 0 ==> row == [""]
  {
  }

  /** Read without skipping a BOM, a table survives printing and parsing exactly when no row is lost. */
  lemma RoundTripIff(rows: Table, crlf: bool, o: Options)
    requires Sensible(o) && o.quote != NUL
    ensures Run(Printed(rows, crlf, o), START, o) == Some(Normalised(rows, o))
    ensures Run(Printed(rows, crlf, o), START, o) == Some(rows) <==> NoRowLost(rows, o)
  {
    hide Run, NoRowLost, Readable;
    forall row, f | row in rows && f in row
      ensures Readable(f, o)
    {
      AllReadable(f, o);
    }
    ReadTable(rows, Eol(crlf), [], o);
    assert [] + Normalised(rows, o) == Normalised(rows, o);
    NormalisedIff(rows, o);
  }

  // ---- a leading BOM

  /** The first row, printed without its line end, begins with the three BOM bytes. */
  predicate LeadingBom(rows: Table, o: Options) {
    |rows| > 0 && HasBom(RowText(rows[0], [], o))
  }

  lemma {:induction false} RowTextEol(row: Row, eol: string, o: Options)
    ensures RowText(row, eol, o) == RowText(row, [], o) + eol
    decreases |row|
  {
    if |row| > 1 {
      RowTextEol(row[1..], eol, o);
      assert RowText(row, [], o) + eol == FieldText(row[0], o) + [o.delimiter] + (RowText(row[1..], [], o) + eol);
    } else if |row| == 1 {
      assert FieldText(row[0], o) + [] == FieldText(row[0], o);
    }
  }

  /** Whatever the delimiter and the quote, printed text starts with a BOM exactly when its first row does. */
  lemma HasBomIff(rows: Table, crlf: bool, o: Options)
    requires Usable(o)
    ensures HasBom(Printed(rows, crlf, o)) <==> LeadingBom(rows, o)
  {
    hide RowText;
    if |rows| > 0 {
      var eol := Eol(crlf);
      var text, tail := RowText(rows[0], [], o), eol + TableText(rows[1..], eol, o);
      RowTextEol(rows[0], eol, o);
      assert Printed(rows, crlf, o) == text + tail;
      if |text| < 3 {
        assert (text + tail)[|text|] == tail[0] && BOM[|text|] != CR && BOM[|text|] != LF;
      } else {
        assert (text + tail)[..3] == text[..3];
      }
    }
  }

  /** The first printed field is bare and begins with the three BOM bytes. */
  predicate FirstFieldBom(rows: Table, o: Options) {
    |rows| > 0 && |rows[0]| > 0 && !NeedsQuotes(rows[0][0], o) && BOM <= rows[0][0]
  }

  /** The table without those three bytes. */
  function WithoutBom(rows: Table): Table
    requires |rows| > 0 && |rows[0]| > 0 && BOM <= rows[0][0]
  {
    [[rows[0][0][3..]] + rows[0][1..]] + rows[1..]
  }

  predicate AwayFromBom(o: Options) {
    o.delimiter !in BOM && o.quote !in BOM
  }

  lemma FirstFieldText(rows: Table, crlf: bool, o: Options)
    requires Usable(o) && |rows| > 0 && |rows[0]| > 0 && !NeedsQuotes(rows[0][0], o)
    ensures exists tail ::
              && Printed(rows, crlf, o) == rows[0][0] + tail
              && EndsField(tail, o)
              && forall f :: !NeedsQuotes(f, o) ==> Printed([[f] + rows[0][1..]] + rows[1..], crlf, o) == f + tail
  {
    hide NeedsQuotes;
    var eol := Eol(crlf);
    var f0, row, more := rows[0][0], rows[0], TableText(rows[1..], eol, o);
    var tail := (if |row| == 1 then eol else [o.delimiter] + RowText(row[1..], eol, o)) + more;
    forall f | !NeedsQuotes(f, o)
      ensures Printed([[f] + row[1..]] + rows[1..], crlf, o) == f + tail
    {
      var changed := [f] + row[1..];
      var table := [changed] + rows[1..];
      assert changed[1..] == row[1..] && table[1..] == rows[1..];
      assert RowText(changed, eol, o) + more == f + tail;
    }
    assert [f0] + row[1..] == row && [row] + rows[1..] == rows;
  }

  /** With delimiter and quote other than its bytes, a BOM can only come from the first field. */
  lemma FirstFieldBomIff(rows: Table, crlf: bool, o: Options)
    requires Sensible(o) && AwayFromBom(o)
    ensures HasBom(Printed(rows, crlf, o)) <==> FirstFieldBom(rows, o)
  {
    hide Printed, NeedsQuotes;
    if |rows| > 0 && |rows[0]| > 0 && !NeedsQuotes(rows[0][0], o) {
      FirstFieldText(rows, crlf, o);
      var f := rows[0][0];
      var tail :| Printed(rows, crlf, o) == f + tail && EndsField(tail, o);
      if |f| < 3 {
        assert (f + tail)[|f|] == tail[0] && BOM[|f|] in BOM;
      } else {
        assert (f + tail)[..3] == f[..3];
      }
    } else {
      FirstChar(rows, crlf, o);
    }
  }

  /** Otherwise the text is empty, or starts with a line end or the quote. */
  lemma FirstChar(rows: Table, crlf: bool, o: Options)
    requires Sensible(o) && (|rows| > 0 && |rows[0]| > 0 ==> NeedsQuotes(rows[0][0], o))
    ensures var text := Printed(rows, crlf, o);
            |text| > 0 ==> text[0] == CR || text[0] == LF || text[0] == o.quote
  {
  }

  lemma BomLosesFirstField(rows: Table, crlf: bool, o: Options)
    requires Sensible(o) && o.quote != NUL && FirstFieldBom(rows, o) && o.skipBom
    ensures Parsed(Printed(rows, crlf, o), o) == Some(Normalised(WithoutBom(rows), o))
  {
    hide NeedsQuotes;
    var f := rows[0][0];
    FirstFieldText(rows, crlf, o);
    var tail :| Printed(rows, crlf, o) == f + tail
                && forall g :: !NeedsQuotes(g, o) ==> Printed([[g] + rows[0][1..]] + rows[1..], crlf, o) == g + tail;
    SuffixNeedsNoQuotes(f, o);
    assert (f + tail)[3..] == f[3..] + tail;
    assert HasBom(f + tail);
    var table := WithoutBom(rows);
    forall row, g | row in table && g in row
      ensures Readable(g, o)
    {
      AllReadable(g, o);
    }
    ReadTable(table, Eol(crlf), [], o);
    assert [] + Normalised(table, o) == Normalised(table, o);
  }

  lemma SuffixNeedsNoQuotes(f: string, o: Options)
    requires !NeedsQuotes(f, o) && |f| >= 3
    ensures !NeedsQuotes(f[3..], o)
  {
  }

  /** One of the BOM's bytes is neither delimiter nor quote. */
  function OrdinaryBomByte(o: Options): (c: char)
    requires Sensible(o)
    ensures Ordinary(c, o) && c in BOM
  {
    var a, b, c := BOM[0], BOM[1], BOM[2];
    if a != o.delimiter && a != o.quote then a
    else if b != o.delimiter && b != o.quote then b
    else c
  }

  lemma {:induction false} NormalisedCount(rows: Table, o: Options, c: char)
    ensures TableCount(Normalised(rows, o), c) == TableCount(rows, c)
    decreases |rows|
  {
    if |rows| > 0 {
      NormalisedCount(rows[1..], o, c);
      TableFirst(rows, c);
      var head := RowResult([], rows[0], o);
      TableSplit(head, Normalised(rows[1..], o), c);
      if Blank(rows[0]) && |rows[0]| > 0 {
        LonelyRow(rows[0]);
        assert rows[0][..0] == [] && RowCount(rows[0], c) == 0;
      }
      TableMore([], rows[0], c);
      TableMore([], [], c);
      NothingCounted(c);
    }
  }

  lemma {:induction false} TableSplit(a: Table, b: Table, c: char)
    ensures TableCount(a + b, c) == TableCount(a, c) + TableCount(b, c)
    decreases |b|
  {
    if |b| == 0 {
      assert a + b == a;
    } else {
      var front := b[..|b| - 1];
      TableSplit(a, front, c);
      assert (a + b)[..|a + b| - 1] == a + front;
    }
  }

  lemma TableFirst(rows: Table, c: char)
    requires |rows| > 0
    ensures TableCount(rows, c) == TableCount([rows[0]], c) + TableCount(rows[1..], c)
  {
    TableSplit([rows[0]], rows[1..], c);
    assert [rows[0]] + rows[1..] == rows;
  }

  /** Three bytes skipped are missing from what is read: one of them stands for itself. */
  lemma SkippedBomShows(rows: Table, crlf: bool, o: Options)
    requires Sensible(o) && o.quote != NUL && HasBom(Printed(rows, crlf, o))
    ensures Run(Printed(rows, crlf, o)[3..], START, o) != Some(rows)
  {
    hide Run, Printed, Count, TableCount, NoRowLost;
    var text, c := Printed(rows, crlf, o), OrdinaryBomByte(o);
    RoundTripIff(rows, crlf, o);
    RunCount(text, START, o, c);
    RunCount(text[3..], START, o, c);
    NormalisedCount(rows, o, c);
    assert text[..3] == BOM && text == BOM + text[3..];
    CountSplit(BOM, text[3..], c);
    CountIsZero(BOM, c);
  }

  /** The whole condition, for every table: no row lost, and no first row that starts with a skipped BOM. */
  lemma RoundTripExactly(rows: Table, crlf: bool, o: Options)
    requires Sensible(o) && o.quote != NUL
    ensures Parsed(Printed(rows, crlf, o), o) == Some(rows) <==>
            NoRowLost(rows, o) && !(o.skipBom && LeadingBom(rows, o))
  {
    hide Run, Printed, NoRowLost, LeadingBom;
    HasBomIff(rows, crlf, o);
    RoundTripIff(rows, crlf, o);
    if o.skipBom && LeadingBom(rows, o) {
      SkippedBomShows(rows, crlf, o);
    }
  }

  /**
   Quoting switched off with a NUL quote is not switched off in the parser: a field that
   starts with NUL opens a quoted field, and the printed text is refused as unclosed.
   */
  lemma NulFieldIsRefused(o: Options)
    requires Sensible(o) && o.quote == NUL
    ensures Parsed(Printed([[[NUL]]], false, o), o) == None
  {
    var text := Printed([[[NUL]]], false, o);
    assert text == [NUL, LF] by {
      var rows: Table := [[[NUL]]];
      assert FieldText([NUL], o) == [NUL];
      assert RowText(rows[0], [LF], o) == [NUL] + [LF];
      assert TableText(rows, [LF], o) == RowText(rows[0], [LF], o) + TableText(rows[1..], [LF], o);
    }
    var s := START.(inQuotes := true, started := true);
    RunTurn(text, START, o);
    assert text[1..] == [LF];
    RunTurn([LF], s, o);
    assert [LF][1..] == [];
    RunEnd(s.(field := [LF]), o);
    assert !HasBom(text);
  }

  // ---- printing, as a loop

  method AppendField(out: string, field: string, o: Options) returns (r: string)
    ensures r == out + FieldText(field, o)
  {
    var quoted := Quoted(field, o);
    if !quoted {
      return out + field;
    }
    r := out + [o.quote];
    for i := 0 to |field|
      invariant r + Escaped(field[i..], o) == out + [o.quote] + Escaped(field, o)
    {
      assert field[i..][1..] == field[i + 1..];
      if field[i] == o.quote {
        r := r + [o.quote];
      }
      r := r + [field[i]];
    }
    assert field[|field|..] == [] && r == out + [o.quote] + Escaped(field, o);
    r := r + [o.quote];
    assert r == out + FieldText(field, o);
  }

  method Quoted(field: string, o: Options) returns (quoted: bool)
    ensures quoted == NeedsQuotes(field, o)
  {
    if o.quote == NUL {
      return false;
    }
    for i := 0 to |field|
      invariant forall j :: 0 <= j < i ==> !Special(field[j], o)
    {
      var c := field[i];
      if c == o.delimiter || c == o.quote || c == CR || c == LF {
        assert Special(field[i], o);
        return true;
      }
    }
    return false;
  }

  method AppendRow(out: string, row: Row, eol: string, o: Options) returns (r: string)
    ensures r == out + RowText(row, eol, o)
  {
    hide FieldText;
    r := out;
    assert row[0..] == row;
    for c := 0 to |row|
      invariant out + RowText(row, eol, o) == r + RowRest(row, c, eol, o)
    {
      assert row[c..][1..] == row[c + 1..];
      if c > 0 {
        r := r + [o.delimiter];
      }
      r := AppendField(r, row[c], o);
    }
    r := r + eol;
  }

  /** What is still to print of a row whose first c fields are out. */
  function RowRest(row: Row, c: nat, eol: string, o: Options): string
    requires c <= |row|
  {
    if c == 0 then RowText(row, eol, o) else if c < |row| then [o.delimiter] + RowText(row[c..], eol, o) else eol
  }

  /** csv_serialize. */
  method Serialize(rows: Table, crlf: bool, o: Options) returns (out: string)
    ensures out == Printed(rows, crlf, o)
  {
    hide RowText;
    out := [];
    if o.delimiter == NUL || (o.quote != NUL && o.quote == o.delimiter) {
      return;
    }
    var eol := if crlf then [CR, LF] else [LF];
    for r := 0 to |rows|
      invariant out + TableText(rows[r..], eol, o) == TableText(rows, eol, o)
    {
      assert rows[r..][1..] == rows[r + 1..];
      out := AppendRow(out, rows[r], eol, o);
    }
  }
}
