/**
 The texts the parser takes, as a grammar, and the table each stands for: the state machine
 agrees with it on every text.
 */
module CsvGrammar {
  import opened Csv
  import opened CsvRoundTrip
  import opened Wrappers

  /** A field as written: bare, or in quotes with whatever stands behind the closing one. */
  datatype Form = Plain(text: string) | Quotes(content: string, junk: string)

  datatype End = AtLf | AtCrLf | AtCr | AtTextEnd

  /** A line has one field at least; a blank line has one that is bare and empty. */
  datatype Line = Line(fields: seq<Form>, end: End)

  predicate NoCut(text: string, o: Options) {
    forall i :: 0 <= i < |text| ==> text[i] != o.delimiter && text[i] != CR && text[i] != LF
  }

  predicate StartsWith(text: string, c: char) {
    |text| > 0 && text[0] == c
  }

  predicate FormOk(f: Form, o: Options) {
    match f
    case Plain(text) => NoCut(text, o) && !StartsWith(text, o.quote)
    case Quotes(_, junk) => NoCut(junk, o) && !StartsWith(junk, o.quote)
  }

  function FormText(f: Form, o: Options): string {
    match f
    case Plain(text) => text
    case Quotes(content, junk) => [o.quote] + (Escaped(content, o) + [o.quote] + junk)
  }

  function FormValue(f: Form): string {
    match f case Plain(text) => text case Quotes(content, junk) => content + junk
  }

  predicate FormsOk(fs: seq<Form>, o: Options) {
    |fs| > 0 && forall i :: 0 <= i < |fs| ==> FormOk(fs[i], o)
  }

  function FormsText(fs: seq<Form>, o: Options): string {
    if |fs| == 0 then [] else FormText(fs[0], o) + if |fs| == 1 then [] else [o.delimiter] + FormsText(fs[1..], o)
  }

  function Values(fs: seq<Form>): Row {
    seq(|fs|, i requires 0 <= i < |fs| => FormValue(fs[i]))
  }

  predicate BlankForms(fs: seq<Form>) {
    |fs| == 1 && fs[0].Plain? && |fs[0].text| == 0
  }

  function EndText(e: End): string {
    match e case AtLf => [LF] case AtCrLf => [CR, LF] case AtCr => [CR] case AtTextEnd => []
  }

  function LinesText(ls: seq<Line>, o: Options): string {
    if |ls| == 0 then [] else FormsText(ls[0].fields, o) + (EndText(ls[0].end) + LinesText(ls[1..], o))
  }

  /** Only the last line may lack its end, if it is not blank; and CR before LF is one line end, not two. */
  predicate LinesOk(ls: seq<Line>, o: Options) {
    |ls| > 0 ==>
      && FormsOk(ls[0].fields, o) && LinesOk(ls[1..], o)
      && (ls[0].end == AtTextEnd ==> |ls| == 1 && !BlankForms(ls[0].fields))
      && (ls[0].end == AtCr ==> !StartsWith(LinesText(ls[1..], o), LF))
  }

  /** A blank line is a row without fields, or no row. */
  function LineRows(l: Line, o: Options): Table {
    if BlankForms(l.fields) then (if o.skipBlankLines then [] else [[]]) else [Values(l.fields)]
  }

  function LinesTable(ls: seq<Line>, o: Options): Table {
    if |ls| == 0 then [] else LineRows(ls[0], o) + LinesTable(ls[1..], o)
  }

  // ---- a text so written is read as that table

  /** What stands behind a field: nothing, or what ends it. */
  predicate Behind(rest: string, o: Options) {
    |rest| == 0 || EndsField(rest, o)
  }

  /** The state with a field read in full, but for the flag that its quote is closed. */
  predicate Holds(s: State, out: Table, row: Row, f: Form) {
    s == Between(out, row).(field := FormValue(f), started := f.Quotes? || |f.text| > 0, quoteClosed := s.quoteClosed)
  }

  lemma {:induction false} ReadContent(content: string, rest: string, s: State, o: Options)
    requires s.inQuotes && !StartsWith(rest, o.quote)
    ensures Run(Escaped(content, o) + [o.quote] + rest, s, o) ==
            Run(rest, s.(field := s.field + content, inQuotes := false, quoteClosed := true), o)
    decreases |content|
  {
    hide Run;
    var text := Escaped(content, o) + [o.quote] + rest;
    if |content| == 0 {
      assert text == [o.quote] + rest && s.field + content == s.field;
      RunTurn(text, s, o);
      assert text[1..] == rest;
    } else {
      var tail := Escaped(content[1..], o) + [o.quote] + rest;
      var next := s.(field := s.field + [content[0]]);
      assert text == (if content[0] == o.quote then [o.quote, o.quote] else [content[0]]) + tail;
      ReadEscapedChar(content[0], tail, s, o);
      ReadContent(content[1..], rest, next, o);
      assert next.field + content[1..] == s.field + content;
    }
  }

  lemma {:induction false} ReadJunk(junk: string, rest: string, s: State, o: Options)
    requires !s.inQuotes && s.quoteClosed && s.started && NoCut(junk, o)
    ensures Run(junk + rest, s, o) == Run(rest, s.(field := s.field + junk), o)
    decreases |junk|
  {
    hide Run;
    if |junk| == 0 {
      assert junk + rest == rest && s.field + junk == s.field;
    } else {
      var next := s.(field := s.field + [junk[0]]);
      RunTurn(junk + rest, s, o);
      assert (junk + rest)[1..] == junk[1..] + rest;
      ReadJunk(junk[1..], rest, next, o);
      assert next.field + junk[1..] == s.field + junk;
    }
  }

  lemma ReadForm(f: Form, rest: string, out: Table, row: Row, o: Options) returns (s: State)
    requires Sensible(o) && FormOk(f, o) && Behind(rest, o)
    ensures Holds(s, out, row, f) && Run(FormText(f, o) + rest, Between(out, row), o) == Run(rest, s, o)
  {
    hide Run;
    var start := Between(out, row);
    match f
    case Plain(text) =>
      ReadBare(text, rest, start, o);
      assert "" + text == text;
      s := start.(field := text, started := |text| > 0);
    case Quotes(content, junk) =>
      var text := FormText(f, o) + rest;
      var inside := start.(inQuotes := true, started := true);
      var closed := inside.(field := content, inQuotes := false, quoteClosed := true);
      RunTurn(text, start, o);
      assert text[1..] == Escaped(content, o) + [o.quote] + (junk + rest);
      assert StartsWith(junk + rest, o.quote) ==> StartsWith(junk, o.quote) || StartsWith(rest, o.quote);
      ReadContent(content, junk + rest, inside, o);
      assert "" + content == content;
      ReadJunk(junk, rest, closed, o);
      s := closed.(field := content + junk);
  }

  /** What ends a field is looked at again once the flag is down. */
  lemma ReadOn(rest: string, s: State, o: Options)
    requires !s.inQuotes && EndsField(rest, o)
    ensures Run(rest, s, o) == Run(rest, s.(quoteClosed := false), o)
  {
    if s.quoteClosed {
      RunTurn(rest, s, o);
      assert rest[0..] == rest;
    }
  }

  lemma ReadDelimiter(rest: string, s: State, out: Table, row: Row, f: Form, o: Options)
    requires Sensible(o) && Holds(s, out, row, f) && FormOk(f, o)
    ensures Run([o.delimiter] + rest, s, o) == Run(rest, Between(out, row + [FormValue(f)]), o)
  {
    var text := [o.delimiter] + rest;
    ReadOn(text, s, o);
    RunTurn(text, s.(quoteClosed := false), o);
    assert text[1..] == rest;
  }

  lemma ReadEnd(e: End, rest: string, s: State, out: Table, row: Row, f: Form, o: Options)
    requires Sensible(o) && Holds(s, out, row, f) && e != AtTextEnd && (e == AtCr ==> !StartsWith(rest, LF))
    ensures Run(EndText(e) + rest, s, o) ==
            Run(rest, Between(if row == [] && BlankForms([f]) then (if o.skipBlankLines then out else out + [[]])
                              else out + [row + [FormValue(f)]], []), o)
  {
    var text := EndText(e) + rest;
    var down := s.(quoteClosed := false);
    ReadOn(text, s, o);
    RunTurn(text, down, o);
    assert text[|EndText(e)|..] == rest;
    assert BlankLine(down) <==> row == [] && BlankForms([f]);
  }

  /** The last field of a line, and the line's end. */
  lemma ReadLastForm(f: Form, e: End, rest: string, out: Table, row: Row, o: Options)
    requires Sensible(o) && FormOk(f, o) && (e == AtCr ==> !StartsWith(rest, LF))
    requires e == AtTextEnd ==> rest == [] && (row != [] || !BlankForms([f]))
    ensures Run(FormText(f, o) + (EndText(e) + rest), Between(out, row), o) ==
            if e == AtTextEnd then Some(out + [row + [FormValue(f)]])
            else Run(rest, Between(if row == [] && BlankForms([f]) then (if o.skipBlankLines then out else out + [[]])
                                   else out + [row + [FormValue(f)]], []), o)
  {
    hide Run, FormText;
    var tail := EndText(e) + rest;
    var s := ReadForm(f, tail, out, row, o);
    if e == AtTextEnd {
      assert tail == [];
      RunEnd(s, o);
    } else {
      ReadEnd(e, rest, s, out, row, f, o);
    }
  }

  lemma ValuesMore(fs: seq<Form>, row: Row)
    requires |fs| > 0
    ensures row + Values(fs) == row + [FormValue(fs[0])] + Values(fs[1..])
    ensures |fs| == 1 ==> row + Values(fs) == row + [FormValue(fs[0])]
  {
  }

  /** One line, read from its first field on. */
  lemma {:induction false} ReadLine(fs: seq<Form>, e: End, rest: string, out: Table, row: Row, o: Options)
    requires Sensible(o) && FormsOk(fs, o) && (e == AtCr ==> !StartsWith(rest, LF))
    requires e == AtTextEnd ==> rest == [] && (row != [] || !BlankForms(fs))
    ensures Run(FormsText(fs, o) + (EndText(e) + rest), Between(out, row), o) ==
            if e == AtTextEnd then Some(out + [row + Values(fs)])
            else Run(rest, Between(if row == [] && BlankForms(fs) then (if o.skipBlankLines then out else out + [[]])
                                   else out + [row + Values(fs)], []), o)
    decreases |fs|
  {
    hide Run, FormText, FormOk, FormValue, EndText, Values, Holds;
    var f, end := fs[0], EndText(e) + rest;
    ValuesMore(fs, row);
    if |fs| == 1 {
      assert FormsText(fs, o) + end == FormText(f, o) + end && fs == [f];
      ReadLastForm(f, e, rest, out, row, o);
    } else {
      var more := FormsText(fs[1..], o) + end;
      assert FormsText(fs, o) + end == FormText(f, o) + ([o.delimiter] + more);
      var s := ReadForm(f, [o.delimiter] + more, out, row, o);
      ReadDelimiter(more, s, out, row, f, o);
      ReadLine(fs[1..], e, rest, out, row + [FormValue(f)], o);
    }
  }

  lemma ReadWholeLine(l: Line, rest: string, out: Table, o: Options)
    requires Sensible(o) && FormsOk(l.fields, o) && (l.end == AtCr ==> !StartsWith(rest, LF))
    requires l.end == AtTextEnd ==> rest == [] && !BlankForms(l.fields)
    ensures Run(FormsText(l.fields, o) + (EndText(l.end) + rest), Between(out, []), o) ==
            if l.end == AtTextEnd then Some(out + LineRows(l, o)) else Run(rest, Between(out + LineRows(l, o), []), o)
  {
    hide Run, FormsText, FormsOk, Values, EndText;
    ReadLine(l.fields, l.end, rest, out, [], o);
    assert [] + Values(l.fields) == Values(l.fields);
    assert out + [] == out;
  }

  lemma {:induction false} ReadLines(ls: seq<Line>, out: Table, o: Options)
    requires Sensible(o) && LinesOk(ls, o)
    ensures Run(LinesText(ls, o), Between(out, []), o) == Some(out + LinesTable(ls, o))
    decreases |ls|
  {
    hide Run, FormsText, FormsOk, EndText, LineRows, BlankForms;
    if |ls| == 0 {
      RunEnd(Between(out, []), o);
      assert out + [] == out;
    } else {
      var l, tail := ls[0], ls[1..];
      ReadWholeLine(l, LinesText(tail, o), out, o);
      if l.end == AtTextEnd {
        assert tail == [] && LineRows(l, o) + [] == LineRows(l, o);
      } else {
        ReadLines(tail, out + LineRows(l, o), o);
        assert out + LineRows(l, o) + LinesTable(tail, o) == out + LinesTable(ls, o);
      }
    }
  }

  // ---- and every text the parser takes is so written

  lemma {:induction false} FindCut(text: string, o: Options) returns (k: nat)
    ensures k <= |text| && NoCut(text[..k], o) && Behind(text[k..], o)
    decreases |text|
  {
    if |text| == 0 || EndsField(text, o) {
      k := 0;
    } else {
      var j := FindCut(text[1..], o);
      k := j + 1;
      assert text[1..][j..] == text[k..];
      forall i | 0 <= i < k
        ensures text[..k][i] != o.delimiter && text[..k][i] != CR && text[..k][i] != LF
      {
        assert i > 0 ==> text[i] == text[1..][..j][i - 1];
      }
    }
  }

  lemma {:induction false} FindClosing(text: string, s: State, o: Options) returns (content: string, k: nat)
    requires s.inQuotes && Run(text, s, o).Some?
    ensures k <= |text| && text == Escaped(content, o) + [o.quote] + text[k..] && !StartsWith(text[k..], o.quote)
    decreases |text|
  {
    hide Run, Escaped, Turn;
    if |text| == 0 {
      RunEnd(s, o);
      assert false;
    } else {
      RunTurn(text, s, o);
      QuotedTurn(text, s, o);
      var n := Turn(text, s, o).0;
      if Closes(text, o) {
        content, k := [], 1;
        EscapedNothing(o);
        assert text == [] + [o.quote] + text[1..];
      } else {
        var j;
        content, j := FindClosing(text[n..], Turn(text, s, o).1, o);
        k := j + n;
        EscapedMore(text[0], content, o);
        Reassembled(text, n, j, Escaped(content, o) + [o.quote]);
        content := [text[0]] + content;
      }
    }
  }

  /** The text starts with a quote that no other one follows. */
  predicate Closes(text: string, o: Options) {
    StartsWith(text, o.quote) && (|text| > 1 ==> text[1] != o.quote)
  }

  lemma QuotedTurn(text: string, s: State, o: Options)
    requires s.inQuotes && |text| > 0
    ensures var (n, next) := Turn(text, s, o);
            if Closes(text, o) then n == 1
            else (0 < n <= |text| && next.inQuotes
                  && text[..n] == if text[0] == o.quote then [o.quote, o.quote] else [text[0]])
  {
  }

  lemma EscapedNothing(o: Options)
    ensures Escaped([], o) == []
  {
  }

  lemma EscapedMore(head: char, content: string, o: Options)
    ensures Escaped([head] + content, o) ==
            (if head == o.quote then [o.quote, o.quote] else [head]) + Escaped(content, o)
  {
    assert ([head] + content)[1..] == content;
  }

  lemma Reassembled(text: string, n: nat, j: nat, middle: string)
    requires n <= |text| && j <= |text| - n && text[n..] == middle + text[n..][j..]
    ensures text[n..][j..] == text[n + j..] && text == text[..n] + middle + text[n + j..]
  {
    assert text == text[..n] + text[n..];
  }

  lemma FindForm(text: string, out: Table, row: Row, o: Options) returns (f: Form, k: nat)
    requires Sensible(o) && Run(text, Between(out, row), o).Some?
    ensures k <= |text| && FormOk(f, o) && Behind(text[k..], o) && text == FormText(f, o) + text[k..]
  {
    hide Run;
    if StartsWith(text, o.quote) {
      RunTurn(text, Between(out, row), o);
      var content, i := FindClosing(text[1..], Between(out, row).(inQuotes := true, started := true), o);
      var j := FindCut(text[1..][i..], o);
      f, k := Quotes(content, text[1..][i..][..j]), 1 + i + j;
      assert text[1..][i..] == text[1 + i..] && text[1 + i..][j..] == text[k..];
      assert text[1 + i..] == f.junk + text[k..];
      assert text == [o.quote] + text[1..];
    } else {
      k := FindCut(text, o);
      f := Plain(text[..k]);
    }
  }

  lemma FindEnd(text: string, o: Options) returns (e: End, k: nat)
    requires Behind(text, o) && !StartsWith(text, o.delimiter)
    ensures k <= |text| && text == EndText(e) + text[k..]
    ensures e == AtTextEnd ==> text == []
    ensures e == AtCr ==> !StartsWith(text[k..], LF)
    ensures e != AtTextEnd ==> k > 0
  {
    if |text| == 0 {
      e, k := AtTextEnd, 0;
    } else if text[0] == LF {
      e, k := AtLf, 1;
    } else if |text| > 1 && text[1] == LF {
      e, k := AtCrLf, 2;
    } else {
      e, k := AtCr, 1;
    }
  }

  lemma LineMore(f: Form, more: seq<Form>, e: End, text: string, i: nat, k: nat, o: Options)
    requires i < k <= |text| && FormOk(f, o) && FormsOk(more, o) && text[i] == o.delimiter
    requires text == FormText(f, o) + text[i..] && text[i + 1..] == FormsText(more, o) + (EndText(e) + text[k..])
    ensures FormsOk([f] + more, o) && !BlankForms([f] + more)
    ensures text == FormsText([f] + more, o) + (EndText(e) + text[k..])
  {
    hide FormText, FormOk;
    assert ([f] + more)[1..] == more;
    assert text[i..] == [o.delimiter] + text[i + 1..];
  }

  lemma OneForm(f: Form, o: Options)
    ensures FormsText([f], o) == FormText(f, o) && (BlankForms([f]) ==> FormText(f, o) == [])
  {
    assert FormText(f, o) + [] == FormText(f, o);
  }

  lemma {:induction false} FindLine(text: string, out: Table, row: Row, o: Options)
      returns (fs: seq<Form>, e: End, k: nat)
    requires Sensible(o) && Run(text, Between(out, row), o).Some?
    ensures k <= |text| && FormsOk(fs, o) && text == FormsText(fs, o) + (EndText(e) + text[k..])
    ensures e == AtTextEnd ==> text[k..] == []
    ensures e == AtCr ==> !StartsWith(text[k..], LF)
    ensures e != AtTextEnd ==> k > 0
    ensures BlankForms(fs) && e == AtTextEnd ==> |text| == 0
    decreases |text|
  {
    hide Run, Escaped, FormText, FormsText, FormOk, NoCut, Holds, FormValue;
    var f, i := FindForm(text, out, row, o);
    var rest := text[i..];
    var s := ReadForm(f, rest, out, row, o);
    if StartsWith(rest, o.delimiter) {
      var more, j;
      assert rest == [o.delimiter] + text[i + 1..];
      ReadDelimiter(text[i + 1..], s, out, row, f, o);
      more, e, j := FindLine(text[i + 1..], out, row + [FormValue(f)], o);
      fs, k := [f] + more, i + 1 + j;
      assert text[i + 1..][j..] == text[k..];
      LineMore(f, more, e, text, i, k, o);
    } else {
      var j;
      e, j := FindEnd(rest, o);
      fs, k := [f], i + j;
      OneForm(f, o);
      assert rest[j..] == text[k..];
    }
  }

  lemma {:induction false} FindLines(text: string, out: Table, o: Options) returns (ls: seq<Line>)
    requires Sensible(o) && Run(text, Between(out, []), o).Some?
    ensures LinesOk(ls, o) && LinesText(ls, o) == text
    decreases |text|
  {
    hide Run, FormsText, Values;
    if |text| == 0 {
      ls := [];
    } else {
      var fs, e, k := FindLine(text, out, [], o);
      ReadLine(fs, e, text[k..], out, [], o);
      var l := Line(fs, e);
      var more := [];
      if e != AtTextEnd {
        more := FindLines(text[k..],
                          if BlankForms(fs) then (if o.skipBlankLines then out else out + [[]])
                          else out + [[] + Values(fs)], o);
      }
      ls := [l] + more;
      assert ls[1..] == more && LinesText(more, o) == text[k..];
    }
  }

  /**
   The parser takes a text, behind a skipped BOM, as a table exactly when the text is written by
   the grammar's rules as that table; it refuses what is not, which is an unclosed quote.
   */
  lemma ParsedIff(text: string, o: Options, t: Table)
    requires Sensible(o)
    ensures var rest := if o.skipBom && HasBom(text) then text[3..] else text;
            Parsed(text, o) == Some(t) <==>
            exists ls :: LinesOk(ls, o) && LinesText(ls, o) == rest && LinesTable(ls, o) == t
  {
    hide Run, LinesOk, LinesText, LinesTable;
    var rest := if o.skipBom && HasBom(text) then text[3..] else text;
    if Parsed(text, o) == Some(t) {
      var ls := FindLines(rest, [], o);
      ReadLines(ls, [], o);
      assert [] + LinesTable(ls, o) == LinesTable(ls, o);
    }
    if ls :| LinesOk(ls, o) && LinesText(ls, o) == rest && LinesTable(ls, o) == t {
      ReadLines(ls, [], o);
      assert [] + LinesTable(ls, o) == LinesTable(ls, o);
    }
  }

  /** The byte order mark is U+FEFF in the three-byte form of UTF-8. */
  lemma BomIsMark()
    ensures |BOM| == 3
    ensures var (a, b, c) := (BOM[0] as int, BOM[1] as int, BOM[2] as int);
            && 224 <= a < 240 && 128 <= b < 192 && 128 <= c < 192
            && ((a - 224) * 64 + (b - 128)) * 64 + (c - 128) == 0xFEFF
  {
  }

  /** Only a NUL delimiter, and a quote that is the delimiter, make the parser refuse every text. */
  lemma OptionsRefusedIff(o: Options)
    ensures (forall text :: Parsed(text, o) == None) <==>
            o.delimiter == '\0' || (o.quote != '\0' && o.quote == o.delimiter)
    ensures Parsed("", o).Some? ==> Parsed("", o) == Some([])
  {
    if Usable(o) {
      assert Parsed("", o) == Some([]);
    }
  }

  // ---- the printer's choice among the texts of a table

  /** Quotes go around a field with a delimiter, quote or line end in it, unless there are none to use. */
  predicate Quotable(f: string, o: Options) {
    && o.quote != '\0'
    && exists i :: 0 <= i < |f| && (f[i] == o.delimiter || f[i] == o.quote || f[i] == '\r' || f[i] == '\n')
  }

  function FormOf(f: string, o: Options): Form {
    if Quotable(f, o) then Quotes(f, "") else Plain(f)
  }

  function FormsOf(row: Row, o: Options): seq<Form> {
    if |row| == 0 then [Plain("")] else seq(|row|, i requires 0 <= i < |row| => FormOf(row[i], o))
  }

  function LinesOf(rows: Table, crlf: bool, o: Options): seq<Line> {
    seq(|rows|, i requires 0 <= i < |rows| => Line(FormsOf(rows[i], o), if crlf then AtCrLf else AtLf))
  }

  lemma FieldPrinted(f: string, o: Options)
    ensures FieldText(f, o) == FormText(FormOf(f, o), o)
  {
    if NeedsQuotes(f, o) {
      var i :| 0 <= i < |f| && Special(f[i], o);
      assert Quotable(f, o);
      assert FormText(FormOf(f, o), o) == [o.quote] + (Escaped(f, o) + [o.quote] + "");
    } else if Quotable(f, o) {
      var i :| 0 <= i < |f| && (f[i] == o.delimiter || f[i] == o.quote || f[i] == '\r' || f[i] == '\n');
      assert Special(f[i], o);
    }
  }

  lemma {:induction false} RowPrinted(row: Row, eol: string, o: Options)
    ensures RowText(row, eol, o) == FormsText(FormsOf(row, o), o) + eol
    decreases |row|
  {
    hide FieldText, FormOf, FormText;
    if |row| == 0 {
      NothingPrinted(o);
      assert FormsText([Plain("")], o) + eol == eol;
    } else {
      FieldPrinted(row[0], o);
      if |row| > 1 {
        RowPrinted(row[1..], eol, o);
        assert FormsOf(row, o)[1..] == FormsOf(row[1..], o);
      }
    }
  }

  lemma NothingPrinted(o: Options)
    ensures FormsText([Plain("")], o) == []
  {
    assert FormText(Plain(""), o) == [];
  }

  /** The printer writes one line a row, each with its end, and quotes exactly the fields that need it. */
  lemma {:induction false} PrintedByGrammar(rows: Table, crlf: bool, o: Options)
    requires Usable(o)
    ensures Printed(rows, crlf, o) == LinesText(LinesOf(rows, crlf, o), o)
    decreases |rows|
  {
    hide RowText, FormsText, FormsOf;
    if |rows| > 0 {
      RowPrinted(rows[0], Eol(crlf), o);
      PrintedByGrammar(rows[1..], crlf, o);
      assert LinesOf(rows, crlf, o)[1..] == LinesOf(rows[1..], crlf, o);
    }
  }
}
