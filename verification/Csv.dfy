/** CSV text, as a table of rows of fields, printed and read back (RFC 4180 section 2). */
module Csv {
  import opened Wrappers

  datatype Options = Options(delimiter: char, quote: char, skipBom: bool, skipBlankLines: bool)

  type Row = seq<string>
  type Table = seq<Row>

  const NUL: char := '\0'
  const CR: char := '\r'
  const LF: char := '\n'
  const BOM: string := [0xEF as char, 0xBB as char, 0xBF as char]

  /** The option check at the head of both the parser and the printer. */
  predicate Usable(o: Options) {
    o.delimiter != NUL && (o.quote != NUL ==> o.quote != o.delimiter)
  }

  predicate HasBom(text: string) {
    BOM <= text
  }

  // ---- the parser as a state machine

  /** The parser's variables. */
  datatype State = State(out: Table, row: Row, field: string, inQuotes: bool, quoteClosed: bool, started: bool)

  const START := State([], [], "", false, false, false)

  function EndField(s: State): State {
    s.(row := s.row + [s.field], field := "", started := false)
  }

  predicate BlankLine(s: State) {
    !s.started && |s.field| == 0 && |s.row| == 0
  }

  function EndLine(s: State, o: Options): State {
    var row := if BlankLine(s) then s.row else s.row + [s.field];
    s.(out := if !o.skipBlankLines || !BlankLine(s) then s.out + [row] else s.out,
       row := [], field := "", started := false)
  }

  /**
   One turn of the loop: how many characters it consumes and the state it leaves. After a
   closing quote a delimiter or line end is looked at twice: once to leave that state,
   consuming nothing, and once for what it means.
   */
  function Turn(text: string, s: State, o: Options): (r: (nat, State))
    requires |text| > 0
    ensures r.0 <= |text| && (r.0 == 0 ==> s.quoteClosed && !r.1.quoteClosed)
  {
    var c := text[0];
    if s.inQuotes then
      if c == o.quote then
        if |text| > 1 && text[1] == o.quote then (2, s.(field := s.field + [o.quote]))
        else (1, s.(inQuotes := false, quoteClosed := true))
      else (1, s.(field := s.field + [c]))
    else if s.quoteClosed then
      if c == o.delimiter || c == LF || c == CR then (0, s.(quoteClosed := false))
      else (1, s.(field := s.field + [c], started := true))
    else if c == o.quote && |s.field| == 0 && !s.started then (1, s.(inQuotes := true, started := true))
    else if c == o.delimiter then (1, EndField(s))
    else if c == CR && |text| > 1 && text[1] == LF then (2, EndLine(s, o))
    else if c == CR || c == LF then (1, EndLine(s, o))
    else (1, s.(field := s.field + [c], started := true))
  }

  /** What the end of the text makes of a state; None is the unclosed quote. */
  function AtEnd(s: State): Option<Table> {
    if s.inQuotes then None
    else if s.started || |s.field| > 0 || |s.row| > 0 then Some(s.out + [s.row + [s.field]])
    else Some(s.out)
  }

  function Run(text: string, s: State, o: Options): Option<Table>
    decreases |text|, s.quoteClosed
  {
    if |text| == 0 then AtEnd(s) else
    var (k, next) := Turn(text, s, o);
    Run(text[k..], next, o)
  }

  function Parsed(text: string, o: Options): Option<Table> {
    if !Usable(o) then None
    else if o.skipBom && HasBom(text) then Run(text[3..], START, o)
    else Run(text, START, o)
  }

  lemma RunTurn(text: string, s: State, o: Options)
    requires |text| > 0
    ensures Run(text, s, o) == Run(text[Turn(text, s, o).0..], Turn(text, s, o).1, o)
  {
  }

  lemma RunEnd(s: State, o: Options)
    ensures Run([], s, o) == AtEnd(s)
  {
  }

  /** csv_parse: one loop over the text. */
  method Parse(text: string, o: Options) returns (out: Option<Table>)
    ensures out == Parsed(text, o)
  {
    hide Run;
    if o.delimiter == NUL || (o.quote != NUL && o.quote == o.delimiter) {
      return None;
    }
    var pos := 0;
    if o.skipBom && HasBom(text) {
      pos := 3;
    }
    ghost var from := pos;
    var rows: Table := [];
    var row: Row := [];
    var field: string := [];
    var inQuotes, quoteClosed, started := false, false, false;
    assert text[0..] == text;
    while pos < |text|
      invariant pos <= |text|
      invariant Run(text[pos..], State(rows, row, field, inQuotes, quoteClosed, started), o) ==
                Run(text[from..], START, o)
      decreases |text| - pos, quoteClosed
    {
      ghost var s := State(rows, row, field, inQuotes, quoteClosed, started);
      ghost var (k, next) := Turn(text[pos..], s, o);
      ghost var after := pos + k;
      RunTurn(text[pos..], s, o);
      assert text[pos..][k..] == text[after..];
      var c := text[pos];
      if inQuotes {
        if c == o.quote {
          if pos + 1 < |text| && text[pos + 1] == o.quote {
            field := field + [o.quote];
            pos := pos + 2;
          } else {
            inQuotes := false;
            quoteClosed := true;
            pos := pos + 1;
          }
        } else {
          field := field + [c];
          pos := pos + 1;
        }
      } else if quoteClosed {
        if c == o.delimiter || c == LF || c == CR {
          quoteClosed := false;
        } else {
          field := field + [c];
          started := true;
          pos := pos + 1;
        }
      } else if c == o.quote && |field| == 0 && !started {
        inQuotes := true;
        started := true;
        pos := pos + 1;
      } else if c == o.delimiter {
        row := row + [field];
        field := "";
        started := false;
        pos := pos + 1;
      } else if c == CR || c == LF {
        var lineIsEmpty := !started && |field| == 0 && |row| == 0;
        if !lineIsEmpty {
          row := row + [field];
        }
        if !o.skipBlankLines || !lineIsEmpty {
          rows := rows + [row];
        }
        row := [];
        field := "";
        started := false;
        if c == CR && pos + 1 < |text| && text[pos + 1] == LF {
          pos := pos + 2;
        } else {
          pos := pos + 1;
        }
      } else {
        field := field + [c];
        started := true;
        pos := pos + 1;
      }
      assert pos == after && State(rows, row, field, inQuotes, quoteClosed, started) == next;
    }
    RunEnd(State(rows, row, field, inQuotes, quoteClosed, started), o);
    assert text[pos..] == [];
    if inQuotes {
      return None;
    }
    if started || |field| > 0 || |row| > 0 {
      row := row + [field];
      rows := rows + [row];
    }
    return Some(rows);
  }

  // ---- the printer

  predicate NeedsQuotes(field: string, o: Options) {
    o.quote != NUL && exists i :: 0 <= i < |field| && Special(field[i], o)
  }

  predicate Special(c: char, o: Options) {
    c == o.delimiter || c == o.quote || c == CR || c == LF
  }

  /** The field with every quote written twice. */
  function Escaped(field: string, o: Options): string {
    if |field| == 0 then [] else
    (if field[0] == o.quote then [o.quote, o.quote] else [field[0]]) + Escaped(field[1..], o)
  }

  function FieldText(field: string, o: Options): string {
    if NeedsQuotes(field, o) then [o.quote] + Escaped(field, o) + [o.quote] else field
  }

  /** Fields separated by delimiters, then the line end. */
  function RowText(row: Row, eol: string, o: Options): string {
    if |row| == 0 then eol
    else if |row| == 1 then FieldText(row[0], o) + eol
    else FieldText(row[0], o) + [o.delimiter] + RowText(row[1..], eol, o)
  }

  function TableText(rows: Table, eol: string, o: Options): string {
    if |rows| == 0 then [] else RowText(rows[0], eol, o) + TableText(rows[1..], eol, o)
  }

  function Eol(crlf: bool): string {
    if crlf then [CR, LF] else [LF]
  }

  function Printed(rows: Table, crlf: bool, o: Options): string {
    if Usable(o) then TableText(rows, Eol(crlf), o) else []
  }
}
