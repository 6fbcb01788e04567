/** `processCell`, `processRow` and the assembly of the CSV text: quotes are
  * doubled, a field is wrapped in quotes when it holds a quote, a comma or a
  * line feed, fields are joined by commas, rows by line feeds, and the text
  * starts with a byte-order mark. */
module CsvWriter {
  import opened JsString

  const Bom: char := '\U{FEFF}'

  /** `cell.replace(/"/g, '""')`. */
  function DoubleQuotes(s: string): (r: string)
    ensures '"' !in s ==> r == s
  {
    if s == [] then []
    else
      var r := (if s[0] == '"' then "\"\"" else [s[0]]) + DoubleQuotes(s[1..]);
      assert s == [s[0]] + s[1..];
      assert '"' !in s ==> s[0] != '"' && '"' !in s[1..];
      r
  }

  /** Doubling keeps the set of characters: nothing is added but quotes, and
    * only where there was a quote. */
  lemma {:induction false} DoubleQuotesChars(s: string)
    ensures forall c :: c in DoubleQuotes(s) <==> c in s
  {
    if s != [] {
      DoubleQuotesChars(s[1..]);
      assert s == [s[0]] + s[1..];
    }
  }

  /** Doubling distributes over concatenation: every quote is doubled in
    * place and nothing else changes. */
  lemma {:induction false} DoubleQuotesAppend(a: string, b: string)
    ensures DoubleQuotes(a + b) == DoubleQuotes(a) + DoubleQuotes(b)
  {
    if a != [] {
      assert (a + b)[1..] == a[1..] + b;
      DoubleQuotesAppend(a[1..], b);
    } else {
      assert a + b == b;
    }
  }

  /** `processed.search(/("|,|\n)/g) >= 0`. */
  predicate NeedsQuoting(s: string)
    ensures NeedsQuoting(s) <==>
      exists k :: 0 <= k < |s| && (s[k] == '"' || s[k] == ',' || s[k] == '\n')
  {
    '"' in s || ',' in s || '\n' in s
  }

  /** Read left to right, every quote of `s` is the first of a pair `""`. */
  predicate QuotesPaired(s: string)
  {
    if s == [] then true
    else if s[0] == '"' then |s| >= 2 && s[1] == '"' && QuotesPaired(s[2..])
    else QuotesPaired(s[1..])
  }

  /** A field written without quotes: none of `"`, `,`, line feed. */
  predicate PlainField(f: string)
  {
    !NeedsQuoting(f)
  }

  /** A field written between quotes, its inner quotes doubled. */
  predicate QuotedField(f: string)
  {
    |f| >= 2 && f[0] == '"' && f[|f| - 1] == '"' && QuotesPaired(f[1..|f| - 1])
  }

  lemma {:induction false} DoubleQuotesPaired(s: string)
    ensures QuotesPaired(DoubleQuotes(s))
  {
    if s != [] {
      DoubleQuotesPaired(s[1..]);
      var r := DoubleQuotes(s);
      if s[0] == '"' {
        assert r[2..] == DoubleQuotes(s[1..]);
      } else {
        assert r[1..] == DoubleQuotes(s[1..]);
      }
    }
  }

  /** `processCell`: the empty cell stays empty; any other cell has its quotes
    * doubled and is wrapped in quotes exactly when it contains a quote, a
    * comma or a line feed; a cell with none of these comes out unchanged. */
  function ProcessCell(cell: string): (r: string)
    ensures cell == "" ==> r == ""
    ensures NeedsQuoting(cell) ==> r == "\"" + DoubleQuotes(cell) + "\""
    ensures !NeedsQuoting(cell) ==> r == cell
  {
    if cell == "" then ""
    else
      var processed := DoubleQuotes(cell);
      DoubleQuotesChars(cell);
      if NeedsQuoting(processed) then "\"" + processed + "\"" else processed
  }

  /** Whatever the cell, `processCell` writes a well-formed field. */
  lemma ProcessCellField(cell: string)
    ensures PlainField(ProcessCell(cell)) || QuotedField(ProcessCell(cell))
  {
    var r := ProcessCell(cell);
    if NeedsQuoting(cell) {
      DoubleQuotesPaired(cell);
      assert r[1..|r| - 1] == DoubleQuotes(cell);
    }
  }

  /** `processRow`: the row's processed cells joined by commas. The empty
    * row gives the empty line, and a row none of whose cells needs quoting is
    * written as its cells joined by commas, character for character. */
  function ProcessRow(row: seq<string>): (r: string)
    ensures row == [] ==> r == ""
    ensures (forall i :: 0 <= i < |row| ==> !NeedsQuoting(row[i])) ==> r == Join(row, ",")
  {
    var cells := ProcessCells(row);
    assert (forall i :: 0 <= i < |row| ==> !NeedsQuoting(row[i])) ==> cells == row;
    Join(cells, ",")
  }

  function ProcessCells(row: seq<string>): (r: seq<string>)
    ensures |r| == |row|
  {
    seq(|row|, i requires 0 <= i < |row| => ProcessCell(row[i]))
  }

  /** The processed rows. */
  function RowStrings(m: seq<seq<string>>): (r: seq<string>)
    ensures |r| == |m|
    ensures forall i :: 0 <= i < |m| ==> r[i] == ProcessRow(m[i])
  {
    seq(|m|, i requires 0 <= i < |m| => ProcessRow(m[i]))
  }

  /** `'\ufeff' + row_strings.join('\n')`. */
  function CsvText(m: seq<seq<string>>): (r: string)
    ensures |r| >= 1 && r[0] == Bom
  {
    [Bom] + Join(RowStrings(m), "\n")
  }

  /** Removes one layer of quote doubling. */
  function UndoubleQuotes(s: string): string
  {
    if |s| >= 2 && s[0] == '"' && s[1] == '"' then "\"" + UndoubleQuotes(s[2..])
    else if s == [] then []
    else [s[0]] + UndoubleQuotes(s[1..])
  }

  /** Reads a field back: a quoted field loses its quotes and its doubled
    * quotes are halved; a plain field is its own text. */
  function Unescape(f: string): string
  {
    if |f| >= 2 && f[0] == '"' && f[|f| - 1] == '"' then UndoubleQuotes(f[1..|f| - 1]) else f
  }

  lemma {:induction false} UndoubleDoubleQuotes(s: string)
    ensures UndoubleQuotes(DoubleQuotes(s)) == s
  {
    if s != [] {
      UndoubleDoubleQuotes(s[1..]);
      var r := DoubleQuotes(s);
      if s[0] == '"' {
        assert r[2..] == DoubleQuotes(s[1..]);
      } else {
        assert r[1..] == DoubleQuotes(s[1..]);
        assert s == [s[0]] + s[1..];
      }
    }
  }

  /** Escaping loses nothing: reading a processed cell back gives the cell. */
  lemma EscapeRoundTrip(cell: string)
    ensures Unescape(ProcessCell(cell)) == cell
  {
    var f := ProcessCell(cell);
    if NeedsQuoting(cell) {
      assert f[1..|f| - 1] == DoubleQuotes(cell);
      UndoubleDoubleQuotes(cell);
    }
  }

  /** Distinct cells are written as distinct fields. */
  lemma ProcessCellInjective(a: string, b: string)
    requires ProcessCell(a) == ProcessCell(b)
    ensures a == b
  {
    EscapeRoundTrip(a);
    EscapeRoundTrip(b);
  }

  /** The empty table, a table of one empty row and a table of one empty
    * cell are written identically: the text alone cannot tell them apart. */
  lemma EmptyTablesCollide()
    ensures CsvText([]) == CsvText([[]]) == CsvText([[""]]) == [Bom]
  {
    EmptyRowCollides([[]], 0);
  }

  /** Anywhere in a table, an empty row is written exactly like a row of one
    * empty cell: both are the empty line. */
  lemma EmptyRowCollides(m: seq<seq<string>>, i: nat)
    requires i < |m| && m[i] == []
    ensures ProcessRow([]) == ProcessRow([""]) == ""
    ensures CsvText(m[i := [""]]) == CsvText(m)
  {
    assert ProcessCells([""]) == [""];
    assert RowStrings(m[i := [""]]) == RowStrings(m);
  }

}
