/** A reader for the CSV dialect the exporter writes (RFC 4180 fields, line
  * feed between records, an optional leading byte-order mark). It is the
  * reference against which the writer is proved lossless. */
module CsvReader {
  import opened Wrappers
  import opened JsString
  import opened CsvWriter

  /** Reads the rest of a quoted field after its opening quote: the field's
    * text, with each `""` read as `"`, and what follows the closing quote. */
  function ScanQuoted(s: string): (r: (string, string))
    ensures |r.1| <= |s|
  {
    if s == [] then ("", "")
    else if s[0] == '"' then
      if |s| >= 2 && s[1] == '"' then
        var (f, rest) := ScanQuoted(s[2..]);
        ("\"" + f, rest)
      else ("", s[1..])
    else
      var (f, rest) := ScanQuoted(s[1..]);
      ([s[0]] + f, rest)
  }

  /** Reads an unquoted field: everything up to the next comma or line feed. */
  function ScanPlain(s: string): (r: (string, string))
    ensures |r.1| <= |s|
  {
    if s == [] || s[0] == ',' || s[0] == '\n' then ("", s)
    else
      var (f, rest) := ScanPlain(s[1..]);
      ([s[0]] + f, rest)
  }

  function ParseField(s: string): (r: (string, string))
    ensures |r.1| <= |s|
  {
    if s != [] && s[0] == '"' then ScanQuoted(s[1..]) else ScanPlain(s)
  }

  /** Reads records, `fields` being those already read of the current one;
    * `None` when a closing quote is followed by anything but a separator. */
  function ParseRecords(s: string, fields: seq<string>): Option<seq<seq<string>>>
    decreases |s|
  {
    var (f, rest) := ParseField(s);
    if rest == [] then Some([fields + [f]])
    else if rest[0] == ',' then ParseRecords(rest[1..], fields + [f])
    else if rest[0] == '\n' then
      match ParseRecords(rest[1..], [])
      case None => None
      case Some(records) => Some([fields + [f]] + records)
    else None
  }

  function ParseCsv(text: string): Option<seq<seq<string>>>
  {
    if text != [] && text[0] == Bom then ParseRecords(text[1..], []) else ParseRecords(text, [])
  }

  lemma ScanQuotedDoubled(c: string, t: string)
    requires t == [] || t[0] != '"'
    ensures ScanQuoted(DoubleQuotes(c) + "\"" + t) == (c, t)
  {
    assert DoubleQuotes(c) + "\"" + t == DoubleQuotes(c) + ("\"" + t);
    ScanQuotedAppend(c, "\"" + t);
    ScanQuotedClose(t);
    assert c + "" == c;
  }

  /** The reader consumes a doubled text exactly, halving its quotes, and
    * goes on with what follows. */
  lemma {:induction false} ScanQuotedAppend(c: string, u: string)
    ensures ScanQuoted(DoubleQuotes(c) + u) == (c + ScanQuoted(u).0, ScanQuoted(u).1)
  {
    if c == [] {
      assert DoubleQuotes(c) + u == u;
      assert c + ScanQuoted(u).0 == ScanQuoted(u).0;
    } else {
      var d := DoubleQuotes(c[1..]) + u;
      ScanQuotedAppend(c[1..], u);
      var head := if c[0] == '"' then "\"\"" else [c[0]];
      assert DoubleQuotes(c) + u == head + d by {
        assert DoubleQuotes(c) == head + DoubleQuotes(c[1..]);
      }
      ScanQuotedCons(c, d);
      Recons(c, ScanQuoted(u).0);
    }
  }

  /** The closing quote ends the field when no second quote follows it. */
  lemma ScanQuotedClose(t: string)
    requires t == [] || t[0] != '"'
    ensures ScanQuoted("\"" + t) == ("", t)
  {
    assert ("\"" + t)[1..] == t;
  }

  /** One step of the reader over a doubled quote or an ordinary character. */
  lemma ScanQuotedCons(c: string, d: string)
    requires c != []
    ensures ScanQuoted((if c[0] == '"' then "\"\"" else [c[0]]) + d)
         == ([c[0]] + ScanQuoted(d).0, ScanQuoted(d).1)
  {
    var s := (if c[0] == '"' then "\"\"" else [c[0]]) + d;
    if c[0] == '"' {
      assert s[2..] == d;
    } else {
      assert s[1..] == d;
    }
  }

  lemma {:induction false} ScanPlainOf(p: string, t: string)
    requires !NeedsQuoting(p)
    requires t == [] || t[0] == ',' || t[0] == '\n'
    ensures ScanPlain(p + t) == (p, t)
  {
    if p == [] {
      assert p + t == t;
    } else {
      assert p[0] in p;
      assert (p + t)[1..] == p[1..] + t;
      assert forall c :: c in p[1..] ==> c in p;
      ScanPlainOf(p[1..], t);
      assert p == [p[0]] + p[1..];
    }
  }

  /** A processed cell followed by a separator, or by nothing, reads back as
    * the cell, the separator being left for the record reader. */
  lemma ParseFieldOfProcessed(cell: string, t: string)
    requires t == [] || t[0] == ',' || t[0] == '\n'
    ensures ParseField(ProcessCell(cell) + t) == (cell, t)
  {
    var f := ProcessCell(cell);
    if NeedsQuoting(cell) {
      var s := f + t;
      assert s[1..] == DoubleQuotes(cell) + "\"" + t;
      ScanQuotedDoubled(cell, t);
    } else {
      assert cell != [] ==> cell[0] in cell;
      ScanPlainOf(cell, t);
    }
  }

  lemma ProcessCellsTail(row: seq<string>)
    requires |row| >= 1
    ensures ProcessCells(row)[1..] == ProcessCells(row[1..])
  {
    var a, b := ProcessCells(row)[1..], ProcessCells(row[1..]);
    forall i | 0 <= i < |a| ensures a[i] == b[i] {
      assert a[i] == ProcessCell(row[i + 1]);
    }
  }

  /** A row of two or more cells is its first processed cell, a comma and
    * the processed rest. */
  lemma ProcessRowCons(row: seq<string>, t: string)
    requires |row| >= 2
    ensures ProcessRow(row) + t == ProcessCell(row[0]) + ("," + (ProcessRow(row[1..]) + t))
  {
    var first, rest := ProcessCell(row[0]), ProcessRow(row[1..]);
    assert ProcessRow(row) == first + "," + rest by {
      ProcessCellsTail(row);
    }
    Assoc(first + ",", rest, t);
    Assoc(first, ",", rest + t);
  }

  /** What the reader returns once `record` is complete and `t`, empty or
    * starting with a line feed, is left. */
  function AfterRecord(record: seq<string>, t: string): Option<seq<seq<string>>>
    requires t == [] || t[0] == '\n'
  {
    if t == [] then Some([record])
    else match ParseRecords(t[1..], [])
         case None => None
         case Some(records) => Some([record] + records)
  }

  /** A processed cell followed by a comma: the record goes on. */
  lemma ParseRecordsComma(cell: string, s: string, fields: seq<string>)
    ensures ParseRecords(ProcessCell(cell) + ("," + s), fields) == ParseRecords(s, fields + [cell])
  {
    ParseFieldOfProcessed(cell, "," + s);
    assert ("," + s)[1..] == s;
  }

  /** A processed cell followed by a line feed or by nothing: the record
    * ends with it. */
  lemma ParseRecordsEnd(cell: string, t: string, fields: seq<string>)
    requires t == [] || t[0] == '\n'
    ensures ParseRecords(ProcessCell(cell) + t, fields) ==
      AfterRecord(fields + [cell], t)
  {
    ParseFieldOfProcessed(cell, t);
  }

  /** A processed row, followed by a line feed or by nothing, reads back as
    * one record holding exactly the row's cells. */
  lemma {:induction false} ParseRecordsOfRow(row: seq<string>, t: string, fields: seq<string>)
    requires |row| >= 1
    requires t == [] || t[0] == '\n'
    ensures ParseRecords(ProcessRow(row) + t, fields) ==
      AfterRecord(fields + row, t)
    decreases |row|
  {
    if |row| == 1 {
      ParseRecordsOfLastCell(row, t, fields);
    } else {
      ParseRecordsOfRow(row[1..], t, fields + [row[0]]);
      ParseRecordsOfFirstCell(row, t, fields);
    }
  }

  /** The row's only cell ends the record. */
  lemma ParseRecordsOfLastCell(row: seq<string>, t: string, fields: seq<string>)
    requires |row| == 1
    requires t == [] || t[0] == '\n'
    ensures ParseRecords(ProcessRow(row) + t, fields) ==
      AfterRecord(fields + row, t)
  {
    assert fields + [row[0]] == fields + row by {
      assert row == [row[0]];
    }
    assert ProcessRow(row) == ProcessCell(row[0]);
    ParseRecordsEnd(row[0], t, fields);
  }

  /** The row's first cell is read into the record, and the rest of the row
    * is read as the rest of the record. */
  lemma ParseRecordsOfFirstCell(row: seq<string>, t: string, fields: seq<string>)
    requires |row| >= 2
    requires t == [] || t[0] == '\n'
    requires ParseRecords(ProcessRow(row[1..]) + t, fields + [row[0]]) ==
      AfterRecord(fields + [row[0]] + row[1..], t)
    ensures ParseRecords(ProcessRow(row) + t, fields) ==
      AfterRecord(fields + row, t)
  {
    Recons(row, []);
    Assoc(fields, [row[0]], row[1..]);
    ProcessRowCons(row, t);
    ParseRecordsComma(row[0], ProcessRow(row[1..]) + t, fields);
  }

  lemma RowStringsTail(m: seq<seq<string>>)
    requires |m| >= 1
    ensures RowStrings(m)[1..] == RowStrings(m[1..])
  {
  }

  /** Every table whose rows are all non-empty is written losslessly: reading
    * the text back gives the table. */
  lemma {:induction false} ParseRows(m: seq<seq<string>>)
    requires |m| >= 1
    requires forall i :: 0 <= i < |m| ==> |m[i]| >= 1
    ensures ParseRecords(Join(RowStrings(m), "\n"), []) == Some(m)
  {
    if |m| == 1 {
      assert Join(RowStrings(m), "\n") == ProcessRow(m[0]) + [];
      ParseRecordsOfRow(m[0], [], []);
      assert [] + m[0] == m[0];
      assert [m[0]] == m;
    } else {
      var rest := Join(RowStrings(m[1..]), "\n");
      RowStringsTail(m);
      assert Join(RowStrings(m), "\n") == ProcessRow(m[0]) + ("\n" + rest);
      ParseRecordsOfRow(m[0], "\n" + rest, []);
      assert ("\n" + rest)[1..] == rest;
      ParseRows(m[1..]);
      assert [] + m[0] == m[0];
      assert [m[0]] + m[1..] == m;
    }
  }

  /** The CSV text of a table with at least one row, and no empty row, reads
    * back as that table. */
  lemma CsvRoundTrip(m: seq<seq<string>>)
    requires |m| >= 1
    requires forall i :: 0 <= i < |m| ==> |m[i]| >= 1
    ensures ParseCsv(CsvText(m)) == Some(m)
  {
    var text := CsvText(m);
    assert text[1..] == Join(RowStrings(m), "\n");
    ParseRows(m);
  }
}
