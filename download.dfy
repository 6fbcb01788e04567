/** `download`: extract the table, write it as CSV text, and deliver it. */
module Export {
  import opened Wrappers
  import opened JsString
  import opened Cells
  import opened Extraction
  import opened CsvWriter
  import opened CsvReader
  import opened DeliverySelector

  /** The export of lines 20-123, with the setting, the session-storage read
    * and the whitelist passed in. It fails only where extraction throws;
    * otherwise the text written is that of the table's matrix. */
  method Download(table: seq<seq<Cell>>, sumsForSpreadsheet: bool, ezpMode: Option<bool>,
                  peer: PeerLookup, whitelist: seq<Option<string>>)
    returns (r: Result<Delivery, ExportError>)
    requires SummaryColumnsFit(table, sumsForSpreadsheet)
    ensures r.Failure? <==> sumsForSpreadsheet && |table| < 3
    ensures r.Success? ==>
      r.value == Deliver(CsvText(Matrix(table, sumsForSpreadsheet).value), ezpMode, peer, whitelist)
  {
    var cellStrings := Extract(table, sumsForSpreadsheet);
    if cellStrings.Failure? {
      return Failure(cellStrings.error);
    }
    var csvFile := CsvText(cellStrings.value);
    r := Success(Deliver(csvFile, ezpMode, peer, whitelist));
  }

  /** What is delivered, when the table has rows and none of them is empty,
    * reads back as exactly the extracted matrix. */
  lemma ExportReadsBack(table: seq<seq<Cell>>, sumsForSpreadsheet: bool)
    requires SummaryColumnsFit(table, sumsForSpreadsheet)
    requires |table| >= 1 && forall i :: 0 <= i < |table| ==> |table[i]| >= 1
    requires Matrix(table, sumsForSpreadsheet).Success?
    ensures ParseCsv(CsvText(Matrix(table, sumsForSpreadsheet).value))
         == Some(Matrix(table, sumsForSpreadsheet).value)
  {
    var m := Matrix(table, sumsForSpreadsheet).value;
    forall i | 0 <= i < |m| ensures |m[i]| >= 1 {
      if sumsForSpreadsheet && i == |table| - 1 {
        assert |m[i]| == |table[2]|;
      } else {
        assert |m[i]| == |table[i]|;
      }
    }
    CsvRoundTrip(m);
  }

  const Numeric: Option<string> := Some("azad_numeric")
  const Label: Option<string> := Some("azad_numeric_no")

  /** A header and two priced items, the price column numeric. */
  function ExampleTable(): seq<seq<Cell>>
  {
    [ [Cell(Some("Header1"), Numeric), Cell(Some("Header2"), Label)],
      [Cell(Some("$12.50"), Numeric), Cell(Some("Widget"), Label)],
      [Cell(Some("$7.25"), Numeric), Cell(Some("Gadget"), Label)] ]
  }

  lemma PlainRow(a: string, b: string)
    requires !NeedsQuoting(a) && !NeedsQuoting(b)
    ensures ProcessRow([a, b]) == a + "," + b
  {
    var cells := ProcessCells([a, b]);
    assert cells == [a, b];
    assert cells[1..] == [b];
    assert Join(cells, ",") == a + "," + Join([b], ",");
  }

  lemma JoinThree(x: string, y: string, z: string, sep: string)
    ensures Join([x, y, z], sep) == x + sep + y + sep + z
  {
    assert [x, y, z][1..] == [y, z];
    assert [y, z][1..] == [z];
    assert Join([y, z], sep) == y + sep + z;
    assert Join([x, y, z], sep) == x + sep + (y + sep + z);
    Assoc(x + sep, y + sep, z);
    Assoc(x + sep, y, sep);
  }

  lemma NumericExample(text: string)
    ensures NormaliseCell(Cell(Some(text), Numeric)) == StripCurrency(text)
  {
    assert IsNumeric(Cell(Some(text), Numeric));
  }

  lemma LabelExample(text: string)
    ensures NormaliseCell(Cell(Some(text), Label)) == text
  {
    assert OccursAt(Label.value, NumericExemptMarker, 0);
    assert !IsNumeric(Cell(Some(text), Label));
  }

  lemma DollarStripped(digits: string)
    requires digits != [] && digits[0] != ' '
    ensures StripCurrency("$" + digits) == digits
  {
    StripCurrencyOf("$", 0, digits);
    assert "$" + Spaces(0) + digits == "$" + digits;
  }

  lemma HeaderKept()
    ensures StripCurrency("Header1") == "Header1"
  {
    assert MarkerLength("Header1") == 0;
  }

  lemma PricesStripped()
    ensures StripCurrency("$12.50") == "12.50"
    ensures StripCurrency("$7.25") == "7.25"
  {
    assert "$12.50" == "$" + "12.50";
    assert "$7.25" == "$" + "7.25";
    DollarStripped("12.50");
    DollarStripped("7.25");
  }

  lemma ExampleRows()
    ensures NormaliseRow(ExampleTable()[0]) == ["Header1", "Header2"]
    ensures NormaliseRow(ExampleTable()[1]) == ["12.50", "Widget"]
    ensures NormaliseRow(ExampleTable()[2]) == ["7.25", "Gadget"]
  {
    HeaderKept();
    PricesStripped();
    var t := ExampleTable();
    ExampleRow("Header1", "Header1", "Header2");
    assert t[0] == [Cell(Some("Header1"), Numeric), Cell(Some("Header2"), Label)];
    ExampleRow("$12.50", "12.50", "Widget");
    ExampleRow("$7.25", "7.25", "Gadget");
  }

  lemma ExampleRow(price: string, stripped: string, name: string)
    requires StripCurrency(price) == stripped
    ensures NormaliseRow([Cell(Some(price), Numeric), Cell(Some(name), Label)]) == [stripped, name]
  {
    NumericExample(price);
    LabelExample(name);
  }

  lemma ExampleMatrix()
    ensures Matrix(ExampleTable(), false)
         == Success([["Header1", "Header2"], ["12.50", "Widget"], ["7.25", "Gadget"]])
  {
    var t := ExampleTable();
    ExampleRows();
    var m := NormaliseRows(t);
    assert m == [m[0], m[1], m[2]];
  }

  lemma RowStringsThree(r0: seq<string>, r1: seq<string>, r2: seq<string>)
    ensures RowStrings([r0, r1, r2]) == [ProcessRow(r0), ProcessRow(r1), ProcessRow(r2)]
  {
  }

  /** A three-line, two-column matrix without special characters is written
    * as its cells, commas and line feeds after the byte-order mark. */
  lemma ThreeLineText(a1: string, b1: string, a2: string, b2: string, a3: string, b3: string)
    requires !NeedsQuoting(a1) && !NeedsQuoting(b1)
    requires !NeedsQuoting(a2) && !NeedsQuoting(b2)
    requires !NeedsQuoting(a3) && !NeedsQuoting(b3)
    ensures CsvText([[a1, b1], [a2, b2], [a3, b3]])
         == [Bom] + ((a1 + "," + b1) + "\n" + (a2 + "," + b2) + "\n" + (a3 + "," + b3))
  {
    PlainRow(a1, b1);
    PlainRow(a2, b2);
    PlainRow(a3, b3);
    RowStringsThree([a1, b1], [a2, b2], [a3, b3]);
    JoinThree(a1 + "," + b1, a2 + "," + b2, a3 + "," + b3, "\n");
  }

  /** Without a summary row the example is written with the dollar signs
    * stripped from the price column and the labels untouched: the text is
    * `\ufeffHeader1,Header2\n12.50,Widget\n7.25,Gadget`. */
  lemma ExampleExport()
    ensures Matrix(ExampleTable(), false).Success?
    ensures CsvText(Matrix(ExampleTable(), false).value)
         == [Bom] + (("Header1" + "," + "Header2") + "\n" + ("12.50" + "," + "Widget")
                     + "\n" + ("7.25" + "," + "Gadget"))
  {
    ExampleMatrix();
    ThreeLineText("Header1", "Header2", "12.50", "Widget", "7.25", "Gadget");
  }
}
