/** The spreadsheet row that replaces the table's last row in summary mode:
  * a `SUBTOTAL(109, ...)` sum under every numeric column, a
  * `SUBTOTAL(103, ...) & " items"` count under the first label column, and
  * empty cells under the other label columns. Column classification is read
  * from the template row, index 2 of the table. */
module SummaryRow {
  import opened Wrappers
  import opened JsString
  import opened Cells

  /** The range `{COL}2:{COL}{LAST}` that both formula templates share. */
  const RangeTemplate: string := "{COL}2:{COL}{LAST}"
  /** `'=SUBTOTAL(109,{COL}2:{COL}{LAST})'`. */
  const SumTemplate: string := "=SUBTOTAL(109," + RangeTemplate + ")"
  /** `'=SUBTOTAL(103, {COL}2:{COL}{LAST}) & " items"'`. */
  const CountTemplate: string := "=SUBTOTAL(103, " + RangeTemplate + ") & \" items\""
  const ColPlaceholder: string := "{COL}"
  const LastPlaceholder: string := "{LAST}"

  /** `String.fromCharCode('A'.charCodeAt(0) + j)` is a valid Unicode scalar
    * value, without wrap-around, for every column below this bound. */
  const ColumnLimit: nat := 0xD800 - 65

  /** The column letter: `A` for column 0, `B` for column 1, ... and, past
    * `Z`, whatever character follows (there are no two-letter columns). */
  function ColumnLetter(j: nat): (c: char)
    requires j < ColumnLimit
    ensures c as int == 'A' as int + j
  {
    (65 + j) as char
  }

  /** The formula summing column `col` from row 2 to row `last`. */
  function SumFormula(col: char, last: nat): string
  {
    "=SUBTOTAL(109," + [col] + "2:" + [col] + Decimal(last) + ")"
  }

  /** The formula counting the visible entries of column `col`, labelled. */
  function CountFormula(col: char, last: nat): string
  {
    "=SUBTOTAL(103, " + [col] + "2:" + [col] + Decimal(last) + ") & \" items\""
  }

  /** The three `replace` calls applied to every summary cell. */
  function FillPlaceholders(x: string, j: nat, last: nat): (r: string)
    requires j < ColumnLimit
    ensures '{' !in x ==> r == x
  {
    var col := [ColumnLetter(j)];
    NoBraceNoPlaceholder(x, ColPlaceholder);
    NoBraceNoPlaceholder(x, LastPlaceholder);
    ReplaceFirst(ReplaceFirst(ReplaceFirst(x, ColPlaceholder, col), ColPlaceholder, col),
                 LastPlaceholder, Decimal(last))
  }

  /** A text without `{` holds no placeholder. */
  lemma NoBraceNoPlaceholder(x: string, pat: string)
    requires |pat| >= 1 && pat[0] == '{'
    ensures '{' !in x ==> forall k :: 0 <= k ==> !OccursAt(x, pat, k)
  {
    if '{' !in x {
      forall k | 0 <= k ensures !OccursAt(x, pat, k) {
        if k + |pat| <= |x| {
          assert x[k] in x;
          assert x[k..k + |pat|][0] == x[k];
        }
      }
    }
  }

  /** No occurrence of `pat` starts inside `p`, checked one character (or two)
    * at a time. */
  lemma NoOccurrenceIn(p: string, pat: string, t: string)
    requires |pat| >= 2
    requires forall k :: 0 <= k < |p| ==> p[k] != pat[0] || (p + pat)[k + 1] != pat[1]
    ensures forall k :: 0 <= k < |p| ==> !OccursAt(p + pat + t, pat, k)
  {
    forall k | 0 <= k < |p| ensures !OccursAt(p + pat + t, pat, k) {
      var s := p + pat + t;
      assert s[k] == p[k] && s[k + 1] == (p + pat)[k + 1];
      assert k + |pat| <= |s| ==> s[k..k + |pat|][0] == s[k] && s[k..k + |pat|][1] == s[k + 1];
    }
  }

  /** The first `replace` fills the first `{COL}` of a template
    * `head{COL}2:{COL}{LAST}tail`. */
  lemma FillFirstCol(head: string, tail: string, c: char)
    requires '{' !in head
    ensures ReplaceFirst(head + "{COL}2:{COL}{LAST}" + tail, ColPlaceholder, [c])
         == head + [c] + "2:{COL}{LAST}" + tail
  {
    var t0 := "2:{COL}{LAST}" + tail;
    assert head + "{COL}2:{COL}{LAST}" + tail == head + ColPlaceholder + t0;
    forall k | 0 <= k < |head| ensures head[k] != '{' { assert head[k] in head; }
    NoOccurrenceIn(head, ColPlaceholder, t0);
    ReplaceFirstAt(head, ColPlaceholder, [c], t0);
    assert head + [c] + t0 == head + [c] + "2:{COL}{LAST}" + tail;
  }

  /** The second `replace` fills the second `{COL}`: the letter put in by the
    * first cannot start an earlier `{COL}`, even when it is `{`, because a
    * `2` follows it. */
  lemma FillSecondCol(head: string, tail: string, c: char)
    requires '{' !in head
    ensures ReplaceFirst(head + [c] + "2:{COL}{LAST}" + tail, ColPlaceholder, [c])
         == head + [c] + "2:" + [c] + "{LAST}" + tail
  {
    var p1 := head + [c] + "2:";
    var t1 := "{LAST}" + tail;
    assert head + [c] + "2:{COL}{LAST}" + tail == p1 + ColPlaceholder + t1;
    forall k | 0 <= k < |p1| ensures p1[k] != '{' || (p1 + ColPlaceholder)[k + 1] != 'C' {
      if k < |head| {
        assert p1[k] == head[k] && head[k] in head;
      } else if k == |head| {
        assert (p1 + ColPlaceholder)[k + 1] == '2';
      } else {
        assert p1[k] == "2:"[k - |head| - 1];
      }
    }
    NoOccurrenceIn(p1, ColPlaceholder, t1);
    ReplaceFirstAt(p1, ColPlaceholder, [c], t1);
    assert p1 + [c] + t1 == head + [c] + "2:" + [c] + "{LAST}" + tail;
  }

  /** The third `replace` fills `{LAST}`; neither letter can start an
    * earlier `{LAST}`. */
  lemma FillLast(head: string, tail: string, c: char, d: string)
    requires '{' !in head
    ensures ReplaceFirst(head + [c] + "2:" + [c] + "{LAST}" + tail, LastPlaceholder, d)
         == head + [c] + "2:" + [c] + d + tail
  {
    var p2 := head + [c] + "2:" + [c];
    assert head + [c] + "2:" + [c] + "{LAST}" + tail == p2 + LastPlaceholder + tail;
    forall k | 0 <= k < |p2| ensures p2[k] != '{' || (p2 + LastPlaceholder)[k + 1] != 'L' {
      if k < |head| {
        assert p2[k] == head[k] && head[k] in head;
      } else if k == |head| {
        assert (p2 + LastPlaceholder)[k + 1] == '2';
      } else if k < |head| + 3 {
        assert p2[k] == "2:"[k - |head| - 1];
      } else {
        assert (p2 + LastPlaceholder)[k + 1] == '{';
      }
    }
    NoOccurrenceIn(p2, LastPlaceholder, tail);
    ReplaceFirstAt(p2, LastPlaceholder, d, tail);
  }

  /** The three `replace` calls on a template `head{COL}2:{COL}{LAST}tail`
    * fill both `{COL}` placeholders and `{LAST}`, although each call fills
    * only one occurrence. */
  lemma FillTemplate(head: string, tail: string, j: nat, last: nat)
    requires j < ColumnLimit
    requires '{' !in head
    ensures FillPlaceholders(head + RangeTemplate + tail, j, last)
         == head + [ColumnLetter(j)] + "2:" + [ColumnLetter(j)] + Decimal(last) + tail
  {
    var c := ColumnLetter(j);
    FillFirstCol(head, tail, c);
    FillSecondCol(head, tail, c);
    FillLast(head, tail, c, Decimal(last));
  }

  /** The empty cell has nothing to fill. */
  lemma FillEmpty(j: nat, last: nat)
    requires j < ColumnLimit
    ensures FillPlaceholders("", j, last) == ""
  {
    assert '{' !in "";
  }

  /** Both `{COL}` placeholders of the sum template are filled, even though
    * each `replace` call fills only one, and so is `{LAST}`. */
  lemma FillSumTemplate(j: nat, last: nat)
    requires j < ColumnLimit
    ensures FillPlaceholders(SumTemplate, j, last) == SumFormula(ColumnLetter(j), last)
  {
    FillTemplate("=SUBTOTAL(109,", ")", j, last);
  }

  /** The same for the item-count template. */
  lemma FillCountTemplate(j: nat, last: nat)
    requires j < ColumnLimit
    ensures FillPlaceholders(CountTemplate, j, last) == CountFormula(ColumnLetter(j), last)
  {
    FillTemplate("=SUBTOTAL(103, ", ") & \" items\"", j, last);
  }

  /** Every column before `j` of the template is numeric. */
  predicate AllNumericBefore(template: seq<Cell>, j: nat)
    requires j <= |template|
  {
    forall k :: 0 <= k < j ==> IsNumeric(template[k])
  }

  lemma AllNumericBeforeNext(template: seq<Cell>, j: nat)
    requires j < |template|
    ensures AllNumericBefore(template, j + 1) <==> AllNumericBefore(template, j) && IsNumeric(template[j])
  {
  }

  /** The summary cell under column `j`. */
  function SummaryCell(template: seq<Cell>, j: nat, last: nat): (r: string)
    requires j < |template| <= ColumnLimit
    ensures r == "" <==> !IsNumeric(template[j]) && !AllNumericBefore(template, j)
  {
    var col := ColumnLetter(j);
    if IsNumeric(template[j]) then SumFormula(col, last)
    else if AllNumericBefore(template, j) then CountFormula(col, last)
    else ""
  }

  /** The summary row for a template row and the 1-based number `last` of the
    * last data row. */
  function SummaryRowOf(template: seq<Cell>, last: nat): (r: seq<string>)
    requires |template| <= ColumnLimit
    ensures |r| == |template|
  {
    seq(|template|, j requires 0 <= j < |template| => SummaryCell(template, j, last))
  }

  /** The template chosen for column `j` fills in to its summary cell. */
  lemma FillCell(template: seq<Cell>, j: nat, last: nat)
    requires j < |template| <= ColumnLimit
    ensures FillPlaceholders(TemplateFor(template, j), j, last) == SummaryCell(template, j, last)
  {
    if IsNumeric(template[j]) {
      FillSumTemplate(j, last);
    } else if AllNumericBefore(template, j) {
      FillCountTemplate(j, last);
    } else {
      FillEmpty(j, last);
    }
  }

  /** The unfilled text the loop picks for column `j`. */
  function TemplateFor(template: seq<Cell>, j: nat): string
    requires j < |template|
  {
    if IsNumeric(template[j]) then SumTemplate
    else if AllNumericBefore(template, j) then CountTemplate
    else ""
  }

  /** The loop of lines 46-69: one cell per template column, with `y`
    * remembering whether a label column has been seen yet; `rowCount` is
    * `rows.length`. */
  method BuildSummaryRow(template: seq<Cell>, rowCount: nat) returns (cellArray: seq<string>)
    requires rowCount >= 1
    requires |template| <= ColumnLimit
    ensures cellArray == SummaryRowOf(template, rowCount - 1)
  {
    var last: nat := rowCount - 1;
    cellArray := [];
    var x: string := "";
    var y := true;
    var j := 0;
    while j < |template|
      invariant 0 <= j <= |template|
      invariant y == AllNumericBefore(template, j)
      invariant |cellArray| == j
      invariant forall k :: 0 <= k < j ==> cellArray[k] == SummaryCell(template, k, last)
    {
      AllNumericBeforeNext(template, j);
      if IsNumeric(template[j]) {
        x := SumTemplate;
      } else {
        if y {
          x := CountTemplate;
          y := false;
        } else {
          x := "";
        }
      }
      assert x == TemplateFor(template, j);
      FillCell(template, j, last);
      x := FillPlaceholders(x, j, last);
      AppendCell(template, last, cellArray, x);
      cellArray := cellArray + [x];
      j := j + 1;
    }
    SummaryRowOfCells(template, last, cellArray);
  }

  /** One more correct cell extends a correct prefix of the summary row. */
  lemma AppendCell(template: seq<Cell>, last: nat, cells: seq<string>, x: string)
    requires |cells| < |template| <= ColumnLimit
    requires forall k :: 0 <= k < |cells| ==> cells[k] == SummaryCell(template, k, last)
    requires x == SummaryCell(template, |cells|, last)
    ensures forall k :: 0 <= k < |cells| + 1 ==> (cells + [x])[k] == SummaryCell(template, k, last)
  {
  }

  lemma SummaryRowOfCells(template: seq<Cell>, last: nat, cells: seq<string>)
    requires |cells| == |template| <= ColumnLimit
    requires forall k :: 0 <= k < |cells| ==> cells[k] == SummaryCell(template, k, last)
    ensures cells == SummaryRowOf(template, last)
  {
  }

  /** The cell text ends in ` items"`, as only the count formula does. */
  predicate CountsItems(s: string)
  {
    |s| >= 7 && s[|s| - 7..] == " items\""
  }

  lemma FormulaEndings(col: char, last: nat)
    ensures CountsItems(CountFormula(col, last))
    ensures !CountsItems(SumFormula(col, last))
    ensures !CountsItems("")
  {
    var cf := CountFormula(col, last);
    assert cf == "=SUBTOTAL(103, " + [col] + "2:" + [col] + Decimal(last) + ") & \"" + " items\"";
    assert cf[|cf| - 7..] == " items\"";
    var sf := SumFormula(col, last);
    assert sf[|sf| - 1] == ')';
  }

  /** Exactly the first label column of the template carries the item count:
    * a cell counts items if and only if its column is the first non-numeric
    * one, so at most one does, and one does whenever the template has a
    * label column at all. */
  lemma ItemCountCell(template: seq<Cell>, last: nat)
    requires |template| <= ColumnLimit
    ensures forall j :: 0 <= j < |template| ==>
      (CountsItems(SummaryRowOf(template, last)[j]) <==>
       !IsNumeric(template[j]) && AllNumericBefore(template, j))
    ensures forall j, k :: 0 <= j < k < |template| && CountsItems(SummaryRowOf(template, last)[j]) ==>
      !CountsItems(SummaryRowOf(template, last)[k])
    ensures (exists j :: 0 <= j < |template| && CountsItems(SummaryRowOf(template, last)[j])) <==>
      (exists j :: 0 <= j < |template| && !IsNumeric(template[j]))
  {
    var r := SummaryRowOf(template, last);
    forall j | 0 <= j < |template|
      ensures CountsItems(r[j]) <==> !IsNumeric(template[j]) && AllNumericBefore(template, j)
    {
      FormulaEndings(ColumnLetter(j), last);
    }
    if j0 :| 0 <= j0 < |template| && !IsNumeric(template[j0]) {
      var j := FirstLabel(template, j0);
      assert CountsItems(r[j]);
    }
  }

  /** The first label column at or before a given one. */
  lemma FirstLabel(template: seq<Cell>, j0: nat) returns (j: nat)
    requires j0 < |template| && !IsNumeric(template[j0])
    ensures j <= j0 && !IsNumeric(template[j]) && AllNumericBefore(template, j)
  {
    j := 0;
    while IsNumeric(template[j])
      invariant j <= j0
      invariant AllNumericBefore(template, j)
      decreases j0 - j
    {
      j := j + 1;
    }
  }

  /** Label, numeric, label, numeric: the first column counts items, the
    * second sums as `=SUBTOTAL(109,B2:B<last>)`, the third is empty and the
    * fourth sums column `D`. */
  lemma SummaryExample(texts: seq<Option<string>>, last: nat)
    requires |texts| == 4
    ensures var template := [Cell(texts[0], Some("azad_numeric_no")), Cell(texts[1], Some("azad_numeric")),
                             Cell(texts[2], Some("azad_numeric_no")), Cell(texts[3], Some("azad_numeric"))];
            var r := SummaryRowOf(template, last);
            r == ["=SUBTOTAL(103, " + "A" + "2:" + "A" + Decimal(last) + ") & \" items\"",
                  "=SUBTOTAL(109," + "B" + "2:" + "B" + Decimal(last) + ")",
                  "",
                  "=SUBTOTAL(109," + "D" + "2:" + "D" + Decimal(last) + ")"]
  {
    var template := [Cell(texts[0], Some("azad_numeric_no")), Cell(texts[1], Some("azad_numeric")),
                     Cell(texts[2], Some("azad_numeric_no")), Cell(texts[3], Some("azad_numeric"))];
    assert OccursAt(template[0].cls.value, NumericExemptMarker, 0);
    assert OccursAt(template[2].cls.value, NumericExemptMarker, 0);
    assert IsNumeric(template[1]) && IsNumeric(template[3]);
    assert AllNumericBefore(template, 0);
    assert !AllNumericBefore(template, 2);
    assert [ColumnLetter(0)] == "A" && [ColumnLetter(1)] == "B" && [ColumnLetter(3)] == "D";
  }
}
