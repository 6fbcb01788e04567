/** `tableToArrayOfArrays`: the table, row by row and cell by cell, as a
  * matrix of normalised strings; in summary mode the last row is dropped and
  * the spreadsheet summary row is appended in its place. */
module Extraction {
  import opened Wrappers
  import opened Cells
  import opened SummaryRow

  /** The only way extraction fails: summary mode reads `rows[2].cells`, and
    * on a table with fewer than three rows `rows[2]` is `undefined`, so the
    * property access throws a `TypeError`. */
  datatype ExportError = MissingTemplateRow

  /** The part of the source the model cannot represent: past this many
    * template columns the column character is not a Unicode scalar value. */
  predicate SummaryColumnsFit(rows: seq<seq<Cell>>, sumsForSpreadsheet: bool)
  {
    sumsForSpreadsheet && |rows| >= 3 ==> |rows[2]| <= ColumnLimit
  }

  function NormaliseRow(row: seq<Cell>): (r: seq<string>)
    ensures |r| == |row|
  {
    seq(|row|, j requires 0 <= j < |row| => NormaliseCell(row[j]))
  }

  function NormaliseRows(rows: seq<seq<Cell>>): (r: seq<seq<string>>)
    ensures |r| == |rows|
  {
    seq(|rows|, i requires 0 <= i < |rows| => NormaliseRow(rows[i]))
  }

  /** The matrix the export produces from a table. */
  function Matrix(rows: seq<seq<Cell>>, sumsForSpreadsheet: bool): (res: Result<seq<seq<string>>, ExportError>)
    requires SummaryColumnsFit(rows, sumsForSpreadsheet)
    ensures res.Failure? <==> sumsForSpreadsheet && |rows| < 3
    ensures res.Success? ==> |res.value| == |rows|
    ensures res.Success? ==> forall i :: 0 <= i < |rows| - (if sumsForSpreadsheet then 1 else 0) ==>
      |res.value[i]| == |rows[i]| &&
      forall j :: 0 <= j < |rows[i]| ==> res.value[i][j] == NormaliseCell(rows[i][j])
    ensures res.Success? && sumsForSpreadsheet ==>
      |res.value[|rows| - 1]| == |rows[2]| && res.value[|rows| - 1] == SummaryRowOf(rows[2], |rows| - 1)
  {
    if !sumsForSpreadsheet then Success(NormaliseRows(rows))
    else if |rows| < 3 then Failure(MissingTemplateRow)
    else Success(NormaliseRows(rows[..|rows| - 1]) + [SummaryRowOf(rows[2], |rows| - 1)])
  }

  /** The loops of lines 24-72: push one normalised row per extracted table
    * row, then the summary row in summary mode. */
  method Extract(rows: seq<seq<Cell>>, sumsForSpreadsheet: bool) returns (res: Result<seq<seq<string>>, ExportError>)
    requires SummaryColumnsFit(rows, sumsForSpreadsheet)
    ensures res == Matrix(rows, sumsForSpreadsheet)
  {
    var result: seq<seq<string>> := [];
    var bound := |rows| + (if sumsForSpreadsheet then -1 else 0);
    var i := 0;
    while i < bound
      invariant 0 <= i <= |rows|
      invariant i <= bound || i == 0
      invariant |result| == i
      invariant forall k :: 0 <= k < i ==> result[k] == NormaliseRow(rows[k])
    {
      var cells := rows[i];
      var cellArray: seq<string> := [];
      var j := 0;
      while j < |cells|
        invariant 0 <= j <= |cells|
        invariant |cellArray| == j
        invariant forall k :: 0 <= k < j ==> cellArray[k] == NormaliseCell(cells[k])
      {
        cellArray := cellArray + [NormaliseCell(cells[j])];
        j := j + 1;
      }
      assert cellArray == NormaliseRow(cells);
      result := result + [cellArray];
      i := i + 1;
    }
    if sumsForSpreadsheet {
      if |rows| < 3 {
        return Failure(MissingTemplateRow);
      }
      assert result == NormaliseRows(rows[..|rows| - 1]);
      var summaryRow := BuildSummaryRow(rows[2], |rows|);
      result := result + [summaryRow];
    } else {
      assert result == NormaliseRows(rows);
    }
    res := Success(result);
  }
}
