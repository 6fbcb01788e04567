# CSV export of an order-history table, in Dafny

This project models the export pipeline of `src/js/csv.ts` and proves what it does:

- **Extraction** (`tableToArrayOfArrays`): copies a rendered table into a matrix of strings, one cell at a time.
- **Cell normalisation**: a cell whose `class` attribute does not contain `azad_numeric_no` is *numeric*. A numeric cell loses one leading currency marker (`£`, `$`, `CAD`, `EUR`, `GBP`) and the spaces after it. Every other cell keeps its text. A missing text becomes `""`.
- **Summary row**: in summary mode the last table row is replaced by a row of spreadsheet formulas, built from the template row at index 2.
- **CSV writing** (`processCell`, `processRow` and the final join): doubles quotes, quotes fields that need it, joins fields and rows, and starts the text with a byte-order mark.
- **Delivery**: saves the text to a file, or relays it to whitelisted browser extensions.

Modules, one per component:

- `Wrappers`: `Option` and `Result`.
- `JsString`: the JavaScript string built-ins the code relies on: first-occurrence search, single-occurrence `replace` with a string pattern, `toString` of a non-negative integer, and `join`.
- `Cells`: the cell record and its normalisation.
- `SummaryRow`: the summary row. This covers the formula templates and the three `replace` calls that fill them. It also covers the loop that uses the `y` flag to put the item count under the first label column.
- `Extraction`: the nested extraction loops, as a method proved against the function `Matrix`.
- `CsvWriter`: cell escaping and the text assembly.
- `CsvReader`: a reader for the dialect the writer produces. It is the reference against which the writer is proved lossless. It is not part of the source.
- `DeliverySelector`: the save/relay/withhold decision, as a pure function. The setting, the session-storage read and the whitelist are parameters.
- `Export`: `download` as a whole, and the worked example of a three-row table.

Behaviour of the code that the model keeps on purpose:

- **Summary mode on a short table.** With fewer than three rows, summary mode reads `rows[2].cells` of an undefined row. That throws. The model returns `Failure(MissingTemplateRow)`. It does not produce a row.
- **Missing `class` attribute.** A cell with no `class` attribute is *not* numeric, because `undefined == -1` is false.
- **Undefined whitelist entries.** The broadcast skips `undefined` whitelist entries.
- **When the writer loses information.** The writer is lossless whenever the table has a row and no row is empty, even for text that contains the byte-order mark. The exception is empty rows. Anywhere in a table, an empty row is written exactly like a row of one empty cell: both become an empty line. So an empty table, a table of one empty row and a table of one empty cell are all written as the bare mark.

Every member is a deterministic function or method of its inputs. So exporting an unchanged table twice gives identical text.

## Model

| member | source | states |
|---|---|---|
| `JsString.IndexOf` | src/js/csv.ts:37 | `search` with the literal pattern `azad_numeric_no`: a found index is the first occurrence; none means the pattern occurs nowhere |
| `JsString.IndexOfFrom` | src/js/csv.ts:37 | the first occurrence at or after a position, or none at or after it |
| `JsString.ReplaceFirst` | src/js/csv.ts:63-66 | `replace` with a string pattern: a string where the pattern occurs nowhere is returned as it is; otherwise the length changes by exactly one pattern swapped for one replacement |
| `JsString.ReplaceFirstAt` | src/js/csv.ts:63-66 | `replace` with a string pattern substitutes exactly the first occurrence, leaving text before and after unchanged |
| `JsString.ReplaceFirstAbsent` | src/js/csv.ts:60-66 | `replace` leaves a string without the pattern (such as `''`) unchanged |
| `JsString.Join` | src/js/csv.ts:84-88 | `join`: `[]` joins to `''`; otherwise the result is as long as the parts plus one separator between each two neighbours, so none is dropped and none added at either end |
| `JsString.Decimal` | src/js/csv.ts:66 | `(rows.length - 1).toString()` is a non-empty string of decimal digits, with no leading zero unless the number is 0 |
| `JsString.DecimalRoundTrip` | src/js/csv.ts:66 | reading the digits of `toString` back gives the number |
| `Cells.StringOrNull` | src/js/csv.ts:13-18 | the result is `''` exactly for null or empty input; otherwise it is the input string |
| `Cells.IsNumeric` | src/js/csv.ts:37 | (the same test recurs at line 53) a cell is numeric exactly when it has a `class` attribute in which `azad_numeric_no` occurs nowhere; a cell without the attribute is not numeric |
| `Cells.MarkerLength` | src/js/csv.ts:38 | the length of the one currency marker the text starts with, 0 exactly when it starts with none |
| `Cells.DropSpaces` | src/js/csv.ts:38 | the ` *` of the pattern: removes a run of spaces, and the rest does not start with a space |
| `Cells.StripCurrency` | src/js/csv.ts:38 | the result is a suffix of the text. Text without a marker is unchanged. Otherwise the text is one marker plus spaces plus the result, and the result does not start with a space |
| `Cells.StripCurrencyOf` | src/js/csv.ts:38 | conversely, marker + any spaces + a rest not starting with a space is stripped to exactly that rest |
| `Cells.StripOneMarker` | src/js/csv.ts:38 | only one marker is removed; a second marker right after it stays |
| `Cells.NormaliseCell` | src/js/csv.ts:37-42 | null text gives `''`. A non-numeric cell, including one with no class attribute, keeps its text. A numeric cell's text is currency-stripped |
| `SummaryRow.ColumnLetter` | src/js/csv.ts:64-65 | the column character is the code of `A` plus `j` |
| `SummaryRow.FillPlaceholders` | src/js/csv.ts:63-66 | the chain of three `replace` calls leaves a text without `{` (such as `''`) unchanged; the fill lemmas below give its result on the two templates |
| `SummaryRow.FillFirstCol` | src/js/csv.ts:63-64 | the first `replace` fills the first `{COL}` of a template |
| `SummaryRow.FillSecondCol` | src/js/csv.ts:65 | the second `replace` fills the second `{COL}`, even when the letter put in first is `{` |
| `SummaryRow.FillLast` | src/js/csv.ts:66 | the third `replace` fills `{LAST}` |
| `SummaryRow.FillTemplate` | src/js/csv.ts:63-66 | the three calls fill both `{COL}` and `{LAST}` of a template |
| `SummaryRow.FillSumTemplate` | src/js/csv.ts:54 | the numeric column's cell is exactly `=SUBTOTAL(109,X2:XN)`, with `X = chr(65+j)` and `N = rows.length-1` |
| `SummaryRow.FillCountTemplate` | src/js/csv.ts:57 | the first label column's cell is exactly `=SUBTOTAL(103, X2:XN) & " items"` |
| `SummaryRow.FillEmpty` | src/js/csv.ts:60 | a later label column's cell stays `''` |
| `SummaryRow.FillCell` | src/js/csv.ts:52-66 | the template chosen for a column fills in to that column's summary cell |
| `SummaryRow.SummaryCell` | src/js/csv.ts:52-62 | the reference definition of one summary cell, which `BuildSummaryRow` and the fill lemmas are proved against: sum under a numeric column, count under the first label column, otherwise `''`. Its contract: the cell is empty exactly under a label column that follows an earlier label column |
| `SummaryRow.SummaryRowOf` | src/js/csv.ts:46-69 | the summary row has one cell per template column |
| `SummaryRow.BuildSummaryRow` | src/js/csv.ts:46-69 | the loop with flag `y` produces exactly the summary row: sum under numeric columns, count under the first label column, `''` under later ones |
| `SummaryRow.FormulaEndings` | src/js/csv.ts:54-60 | of the three cell kinds, only the count formula ends in ` items"` |
| `SummaryRow.ItemCountCell` | src/js/csv.ts:51-61 | a cell holds the item count iff its column is the first non-numeric one. At most one cell does, and one does iff the template has a label column |
| `SummaryRow.SummaryExample` | src/js/csv.ts:52-66 | template label/numeric/label/numeric gives count under `A`, `=SUBTOTAL(109,B2:BN)`, `''`, and a sum under `D` |
| `Extraction.NormaliseRow` | src/js/csv.ts:28-43 | a normalised row has as many cells as its source row |
| `Extraction.NormaliseRows` | src/js/csv.ts:27-45 | one normalised row per source row |
| `Extraction.Matrix` | src/js/csv.ts:24-72 | fails iff summary mode meets fewer than 3 rows. Otherwise it has as many rows as the table. Extracted rows match their source rows cell for cell. In summary mode the last row is the summary row, as long as template row 2 |
| `Extraction.Extract` | src/js/csv.ts:24-72 | the nested push loops (and the throw on a missing row 2) compute `Matrix` |
| `CsvWriter.DoubleQuotes` | src/js/csv.ts:78 | the global quote doubling leaves text without quotes unchanged |
| `CsvWriter.DoubleQuotesChars` | src/js/csv.ts:78-79 | doubling keeps the set of characters, so the doubled text needs quoting exactly when the cell does |
| `CsvWriter.DoubleQuotesAppend` | src/js/csv.ts:78 | doubling distributes over concatenation: each quote is doubled in place, nothing else changes |
| `CsvWriter.DoubleQuotesPaired` | src/js/csv.ts:78 | after doubling, every quote is the first of a `""` pair |
| `CsvWriter.NeedsQuoting` | src/js/csv.ts:79 | `search(/("\|,\|\n)/g) >= 0`: some character of the text is a quote, a comma or a line feed |
| `CsvWriter.ProcessCell` | src/js/csv.ts:74-83 | empty stays empty. A cell with `"`, `,` or LF is quoted with its quotes doubled. Any other cell is returned unchanged |
| `CsvWriter.ProcessCellField` | src/js/csv.ts:74-83 | the result is always a well-formed field: plain, or quoted with every inner quote doubled |
| `CsvWriter.ProcessRow` | src/js/csv.ts:73-85 | the processed cells joined by commas: the empty row is the empty line, and a row with no cell needing quoting is its cells joined by commas unchanged. `ParseRecordsOfRow` proves every non-empty row reads back |
| `CsvWriter.RowStrings` | src/js/csv.ts:87 | one processed line per matrix row, in row order |
| `CsvWriter.CsvText` | src/js/csv.ts:84-88 | the text starts with the byte-order mark |
| `CsvWriter.UndoubleDoubleQuotes` | src/js/csv.ts:78 | halving doubled quotes undoes the doubling |
| `CsvWriter.EscapeRoundTrip` | src/js/csv.ts:74-83 | unquoting and un-doubling a processed cell gives back the cell |
| `CsvWriter.ProcessCellInjective` | src/js/csv.ts:74-83 | distinct cells are written as distinct fields |
| `CsvWriter.EmptyTablesCollide` | src/js/csv.ts:84-88 | the empty table, one empty row and one empty cell are all written as the bare byte-order mark |
| `CsvWriter.EmptyRowCollides` | src/js/csv.ts:84-88 | the empty row and the row of one empty cell are both written as `''`, so replacing an empty row anywhere in a table by `[""]` leaves the text unchanged |
| `CsvReader.ScanQuotedAppend` | src/js/csv.ts:78-80 | a reader of quoted fields consumes a doubled text exactly, halving its quotes, whatever follows it |
| `CsvReader.ParseFieldOfProcessed` | src/js/csv.ts:74-84 | a processed cell before a comma, LF or the end reads back as the cell |
| `CsvReader.ParseRecordsOfRow` | src/js/csv.ts:84 | a processed, comma-joined row reads back as one record of exactly its cells |
| `CsvReader.ParseRows` | src/js/csv.ts:87-88 | LF-joined rows read back as the rows |
| `CsvReader.CsvRoundTrip` | src/js/csv.ts:73-88 | the CSV text of a table with a row and no empty row reads back as that table |
| `DeliverySelector.Defined` | src/js/csv.ts:111-115 | the reference definition of the broadcast's destinations, which `Deliver`, `DefinedMembers` and `DefinedAppend` are stated against: the defined whitelist entries in order, never more than the whitelist, and all of them when none is undefined |
| `DeliverySelector.DefinedMembers` | src/js/csv.ts:111-115 | the broadcast sends to an identifier iff it is a defined whitelist entry |
| `DeliverySelector.DefinedAppend` | src/js/csv.ts:111-115 | the broadcast keeps whitelist order |
| `DeliverySelector.Deliver` | src/js/csv.ts:89-122 | see the delivery cases listed after this table |
| `Export.Download` | src/js/csv.ts:20-123 | fails only when extraction throws. Otherwise it delivers the CSV text of the table's matrix as `Deliver` decides |
| `Export.ExportReadsBack` | src/js/csv.ts:86-88 | the delivered text of a table with no empty row reads back as the extracted matrix |
| `Export.ExampleExport` | src/js/csv.ts:24-88 | header plus `$12.50, Widget` and `$7.25, Gadget` (price column numeric) is written as BOM + `Header1,Header2` LF `12.50,Widget` LF `7.25,Gadget` |

The `Deliver` contract covers these cases:

- When the setting is not `true`, it saves once, to `amazon_order_history.csv`.
- It relays only to defined whitelist entries.
- A whitelisted requester gets exactly one send.
- A requester that is not whitelisted gets nothing.
- With no requester, the destinations are exactly `Defined(whitelist)`: every defined entry, once per entry, in whitelist order. The set of destinations is the set of defined entries.
- A failed lookup sends nothing.

## Left out

- DOM access (`HTMLTableElement`, `rows`, `cells`, `getAttribute`, `textContent`): a table is a sequence of rows of `Cell` records, each holding an optional text and an optional class.
- The regular-expression engine: only the anchored currency pattern, the literal `azad_numeric_no` search and the `"|,|\n` test are modelled, by hand.
- `settings.getBoolean`, `sessionStorage.getItem` and `getRequestingEzpExt`: their results are parameters. The setting is an `Option<bool>`, and the lookup is a requested identifier, `null`, or a rejected read.
- `send_file.send` and `save_file.save`: foreign I/O, modelled only as the calls made (a `Delivery` value). A failing save propagates in the source; that failure is not modelled.
- DeliverySelector.Deliver: lists every destination of the broadcast. If `send_file.send` throws synchronously part-way through `forEach`, the later entries are not sent to. That early stop is not modelled, because `send_file` is not part of this model.
- `console.warn` / `console.error` logging and the unused `ALL` import.
- The contents of `ALLOWED_EXTENSION_IDS`: a parameter sequence, entries optional.
- The `async`/`await` scheduling: the pipeline is modelled as one sequential computation.
- JavaScript strings are UTF-16. The model's strings are sequences of Unicode scalar values. Nothing here depends on the difference, because `£` and every pattern character are single code units.
- SummaryRow.ColumnLetter: requires column index below 55231 (0xD800 - 65). Beyond that, `String.fromCharCode` yields lone surrogates and later wraps modulo 65536, which Dafny characters cannot hold.
- SummaryRow.BuildSummaryRow: requires a template row of at most 55231 cells, for the same reason.
- Extraction.Matrix: in summary mode, requires template row 2 to have at most 55231 cells, for the same reason.
- Extraction.Extract: the same column bound as `Matrix`.
- Export.Download: the same column bound as `Matrix`.
- CsvReader.CsvRoundTrip: holds only for tables with a row and no empty row. The source writes an empty row exactly like a row of one empty cell (see `EmptyRowCollides`), and the empty table like the table of one empty row.
- Export.ExportReadsBack: the same restriction as `CsvRoundTrip`, for the same reason.
