# Populate — a Dafny model of the record extraction and output naming

Populate fills a text template once per data row of an Excel worksheet.
Row 1 of the first worksheet holds the column headers; every later row
becomes a record mapping each header to the text of the cell under it. Each
record is rendered through a Mustache template and written to its own file.
The file is named `output-<n>.<ext>` after the record's 1-based position,
unless a filename column is configured and the record has a non-empty
value there; then the file is named `<value>.<ext>`.

The model covers `Program.cs`, the only file with logic:

- `wrappers.dfy` (`Wrappers`): `Option` stands for a nullable reference,
  `Result` for an operation that returns a value or throws.
- `worksheet.dfy` (`Worksheet`): the worksheet as an abstract grid. It has an
  optional used range `Dimension(rows, columns)` and cells addressed from
  (1, 1). Each cell is `Null`, `Str(s)` or `Other(v)`. It also defines
  `CellText` (Convert.ToString) and `IsBlank` (string.IsNullOrWhiteSpace,
  with the white-space set of char.IsWhiteSpace).
- `extraction.dfy` (`Extraction`): ReadExcelAsync. `Extract` is the
  specification: what the function returns or throws for a worksheet.
  `ReadExcel` with its loops `ReadHeaders`, `ReadRows` and `ReadRow` is the
  imperative version, and each method is proved against that specification. In `ReadRow`, the source's
  "No header found" throw is an `assert false`. This proves the branch
  cannot be taken, because the header map binds every column 1..Columns.
- `naming.dfy` (`Naming`): the decimal text of the running index, the
  default name and the override by the filename column.
- `pipeline.dfy` (`Pipeline`): RunAsync. The input checks run in their order,
  then extraction, then the render-and-name loop `RenderAll`. `Persist`
  gives the output directory after the writes, where a later write to the
  same name replaces the earlier one. The file also works the examples of a
  one-row sheet, a blank header cell and a header-only sheet.

Behaviour worth noting:

- Repeated headers: `Dictionary.Add` throws when a row meets a header a
  second time. So extraction fails once a data row exists (`DuplicateKey`);
  with no data row, repeated headers are accepted.
- Override value: the test is `string.IsNullOrEmpty`, so a filename value
  of spaces only is used as the file name.
- Input checks: a failed check prints a message and returns without
  setting an exit code. `Outcome` records which check stopped the run.

## Model

| member | source | states |
|---|---|---|
| Extraction.FirstInvalid | Program.cs:112-120 | the column reported is the first, from the left, whose header cell is not a non-blank string; every column before it is valid; none is reported exactly when all are valid |
| Extraction.FirstRepeat | Program.cs:134-142 | the position at which `row.Add` first meets a header already added; the headers before it are distinct; none exactly when all headers are distinct |
| Extraction.ReadExcel | Program.cs:105-148 | the method returns exactly what the specification `Extract` gives: the empty-worksheet failure, the first header failure, the `Count == 0` failure, the duplicate-key failure, or the Rows−1 records in row order |
| Extraction.ReadHeaders | Program.cs:110-123 | fails with row 1 and the first invalid column; otherwise the header map has exactly the keys 1..Columns, holds Columns entries, and binds each column to its header text |
| Extraction.ReadRows | Program.cs:128-148 | the loop over rows 2..Rows gives, in row order, the record of each row, or fails with the duplicate key on the first data row; with fewer than two rows it gives no record |
| Extraction.ReadRow | Program.cs:132-143 | with a header for every column, the row is the record of all columns, or the `Dictionary.Add` failure naming the first repeated header; the "No header found" branch is proved unreachable |
| Extraction.ExtractEmptyWorksheet | Program.cs:105-108 | a worksheet without a used range, or with no columns, fails with "Worksheet is empty" |
| Extraction.ExtractFirstInvalidHeader | Program.cs:112-120 | when column c is the first invalid header cell, extraction fails naming row 1 and column c |
| Extraction.ExtractIgnoresCellsAfterInvalidHeader | Program.cs:112-120 | no cell after the first invalid header is examined: worksheets that agree on row 1 up to that column fail identically |
| Extraction.ExtractSucceedsIff | Program.cs:105-148 | extraction succeeds exactly when there is a used range of at least one column, every header is valid, and, if a data row exists, no two columns share a header |
| Extraction.ExtractRecords | Program.cs:128-148 | on success there is one record per sheet row 2..Rows, in row order; in each, the header of column c maps to the text of cell (row, c), and a missing value maps to "" |
| Extraction.ExtractRecordKeys | Program.cs:134-143 | every key of every record is the header of some column, so with the previous row a record's key set is exactly the header set |
| Extraction.ExtractDuplicateHeaders | Program.cs:130-142 | two columns with the same header and at least one data row make extraction fail with a duplicate key that is one of the repeated headers |
| Extraction.ExtractHeaderOnly | Program.cs:122-130 | with valid headers and no data row, extraction succeeds with no records, even when headers repeat |
| Extraction.RecordOfAt | Program.cs:134-143 | in a row built with distinct headers, each column's header holds the text of that column's cell |
| Naming.DecimalString | Program.cs:76 | the index is written as a non-empty string of decimal digits without a leading zero ("0" for zero), the text string interpolation gives |
| Naming.DecimalRoundTrip | Program.cs:76 | reading back the decimal text of an index gives the index |
| Naming.DefaultFileNameInjective | Program.cs:76 | two positions with the same default file name are the same position |
| Naming.OutputFileNameChoice | Program.cs:76-83 | the name is `<value>.<ext>` exactly when the filename column is set and non-empty, the record has it, and its value is non-empty (spaces count as non-empty); otherwise it is `output-<n>.<ext>` |
| Naming.OverrideIgnoresIndex | Program.cs:78-83 | an overriding value names the file whatever the record's position |
| Naming.DefaultNamesDistinct | Program.cs:68-83 | records at different positions that do not override get different file names |
| Pipeline.RenderAll | Program.cs:68-90 | the loop yields exactly one write per record, in record order; the i-th is named from index i+1 (or its override) and holds the rendering of the i-th record |
| Pipeline.PersistLastWriteWins | Program.cs:85-89 | after the writes, a file holds the content of the last write to its name (names compared exactly) |
| Pipeline.PersistUntouched | Program.cs:85-89 | a file no write names keeps its previous content, or stays absent |
| Pipeline.DefaultRunKeepsEveryRecord | Program.cs:68-89 | when no record overrides its name, file `output-<n>.<ext>` ends up holding the rendering of the n-th record, so nothing is overwritten |
| Pipeline.Run | Program.cs:25-90 | the checks run in the source's order (template file, Excel file, output directory, empty template), an extraction error ends the run, and a completed run performs exactly Rows−1 writes in record order |
| Pipeline.HelloWorldRun | Program.cs:68-83 | header `Name` over `World` gives one record, written to `output-1.txt`, or to `World.txt` when `Name` is the filename column |
| Pipeline.BlankHeaderRun | Program.cs:112-120 | a blank header in column 2 fails naming row 1, column 2 |
| Pipeline.HeaderOnlyRun | Program.cs:128-148 | a header row alone gives no record and no error |

## Left out

- Command-line parsing and the options class: the options are parameters. The extension defaults to `txt` in the options.
- File and directory existence checks and reading the template file: these become the booleans and the template text of `Inputs`.
- Writing files: `Path.Combine` and `File.WriteAllTextAsync` are modelled as the ordered list of writes and the map `Persist` builds from it. Write failures and names that leave the output directory are not modelled.
- File names are compared exactly, as on a case-sensitive file system: on a case-insensitive one (`World.txt` and `world.txt` are one file) `Persist` and its lemmas do not describe the directory.
- Console messages (the record count, each saved path, completion) are not modelled.
- Opening the workbook with EPPlus and selecting the first worksheet: the model starts from the grid. The position of the used range is not modelled, because the source uses only its row and column counts and reads from A1.
- The cell address (A1 notation) in error messages is not modelled, and neither is the exact message text. Errors carry the row and the column.
- Mustache: compiling the template (extension tags allowed, new lines removed) and its compile errors are left out. Rendering is the function parameter `render`.
- Convert.ToString of numbers, dates and booleans depends on the culture. It is the function parameter `culture`; only the null and string cases are fixed.
- Record key order: a record is a `map`, so the insertion order of the source's dictionary is not modelled.
- The running index is a 32-bit `int` in the source; the model uses `nat`, so wrap-around after 2^31−1 records is not modelled.
- The async machinery: records are processed strictly one after another, and the model keeps that order.
