/** ReadExcelAsync: the header row of the worksheet is validated column by
    column, then every later row becomes a header-keyed record of strings. */
module Extraction {
  import opened Wrappers
  import opened Worksheet

  /** One data row: header name to cell text. */
  type Record = map<string, string>

  /** The exceptions extraction can raise. `DuplicateKey` is the one
      Dictionary.Add throws when a row meets the same header twice. */
  datatype Error =
    | WorksheetEmpty
    | InvalidHeader(row: nat, column: nat)
    | DuplicateKey(key: string)

  // ---------------------------------------------------------------------
  // Specification
  // ---------------------------------------------------------------------

  /** Row 1 of the sheet over columns 1..columns; column c sits at index c - 1. */
  function HeaderRow(sheet: Sheet, columns: nat): seq<Cell>
  {
    seq(columns, i => sheet.At(1, i + 1))
  }

  /** The index of the first cell that is not a valid header, scanning left to right. */
  function FirstInvalid(row: seq<Cell>): (k: Option<nat>)
    ensures k.Some? ==> k.value < |row| && !IsValidHeader(row[k.value])
    ensures k.Some? ==> forall j :: 0 <= j < k.value ==> IsValidHeader(row[j])
    ensures k.None? <==> forall j :: 0 <= j < |row| ==> IsValidHeader(row[j])
  {
    if row == [] then None
    else if !IsValidHeader(row[0]) then Some(0)
    else match FirstInvalid(row[1..])
      case None => None
      case Some(k) => Some(k + 1)
  }

  /** The header names of a header row (cells that are not strings give ""). */
  function HeaderNames(row: seq<Cell>): seq<string>
  {
    seq(|row|, i requires 0 <= i < |row| => if row[i].Str? then row[i].s else "")
  }

  predicate Distinct(hs: seq<string>)
  {
    forall i, j :: 0 <= i < j < |hs| ==> hs[i] != hs[j]
  }

  /** The index of the first name that repeats an earlier one. */
  function FirstRepeat(hs: seq<string>): (k: Option<nat>)
    ensures k.Some? ==> k.value < |hs| && hs[k.value] in hs[..k.value] && Distinct(hs[..k.value])
    ensures k.None? <==> Distinct(hs)
  {
    if hs == [] then None
    else
      var init := hs[..|hs| - 1];
      match FirstRepeat(init)
      case Some(k) =>
        assert init[..k] == hs[..k];
        Some(k)
      case None =>
        if hs[|hs| - 1] in init then Some(|hs| - 1)
        else
          assert forall i, j :: 0 <= i < j < |hs| ==> hs[i] != hs[j] by {
            forall i, j | 0 <= i < j < |hs| ensures hs[i] != hs[j] {
              if j == |hs| - 1 { assert hs[i] == init[i]; }
              else { assert hs[i] == init[i] && hs[j] == init[j]; }
            }
          }
          None
  }

  /** The record that row `rowNo` gets from its first `n` columns, each
      column's header bound in turn to the text of its cell. */
  function RecordOf(sheet: Sheet, hs: seq<string>, rowNo: int, n: nat, culture: Culture): Record
    requires n <= |hs|
  {
    if n == 0 then map[]
    else RecordOf(sheet, hs, rowNo, n - 1, culture)[hs[n - 1] := CellText(sheet.At(rowNo, n), culture)]
  }

  /** What ReadExcelAsync returns or throws for a worksheet. */
  function Extract(sheet: Sheet, culture: Culture): Result<seq<Record>, Error>
  {
    match sheet.dimension
    case None => Failure(WorksheetEmpty)
    case Some(d) =>
      var row1 := HeaderRow(sheet, d.columns);
      match FirstInvalid(row1)
      case Some(k) => Failure(InvalidHeader(1, k + 1))
      case None =>
        if d.columns == 0 then Failure(WorksheetEmpty)
        else ExtractRows(sheet, HeaderNames(row1), d.rows, culture)
  }

  /** The data rows 2..rows once the headers `hs` have been read. */
  function ExtractRows(sheet: Sheet, hs: seq<string>, rows: nat, culture: Culture): Result<seq<Record>, Error>
  {
    if rows < 2 then Success([])
    else
      match FirstRepeat(hs)
      case Some(k) => Failure(DuplicateKey(hs[k]))
      case None => Success(DataRows(sheet, hs, rows - 1, culture))
  }

  /** The records of sheet rows 2..count + 1 over all columns. */
  function DataRows(sheet: Sheet, hs: seq<string>, count: nat, culture: Culture): seq<Record>
  {
    if count == 0 then []
    else DataRows(sheet, hs, count - 1, culture) + [RecordOf(sheet, hs, count + 1, |hs|, culture)]
  }

  // ---------------------------------------------------------------------
  // The method
  // ---------------------------------------------------------------------

  /** ReadExcelAsync after the worksheet has been opened. */
  method ReadExcel(sheet: Sheet, culture: Culture) returns (res: Result<seq<Record>, Error>)
    ensures res == Extract(sheet, culture)
  {
    if sheet.dimension == None {
      return Failure(WorksheetEmpty);
    }
    var dimension := sheet.dimension.value;
    ghost var headerRow := HeaderRow(sheet, dimension.columns);

    var headerResult := ReadHeaders(sheet, dimension.columns);
    if headerResult.Failure? {
      return Failure(headerResult.error);
    }
    var columnNoToHeader := headerResult.value;
    assert FirstInvalid(headerRow).None?;
    if |columnNoToHeader| == 0 {
      return Failure(WorksheetEmpty);
    }

    ghost var headers := HeaderNames(headerRow);
    res := ReadRows(sheet, columnNoToHeader, headers, dimension.rows, dimension.columns, culture);
  }

  /** The records of sheet rows 2..rows (the outer loop of ReadExcelAsync),
      in row order, or the first failure of a row. */
  method ReadRows(sheet: Sheet, columnNoToHeader: map<int, string>, ghost headers: seq<string>,
                  rows: nat, columns: nat, culture: Culture) returns (res: Result<seq<Record>, Error>)
    requires |headers| == columns
    requires forall c :: 1 <= c <= columns ==> c in columnNoToHeader && columnNoToHeader[c] == headers[c - 1]
    ensures res == ExtractRows(sheet, headers, rows, culture)
  {
    var result: seq<Record> := [];
    var rowNo := 2;
    while rowNo <= rows
      invariant 2 <= rowNo && (rowNo <= rows + 1 || rowNo == 2)
      invariant rowNo == 2 ==> result == []
      invariant rowNo > 2 ==> Distinct(headers) && result == DataRows(sheet, headers, rowNo - 2, culture)
    {
      var row := ReadRow(sheet, columnNoToHeader, headers, rowNo, columns, culture);
      if row.Failure? {
        return Failure(row.error);
      }
      result := result + [row.value];
      rowNo := rowNo + 1;
    }
    return Success(result);
  }

  /** The column-to-header map of row 1 (the first loop of ReadExcelAsync):
      fails on the first column, from the left, whose cell is not a valid
      header; otherwise binds every column 1..columns to its header. */
  method ReadHeaders(sheet: Sheet, columns: nat) returns (res: Result<map<int, string>, Error>)
    ensures FirstInvalid(HeaderRow(sheet, columns)).Some? ==>
      res == Failure(InvalidHeader(1, FirstInvalid(HeaderRow(sheet, columns)).value + 1))
    ensures FirstInvalid(HeaderRow(sheet, columns)).None? ==>
      res.Success? && |res.value| == columns &&
      (forall c :: c in res.value <==> 1 <= c <= columns) &&
      (forall c :: 1 <= c <= columns ==> res.value[c] == HeaderNames(HeaderRow(sheet, columns))[c - 1])
  {
    ghost var headerRow := HeaderRow(sheet, columns);
    ghost var names := HeaderNames(headerRow);
    var columnNoToHeader: map<int, string> := map[];
    var columnNo := 1;
    while columnNo <= columns
      invariant 1 <= columnNo <= columns + 1
      invariant forall c :: c in columnNoToHeader <==> 1 <= c < columnNo
      invariant |columnNoToHeader| == columnNo - 1
      invariant forall j :: 0 <= j < columnNo - 1 ==> IsValidHeader(headerRow[j])
      invariant forall c :: 1 <= c < columnNo ==> columnNoToHeader[c] == names[c - 1]
    {
      var cell := sheet.At(1, columnNo);
      assert cell == headerRow[columnNo - 1];
      if cell.Null? || !cell.Str? || IsBlank(cell.s) {
        FirstInvalidAt(headerRow, columnNo - 1);
        return Failure(InvalidHeader(1, columnNo));
      }
      columnNoToHeader := columnNoToHeader[columnNo := cell.s];
      columnNo := columnNo + 1;
    }
    assert FirstInvalid(headerRow).None?;
    return Success(columnNoToHeader);
  }

  /** The record of one data row (the inner loop of ReadExcelAsync): every
      column's header is added with the text of its cell, and adding a
      header a second time fails as Dictionary.Add does. `headers` names
      the header of each column, as the header map binds it. */
  method ReadRow(sheet: Sheet, columnNoToHeader: map<int, string>, ghost headers: seq<string>,
                 rowNo: int, columns: nat, culture: Culture) returns (res: Result<Record, Error>)
    requires |headers| == columns
    requires forall c :: 1 <= c <= columns ==> c in columnNoToHeader && columnNoToHeader[c] == headers[c - 1]
    ensures FirstRepeat(headers).Some? ==> res == Failure(DuplicateKey(headers[FirstRepeat(headers).value]))
    ensures FirstRepeat(headers).None? ==> res == Success(RecordOf(sheet, headers, rowNo, columns, culture))
  {
    var row: Record := map[];
    var columnNo := 1;
    while columnNo <= columns
      invariant 1 <= columnNo <= columns + 1
      invariant Distinct(headers[..columnNo - 1])
      invariant row == RecordOf(sheet, headers, rowNo, columnNo - 1, culture)
    {
      if columnNo !in columnNoToHeader {
        // "No header found for column": the header map binds every column.
        assert false;
      }
      var header := columnNoToHeader[columnNo];
      RecordKeys(sheet, headers, rowNo, columnNo - 1, culture);
      if header in row {
        FirstRepeatAt(headers, columnNo - 1);
        return Failure(DuplicateKey(header));
      }
      DistinctExtend(headers, columnNo - 1);
      row := row[header := CellText(sheet.At(rowNo, columnNo), culture)];
      columnNo := columnNo + 1;
    }
    assert headers[..columns] == headers;
    return Success(row);
  }

  // ---------------------------------------------------------------------
  // Properties of extraction
  // ---------------------------------------------------------------------

  /** A worksheet without a used range, or with a used range of no columns,
      is rejected as empty. */
  lemma ExtractEmptyWorksheet(sheet: Sheet, culture: Culture)
    requires sheet.dimension.None? || sheet.dimension.value.columns == 0
    ensures Extract(sheet, culture) == Failure(WorksheetEmpty)
  {
  }

  /** Header validation is fail-fast from the left: the first column whose
      row-1 cell is missing, not a string or blank is the one reported. */
  lemma ExtractFirstInvalidHeader(sheet: Sheet, culture: Culture, column: nat)
    requires sheet.dimension.Some? && 1 <= column <= sheet.dimension.value.columns
    requires !IsValidHeader(sheet.At(1, column))
    requires forall c :: 1 <= c < column ==> IsValidHeader(sheet.At(1, c))
    ensures Extract(sheet, culture) == Failure(InvalidHeader(1, column))
  {
    FirstInvalidAt(HeaderRow(sheet, sheet.dimension.value.columns), column - 1);
  }

  /** No cell after the first invalid header is examined: two worksheets of
      the same used range that agree on row 1 up to that column give the
      same failure, whatever their other cells hold. */
  lemma ExtractIgnoresCellsAfterInvalidHeader(s1: Sheet, s2: Sheet, culture: Culture, column: nat)
    requires s1.dimension.Some? && s2.dimension == s1.dimension
    requires 1 <= column <= s1.dimension.value.columns && !IsValidHeader(s1.At(1, column))
    requires forall c :: 1 <= c < column ==> IsValidHeader(s1.At(1, c))
    requires forall c :: 1 <= c <= column ==> s2.At(1, c) == s1.At(1, c)
    ensures Extract(s2, culture) == Extract(s1, culture) == Failure(InvalidHeader(1, column))
  {
    ExtractFirstInvalidHeader(s1, culture, column);
    ExtractFirstInvalidHeader(s2, culture, column);
  }

  /** Extraction succeeds exactly when the worksheet has a used range of at
      least one column, every header is valid, and, when there is a data
      row, no two columns share a header. */
  lemma ExtractSucceedsIff(sheet: Sheet, culture: Culture)
    ensures Extract(sheet, culture).Success? <==>
      sheet.dimension.Some? && sheet.dimension.value.columns > 0 &&
      (forall c :: 1 <= c <= sheet.dimension.value.columns ==> IsValidHeader(sheet.At(1, c))) &&
      (sheet.dimension.value.rows >= 2 ==>
        forall c1, c2 :: 1 <= c1 < c2 <= sheet.dimension.value.columns ==>
          sheet.At(1, c1).s != sheet.At(1, c2).s)
  {
    if sheet.dimension.Some? {
      var d := sheet.dimension.value;
      var row1 := HeaderRow(sheet, d.columns);
      var hs := HeaderNames(row1);
      HeaderCells(sheet, d.columns);
      if FirstInvalid(row1).None? {
        assert Distinct(hs) <==> forall c1, c2 :: 1 <= c1 < c2 <= d.columns ==>
          sheet.At(1, c1).s != sheet.At(1, c2).s by {
          if !Distinct(hs) {
            var i, j :| 0 <= i < j < |hs| && hs[i] == hs[j];
            assert sheet.At(1, i + 1).s == sheet.At(1, j + 1).s;
          }
          if Distinct(hs) {
            forall c1, c2 | 1 <= c1 < c2 <= d.columns
              ensures sheet.At(1, c1).s != sheet.At(1, c2).s
            {
              assert hs[c1 - 1] != hs[c2 - 1];
            }
          }
        }
      } else {
        var k := FirstInvalid(row1).value;
        assert !IsValidHeader(sheet.At(1, k + 1));
      }
    }
  }

  /** A successful extraction yields one record per sheet row 2..Rows, in
      row order; in each, the header of column c maps to the text of the
      cell below it, and a missing value to the empty string. */
  lemma ExtractRecords(sheet: Sheet, culture: Culture)
    requires Extract(sheet, culture).Success?
    ensures sheet.dimension.Some?
    ensures var d := sheet.dimension.value;
      var records := Extract(sheet, culture).value;
      && (forall c :: 1 <= c <= d.columns ==> IsValidHeader(sheet.At(1, c)))
      && |records| == (if d.rows >= 2 then d.rows - 1 else 0)
      && (forall i, c :: 0 <= i < |records| && 1 <= c <= d.columns ==>
            sheet.At(1, c).s in records[i] &&
            records[i][sheet.At(1, c).s] == CellText(sheet.At(i + 2, c), culture))
      && (forall i, c :: 0 <= i < |records| && 1 <= c <= d.columns && sheet.At(i + 2, c).Null? ==>
            records[i][sheet.At(1, c).s] == "")
  {
    var d := sheet.dimension.value;
    var hs := ExtractSuccess(sheet, culture);
    var records := Extract(sheet, culture).value;
    forall i, c | 0 <= i < |records| && 1 <= c <= d.columns
      ensures sheet.At(1, c).s in records[i]
      ensures records[i][sheet.At(1, c).s] == CellText(sheet.At(i + 2, c), culture)
    {
      RecordOfAt(sheet, hs, i + 2, |hs|, culture, c - 1);
    }
  }

  /** Every key of every record is the header of some column. */
  lemma ExtractRecordKeys(sheet: Sheet, culture: Culture)
    requires Extract(sheet, culture).Success?
    ensures sheet.dimension.Some?
    ensures var records := Extract(sheet, culture).value;
      forall i, h :: 0 <= i < |records| && h in records[i] ==>
        exists c :: 1 <= c <= sheet.dimension.value.columns && sheet.At(1, c) == Str(h)
  {
    var d := sheet.dimension.value;
    var hs := ExtractSuccess(sheet, culture);
    var records := Extract(sheet, culture).value;
    forall i, h | 0 <= i < |records| && h in records[i]
      ensures exists c :: 1 <= c <= d.columns && sheet.At(1, c) == Str(h)
    {
      RecordKeys(sheet, hs, i + 2, |hs|, culture);
      var j :| 0 <= j < |hs| && hs[..|hs|][j] == h;
      assert sheet.At(1, j + 1) == Str(h);
    }
  }

  /** The shape of a successful extraction: valid headers `hs`, one per
      column, and the records of rows 2..Rows built from them. */
  lemma ExtractSuccess(sheet: Sheet, culture: Culture) returns (hs: seq<string>)
    requires Extract(sheet, culture).Success?
    ensures sheet.dimension.Some? && |hs| == sheet.dimension.value.columns
    ensures forall c :: 1 <= c <= |hs| ==> IsValidHeader(sheet.At(1, c)) && sheet.At(1, c).s == hs[c - 1]
    ensures var records := Extract(sheet, culture).value;
      && |records| == (if sheet.dimension.value.rows >= 2 then sheet.dimension.value.rows - 1 else 0)
      && (records != [] ==> Distinct(hs[..|hs|]))
      && forall i :: 0 <= i < |records| ==> records[i] == RecordOf(sheet, hs, i + 2, |hs|, culture)
  {
    var d := sheet.dimension.value;
    var row1 := HeaderRow(sheet, d.columns);
    hs := HeaderNames(row1);
    HeaderCells(sheet, d.columns);
    assert FirstInvalid(row1).None?;
    assert hs[..|hs|] == hs;
    DataRowsAt(sheet, hs, if d.rows >= 2 then d.rows - 1 else 0, culture);
  }

  /** Row 1 as the specification reads it: column c at index c - 1. */
  lemma HeaderCells(sheet: Sheet, columns: nat)
    ensures |HeaderRow(sheet, columns)| == |HeaderNames(HeaderRow(sheet, columns))| == columns
    ensures forall c :: 1 <= c <= columns ==> HeaderRow(sheet, columns)[c - 1] == sheet.At(1, c)
    ensures forall c :: 1 <= c <= columns && sheet.At(1, c).Str? ==>
      HeaderNames(HeaderRow(sheet, columns))[c - 1] == sheet.At(1, c).s
  {
  }

  /** Two columns with the same header make extraction fail as soon as
      there is a data row: adding the repeated header to the row's
      dictionary throws, naming a header that occurs twice. */
  lemma ExtractDuplicateHeaders(sheet: Sheet, culture: Culture, c1: nat, c2: nat)
    requires sheet.dimension.Some? && sheet.dimension.value.rows >= 2
    requires forall c :: 1 <= c <= sheet.dimension.value.columns ==> IsValidHeader(sheet.At(1, c))
    requires 1 <= c1 < c2 <= sheet.dimension.value.columns && sheet.At(1, c1) == sheet.At(1, c2)
    ensures Extract(sheet, culture).Failure?
    ensures Extract(sheet, culture).error.DuplicateKey?
    ensures exists a, b ::
              1 <= a < b <= sheet.dimension.value.columns &&
              sheet.At(1, a) == sheet.At(1, b) == Str(Extract(sheet, culture).error.key)
  {
    var d := sheet.dimension.value;
    var row1 := HeaderRow(sheet, d.columns);
    var hs := HeaderNames(row1);
    HeaderCells(sheet, d.columns);
    assert FirstInvalid(row1).None?;
    assert hs[c1 - 1] == hs[c2 - 1];
    assert !Distinct(hs);
    assert Extract(sheet, culture) == ExtractRows(sheet, hs, d.rows, culture);
    var k := FirstRepeat(hs).value;
    var j :| 0 <= j < k && hs[..k][j] == hs[k];
    assert sheet.At(1, j + 1) == sheet.At(1, k + 1) == Str(hs[k]);
  }

  /** Without a data row, valid headers are accepted even when they repeat. */
  lemma ExtractHeaderOnly(sheet: Sheet, culture: Culture)
    requires sheet.dimension.Some? && sheet.dimension.value.rows < 2
    requires sheet.dimension.value.columns > 0
    requires forall c :: 1 <= c <= sheet.dimension.value.columns ==> IsValidHeader(sheet.At(1, c))
    ensures Extract(sheet, culture) == Success([])
  {
    var row1 := HeaderRow(sheet, sheet.dimension.value.columns);
    assert forall c :: 1 <= c <= sheet.dimension.value.columns ==> row1[c - 1] == sheet.At(1, c);
  }

  // ---------------------------------------------------------------------
  // Helper lemmas for the method
  // ---------------------------------------------------------------------

  /** The first invalid header is determined by its position. */
  lemma FirstInvalidAt(row: seq<Cell>, k: nat)
    requires k < |row| && !IsValidHeader(row[k])
    requires forall j :: 0 <= j < k ==> IsValidHeader(row[j])
    ensures FirstInvalid(row) == Some(k)
  {
  }

  /** The first repeated name is determined by its position. */
  lemma FirstRepeatAt(hs: seq<string>, k: nat)
    requires k < |hs| && hs[k] in hs[..k] && Distinct(hs[..k])
    ensures FirstRepeat(hs) == Some(k)
  {
    var j :| 0 <= j < k && hs[..k][j] == hs[k];
    assert hs[j] == hs[k];
    var m := FirstRepeat(hs).value;
    NoRepeatBefore(hs, k);
    NoRepeatBefore(hs, m);
  }

  /** Within a distinct prefix no name repeats an earlier one. */
  lemma NoRepeatBefore(hs: seq<string>, n: nat)
    requires n <= |hs| && Distinct(hs[..n])
    ensures forall a :: 0 <= a < n ==> hs[a] !in hs[..a]
  {
    forall a | 0 <= a < n ensures hs[a] !in hs[..a] {
      assert forall b :: 0 <= b < a ==> hs[..a][b] == hs[..n][b] && hs[a] == hs[..n][a];
    }
  }

  lemma DistinctExtend(hs: seq<string>, n: nat)
    requires n < |hs| && Distinct(hs[..n]) && hs[n] !in hs[..n]
    ensures Distinct(hs[..n + 1])
  {
    var ext := hs[..n + 1];
    forall i, j | 0 <= i < j < n + 1 ensures ext[i] != ext[j] {
      if j == n { assert hs[i] == hs[..n][i]; }
      else { assert hs[..n][i] != hs[..n][j]; }
    }
  }

  /** The keys of a partial record are the first n header names. */
  lemma {:induction false} RecordKeys(sheet: Sheet, hs: seq<string>, rowNo: int, n: nat, culture: Culture)
    requires n <= |hs|
    ensures forall h :: h in RecordOf(sheet, hs, rowNo, n, culture) <==> h in hs[..n]
  {
    if n > 0 {
      RecordKeys(sheet, hs, rowNo, n - 1, culture);
      assert hs[..n] == hs[..n - 1] + [hs[n - 1]];
    }
  }

  /** Data row i (from 0) is the record of sheet row i + 2. */
  lemma {:induction false} DataRowsAt(sheet: Sheet, hs: seq<string>, count: nat, culture: Culture)
    ensures |DataRows(sheet, hs, count, culture)| == count
    ensures forall i :: 0 <= i < count ==>
      DataRows(sheet, hs, count, culture)[i] == RecordOf(sheet, hs, i + 2, |hs|, culture)
  {
    if count > 0 {
      DataRowsAt(sheet, hs, count - 1, culture);
    }
  }

  /** In a record built with distinct headers, header c holds the text of column c + 1. */
  lemma {:induction false} RecordOfAt(sheet: Sheet, hs: seq<string>, rowNo: int, n: nat, culture: Culture, c: nat)
    requires n <= |hs| && Distinct(hs[..n]) && c < n
    ensures hs[c] in RecordOf(sheet, hs, rowNo, n, culture)
    ensures RecordOf(sheet, hs, rowNo, n, culture)[hs[c]] == CellText(sheet.At(rowNo, c + 1), culture)
  {
    if c < n - 1 {
      assert hs[..n - 1] == hs[..n][..n - 1];
      RecordOfAt(sheet, hs, rowNo, n - 1, culture, c);
      assert hs[..n][c] != hs[..n][n - 1];
    }
  }
}
