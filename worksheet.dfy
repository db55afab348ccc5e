/** The first worksheet of the Excel workbook, as the extractor sees it: an
    optional used range and a grid of cell values addressed from (1, 1). */
module Worksheet {
  import opened Wrappers

  /** A cell's native value. Numbers, dates and booleans are kept opaque:
      `Other(v)` is a handle whose text only the culture can give. */
  datatype Cell = Null | Str(s: string) | Other(v: int)

  /** The row and column counts of the used range; the source reads from
      A1 whatever the range's start. */
  datatype Dimension = Dimension(rows: nat, columns: nat)

  /** `dimension` is `None` when the worksheet has no used range. Cells
      outside `cells` hold no value. */
  datatype Sheet = Sheet(dimension: Option<Dimension>, cells: map<(int, int), Cell>)
  {
    /** The value of the cell at (row, column). */
    function At(row: int, column: int): Cell
    {
      if (row, column) in cells then cells[(row, column)] else Null
    }
  }

  /** The formatting of a non-string cell value under the run's culture. */
  type Culture = int -> string

  /** Convert.ToString(value, culture): a missing value becomes the empty
      string, a string stays itself, anything else is formatted by the
      culture. */
  function CellText(cell: Cell, culture: Culture): string
  {
    match cell
    case Null => ""
    case Str(s) => s
    case Other(v) => culture(v)
  }

  /** char.IsWhiteSpace: the Unicode space, line and paragraph separators,
      the controls U+0009..U+000D and U+0085. */
  predicate IsWhiteSpace(ch: char)
  {
    var n := ch as int;
    (0x09 <= n <= 0x0D) || n == 0x20 || n == 0x85 || n == 0xA0 || n == 0x1680
    || (0x2000 <= n <= 0x200A) || n == 0x2028 || n == 0x2029 || n == 0x202F
    || n == 0x205F || n == 0x3000
  }

  /** string.IsNullOrWhiteSpace on a non-null string: empty, or white space only. */
  predicate IsBlank(s: string)
  {
    s == [] || (IsWhiteSpace(s[0]) && IsBlank(s[1..]))
  }

  /** A header cell is accepted when it holds a string that is not blank. */
  predicate IsValidHeader(cell: Cell)
  {
    cell.Str? && !IsBlank(cell.s)
  }
}
