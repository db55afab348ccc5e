/** The name of the file written for each record: `output-<index>.<ext>`,
    unless the filename column gives the record a non-empty value. */
module Naming {
  import opened Wrappers
  import opened Extraction

  predicate IsDigit(ch: char)
  {
    '0' as int <= ch as int <= '9' as int
  }

  /** The decimal text of a non-negative integer, as string interpolation
      writes a record index. */
  function DecimalString(n: nat): (s: string)
    ensures |s| >= 1 && forall i :: 0 <= i < |s| ==> IsDigit(s[i])
    ensures n == 0 ==> s == "0"
    ensures n > 0 ==> s[0] != '0'
  {
    var last := ('0' as int + n % 10) as char;
    if n < 10 then [last] else DecimalString(n / 10) + [last]
  }

  /** The value of a string of decimal digits. */
  function DecimalValue(s: string): nat
    requires forall i :: 0 <= i < |s| ==> IsDigit(s[i])
  {
    if s == [] then 0
    else
      assert IsDigit(s[|s| - 1]);
      DecimalValue(s[..|s| - 1]) * 10 + (s[|s| - 1] as int - '0' as int)
  }

  /** Reading back the decimal text of an index gives the index. */
  lemma {:induction false} DecimalRoundTrip(n: nat)
    ensures DecimalValue(DecimalString(n)) == n
  {
    var s := DecimalString(n);
    if n >= 10 {
      assert s[..|s| - 1] == DecimalString(n / 10);
      DecimalRoundTrip(n / 10);
    }
  }

  /** The name given to the record at 1-based position `index`. */
  function DefaultFileName(index: nat, extension: string): string
  {
    "output-" + DecimalString(index) + "." + extension
  }

  /** Different positions get different default names. */
  lemma DefaultFileNameInjective(i: nat, j: nat, extension: string)
    requires DefaultFileName(i, extension) == DefaultFileName(j, extension)
    ensures i == j
  {
    var di, dj := DecimalString(i), DecimalString(j);
    var a, b := DefaultFileName(i, extension), DefaultFileName(j, extension);
    // Both names share the prefix and the suffix, so the digits sit at
    // positions 7.. of names of the same length.
    assert forall k :: 0 <= k < |di| ==> a[7 + k] == di[k];
    assert forall k :: 0 <= k < |dj| ==> b[7 + k] == dj[k];
    assert |di| == |dj|;
    assert di == dj;
    DecimalRoundTrip(i);
    DecimalRoundTrip(j);
  }

  /** string.IsNullOrEmpty on a string that may be null. */
  predicate IsNullOrEmpty(s: Option<string>)
  {
    s.None? || s.value == ""
  }

  /** The value the record gives the filename column, if there is one. */
  function TryGetValue(record: Record, key: string): Option<string>
  {
    if key in record then Some(record[key]) else None
  }

  /** The output file name of `record` at 1-based position `index`, given
      the optional filename column and the extension. */
  function OutputFileName(record: Record, index: nat, column: Option<string>, extension: string): string
  {
    var fallback := DefaultFileName(index, extension);
    if IsNullOrEmpty(column) then fallback
    else match TryGetValue(record, column.value)
      case None => fallback
      case Some(alternative) => if IsNullOrEmpty(Some(alternative)) then fallback else alternative + "." + extension
  }

  /** The record overrides the default name exactly when the filename column
      is set and non-empty, the record has that column, and its value is
      non-empty; a value of spaces only is used as it is. */
  lemma OutputFileNameChoice(record: Record, index: nat, column: Option<string>, extension: string)
    ensures var overrides := column.Some? && column.value != "" && column.value in record
                             && record[column.value] != "";
      && (overrides ==> OutputFileName(record, index, column, extension) == record[column.value] + "." + extension)
      && (!overrides ==> OutputFileName(record, index, column, extension) == DefaultFileName(index, extension))
  {
  }

  /** An overriding value names the file whatever the record's position. */
  lemma OverrideIgnoresIndex(record: Record, i: nat, j: nat, column: Option<string>, extension: string)
    requires column.Some? && column.value in record && record[column.value] != "" && column.value != ""
    ensures OutputFileName(record, i, column, extension) == OutputFileName(record, j, column, extension)
  {
  }

  /** Records at different positions that do not override their name get
      different file names. */
  lemma DefaultNamesDistinct(r1: Record, r2: Record, i: nat, j: nat, column: Option<string>, extension: string)
    requires i != j
    requires IsNullOrEmpty(column) || column.value !in r1 || r1[column.value] == ""
    requires IsNullOrEmpty(column) || column.value !in r2 || r2[column.value] == ""
    ensures OutputFileName(r1, i, column, extension) != OutputFileName(r2, j, column, extension)
  {
    if DefaultFileName(i, extension) == DefaultFileName(j, extension) {
      DefaultFileNameInjective(i, j, extension);
    }
  }
}
