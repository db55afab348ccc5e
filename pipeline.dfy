/** RunAsync: the checks on the inputs in order, extraction, then one
    rendered file per record, named by its position or its filename column. */
module Pipeline {
  import opened Wrappers
  import opened Worksheet
  import opened Extraction
  import opened Naming

  /** One call of File.WriteAllTextAsync: a file name in the output
      directory and the text written to it. */
  datatype Output = Output(fileName: string, content: string)

  /** The compiled Mustache template applied to a record under the run's
      culture: template text and record to rendered text. */
  type Renderer = (string, Record) -> string

  /** The writes of a run over `records`, one per record in record order. */
  function Outputs(records: seq<Record>, render: Renderer, template: string,
                   column: Option<string>, extension: string): seq<Output>
  {
    seq(|records|, i requires 0 <= i < |records| =>
      Output(OutputFileName(records[i], i + 1, column, extension), render(template, records[i])))
  }

  /** The loop of RunAsync over the records: a running 1-based index, the
      rendered content, the default name and its override. */
  method RenderAll(records: seq<Record>, render: Renderer, template: string,
                   column: Option<string>, extension: string) returns (writes: seq<Output>)
    ensures writes == Outputs(records, render, template, column, extension)
  {
    var index := 0;
    writes := [];
    while index < |records|
      invariant 0 <= index <= |records|
      invariant writes == Outputs(records[..index], render, template, column, extension)
    {
      var record := records[index];
      index := index + 1;
      var content := render(template, record);
      var outputFileName := DefaultFileName(index, extension);
      if !IsNullOrEmpty(column) {
        var alternativeFileName := TryGetValue(record, column.value);
        if alternativeFileName.Some? && !IsNullOrEmpty(alternativeFileName) {
          outputFileName := alternativeFileName.value + "." + extension;
        }
      }
      assert records[..index] == records[..index - 1] + [record];
      writes := writes + [Output(outputFileName, content)];
    }
    assert records[..index] == records;
  }

  // ---------------------------------------------------------------------
  // The output directory
  // ---------------------------------------------------------------------

  /** The output directory after `writes`, in order; each write replaces
      any file of the same name. */
  function Persist(files: map<string, string>, writes: seq<Output>): map<string, string>
  {
    if writes == [] then files
    else
      var last := writes[|writes| - 1];
      Persist(files, writes[..|writes| - 1])[last.fileName := last.content]
  }

  /** A file holds the content of the last write to its name. */
  lemma {:induction false} PersistLastWriteWins(files: map<string, string>, writes: seq<Output>, k: nat)
    requires k < |writes|
    requires forall j :: k < j < |writes| ==> writes[j].fileName != writes[k].fileName
    ensures writes[k].fileName in Persist(files, writes)
    ensures Persist(files, writes)[writes[k].fileName] == writes[k].content
  {
    if k < |writes| - 1 {
      var init := writes[..|writes| - 1];
      assert init[k] == writes[k];
      PersistLastWriteWins(files, init, k);
    }
  }

  /** A name no write uses keeps what the directory held before. */
  lemma {:induction false} PersistUntouched(files: map<string, string>, writes: seq<Output>, name: string)
    requires forall j :: 0 <= j < |writes| ==> writes[j].fileName != name
    ensures (name in Persist(files, writes)) == (name in files)
    ensures name in files ==> Persist(files, writes)[name] == files[name]
  {
    if writes != [] {
      var init := writes[..|writes| - 1];
      assert forall j :: 0 <= j < |init| ==> init[j] == writes[j];
      PersistUntouched(files, init, name);
    }
  }

  /** Without overriding values, no record's file is overwritten: file
      `output-<n>.<ext>` holds the rendering of the n-th record. */
  lemma DefaultRunKeepsEveryRecord(files: map<string, string>, records: seq<Record>, render: Renderer,
                                   template: string, column: Option<string>, extension: string)
    requires forall i :: 0 <= i < |records| ==>
      IsNullOrEmpty(column) || column.value !in records[i] || records[i][column.value] == ""
    ensures var after := Persist(files, Outputs(records, render, template, column, extension));
      forall n :: 1 <= n <= |records| ==>
        DefaultFileName(n, extension) in after &&
        after[DefaultFileName(n, extension)] == render(template, records[n - 1])
  {
    var writes := Outputs(records, render, template, column, extension);
    forall n | 1 <= n <= |records|
      ensures DefaultFileName(n, extension) in Persist(files, writes)
      ensures Persist(files, writes)[DefaultFileName(n, extension)] == render(template, records[n - 1])
    {
      var i := n - 1;
      forall j | i < j < |writes| ensures writes[j].fileName != writes[i].fileName {
        DefaultNamesDistinct(records[j], records[i], j + 1, i + 1, column, extension);
      }
      OutputFileNameChoice(records[i], n, column, extension);
      PersistLastWriteWins(files, writes, i);
    }
  }

  // ---------------------------------------------------------------------
  // The whole run
  // ---------------------------------------------------------------------

  /** What the run reads: whether each path exists, the template text and
      the first worksheet of the Excel file. */
  datatype Inputs = Inputs(templateFileExists: bool, excelFileExists: bool,
                           outputDirectoryExists: bool, template: string, sheet: Sheet)

  /** How a run ends. The first four only print a message; an extraction
      error propagates as an exception; a completed run has written its
      files in order. */
  datatype Outcome =
    | TemplateFileMissing
    | ExcelFileMissing
    | OutputDirectoryMissing
    | TemplateEmpty
    | ExtractionFailed(error: Error)
    | Completed(writes: seq<Output>)

  predicate PathsExist(inputs: Inputs)
  {
    inputs.templateFileExists && inputs.excelFileExists && inputs.outputDirectoryExists
  }

  /** RunAsync with the options already parsed. */
  method Run(inputs: Inputs, culture: Culture, render: Renderer,
             column: Option<string>, extension: string) returns (outcome: Outcome)
    ensures !inputs.templateFileExists ==> outcome == TemplateFileMissing
    ensures inputs.templateFileExists && !inputs.excelFileExists ==> outcome == ExcelFileMissing
    ensures inputs.templateFileExists && inputs.excelFileExists && !inputs.outputDirectoryExists
      ==> outcome == OutputDirectoryMissing
    ensures PathsExist(inputs) && inputs.template == "" ==> outcome == TemplateEmpty
    ensures PathsExist(inputs) && inputs.template != "" ==>
      outcome == match Extract(inputs.sheet, culture)
        case Failure(e) => ExtractionFailed(e)
        case Success(records) => Completed(Outputs(records, render, inputs.template, column, extension))
    ensures outcome.Completed? ==>
      inputs.sheet.dimension.Some? &&
      |outcome.writes| == (if inputs.sheet.dimension.value.rows >= 2 then inputs.sheet.dimension.value.rows - 1 else 0)
  {
    if !inputs.templateFileExists {
      return TemplateFileMissing;
    }
    if !inputs.excelFileExists {
      return ExcelFileMissing;
    }
    if !inputs.outputDirectoryExists {
      return OutputDirectoryMissing;
    }
    if inputs.template == "" {
      return TemplateEmpty;
    }
    var records := ReadExcel(inputs.sheet, culture);
    if records.Failure? {
      return ExtractionFailed(records.error);
    }
    ExtractRecords(inputs.sheet, culture);
    var writes := RenderAll(records.value, render, inputs.template, column, extension);
    return Completed(writes);
  }

  // ---------------------------------------------------------------------
  // Worked examples
  // ---------------------------------------------------------------------

  /** Header `Name` over one data row `World`. */
  function HelloSheet(): Sheet
  {
    Sheet(Some(Dimension(2, 1)), map[(1, 1) := Str("Name"), (2, 1) := Str("World")])
  }

  /** One record; it is written to `output-1.txt`, or to `World.txt` when
      `Name` is the filename column. */
  lemma HelloWorldRun(culture: Culture)
    ensures Extract(HelloSheet(), culture) == Success([map["Name" := "World"]])
    ensures OutputFileName(map["Name" := "World"], 1, None, "txt") == "output-1.txt"
    ensures OutputFileName(map["Name" := "World"], 1, Some("Name"), "txt") == "World.txt"
  {
    var sheet := HelloSheet();
    assert !IsWhiteSpace("Name"[0]);
    var row1 := HeaderRow(sheet, 1);
    assert row1 == [Str("Name")];
    assert FirstInvalid(row1) == None;
    var hs := HeaderNames(row1);
    assert hs == ["Name"];
    assert FirstRepeat(hs) == None;
    assert RecordOf(sheet, hs, 2, 1, culture) == map["Name" := "World"];
    assert DataRows(sheet, hs, 1, culture) == [map["Name" := "World"]];
    assert DecimalString(1) == "1";
  }

  /** A blank second header cell fails on row 1, column 2. */
  lemma BlankHeaderRun(culture: Culture)
    ensures Extract(Sheet(Some(Dimension(2, 2)), map[(1, 1) := Str("Name"), (1, 2) := Str(" ")]), culture)
         == Failure(InvalidHeader(1, 2))
  {
    var sheet := Sheet(Some(Dimension(2, 2)), map[(1, 1) := Str("Name"), (1, 2) := Str(" ")]);
    assert !IsWhiteSpace("Name"[0]);
    ExtractFirstInvalidHeader(sheet, culture, 2);
  }

  /** A header row alone gives no record and no error. */
  lemma HeaderOnlyRun(culture: Culture)
    ensures Extract(Sheet(Some(Dimension(1, 1)), map[(1, 1) := Str("Name")]), culture) == Success([])
  {
    var sheet := Sheet(Some(Dimension(1, 1)), map[(1, 1) := Str("Name")]);
    assert !IsWhiteSpace("Name"[0]);
    ExtractHeaderOnly(sheet, culture);
  }
}
