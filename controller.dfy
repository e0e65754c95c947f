/** `ImageProcessorApp` (main.py): the controller that owns the selection,
    the processed records and the three buttons, and drives the validator,
    the processor and the exporter. The UI is an outside collaborator: each
    handler returns the notices it sends to it (message boxes, status line,
    file list, progress bar), in order; the file dialogs are the handlers'
    inputs, and so are the file system's and clock's answers. */
module Controller {
  import opened Wrappers
  import opened Paths
  import opened Records
  import opened Processor
  import opened Exporter

  /** The status-line texts the controller sets. */
  datatype Status =
    | FilesSelected(count: nat)
    | Processing(index: nat, total: nat, filename: string)
    | ProcessingComplete(count: nat)
    | ProcessingFailed
    | DataExported(filename: string)

  /** One call the controller makes on the UI, with what it shows. */
  datatype Notice =
    | InvalidFilesWarning(skipped: nat)
    | NoValidFilesWarning
    | FileList(files: seq<string>)
    | StatusLine(status: Status)
    | NoFilesWarning
    | ProgressSetup(maximum: nat)
    | ProcessingErrorShown(filename: string)
    | ProgressValue(value: nat)
    | ProcessedInfo(count: nat)
    | NoDataWarning
    | InvalidDataError
    | ExportedInfo(path: string)
    | ExportErrorShown(error: ExportError)

  // ---------------------------------------------------------------- selecting

  /** `[f for f in files if validate_image_file(f)]`. */
  function ValidFiles(files: seq<string>, isFile: string -> bool): (valid: seq<string>)
    ensures |valid| <= |files|
    ensures forall f :: f in valid <==> f in files && ValidateImageFile(f, isFile)
  {
    if |files| == 0 then []
    else
      var rest := ValidFiles(files[1..], isFile);
      assert files == [files[0]] + files[1..];
      if ValidateImageFile(files[0], isFile) then [files[0]] + rest else rest
  }

  /** The filter keeps every copy of a valid file and no copy of an invalid one. */
  lemma {:induction false} ValidFilesMultiplicity(files: seq<string>, isFile: string -> bool)
    ensures forall f ::
      multiset(ValidFiles(files, isFile))[f] == (if ValidateImageFile(f, isFile) then multiset(files)[f] else 0)
  {
    if |files| > 0 {
      ValidFilesMultiplicity(files[1..], isFile);
      assert files == [files[0]] + files[1..];
      assert multiset(files) == multiset([files[0]]) + multiset(files[1..]);
      if ValidateImageFile(files[0], isFile) {
        var valid := ValidFiles(files, isFile);
        assert valid == [files[0]] + ValidFiles(files[1..], isFile);
        assert multiset(valid) == multiset([files[0]]) + multiset(ValidFiles(files[1..], isFile));
      }
    }
  }

  /** The filter keeps order: filtering a concatenation filters each part. */
  lemma {:induction false} ValidFilesConcat(a: seq<string>, b: seq<string>, isFile: string -> bool)
    ensures ValidFiles(a + b, isFile) == ValidFiles(a, isFile) + ValidFiles(b, isFile)
  {
    if |a| > 0 {
      assert (a + b)[1..] == a[1..] + b;
      ValidFilesConcat(a[1..], b, isFile);
    } else {
      assert a + b == b;
    }
  }

  /** Nothing is skipped exactly when every chosen file is valid. */
  lemma {:induction false} ValidFilesKeepsAll(files: seq<string>, isFile: string -> bool)
    ensures |ValidFiles(files, isFile)| == |files| <==>
      forall i :: 0 <= i < |files| ==> ValidateImageFile(files[i], isFile)
  {
    if |files| > 0 {
      ValidFilesKeepsAll(files[1..], isFile);
      if forall i :: 0 <= i < |files| ==> ValidateImageFile(files[i], isFile) {
        assert forall i :: 0 <= i < |files| - 1 ==> files[1..][i] == files[i + 1];
      } else if ValidateImageFile(files[0], isFile) {
        var i :| 0 <= i < |files| && !ValidateImageFile(files[i], isFile);
        assert files[1..][i - 1] == files[i];
      }
    }
  }

  /** The notices `handle_select_files` sends for the files the dialog returned. */
  function SelectionNotices(files: seq<string>, isFile: string -> bool): (notices: seq<Notice>)
    ensures notices == [] <==> files == []
    ensures files != [] ==> (NoValidFilesWarning in notices <==> ValidFiles(files, isFile) == [])
    ensures files != [] ==> (FileList(ValidFiles(files, isFile)) in notices <==> ValidFiles(files, isFile) != [])
  {
    if files == [] then []
    else
      var valid := ValidFiles(files, isFile);
      (if |valid| != |files| then [InvalidFilesWarning(|files| - |valid|)] else [])
      + (if valid != [] then [FileList(valid), StatusLine(FilesSelected(|valid|))]
         else [NoValidFilesWarning])
  }

  /** The skipped-files warning is shown exactly when some chosen file is
      invalid, and it counts the files the filter dropped. */
  lemma SkippedWarning(files: seq<string>, isFile: string -> bool)
    ensures (exists n :: InvalidFilesWarning(n) in SelectionNotices(files, isFile)) <==>
      exists i :: 0 <= i < |files| && !ValidateImageFile(files[i], isFile)
    ensures forall n :: InvalidFilesWarning(n) in SelectionNotices(files, isFile) ==>
      n == |files| - |ValidFiles(files, isFile)| > 0
  {
    ValidFilesKeepsAll(files, isFile);
    if files != [] && |ValidFiles(files, isFile)| != |files| {
      assert InvalidFilesWarning(|files| - |ValidFiles(files, isFile)|) in SelectionNotices(files, isFile);
    }
  }

  // --------------------------------------------------------------- processing

  /** What each attempt of the batch gives, the `i`-th attempt reading `readings(i)`. */
  function Outcomes(files: seq<string>, readings: nat -> FileReading): (outcomes: seq<Outcome>)
    ensures |outcomes| == |files|
    ensures forall i :: 0 <= i < |files| ==> outcomes[i] == ProcessImage(files[i], readings(i))
  {
    seq(|files|, i requires 0 <= i < |files| => ProcessImage(files[i], readings(i)))
  }

  /** The records of the successful attempts, in order: `processed_data`
      after the loop. */
  function Successes(outcomes: seq<Outcome>): (records: seq<Dict>)
    ensures |records| <= |outcomes|
  {
    if |outcomes| == 0 then []
    else
      var last := outcomes[|outcomes| - 1];
      Successes(outcomes[..|outcomes| - 1]) + (if last.Success? then [last.record] else [])
  }

  /** The number of failed attempts. */
  function FailureCount(outcomes: seq<Outcome>): nat {
    if |outcomes| == 0 then 0
    else FailureCount(outcomes[..|outcomes| - 1]) + (if outcomes[|outcomes| - 1].Failure? then 1 else 0)
  }

  /** Every attempt is accounted for: successes and failures add up to the batch. */
  lemma {:induction false} SuccessesAndFailures(outcomes: seq<Outcome>)
    ensures |Successes(outcomes)| + FailureCount(outcomes) == |outcomes|
  {
    if |outcomes| > 0 {
      SuccessesAndFailures(outcomes[..|outcomes| - 1]);
    }
  }

  /** Collecting successes over a concatenation collects over each part. */
  lemma {:induction false} SuccessesConcat(a: seq<Outcome>, b: seq<Outcome>)
    ensures Successes(a + b) == Successes(a) + Successes(b)
  {
    if |b| > 0 {
      assert (a + b)[..|a + b| - 1] == a + b[..|b| - 1];
      SuccessesConcat(a, b[..|b| - 1]);
    } else {
      assert a + b == a;
    }
  }

  /** A failing attempt does not stop the ones after it: it just leaves no
      record, and the later records follow the earlier ones. */
  lemma FailureIsolated(before: seq<Outcome>, after: seq<Outcome>)
    ensures Successes(before + [Failure] + after) == Successes(before) + Successes(after)
  {
    SuccessesConcat(before + [Failure], after);
    assert (before + [Failure])[..|before|] == before;
  }

  /** Every record in `data` is a `process_image` record of one of `files`:
      it has the fixed schema and its `file_path` is one of them. */
  ghost predicate RecordsOf(data: seq<Dict>, files: seq<string>) {
    forall d :: d in data ==>
      && Keys(d) == RecordFields
      && WellFormed(d)
      && exists f :: f in files && Get(d, "file_path", Str("")) == Str(f)
  }

  /** The records a batch collects are `process_image` records of its files. */
  lemma {:induction false} SuccessesAreRecords(files: seq<string>, readings: nat -> FileReading, n: nat)
    requires n <= |files|
    ensures RecordsOf(Successes(Outcomes(files, readings)[..n]), files)
  {
    if n > 0 {
      var outcomes := Outcomes(files, readings);
      SuccessesAreRecords(files, readings, n - 1);
      assert outcomes[..n][..n - 1] == outcomes[..n - 1];
      forall d | d in Successes(outcomes[..n])
        ensures Keys(d) == RecordFields && WellFormed(d)
        ensures exists f :: f in files && Get(d, "file_path", Str("")) == Str(f)
      {
        if d !in Successes(outcomes[..n - 1]) {
          assert d == outcomes[n - 1].record;
          ProcessImageRecord(files[n - 1], readings(n - 1));
          assert files[n - 1] in files;
        }
      }
    }
  }

  /** The notices for item `index` of `total`: its status line, its error
      box when it failed, and the progress value. */
  function ItemNotices(index: nat, total: nat, path: string, outcome: Outcome): seq<Notice> {
    [StatusLine(Processing(index, total, Basename(path)))]
    + (if outcome.Failure? then [ProcessingErrorShown(Basename(path))] else [])
    + [ProgressValue(index)]
  }

  /** The notices of the loop over `files`, item by item, numbering them from 1. */
  function BatchNotices(files: seq<string>, outcomes: seq<Outcome>, total: nat): seq<Notice>
    requires |files| == |outcomes|
  {
    if |files| == 0 then []
    else
      var n := |files|;
      BatchNotices(files[..n - 1], outcomes[..n - 1], total)
      + ItemNotices(n, total, files[n - 1], outcomes[n - 1])
  }

  /** One more item of the loop adds that item's notices and, when it
      succeeded, its record. */
  lemma BatchStep(files: seq<string>, outcomes: seq<Outcome>, total: nat, n: nat)
    requires |files| == |outcomes| && 1 <= n <= |files|
    ensures BatchNotices(files[..n], outcomes[..n], total)
      == BatchNotices(files[..n - 1], outcomes[..n - 1], total) + ItemNotices(n, total, files[n - 1], outcomes[n - 1])
    ensures Successes(outcomes[..n])
      == Successes(outcomes[..n - 1]) + (if outcomes[n - 1].Success? then [outcomes[n - 1].record] else [])
  {
    assert outcomes[..n][..n - 1] == outcomes[..n - 1];
    assert files[..n][..n - 1] == files[..n - 1];
  }

  /** The loop's prefix that covers every item is the whole batch. */
  lemma WholeBatch(files: seq<string>, outcomes: seq<Outcome>, total: nat)
    requires |files| == |outcomes|
    ensures BatchNotices(files[..|files|], outcomes[..|files|], total) == BatchNotices(files, outcomes, total)
    ensures Successes(outcomes[..|files|]) == Successes(outcomes)
  {
    assert files[..|files|] == files;
    assert outcomes[..|files|] == outcomes;
  }

  /** The values sent to the progress bar, in order. */
  function ProgressValues(notices: seq<Notice>): seq<nat> {
    if |notices| == 0 then []
    else
      var last := notices[|notices| - 1];
      ProgressValues(notices[..|notices| - 1]) + (if last.ProgressValue? then [last.value] else [])
  }

  lemma {:induction false} ProgressValuesConcat(a: seq<Notice>, b: seq<Notice>)
    ensures ProgressValues(a + b) == ProgressValues(a) + ProgressValues(b)
  {
    if |b| > 0 {
      assert (a + b)[..|a + b| - 1] == a + b[..|b| - 1];
      ProgressValuesConcat(a, b[..|b| - 1]);
    } else {
      assert a + b == a;
    }
  }

  /** The progress bar is moved once per item, to 1, 2, ..., N in turn. */
  lemma {:induction false} ProgressOncePerItem(files: seq<string>, outcomes: seq<Outcome>, total: nat)
    requires |files| == |outcomes|
    ensures var values := ProgressValues(BatchNotices(files, outcomes, total));
      |values| == |files| && forall i :: 0 <= i < |files| ==> values[i] == i + 1
  {
    var n := |files|;
    if n > 0 {
      ProgressOncePerItem(files[..n - 1], outcomes[..n - 1], total);
      var item := ItemNotices(n, total, files[n - 1], outcomes[n - 1]);
      ProgressValuesConcat(BatchNotices(files[..n - 1], outcomes[..n - 1], total), item);
      var head := [StatusLine(Processing(n, total, Basename(files[n - 1])))]
        + (if outcomes[n - 1].Failure? then [ProcessingErrorShown(Basename(files[n - 1]))] else []);
      ProgressValuesConcat(head, [ProgressValue(n)]);
      assert ProgressValues(head) == [] by {
        if outcomes[n - 1].Failure? {
          assert head[..1] == [StatusLine(Processing(n, total, Basename(files[n - 1])))];
        }
      }
    }
  }

  /** The error boxes of the loop, one per failed item. */
  function ErrorCount(notices: seq<Notice>): nat {
    if |notices| == 0 then 0
    else ErrorCount(notices[..|notices| - 1]) + (if notices[|notices| - 1].ProcessingErrorShown? then 1 else 0)
  }

  /** One error box is shown per failed item, so records and error boxes
      together account for the whole batch. */
  lemma {:induction false} OneErrorPerFailure(files: seq<string>, outcomes: seq<Outcome>, total: nat)
    requires |files| == |outcomes|
    ensures ErrorCount(BatchNotices(files, outcomes, total)) == FailureCount(outcomes)
    ensures |Successes(outcomes)| + ErrorCount(BatchNotices(files, outcomes, total)) == |files|
  {
    var n := |files|;
    SuccessesAndFailures(outcomes);
    if n > 0 {
      OneErrorPerFailure(files[..n - 1], outcomes[..n - 1], total);
      var prefix := BatchNotices(files[..n - 1], outcomes[..n - 1], total);
      var item := ItemNotices(n, total, files[n - 1], outcomes[n - 1]);
      ErrorCountConcat(prefix, item);
      var status := [StatusLine(Processing(n, total, Basename(files[n - 1])))];
      var error := if outcomes[n - 1].Failure? then [ProcessingErrorShown(Basename(files[n - 1]))] else [];
      ErrorCountConcat(status + error, [ProgressValue(n)]);
      ErrorCountConcat(status, error);
    }
  }

  lemma {:induction false} ErrorCountConcat(a: seq<Notice>, b: seq<Notice>)
    ensures ErrorCount(a + b) == ErrorCount(a) + ErrorCount(b)
  {
    if |b| > 0 {
      assert (a + b)[..|a + b| - 1] == a + b[..|b| - 1];
      ErrorCountConcat(a, b[..|b| - 1]);
    } else {
      assert a + b == a;
    }
  }

  /** The notices at the end of a run that kept `count` records. */
  function CompletionNotices(count: nat): seq<Notice> {
    if count > 0 then [StatusLine(ProcessingComplete(count)), ProcessedInfo(count)]
    else [StatusLine(ProcessingFailed)]
  }

  // ---------------------------------------------------------------- exporting

  /** Records built by `process_image` all share one key set, so any
      non-empty list of them passes `validate_data`. */
  lemma ProcessedRecordsValid(data: seq<Dict>)
    requires |data| > 0
    requires forall d :: d in data ==> Keys(d) == RecordFields
    ensures ValidateData(AsItems(data))
  {
    forall i | 0 <= i < |data| ensures KeySet(AsItems(data)[i].entries) == KeySet(AsItems(data)[0].entries) {
      assert data[i] in data && data[0] in data;
    }
  }

  // --------------------------------------------------------------- controller

  /** One pass of the loop of `handle_process_images`: the notices for item
      `index` of `total`, and the record it contributes (none when
      processing failed). */
  method RunItem(index: nat, total: nat, path: string, reading: FileReading) returns (item: seq<Notice>, found: seq<Dict>)
    ensures item == ItemNotices(index, total, path, ProcessImage(path, reading))
    ensures found == (if reading.Readable? then [ProcessImage(path, reading).record] else [])
  {
    var filename := Basename(path);
    item := [StatusLine(Processing(index, total, filename))];
    var result := ProcessImage(path, reading);
    match result {
      case Success(record) =>
        found := [record];
      case Failure =>
        found := [];
        item := item + [ProcessingErrorShown(filename)];
    }
    item := item + [ProgressValue(index)];
  }

  /** The loop of `handle_process_images`: each file in turn is announced,
      processed (attempt `i` sees `readings(i)`), reported on failure and
      counted on the progress bar; successes are collected in order. */
  method RunBatch(files: seq<string>, readings: nat -> FileReading) returns (records: seq<Dict>, notices: seq<Notice>)
    ensures records == Successes(Outcomes(files, readings))
    ensures notices == BatchNotices(files, Outcomes(files, readings), |files|)
    ensures RecordsOf(records, files)
  {
    var total := |files|;
    records, notices := [], [];
    ghost var outcomes := Outcomes(files, readings);
    var idx := 1;
    while idx <= total
      invariant 1 <= idx <= total + 1
      invariant records == Successes(outcomes[..idx - 1])
      invariant notices == BatchNotices(files[..idx - 1], outcomes[..idx - 1], total)
    {
      var item, found := RunItem(idx, total, files[idx - 1], readings(idx - 1));
      BatchStep(files, outcomes, total, idx);
      records := records + found;
      notices := notices + item;
      idx := idx + 1;
    }
    WholeBatch(files, outcomes, total);
    SuccessesAreRecords(files, readings, total);
  }

  class ImageProcessorApp {
    var selectedFiles: seq<string>
    var processedData: seq<Dict>
    var selectEnabled: bool
    var processEnabled: bool
    var exportEnabled: bool

    /** What every handler keeps: a button is enabled only when there is
        something for it to work on, every selected path is named like an
        image, and every record is a `process_image` record of a selected file. */
    ghost predicate Valid()
      reads this
    {
      && (processEnabled ==> selectedFiles != [])
      && (exportEnabled ==> processedData != [])
      && (forall f :: f in selectedFiles ==> HasImageExtension(f))
      && RecordsOf(processedData, selectedFiles)
    }

    /** `__init__`: nothing selected, nothing processed, only "select" enabled. */
    constructor ()
      ensures Valid()
      ensures selectedFiles == [] && processedData == []
      ensures selectEnabled && !processEnabled && !exportEnabled
    {
      selectedFiles := [];
      processedData := [];
      selectEnabled, processEnabled, exportEnabled := true, false, false;
    }

    /** `handle_select_files`, `files` being what the file dialog returned. */
    method HandleSelectFiles(files: seq<string>, isFile: string -> bool) returns (notices: seq<Notice>)
      requires Valid()
      modifies this
      ensures Valid()
      ensures notices == SelectionNotices(files, isFile)
      ensures selectEnabled == old(selectEnabled)
      ensures files == [] || ValidFiles(files, isFile) == [] ==>
        && selectedFiles == old(selectedFiles)
        && processedData == old(processedData)
        && processEnabled == old(processEnabled)
        && exportEnabled == old(exportEnabled)
      ensures files != [] && ValidFiles(files, isFile) != [] ==>
        && selectedFiles == ValidFiles(files, isFile)
        && processedData == []
        && processEnabled
        && !exportEnabled
    {
      notices := [];
      if files != [] {
        var validFiles := ValidFiles(files, isFile);
        if |validFiles| != |files| {
          var invalidCount := |files| - |validFiles|;
          notices := [InvalidFilesWarning(invalidCount)];
        }
        if validFiles != [] {
          selectedFiles := validFiles;
          processEnabled := true;
          exportEnabled := false;
          processedData := [];
          notices := notices + [FileList(validFiles), StatusLine(FilesSelected(|validFiles|))];
        } else {
          notices := notices + [NoValidFilesWarning];
        }
      }
    }

    /** `handle_process_images`; attempt `i` (from 0) of `process_image` sees
        the file system and the clock as `readings(i)`. */
    method HandleProcessImages(readings: nat -> FileReading) returns (notices: seq<Notice>)
      requires Valid()
      modifies this
      ensures Valid()
      ensures selectedFiles == old(selectedFiles)
      ensures old(selectedFiles) == [] ==>
        && notices == [NoFilesWarning]
        && processedData == old(processedData)
        && selectEnabled == old(selectEnabled)
        && processEnabled == old(processEnabled)
        && exportEnabled == old(exportEnabled)
      ensures old(selectedFiles) != [] ==>
        var total := |selectedFiles|;
        var outcomes := Outcomes(selectedFiles, readings);
        && processedData == Successes(outcomes)
        && notices == [ProgressSetup(total)] + BatchNotices(selectedFiles, outcomes, total)
                      + CompletionNotices(|processedData|)
        && selectEnabled && processEnabled
        && exportEnabled == (processedData != [])
    {
      if selectedFiles == [] {
        notices := [NoFilesWarning];
        return;
      }
      var files := selectedFiles;
      var total := |files|;
      processedData := [];
      var setup := [ProgressSetup(total)];
      processEnabled, selectEnabled, exportEnabled := false, false, false;

      var records, progress := RunBatch(files, readings);
      processedData := records;

      selectEnabled, processEnabled := true, true;
      var count := |records|;
      if count > 0 {
        exportEnabled := true;
        notices := setup + progress + [StatusLine(ProcessingComplete(count)), ProcessedInfo(count)];
      } else {
        notices := setup + progress + [StatusLine(ProcessingFailed)];
      }
    }

    /** `handle_export_csv`; `savePath` is what the save dialog returned (""
        when cancelled) and `writable` whether it can be opened for writing.
        `written` is the table left in the file, if one was opened. */
    method HandleExportCsv(savePath: string, writable: bool) returns (notices: seq<Notice>, written: Option<Table>)
      ensures processedData == [] ==> notices == [NoDataWarning] && written == None
      ensures processedData != [] && !ValidateData(AsItems(processedData)) ==>
        notices == [InvalidDataError] && written == None
      ensures processedData != [] && ValidateData(AsItems(processedData)) && savePath == [] ==>
        notices == [] && written == None
      ensures processedData != [] && ValidateData(AsItems(processedData)) && savePath != [] ==>
        match ExportToCsv(processedData, writable)
        case Ok(table) =>
          && written == Some(table)
          && notices == [StatusLine(DataExported(Basename(savePath))), ExportedInfo(savePath)]
        case Err(e) =>
          && written == (if e.FieldsNotInHeader? then Some(e.written) else None)
          && notices == [ExportErrorShown(e)]
      // what the controller's invariant buys: once the file is open (and the
      // model lets only `open` fail), the data it holds exports in full
      ensures Valid() && processedData != [] && savePath != [] && writable ==>
        && written.Some?
        && written.value.header == RecordFields
        && |written.value.rows| == |processedData|
    {
      written := None;
      if processedData == [] {
        notices := [NoDataWarning];
        return;
      }
      if !ValidateData(AsItems(processedData)) {
        notices := [InvalidDataError];
        return;
      }
      if savePath == [] {
        notices := [];
        return;
      }
      var result := ExportToCsv(processedData, writable);
      match result {
        case Ok(table) =>
          written := Some(table);
          notices := [StatusLine(DataExported(Basename(savePath))), ExportedInfo(savePath)];
        case Err(e) =>
          if e.FieldsNotInHeader? {
            written := Some(e.written);
          }
          notices := [ExportErrorShown(e)];
      }
      if Valid() && writable {
        ExportValidated(processedData, writable);
        assert processedData[0] in processedData;
      }
    }
  }
}
