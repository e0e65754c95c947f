# Image processor: controller, validator and CSV exporter

A Dafny model of the core of a small desktop tool that takes a batch of
image files, extracts a (mock) record from each, and exports the records as
a CSV file. Three parts are modelled:

- **`ImageProcessorApp`** (main.py), the controller. It holds the selected
  files, the processed records and the enabled state of the three buttons
  (select, process, export). It reacts to the three buttons:
  - `handle_select_files` filters the files the dialog returned and replaces the selection;
  - `handle_process_images` runs the batch, tolerating per-file failures;
  - `handle_export_csv` checks the records and writes them out.

  The model is the class `Controller.ImageProcessorApp`, with one method per
  handler. Its invariant `Valid()` ties the buttons to the state and ties the
  records to the selection. Each handler returns the calls it makes on the UI,
  in order, as a sequence of `Notice` values: warnings, status lines, the
  file list, progress-bar updates and info boxes.
- **`ImageProcessor`** (processor.py). `validate_image_file` checks the
  extension case-insensitively against `.png`, `.jpg` and `.jpeg`, as
  `os.path.splitext` computes it, and asks the file system whether the file
  exists. `process_image` builds a fixed eight-field record.
- **`CSVExporter`** (exporter.py). `validate_data` is the schema-uniformity
  check. `export_to_csv` is modelled as the table it writes: a header taken
  from the first record's key order, then one row per record.

The outside world enters as parameters:
- the file dialog's result;
- an `isFile` oracle standing for `os.path.isfile`;
- a `readings` oracle giving, for the `i`-th processing attempt, the file
  size and timestamp, or a read error;
- the save dialog's path, with `""` meaning cancelled;
- a `writable` flag saying whether `open` succeeds; writes after a successful `open` are taken to succeed.

Modules: `Wrappers` (Option, Result), `Paths` (the parts of `os.path` and
`str.lower` the code relies on), `Records` (a Python dict as an ordered list
of entries), `Processor`, `Exporter` and `Controller`.

## Model

| member | source | states |
|---|---|---|
| Paths.RFind | processor.py:61 | the index found holds the character and no later index does; -1 when it is absent |
| Paths.Basename | main.py:84 | the base name is a suffix of the path without '/'; the character before it, if any, is '/' |
| Paths.AllDotsIff | processor.py:61 | the leading-dot scan of `splitext` accepts exactly the strings made only of dots |
| Paths.SplitExt | processor.py:61 | root + extension is the path; a non-empty extension starts with '.' and has no further '.' and no '/' |
| Paths.SplitExtKeepsStem | processor.py:61 | when an extension is found, the root keeps a non-dot character of the final path component |
| Paths.NoExtensionOnlyLeadingDots | processor.py:61 | when no extension is found, no dot of the final component follows a non-dot character (no dot, or a hidden name like `.png`) |
| Paths.Lower | processor.py:61 | definition of ASCII `str.lower`, character by character; what it implies for the validator is carried by `Paths.LowerIdempotent`, `Paths.ExtensionLower` and `Processor.ValidateIgnoresCase` |
| Paths.ExtensionLower | processor.py:61 | the extension of the lower-cased path is the lower-cased extension |
| Paths.LowerIdempotent | processor.py:61 | lower-casing twice is lower-casing once |
| Records.Get | exporter.py:37 | a lookup of a key the dict lacks gives the default |
| Records.GetAt | exporter.py:37 | in a dict without repeated keys, looking up an entry's key gives that entry's value |
| Processor.HasImageExtension | processor.py:60-61 | definition of the extension test: the lower-cased `splitext` extension is `.png`, `.jpg` or `.jpeg`; characterised by `Processor.HasImageExtensionIff` |
| Processor.ValidateImageFile | processor.py:60-62 | definition of `validate_image_file`: the extension test and the `isfile` oracle; characterised by `Processor.ValidateImageFileIff` and `Processor.MissingFileRejected` |
| Processor.ValidateImageFileIff | processor.py:60-62 | a path is accepted iff the file exists and its final component ends, in any case, in `.png`/`.jpg`/`.jpeg` after some non-dot character |
| Processor.HasImageExtensionIff | processor.py:60-61 | the extension test alone accepts exactly the paths named like images |
| Processor.ValidExtensionShape | processor.py:60 | every accepted extension is a dot followed by at least three characters, none of them a dot or '/' |
| Processor.ValidateIgnoresCase | processor.py:61 | two paths that lower-case alike get the same verdict when the file system answers alike (so `IMG.PNG` is treated as `img.png`) |
| Processor.MissingFileRejected | processor.py:62 | an accepted extension does not suffice: a path that is not an existing file is rejected |
| Processor.AcceptedExamples | processor.py:60-61 | `a.tar.png` and `shots/IMG.PNG` have an accepted extension: only the last dot counts, and case is ignored |
| Processor.NoExtensionExamples | processor.py:61 | `README` (no dot) and `.png` (hidden name) have no extension and are rejected |
| Processor.WrongExtensionExamples | processor.py:60-61 | `shots.png/notes` (dot in a directory) and `scan.png.txt` (last extension is `.txt`) are rejected |
| Processor.ProcessImage | processor.py:18-49 | processing succeeds exactly when the file can be read |
| Processor.ProcessImageRecord | processor.py:34-47 | every record has the eight fields in their fixed order and no key twice; `filename` is the base name of the path and `file_path` is the path unchanged |
| Exporter.AllMappings | exporter.py:55 | the scan holds iff every element is a dict |
| Exporter.AllKeysAre | exporter.py:60-61 | the scan holds iff every dict's key set equals the first one's |
| Exporter.ValidateData | exporter.py:39-64 | valid iff non-empty, every element a dict, and every key set equal to the first one's; false on empty input and on any non-dict |
| Exporter.ValidateDataPairwise | exporter.py:59-64 | equivalently: non-empty, all dicts, and all key sets pairwise equal, so the first record is not special |
| Exporter.ValidateDataIgnoresOrder | exporter.py:60-61 | key order and values play no part: lists that agree on being dicts and on key sets get the same verdict |
| Exporter.SingleDictValid | exporter.py:59-64 | a one-element list holding a dict is always valid |
| Exporter.RowOf | exporter.py:37 | the row `csv.DictWriter` writes for a record has one cell per header key, and a key the record lacks gives an empty cell; the cell of a key it has holds its value (`Exporter.RowOfPresent`) |
| Exporter.RowOfPresent | exporter.py:37 | in a record without repeated keys, the cell under each header key the record has holds the record's value for that key |
| Exporter.FirstStray | exporter.py:37 | the first record with a key outside the header, or the record count when there is none |
| Exporter.ExportToCsv | exporter.py:17-37 | empty data fails with `NoData` (even when the file could not be opened); otherwise an unopenable file fails with `CannotOpen`; otherwise the export succeeds iff no record has a key outside the first record's. On success the header is the first record's keys and there is one row per record, in order, each ordered by the header. A record with a stray key fails at the first such record, after the header and the earlier rows, all free of stray keys, were written |
| Exporter.ExportValidated | exporter.py:33-37 | data that passes `validate_data` and whose file opens exports successfully, and every header key is present in every record, so no cell is filled with the empty default |
| Exporter.ExportRoundTrip | exporter.py:33-37 | for data that passes `validate_data`, has no repeated keys and whose file opens, each row read back against the header gives a dict equal, as a mapping, to the record it came from |
| Controller.ValidFiles | main.py:46 | the kept files are exactly the chosen files that pass validation, and there are no more of them than chosen |
| Controller.ValidFilesMultiplicity | main.py:46 | each valid file is kept as often as it was chosen, each invalid file never |
| Controller.ValidFilesConcat | main.py:46 | filtering a concatenation filters each part: the filter keeps the input order |
| Controller.ValidFilesKeepsAll | main.py:46-48 | nothing is dropped iff every chosen file is valid |
| Controller.SelectionNotices | main.py:44-63 | an empty dialog result sends nothing; otherwise the no-valid-files warning is sent exactly when no file is valid, and the file list of the valid files exactly when some is |
| Controller.SkippedWarning | main.py:48-53 | the skipped-files warning appears iff some chosen file is invalid, and its count is `len(files) - len(valid_files)`, which is positive |
| Controller.Outcomes | main.py:83-93 | definition: one outcome per selected file, the `i`-th being `process_image` of file `i` on the `i`-th reading; its consequences are carried by `Controller.FailureIsolated` and `Controller.RunBatch` |
| Controller.Successes | main.py:88-93 | the collected records are never more than the attempts |
| Controller.SuccessesAndFailures | main.py:88-93 | successes plus failures add up to the batch size |
| Controller.FailureIsolated | main.py:88-93 | a failure in the middle of a batch leaves no record and does not affect the records before or after it |
| Controller.SuccessesAreRecords | main.py:83-93 | every record a batch collects has the fixed schema, no repeated key, and the path of one of the batch's files |
| Controller.ProgressOncePerItem | main.py:83-96 | the progress bar is set once per item, to 1, 2, ..., N in turn |
| Controller.OneErrorPerFailure | main.py:88-96 | one error box per failed item, so records plus error boxes equal the batch size |
| Controller.ProcessedRecordsValid | main.py:117 | any non-empty list of `process_image` records passes `validate_data` |
| Controller.RunItem | main.py:84-96 | one pass of the loop: the status line, the error box exactly when processing failed, then the progress value; the record exactly when it succeeded |
| Controller.RunBatch | main.py:83-96 | the loop collects the successes in input order and sends each item's notices in turn; every record collected belongs to one of the files |
| Controller.ImageProcessorApp.constructor | main.py:18-38 | start state: nothing selected, nothing processed, only "select" enabled; the invariant holds |
| Controller.ImageProcessorApp.HandleSelectFiles | main.py:40-63 | keeps the invariant and the select button. An empty dialog result, or one with no valid file, changes no state. Otherwise the selection is replaced (not merged) by the valid files in order, the records are cleared, process is enabled and export disabled. The notices are the skipped warning, then the file list and status, or the no-valid-files warning |
| Controller.ImageProcessorApp.HandleProcessImages | main.py:65-108 | keeps the invariant and never changes the selection. With nothing selected it only warns. Otherwise the records are exactly the successes in input order. Progress is set up for N, then each item's notices follow, then the completion status. Select and process end enabled; export ends enabled iff some record was kept |
| Controller.ImageProcessorApp.HandleExportCsv | main.py:110-136 | changes no state (it modifies nothing). Empty data warns, invalid data errors, and a cancelled dialog does nothing, each before any write. Otherwise the table `export_to_csv` writes is reported, or its error is shown. Under the invariant, in the model, where only `open` can fail, a successful open always writes the fixed header and one row per record |

## Left out

- ui.py is not part of this model: widgets, dialogs, message boxes and layout. The UI calls are recorded as `Notice` values, and message texts are structured values rather than formatted strings. `enable_button`/`disable_button` become three boolean fields; the controller only ever uses the three valid names.
- `main()` and the tkinter event loop (main.py:139-147) are left out. Handlers run one at a time, so there is no concurrency to model.
- Button states during a batch are not modelled, because no handler can run while the batch is running. The three buttons are switched off at the start of `handle_process_images` (main.py:78-80) and set again at its end.
- Controller.ImageProcessorApp.HandleProcessImages: `processed_data` is assigned once after the loop, not appended to item by item. Nothing can observe the state between items. The loop itself is `Controller.RunBatch`.
- `time.sleep` (processor.py:31) is left out. `os.path.getsize`, `time.strftime` and `os.path.isfile` are oracle inputs, and so are the two file dialogs and whether `open` succeeds.
- Processor.ProcessImage: `round(file_size / 1024, 2)` and the constant `0.95` are exact reals, not binary floats. The size arrives already rounded in the reading.
- Processor.ProcessImage: all exceptions of `process_image` collapse into one `Failure` outcome (a read error), and the exception message is not kept.
- Paths.SplitExt: POSIX paths only, with '/' as the separator and no alternative separator or drive letters.
- Paths.Lower: only ASCII 'A'..'Z' are lower-cased. The non-ASCII characters Python lower-cases to ASCII letters are KELVIN SIGN, which becomes 'k', and U+0130, which becomes 'i' plus a combining dot. Neither 'k' nor 'i' occurs in `png`, `jpg` or `jpeg`, so leaving them out never changes the verdict.
- Exporter.ExportToCsv: write and close errors after a successful `open` are not modelled. In the source, a write of the header or of a row (exporter.py:36-37), or the flush when the file is closed, can raise `OSError` (disk full, I/O error), and main.py:135-136 shows it as an export error. In the model only `open` can fail, so validated data that can be opened always exports in full.
- Exporter.ExportToCsv: the CSV text is not modelled, meaning quoting, line endings and number formatting by Python's `csv` module, which is not part of this repository. The model stops at the header and rows. How `csv.DictWriter` turns a dict into a row is modelled: missing keys give an empty cell, and an extra key raises `ValueError` after the earlier rows were written.
- Exporter.ValidateData: the `isinstance(data, list)` test (exporter.py:51-52) always passes on a sequence.
- `validate_data` has no side effects on its input. This holds because it is a function over values.
