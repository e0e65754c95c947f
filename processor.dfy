/** `ImageProcessor` (processor.py): the image-file validator and the mock
    record builder. The file system and the clock are inputs: `isFile` stands
    for `os.path.isfile`, a `FileReading` for what `os.path.getsize` and
    `time.strftime` returned when the file was processed. */
module Processor {
  import opened Paths
  import opened Records

  /** `valid_extensions` in `validate_image_file`. */
  const ValidExtensions: set<string> := {".png", ".jpg", ".jpeg"}

  /** The keys of every record `process_image` builds, in insertion order. */
  const RecordFields: seq<string> := [
    "filename", "file_path", "file_size_kb", "processed_timestamp",
    "mock_width", "mock_height", "mock_detected_objects", "mock_confidence_score"
  ]

  /** `os.path.splitext(path)[1].lower() in valid_extensions`. */
  predicate HasImageExtension(path: string) {
    Lower(Extension(path)) in ValidExtensions
  }

  /** The declarative reading of the extension check: the final path
      component ends, case-insensitively, in `.png`, `.jpg` or `.jpeg`, and
      something other than dots comes before that ending in the component. */
  ghost predicate NamedLikeImage(path: string) {
    var sep := RFind(path, '/');
    exists k :: sep < k < |path| && !AllDots(path[sep + 1..k]) && Lower(path[k..]) in ValidExtensions
  }

  /** `validate_image_file`: an accepted extension, whatever its case, and an
      existing regular file. */
  predicate ValidateImageFile(path: string, isFile: string -> bool) {
    HasImageExtension(path) && isFile(path)
  }

  /** The validator accepts exactly the existing files named like images. */
  lemma ValidateImageFileIff(path: string, isFile: string -> bool)
    ensures ValidateImageFile(path, isFile) <==> NamedLikeImage(path) && isFile(path)
  {
    HasImageExtensionIff(path);
  }

  /** No character of an accepted extension after its first one is a dot. */
  lemma ValidExtensionShape(e: string)
    requires e in ValidExtensions
    ensures |e| >= 4 && e[0] == '.' && forall i :: 1 <= i < |e| ==> e[i] != '.' && e[i] != '/'
  {
  }

  /** A lower-cased suffix that is an accepted extension starts at the last dot of the path. */
  lemma {:induction false} LastDotOfImageSuffix(path: string, k: nat)
    requires k < |path| && Lower(path[k..]) in ValidExtensions
    ensures RFind(path, '.') == k && RFind(path, '/') < k
  {
    var e := Lower(path[k..]);
    ValidExtensionShape(e);
    forall i | k < i < |path| ensures path[i] != '.' && path[i] != '/' {
      assert e[i - k] == LowerChar(path[i]);
    }
    assert path[k] == '.' by { assert e[0] == LowerChar(path[k]); }
  }

  /** The extension check accepts exactly the paths named like images. */
  lemma HasImageExtensionIff(path: string)
    ensures HasImageExtension(path) <==> NamedLikeImage(path)
  {
    var sep, dot := RFind(path, '/'), RFind(path, '.');
    if HasImageExtension(path) {
      assert dot > sep && !AllDots(path[sep + 1..dot]);
      assert Extension(path) == path[dot..];
    }
    if NamedLikeImage(path) {
      var k :| sep < k < |path| && !AllDots(path[sep + 1..k]) && Lower(path[k..]) in ValidExtensions;
      LastDotOfImageSuffix(path, k);
      assert Extension(path) == path[k..];
    }
  }

  /** Extension matching ignores case: two paths that lower-case alike are
      accepted alike when the file system answers alike for them. */
  lemma ValidateIgnoresCase(p: string, q: string, isFile: string -> bool)
    requires Lower(p) == Lower(q) && isFile(p) == isFile(q)
    ensures ValidateImageFile(p, isFile) == ValidateImageFile(q, isFile)
  {
    ExtensionLower(p);
    ExtensionLower(q);
    LowerIdempotent(Extension(p));
    LowerIdempotent(Extension(q));
  }

  /** An accepted extension is not enough: a path the file system does not
      report as a regular file is rejected. */
  lemma MissingFileRejected(path: string, isFile: string -> bool)
    requires HasImageExtension(path) && !isFile(path)
    ensures !ValidateImageFile(path, isFile)
  {
  }

  /** Accepted names: only the final dot counts, and case does not matter. */
  lemma AcceptedExamples()
    ensures HasImageExtension("a.tar.png")
    ensures HasImageExtension("shots/IMG.PNG")
  {
    var p := "a.tar.png";
    RFindIs(p, '/', -1);
    RFindIs(p, '.', 5);
    assert !AllDots(p[0..5]);
    assert Lower(p[5..]) == ".png";
    var q := "shots/IMG.PNG";
    RFindIs(q, '/', 5);
    RFindIs(q, '.', 9);
    assert !AllDots(q[6..9]);
    assert Lower(q[9..]) == ".png";
  }

  /** Rejected names: no dot at all, and a leading dot of a hidden file, give
      no extension. */
  lemma NoExtensionExamples()
    ensures !HasImageExtension("README")
    ensures !HasImageExtension(".png")
  {
    RFindIs("README", '/', -1);
    RFindIs("README", '.', -1);
    RFindIs(".png", '/', -1);
    RFindIs(".png", '.', 0);
  }

  /** Rejected names: a dot in a directory name is not an extension, and
      only the last extension is looked at. */
  lemma WrongExtensionExamples()
    ensures !HasImageExtension("shots.png/notes")
    ensures !HasImageExtension("scan.png.txt")
  {
    var p := "shots.png/notes";
    RFindIs(p, '/', 9);
    RFindIs(p, '.', 5);
    var q := "scan.png.txt";
    RFindIs(q, '/', -1);
    RFindIs(q, '.', 8);
    assert !AllDots(q[0..8]);
    assert Lower(q[8..]) == ".txt";
  }

  /** What the file system and the clock gave `process_image` for one file:
      the size in kB (already rounded) and the formatted timestamp, or an
      error from `os.path.getsize`. */
  datatype FileReading = Readable(sizeKb: real, timestamp: string) | Unreadable

  /** One attempt at `process_image`: its record, or the exception it raised. */
  datatype Outcome = Success(record: Dict) | Failure

  /** `process_image`: the mock record, or a failure when the file cannot be read. */
  function ProcessImage(path: string, reading: FileReading): (o: Outcome)
    ensures o.Success? <==> reading.Readable?
  {
    match reading
    case Unreadable => Failure
    case Readable(sizeKb, timestamp) =>
      Success([
        Field("filename", Str(Basename(path))),
        Field("file_path", Str(path)),
        Field("file_size_kb", Float(sizeKb)),
        Field("processed_timestamp", Str(timestamp)),
        Field("mock_width", Int(1920)),
        Field("mock_height", Int(1080)),
        Field("mock_detected_objects", Str("person, car, tree")),
        Field("mock_confidence_score", Float(0.95))
      ])
  }

  /** Every record `process_image` builds has the same eight keys in the
      same order, no key twice, the file's base name under `filename` and the
      path itself under `file_path`. */
  lemma ProcessImageRecord(path: string, reading: FileReading)
    requires reading.Readable?
    ensures var d := ProcessImage(path, reading).record;
      && Keys(d) == RecordFields
      && WellFormed(d)
      && Get(d, "filename", Str("")) == Str(Basename(path))
      && Get(d, "file_path", Str("")) == Str(path)
  {
  }
}
