/** The pure logic of the `/api/scan_file` handler in app.py once the
    upload is saved: extract the features, refuse to classify when
    extraction or model loading failed, project the features onto the
    five-entry vector the classifier was trained on, classify, and turn the
    label into a verdict. */
module Scan {
  import opened Bytes
  import opened Features
  import Entropy
  import PrintableRuns

  /** The loaded RandomForest's `predict` on one row. It is a foreign
      library, so it is a parameter; `None` is a model that failed to load
      at start-up. */
  type Classifier = seq<real> -> int

  /** The keys of the feature dictionary, in the order it is built. */
  const FeatureKeys: seq<string> :=
    ["file_size", "entropy", "num_strings", "non_ascii_ratio", "printable_ratio", "is_pe", "extension"]

  /** The columns the classifier consumes, in order. `printable_ratio` and
      `extension` are computed but not among them. */
  const ModelSchema: seq<string> :=
    ["file_size", "entropy", "num_strings", "non_ascii_ratio", "is_pe"]

  /** `features[key]` after `np.array` has turned every value into a
      float; `None` stands for a `KeyError`. */
  function Lookup(f: FeatureSet, key: string): Option<real> {
    if key == "file_size" then Some(f.fileSize as real)
    else if key == "entropy" then Some(f.entropy)
    else if key == "num_strings" then Some(f.numStrings as real)
    else if key == "non_ascii_ratio" then Some(f.nonAsciiRatio)
    else if key == "printable_ratio" then Some(f.printableRatio)
    else if key == "is_pe" then Some(f.isPe as real)
    else if key == "extension" then Some(f.extension as real)
    else None
  }

  /** The row `X` handed to `model.predict`: five entries, each the value
      of the schema key in the same position. */
  function ModelVector(f: FeatureSet): (x: seq<real>)
    ensures |x| == |ModelSchema|
    ensures forall i :: 0 <= i < |x| ==> Lookup(f, ModelSchema[i]) == Some(x[i])
  {
    [f.fileSize as real, f.entropy, f.numStrings as real, f.nonAsciiRatio, f.isPe as real]
  }

  /** The schema is the dictionary's key order with exactly
      `printable_ratio` and `extension` left out. */
  lemma ModelSchemaIsComputedMinusUnused()
    ensures ModelSchema == FeatureKeys[..4] + [FeatureKeys[5]]
    ensures forall k :: k in FeatureKeys ==> (k in ModelSchema <==> k != "printable_ratio" && k != "extension")
    ensures forall f: FeatureSet, k :: k in FeatureKeys ==> Lookup(f, k).Some?
  {
  }

  /** Two feature sets give the same row exactly when they agree on the
      five consumed fields: whatever `printable_ratio` and `extension` are,
      the classifier never sees them. */
  lemma VectorSeesOnlyConsumedFields(f: FeatureSet, g: FeatureSet)
    ensures ModelVector(f) == ModelVector(g)
        <==> (f.fileSize == g.fileSize && f.entropy == g.entropy && f.numStrings == g.numStrings
              && f.nonAsciiRatio == g.nonAsciiRatio && f.isPe == g.isPe)
  {
    if ModelVector(f) == ModelVector(g) {
      assert ModelVector(f)[0] == ModelVector(g)[0];
      assert ModelVector(f)[2] == ModelVector(g)[2];
      assert ModelVector(f)[4] == ModelVector(g)[4];
    }
  }

  const DetectedVerdict: string := "\U{1F6A8} Ransomware Detected!"
  const SafeVerdict: string := "\U{2705} File is Safe."

  /** `result_text`: label 1 is a detection, every other label is safe. */
  function Verdict(pred: int): (v: string)
    ensures v == DetectedVerdict || v == SafeVerdict
    ensures v == DetectedVerdict <==> pred == 1
  {
    if pred == 1 then DetectedVerdict else SafeVerdict
  }

  /** Where uploads are saved. */
  const UploadFolder: string := "uploads"

  /** `os.path.join(a, b)` for two parts: an absolute `b` replaces `a`. */
  function Join(a: string, b: string): (p: string)
    ensures |b| > 0 && b[0] == '/' ==> p == b
    ensures (|b| == 0 || b[0] != '/') && |a| > 0 && a[|a| - 1] != '/' ==> p == a + "/" + b
  {
    if |b| > 0 && b[0] == '/' then b
    else if |a| == 0 || a[|a| - 1] == '/' then a + b
    else a + "/" + b
  }

  /** The scan log entry returned to the caller (before persistence). */
  datatype ScanEntry = ScanEntry(
    filename: string,
    features: FeatureSet,
    prediction: int,
    result: string,
    timestamp: string)

  /** The handler's answer: an error with its HTTP status, or an entry. */
  datatype ScanResponse =
    | Failed(status: nat, message: string)
    | Scanned(entry: ScanEntry)

  const ServerError: nat := 500
  const ExtractionOrModelError: string := "Feature extraction or model loading failed"

  /** Lines 108-121 of the handler with the entry built after them.
      `filename` is the already secured upload name, `read` the saved
      file's content (`None` when reading it raised), `model` the loaded
      classifier (`None` when loading failed) and `timestamp` the clock's
      reading. */
  function ScanFile(
    filename: string, read: Option<seq<Byte>>, model: Option<Classifier>,
    hash: string -> int, log2: real -> real, timestamp: string)
    : (r: ScanResponse)
    ensures r.Failed? <==> read.None? || model.None?
    ensures r.Failed? ==> r.status == ServerError && r.message == ExtractionOrModelError
    ensures r.Scanned? ==>
      && r.entry.filename == filename
      && r.entry.timestamp == timestamp
      && r.entry.features == ExtractFeatures(read, Join(UploadFolder, filename), hash, log2).value
      && WellFormed(r.entry.features)
      && r.entry.features.fileSize == |read.value|
      && r.entry.prediction == model.value(ModelVector(r.entry.features))
      && r.entry.result == Verdict(r.entry.prediction)
  {
    var features := ExtractFeatures(read, Join(UploadFolder, filename), hash, log2);
    if features.None? || model.None? then
      Failed(ServerError, ExtractionOrModelError)
    else
      var pred := model.value(ModelVector(features.value));
      Scanned(ScanEntry(filename, features.value, pred, Verdict(pred), timestamp))
  }

  /** The upload's name, through the extension code, never influences the
      prediction or the verdict: the same content under any two names is
      classified alike. */
  lemma VerdictIgnoresFilename(
    content: seq<Byte>, name1: string, name2: string, model: Classifier,
    hash: string -> int, log2: real -> real, timestamp: string)
    ensures var r1 := ScanFile(name1, Some(content), Some(model), hash, log2, timestamp);
            var r2 := ScanFile(name2, Some(content), Some(model), hash, log2, timestamp);
            r1.Scanned? && r2.Scanned?
            && r1.entry.prediction == r2.entry.prediction
            && r1.entry.result == r2.entry.result
  {
    var f1 := ExtractFeatures(Some(content), Join(UploadFolder, name1), hash, log2).value;
    var f2 := ExtractFeatures(Some(content), Join(UploadFolder, name2), hash, log2).value;
    VectorSeesOnlyConsumedFields(f1, f2);
  }

  /** A ten-byte all-zero file is classified on the row [10, 0, 0, 0, 0]
      (given `log2(1) == 0`). */
  lemma TenZeroBytesRow(
    filename: string, model: Classifier, hash: string -> int, log2: real -> real, timestamp: string)
    requires log2(1.0) == 0.0
    ensures var r := ScanFile(filename, Some(seq(10, _ => 0)), Some(model), hash, log2, timestamp);
            r.Scanned? && ModelVector(r.entry.features) == [10.0, 0.0, 0.0, 0.0, 0.0]
            && r.entry.prediction == model([10.0, 0.0, 0.0, 0.0, 0.0])
  {
    var content: seq<Byte> := seq(10, _ => 0);
    assert forall i :: 0 <= i < |content| ==> !Printable(content[i]) && !NonAscii(content[i]);
    Entropy.ConstantDataEntropyZero(content, log2);
    PrintableRuns.NoPrintableNoStrings(content, 0);
  }
}
