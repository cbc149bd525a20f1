/** `extract_features` of app.py: the feature dictionary computed from a
    file's bytes and its path. */
module Features {
  import opened Bytes
  import opened Entropy
  import opened PrintableRuns
  import opened PathExt

  /** The dictionary `extract_features` returns. `extension` is the
      hashed code of the raw extension, not the extension itself. */
  datatype FeatureSet = FeatureSet(
    fileSize: nat,
    entropy: real,
    numStrings: nat,
    nonAsciiRatio: real,
    printableRatio: real,
    isPe: nat,
    extension: int)

  /** `% 10`: the number of extension codes. */
  const ExtensionBuckets: int := 10

  /** The `MZ` magic of DOS/PE executables. */
  const PeMagic: seq<Byte> := [0x4D, 0x5A]

  /** `count / n if n > 0 else 0`. */
  function Ratio(count: nat, n: nat): (r: real)
    requires count <= n
    ensures 0.0 <= r <= 1.0
    ensures r == 0.0 <==> count == 0
    ensures n > 0 ==> (r == 1.0 <==> count == n)
  {
    if n > 0 then
      ShareFacts(count, n);
      count as real / n as real
    else 0.0
  }

  /** The real-arithmetic facts behind `Ratio`, one step at a time. */
  lemma ShareFacts(count: nat, n: nat)
    requires 0 < n && count <= n
    ensures var r := count as real / n as real;
            0.0 <= r <= 1.0 && (r == 0.0 <==> count == 0) && (r == 1.0 <==> count == n)
  {
    var r := count as real / n as real;
    assert r * n as real == count as real;
    assert (1.0 - r) * n as real == (n - count) as real;
    assert 0.0 <= (1.0 - r) * n as real;
    if r == 1.0 {
      assert count as real == n as real;
    }
  }

  /** Two shares of disjoint parts of one whole add up to at most 1. */
  lemma RatioSum(a: nat, b: nat, n: nat)
    requires a + b <= n
    ensures Ratio(a, n) + Ratio(b, n) <= 1.0
  {
    if n > 0 {
      var x, y, z := Ratio(a, n), Ratio(b, n), Ratio(a + b, n);
      assert x == a as real / n as real;
      assert y == b as real / n as real;
      assert z == (a + b) as real / n as real;
      assert x + y == z;
    }
  }

  /** `non_ascii_ratio`: the share of bytes above 127, 0 for empty
      content. */
  function NonAsciiRatio(s: seq<Byte>): (r: real)
    ensures 0.0 <= r <= 1.0
    ensures r == 0.0 <==> forall i :: 0 <= i < |s| ==> !NonAscii(s[i])
    ensures |s| > 0 ==> (r == 1.0 <==> forall i :: 0 <= i < |s| ==> NonAscii(s[i]))
  {
    Ratio(CountIf(s, NonAscii), |s|)
  }

  /** `printable_ratio`: the share of bytes matching `[ -~]`, 0 for empty
      content. */
  function PrintableRatio(s: seq<Byte>): (r: real)
    ensures 0.0 <= r <= 1.0
    ensures r == 0.0 <==> forall i :: 0 <= i < |s| ==> !Printable(s[i])
    ensures |s| > 0 ==> (r == 1.0 <==> forall i :: 0 <= i < |s| ==> Printable(s[i]))
  {
    Ratio(CountIf(s, Printable), |s|)
  }

  /** Bytes above 127 and bytes in 0x20..0x7E are disjoint classes, so the
      two ratios never add up to more than 1. */
  lemma RatiosSumAtMostOne(s: seq<Byte>)
    ensures NonAsciiRatio(s) + PrintableRatio(s) <= 1.0
  {
    NonAsciiPrintableDisjoint(s);
    RatioSum(CountIf(s, NonAscii), CountIf(s, Printable), |s|);
  }

  /** `int(content[:2] == b"MZ")`: slicing never fails, so content shorter
      than two bytes just compares unequal. */
  function IsPe(s: seq<Byte>): (r: nat)
    ensures r == 0 || r == 1
    ensures r == 1 <==> |s| >= 2 && s[0] == 0x4D && s[1] == 0x5A
  {
    var head := if |s| < 2 then s else s[..2];
    if head == PeMagic then 1 else 0
  }

  /** `hash(os.path.splitext(path)[1]) % 10`. Python's string hash is
      salted per process, so it is a parameter; Python's `%` by a positive
      number agrees with Dafny's. */
  function ExtensionCode(path: string, hash: string -> int): (r: int)
    ensures 0 <= r < ExtensionBuckets
  {
    hash(SplitExt(path).1) % ExtensionBuckets
  }

  /** The ranges the feature dictionary keeps. */
  predicate WellFormed(f: FeatureSet) {
    && 0.0 <= f.nonAsciiRatio <= 1.0
    && 0.0 <= f.printableRatio <= 1.0
    && f.nonAsciiRatio + f.printableRatio <= 1.0
    && (f.isPe == 0 || f.isPe == 1)
    && MinRun * f.numStrings <= f.fileSize
    && 0 <= f.extension < ExtensionBuckets
  }

  /** The dictionary computed from `content`, the bytes read from `path`
      (whose size `os.path.getsize` reports as their number). */
  function Compute(content: seq<Byte>, path: string, hash: string -> int, log2: real -> real): FeatureSet {
    FeatureSet(
      fileSize := |content|,
      entropy := CalcEntropy(content, log2),
      numStrings := NumStrings(content),
      nonAsciiRatio := NonAsciiRatio(content),
      printableRatio := PrintableRatio(content),
      isPe := IsPe(content),
      extension := ExtensionCode(path, hash))
  }

  /** `extract_features(path)`: `read` is the file's content, or `None`
      when opening or reading it raised, in which case the function
      returns `None`. */
  function ExtractFeatures(read: Option<seq<Byte>>, path: string, hash: string -> int, log2: real -> real)
    : (r: Option<FeatureSet>)
    ensures r.None? <==> read.None?
    ensures r.Some? ==> WellFormed(r.value) && r.value.fileSize == |read.value|
  {
    match read
    case None => None
    case Some(content) =>
      RatiosSumAtMostOne(content);
      Some(Compute(content, path, hash, log2))
  }

  /** Empty content yields all-zero statistics (and no error): entropy 0,
      no strings, both ratios 0, not PE. */
  lemma EmptyFileFeatures(path: string, hash: string -> int, log2: real -> real)
    ensures var r := ExtractFeatures(Some([]), path, hash, log2);
            r.Some? && r.value.fileSize == 0 && r.value.entropy == 0.0
            && r.value.numStrings == 0 && r.value.nonAsciiRatio == 0.0
            && r.value.printableRatio == 0.0 && r.value.isPe == 0
  {
  }
}
