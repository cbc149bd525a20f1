# Ransomware file scanner: byte statistics and feature vector

A Dafny model of the deterministic core of a file scanner. The scanner
turns an uploaded file's bytes into a feature dictionary and projects it
onto a five-entry row. A pre-trained RandomForest classifies the row, and
the 0/1 label becomes a verdict string. The model covers:

- `calc_entropy` and `extract_features` from `app.py`;
- the pure steps of the `/api/scan_file` handler: the failure guard, the
  five-field projection and the verdict;
- the helpers `get_extension`, `sample_non_printable_pct` and
  `pseudo_entropy_from_bytes` from `features.py`.

Bytes are `Byte = b: int | 0 <= b < 256`. Reading a file is an
`Option<seq<Byte>>`, with `None` for the `except` path. Ratios and entropy
are `real`. Three things the code calls but cannot see are parameters:

- the base-2 logarithm, `log2: real -> real`;
- Python's per-process salted string hash, `hash: string -> int`;
- the classifier's `predict`, `Classifier = seq<real> -> int`.

Modules, one per concern:

| file | module | models |
|---|---|---|
| bytes.dfy | `Bytes` | byte classes `[ -~]`, `> 127`, `< 32 or > 126`; counting |
| histogram.dfy | `ByteHistogram` | `np.bincount` and sums over non-empty buckets |
| entropy.dfy | `Entropy` | `calc_entropy` |
| printable_runs.dfy | `PrintableRuns` | `len(re.findall(rb"[ -~]{4,}", content))` |
| path_ext.dfy | `PathExt` | `os.path.splitext` (POSIX), `get_extension` |
| feature_helpers.dfy | `FeatureHelpers` | `Counter`, `pseudo_entropy_from_bytes`, `sample_non_printable_pct` |
| features.dfy | `Features` | `extract_features` |
| scan.dfy | `Scan` | the failure guard, model row, verdict and entry of `scan_file` |

Two definitions have an independent reference they are proved equal to:

- `num_strings` is modelled as the regex engine's scan. It is proved equal
  to the number of maximal printable runs of length four or more. A
  single-pass O(n) counter is proved equal to both.
- `pseudo_entropy_from_bytes` sums over a `Counter`, kept in first-seen
  order. It is proved equal to `calc_entropy` (a sum over histogram
  buckets) with the cap at 8 applied.

## Model

| member | source | states |
|---|---|---|
| Bytes.NonAsciiPrintableDisjoint | app.py:56-57 | no byte is both above 127 and in 0x20..0x7E, so the two counts add up to at most the length |
| Bytes.NonPrintableComplement | features.py:8 | `x < 32 or x > 126` is the complement of `[ -~]`: non-printable count plus printable count equals the length |
| ByteHistogram.Histogram | app.py:43 | 256 buckets; bucket `v` holds the number of occurrences of byte value `v` |
| ByteHistogram.HistogramSum | app.py:43-44 | the histogram's buckets add up to `len(data)` |
| Entropy.CalcEntropy | app.py:40-42 | empty input has entropy 0 |
| Entropy.ProbabilityMassIsOne | app.py:43-44 | for non-empty data the frequencies of the non-empty buckets add up to 1, so dropping empty buckets loses no mass |
| Entropy.EntropyNonNegative | app.py:43-45 | entropy is at least 0 whenever log2 is not positive on (0, 1] |
| Entropy.ConstantDataEntropyZero | app.py:43-45 | data made of one repeated byte value has entropy 0, given log2(1) = 0 |
| Entropy.EntropyPermutationInvariant | app.py:43-45 | entropy depends only on the multiset of bytes, not on their order |
| PrintableRuns.RunLen | app.py:55 | the printable run from `i` is maximal: every byte in it is in 0x20..0x7E and the next byte, if any, is not |
| PrintableRuns.NumStrings | app.py:55 | matches do not overlap and are at least 4 long: `4 * num_strings <= len(content)`, hence 0 on empty input |
| PrintableRuns.FindAllCountsLongRuns | app.py:55 | from any position the greedy scan can reach, it counts exactly the maximal long runs that begin there or later |
| PrintableRuns.NumStringsCountsMaximalRuns | app.py:55 | `num_strings` equals the number of maximal runs of bytes in 0x20..0x7E whose length is at least 4 |
| PrintableRuns.NoPrintableNoStrings | app.py:55 | content with no byte in 0x20..0x7E has no strings |
| PrintableRuns.CountStringsOnePass | app.py:55 | a single O(n) pass that closes runs at non-printable bytes yields the same count as the regex scan |
| PathExt.RFind | features.py:3 | the index of the last occurrence of the character, or -1: that character is there and none comes after it |
| PathExt.HasNonDot | features.py:3 | the leading-dot loop of `splitext` answers whether some character in the range is not a dot |
| PathExt.SplitExt | app.py:59 | `root + ext == path`, and the extension is empty or one dot followed by text with no dot and no `/` |
| PathExt.SplitExtOfFinalComponent | app.py:59 | the extension depends only on the final path component |
| PathExt.LStripDots | features.py:3 | `lstrip('.')` removes exactly the leading dots: what remains is a suffix that does not start with a dot |
| PathExt.AsciiLower | features.py:3 | `lower()` on ASCII keeps the length, maps A..Z to a..z and leaves every other character alone |
| PathExt.GetExtension | features.py:3 | the result contains no dot (so never starts with one) and no upper-case ASCII letter |
| PathExt.NoExtension | features.py:3 | "" when the final component has no dot or only leading dots (`.bashrc`) |
| PathExt.ExtensionAfterLastDot | features.py:3 | otherwise the lower-cased text after the last dot of the final component |
| FeatureHelpers.CounterAdd | features.py:14 | counting one more `x` raises `x`'s count by one, leaves every other count alone, adds `x` to the keys and 1 to the total |
| FeatureHelpers.Tally | features.py:14 | `Counter(b)` has distinct keys with positive counts; its keys are exactly the byte values that occur, each with its number of occurrences; its values sum to `t = len(b)` |
| FeatureHelpers.TallyMatchesHistogram | features.py:14-15 | summing over the counter's values equals summing over the histogram's non-empty buckets |
| FeatureHelpers.PseudoEntropy | features.py:12-16 | 0 on empty input, never above 8 |
| FeatureHelpers.PseudoEntropyIsCappedCalcEntropy | features.py:11-16 | `pseudo_entropy_from_bytes` is `min(8, calc_entropy)` before rounding |
| FeatureHelpers.PseudoEntropyRange | features.py:16 | the result lies in [0, 8] whenever log2 is not positive on (0, 1] |
| FeatureHelpers.ReadUpTo | features.py:6 | `f.read(n)` yields a prefix of the file, `n` bytes or the whole file if shorter, and the whole file for negative `n` |
| FeatureHelpers.Percent | features.py:9 | a count out of a length, as a percentage, lies in [0, 100] |
| FeatureHelpers.SampleNonPrintablePct | features.py:4-10 | the percentage lies in [0, 100]; it is 0 when reading fails and whenever the sample read is empty (sample size 0, or an empty file) |
| FeatureHelpers.DefaultSampleNonPrintablePct | features.py:4-10 | with the default `sample_bytes=1024` the percentage lies in [0, 100], is 0 when reading fails, and for a longer file equals the percentage of its first 1024 bytes |
| FeatureHelpers.SampleSeesOnlyPrefix | features.py:6 | bytes after the first `sample_bytes` never change the result |
| FeatureHelpers.SamplePctIsPrintableComplement | features.py:8-9 | the percentage is the share of sampled bytes outside 0x20..0x7E |
| Features.Ratio | app.py:56-57 | a share lies in [0, 1], is 0 exactly when the count is 0 and, on a non-empty whole, 1 exactly when the count is the whole |
| Features.RatioSum | app.py:56-57 | shares of two disjoint parts of one whole add up to at most 1 |
| Features.NonAsciiRatio | app.py:56 | in [0, 1]; 0 exactly when no byte is above 127 (so 0 for empty content); 1 exactly when every byte is |
| Features.PrintableRatio | app.py:57 | in [0, 1]; 0 exactly when no byte is in 0x20..0x7E (so 0 for empty content); 1 exactly when every byte is |
| Features.RatiosSumAtMostOne | app.py:56-57 | `non_ascii_ratio + printable_ratio <= 1` |
| Features.IsPe | app.py:58 | 1 exactly when there are at least two bytes and they are 0x4D 0x5A (`MZ`), otherwise 0, with no error on short content |
| Features.ExtensionCode | app.py:59 | the extension code lies in 0..9 whatever the hash returns |
| Features.ExtractFeatures | app.py:47-65 | `None` exactly when reading failed; otherwise the file size is the byte count, and ratios, PE flag, string count and extension code keep their ranges |
| Features.EmptyFileFeatures | app.py:52-58 | empty content gives size 0, entropy 0, no strings, both ratios 0 and no PE flag |
| Scan.ModelVector | app.py:112-117 | the row has five entries, and entry `i` is the dictionary's value for the `i`-th schema key |
| Scan.ModelSchemaIsComputedMinusUnused | app.py:112-117 | the schema is the dictionary's key order without `printable_ratio` and `extension`, and every dictionary key can be looked up in every feature set |
| Scan.VectorSeesOnlyConsumedFields | app.py:112-117 | two feature sets give the same row exactly when they agree on file size, entropy, string count, non-ASCII ratio and PE flag |
| Scan.Verdict | app.py:121 | label 1 gives "Ransomware Detected!", every other label "File is Safe." |
| Scan.Join | app.py:105 | `os.path.join`: an absolute name replaces the folder, otherwise folder and name are joined by one `/` |
| Scan.ScanFile | app.py:108-130 | a 500 error exactly when extraction or model loading failed; otherwise the entry holds the features extracted from the saved file `uploads/<filename>`, the model's prediction on their five-entry row and `Verdict` of that prediction: the detection string for label 1, the safe string otherwise |
| Scan.VerdictIgnoresFilename | app.py:108-121 | the same content under any two names gets the same prediction and verdict, since the extension code is not in the row |
| Scan.TenZeroBytesRow | app.py:108-120 | a ten-byte all-zero file is classified on the row [10, 0, 0, 0, 0], given log2(1) = 0 |

## Left out

- HTTP plumbing is left out: routes, static files, CORS, the upload checks and `file.save` (app.py:84-106), and `secure_filename`. `filename` is taken as already secured.
- MongoDB is left out: the connection, `insert_one`, `find` and the `/api/logs` route (app.py:18-28, 68-81, 132-149). These are external persistence.
- Scan.ScanFile: the entry holds the features as extracted; `sanitize_for_mongo(features)` (app.py:126) is a numpy-to-Python type conversion that leaves the values alone. The `_id` key added after the insert (app.py:135, 138) is not part of the entry.
- Model and encoder loading (app.py:31-37) is left out. A failed load is `None`, and `predict` is a parameter. The RandomForest internals, `train_model.py` and `frontend/script.js` are not part of this model.
- Floating point is left out: entropy and ratios are exact reals, `round(..., 3)` and `round(..., 2)` are dropped, and so is the order of float summation.
- The logarithm is left out: `log2` is a parameter, and only the facts each lemma states about it are assumed.
- `file_size_kb` (features.py:17-19) is left out: it is float division and rounding of `os.path.getsize`.
- `os.path.getsize` is modelled as the number of bytes read.
- Python's `hash` is a parameter, because it is salted per process.
- The clock, `datetime.utcnow()`, is the `timestamp` parameter.
- Entropy.CalcEntropy: the upper bound of 8 bits per byte is not proved. It needs the concavity of the logarithm (Gibbs' inequality), which an abstract `log2` does not supply. Only the lower bound 0 is proved.
- PathExt.AsciiLower: only ASCII letters are lower-cased. Python's `str.lower()` also maps non-ASCII upper-case letters.
- PathExt.SplitExt: POSIX paths only. `\` is not a separator.

## Notes on the code

- There is no schema-mismatch path. The five keys of the row are hard-coded, and the dictionary literal always has all seven keys, so a lookup never fails.
- Failed feature extraction and a model that failed to load give the same answer: a 500 with one message.
- The label encoder is loaded but never used. `extension` is `hash(ext) % 10`, and the classifier does not consume it.
- `if not features` only catches `None`, because the returned dictionary is never empty.
