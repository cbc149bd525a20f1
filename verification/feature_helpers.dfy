/** The byte helpers of features.py: `pseudo_entropy_from_bytes`, built on
    a `collections.Counter`, and `sample_non_printable_pct`, which reads a
    prefix of the file. (`get_extension` is in module PathExt.) */
module FeatureHelpers {
  import opened Bytes
  import opened ByteHistogram
  import opened Entropy

  /** The cap `min(8.0, e)` puts on the entropy. */
  const MaxEntropy: real := 8.0

  /** The default `sample_bytes`. */
  const DefaultSampleBytes: int := 1024

  /** Python's `min(a, b)` on reals. */
  function Min(a: real, b: real): real {
    if b < a then b else a
  }

  /** A `collections.Counter` of bytes: (value, count) entries in the order
      in which the values first occurred. */
  type Counter = seq<(Byte, nat)>

  /** The values the counter has seen. */
  function Keys(c: Counter): set<Byte> {
    if |c| == 0 then {} else {c[0].0} + Keys(c[1..])
  }

  /** `c[x]`, 0 for a value never seen. */
  function CountOf(c: Counter, x: Byte): nat {
    if |c| == 0 then 0
    else if c[0].0 == x then c[0].1
    else CountOf(c[1..], x)
  }

  /** Each value appears once and only with a positive count. */
  predicate Valid(c: Counter) {
    |c| == 0 || (c[0].0 !in Keys(c[1..]) && c[0].1 > 0 && Valid(c[1..]))
  }

  /** `sum(c.values())`. */
  function Total(c: Counter): nat {
    if |c| == 0 then 0 else c[0].1 + Total(c[1..])
  }

  /** Sum of `f(v)` over the counter's values, in insertion order. */
  function SumValues(c: Counter, f: nat -> real): real {
    if |c| == 0 then 0.0 else f(c[0].1) + SumValues(c[1..], f)
  }

  /** Counting one more occurrence of `x`: its entry goes up by one, or a
      new entry `(x, 1)` is appended. */
  function CounterAdd(c: Counter, x: Byte): (r: Counter)
    ensures Keys(r) == Keys(c) + {x}
    ensures forall y: Byte :: CountOf(r, y) == CountOf(c, y) + (if y == x then 1 else 0)
    ensures Total(r) == Total(c) + 1
    ensures Valid(c) ==> Valid(r)
  {
    if |c| == 0 then [(x, 1)]
    else if c[0].0 == x then
      assert ([(x, c[0].1 + 1)] + c[1..])[1..] == c[1..];
      [(x, c[0].1 + 1)] + c[1..]
    else
      var rest := CounterAdd(c[1..], x);
      assert ([c[0]] + rest)[1..] == rest;
      [c[0]] + rest
  }

  /** A value the counter has seen has a positive count, any other value
      has count 0. */
  lemma {:induction false} CountOfKeys(c: Counter, x: Byte)
    requires Valid(c)
    ensures x in Keys(c) <==> CountOf(c, x) > 0
  {
    if |c| > 0 {
      CountOfKeys(c[1..], x);
    }
  }

  /** `Counter(b)`: the counter filled from `b` one byte at a time. */
  function Tally(b: seq<Byte>): (c: Counter)
    ensures Valid(c)
    ensures forall x: Byte :: CountOf(c, x) == multiset(b)[x]
    ensures forall x: Byte :: x in Keys(c) <==> x in multiset(b)
    ensures Total(c) == |b|
  {
    if |b| == 0 then []
    else
      var init := b[..|b| - 1];
      assert b == init + [b[|b| - 1]];
      CounterAdd(Tally(init), b[|b| - 1])
  }

  /** Adding one occurrence changes the sum over the values by replacing
      the old term of `x` (none, if `x` was new) with its new term. */
  lemma {:induction false} SumValuesAdd(c: Counter, x: Byte, f: nat -> real)
    ensures SumValues(CounterAdd(c, x), f)
         == SumValues(c, f) - (if x in Keys(c) then f(CountOf(c, x)) else 0.0) + f(CountOf(c, x) + 1)
  {
    if |c| > 0 {
      if c[0].0 != x {
        SumValuesAdd(c[1..], x, f);
        assert CounterAdd(c, x)[1..] == CounterAdd(c[1..], x);
      } else {
        assert CounterAdd(c, x)[1..] == c[1..];
      }
    }
  }

  /** One step of the agreement below: a counter and a histogram that
      agree on `x` and on their sums still agree after counting `x`. */
  lemma {:induction false} AddAgreesWithIncrement(c: Counter, h: seq<nat>, x: Byte, f: nat -> real)
    requires x < |h|
    requires CountOf(c, x) == h[x]
    requires x in Keys(c) <==> h[x] > 0
    requires SumValues(c, f) == SumNonZero(h, f)
    ensures SumValues(CounterAdd(c, x), f) == SumNonZero(h[x := h[x] + 1], f)
  {
    SumValuesAdd(c, x, f);
    SumNonZeroIncrement(h, x, f);
  }

  /** Summing over the counter's values is summing over the non-empty
      buckets of the histogram: both see each occurring byte value once,
      with its number of occurrences. */
  lemma {:induction false} TallyMatchesHistogram(b: seq<Byte>, f: nat -> real)
    ensures SumValues(Tally(b), f) == SumNonZero(Histogram(b), f)
  {
    if |b| == 0 {
      SumNonZeroZero(Histogram(b), f);
    } else {
      var init := b[..|b| - 1];
      var x := b[|b| - 1];
      var c0 := Tally(init);
      var h0 := Histogram(init);
      TallyMatchesHistogram(init, f);
      CountOfKeys(c0, x);
      assert CountOf(c0, x) == h0[x];
      AddAgreesWithIncrement(c0, h0, x, f);
      assert Histogram(b) == h0[x := h0[x] + 1];
      assert Tally(b) == CounterAdd(c0, x);
    }
  }

  /** `pseudo_entropy_from_bytes(b)` before rounding: 0 for empty input,
      otherwise `-sum p*log2(p)` over the counter's values, capped at 8. */
  function PseudoEntropy(b: seq<Byte>, log2: real -> real): (e: real)
    ensures e <= MaxEntropy
    ensures |b| == 0 ==> e == 0.0
  {
    if |b| == 0 then 0.0
    else Min(MaxEntropy, -SumValues(Tally(b), PLogP(|b|, log2)))
  }

  /** The helper's entropy is app.py's `calc_entropy` with the cap applied:
      the two compute the same sum, one over the counter, one over the
      histogram. */
  lemma PseudoEntropyIsCappedCalcEntropy(b: seq<Byte>, log2: real -> real)
    ensures PseudoEntropy(b, log2) == Min(MaxEntropy, CalcEntropy(b, log2))
  {
    if |b| > 0 {
      TallyMatchesHistogram(b, PLogP(|b|, log2));
    }
  }

  /** The capped entropy lies in [0, 8], given only that the logarithm is
      not positive on (0, 1]. */
  lemma PseudoEntropyRange(b: seq<Byte>, log2: real -> real)
    requires LogNonPositiveOnUnit(log2)
    ensures 0.0 <= PseudoEntropy(b, log2) <= MaxEntropy
  {
    PseudoEntropyIsCappedCalcEntropy(b, log2);
    EntropyNonNegative(b, log2);
  }

  /** `f.read(n)` on a file holding `content`: at most `n` bytes, all of
      them when `n` is negative. */
  function ReadUpTo(content: seq<Byte>, n: int): (r: seq<Byte>)
    ensures r <= content
    ensures n >= 0 ==> |r| == if n < |content| then n else |content|
    ensures n < 0 ==> r == content
  {
    if n < 0 || n >= |content| then content else content[..n]
  }

  /** The non-printable share of a sample as a percentage, before the
      rounding to two decimals. */
  function Percent(count: nat, len: nat): (pct: real)
    requires count <= len
    ensures 0.0 <= pct <= 100.0
  {
    if len == 0 then 0.0 else 100.0 * count as real / len as real
  }

  /** `sample_non_printable_pct(path, sample_bytes)` before rounding.
      `read` is the file's content, or `None` when opening or reading it
      raises. */
  function SampleNonPrintablePct(read: Option<seq<Byte>>, sampleBytes: int): (pct: real)
    ensures 0.0 <= pct <= 100.0
    ensures read.None? ==> pct == 0.0
    ensures read.Some? && sampleBytes == 0 ==> pct == 0.0
    ensures read.Some? && |read.value| == 0 ==> pct == 0.0
    ensures read.Some? && |ReadUpTo(read.value, sampleBytes)| == 0 ==> pct == 0.0
  {
    match read
    case None => 0.0
    case Some(content) =>
      var b := ReadUpTo(content, sampleBytes);
      if |b| == 0 then 0.0
      else Percent(CountIf(b, NonPrintable), |b|)
  }

  /** `sample_non_printable_pct(path)` with the default sample size: only
      the first 1024 bytes of a longer file are looked at. */
  function DefaultSampleNonPrintablePct(read: Option<seq<Byte>>): (pct: real)
    ensures 0.0 <= pct <= 100.0
    ensures read.None? ==> pct == 0.0
    ensures read.Some? && |read.value| > DefaultSampleBytes ==>
      pct == SampleNonPrintablePct(Some(read.value[..DefaultSampleBytes]), DefaultSampleBytes)
  {
    SampleNonPrintablePct(read, DefaultSampleBytes)
  }

  /** Only the first `sampleBytes` bytes are inspected: anything after
      them never changes the result. */
  lemma SampleSeesOnlyPrefix(content: seq<Byte>, extra: seq<Byte>, sampleBytes: int)
    requires 0 <= sampleBytes <= |content|
    ensures SampleNonPrintablePct(Some(content + extra), sampleBytes)
         == SampleNonPrintablePct(Some(content), sampleBytes)
  {
    var n := sampleBytes;
    assert (content + extra)[..n] == content[..n];
    assert ReadUpTo(content + extra, n) == content[..n];
    assert ReadUpTo(content, n) == content[..n];
  }

  /** The non-printable test is the complement of the printable class:
      the percentage is the share of the sample outside 0x20..0x7E. */
  lemma SamplePctIsPrintableComplement(content: seq<Byte>, sampleBytes: int)
    requires |ReadUpTo(content, sampleBytes)| > 0
    ensures var b := ReadUpTo(content, sampleBytes);
            SampleNonPrintablePct(Some(content), sampleBytes)
            == 100.0 * (|b| - CountIf(b, Printable)) as real / |b| as real
  {
    NonPrintableComplement(ReadUpTo(content, sampleBytes));
  }
}
