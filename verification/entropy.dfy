/** `calc_entropy` of app.py: Shannon entropy, in bits per byte, of the
    byte-value distribution. The floating-point base-2 logarithm is not
    modelled; it is passed in as the function `log2`, and every property
    that needs a fact about it says which. */
module Entropy {
  import opened Bytes
  import opened ByteHistogram

  /** The relative frequency of a bucket holding `c` of `t` bytes. */
  function Prob(c: nat, t: nat): real {
    if t == 0 then 0.0 else c as real / t as real
  }

  /** `freq / len(data)` as a function of the bucket count. */
  function Freq(t: nat): nat -> real {
    (c: nat) => Prob(c, t)
  }

  /** `p * log2(p)` as a function of the bucket count. */
  function PLogP(t: nat, log2: real -> real): nat -> real {
    (c: nat) => Prob(c, t) * log2(Prob(c, t))
  }

  /** The one fact about the logarithm that the sign of entropy needs:
      it is never positive on probabilities. */
  ghost predicate LogNonPositiveOnUnit(log2: real -> real) {
    forall p: real :: 0.0 < p <= 1.0 ==> log2(p) <= 0.0
  }

  /** `calc_entropy(data)`: 0 for empty data, otherwise `-sum p*log2(p)`
      over the non-empty buckets of the histogram. */
  function CalcEntropy(data: seq<Byte>, log2: real -> real): (e: real)
    ensures |data| == 0 ==> e == 0.0
  {
    if |data| == 0 then 0.0
    else -SumNonZero(Histogram(data), PLogP(|data|, log2))
  }

  /** Real-arithmetic steps, kept apart so that the solver meets the
      divisions one at a time. */
  lemma FreqIsLinear(t: nat)
    requires t > 0
    ensures forall c: nat :: Freq(t)(c) == c as real / t as real
  {}

  lemma WholeOverWhole(t: nat)
    requires t > 0
    ensures t as real / t as real == 1.0
  {}

  lemma WholeTermIsZero(t: nat, log2: real -> real)
    requires t > 0
    requires log2(1.0) == 0.0
    ensures PLogP(t, log2)(t) == 0.0
  {
    WholeOverWhole(t);
    assert Prob(t, t) == 1.0;
    assert PLogP(t, log2)(t) == 1.0 * log2(1.0);
  }

  lemma ProbInUnit(c: nat, t: nat)
    requires 0 < c <= t
    ensures 0.0 < Prob(c, t) <= 1.0
  {}

  lemma TermNonPositive(c: nat, t: nat, log2: real -> real)
    requires 0 < c <= t
    requires LogNonPositiveOnUnit(log2)
    ensures PLogP(t, log2)(c) <= 0.0
  {
    var p := Prob(c, t);
    ProbInUnit(c, t);
    assert log2(p) <= 0.0;
    assert p * log2(p) <= 0.0;
  }

  /** The probabilities of the non-empty buckets add up to one: dropping
      the empty buckets loses no mass. */
  lemma ProbabilityMassIsOne(data: seq<Byte>)
    requires |data| > 0
    ensures SumNonZero(Histogram(data), Freq(|data|)) == 1.0
  {
    var t := |data|;
    var h := Histogram(data);
    FreqIsLinear(t);
    SumNonZeroLinear(h, Freq(t), t as real);
    HistogramSum(data);
    WholeOverWhole(t);
  }

  /** Entropy is never negative, given only that the logarithm is not
      positive on (0, 1]. */
  lemma EntropyNonNegative(data: seq<Byte>, log2: real -> real)
    requires LogNonPositiveOnUnit(log2)
    ensures CalcEntropy(data, log2) >= 0.0
  {
    var t := |data|;
    if t > 0 {
      var h := Histogram(data);
      HistogramSum(data);
      forall i | 0 <= i < |h|
        ensures h[i] <= t
      {
        CountAtMostSum(h, i);
      }
      forall c: nat | 0 < c <= t
        ensures PLogP(t, log2)(c) <= 0.0
      {
        TermNonPositive(c, t, log2);
      }
      SumNonZeroNonPositive(h, PLogP(t, log2), t);
    }
  }

  /** A byte value occurring at every position of `s` occurs `|s|` times,
      and no other value occurs. */
  lemma {:induction false} ConstantMultiset(s: seq<Byte>, x: Byte)
    requires forall i :: 0 <= i < |s| ==> s[i] == x
    ensures multiset(s)[x] == |s|
    ensures forall v: Byte :: v != x ==> multiset(s)[v] == 0
  {
    if |s| > 0 {
      assert s == [s[0]] + s[1..];
      ConstantMultiset(s[1..], x);
    }
  }

  /** Data made of a single repeated byte value has entropy 0 (given
      `log2(1) == 0`). */
  lemma ConstantDataEntropyZero(data: seq<Byte>, log2: real -> real)
    requires |data| > 0
    requires forall i :: 0 <= i < |data| ==> data[i] == data[0]
    requires log2(1.0) == 0.0
    ensures CalcEntropy(data, log2) == 0.0
  {
    var x := data[0];
    var h := Histogram(data);
    ConstantMultiset(data, x);
    SumNonZeroSingle(h, x, PLogP(|data|, log2));
    WholeTermIsZero(|data|, log2);
  }

  /** Entropy depends only on how often each byte value occurs, not on
      where. */
  lemma EntropyPermutationInvariant(a: seq<Byte>, b: seq<Byte>, log2: real -> real)
    requires multiset(a) == multiset(b)
    ensures CalcEntropy(a, log2) == CalcEntropy(b, log2)
  {
    assert |a| == |multiset(a)| == |multiset(b)| == |b|;
    var ha, hb := Histogram(a), Histogram(b);
    assert forall v: Byte :: ha[v] == hb[v];
    assert forall i :: 0 <= i < Buckets ==> ha[i] == hb[i];
    assert ha == hb;
  }
}
