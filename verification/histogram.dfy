/** The byte-value histogram behind `calc_entropy` (`np.bincount`) and the
    sums taken over it. */
module ByteHistogram {
  import opened Bytes

  /** Number of byte values, hence of histogram buckets. */
  const Buckets: nat := 256

  /** `np.bincount` of the bytes, padded with empty buckets to all 256 byte
      values (the padding only adds zero buckets, which every consumer
      drops). Built one byte at a time. */
  function Histogram(s: seq<Byte>): (h: seq<nat>)
    ensures |h| == Buckets
    ensures forall v: Byte :: h[v] == multiset(s)[v]
  {
    if |s| == 0 then seq(Buckets, _ => 0)
    else
      var init := s[..|s| - 1];
      var last := s[|s| - 1];
      assert s == init + [last];
      var h0 := Histogram(init);
      h0[last := h0[last] + 1]
  }

  /** Sum of a sequence of counts. */
  function Sum(xs: seq<nat>): nat {
    if |xs| == 0 then 0 else xs[0] + Sum(xs[1..])
  }

  /** Sum of `f(c)` over the non-zero counts `c` of `h`: the shape of
      `np.sum(g(freq[freq > 0]))`, where empty buckets are dropped before
      anything is computed from them. */
  function SumNonZero(h: seq<nat>, f: nat -> real): real {
    if |h| == 0 then 0.0
    else (if h[0] > 0 then f(h[0]) else 0.0) + SumNonZero(h[1..], f)
  }

  /** Incrementing one count raises the sum by one. */
  lemma {:induction false} SumIncrement(xs: seq<nat>, x: nat)
    requires x < |xs|
    ensures Sum(xs[x := xs[x] + 1]) == Sum(xs) + 1
  {
    if x > 0 {
      assert xs[x := xs[x] + 1][1..] == xs[1..][x - 1 := xs[x] + 1];
      SumIncrement(xs[1..], x - 1);
    } else {
      assert xs[x := xs[x] + 1][1..] == xs[1..];
    }
  }

  /** Every count is at most the total. */
  lemma {:induction false} CountAtMostSum(xs: seq<nat>, x: nat)
    requires x < |xs|
    ensures xs[x] <= Sum(xs)
  {
    if x > 0 {
      CountAtMostSum(xs[1..], x - 1);
    }
  }

  /** The histogram's buckets add up to the length of the data. */
  lemma {:induction false} HistogramSum(s: seq<Byte>)
    ensures Sum(Histogram(s)) == |s|
  {
    if |s| > 0 {
      var init := s[..|s| - 1];
      var h0 := Histogram(init);
      assert Histogram(s) == h0[s[|s| - 1] := h0[s[|s| - 1]] + 1];
      HistogramSum(init);
      SumIncrement(h0, s[|s| - 1]);
    } else {
      SumZeros(Histogram(s));
    }
  }

  /** A sequence of zero counts sums to zero. */
  lemma {:induction false} SumZeros(xs: seq<nat>)
    requires forall i :: 0 <= i < |xs| ==> xs[i] == 0
    ensures Sum(xs) == 0
  {
    if |xs| > 0 {
      SumZeros(xs[1..]);
    }
  }

  /** Incrementing one count changes the sum over non-zero counts by
      replacing that bucket's old term (none, if it was empty) with its new
      term. */
  lemma {:induction false} SumNonZeroIncrement(h: seq<nat>, x: nat, f: nat -> real)
    requires x < |h|
    ensures SumNonZero(h[x := h[x] + 1], f)
         == SumNonZero(h, f) - (if h[x] > 0 then f(h[x]) else 0.0) + f(h[x] + 1)
  {
    if x > 0 {
      assert h[x := h[x] + 1][1..] == h[1..][x - 1 := h[x] + 1];
      SumNonZeroIncrement(h[1..], x - 1, f);
    } else {
      assert h[x := h[x] + 1][1..] == h[1..];
    }
  }

  /** When `f` is linear in the count, the sum over non-zero counts is that
      linear function of the total: empty buckets carry no mass. */
  lemma {:induction false} SumNonZeroLinear(h: seq<nat>, f: nat -> real, d: real)
    requires d > 0.0
    requires forall c: nat :: f(c) == c as real / d
    ensures SumNonZero(h, f) == Sum(h) as real / d
  {
    if |h| > 0 {
      SumNonZeroLinear(h[1..], f, d);
    }
  }

  /** Non-positive terms give a non-positive sum. */
  lemma {:induction false} SumNonZeroNonPositive(h: seq<nat>, f: nat -> real, bound: nat)
    requires forall i :: 0 <= i < |h| ==> h[i] <= bound
    requires forall c: nat :: 0 < c <= bound ==> f(c) <= 0.0
    ensures SumNonZero(h, f) <= 0.0
  {
    if |h| > 0 {
      SumNonZeroNonPositive(h[1..], f, bound);
    }
  }

  /** All-empty buckets sum to nothing. */
  lemma {:induction false} SumNonZeroZero(h: seq<nat>, f: nat -> real)
    requires forall i :: 0 <= i < |h| ==> h[i] == 0
    ensures SumNonZero(h, f) == 0.0
  {
    if |h| > 0 {
      SumNonZeroZero(h[1..], f);
    }
  }

  /** A histogram with a single non-empty bucket `x` sums to that bucket's
      term. */
  lemma {:induction false} SumNonZeroSingle(h: seq<nat>, x: nat, f: nat -> real)
    requires x < |h|
    requires forall i :: 0 <= i < |h| && i != x ==> h[i] == 0
    ensures SumNonZero(h, f) == (if h[x] > 0 then f(h[x]) else 0.0)
  {
    if x > 0 {
      SumNonZeroSingle(h[1..], x - 1, f);
    } else {
      SumNonZeroZero(h[1..], f);
    }
  }
}
