/** `num_strings` of app.py: `len(re.findall(rb"[ -~]{4,}", content))`,
    the number of printable-ASCII strings of length at least four. */
module PrintableRuns {
  import opened Bytes

  /** Shortest run the pattern `[ -~]{4,}` accepts. */
  const MinRun: nat := 4

  /** Length of the run of printable bytes starting at `i`: it stops at the
      end of the data or at the first non-printable byte. */
  function RunLen(s: seq<Byte>, i: nat): (n: nat)
    requires i <= |s|
    ensures i + n <= |s|
    ensures forall k :: i <= k < i + n ==> Printable(s[k])
    ensures i + n == |s| || !Printable(s[i + n])
    decreases |s| - i
  {
    if i == |s| || !Printable(s[i]) then 0 else 1 + RunLen(s, i + 1)
  }

  /** The regex engine's scan from position `i`: where the greedy pattern
      matches it consumes the whole run and resumes after it, otherwise it
      moves one byte on. Returns the number of matches found. */
  function FindAllCount(s: seq<Byte>, i: nat): nat
    requires i <= |s|
    decreases |s| - i
  {
    if i == |s| then 0
    else
      var n := RunLen(s, i);
      if n >= MinRun then 1 + FindAllCount(s, i + n) else FindAllCount(s, i + 1)
  }

  /** `num_strings`. */
  function NumStrings(s: seq<Byte>): (r: nat)
    ensures MinRun * r <= |s|
  {
    FindAllBound(s, 0);
    FindAllCount(s, 0)
  }

  /** Matches do not overlap and each is at least four bytes long. */
  lemma {:induction false} FindAllBound(s: seq<Byte>, i: nat)
    requires i <= |s|
    ensures MinRun * FindAllCount(s, i) <= |s| - i
    decreases |s| - i
  {
    if i < |s| {
      var n := RunLen(s, i);
      if n >= MinRun {
        FindAllBound(s, i + n);
      } else {
        FindAllBound(s, i + 1);
      }
    }
  }

  /** Position `j` begins a maximal printable run of length at least four:
      the byte before it (if any) is not printable. */
  predicate IsLongRunStart(s: seq<Byte>, j: nat)
    requires j <= |s|
  {
    (j == 0 || !Printable(s[j - 1])) && RunLen(s, j) >= MinRun
  }

  /** Number of maximal long runs that begin before position `k`. */
  function LongRunsBelow(s: seq<Byte>, k: nat): nat
    requires k <= |s|
  {
    if k == 0 then 0
    else LongRunsBelow(s, k - 1) + (if IsLongRunStart(s, k - 1) then 1 else 0)
  }

  /** Inside a run no new run begins. */
  lemma {:induction false} NoStartsInsideRun(s: seq<Byte>, i: nat, k: nat)
    requires i < |s|
    requires i < k <= i + RunLen(s, i)
    ensures LongRunsBelow(s, k) == LongRunsBelow(s, i + 1)
    decreases k
  {
    if k > i + 1 {
      NoStartsInsideRun(s, i, k - 1);
      assert Printable(s[k - 2]);
    }
  }

  /** Where the regex scan may stand: at the start, just after a
      non-printable byte, or where fewer than four printable bytes
      remain in the current run (so a match cannot start here). */
  predicate ScanPosition(s: seq<Byte>, i: nat)
    requires i <= |s|
  {
    i == 0 || !Printable(s[i - 1]) || RunLen(s, i) < MinRun
  }

  /** From a scan position, the regex scan counts exactly the maximal long
      runs that begin at or after it. */
  lemma {:induction false} FindAllCountsLongRuns(s: seq<Byte>, i: nat)
    requires i <= |s|
    requires ScanPosition(s, i)
    ensures LongRunsBelow(s, i) + FindAllCount(s, i) == LongRunsBelow(s, |s|)
    decreases |s| - i
  {
    if i < |s| {
      var n := RunLen(s, i);
      if n >= MinRun {
        assert IsLongRunStart(s, i);
        NoStartsInsideRun(s, i, i + n);
        FindAllCountsLongRuns(s, i + n);
      } else {
        assert !IsLongRunStart(s, i);
        if Printable(s[i]) {
          assert RunLen(s, i + 1) == n - 1;
        }
        FindAllCountsLongRuns(s, i + 1);
      }
    }
  }

  /** `num_strings` is the number of maximal runs of bytes in 0x20..0x7E
      whose length is at least four. */
  lemma NumStringsCountsMaximalRuns(s: seq<Byte>)
    ensures NumStrings(s) == LongRunsBelow(s, |s|)
  {
    FindAllCountsLongRuns(s, 0);
  }

  /** Content without a single printable byte has no strings. */
  lemma {:induction false} NoPrintableNoStrings(s: seq<Byte>, i: nat)
    requires i <= |s|
    requires forall k :: 0 <= k < |s| ==> !Printable(s[k])
    ensures FindAllCount(s, i) == 0
    decreases |s| - i
  {
    if i < |s| {
      NoPrintableNoStrings(s, i + 1);
    }
  }

  /** A printable segment `[lo, i)` that is maximal on both sides is a run
      of length `i - lo` and the only run beginning in it. */
  lemma {:induction false} ClosedRun(s: seq<Byte>, lo: nat, i: nat)
    requires lo <= i <= |s|
    requires forall k :: lo <= k < i ==> Printable(s[k])
    requires lo == 0 || !Printable(s[lo - 1])
    requires i == |s| || !Printable(s[i])
    ensures LongRunsBelow(s, i) == LongRunsBelow(s, lo) + (if i - lo >= MinRun then 1 else 0)
  {
    RunLenOfSegment(s, lo, i);
    if lo < i {
      NoStartsInsideRun(s, lo, i);
    }
  }

  /** Inside a printable segment that ends at `i`, the run from `k` reaches
      exactly to `i`. */
  lemma {:induction false} RunLenOfSegment(s: seq<Byte>, k: nat, i: nat)
    requires k <= i <= |s|
    requires forall j :: k <= j < i ==> Printable(s[j])
    requires i == |s| || !Printable(s[i])
    ensures RunLen(s, k) == i - k
    decreases i - k
  {
    if k < i {
      RunLenOfSegment(s, k + 1, i);
    }
  }

  /** A single left-to-right pass, O(n) in the length of the data, that
      tracks the current printable run and counts it when it closes. It
      agrees with the regex scan. */
  method CountStringsOnePass(s: seq<Byte>) returns (count: nat)
    ensures count == NumStrings(s)
  {
    count := 0;
    var run: nat := 0;
    var i: nat := 0;
    while i < |s|
      invariant run <= i <= |s|
      invariant forall k :: i - run <= k < i ==> Printable(s[k])
      invariant i - run == 0 || !Printable(s[i - run - 1])
      invariant count == LongRunsBelow(s, i - run)
    {
      if Printable(s[i]) {
        run := run + 1;
      } else {
        ClosedRun(s, i - run, i);
        assert RunLen(s, i) == 0;
        if run >= MinRun {
          count := count + 1;
        }
        run := 0;
      }
      i := i + 1;
    }
    ClosedRun(s, i - run, i);
    if run >= MinRun {
      count := count + 1;
    }
    NumStringsCountsMaximalRuns(s);
  }
}
