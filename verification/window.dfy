/**
 * Clipped sliding windows over a line of samples.
 *
 * Every box-blur pass of the generator keeps a running sum over the window
 * of columns max(0, x-r) .. min(n-1, x+r) of one line: pixels outside the
 * image contribute nothing and are not counted in the divisor. This module
 * states that window once, as a reference definition, together with the
 * facts about it that the incremental passes rely on.
 */
module Window {

  /** Sum of s[lo..hi). */
  function Sum(s: seq<real>, lo: int, hi: int): real
    requires 0 <= lo <= hi <= |s|
    decreases hi - lo
  {
    if lo == hi then 0.0 else Sum(s, lo, hi - 1) + s[hi - 1]
  }

  /** Removing the leftmost sample of a range subtracts exactly that sample. */
  lemma {:induction false} SumDropFirst(s: seq<real>, lo: int, hi: int)
    requires 0 <= lo < hi <= |s|
    ensures Sum(s, lo, hi) == s[lo] + Sum(s, lo + 1, hi)
    decreases hi - lo
  {
    if lo + 1 < hi {
      SumDropFirst(s, lo, hi - 1);
    }
  }

  /** Scaling every sample of a range scales its sum. */
  lemma {:induction false} SumScale(a: seq<real>, b: seq<real>, c: real, lo: int, hi: int)
    requires |a| == |b| && 0 <= lo <= hi <= |a|
    requires forall k :: lo <= k < hi ==> b[k] == c * a[k]
    ensures Sum(b, lo, hi) == c * Sum(a, lo, hi)
    decreases hi - lo
  {
    if lo < hi {
      SumScale(a, b, c, lo, hi - 1);
    }
  }

  /** A range of equal samples sums to the sample times the range length. */
  lemma {:induction false} SumConst(s: seq<real>, c: real, lo: int, hi: int)
    requires 0 <= lo <= hi <= |s|
    requires forall k :: lo <= k < hi ==> s[k] == c
    ensures Sum(s, lo, hi) == c * (hi - lo) as real
    decreases hi - lo
  {
    if lo < hi {
      SumConst(s, c, lo, hi - 1);
    }
  }

  /** Two lines that agree on a range have the same sum over it. */
  lemma {:induction false} SumAgree(a: seq<real>, b: seq<real>, lo: int, hi: int)
    requires 0 <= lo <= hi <= |a| && hi <= |b|
    requires forall k :: lo <= k < hi ==> a[k] == b[k]
    ensures Sum(a, lo, hi) == Sum(b, lo, hi)
    decreases hi - lo
  {
    if lo < hi {
      SumAgree(a, b, lo, hi - 1);
    }
  }

  /** First column of the clipped window centred on x. */
  function Lo(x: int, r: nat): int
  {
    if x - r > 0 then x - r else 0
  }

  /** Last column (inclusive) of the clipped window centred on x in a line of n samples. */
  function Hi(x: int, r: nat, n: int): int
  {
    if x + r < n - 1 then x + r else n - 1
  }

  /** Number of samples in the clipped window. */
  function Span(x: int, r: nat, n: int): int
  {
    Hi(x, r, n) - Lo(x, r) + 1
  }

  /** Sum of the samples of the clipped window centred on x. */
  function WindowSum(line: seq<real>, x: int, r: nat): real
    requires 0 <= x < |line|
  {
    Sum(line, Lo(x, r), Hi(x, r, |line|) + 1)
  }

  /** Mean of the samples of the clipped window centred on x. */
  function WindowMean(line: seq<real>, x: int, r: nat): real
    requires 0 <= x < |line|
  {
    WindowSum(line, x, r) / Span(x, r, |line|) as real
  }

  /**
   * Moving the window one column to the right adds the sample entering on the
   * right (if it exists) and removes the sample leaving on the left (if any).
   */
  lemma WindowSumStep(line: seq<real>, x: int, r: nat)
    requires 1 <= x < |line|
    ensures WindowSum(line, x, r)
         == WindowSum(line, x - 1, r)
            + (if x + r < |line| then line[x + r] else 0.0)
            - (if x - r - 1 >= 0 then line[x - r - 1] else 0.0)
  {
    var n := |line|;
    var lo, hi := Lo(x - 1, r), Hi(x - 1, r, n) + 1;
    var mid := if x + r < n then hi + 1 else hi;
    assert mid == Hi(x, r, n) + 1;
    if x - r - 1 >= 0 {
      SumDropFirst(line, lo, mid);
    }
  }

  /** Every clipped window around an in-line column holds at least one sample. */
  lemma SpanPositive(x: int, r: nat, n: int)
    requires 0 <= x < n
    ensures Span(x, r, n) >= 1
  {
  }

  /**
   * Moving one column to the right, the window grows by one sample on the
   * right unless the right edge is clipped, and loses one on the left unless
   * the left edge is clipped: a net +1 when only the left edge is clipped,
   * -1 when only the right edge is clipped, and no change otherwise.
   */
  lemma SpanStep(x: int, r: nat, n: int)
    requires 1 <= x < n
    ensures Span(x, r, n)
         == Span(x - 1, r, n) + (if x + r < n then 1 else 0) - (if x - r - 1 >= 0 then 1 else 0)
  {
  }

  /** With radius 0 the window is the sample itself. */
  lemma WindowMeanRadiusZero(line: seq<real>, x: int)
    requires 0 <= x < |line|
    ensures WindowMean(line, x, 0) == line[x]
  {
    assert Sum(line, x, x + 1) == Sum(line, x, x) + line[x];
  }

  /** Over a constant line every window mean is that constant. */
  lemma WindowMeanConst(line: seq<real>, c: real, x: int, r: nat)
    requires 0 <= x < |line|
    requires forall k :: 0 <= k < |line| ==> line[k] == c
    ensures WindowMean(line, x, r) == c
  {
    SumConst(line, c, Lo(x, r), Hi(x, r, |line|) + 1);
  }

  /** Scaling a line scales each window mean by the same factor. */
  lemma WindowMeanScale(a: seq<real>, b: seq<real>, c: real, x: int, r: nat)
    requires |a| == |b| && 0 <= x < |a|
    requires forall k :: 0 <= k < |a| ==> b[k] == c * a[k]
    ensures WindowSum(b, x, r) == c * WindowSum(a, x, r)
    ensures WindowMean(b, x, r) == c * WindowMean(a, x, r)
  {
    SumScale(a, b, c, Lo(x, r), Hi(x, r, |a|) + 1);
    assert WindowSum(b, x, r) == Sum(b, Lo(x, r), Hi(x, r, |a|) + 1);
  }

  /**
   * The value an unsigned quantity takes once it is converted to a 32-bit
   * signed integer: its low 32 bits read in two's complement. Used for the
   * `(int32_t)(x - r - 1) >= 0` tests of the blur passes.
   */
  function ToInt32(v: int): int
  {
    var m := v % 0x1_0000_0000;
    if m < 0x8000_0000 then m else m - 0x1_0000_0000
  }

  /** A value already in the int32 range is unchanged by the conversion. */
  lemma ToInt32Exact(v: int)
    requires -0x8000_0000 <= v < 0x8000_0000
    ensures ToInt32(v) == v
  {
    if v < 0 {
      assert v % 0x1_0000_0000 == v + 0x1_0000_0000;
    }
  }
}
