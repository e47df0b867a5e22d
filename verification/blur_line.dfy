/**
 * The weighted moving average that both passes of src/blur.cpp and of
 * src/blur.c run along one line.
 *
 * The first output is the weight times the sum of samples 0 .. r divided
 * by r + 1, read without a bound check. Each later output adds the sample
 * entering on the right when it exists, subtracts the sample leaving on
 * the left when `(int32_t)(x - r - 1) >= 0`, recomputes the span in closed
 * form, and stores the weight times the sum divided by the span.
 */
module BlurLine {
  import opened Window

  /** The closed-form span of the source, with its int32 test on x - r. */
  function ClosedSpan(x: nat, r: nat, n: nat): int
  {
    (if x + r < n then x + r else n - 1) - (if ToInt32(x - r) >= 0 then x - r else 0) + 1
  }

  /** Below 2^31 samples the closed-form span is the size of the clipped window, at least 1. */
  lemma ClosedSpanIsSpan(x: nat, r: nat, n: nat)
    requires x < n < 0x8000_0000 && r < n
    ensures ClosedSpan(x, r, n) == Span(x, r, n) >= 1
  {
    ToInt32Exact(x - r);
  }

  /** Below 2^31 samples the int32 test on x - r - 1 is the mathematical x >= r + 1. */
  lemma LeftTestExact(x: nat, r: nat, n: nat)
    requires x < n < 0x8000_0000 && r < n
    ensures ToInt32(x - r - 1) >= 0 <==> x >= r + 1
  {
    ToInt32Exact(x - r - 1);
  }

  /**
   * A witness, not a general property: at x = 1 with radius 2^31 + 1 the
   * int32 test reads the negative x - r - 1 as positive.
   */
  lemma LeftTestWraps()
    ensures ToInt32(1 - (0x8000_0001) - 1) >= 0
  {
  }

  lemma ScaledMean(wt: real, sum: real, span: real)
    requires span != 0.0
    ensures wt * sum / span == wt * (sum / span)
  {
  }

  lemma WeightedMean(line: seq<real>, x: nat, r: nat, wt: nat, sum: real, span: int)
    requires x < |line| && sum == WindowSum(line, x, r) && span == Span(x, r, |line|) >= 1
    ensures wt as real * sum / span as real == wt as real * WindowMean(line, x, r)
  {
    ScaledMean(wt as real, sum, span as real);
  }

  /**
   * One step of the running sum: from the window at x - 1 to the window at
   * x, and the weighted mean the source stores at x.
   */
  method Slide(line: seq<real>, r: nat, wt: nat, x: nat, prev: real) returns (sum: real, value: real)
    requires r < |line| < 0x8000_0000 && 1 <= x < |line|
    requires prev == WindowSum(line, x - 1, r)
    ensures sum == WindowSum(line, x, r)
    ensures value == wt as real * WindowMean(line, x, r)
  {
    var n := |line|;
    WindowSumStep(line, x, r);
    LeftTestExact(x, r, n);
    sum := prev + (if x + r < n then line[x + r] else 0.0);
    sum := sum - (if ToInt32(x - r - 1) >= 0 then line[x - r - 1] else 0.0);
    var span := ClosedSpan(x, r, n);
    ClosedSpanIsSpan(x, r, n);
    value := wt as real * sum / span as real;
    WeightedMean(line, x, r, wt, sum, span);
  }

  /**
   * The factor a two-pass blur with weight wt applies to the rectangle
   * mean: the weight once per pass.
   */
  function Gain(wt: nat): real
  {
    wt as real * wt as real
  }

  /** `wt` times the clipped window mean at every position of the line. */
  method WeightedMovingAverage(line: seq<real>, r: nat, wt: nat) returns (out: seq<real>)
    requires r < |line| < 0x8000_0000
    ensures |out| == |line|
    ensures forall x :: 0 <= x < |line| ==> out[x] == wt as real * WindowMean(line, x, r)
  {
    var n := |line|;
    var sum := 0.0;
    for x := 0 to r + 1
      invariant sum == Sum(line, 0, x)
    {
      sum := sum + line[x];
    }
    WeightedMean(line, 0, r, wt, sum, r + 1);
    out := [wt as real * sum / (r + 1) as real];
    for x := 1 to n
      invariant |out| == x
      invariant sum == WindowSum(line, x - 1, r)
      invariant forall k :: 0 <= k < x ==> out[k] == wt as real * WindowMean(line, k, r)
    {
      var value;
      sum, value := Slide(line, r, wt, x, sum);
      out := out + [value];
    }
  }
}
