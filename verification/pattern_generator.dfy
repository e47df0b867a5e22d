/**
 * The pattern generator (`PatternGenerator` in src/pattern_generator.cpp).
 *
 * The pattern is a row-major buffer of width*height samples. One call of
 * `generate` blurs the pattern at every scale's activator and inhibitor
 * radius, lets the scales compete at every pixel, moves each pixel by the
 * winning scale's increment, and normalises the result onto [0, 1].
 *
 * The box blur keeps, along each row and then each column, a running sum
 * and a running span: the span starts at radius + 1, loses one when the
 * window's right edge is clipped and gains one when its left edge is
 * clipped. The first window of each line is summed over indices 0 ..
 * radius without a bound check, so the radius must be below the width
 * (rows) and the height (columns). The `static_cast<int>` in the left-edge
 * test is a conversion to 32 bits.
 */
module PatternGenerator {
  import opened Window
  import opened Grid
  import opened Flat
  import opened Competition
  import opened Normalization

  /** One scale: activator radius, inhibitor radius and increment (src/scale.hpp). */
  datatype Scale = Scale(activatorRadius: nat, inhibitorRadius: nat, increment: real)

  /**
   * The moving average of one line, as both blur passes compute it:
   * the seed window 0 .. radius divided by radius + 1, then one add and
   * one subtract per column with the span adjusted at clipped edges.
   */
  method MovingAverage(line: seq<real>, radius: nat) returns (out: seq<real>)
    requires radius < |line| < 0x8000_0000
    ensures |out| == |line|
    ensures forall x :: 0 <= x < |line| ==> out[x] == WindowMean(line, x, radius)
  {
    var n := |line|;
    var sum := 0.0;
    var span: nat := radius + 1;
    for x := 0 to radius + 1
      invariant sum == Sum(line, 0, x)
    {
      sum := sum + line[x];
    }
    out := [sum / span as real];
    ToInt32Exact(radius);
    for x := 1 to n
      invariant |out| == x
      invariant sum == WindowSum(line, x - 1, radius)
      invariant span == Span(x - 1, radius, n)
      invariant forall k :: 0 <= k < x ==> out[k] == WindowMean(line, k, radius)
    {
      WindowSumStep(line, x, radius);
      SpanStep(x, radius, n);
      SpanPositive(x - 1, radius, n);
      if x + radius < n {
        sum := sum + line[x + radius];
      } else {
        span := span - 1;
      }
      ToInt32Exact(x);
      if ToInt32(x) - ToInt32(radius) - 1 >= 0 {
        sum := sum - line[x - radius - 1];
      } else {
        span := span + 1;
      }
      out := out + [sum / span as real];
    }
  }

  /** `blurHorizontal`: every row replaced by its moving average. */
  method BlurHorizontal(W: nat, H: nat, radius: nat, source: seq<real>) returns (destination: seq<real>)
    requires |source| == W * H && W < 0x8000_0000
    requires H == 0 || radius < W
    ensures |destination| == W * H
    ensures Rows(destination, W, H) == InnerPass(Rows(source, W, H), W, radius, 1.0)
  {
    var rows := Rows(source, W, H);
    ghost var want := InnerPass(rows, W, radius, 1.0);
    var done: seq<seq<real>> := [];
    for y := 0 to H
      invariant |done| == y
      invariant forall k :: 0 <= k < y ==> done[k] == want[k]
    {
      var out := MovingAverage(rows[y], radius);
      assert out == want[y];
      done := done + [out];
    }
    assert done == want;
    destination := Flatten(done);
    RowsFlatten(done, W, H);
  }

  /** `blurVertical`: every column replaced by its moving average. */
  method BlurVertical(W: nat, H: nat, radius: nat, source: seq<real>) returns (destination: seq<real>)
    requires |source| == W * H && H < 0x8000_0000
    requires W == 0 || radius < H
    ensures |destination| == W * H
    ensures Rows(destination, W, H) == OuterPass(Rows(source, W, H), W, radius, 1.0)
  {
    var rows := Rows(source, W, H);
    ghost var want := OuterPass(rows, W, radius, 1.0);
    var grid := rows;
    for x := 0 to W
      invariant IsGrid(grid, H, W)
      invariant forall y, k :: 0 <= y < H && 0 <= k < x ==> grid[y][k] == want[y][k]
    {
      var out := MovingAverage(Across(rows, W, x), radius);
      grid := SetAcross(grid, W, x, out);
    }
    assert grid == want by {
      forall y | 0 <= y < H
        ensures grid[y] == want[y]
      {
      }
    }
    destination := Flatten(grid);
    RowsFlatten(grid, W, H);
  }

  /**
   * `blur`: the horizontal pass into a temporary, then the vertical pass.
   * Every sample becomes the mean of the clipped rectangle around it.
   */
  method Blur(W: nat, H: nat, radius: nat, source: seq<real>) returns (destination: seq<real>)
    requires |source| == W * H && W < 0x8000_0000 && H < 0x8000_0000
    requires H == 0 || radius < W
    requires W == 0 || radius < H
    ensures |destination| == W * H
    ensures destination == Blurred(source, W, H, radius, 1.0)
  {
    var partialBlurring := BlurHorizontal(W, H, radius, source);
    destination := BlurVertical(W, H, radius, partialBlurring);
    Separable(Rows(source, W, H), W, radius, 1.0, 1.0);
    FlattenRows(destination, W, H);
  }

  /** Both radii of every scale fit the unchecked seed windows. */
  predicate RadiiFit(scales: seq<Scale>, W: nat, H: nat)
  {
    forall t :: 0 <= t < |scales| ==>
      (H == 0 || (scales[t].activatorRadius < W && scales[t].inhibitorRadius < W)) &&
      (W == 0 || (scales[t].activatorRadius < H && scales[t].inhibitorRadius < H))
  }

  /** Activator minus inhibitor of every scale at every pixel. */
  function Variations(pattern: seq<real>, W: nat, H: nat, scales: seq<Scale>): (vs: seq<seq<real>>)
    requires |pattern| == W * H
    ensures |vs| == |scales| && Vectors(vs, W * H)
  {
    seq(|scales|, t requires 0 <= t < |scales| =>
      var activators := Blurred(pattern, W, H, scales[t].activatorRadius, 1.0);
      var inhibitors := Blurred(pattern, W, H, scales[t].inhibitorRadius, 1.0);
      seq(W * H, j requires 0 <= j < W * H => activators[j] - inhibitors[j]))
  }

  /**
   * The pattern moved, at every pixel, by the increment of the winning
   * scale: up when its variation is positive, down otherwise.
   */
  function Stepped(pattern: seq<real>, W: nat, H: nat, scales: seq<Scale>): (p: seq<real>)
    requires |pattern| == W * H && |scales| > 0
    ensures |p| == |pattern|
  {
    var vs := Variations(pattern, W, H, scales);
    seq(|pattern|, j requires 0 <= j < |pattern| =>
      var t := Winner(vs, W * H, |scales|, j);
      pattern[j] + Nudge(vs[t][j], scales[t].increment))
  }

  /** Scale t's variation vector is its activator blur minus its inhibitor blur. */
  lemma VariationsAt(pattern: seq<real>, W: nat, H: nat, scales: seq<Scale>, t: nat)
    requires |pattern| == W * H && t < |scales|
    ensures forall j :: 0 <= j < W * H ==>
      Variations(pattern, W, H, scales)[t][j]
        == Blurred(pattern, W, H, scales[t].activatorRadius, 1.0)[j] - Blurred(pattern, W, H, scales[t].inhibitorRadius, 1.0)[j]
  {
  }

  /**
   * After scales 0 .. t-1, every pixel holds the winner's variation and the
   * winner's signed increment.
   */
  predicate Settled(vs: seq<seq<real>>, scales: seq<Scale>, size: nat, t: nat, variations: seq<real>, increments: seq<real>)
    requires Vectors(vs, size) && |vs| == |scales| && 0 < t <= |scales|
  {
    |variations| == size && |increments| == size &&
    forall j :: 0 <= j < size ==>
      var w := Winner(vs, size, t, j);
      variations[j] == vs[w][j] && increments[j] == Nudge(vs[w][j], scales[w].increment)
  }

  /**
   * The pixel loop of one scale in `generate`: the scale's variation and
   * signed increment are stored where it is the first scale or strictly
   * smaller in magnitude than the stored variation.
   */
  method CompareScale(ghost vs: seq<seq<real>>, scales: seq<Scale>, size: nat, t: nat,
                      activators: seq<real>, inhibitors: seq<real>,
                      variations: seq<real>, increments: seq<real>)
    returns (variations': seq<real>, increments': seq<real>)
    requires Vectors(vs, size) && |vs| == |scales| && t < |scales|
    requires |activators| == size && |inhibitors| == size
    requires forall j :: 0 <= j < size ==> vs[t][j] == activators[j] - inhibitors[j]
    requires |variations| == size && |increments| == size
    requires t > 0 ==> Settled(vs, scales, size, t, variations, increments)
    ensures Settled(vs, scales, size, t + 1, variations', increments')
  {
    variations', increments' := variations, increments;
    var increment := scales[t].increment;
    for i := 0 to size
      invariant |variations'| == size && |increments'| == size
      invariant forall k :: 0 <= k < i ==>
        var w := Winner(vs, size, t + 1, k);
        variations'[k] == vs[w][k] && increments'[k] == Nudge(vs[w][k], scales[w].increment)
      invariant forall k :: i <= k < size ==> variations'[k] == variations[k] && increments'[k] == increments[k]
    {
      var variation := activators[i] - inhibitors[i];
      if t > 0 {
        WinnerStep(vs, size, t, i);
      }
      if t == 0 || Abs(variation) < Abs(variations'[i]) {
        variations' := variations'[i := variation];
        increments' := increments'[i := if variation > 0.0 then increment else -increment];
      }
    }
  }

  /** Once every scale has been compared, adding the increments is `Stepped`. */
  lemma SettledIsStepped(pattern: seq<real>, W: nat, H: nat, scales: seq<Scale>, variations: seq<real>, increments: seq<real>)
    requires |pattern| == W * H && |scales| > 0
    requires Settled(Variations(pattern, W, H, scales), scales, W * H, |scales|, variations, increments)
    ensures seq(W * H, j requires 0 <= j < W * H => pattern[j] + increments[j]) == Stepped(pattern, W, H, scales)
  {
  }

  /**
   * `generate`: with no scale the pattern is left as it is and not
   * normalised; otherwise every pixel moves by the increment of the scale
   * whose variation is smallest in magnitude (the earliest on ties) and the
   * result is normalised.
   */
  method Generate(W: nat, H: nat, pattern: seq<real>, scales: seq<Scale>) returns (next: Rescaled)
    requires |pattern| == W * H && W < 0x8000_0000 && H < 0x8000_0000
    requires |scales| > 0 ==> |pattern| > 0
    requires RadiiFit(scales, W, H)
    ensures |scales| == 0 ==> next == Rescaled(pattern)
    ensures |scales| > 0 ==> next == UnitNormalize(Stepped(pattern, W, H, scales))
  {
    if |scales| == 0 {
      return Rescaled(pattern);
    }
    var size := W * H;
    ghost var vs := Variations(pattern, W, H, scales);
    var variations := seq(size, j => 0.0);
    var increments := seq(size, j => 0.0);
    for t := 0 to |scales|
      invariant |variations| == size && |increments| == size
      invariant t > 0 ==> Settled(vs, scales, size, t, variations, increments)
    {
      var scale := scales[t];
      var inhibitors := Blur(W, H, scale.inhibitorRadius, pattern);
      var activators := Blur(W, H, scale.activatorRadius, pattern);
      VariationsAt(pattern, W, H, scales, t);
      variations, increments := CompareScale(vs, scales, size, t, activators, inhibitors, variations, increments);
    }
    var moved := seq(size, j requires 0 <= j < size => pattern[j] + increments[j]);
    SettledIsStepped(pattern, W, H, scales, variations, increments);
    next := UnitNormalize(moved);
  }
}
