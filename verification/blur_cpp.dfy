/**
 * The C++ box blur (src/blur.cpp) over a row-major `float_t*` buffer of
 * w*h samples, with an integer weight applied in both passes.
 */
module BlurCpp {
  import opened Window
  import opened Grid
  import opened Flat
  import opened BlurLine

  /** `blur_x`: along every row, the weight times the clipped window mean. */
  method BlurX(w: nat, h: nat, r: nat, wt: nat, s: seq<real>) returns (d: seq<real>)
    requires |s| == w * h && w < 0x8000_0000
    requires h == 0 || r < w
    ensures |d| == w * h
    ensures Rows(d, w, h) == InnerPass(Rows(s, w, h), w, r, wt as real)
  {
    var rows := Rows(s, w, h);
    ghost var want := InnerPass(rows, w, r, wt as real);
    var done: seq<seq<real>> := [];
    for y := 0 to h
      invariant |done| == y
      invariant forall k :: 0 <= k < y ==> done[k] == want[k]
    {
      var out := WeightedMovingAverage(rows[y], r, wt);
      assert |out| == |want[y]|;
      forall k | 0 <= k < |out|
        ensures out[k] == want[y][k]
      {
      }
      done := done + [out];
    }
    assert done == want;
    d := Flatten(done);
    RowsFlatten(done, w, h);
  }

  /** `blur_y`: along every column, the weight times the clipped window mean. */
  method BlurY(w: nat, h: nat, r: nat, wt: nat, s: seq<real>) returns (d: seq<real>)
    requires |s| == w * h && h < 0x8000_0000
    requires w == 0 || r < h
    ensures |d| == w * h
    ensures Rows(d, w, h) == OuterPass(Rows(s, w, h), w, r, wt as real)
  {
    var rows := Rows(s, w, h);
    ghost var want := OuterPass(rows, w, r, wt as real);
    var grid := rows;
    for x := 0 to w
      invariant IsGrid(grid, h, w)
      invariant forall y, k :: 0 <= y < h && 0 <= k < x ==> grid[y][k] == want[y][k]
    {
      var out := WeightedMovingAverage(Across(rows, w, x), r, wt);
      grid := SetAcross(grid, w, x, out);
    }
    assert grid == want by {
      forall y | 0 <= y < h
        ensures grid[y] == want[y]
      {
      }
    }
    d := Flatten(grid);
    RowsFlatten(grid, w, h);
  }

  /**
   * `blur`: `blur_x` into a temporary, then `blur_y`. The weight is
   * applied by both passes, so every sample becomes wt² times the mean of
   * the clipped rectangle around it.
   */
  method Blur(w: nat, h: nat, r: nat, wt: nat, s: seq<real>) returns (d: seq<real>)
    requires |s| == w * h && w < 0x8000_0000 && h < 0x8000_0000
    requires h == 0 || r < w
    requires w == 0 || r < h
    ensures |d| == w * h
    ensures d == Blurred(s, w, h, r, Gain(wt))
  {
    var temp := BlurX(w, h, r, wt, s);
    d := BlurY(w, h, r, wt, temp);
    var g, gain := Rows(s, w, h), wt as real;
    assert Rows(d, w, h) == OuterPass(InnerPass(g, w, r, gain), w, r, gain);
    Separable(g, w, r, gain, gain);
    assert gain * gain == wt as real * wt as real;
    assert Rows(d, w, h) == BoxBlur(g, w, r, Gain(wt));
    FlattenRows(d, w, h);
  }
}
