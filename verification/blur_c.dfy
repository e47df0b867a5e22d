/**
 * The C box blur (src/blur.c) over `float s[w][h]` arrays: the image is
 * stored as w columns of h samples, so sample (x, y) is s[x][y]. `blur_x`
 * therefore runs along the outer index and `blur_y` along the inner one.
 * Seen through `Transpose` (rows of the image), the composition is the
 * same rectangle mean, scaled by wt², as the row-major blur.
 */
module BlurC {
  import opened Window
  import opened Grid
  import opened BlurLine

  /** `blur_x`: d[x][y] is wt times the clipped mean of s[.][y] around x. */
  method BlurX(w: nat, h: nat, r: nat, wt: nat, s: seq<seq<real>>) returns (d: seq<seq<real>>)
    requires IsGrid(s, w, h) && w < 0x8000_0000
    requires h == 0 || r < w
    ensures d == OuterPass(s, h, r, wt as real)
  {
    ghost var want := OuterPass(s, h, r, wt as real);
    d := s;
    for y := 0 to h
      invariant IsGrid(d, w, h)
      invariant forall x, k :: 0 <= x < w && 0 <= k < y ==> d[x][k] == want[x][k]
    {
      var out := WeightedMovingAverage(Across(s, h, y), r, wt);
      d := SetAcross(d, h, y, out);
    }
    assert d == want by {
      forall x | 0 <= x < w
        ensures d[x] == want[x]
      {
      }
    }
  }

  /** `blur_y`: d[x][y] is wt times the clipped mean of s[x][.] around y. */
  method BlurY(w: nat, h: nat, r: nat, wt: nat, s: seq<seq<real>>) returns (d: seq<seq<real>>)
    requires IsGrid(s, w, h) && h < 0x8000_0000
    requires w == 0 || r < h
    ensures d == InnerPass(s, h, r, wt as real)
  {
    ghost var want := InnerPass(s, h, r, wt as real);
    d := [];
    for x := 0 to w
      invariant |d| == x
      invariant forall k :: 0 <= k < x ==> d[k] == want[k]
    {
      var out := WeightedMovingAverage(s[x], r, wt);
      assert |out| == |want[x]|;
      forall k | 0 <= k < |out|
        ensures out[k] == want[x][k]
      {
      }
      d := d + [out];
    }
  }

  /**
   * `blur`: `blur_x` into a temporary, then `blur_y`. In row view every
   * sample is wt² times the mean of the clipped rectangle around it.
   */
  method Blur(w: nat, h: nat, r: nat, wt: nat, s: seq<seq<real>>) returns (d: seq<seq<real>>)
    requires IsGrid(s, w, h) && w < 0x8000_0000 && h < 0x8000_0000
    requires h == 0 || r < w
    requires w == 0 || r < h
    ensures IsGrid(d, w, h)
    ensures Transpose(d, h) == BoxBlur(Transpose(s, h), w, r, Gain(wt))
  {
    var temp := BlurX(w, h, r, wt, s);
    d := BlurY(w, h, r, wt, temp);
    var t, gain := Transpose(s, h), wt as real;
    TransposeInnerPass(temp, h, r, gain);
    TransposeOuterPass(s, h, r, gain);
    assert Transpose(d, h) == OuterPass(InnerPass(t, w, r, gain), w, r, gain);
    Separable(t, w, r, gain, gain);
    assert gain * gain == Gain(wt);
  }

  /** With a constant input c every output sample of `blur` is wt² c. */
  lemma BlurConst(w: nat, h: nat, r: nat, wt: nat, s: seq<seq<real>>, d: seq<seq<real>>, c: real)
    requires IsGrid(s, w, h) && IsGrid(d, w, h)
    requires forall x, y :: 0 <= x < w && 0 <= y < h ==> s[x][y] == c
    requires Transpose(d, h) == BoxBlur(Transpose(s, h), w, r, Gain(wt))
    ensures forall x, y :: 0 <= x < w && 0 <= y < h ==> d[x][y] == Gain(wt) * c
  {
    var t := Transpose(s, h);
    BoxBlurConst(t, w, c, r, Gain(wt));
    forall x, y | 0 <= x < w && 0 <= y < h
      ensures d[x][y] == Gain(wt) * c
    {
      assert Transpose(d, h)[y][x] == d[x][y];
    }
  }
}
