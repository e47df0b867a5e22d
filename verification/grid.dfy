/**
 * Two-dimensional images as sequences of lines.
 *
 * An image is a sequence of `outer` lines, each `inner` samples long. For a
 * row-major buffer (the pattern generator and the C++ engines) the lines
 * are the rows, so sample (x, y) is g[y][x]; for the `float s[w][h]` arrays
 * of the C engine the lines are the columns, so sample (x, y) is g[x][y].
 * A separable box blur runs one pass along the inner index and one along
 * the outer index, and this module states both passes, and their
 * composition, once for every layout.
 */
module Grid {
  import opened Window

  /** Every one of the `outer` lines holds `inner` samples. */
  predicate IsGrid(g: seq<seq<real>>, outer: nat, inner: nat)
  {
    |g| == outer && forall o :: 0 <= o < outer ==> |g[o]| == inner
  }

  /** The line that runs along the outer index at inner position i. */
  function Across(g: seq<seq<real>>, inner: nat, i: nat): (line: seq<real>)
    requires IsGrid(g, |g|, inner) && i < inner
    ensures |line| == |g|
  {
    seq(|g|, o requires 0 <= o < |g| => g[o][i])
  }

  /** g with the samples at inner position i replaced, line by line, by `line`. */
  function SetAcross(g: seq<seq<real>>, inner: nat, i: nat, line: seq<real>): (p: seq<seq<real>>)
    requires IsGrid(g, |g|, inner) && i < inner && |line| == |g|
    ensures IsGrid(p, |g|, inner)
    ensures forall o, k :: 0 <= o < |g| && 0 <= k < inner ==> p[o][k] == if k == i then line[o] else g[o][k]
  {
    seq(|g|, o requires 0 <= o < |g| => g[o][i := line[o]])
  }

  /** Clipped window means along the inner index, scaled by `gain`. */
  function InnerPass(g: seq<seq<real>>, inner: nat, r: nat, gain: real): (p: seq<seq<real>>)
    requires IsGrid(g, |g|, inner)
    ensures IsGrid(p, |g|, inner)
  {
    seq(|g|, o requires 0 <= o < |g| =>
      seq(inner, i requires 0 <= i < inner => gain * WindowMean(g[o], i, r)))
  }

  /** Clipped window means along the outer index, scaled by `gain`. */
  function OuterPass(g: seq<seq<real>>, inner: nat, r: nat, gain: real): (p: seq<seq<real>>)
    requires IsGrid(g, |g|, inner)
    ensures IsGrid(p, |g|, inner)
  {
    seq(|g|, o requires 0 <= o < |g| =>
      seq(inner, i requires 0 <= i < inner => gain * WindowMean(Across(g, inner, i), o, r)))
  }

  /** For every line, the clipped window sum along the inner index at i. */
  function LineSums(g: seq<seq<real>>, inner: nat, i: nat, r: nat): (sums: seq<real>)
    requires IsGrid(g, |g|, inner) && i < inner
    ensures |sums| == |g|
  {
    seq(|g|, o requires 0 <= o < |g| => WindowSum(g[o], i, r))
  }

  /**
   * Mean over the clipped (2r+1) x (2r+1) rectangle centred on (o, i): the
   * sum of the samples whose outer index lies in the clipped window around
   * o and whose inner index lies in the clipped window around i, divided by
   * the number of those samples (the product of the two spans).
   */
  function BoxMean(g: seq<seq<real>>, inner: nat, o: nat, i: nat, r: nat): real
    requires IsGrid(g, |g|, inner) && o < |g| && i < inner
  {
    WindowMean(LineSums(g, inner, i, r), o, r) / Span(i, r, inner) as real
  }

  /** The whole image of box means at radius r, scaled by `gain`. */
  function BoxBlur(g: seq<seq<real>>, inner: nat, r: nat, gain: real): (p: seq<seq<real>>)
    requires IsGrid(g, |g|, inner)
    ensures IsGrid(p, |g|, inner)
  {
    seq(|g|, o requires 0 <= o < |g| =>
      seq(inner, i requires 0 <= i < inner => gain * BoxMean(g, inner, o, i, r)))
  }

  /** Sample (o, i) of the box blur is the gain times the box mean around it. */
  lemma BoxBlurAt(g: seq<seq<real>>, inner: nat, r: nat, gain: real, o: nat, i: nat)
    requires IsGrid(g, |g|, inner) && o < |g| && i < inner
    ensures BoxBlur(g, inner, r, gain)[o][i] == gain * BoxMean(g, inner, o, i, r)
  {
  }

  lemma DivAssoc(c: real, a: real, s: real)
    requires s != 0.0
    ensures c * (a / s) == (c / s) * a
  {
  }

  lemma Cancel(c: real, s: real)
    requires s != 0.0
    ensures (c * s) / s == c
  {
  }

  /**
   * Separability: an outer pass with gain b over an inner pass with gain a
   * is the rectangle mean scaled by a*b.
   */
  lemma Separable(g: seq<seq<real>>, inner: nat, r: nat, a: real, b: real)
    requires IsGrid(g, |g|, inner)
    ensures OuterPass(InnerPass(g, inner, r, a), inner, r, b) == BoxBlur(g, inner, r, a * b)
  {
    var p := InnerPass(g, inner, r, a);
    var lhs := OuterPass(p, inner, r, b);
    var rhs := BoxBlur(g, inner, r, a * b);
    forall o | 0 <= o < |g|
      ensures lhs[o] == rhs[o]
    {
      forall i | 0 <= i < inner
        ensures lhs[o][i] == rhs[o][i]
      {
        SeparableAt(g, inner, r, a, b, o, i);
      }
    }
  }

  lemma SeparableAt(g: seq<seq<real>>, inner: nat, r: nat, a: real, b: real, o: nat, i: nat)
    requires IsGrid(g, |g|, inner) && o < |g| && i < inner
    ensures WindowMean(Across(InnerPass(g, inner, r, a), inner, i), o, r) == a * BoxMean(g, inner, o, i, r)
  {
    var sums := LineSums(g, inner, i, r);
    var s := Span(i, r, inner) as real;
    var line := Across(InnerPass(g, inner, r, a), inner, i);
    forall k | 0 <= k < |g|
      ensures line[k] == (a / s) * sums[k]
    {
      DivAssoc(a, sums[k], s);
    }
    WindowMeanScale(sums, line, a / s, o, r);
    DivAssoc(a, WindowMean(sums, o, r), s);
  }

  /** With radius 0 the box mean is the sample itself. */
  lemma BoxMeanRadiusZero(g: seq<seq<real>>, inner: nat, o: nat, i: nat)
    requires IsGrid(g, |g|, inner) && o < |g| && i < inner
    ensures BoxMean(g, inner, o, i, 0) == g[o][i]
  {
    WindowMeanRadiusZero(g[o], i);
    WindowMeanRadiusZero(LineSums(g, inner, i, 0), o);
  }

  /** Over a constant image every box mean is that constant. */
  lemma BoxMeanConst(g: seq<seq<real>>, inner: nat, c: real, o: nat, i: nat, r: nat)
    requires IsGrid(g, |g|, inner) && o < |g| && i < inner
    requires forall o', i' :: 0 <= o' < |g| && 0 <= i' < inner ==> g[o'][i'] == c
    ensures BoxMean(g, inner, o, i, r) == c
  {
    var s := Span(i, r, inner) as real;
    var sums := LineSums(g, inner, i, r);
    forall k | 0 <= k < |g|
      ensures sums[k] == c * s
    {
      SumConst(g[k], c, Lo(i, r), Hi(i, r, inner) + 1);
    }
    WindowMeanConst(sums, c * s, o, r);
    Cancel(c, s);
  }

  /** A box blur of radius 0 with gain 1 returns the image unchanged. */
  lemma BoxBlurRadiusZero(g: seq<seq<real>>, inner: nat)
    requires IsGrid(g, |g|, inner)
    ensures BoxBlur(g, inner, 0, 1.0) == g
  {
    var p := BoxBlur(g, inner, 0, 1.0);
    forall o | 0 <= o < |g|
      ensures p[o] == g[o]
    {
      forall i | 0 <= i < inner
        ensures p[o][i] == g[o][i]
      {
        BoxMeanRadiusZero(g, inner, o, i);
      }
    }
  }

  /** A box blur of a constant image c is the constant gain * c. */
  lemma BoxBlurConst(g: seq<seq<real>>, inner: nat, c: real, r: nat, gain: real)
    requires IsGrid(g, |g|, inner)
    requires forall o, i :: 0 <= o < |g| && 0 <= i < inner ==> g[o][i] == c
    ensures forall o, i :: 0 <= o < |g| && 0 <= i < inner ==> BoxBlur(g, inner, r, gain)[o][i] == gain * c
  {
    forall o, i | 0 <= o < |g| && 0 <= i < inner
      ensures BoxBlur(g, inner, r, gain)[o][i] == gain * c
    {
      BoxMeanConst(g, inner, c, o, i, r);
    }
  }

  /** The lines along the outer index, one per inner position: g[o][i] becomes t[i][o]. */
  function Transpose(g: seq<seq<real>>, inner: nat): (t: seq<seq<real>>)
    requires IsGrid(g, |g|, inner)
    ensures IsGrid(t, inner, |g|)
    ensures forall i, o :: 0 <= i < inner && 0 <= o < |g| ==> t[i][o] == g[o][i]
  {
    seq(inner, i requires 0 <= i < inner => Across(g, inner, i))
  }

  /** Transposing twice gives the grid back. */
  lemma TransposeInvolution(g: seq<seq<real>>, inner: nat)
    requires IsGrid(g, |g|, inner)
    ensures Transpose(Transpose(g, inner), |g|) == g
  {
    var tt := Transpose(Transpose(g, inner), |g|);
    forall o | 0 <= o < |g|
      ensures tt[o] == g[o]
    {
    }
  }

  /** A pass along the outer index is, transposed, a pass along the inner index. */
  lemma TransposeOuterPass(g: seq<seq<real>>, inner: nat, r: nat, gain: real)
    requires IsGrid(g, |g|, inner)
    ensures Transpose(OuterPass(g, inner, r, gain), inner) == InnerPass(Transpose(g, inner), |g|, r, gain)
  {
    var lhs := Transpose(OuterPass(g, inner, r, gain), inner);
    var rhs := InnerPass(Transpose(g, inner), |g|, r, gain);
    forall i | 0 <= i < inner
      ensures lhs[i] == rhs[i]
    {
      assert Transpose(g, inner)[i] == Across(g, inner, i);
      forall o | 0 <= o < |g|
        ensures lhs[i][o] == rhs[i][o]
      {
      }
    }
  }

  /** A pass along the inner index is, transposed, a pass along the outer index. */
  lemma TransposeInnerPass(g: seq<seq<real>>, inner: nat, r: nat, gain: real)
    requires IsGrid(g, |g|, inner)
    ensures Transpose(InnerPass(g, inner, r, gain), inner) == OuterPass(Transpose(g, inner), |g|, r, gain)
  {
    var t := Transpose(g, inner);
    var lhs := Transpose(InnerPass(g, inner, r, gain), inner);
    var rhs := OuterPass(t, |g|, r, gain);
    forall i | 0 <= i < inner
      ensures lhs[i] == rhs[i]
    {
      forall o | 0 <= o < |g|
        ensures lhs[i][o] == rhs[i][o]
      {
        assert Across(t, |g|, o) == g[o];
      }
    }
  }
}
