/**
 * The pattern-vector engine (`blind_quarter_step` in src/blind_quarter.cpp).
 *
 * It runs the same competition as the C++ engine of src/muscatupa.cpp over
 * a vector of `Pattern` objects, with the row-major blur of src/blur.cpp,
 * and keeps a pointer to the winning pattern per pixel where that engine
 * keeps its index. Two things differ: an empty pattern vector leaves the
 * image untouched (and not normalised), and `normalize` finds the maximum
 * and the minimum in one scan seeded with FLT_MIN and FLT_MAX.
 */
module BlindQuarter {
  import opened Extrema
  import opened Normalization
  import MuscatupaCpp
  import Competition

  type Pattern = MuscatupaCpp.Pattern

  /**
   * `normalize`: one scan for both extrema, then every sample e becomes
   * (e - min)/(max - min), or 0/0 everywhere when they are equal.
   */
  method Normalize(im: seq<real>) returns (out: Rescaled)
    ensures out == SeededNormalize(im)
  {
    var max, min := MaxMinScan(im);
    var range := max - min;
    if range == 0.0 && |im| > 0 {
      return AllNaN;
    }
    if range == 0.0 {
      return Rescaled([]);
    }
    var values := [];
    for i := 0 to |im|
      invariant |values| == i
      invariant forall k :: 0 <= k < i ==> values[k] == (im[k] - min) / range
    {
      values := values + [(im[i] - min) / range];
    }
    out := Rescaled(values);
  }

  /**
   * `blind_quarter_step`: with no pattern the image is returned as it is;
   * otherwise every pixel moves by the small amount of the earliest pattern
   * of smallest variation and the image is normalised.
   */
  method Step(p: seq<Pattern>, w: nat, h: nat, im: seq<real>) returns (next: Rescaled)
    requires |im| == w * h && w < 0x8000_0000 && h < 0x8000_0000
    requires MuscatupaCpp.RadiiFit(p, w, h)
    ensures |p| == 0 ==> next == Rescaled(im)
    ensures |p| > 0 ==> next == SeededNormalize(Competition.Moved(MuscatupaCpp.Variations(p, w, h, im), MuscatupaCpp.Amounts(p), im))
  {
    if |p| == 0 {
      return Rescaled(im);
    }
    var variations, best := MuscatupaCpp.Compete(p, w, h, im);
    var moved := MuscatupaCpp.Update(p, w, h, im, variations, best);
    next := Normalize(moved);
  }
}
