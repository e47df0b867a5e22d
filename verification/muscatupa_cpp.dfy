/**
 * The C++ multi-scale engine (`muscatupa_step` in src/muscatupa.cpp).
 *
 * The image is a row-major buffer of w*h samples. Every pattern blurs the
 * image with its activator radius and with its inhibitor radius through
 * the weighted blur of src/blur.cpp, so both blurs carry the factor wt*wt.
 * The patterns compete at every pixel (module Competition); the pixel then
 * moves by the winner's small amount, up when the winning variation is
 * positive and down otherwise, and the image is normalised by the seeded
 * extrema of `max_array` / `min_array`.
 */
module MuscatupaCpp {
  import opened Flat
  import opened Extrema
  import opened Competition
  import opened Normalization
  import BlurCpp
  import opened BlurLine

  /** One Turing pattern: activator radius, inhibitor radius, small amount and weight. */
  datatype Pattern = Pattern(activatorRadius: nat, inhibitorRadius: nat, smallAmount: real, weight: nat)

  /** The small amount of every pattern, in order. */
  function Amounts(p: seq<Pattern>): (a: seq<real>)
    ensures |a| == |p| && forall i :: 0 <= i < |p| ==> a[i] == p[i].smallAmount
  {
    seq(|p|, i requires 0 <= i < |p| => p[i].smallAmount)
  }

  /** Both radii of every pattern fit the unchecked seed windows of the blur. */
  predicate RadiiFit(p: seq<Pattern>, w: nat, h: nat)
  {
    forall i :: 0 <= i < |p| ==>
      (h == 0 || (p[i].activatorRadius < w && p[i].inhibitorRadius < w)) &&
      (w == 0 || (p[i].activatorRadius < h && p[i].inhibitorRadius < h))
  }

  /** Activator minus inhibitor of every pattern at every pixel. */
  function Variations(p: seq<Pattern>, w: nat, h: nat, im: seq<real>): (vs: seq<seq<real>>)
    requires |im| == w * h
    ensures |vs| == |p| && Vectors(vs, w * h)
  {
    seq(|p|, i requires 0 <= i < |p| =>
      var act := Blurred(im, w, h, p[i].activatorRadius, Gain(p[i].weight));
      var inh := Blurred(im, w, h, p[i].inhibitorRadius, Gain(p[i].weight));
      seq(w * h, j requires 0 <= j < w * h => act[j] - inh[j]))
  }

  /** Pattern i's variation vector is its activator blur minus its inhibitor blur. */
  lemma VariationsAt(p: seq<Pattern>, w: nat, h: nat, im: seq<real>, i: nat, act: seq<real>, inh: seq<real>)
    requires |im| == w * h && i < |p|
    requires act == Blurred(im, w, h, p[i].activatorRadius, Gain(p[i].weight))
    requires inh == Blurred(im, w, h, p[i].inhibitorRadius, Gain(p[i].weight))
    ensures forall j :: 0 <= j < w * h ==> Variations(p, w, h, im)[i][j] == act[j] - inh[j]
  {
  }


  /**
   * The update loop: each pixel moves by the small amount of the pattern
   * `best` names, in the direction of the sign of the stored variation.
   */
  method Update(p: seq<Pattern>, w: nat, h: nat, im: seq<real>, variations: seq<real>, best: seq<nat>)
    returns (moved: seq<real>)
    requires |im| == w * h && |p| > 0
    requires Leading(Variations(p, w, h, im), w * h, |p|, variations, best)
    ensures moved == Moved(Variations(p, w, h, im), Amounts(p), im)
  {
    ghost var vs := Variations(p, w, h, im);
    moved := im;
    for j := 0 to w * h
      invariant |moved| == w * h
      invariant forall k :: 0 <= k < j ==> moved[k] == Moved(Variations(p, w, h, im), Amounts(p), im)[k]
      invariant forall k :: j <= k < w * h ==> moved[k] == im[k]
    {
      assert best[j] == Winner(vs, w * h, |p|, j) < |p|;
      if variations[j] > 0.0 {
        moved := moved[j := moved[j] + p[best[j]].smallAmount];
      } else {
        moved := moved[j := moved[j] - p[best[j]].smallAmount];
      }
    }
  }

  /**
   * `normalize`: every sample e becomes (e - min)/(max - min) with the
   * extrema of the seeded scans, or 0/0 everywhere when they are equal.
   */
  method Normalize(im: seq<real>) returns (out: Rescaled)
    ensures out == SeededNormalize(im)
  {
    var iMax, max := MaxArray(im);
    var iMin, min := MinArray(im);
    SeededMaxValue(im, FltMin, max, iMax);
    SeededMinValue(im, FltMax, min, iMin);
    var range := max - min;
    if range == 0.0 && |im| > 0 {
      return AllNaN;
    }
    if range == 0.0 {
      return Rescaled([]);
    }
    var values := [];
    for i := 0 to |im|
      invariant |values| == i
      invariant forall k :: 0 <= k < i ==> values[k] == (im[k] - min) / range
    {
      values := values + [(im[i] - min) / range];
    }
    out := Rescaled(values);
  }

  /** The activator and inhibitor blurs of pattern i. */
  method BlurPattern(p: seq<Pattern>, w: nat, h: nat, im: seq<real>, i: nat) returns (act: seq<real>, inh: seq<real>)
    requires |im| == w * h && w < 0x8000_0000 && h < 0x8000_0000
    requires i < |p| && RadiiFit(p, w, h)
    ensures act == Blurred(im, w, h, p[i].activatorRadius, Gain(p[i].weight))
    ensures inh == Blurred(im, w, h, p[i].inhibitorRadius, Gain(p[i].weight))
  {
    var pattern := p[i];
    act := BlurCpp.Blur(w, h, pattern.activatorRadius, pattern.weight, im);
    inh := BlurCpp.Blur(w, h, pattern.inhibitorRadius, pattern.weight, im);
  }

  /** One pass of the scale loop: blur with pattern i's radii and let it compete at every pixel. */
  method CompetePattern(p: seq<Pattern>, w: nat, h: nat, im: seq<real>, i: nat, variations: seq<real>, best: seq<nat>)
    returns (variations': seq<real>, best': seq<nat>)
    requires |im| == w * h && w < 0x8000_0000 && h < 0x8000_0000
    requires i < |p| && RadiiFit(p, w, h)
    requires |variations| == w * h && |best| == w * h
    requires i > 0 ==> Leading(Variations(p, w, h, im), w * h, i, variations, best)
    ensures Leading(Variations(p, w, h, im), w * h, i + 1, variations', best')
  {
    ghost var vs := Variations(p, w, h, im);
    var act, inh := BlurPattern(p, w, h, im, i);
    VariationsAt(p, w, h, im, i, act, inh);
    variations', best' := CompeteScale(vs, w * h, i, act, inh, variations, best);
  }

  /** The scale loop of `muscatupa_step`: after pattern i, `best` holds every pixel's winner. */
  method Compete(p: seq<Pattern>, w: nat, h: nat, im: seq<real>) returns (variations: seq<real>, best: seq<nat>)
    requires |im| == w * h && w < 0x8000_0000 && h < 0x8000_0000
    requires |p| > 0 && RadiiFit(p, w, h)
    ensures Leading(Variations(p, w, h, im), w * h, |p|, variations, best)
  {
    variations := seq(w * h, j => 0.0);
    best := seq(w * h, j => 0);
    for i := 0 to |p|
      invariant |variations| == w * h && |best| == w * h
      invariant i > 0 ==> Leading(Variations(p, w, h, im), w * h, i, variations, best)
    {
      variations, best := CompetePattern(p, w, h, im, i, variations, best);
    }
  }

  /**
   * `muscatupa_step`: every pixel moves by the small amount of the pattern
   * whose variation is smallest in magnitude (the earliest on ties), and
   * the image is normalised. The source reads the variation and winner
   * arrays without initialising them, so it needs at least one pattern.
   */
  method Step(p: seq<Pattern>, w: nat, h: nat, im: seq<real>) returns (next: Rescaled)
    requires |im| == w * h && w < 0x8000_0000 && h < 0x8000_0000
    requires |p| > 0 && RadiiFit(p, w, h)
    ensures next == SeededNormalize(Moved(Variations(p, w, h, im), Amounts(p), im))
  {
    var variations, best := Compete(p, w, h, im);
    var moved := Update(p, w, h, im, variations, best);
    next := Normalize(moved);
  }

  /**
   * At every pixel the step is the small amount of a pattern whose
   * variation is smallest in magnitude and earliest among equals, added
   * when that variation is positive and subtracted otherwise.
   */
  lemma MovedSpec(p: seq<Pattern>, w: nat, h: nat, im: seq<real>, j: nat)
    requires |im| == w * h && |p| > 0 && j < |im|
    ensures var vs := Variations(p, w, h, im);
      exists i :: 0 <= i < |p| &&
        (forall k :: 0 <= k < |p| ==> Abs(vs[i][j]) <= Abs(vs[k][j])) &&
        (forall k :: 0 <= k < i ==> Abs(vs[i][j]) < Abs(vs[k][j])) &&
        Moved(Variations(p, w, h, im), Amounts(p), im)[j] == im[j] + (if vs[i][j] > 0.0 then p[i].smallAmount else -p[i].smallAmount)
  {
    var vs := Variations(p, w, h, im);
    var i := Winner(vs, w * h, |p|, j);
    WinnerSmallest(vs, w * h, |p|, j);
    assert Moved(Variations(p, w, h, im), Amounts(p), im)[j] == im[j] + Nudge(vs[i][j], p[i].smallAmount);
  }

  /**
   * After a step over a non-empty image the result is all NaN exactly when
   * the moved image's seeded extrema are equal; otherwise every sample lies
   * in [0, 1], and the moved minimum sits at 0 once it is at most FLT_MAX.
   */
  lemma StepRange(p: seq<Pattern>, w: nat, h: nat, im: seq<real>)
    requires |im| == w * h && |im| > 0 && |p| > 0
    ensures var m := Moved(Variations(p, w, h, im), Amounts(p), im);
      var out := SeededNormalize(m);
      (out.AllNaN? <==> MinFrom(FltMax, m) == MaxFrom(FltMin, m)) &&
      (out.Rescaled? ==>
        |out.values| == |im| && (forall j :: 0 <= j < |im| ==> 0.0 <= out.values[j] <= 1.0) &&
        (SeqMin(m) <= FltMax ==> exists j :: 0 <= j < |im| && out.values[j] == 0.0))
  {
    var m := Moved(Variations(p, w, h, im), Amounts(p), im);
    SeededNormalizeSpec(m);
    if SeededNormalize(m).Rescaled? && SeqMin(m) <= FltMax {
      MinFromSeqMin(m);
      var k :| 0 <= k < |m| && m[k] == SeqMin(m);
      assert SeededNormalize(m).values[k] == 0.0;
    }
  }
}
