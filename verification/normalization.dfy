/**
 * Min/max normalisation of an image.
 *
 * Every engine ends its step by mapping each sample e to (e - min)/range
 * (the pattern generator and the C++ engines, onto [0, 1]) or to
 * 2(e - min)/range - 1 (the C engine, onto [-1, 1]), where range is
 * max - min. The pattern generator takes the true extrema; the other
 * engines take the seeded extrema of module Extrema. A zero range with at
 * least one sample turns every sample into 0/0, which the model reports as
 * the outcome `AllNaN` rather than excluding.
 */
module Normalization {
  import opened Extrema

  /** The image after normalisation, or every sample NaN when the range was zero. */
  datatype Rescaled = Rescaled(values: seq<real>) | AllNaN

  /** Each sample e mapped to (e - lo)/(hi - lo). */
  function Rescale(a: seq<real>, lo: real, hi: real): (r: Rescaled)
    ensures r.AllNaN? <==> hi == lo && |a| > 0
    ensures r.Rescaled? ==> |r.values| == |a|
    ensures r.Rescaled? ==> forall j :: 0 <= j < |a| ==> a[j] == lo + r.values[j] * (hi - lo)
  {
    if hi == lo then (if |a| == 0 then Rescaled([]) else AllNaN)
    else Rescaled(seq(|a|, j requires 0 <= j < |a| => (a[j] - lo) / (hi - lo)))
  }

  /** Each sample e mapped to 2(e - lo)/(hi - lo) - 1. */
  function RescaleSymmetric(a: seq<real>, lo: real, hi: real): (r: Rescaled)
    ensures r.AllNaN? <==> hi == lo && |a| > 0
    ensures r.Rescaled? ==> |r.values| == |a|
    ensures r.Rescaled? ==> forall j :: 0 <= j < |a| ==> 2.0 * (a[j] - lo) == (r.values[j] + 1.0) * (hi - lo)
  {
    if hi == lo then (if |a| == 0 then Rescaled([]) else AllNaN)
    else Rescaled(seq(|a|, j requires 0 <= j < |a| => 2.0 * (a[j] - lo) / (hi - lo) - 1.0))
  }

  /** `PatternGenerator::normalize`: rescaling by the true minimum and maximum. */
  function UnitNormalize(a: seq<real>): Rescaled
    requires |a| > 0
  {
    Rescale(a, SeqMin(a), SeqMax(a))
  }

  /** The C++ engines' `normalize`: rescaling by the seeded extrema. */
  function SeededNormalize(a: seq<real>): Rescaled
  {
    Rescale(a, MinFrom(FltMax, a), MaxFrom(FltMin, a))
  }

  /** The C engine's `normalize`: symmetric rescaling by the seeded extrema. */
  function SeededSymmetricNormalize(a: seq<real>): Rescaled
  {
    RescaleSymmetric(a, MinFrom(FltMax, a), MaxFrom(FltMin, a))
  }

  /** A product with a positive factor is non-negative only if the other factor is. */
  lemma NonNegFactor(a: real, d: real)
    requires d > 0.0 && a * d >= 0.0
    ensures a >= 0.0
  {
  }

  lemma DivBounds(e: real, lo: real, hi: real)
    requires lo < hi && lo <= e <= hi
    ensures 0.0 <= (e - lo) / (hi - lo) <= 1.0
    ensures (e - lo) / (hi - lo) == 0.0 <==> e == lo
    ensures (e - lo) / (hi - lo) == 1.0 <==> e == hi
  {
    var d := hi - lo;
    var q := (e - lo) / d;
    assert q * d == e - lo;
    NonNegFactor(q, d);
    assert (1.0 - q) * d == hi - e;
    NonNegFactor(1.0 - q, d);
    if e == hi {
      assert q == d / d;
    }
  }

  lemma DivOrder(e1: real, e2: real, lo: real, hi: real)
    requires lo < hi
    ensures e1 < e2 <==> (e1 - lo) / (hi - lo) < (e2 - lo) / (hi - lo)
  {
  }

  /**
   * Inside [lo, hi] with lo < hi, rescaling lands in [0, 1], sends exactly
   * the samples equal to lo to 0 and exactly those equal to hi to 1, and
   * keeps the order of every pair of samples.
   */
  lemma RescaleUnit(a: seq<real>, lo: real, hi: real)
    requires lo < hi
    requires forall j :: 0 <= j < |a| ==> lo <= a[j] <= hi
    ensures Rescale(a, lo, hi).Rescaled?
    ensures forall j :: 0 <= j < |a| ==> 0.0 <= Rescale(a, lo, hi).values[j] <= 1.0
    ensures forall j :: 0 <= j < |a| ==> (Rescale(a, lo, hi).values[j] == 0.0 <==> a[j] == lo)
    ensures forall j :: 0 <= j < |a| ==> (Rescale(a, lo, hi).values[j] == 1.0 <==> a[j] == hi)
    ensures forall i, j :: 0 <= i < |a| && 0 <= j < |a| ==>
      (a[i] < a[j] <==> Rescale(a, lo, hi).values[i] < Rescale(a, lo, hi).values[j])
  {
    var v := Rescale(a, lo, hi).values;
    forall j | 0 <= j < |a|
      ensures 0.0 <= v[j] <= 1.0
      ensures v[j] == 0.0 <==> a[j] == lo
      ensures v[j] == 1.0 <==> a[j] == hi
    {
      DivBounds(a[j], lo, hi);
    }
    forall i, j | 0 <= i < |a| && 0 <= j < |a|
      ensures a[i] < a[j] <==> v[i] < v[j]
    {
      DivOrder(a[i], a[j], lo, hi);
    }
  }

  /**
   * The pattern generator's normalisation: with max > min it maps the
   * minimum to 0 and the maximum to 1, stays in [0, 1] and keeps order;
   * with max == min every sample becomes 0/0.
   */
  lemma UnitNormalizeSpec(a: seq<real>)
    requires |a| > 0
    ensures UnitNormalize(a).AllNaN? <==> SeqMin(a) == SeqMax(a)
    ensures SeqMin(a) < SeqMax(a) ==>
      var v := UnitNormalize(a).values;
      |v| == |a| && SeqMin(v) == 0.0 && SeqMax(v) == 1.0 &&
      forall i, j :: 0 <= i < |a| && 0 <= j < |a| ==> (a[i] < a[j] <==> v[i] < v[j])
  {
    if SeqMin(a) < SeqMax(a) {
      var lo, hi := SeqMin(a), SeqMax(a);
      RescaleUnit(a, lo, hi);
      var v := UnitNormalize(a).values;
      var i :| 0 <= i < |a| && a[i] == lo;
      var k :| 0 <= k < |a| && a[k] == hi;
      assert v[i] == 0.0 && v[k] == 1.0;
    }
  }

  /** Normalising an already normalised image changes nothing. */
  lemma UnitNormalizeIdempotent(a: seq<real>)
    requires |a| > 0 && SeqMin(a) < SeqMax(a)
    ensures |UnitNormalize(a).values| > 0
    ensures UnitNormalize(UnitNormalize(a).values) == UnitNormalize(a)
  {
    UnitNormalizeSpec(a);
    var v := UnitNormalize(a).values;
    var w := Rescale(v, 0.0, 1.0);
    assert w.values == v;
  }

  /**
   * The C++ engines' normalisation: over a non-empty image with a non-zero
   * range every sample lands in [0, 1], the minimum goes to 0, order is
   * kept, and the maximum goes to 1 once it is at least FLT_MIN.
   */
  lemma SeededNormalizeSpec(a: seq<real>)
    requires |a| > 0
    ensures SeededNormalize(a).AllNaN? <==> MinFrom(FltMax, a) == MaxFrom(FltMin, a)
    ensures SeededNormalize(a).Rescaled? ==>
      var v := SeededNormalize(a).values;
      |v| == |a| &&
      (forall j :: 0 <= j < |a| ==> 0.0 <= v[j] <= 1.0) &&
      (forall j :: 0 <= j < |a| ==> (v[j] == 0.0 <==> a[j] == MinFrom(FltMax, a))) &&
      (forall i, j :: 0 <= i < |a| && 0 <= j < |a| ==> (a[i] < a[j] <==> v[i] < v[j])) &&
      (SeqMax(a) >= FltMin ==> forall j :: 0 <= j < |a| ==> (v[j] == 1.0 <==> a[j] == SeqMax(a)))
  {
    var lo, hi := MinFrom(FltMax, a), MaxFrom(FltMin, a);
    assert lo <= a[0] <= hi;
    if lo != hi {
      RescaleUnit(a, lo, hi);
      if SeqMax(a) >= FltMin {
        MaxFromSeqMax(a);
      }
    }
  }

  lemma SymBounds(e: real, lo: real, hi: real)
    requires lo < hi && lo <= e <= hi
    ensures -1.0 <= 2.0 * (e - lo) / (hi - lo) - 1.0 <= 1.0
    ensures 2.0 * (e - lo) / (hi - lo) - 1.0 == -1.0 <==> e == lo
    ensures 2.0 * (e - lo) / (hi - lo) - 1.0 == 1.0 <==> e == hi
  {
    DivBounds(e, lo, hi);
    assert 2.0 * (e - lo) / (hi - lo) == 2.0 * ((e - lo) / (hi - lo));
  }

  /**
   * The C engine's normalisation: over a non-empty image with a non-zero
   * range every sample lands in [-1, 1], the minimum goes to -1, and the
   * maximum goes to 1 once it is at least FLT_MIN.
   */
  lemma SeededSymmetricNormalizeSpec(a: seq<real>)
    requires |a| > 0
    ensures SeededSymmetricNormalize(a).AllNaN? <==> MinFrom(FltMax, a) == MaxFrom(FltMin, a)
    ensures SeededSymmetricNormalize(a).Rescaled? ==>
      var v := SeededSymmetricNormalize(a).values;
      |v| == |a| &&
      (forall j :: 0 <= j < |a| ==> -1.0 <= v[j] <= 1.0) &&
      (forall j :: 0 <= j < |a| ==> (v[j] == -1.0 <==> a[j] == MinFrom(FltMax, a))) &&
      (SeqMax(a) >= FltMin ==> forall j :: 0 <= j < |a| ==> (v[j] == 1.0 <==> a[j] == SeqMax(a)))
  {
    var lo, hi := MinFrom(FltMax, a), MaxFrom(FltMin, a);
    assert lo <= a[0] <= hi;
    if lo != hi {
      var v := SeededSymmetricNormalize(a).values;
      forall j | 0 <= j < |a|
        ensures -1.0 <= v[j] <= 1.0
        ensures v[j] == -1.0 <==> a[j] == lo
        ensures v[j] == 1.0 <==> a[j] == hi
      {
        SymBounds(a[j], lo, hi);
      }
      if SeqMax(a) >= FltMin {
        MaxFromSeqMax(a);
      }
    }
  }
}
