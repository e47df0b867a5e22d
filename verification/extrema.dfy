/**
 * Min/max reductions over a float array (`max_array` and `min_array`, in
 * src/utils.c and again in src/muscatupa.cpp, and the single scan of the
 * blind-quarter engine).
 *
 * The running maximum starts at FLT_MIN, the smallest positive normal
 * float, not at -FLT_MAX: an array with no element above FLT_MIN reports
 * FLT_MIN itself at index 0. The running minimum starts at FLT_MAX. Both
 * replace the running value only on a strict comparison, so the first
 * position of the extremum is reported.
 */
module Extrema {

  /** FLT_MIN = 2^-126. */
  const FltMin: real := 1.0 / 85070591730234615865843651857942052864.0

  /** FLT_MAX = (2^24 - 1) * 2^104. */
  const FltMax: real := 340282346638528859811704183484516925440.0

  /** The larger of `seed` and every element of a. */
  function MaxFrom(seed: real, a: seq<real>): (m: real)
    ensures seed <= m
    ensures forall j :: 0 <= j < |a| ==> a[j] <= m
    ensures m == seed || m in a
    decreases |a|
  {
    if |a| == 0 then seed
    else
      var m := MaxFrom(seed, a[..|a| - 1]);
      if a[|a| - 1] > m then a[|a| - 1] else m
  }

  /** The smaller of `seed` and every element of a. */
  function MinFrom(seed: real, a: seq<real>): (m: real)
    ensures m <= seed
    ensures forall j :: 0 <= j < |a| ==> m <= a[j]
    ensures m == seed || m in a
    decreases |a|
  {
    if |a| == 0 then seed
    else
      var m := MinFrom(seed, a[..|a| - 1]);
      if a[|a| - 1] < m then a[|a| - 1] else m
  }

  /** The largest element of a non-empty sequence. */
  function SeqMax(a: seq<real>): (m: real)
    requires |a| > 0
    ensures m in a
    ensures forall j :: 0 <= j < |a| ==> a[j] <= m
  {
    MaxFrom(a[0], a)
  }

  /** The smallest element of a non-empty sequence. */
  function SeqMin(a: seq<real>): (m: real)
    requires |a| > 0
    ensures m in a
    ensures forall j :: 0 <= j < |a| ==> m <= a[j]
  {
    MinFrom(a[0], a)
  }

  /**
   * What a seeded maximum scan reports: the value m is the largest of the
   * seed and the elements; the index k is the first position holding m
   * when m exceeds the seed, and 0 when no element exceeds the seed.
   */
  predicate IsSeededMax(a: seq<real>, seed: real, m: real, k: nat)
  {
    seed <= m && (forall j :: 0 <= j < |a| ==> a[j] <= m) && (m == seed || m in a) &&
    if m > seed then k < |a| && a[k] == m && forall j :: 0 <= j < k ==> a[j] < m
    else k == 0
  }

  /** The mirror image of `IsSeededMax` for a minimum scan. */
  predicate IsSeededMin(a: seq<real>, seed: real, m: real, k: nat)
  {
    m <= seed && (forall j :: 0 <= j < |a| ==> m <= a[j]) && (m == seed || m in a) &&
    if m < seed then k < |a| && a[k] == m && forall j :: 0 <= j < k ==> m < a[j]
    else k == 0
  }

  /** A seeded maximum scan has exactly one possible report. */
  lemma SeededMaxUnique(a: seq<real>, seed: real, m1: real, k1: nat, m2: real, k2: nat)
    requires IsSeededMax(a, seed, m1, k1) && IsSeededMax(a, seed, m2, k2)
    ensures m1 == m2 && k1 == k2
  {
  }

  /** A seeded minimum scan has exactly one possible report. */
  lemma SeededMinUnique(a: seq<real>, seed: real, m1: real, k1: nat, m2: real, k2: nat)
    requires IsSeededMin(a, seed, m1, k1) && IsSeededMin(a, seed, m2, k2)
    ensures m1 == m2 && k1 == k2
  {
  }

  /** The value a seeded maximum scan reports is `MaxFrom`. */
  lemma SeededMaxValue(a: seq<real>, seed: real, m: real, k: nat)
    requires IsSeededMax(a, seed, m, k)
    ensures m == MaxFrom(seed, a)
  {
  }

  /** The value a seeded minimum scan reports is `MinFrom`. */
  lemma SeededMinValue(a: seq<real>, seed: real, m: real, k: nat)
    requires IsSeededMin(a, seed, m, k)
    ensures m == MinFrom(seed, a)
  {
  }

  /** `max_array`: the seeded maximum of the array and the first index holding it. */
  method MaxArray(a: seq<real>) returns (iMax: nat, max: real)
    ensures IsSeededMax(a, FltMin, max, iMax)
    ensures |a| == 0 ==> max == FltMin && iMax == 0
    ensures |a| > 0 ==> iMax < |a|
  {
    iMax := 0;
    max := FltMin;
    for i := 0 to |a|
      invariant IsSeededMax(a[..i], FltMin, max, iMax)
    {
      if a[i] > max {
        max := a[i];
        iMax := i;
      }
      assert a[..i + 1] == a[..i] + [a[i]];
    }
    assert a[..|a|] == a;
  }

  /** `min_array`: the seeded minimum of the array and the first index holding it. */
  method MinArray(a: seq<real>) returns (iMin: nat, min: real)
    ensures IsSeededMin(a, FltMax, min, iMin)
    ensures |a| == 0 ==> min == FltMax && iMin == 0
    ensures |a| > 0 ==> iMin < |a|
  {
    iMin := 0;
    min := FltMax;
    for i := 0 to |a|
      invariant IsSeededMin(a[..i], FltMax, min, iMin)
    {
      if a[i] < min {
        min := a[i];
        iMin := i;
      }
      assert a[..i + 1] == a[..i] + [a[i]];
    }
    assert a[..|a|] == a;
  }

  /** An array with no element above zero reports FLT_MIN at index 0. */
  lemma MaxArrayNonPositive(a: seq<real>, m: real, k: nat)
    requires forall j :: 0 <= j < |a| ==> a[j] <= 0.0
    requires IsSeededMax(a, FltMin, m, k)
    ensures m == FltMin && k == 0
  {
  }

  /** Once some element reaches FLT_MIN, the seeded maximum is the true maximum. */
  lemma MaxFromSeqMax(a: seq<real>)
    requires |a| > 0 && SeqMax(a) >= FltMin
    ensures MaxFrom(FltMin, a) == SeqMax(a)
  {
  }

  /** Once some element is at most FLT_MAX, the seeded minimum is the true minimum. */
  lemma MinFromSeqMin(a: seq<real>)
    requires |a| > 0 && SeqMin(a) <= FltMax
    ensures MinFrom(FltMax, a) == SeqMin(a)
  {
  }

  /**
   * The single scan of the blind-quarter `normalize`: both running values
   * are updated in the same pass, from the same seeds, and end equal to the
   * two separate scans.
   */
  method MaxMinScan(a: seq<real>) returns (max: real, min: real)
    ensures max == MaxFrom(FltMin, a)
    ensures min == MinFrom(FltMax, a)
  {
    max := FltMin;
    min := FltMax;
    for i := 0 to |a|
      invariant max == MaxFrom(FltMin, a[..i])
      invariant min == MinFrom(FltMax, a[..i])
    {
      assert a[..i + 1][..i] == a[..i];
      if a[i] > max {
        max := a[i];
      }
      if a[i] < min {
        min := a[i];
      }
    }
    assert a[..|a|] == a;
  }
}
