/**
 * The competition between scales at one pixel.
 *
 * Every engine blurs the image once per scale with the scale's activator
 * radius and once with its inhibitor radius, and takes the variation
 * activator - inhibitor. At each pixel the scale whose variation is
 * smallest in magnitude wins: the first scale seeds the winner and a later
 * scale replaces it only when its magnitude is strictly smaller, so among
 * equal magnitudes the earliest scale wins. The pixel then moves by the
 * winner's amount: up when the winning variation is positive, down
 * otherwise, a zero variation included.
 */
module Competition {

  function Abs(x: real): real
  {
    if x < 0.0 then -x else x
  }

  /** k is the first position of a smallest element of m. */
  predicate IsEarliestArgMin(m: seq<real>, k: nat)
  {
    k < |m| && (forall j :: 0 <= j < |m| ==> m[k] <= m[j]) && (forall j :: 0 <= j < k ==> m[k] < m[j])
  }

  /** There is only one earliest arg-min. */
  lemma EarliestArgMinUnique(m: seq<real>, k1: nat, k2: nat)
    requires IsEarliestArgMin(m, k1) && IsEarliestArgMin(m, k2)
    ensures k1 == k2
  {
    var least1, least2 := m[k1], m[k2];
    assert least1 <= least2 && least2 <= least1;
  }

  /**
   * The winner a scan over scales 0 .. |m|-1 keeps: position 0 seeds it and
   * position t replaces the current winner k only when m[t] < m[k].
   */
  function RunningBest(m: seq<real>): (k: nat)
    requires |m| > 0
    ensures IsEarliestArgMin(m, k)
    decreases |m|
  {
    if |m| == 1 then 0
    else
      var k := RunningBest(m[..|m| - 1]);
      if m[|m| - 1] < m[k] then |m| - 1 else k
  }

  /** The step taken at a pixel whose winning variation is `variation`. */
  function Nudge(variation: real, amount: real): real
  {
    if variation > 0.0 then amount else -amount
  }

  /** `vs` holds one variation vector of `size` pixels per scale. */
  predicate Vectors(vs: seq<seq<real>>, size: nat)
  {
    forall t :: 0 <= t < |vs| ==> |vs[t]| == size
  }

  /** Magnitudes of the variations of scales 0 .. n-1 at pixel j. */
  function Magnitudes(vs: seq<seq<real>>, size: nat, n: nat, j: nat): (m: seq<real>)
    requires Vectors(vs, size) && n <= |vs| && j < size
    ensures |m| == n
  {
    seq(n, t requires 0 <= t < n => Abs(vs[t][j]))
  }

  /** The winning scale at pixel j among scales 0 .. n-1. */
  function Winner(vs: seq<seq<real>>, size: nat, n: nat, j: nat): (t: nat)
    requires Vectors(vs, size) && 0 < n <= |vs| && j < size
    ensures t < n
  {
    RunningBest(Magnitudes(vs, size, n, j))
  }

  /**
   * The winner's variation is smallest in magnitude among scales 0 .. n-1,
   * and strictly smaller than that of every earlier scale.
   */
  lemma WinnerSmallest(vs: seq<seq<real>>, size: nat, n: nat, j: nat)
    requires Vectors(vs, size) && 0 < n <= |vs| && j < size
    ensures var t := Winner(vs, size, n, j);
      (forall k :: 0 <= k < n ==> Abs(vs[t][j]) <= Abs(vs[k][j])) &&
      (forall k :: 0 <= k < t ==> Abs(vs[t][j]) < Abs(vs[k][j]))
  {
    var m, t := Magnitudes(vs, size, n, j), Winner(vs, size, n, j);
    assert IsEarliestArgMin(m, t);
    forall k | 0 <= k < n
      ensures Abs(vs[t][j]) <= Abs(vs[k][j])
      ensures k < t ==> Abs(vs[t][j]) < Abs(vs[k][j])
    {
      assert m[k] == Abs(vs[k][j]) && m[t] == Abs(vs[t][j]);
    }
  }

  /** Admitting one more scale: it wins exactly when strictly smaller than the current winner. */
  lemma WinnerStep(vs: seq<seq<real>>, size: nat, n: nat, j: nat)
    requires Vectors(vs, size) && 0 < n < |vs| && j < size
    ensures Winner(vs, size, n + 1, j)
         == if Abs(vs[n][j]) < Abs(vs[Winner(vs, size, n, j)][j]) then n else Winner(vs, size, n, j)
  {
    assert Magnitudes(vs, size, n + 1, j)[..n] == Magnitudes(vs, size, n, j);
  }

  /**
   * The image moved, at every pixel, by the step amount of the winning
   * scale: up when that scale's variation is positive, down otherwise.
   */
  function Moved(vs: seq<seq<real>>, amounts: seq<real>, im: seq<real>): (m: seq<real>)
    requires Vectors(vs, |im|) && 0 < |amounts| == |vs|
    ensures |m| == |im|
  {
    seq(|im|, j requires 0 <= j < |im| =>
      var t := Winner(vs, |im|, |amounts|, j);
      im[j] + Nudge(vs[t][j], amounts[t]))
  }

  /**
   * After scales 0 .. n-1: at every pixel, `best` holds the winner and
   * `variations` the winner's variation.
   */
  predicate Leading(vs: seq<seq<real>>, size: nat, n: nat, variations: seq<real>, best: seq<nat>)
    requires Vectors(vs, size) && 0 < n <= |vs|
  {
    |variations| == size && |best| == size &&
    forall j :: 0 <= j < size ==> best[j] == Winner(vs, size, n, j) && variations[j] == vs[best[j]][j]
  }

  /**
   * One scale's pixel loop of the C++ engines: at each pixel the scale's
   * variation replaces the stored one when this is the first scale or when
   * it is strictly smaller in magnitude.
   */
  method CompeteScale(ghost vs: seq<seq<real>>, size: nat, t: nat, activators: seq<real>, inhibitors: seq<real>,
                      variations: seq<real>, best: seq<nat>)
    returns (variations': seq<real>, best': seq<nat>)
    requires Vectors(vs, size) && t < |vs|
    requires |activators| == size && |inhibitors| == size
    requires forall j :: 0 <= j < size ==> vs[t][j] == activators[j] - inhibitors[j]
    requires |variations| == size && |best| == size
    requires t > 0 ==> Leading(vs, size, t, variations, best)
    ensures Leading(vs, size, t + 1, variations', best')
  {
    variations', best' := variations, best;
    for j := 0 to size
      invariant |variations'| == size && |best'| == size
      invariant forall k :: 0 <= k < j ==> best'[k] == Winner(vs, size, t + 1, k) && variations'[k] == vs[best'[k]][k]
      invariant forall k :: j <= k < size ==> best'[k] == best[k] && variations'[k] == variations[k]
    {
      var variation := activators[j] - inhibitors[j];
      if t > 0 {
        WinnerStep(vs, size, t, j);
      }
      if t == 0 || Abs(variation) < Abs(variations'[j]) {
        variations' := variations'[j := variation];
        best' := best'[j := t];
      }
    }
  }

  /**
   * `find_best_scale` of the C engine at one pixel: scale 0 seeds the
   * winner and each later scale replaces it only when strictly smaller.
   * The magnitudes are already absolute values.
   */
  method FindBestScale(magnitudes: seq<real>) returns (best: nat)
    requires |magnitudes| > 0
    ensures IsEarliestArgMin(magnitudes, best)
    ensures best == RunningBest(magnitudes)
  {
    var least := magnitudes[0];
    best := 0;
    for i := 1 to |magnitudes|
      invariant best == RunningBest(magnitudes[..i]) && least == magnitudes[best]
    {
      assert magnitudes[..i + 1][..i] == magnitudes[..i];
      if magnitudes[i] < least {
        least := magnitudes[i];
        best := i;
      }
    }
    assert magnitudes[..|magnitudes|] == magnitudes;
  }
}
