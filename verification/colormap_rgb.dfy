/**
 * The RGB colour map of src/colormap.c, handed to the GIF encoder.
 *
 * The map holds COLOR_DEPTH = 256 colours as consecutive (red, green,
 * blue) triples of int32 followed by a terminating -1 at index 3*256.
 * `gradient2` fills `depth` triples from an offset with the truncated
 * linear interpolation from `rgb_min` to `rgb_max`; `gradient3` runs it on
 * two halves, the second starting at `colors + 3*depth/2`.
 */
module ColormapRgb {
  import opened Flat
  import opened FloatCast

  /** Colours in the map (`COLOR_DEPTH` of src/colormap.h). */
  const ColorDepth: nat := 256

  /** Entries of the map: three channels per colour and the terminator. */
  const MapSize: nat := 3 * ColorDepth + 1

  /** A colour as three channel values, red first. */
  type Rgb = s: seq<Byte> | |s| == 3 witness [0, 0, 0]

  const Black: Rgb := [0, 0, 0]
  const Purple: Rgb := [80, 0, 80]
  const White: Rgb := [255, 255, 255]

  /** `grad[j]` of `gradient2`: (max_j - min_j)/depth. */
  function Slope(lo: Byte, hi: Byte, depth: nat): real
    requires depth > 0
  {
    (hi - lo) as real / depth as real
  }

  /**
   * The reference interpolation on integers: step i of `depth` from lo to
   * hi is (lo*(depth - i) + hi*i)/depth, rounded down.
   */
  function Lerp(lo: Byte, hi: Byte, depth: nat, i: nat): int
    requires depth > 0 && i <= depth
  {
    (lo * (depth - i) + hi * i) / depth
  }

  /** The numerator of `Lerp` lies between lo*depth and hi*depth. */
  lemma NumeratorBetween(lo: Byte, hi: Byte, depth: nat, i: nat)
    requires i <= depth
    ensures lo <= hi ==> lo * depth <= lo * (depth - i) + hi * i <= hi * depth
    ensures hi < lo ==> hi * depth <= lo * (depth - i) + hi * i <= lo * depth
  {
    var n := lo * (depth - i) + hi * i;
    if lo <= hi {
      assert n == lo * depth + i * (hi - lo);
      MulLe(i, depth, hi - lo);
      assert hi * depth == lo * depth + depth * (hi - lo);
    } else {
      assert n == hi * depth + (depth - i) * (lo - hi);
      MulLe(depth - i, depth, lo - hi);
      assert lo * depth == hi * depth + depth * (lo - hi);
    }
  }

  /** Quotients by d of numbers between a*d and b*d lie between a and b. */
  lemma QuotientBetween(n: nat, d: nat, a: nat, b: nat)
    requires d > 0 && a * d <= n <= b * d
    ensures a <= n / d <= b
  {
    QuotientAtLeast(n, d, a);
    QuotientAtMost(n, d, b);
  }

  /** The interpolation starts on lo and never leaves the range between lo and hi. */
  lemma LerpBounds(lo: Byte, hi: Byte, depth: nat, i: nat)
    requires depth > 0 && i <= depth
    ensures i == 0 ==> Lerp(lo, hi, depth, i) == lo
    ensures lo <= hi ==> lo <= Lerp(lo, hi, depth, i) <= hi
    ensures hi < lo ==> hi <= Lerp(lo, hi, depth, i) <= lo
  {
    var n := lo * (depth - i) + hi * i;
    NumeratorBetween(lo, hi, depth, i);
    if lo <= hi {
      QuotientBetween(n, depth, lo, hi);
    } else {
      QuotientBetween(n, depth, hi, lo);
    }
    if i == 0 {
      assert n == 0 + lo * depth;
      DivModOf(depth, 0, lo);
    }
  }

  /** Step i of the float formula is the integer interpolation. */
  lemma LevelIsLerp(lo: Byte, hi: Byte, depth: nat, i: nat)
    requires depth > 0 && i <= depth
    ensures Trunc(i as real * Slope(lo, hi, depth) + lo as real) == Lerp(lo, hi, depth, i)
  {
    var a := i * (hi - lo);
    var n := lo * (depth - i) + hi * i;
    assert n == a + lo * depth;
    var x := i as real * Slope(lo, hi, depth) + lo as real;
    assert Slope(lo, hi, depth) * depth as real == (hi - lo) as real;
    assert x * depth as real == i as real * (hi - lo) as real + lo as real * depth as real;
    assert (i * (hi - lo)) as real == i as real * (hi - lo) as real;
    assert (lo * depth) as real == lo as real * depth as real;
    RealQuotient(x, n as real, depth as real);
    LerpBounds(lo, hi, depth, i);
    FloorQuotient(n, depth);
  }

  /**
   * `colors[3i + j]` as `gradient2` computes it: (int32_t)(i * grad[j] +
   * rgb_min[j]). Step 0 is lo, and every step up to `depth` lies between
   * lo and hi.
   */
  function Level(lo: Byte, hi: Byte, depth: nat, i: nat): (v: int)
    requires depth > 0
    ensures i == 0 ==> v == lo
    ensures i <= depth && lo <= hi ==> lo <= v <= hi
    ensures i <= depth && hi < lo ==> hi <= v <= lo
  {
    var v := Trunc(i as real * Slope(lo, hi, depth) + lo as real);
    if i <= depth then
      LevelIsLerp(lo, hi, depth, i);
      LerpBounds(lo, hi, depth, i);
      v
    else
      v
  }

  /**
   * `gradient2` writing from `offset`: the stores go to offset .. offset +
   * 3*depth - 1 in ascending order, channel j of colour i holds step i from
   * min_j to max_j, and nothing else changes.
   */
  method Gradient2(depth: nat, lo: Rgb, hi: Rgb, colors: seq<int>, offset: nat)
    returns (colors': seq<int>, written: seq<nat>)
    requires offset + 3 * depth <= |colors|
    ensures |colors'| == |colors|
    ensures written == Indices(offset, offset + 3 * depth)
    ensures forall i, j :: 0 <= i < depth && 0 <= j < 3 ==>
      colors'[offset + 3 * i + j] == Level(lo[j], hi[j], depth, i)
    ensures forall k :: 0 <= k < |colors| && !(offset <= k < offset + 3 * depth) ==> colors'[k] == colors[k]
  {
    colors', written := colors, [];
    for i := 0 to depth
      invariant |colors'| == |colors|
      invariant written == Indices(offset, offset + 3 * i)
      invariant forall i', j :: 0 <= i' < i && 0 <= j < 3 ==>
        colors'[offset + 3 * i' + j] == Level(lo[j], hi[j], depth, i')
      invariant forall k :: 0 <= k < |colors| && !(offset <= k < offset + 3 * i) ==> colors'[k] == colors[k]
    {
      for j := 0 to 3
        invariant |colors'| == |colors|
        invariant written == Indices(offset, offset + 3 * i + j)
        invariant forall i', j' :: 0 <= i' < i && 0 <= j' < 3 ==>
          colors'[offset + 3 * i' + j'] == Level(lo[j'], hi[j'], depth, i')
        invariant forall j' :: 0 <= j' < j ==> colors'[offset + 3 * i + j'] == Level(lo[j'], hi[j'], depth, i)
        invariant forall k :: 0 <= k < |colors| && !(offset <= k < offset + 3 * i + j) ==> colors'[k] == colors[k]
      {
        colors' := colors'[offset + 3 * i + j := Level(lo[j], hi[j], depth, i)];
        written := written + [offset + 3 * i + j];
      }
    }
  }

  /** Where `gradient3` starts its second half: `colors + 3*depth/2`. */
  function SecondHalf(depth: nat): nat
  {
    3 * depth / 2
  }

  /**
   * `gradient3`: depth/2 colours from min to mid from index 0, then depth/2
   * colours from mid to max from index 3*depth/2; nothing else changes.
   */
  method Gradient3(depth: nat, lo: Rgb, mid: Rgb, hi: Rgb, colors: seq<int>)
    returns (colors': seq<int>, written: seq<nat>)
    requires 3 * depth <= |colors|
    ensures |colors'| == |colors|
    ensures written == Indices(0, 3 * (depth / 2))
                     + Indices(SecondHalf(depth), SecondHalf(depth) + 3 * (depth / 2))
    ensures forall i, j :: 0 <= i < depth / 2 && 0 <= j < 3 ==>
      colors'[3 * i + j] == Level(lo[j], mid[j], depth / 2, i)
    ensures forall i, j :: 0 <= i < depth / 2 && 0 <= j < 3 ==>
      colors'[SecondHalf(depth) + 3 * i + j] == Level(mid[j], hi[j], depth / 2, i)
    ensures forall k :: 3 * depth <= k < |colors| ==> colors'[k] == colors[k]
  {
    var h := depth / 2;
    var first, second;
    colors', first := Gradient2(h, lo, mid, colors, 0);
    var before := colors';
    colors', second := Gradient2(h, mid, hi, colors', SecondHalf(depth));
    written := first + second;
    forall i, j | 0 <= i < h && 0 <= j < 3
      ensures colors'[3 * i + j] == Level(lo[j], mid[j], h, i)
    {
      assert before[0 + 3 * i + j] == Level(lo[j], mid[j], h, i);
    }
  }

  /**
   * For an even depth the two halves of `gradient3` store every index
   * 0 .. 3*depth - 1 exactly once, in order. For an odd depth index
   * 3*(depth/2) is never stored, and the second half starts one slot late,
   * on a green channel.
   */
  lemma Gradient3Tiling(depth: nat)
    ensures depth % 2 == 0 ==>
      Indices(0, 3 * (depth / 2)) + Indices(SecondHalf(depth), SecondHalf(depth) + 3 * (depth / 2))
      == Indices(0, 3 * depth)
    ensures depth % 2 == 1 ==>
      3 * (depth / 2) < 3 * depth &&
      3 * (depth / 2) !in Indices(0, 3 * (depth / 2)) + Indices(SecondHalf(depth), SecondHalf(depth) + 3 * (depth / 2)) &&
      SecondHalf(depth) % 3 == 1
  {
    var h := depth / 2;
    if depth % 2 == 0 {
      assert SecondHalf(depth) == 3 * h;
    } else {
      assert SecondHalf(depth) == 3 * h + 1;
      var w := Indices(0, 3 * h) + Indices(3 * h + 1, 3 * h + 1 + 3 * h);
      assert forall k :: 0 <= k < |w| ==> w[k] != 3 * h;
    }
  }

  /**
   * `colormap_build`: black to purple to white over the 256 colours, then
   * the terminator. Every colour slot is stored exactly once, colour 0 is
   * black, colour 128 is purple, every channel is a byte, and the colors ends
   * with -1.
   */
  method ColormapBuild(prior: seq<int>) returns (colors: seq<int>, written: seq<nat>)
    requires |prior| == MapSize
    ensures |colors| == MapSize && colors[3 * ColorDepth] == -1
    ensures written == Indices(0, 3 * ColorDepth)
    ensures colors[..3] == Black
    ensures colors[3 * (ColorDepth / 2)..3 * (ColorDepth / 2) + 3] == Purple
    ensures forall k :: 0 <= k < 3 * ColorDepth ==> 0 <= colors[k] < 0x100
    ensures forall i, j :: 0 <= i < ColorDepth / 2 && 0 <= j < 3 ==>
      colors[3 * i + j] == Level(Black[j], Purple[j], ColorDepth / 2, i) &&
      colors[3 * (ColorDepth / 2) + 3 * i + j] == Level(Purple[j], White[j], ColorDepth / 2, i)
  {
    colors, written := Gradient3(ColorDepth, Black, Purple, White, prior);
    Gradient3Tiling(ColorDepth);
    colors := colors[3 * ColorDepth := -1];
    forall k | 0 <= k < 3 * ColorDepth
      ensures 0 <= colors[k] < 0x100
    {
      var i, j := k / 3, k % 3;
      if k < 3 * 128 {
        assert colors[3 * i + j] == Level(Black[j], Purple[j], 128, i);
      } else {
        var i' := i - 128;
        assert colors[3 * 128 + 3 * i' + j] == Level(Purple[j], White[j], 128, i');
      }
    }
    assert colors[0] == Level(Black[0], Purple[0], 128, 0);
    assert colors[1] == Level(Black[1], Purple[1], 128, 0);
    assert colors[2] == Level(Black[2], Purple[2], 128, 0);
    assert colors[384 + 0] == Level(Purple[0], White[0], 128, 0);
    assert colors[384 + 1] == Level(Purple[1], White[1], 128, 0);
    assert colors[384 + 2] == Level(Purple[2], White[2], 128, 0);
  }
}
