/**
 * The C multi-scale engine (`step` and its helpers in src/muscatupa.c).
 *
 * The image is a `float im[w][h]` array: w columns of h samples stored one
 * after the other, so sample (x, y) sits at offset x*h + y of the buffer
 * that `normalize` hands to `max_array` / `min_array`. The model keeps that
 * buffer (`im`, column-major) and views it as a grid of columns for the
 * blur of src/blur.c.
 *
 * `step` blurs the image once per pattern at the activator radius and once
 * at the inhibitor radius, takes |act - inh| per pattern and pixel
 * (`compute_var`), picks per pixel the earliest pattern of smallest
 * variation (`find_best_scale`), moves the pixel by that pattern's small
 * amount, up when its activator exceeds its inhibitor and down otherwise
 * (`update`), and rescales the image onto [-1, 1] (`normalize`).
 *
 * The inhibitor arrays are declared `float inh[n][w][w]` in the source but
 * written and read as `[n][w][h]`; the model stores every pattern's blur
 * separately, which is the `[n][w][h]` layout (see `InhibitorSlotsAgree`
 * and `CorrectedLayout` at the end of this module).
 */
module MuscatupaC {
  import opened Grid
  import opened Flat
  import opened Extrema
  import opened Competition
  import opened Normalization
  import opened BlurLine
  import BlurC
  import MuscatupaCpp

  type Pattern = MuscatupaCpp.Pattern

  /** The columns of a column-major w x h buffer: column x holds samples (x, 0) .. (x, h-1). */
  function Columns(im: seq<real>, w: nat, h: nat): (g: seq<seq<real>>)
    requires |im| == w * h
    ensures IsGrid(g, w, h)
  {
    Rows(im, h, w)
  }

  /** Sample (x, y) of the column view is the buffer sample at offset x*h + y. */
  lemma ColumnsAt(im: seq<real>, w: nat, h: nat, x: nat, y: nat)
    requires |im| == w * h && x < w && y < h
    ensures y + x * h < |im|
    ensures Columns(im, w, h)[x][y] == im[y + x * h]
  {
    RowsAt(im, h, w, y, x);
  }

  /** The image's rows: row y holds samples (0, y) .. (w-1, y). */
  function ImageRows(im: seq<real>, w: nat, h: nat): (g: seq<seq<real>>)
    requires |im| == w * h
    ensures IsGrid(g, h, w)
  {
    Transpose(Columns(im, w, h), h)
  }

  /**
   * The C blur of a column-major buffer: every sample becomes wt² times the
   * mean of the clipped rectangle around it, stored column-major again.
   */
  function ColumnBlurred(im: seq<real>, w: nat, h: nat, r: nat, wt: nat): (b: seq<real>)
    requires |im| == w * h
    ensures |b| == w * h
  {
    var blurredRows := BoxBlur(ImageRows(im, w, h), w, r, Gain(wt));
    FlattenLength(Transpose(blurredRows, w), h, w);
    Flatten(Transpose(blurredRows, w))
  }

  /**
   * Sample (x, y) of the blurred buffer is wt² times the box mean around
   * (x, y), and the image rows read sample (x, y) at offset x*h + y.
   */
  lemma ColumnBlurredAt(im: seq<real>, w: nat, h: nat, r: nat, wt: nat, x: nat, y: nat)
    requires |im| == w * h && x < w && y < h
    ensures y + x * h < w * h
    ensures ImageRows(im, w, h)[y][x] == im[y + x * h]
    ensures ColumnBlurred(im, w, h, r, wt)[y + x * h] == Gain(wt) * BoxMean(ImageRows(im, w, h), w, y, x, r)
  {
    ColumnsAt(im, w, h, x, y);
    var rows := ImageRows(im, w, h);
    var blurredRows := BoxBlur(rows, w, r, Gain(wt));
    var t := Transpose(blurredRows, w);
    FlattenAt(t, h, w, y, x);
    assert ColumnBlurred(im, w, h, r, wt) == Flatten(t);
    BoxBlurAt(rows, w, r, Gain(wt), y, x);
    assert t[x][y] == blurredRows[y][x];
  }

  /** `blur` applied to the image, as the step calls it. */
  method BlurImage(w: nat, h: nat, r: nat, wt: nat, im: seq<real>) returns (b: seq<real>)
    requires |im| == w * h && w < 0x8000_0000 && h < 0x8000_0000
    requires h == 0 || r < w
    requires w == 0 || r < h
    ensures b == ColumnBlurred(im, w, h, r, wt)
  {
    var d := BlurC.Blur(w, h, r, wt, Columns(im, w, h));
    TransposeInvolution(d, h);
    b := Flatten(d);
  }

  /** Activator minus inhibitor of every pattern at every pixel. */
  function Variations(p: seq<Pattern>, w: nat, h: nat, im: seq<real>): (vs: seq<seq<real>>)
    requires |im| == w * h
    ensures |vs| == |p| && Vectors(vs, w * h)
  {
    seq(|p|, i requires 0 <= i < |p| =>
      var act := ColumnBlurred(im, w, h, p[i].activatorRadius, p[i].weight);
      var inh := ColumnBlurred(im, w, h, p[i].inhibitorRadius, p[i].weight);
      seq(w * h, j requires 0 <= j < w * h => act[j] - inh[j]))
  }


  /** The generation loop of `step`: every pattern's activator and inhibitor blur. */
  method BlurAll(p: seq<Pattern>, w: nat, h: nat, im: seq<real>) returns (act: seq<seq<real>>, inh: seq<seq<real>>)
    requires |im| == w * h && w < 0x8000_0000 && h < 0x8000_0000
    requires MuscatupaCpp.RadiiFit(p, w, h)
    ensures |act| == |p| && |inh| == |p|
    ensures forall i :: 0 <= i < |p| ==>
      act[i] == ColumnBlurred(im, w, h, p[i].activatorRadius, p[i].weight) &&
      inh[i] == ColumnBlurred(im, w, h, p[i].inhibitorRadius, p[i].weight)
  {
    act, inh := [], [];
    for i := 0 to |p|
      invariant |act| == i && |inh| == i
      invariant forall k :: 0 <= k < i ==>
        act[k] == ColumnBlurred(im, w, h, p[k].activatorRadius, p[k].weight) &&
        inh[k] == ColumnBlurred(im, w, h, p[k].inhibitorRadius, p[k].weight)
    {
      var pattern := p[i];
      var a := BlurImage(w, h, pattern.activatorRadius, pattern.weight, im);
      var b := BlurImage(w, h, pattern.inhibitorRadius, pattern.weight, im);
      act, inh := act + [a], inh + [b];
    }
  }

  /** `compute_var`: the magnitude of activator minus inhibitor, per pattern and pixel. */
  method ComputeVar(act: seq<seq<real>>, inh: seq<seq<real>>, size: nat) returns (magnitudes: seq<seq<real>>)
    requires |act| == |inh| && Vectors(act, size) && Vectors(inh, size)
    ensures |magnitudes| == |act| && Vectors(magnitudes, size)
    ensures forall i, j :: 0 <= i < |act| && 0 <= j < size ==> magnitudes[i][j] == Abs(act[i][j] - inh[i][j])
  {
    magnitudes := [];
    for i := 0 to |act|
      invariant |magnitudes| == i && Vectors(magnitudes, size)
      invariant forall k, j :: 0 <= k < i && 0 <= j < size ==> magnitudes[k][j] == Abs(act[k][j] - inh[k][j])
    {
      var line := [];
      for j := 0 to size
        invariant |line| == j
        invariant forall k :: 0 <= k < j ==> line[k] == Abs(act[i][k] - inh[i][k])
      {
        line := line + [Abs(act[i][j] - inh[i][j])];
      }
      magnitudes := magnitudes + [line];
    }
  }

  /** The variations of every pattern at pixel j. */
  function AtPixel(vs: seq<seq<real>>, size: nat, j: nat): (m: seq<real>)
    requires Vectors(vs, size) && j < size
    ensures |m| == |vs|
  {
    seq(|vs|, i requires 0 <= i < |vs| => vs[i][j])
  }

  /**
   * `find_best_scale`: at every pixel, pattern 0 seeds the winner and each
   * later pattern replaces it only when its variation is strictly smaller.
   */
  method FindBestScales(magnitudes: seq<seq<real>>, size: nat) returns (best: seq<nat>)
    requires |magnitudes| > 0 && Vectors(magnitudes, size)
    ensures |best| == size
    ensures forall j :: 0 <= j < size ==> IsEarliestArgMin(AtPixel(magnitudes, size, j), best[j])
    ensures forall j :: 0 <= j < size ==> best[j] == RunningBest(AtPixel(magnitudes, size, j))
  {
    best := [];
    for j := 0 to size
      invariant |best| == j
      invariant forall k :: 0 <= k < j ==> best[k] == RunningBest(AtPixel(magnitudes, size, k))
    {
      var b := FindBestScale(AtPixel(magnitudes, size, j));
      best := best + [b];
    }
  }

  /**
   * `update`: each pixel moves by the small amount of the pattern `best`
   * names, up when that pattern's activator exceeds its inhibitor.
   */
  method Update(p: seq<Pattern>, act: seq<seq<real>>, inh: seq<seq<real>>, best: seq<nat>, im: seq<real>)
    returns (moved: seq<real>)
    requires |act| == |p| && |inh| == |p| && Vectors(act, |im|) && Vectors(inh, |im|)
    requires |best| == |im| && forall j :: 0 <= j < |im| ==> best[j] < |p|
    ensures |moved| == |im|
    ensures forall j :: 0 <= j < |im| ==>
      var i := best[j];
      moved[j] == im[j] + (if act[i][j] > inh[i][j] then p[i].smallAmount else -p[i].smallAmount)
  {
    moved := im;
    for j := 0 to |im|
      invariant |moved| == |im|
      invariant forall k :: 0 <= k < j ==>
        var i := best[k];
        moved[k] == im[k] + (if act[i][k] > inh[i][k] then p[i].smallAmount else -p[i].smallAmount)
      invariant forall k :: j <= k < |im| ==> moved[k] == im[k]
    {
      var i := best[j];
      moved := moved[j := moved[j] + if act[i][j] > inh[i][j] then p[i].smallAmount else -p[i].smallAmount];
    }
  }

  /**
   * The four stages compose to `Moved`: the per-pixel magnitudes are those
   * of the variation vectors, so the chosen pattern is the winner, and
   * activator > inhibitor is a positive variation.
   */
  lemma StagesMove(p: seq<Pattern>, w: nat, h: nat, im: seq<real>,
                   act: seq<seq<real>>, inh: seq<seq<real>>, magnitudes: seq<seq<real>>, best: seq<nat>, moved: seq<real>)
    requires |im| == w * h && |p| > 0
    requires |act| == |p| && |inh| == |p| && Vectors(act, w * h) && Vectors(inh, w * h)
    requires forall i :: 0 <= i < |p| ==>
      act[i] == ColumnBlurred(im, w, h, p[i].activatorRadius, p[i].weight) &&
      inh[i] == ColumnBlurred(im, w, h, p[i].inhibitorRadius, p[i].weight)
    requires |magnitudes| == |p| && Vectors(magnitudes, w * h)
    requires forall i, j :: 0 <= i < |p| && 0 <= j < w * h ==> magnitudes[i][j] == Abs(act[i][j] - inh[i][j])
    requires |best| == w * h
    requires forall j :: 0 <= j < w * h ==> best[j] == RunningBest(AtPixel(magnitudes, w * h, j))
    requires |moved| == |im|
    requires forall j :: 0 <= j < |im| ==>
      var i := best[j];
      i < |p| && moved[j] == im[j] + (if act[i][j] > inh[i][j] then p[i].smallAmount else -p[i].smallAmount)
    ensures moved == Moved(Variations(p, w, h, im), MuscatupaCpp.Amounts(p), im)
  {
    var vs := Variations(p, w, h, im);
    forall j | 0 <= j < |im|
      ensures moved[j] == Moved(Variations(p, w, h, im), MuscatupaCpp.Amounts(p), im)[j]
    {
      assert AtPixel(magnitudes, w * h, j) == Magnitudes(vs, w * h, |p|, j);
      var i := best[j];
      assert vs[i][j] == act[i][j] - inh[i][j];
    }
  }

  /**
   * `normalize`: every sample e becomes 2(e - min)/(max - min) - 1 with the
   * extrema of the seeded scans of src/utils.c, or 0/0 everywhere when they
   * are equal.
   */
  method Normalize(im: seq<real>) returns (out: Rescaled)
    ensures out == SeededSymmetricNormalize(im)
  {
    var iMax, max := MaxArray(im);
    var iMin, min := MinArray(im);
    SeededMaxValue(im, FltMin, max, iMax);
    SeededMinValue(im, FltMax, min, iMin);
    var range := max - min;
    if range == 0.0 && |im| > 0 {
      return AllNaN;
    }
    if range == 0.0 {
      return Rescaled([]);
    }
    var values := [];
    for i := 0 to |im|
      invariant |values| == i
      invariant forall k :: 0 <= k < i ==> values[k] == 2.0 * (im[k] - min) / range - 1.0
    {
      values := values + [2.0 * (im[i] - min) / range - 1.0];
    }
    out := Rescaled(values);
  }

  /**
   * `step`, with the inhibitor arrays laid out as `[n][w][h]`: every pixel
   * moves by the small amount of the earliest pattern of smallest
   * variation, and the image is rescaled onto [-1, 1]. `update` reads the
   * winner's activator, so the source needs at least one pattern.
   */
  method Step(p: seq<Pattern>, w: nat, h: nat, im: seq<real>) returns (next: Rescaled)
    requires |im| == w * h && w < 0x8000_0000 && h < 0x8000_0000
    requires |p| > 0 && MuscatupaCpp.RadiiFit(p, w, h)
    ensures next == SeededSymmetricNormalize(Moved(Variations(p, w, h, im), MuscatupaCpp.Amounts(p), im))
  {
    var act, inh := BlurAll(p, w, h, im);
    var magnitudes := ComputeVar(act, inh, w * h);
    var best := FindBestScales(magnitudes, w * h);
    var moved := Update(p, act, inh, best, im);
    StagesMove(p, w, h, im, act, inh, magnitudes, best, moved);
    next := Normalize(moved);
  }

  /** The grey level of a sample in [-1, 1]: (v + 1) * 255 / 2, truncated. */
  function GreyLevel(v: real): (b: int)
    requires -1.0 <= v <= 1.0
    ensures 0 <= b <= 255
  {
    ((v + 1.0) * 255.0 / 2.0).Floor
  }

  /**
   * The grey level is the quantisation step of [-1, 1] into 255 equal
   * parts that holds the sample: -1 is black, 1 is white, and the level
   * never decreases as the sample grows.
   */
  lemma GreyLevelSpec(v: real, u: real)
    requires -1.0 <= v <= 1.0 && -1.0 <= u <= 1.0
    ensures 2.0 * GreyLevel(v) as real / 255.0 - 1.0 <= v
    ensures v < 1.0 ==> v < 2.0 * (GreyLevel(v) + 1) as real / 255.0 - 1.0
    ensures GreyLevel(-1.0) == 0 && GreyLevel(1.0) == 255
    ensures v <= u ==> GreyLevel(v) <= GreyLevel(u)
  {
    var s := (v + 1.0) * 255.0 / 2.0;
    assert GreyLevel(v) as real <= s < GreyLevel(v) as real + 1.0;
    if v <= u {
      assert s <= (u + 1.0) * 255.0 / 2.0;
    }
  }

  /** `convert_image`: every sample of a normalised image as its grey level. */
  method ConvertImage(im: seq<real>) returns (bytes: seq<int>)
    requires forall j :: 0 <= j < |im| ==> -1.0 <= im[j] <= 1.0
    ensures |bytes| == |im|
    ensures forall j :: 0 <= j < |im| ==> 0 <= bytes[j] <= 255 && bytes[j] == GreyLevel(im[j])
  {
    bytes := [];
    for j := 0 to |im|
      invariant |bytes| == j
      invariant forall k :: 0 <= k < j ==> 0 <= bytes[k] <= 255 && bytes[k] == GreyLevel(im[k])
    {
      bytes := bytes + [GreyLevel(im[j])];
    }
  }

  /**
   * After a step over a non-empty image the result is all NaN exactly when
   * the moved image's seeded extrema are equal; otherwise every sample lies
   * in [-1, 1], so `convert_image` may follow, and the moved minimum sits at
   * -1 once it is at most FLT_MAX.
   */
  lemma StepInRange(p: seq<Pattern>, w: nat, h: nat, im: seq<real>)
    requires |im| == w * h && |im| > 0 && |p| > 0
    ensures var m := Moved(Variations(p, w, h, im), MuscatupaCpp.Amounts(p), im);
      var out := SeededSymmetricNormalize(m);
      (out.AllNaN? <==> MinFrom(FltMax, m) == MaxFrom(FltMin, m)) &&
      (out.Rescaled? ==>
        |out.values| == |im| && (forall j :: 0 <= j < |im| ==> -1.0 <= out.values[j] <= 1.0) &&
        (SeqMin(m) <= FltMax ==> exists j :: 0 <= j < |im| && out.values[j] == -1.0))
  {
    var m := Moved(Variations(p, w, h, im), MuscatupaCpp.Amounts(p), im);
    SeededSymmetricNormalizeSpec(m);
    if SeededSymmetricNormalize(m).Rescaled? && SeqMin(m) <= FltMax {
      MinFromSeqMin(m);
      var k :| 0 <= k < |m| && m[k] == SeqMin(m);
      assert SeededSymmetricNormalize(m).values[k] == -1.0;
    }
  }

  // ---------------------------------------------------------------------
  // Layout of the inhibitor arrays.
  //
  // Element [i][x][y] of an array whose pattern slots hold `slot` floats
  // and whose columns hold h floats sits at offset i*slot + x*h + y.
  // `blur` writes the inhibitor of pattern i into `inh[i]`, a slot of w*w
  // floats (the declaration), while `compute_var` and `update` read it
  // through parameters declared `float inh[][w][h]`, slots of w*h floats.
  // ---------------------------------------------------------------------

  /** Offset of element [i][x][y] in slots of `slot` floats and columns of h floats. */
  function Offset(slot: nat, h: nat, i: nat, x: nat, y: nat): nat
  {
    i * slot + x * h + y
  }

  lemma MulLess(a: nat, b: nat, c: nat)
    requires a > 0 && b < c
    ensures a * b < a * c
  {
  }

  /**
   * As written: for two or more patterns, the offsets `blur` writes and the
   * offsets `compute_var` reads agree on every element exactly when the
   * image is square.
   */
  lemma InhibitorSlotsAgree(w: nat, h: nat)
    requires w >= 1 && h >= 1
    ensures (forall i, x, y :: 0 <= i < 2 && 0 <= x < w && 0 <= y < h ==>
              Offset(w * w, h, i, x, y) == Offset(w * h, h, i, x, y)) <==> w == h
  {
    if w != h {
      assert Offset(w * w, h, 1, 0, 0) == w * w && Offset(w * h, h, 1, 0, 0) == w * h;
      if w < h {
        MulLess(w, w, h);
      } else {
        MulLess(w, h, w);
      }
    }
  }

  /**
   * A witness of the as-written layout, for a 2 x 1 image and two patterns: `compute_var` reads the
   * inhibitor of pattern 1 at pixel (0, 0) from offset 2, which no blur
   * wrote (they wrote offsets 0, 1, 4 and 5), and the second blur writes
   * offset 5 of an array of 2*2*2 = 8 floats.
   */
  lemma InhibitorReadUnwritten()
    ensures Offset(2 * 1, 1, 1, 0, 0) == 2
    ensures forall i, x, y :: 0 <= i < 2 && 0 <= x < 2 && 0 <= y < 1 ==> Offset(2 * 2, 1, i, x, y) != 2
  {
  }

  /** As written, a tall image (h > w) makes the last blur write past the end of `inh`. */
  lemma InhibitorOverflow(n: nat, w: nat, h: nat)
    requires n >= 1 && w >= 1 && h > w
    ensures Offset(w * w, h, n - 1, w - 1, h - 1) >= n * (w * w)
  {
    MulLess(w, w, h);
    assert Offset(w * w, h, n - 1, w - 1, h - 1) == (n - 1) * (w * w) + w * h - 1;
    assert n * (w * w) == (n - 1) * (w * w) + w * w;
  }

  /**
   * Corrected (`float inh[n][w][h]`): with slots of w*h floats every
   * element lies inside the n*w*h floats of the array, and offsets grow
   * strictly in the order (pattern, column, row), so distinct elements
   * never share a float and each read returns what `blur` wrote for that
   * pattern and pixel.
   */
  lemma CorrectedLayout(n: nat, w: nat, h: nat, i: nat, x: nat, y: nat, i': nat, x': nat, y': nat)
    requires i < n && x < w && y < h && i' < n && x' < w && y' < h
    ensures Offset(w * h, h, i, x, y) < n * (w * h)
    ensures i < i' || (i == i' && (x < x' || (x == x' && y < y'))) ==>
      Offset(w * h, h, i, x, y) < Offset(w * h, h, i', x', y')
  {
    var slot, cell, cell' := w * h, x * h + y, x' * h + y';
    assert Offset(slot, h, i, x, y) == i * slot + cell;
    assert Offset(slot, h, i', x', y') == i' * slot + cell';
    SlotBound(x, y, w, h);
    SlotBound(i, cell, n, slot);
    if i < i' {
      SlotBound(i, cell, i', slot);
    } else if i == i' && x < x' {
      SlotBound(x, y, x', h);
    }
  }
}
