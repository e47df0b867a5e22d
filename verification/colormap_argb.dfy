/**
 * The ARGB colour map of src/colormap.cpp.
 *
 * A palette is a short list of anchor colours packed as 32-bit ARGB codes.
 * `build_colormap` cuts a 255-entry lookup table into n - 1 segments of
 * d = 255/(n - 1) entries, fills segment i with a linear gradient from
 * anchor i to anchor i + 1, and fills the rounding tail with the last
 * anchor. `colormap_ARGB8888` maps a sample s of a normalised image to the
 * table entry at index trunc(s * 255).
 *
 * A colour code is an unsigned 32-bit integer and a channel an integer
 * byte; the source's `(c & mask) >> 8k` is the quotient by 2^(8k) reduced
 * modulo 256. Channel arithmetic runs over the reals; the float-to-uint8_t
 * cast is `Trunc` reduced modulo 256 (see `CastDefined` for the range in
 * which C defines it).
 */
module ColormapArgb {
  import opened Flat
  import opened FloatCast

  /** Entries of the lookup table (`COLOR_DEPTH` of src/colormap.cpp). */
  const Depth: nat := 255

  type Color = c: int | 0 <= c < 0x1_0000_0000

  /** The four channels of a colour code. */
  datatype Argb = Argb(alpha: Byte, red: Byte, green: Byte, blue: Byte)

  /** Dividing by 256 twice is dividing by 65536. */
  lemma DivDiv(c: nat)
    ensures c / 0x100 / 0x100 == c / 0x1_0000
  {
    DivMod(c, 0x100);
    DivMod(c / 0x100, 0x100);
    var q, r := c / 0x100 / 0x100, c / 0x100 % 0x100 * 0x100 + c % 0x100;
    assert c == r + q * 0x1_0000;
    DivModOf(0x1_0000, r, q);
  }

  /** Channel extraction, one byte at a time from the low end. */
  function Unpack(c: Color): (p: Argb)
    ensures p.alpha == c / 0x100_0000 && p.red == c / 0x1_0000 % 0x100
    ensures p.green == c / 0x100 % 0x100 && p.blue == c % 0x100
  {
    DivDiv(c);
    DivDiv(c / 0x100);
    DivDiv(c / 0x1_0000);
    Argb(c / 0x100 / 0x100 / 0x100, c / 0x100 / 0x100 % 0x100, c / 0x100 % 0x100, c % 0x100)
  }

  /**
   * Channel packing: alpha << 24, red << 16, green << 8 and blue, summed.
   * Each channel lands in its own byte, so extracting gives it back.
   */
  function Pack(p: Argb): (c: Color)
    ensures Unpack(c) == p
  {
    var ar := p.red + p.alpha * 0x100;
    var arg := p.green + ar * 0x100;
    DivModOf(0x100, p.blue, arg);
    DivModOf(0x100, p.green, ar);
    DivModOf(0x100, p.red, p.alpha);
    p.blue + (p.green + (p.red + p.alpha * 0x100) * 0x100) * 0x100
  }

  /** Packing the extracted channels gives back the colour. */
  lemma PackUnpack(c: Color)
    ensures Pack(Unpack(c)) == c
  {
    DivMod(c, 0x100);
    DivMod(c / 0x100, 0x100);
    DivMod(c / 0x100 / 0x100, 0x100);
  }

  /** C converts a float x to uint8_t only when trunc(x) is in 0 .. 255. */
  predicate CastDefined(x: real)
  {
    0 <= Trunc(x) < 0x100
  }

  /** `compute_gradient`: the change of a channel per step, (end - begin)/depth. */
  function Gradient(begin: Byte, end: Byte, depth: nat): (g: real)
    requires depth > 0
    ensures g * depth as real == (end - begin) as real
    ensures g >= 0.0 <==> begin <= end
  {
    (end - begin) as real / depth as real
  }

  /** Fewer than `depth` steps of m/depth add up to less than m (or to 0 when m is 0). */
  lemma QuotientWithin(i: nat, depth: nat, m: nat)
    requires i < depth
    ensures 0 <= i * m / depth <= m
    ensures m > 0 ==> i * m / depth < m
  {
    if m > 0 {
      MulLe(i + 1, depth, m);
      assert i * m < m * depth;
      QuotientBound(i * m, depth, m);
    }
  }

  /** Fewer than `depth` truncated steps of delta/depth stay between 0 and delta. */
  lemma TruncStepWithin(i: nat, depth: nat, delta: int)
    requires 0 < depth && i < depth
    ensures delta >= 0 ==> 0 <= TruncDiv(i * delta, depth) <= delta
    ensures delta < 0 ==> delta <= TruncDiv(i * delta, depth) <= 0
  {
    if delta >= 0 {
      QuotientWithin(i, depth, delta);
    } else {
      QuotientWithin(i, depth, -delta);
      assert i * delta == -(i * -delta);
    }
  }

  /** Step i < depth of a channel: begin plus the truncated change stays between begin and end. */
  lemma ChannelStep(begin: Byte, end: Byte, depth: nat, i: nat)
    requires 0 < depth && i < depth
    ensures var t := Trunc(i as real * Gradient(begin, end, depth));
      (begin <= end ==> 0 <= t <= end - begin) && (end < begin ==> end - begin <= t <= 0)
  {
    var delta := end - begin;
    assert Gradient(begin, end, depth) == delta as real / depth as real;
    TruncStep(i, depth, delta);
    TruncStepWithin(i, depth, delta);
  }

  /**
   * Channel i of a gradient of `depth` steps: `(uint8_t)(i*gradient) + begin`
   * stored in a uint8_t. Within the segment it moves from `begin` toward
   * `end` without passing it, and step 0 is `begin` itself.
   */
  function Channel(begin: Byte, end: Byte, depth: nat, i: nat): (v: Byte)
    requires depth > 0
    ensures i == 0 ==> v == begin
    ensures i < depth && begin <= end ==> begin <= v <= end
    ensures i < depth && end < begin ==> end <= v <= begin
  {
    var t := Trunc(i as real * Gradient(begin, end, depth));
    if i < depth then
      ChannelStep(begin, end, depth, i);
      (begin + t) % 0x100
    else
      (begin + t) % 0x100
  }

  /** On a rising channel every step's change converts to uint8_t as C defines it. */
  lemma RisingCastDefined(begin: Byte, end: Byte, depth: nat, i: nat)
    requires depth > 0 && i < depth && begin <= end
    ensures CastDefined(i as real * Gradient(begin, end, depth))
  {
    ChannelStep(begin, end, depth, i);
  }

  /**
   * On a falling channel the change truncates to 0 or below from step 1 on,
   * and once i * (begin - end) reaches `depth` it truncates below 0, where
   * C leaves the conversion to uint8_t undefined.
   */
  lemma FallingCastUndefined(begin: Byte, end: Byte, depth: nat, i: nat)
    requires depth > 0 && 1 <= i && end < begin
    ensures Trunc(i as real * Gradient(begin, end, depth)) <= 0
    ensures i * (begin - end) >= depth <==> !CastDefined(i as real * Gradient(begin, end, depth))
  {
    TruncStep(i, depth, end - begin);
    var m := i * (begin - end);
    assert i * (end - begin) == -m;
    assert m > 0;
    if m >= depth {
      DivMod(m, depth);
      assert m / depth >= 1;
    } else {
      assert m / depth == 0;
    }
  }

  /** `build_argb_gradient`'s colour at step i: the four channels packed. */
  function Entry(begin: Color, end: Color, depth: nat, i: nat): Color
    requires depth > 0
  {
    var b, e := Unpack(begin), Unpack(end);
    Pack(Argb(Channel(b.alpha, e.alpha, depth, i), Channel(b.red, e.red, depth, i),
              Channel(b.green, e.green, depth, i), Channel(b.blue, e.blue, depth, i)))
  }

  /** Step 0 of a gradient is its begin colour. */
  lemma EntryFirst(begin: Color, end: Color, depth: nat)
    requires depth > 0
    ensures Entry(begin, end, depth, 0) == begin
  {
    PackUnpack(begin);
  }

  /** Between two opaque anchors every step of the gradient is opaque. */
  lemma EntryOpaque(begin: Color, end: Color, depth: nat, i: nat)
    requires depth > 0 && i < depth
    requires Unpack(begin).alpha == 0xFF && Unpack(end).alpha == 0xFF
    ensures Unpack(Entry(begin, end, depth, i)).alpha == 0xFF
  {
    var b, e := Unpack(begin), Unpack(end);
    assert Unpack(Entry(begin, end, depth, i)).alpha == Channel(b.alpha, e.alpha, depth, i);
  }

  /** `build_argb_gradient`: the `depth` colours from `begin` toward `end`. */
  method BuildArgbGradient(begin: Color, end: Color, depth: nat) returns (gradient: seq<Color>)
    ensures |gradient| == depth
    ensures depth > 0 ==> gradient[0] == begin
    ensures forall i :: 0 <= i < depth ==> gradient[i] == Entry(begin, end, depth, i)
  {
    var b, e := Unpack(begin), Unpack(end);
    gradient := [];
    for i := 0 to depth
      invariant |gradient| == i
      invariant forall k :: 0 <= k < i ==> gradient[k] == Entry(begin, end, depth, k)
    {
      var alpha := Channel(b.alpha, e.alpha, depth, i);
      var red := Channel(b.red, e.red, depth, i);
      var green := Channel(b.green, e.green, depth, i);
      var blue := Channel(b.blue, e.blue, depth, i);
      gradient := gradient + [Pack(Argb(alpha, red, green, blue))];
    }
    if depth > 0 {
      EntryFirst(begin, end, depth);
    }
  }

  /** The entries of one segment: `gradient_depth` = 255/(n - 1). */
  function SegmentDepth(n: nat): nat
    requires n >= 2
  {
    Depth / (n - 1)
  }

  /** The n - 1 segments fit in the table and leave a tail shorter than n - 1. */
  lemma SegmentsFit(n: nat)
    requires n >= 2
    ensures (n - 1) * SegmentDepth(n) <= Depth < (n - 1) * SegmentDepth(n) + (n - 1)
  {
    DivMod(Depth, n - 1);
  }

  /** The gradient colour at table index j of the segmented part. */
  function SegmentEntry(colors: seq<Color>, j: nat): Color
    requires |colors| >= 2 && j < (|colors| - 1) * SegmentDepth(|colors|)
  {
    var d := SegmentDepth(|colors|);
    QuotientBound(j, d, |colors| - 1);
    Entry(colors[j / d], colors[j / d + 1], d, j % d)
  }

  /**
   * The lookup table: entry j lies in segment j / d at step j % d, or in
   * the tail, where it is the last anchor.
   */
  function Colormap(colors: seq<Color>): (t: seq<Color>)
    requires |colors| >= 2
    ensures |t| == Depth
  {
    var n, d := |colors|, SegmentDepth(|colors|);
    seq(Depth, j requires 0 <= j < Depth =>
      if j < (n - 1) * d then SegmentEntry(colors, j) else colors[n - 1])
  }

  /** Step k of segment i is the gradient colour from anchor i to anchor i + 1. */
  lemma ColormapSegment(colors: seq<Color>, i: nat, k: nat)
    requires |colors| >= 2 && i < |colors| - 1 && k < SegmentDepth(|colors|)
    ensures k + i * SegmentDepth(|colors|) < Depth
    ensures Colormap(colors)[k + i * SegmentDepth(|colors|)]
         == Entry(colors[i], colors[i + 1], SegmentDepth(|colors|), k)
  {
    var n, d := |colors|, SegmentDepth(|colors|);
    SegmentsFit(n);
    SlotBound(i, k, n - 1, d);
    DivModOf(d, k, i);
    var j := k + i * d;
    assert j / d == i && j % d == k;
    assert Colormap(colors)[j] == SegmentEntry(colors, j);
  }

  /** Segment i starts on anchor i. */
  lemma SegmentStart(colors: seq<Color>, i: nat)
    requires |colors| >= 2 && i < |colors| - 1 && SegmentDepth(|colors|) > 0
    ensures i * SegmentDepth(|colors|) < Depth
    ensures Colormap(colors)[i * SegmentDepth(|colors|)] == colors[i]
  {
    ColormapSegment(colors, i, 0);
    EntryFirst(colors[i], colors[i + 1], SegmentDepth(|colors|));
  }

  /** Every entry after the n - 1 segments is the last anchor. */
  lemma ColormapTail(colors: seq<Color>, j: nat)
    requires |colors| >= 2 && (|colors| - 1) * SegmentDepth(|colors|) <= j < Depth
    ensures Colormap(colors)[j] == colors[|colors| - 1]
  {
  }

  /** Between opaque anchors, the segmented entry at j is opaque. */
  lemma SegmentEntryOpaque(colors: seq<Color>, j: nat)
    requires |colors| >= 2 && j < (|colors| - 1) * SegmentDepth(|colors|)
    requires forall k :: 0 <= k < |colors| ==> Unpack(colors[k]).alpha == 0xFF
    ensures Unpack(SegmentEntry(colors, j)).alpha == 0xFF
  {
    var d := SegmentDepth(|colors|);
    QuotientBound(j, d, |colors| - 1);
    EntryOpaque(colors[j / d], colors[j / d + 1], d, j % d);
  }

  /** When every anchor is opaque, so is every entry of the table. */
  lemma ColormapOpaque(colors: seq<Color>)
    requires |colors| >= 2
    requires forall k :: 0 <= k < |colors| ==> Unpack(colors[k]).alpha == 0xFF
    ensures forall j :: 0 <= j < Depth ==> Unpack(Colormap(colors)[j]).alpha == 0xFF
  {
    var t := Colormap(colors);
    forall j | 0 <= j < Depth
      ensures Unpack(t[j]).alpha == 0xFF
    {
      if j < (|colors| - 1) * SegmentDepth(|colors|) {
        SegmentEntryOpaque(colors, j);
      }
    }
  }

  /**
   * `build_colormap`, over the previous content of the table. `written`
   * logs the index of every store in order: the segments and the tail
   * store every index 0 .. 254 exactly once, ascending.
   */
  method BuildColormap(colors: seq<Color>, prior: seq<Color>) returns (table: seq<Color>, written: seq<nat>)
    requires |colors| >= 2 && |prior| == Depth
    ensures written == Indices(0, Depth)
    ensures table == Colormap(colors)
  {
    var n := |colors|;
    SegmentsFit(n);
    table, written := FillSegments(colors, prior);
    table, written := FillTail(colors, table, written);
  }

  /** Segment i + 1 starts d entries after segment i, no later than segment m. */
  lemma NextSegment(i: nat, m: nat, d: nat)
    requires i < m
    ensures (i + 1) * d == i * d + d <= m * d
  {
    MulLe(i + 1, m, d);
  }

  /** The first loop of `build_colormap`: segment i from anchor i to anchor i + 1. */
  method FillSegments(colors: seq<Color>, prior: seq<Color>) returns (table: seq<Color>, written: seq<nat>)
    requires |colors| >= 2 && |prior| == Depth
    ensures |table| == Depth
    ensures written == Indices(0, (|colors| - 1) * SegmentDepth(|colors|))
    ensures forall j :: 0 <= j < (|colors| - 1) * SegmentDepth(|colors|) ==> table[j] == Colormap(colors)[j]
  {
    var n := |colors|;
    var d := SegmentDepth(n);
    SegmentsFit(n);
    table, written := prior, [];
    var lo := 0;
    for i := 0 to n - 1
      invariant |table| == Depth && lo == i * d && lo <= Depth
      invariant written == Indices(0, lo)
      invariant forall j :: 0 <= j < lo ==> table[j] == Colormap(colors)[j]
    {
      NextSegment(i, n - 1, d);
      var gradient := BuildArgbGradient(colors[i], colors[i + 1], d);
      table, written := Splice(colors, i, lo, table, written, gradient);
      lo := lo + d;
    }
  }

  /** The second loop of `build_colormap`: the rounding tail takes the last anchor. */
  method FillTail(colors: seq<Color>, table: seq<Color>, written: seq<nat>) returns (table': seq<Color>, written': seq<nat>)
    requires |colors| >= 2 && |table| == Depth && (|colors| - 1) * SegmentDepth(|colors|) <= Depth
    requires written == Indices(0, (|colors| - 1) * SegmentDepth(|colors|))
    requires forall j :: 0 <= j < (|colors| - 1) * SegmentDepth(|colors|) ==> table[j] == Colormap(colors)[j]
    ensures written' == Indices(0, Depth)
    ensures table' == Colormap(colors)
  {
    var n := |colors|;
    table', written' := table, written;
    for j := (n - 1) * SegmentDepth(n) to Depth
      invariant |table'| == Depth
      invariant written' == Indices(0, j)
      invariant forall k :: 0 <= k < j ==> table'[k] == Colormap(colors)[k]
    {
      table' := table'[j := colors[n - 1]];
      written' := written' + [j];
    }
  }

  /** Stores segment i's gradient at offset lo = i * d, the `&colormap[i*gradient_depth]` of the source. */
  method Splice(colors: seq<Color>, i: nat, lo: nat, table: seq<Color>, written: seq<nat>, gradient: seq<Color>)
    returns (table': seq<Color>, written': seq<nat>)
    requires |colors| >= 2 && i < |colors| - 1 && |table| == Depth
    requires |gradient| == SegmentDepth(|colors|) && lo == i * |gradient| && lo + |gradient| <= Depth
    requires written == Indices(0, lo)
    requires forall j :: 0 <= j < lo ==> table[j] == Colormap(colors)[j]
    requires forall k :: 0 <= k < |gradient| ==> gradient[k] == Entry(colors[i], colors[i + 1], |gradient|, k)
    ensures |table'| == Depth
    ensures written' == Indices(0, lo + |gradient|)
    ensures forall j :: 0 <= j < lo + |gradient| ==> table'[j] == Colormap(colors)[j]
  {
    var d := |gradient|;
    table' := Store(table, lo, gradient);
    written' := written + Indices(lo, lo + d);
    forall j | lo <= j < lo + d
      ensures table'[j] == Colormap(colors)[j]
    {
      var k := j - lo;
      assert table'[k + lo] == Entry(colors[i], colors[i + 1], d, k);
      ColormapSegment(colors, i, k);
    }
  }

  /** `table` with `block` written from index `lo` on. */
  function Store(table: seq<Color>, lo: nat, block: seq<Color>): (t: seq<Color>)
    requires lo + |block| <= |table|
    ensures |t| == |table|
    ensures forall j :: 0 <= j < lo ==> t[j] == table[j]
    ensures forall k :: 0 <= k < |block| ==> t[k + lo] == block[k]
    ensures forall j :: lo + |block| <= j < |table| ==> t[j] == table[j]
  {
    table[..lo] + block + table[lo + |block|..]
  }

  /** The anchor colours of the named palettes. */
  const Bw: seq<Color> := [0xFF00_0000, 0xFFFF_FFFF]
  const Rainbow: seq<Color> := [0xFFFF_0000, 0xFFFF_8000, 0xFFFF_FF00, 0xFF00_FF00, 0xFF00_00FF, 0xFF4B_0082, 0xFF80_00FF]
  const Holiday: seq<Color> := [0xFF63_86FF, 0xFFFF_E574, 0xFFFF_BC8F, 0xFFFF_BFD4, 0xFF53_DFBD]
  const Neon: seq<Color> := [0xFF00_00FF, 0xFFFF_FF00, 0xFFFF_00FF, 0xFF00_FFFF, 0xFF00_FF00]
  const Lava: seq<Color> := [0xFF00_0000, 0xFFFF_0000, 0xFFFF_8000, 0xFFFF_FF00, 0xFFFF_FFFF]
  const Ice: seq<Color> := [0xFF00_0000, 0xFF00_0080, 0xFF00_00FF, 0xFF00_FFFF, 0xFFFF_FFFF]
  const Dawn: seq<Color> := [0xFF00_0080, 0xFF80_0080, 0xFFFF_8080, 0xFFFF_FF80, 0xFFFF_FFC0]
  const Toxic: seq<Color> := [0xFF00_0000, 0xFF00_8000, 0xFF80_FF00, 0xFFFF_FF80, 0xFFFF_FFFF]

  /** The names `colormap_init` recognises. */
  const Names: seq<string> := ["bw", "rainbow", "holiday", "neon", "lava", "ice", "dawn", "toxic"]

  /**
   * `colormap_init`'s choice of anchors: the named palette, or black and
   * white for a name it does not know. Every palette has at least two
   * anchors, all opaque.
   */
  function Palette(name: string): (colors: seq<Color>)
    ensures name !in Names ==> colors == Bw
    ensures 2 <= |colors| <= 7
    ensures forall k :: 0 <= k < |colors| ==> Unpack(colors[k]).alpha == 0xFF
  {
    if name == "bw" then Bw
    else if name == "rainbow" then Rainbow
    else if name == "holiday" then Holiday
    else if name == "neon" then Neon
    else if name == "lava" then Lava
    else if name == "ice" then Ice
    else if name == "dawn" then Dawn
    else if name == "toxic" then Toxic
    else Bw
  }

  /** `colormap_init`: the table for the named palette; every entry is opaque. */
  method ColormapInit(name: string, prior: seq<Color>) returns (table: seq<Color>)
    requires |prior| == Depth
    ensures table == Colormap(Palette(name))
    ensures name !in Names ==> table == Colormap(Bw)
    ensures forall j :: 0 <= j < Depth ==> Unpack(table[j]).alpha == 0xFF
  {
    var colors := Palette(name);
    var written;
    table, written := BuildColormap(colors, prior);
    ColormapOpaque(colors);
  }

  /** The lookup index as written: `(uint8_t)(s * COLOR_DEPTH)`. */
  function LookupIndex(s: real): (k: int)
    requires 0.0 <= s <= 1.0
    ensures 0 <= k <= Depth
    ensures s < 1.0 <==> k < Depth
  {
    Trunc(s * Depth as real)
  }

  /** A witness: the sample 1.0 indexes one entry past the end of the 255-entry table. */
  lemma LookupOverrun(colors: seq<Color>)
    requires |colors| >= 2
    ensures LookupIndex(1.0) == |Colormap(colors)|
  {
  }

  /**
   * The lookup index with the top sample clamped onto the last entry; it
   * agrees with the index as written wherever that one is in bounds and
   * grows with the sample.
   */
  function ClampedIndex(s: real): (k: nat)
    requires 0.0 <= s <= 1.0
    ensures k < Depth
    ensures s < 1.0 ==> k == LookupIndex(s)
  {
    var k := LookupIndex(s);
    if k < Depth then k else Depth - 1
  }

  /** Brighter samples never map to earlier entries. */
  lemma ClampedIndexMonotone(s: real, s': real)
    requires 0.0 <= s <= s' <= 1.0
    ensures ClampedIndex(s) <= ClampedIndex(s')
  {
  }

  /** `colormap_ARGB8888`, with the clamped index: each sample becomes its table colour. */
  method ColormapArgb8888(w: nat, h: nat, s: seq<real>, table: seq<Color>) returns (d: seq<Color>)
    requires |s| == w * h && |table| == Depth
    requires forall i :: 0 <= i < |s| ==> 0.0 <= s[i] <= 1.0
    ensures |d| == w * h
    ensures forall i :: 0 <= i < |s| && s[i] < 1.0 ==> d[i] == table[LookupIndex(s[i])]
    ensures forall i :: 0 <= i < |s| && s[i] == 1.0 ==> d[i] == table[Depth - 1]
  {
    d := [];
    for i := 0 to w * h
      invariant |d| == i
      invariant forall k :: 0 <= k < i ==> d[k] == table[ClampedIndex(s[k])]
    {
      d := d + [table[ClampedIndex(s[i])]];
    }
  }
}
