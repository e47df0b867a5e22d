/**
 * Row-major buffers: sample (x, y) of a W x H image lives at index x + y*W
 * of a flat buffer of W*H samples. This is the layout of the pattern
 * generator's `std::vector<double>` and of the `float_t*` buffers of the
 * C++ blur and engines. The blur passes are stated on the buffer's rows
 * (module Grid); this module converts between the two views.
 */
module Flat {
  import opened Grid

  /** One row fewer is W samples fewer. */
  lemma DropRow(W: nat, H: nat)
    requires H > 0
    ensures W * H == W * (H - 1) + W
  {
  }

  /** The H rows of a W x H buffer, top row first. */
  function Rows(f: seq<real>, W: nat, H: nat): (g: seq<seq<real>>)
    requires |f| == W * H
    ensures IsGrid(g, H, W)
    decreases H
  {
    if H == 0 then []
    else
      DropRow(W, H);
      Rows(f[..|f| - W], W, H - 1) + [f[|f| - W..]]
  }

  /** The buffer holding the lines of g one after the other. */
  function Flatten(g: seq<seq<real>>): (f: seq<real>)
  {
    if |g| == 0 then [] else Flatten(g[..|g| - 1]) + g[|g| - 1]
  }

  /** A grid of H lines of W samples flattens to W*H samples. */
  lemma {:induction false} FlattenLength(g: seq<seq<real>>, W: nat, H: nat)
    requires IsGrid(g, H, W)
    ensures |Flatten(g)| == W * H
    decreases H
  {
    if H > 0 {
      FlattenLength(g[..H - 1], W, H - 1);
      DropRow(W, H);
    }
  }

  /** Cutting the rows into a grid and flattening it again gives back the buffer. */
  lemma {:induction false} FlattenRows(f: seq<real>, W: nat, H: nat)
    requires |f| == W * H
    ensures Flatten(Rows(f, W, H)) == f
    decreases H
  {
    if H > 0 {
      DropRow(W, H);
      var k := |f| - W;
      var g := Rows(f, W, H);
      assert g[..H - 1] == Rows(f[..k], W, H - 1);
      FlattenRows(f[..k], W, H - 1);
      assert f == f[..k] + f[k..];
    }
  }

  /** Flattening a grid and cutting it into rows again gives back the grid. */
  lemma {:induction false} RowsFlatten(g: seq<seq<real>>, W: nat, H: nat)
    requires IsGrid(g, H, W)
    ensures |Flatten(g)| == W * H
    ensures Rows(Flatten(g), W, H) == g
    decreases H
  {
    FlattenLength(g, W, H);
    if H > 0 {
      var front := g[..H - 1];
      FlattenLength(front, W, H - 1);
      RowsFlatten(front, W, H - 1);
      var f := Flatten(g);
      assert f == Flatten(front) + g[H - 1];
      assert f[..|f| - W] == Flatten(front);
      assert f[|f| - W..] == g[H - 1];
      assert g == front + [g[H - 1]];
    }
  }

  /** The index of an in-image sample lies inside the buffer. */
  lemma IndexBound(W: nat, H: nat, x: nat, y: nat)
    requires x < W && y < H
    ensures x + y * W < W * H
  {
    var d := H - y - 1;
    assert H == y + 1 + d;
    assert W * H == W * (y + 1) + W * d;
    assert W * (y + 1) == W * y + W;
    assert y * W == W * y;
  }

  /** A larger factor gives a product at least as large. */
  lemma MulLe(a: nat, b: nat, s: nat)
    requires a <= b
    ensures a * s <= b * s
  {
    assert b * s == a * s + (b - a) * s;
  }

  /** a*s + c with c < s lies below (a + 1)*s, hence below b*s for every b > a. */
  lemma SlotBound(a: nat, c: nat, b: nat, s: nat)
    requires a < b && c < s
    ensures a * s + c < b * s
  {
    MulLe(a + 1, b, s);
    assert (a + 1) * s == a * s + s;
  }

  /** Buffer indices grow with the line first and the position along it second. */
  lemma IndexOrder(W: nat, x: nat, y: nat, x': nat, y': nat)
    requires x < W && x' < W
    ensures y < y' || (y == y' && x < x') ==> x + y * W < x' + y' * W
  {
    if y < y' {
      SlotBound(y, x, y', W);
    }
  }

  /** Two in-line positions share a buffer index only when they are the same position. */
  lemma IndexUnique(W: nat, x: nat, y: nat, x': nat, y': nat)
    requires x < W && x' < W
    ensures x + y * W == x' + y' * W <==> x == x' && y == y'
  {
    IndexOrder(W, x, y, x', y');
    IndexOrder(W, x', y', x, y);
  }

  /** A number is its remainder plus its quotient times the divisor. */
  lemma DivMod(k: nat, d: nat)
    requires d > 0
    ensures k == k % d + (k / d) * d
  {
  }

  /** Buffer index x + y*W lies on line y at position x. */
  lemma DivModOf(W: nat, x: nat, y: nat)
    requires x < W
    ensures (x + y * W) / W == y && (x + y * W) % W == x
  {
    var k := x + y * W;
    DivMod(k, W);
    IndexUnique(W, k % W, k / W, x, y);
  }

  /** Below n lines of d, the line number is below n. */
  lemma QuotientBound(k: nat, d: nat, n: nat)
    requires d > 0 && k < n * d
    ensures k / d < n
  {
    DivMod(k, d);
    IndexOrder(d, 0, n, k % d, k / d);
  }

  /** The last of H rows starts at index (H - 1)*W. */
  lemma LastRowStart(W: nat, H: nat)
    requires H > 0
    ensures W * H - W == (H - 1) * W
  {
    DropRow(W, H);
  }

  /** Sample (x, y) of the rows is the sample at buffer index x + y*W. */
  lemma {:induction false} RowsAt(f: seq<real>, W: nat, H: nat, x: nat, y: nat)
    requires |f| == W * H && x < W && y < H
    ensures x + y * W < |f|
    ensures Rows(f, W, H)[y][x] == f[x + y * W]
    decreases H
  {
    IndexBound(W, H, x, y);
    DropRow(W, H);
    var k := |f| - W;
    var g := Rows(f, W, H);
    assert g == Rows(f[..k], W, H - 1) + [f[k..]];
    if y < H - 1 {
      IndexBound(W, H - 1, x, y);
      RowsAt(f[..k], W, H - 1, x, y);
      assert g[y] == Rows(f[..k], W, H - 1)[y];
    } else {
      LastRowStart(W, H);
      assert g[y] == f[k..];
      assert f[k..][x] == f[x + k];
    }
  }

  /** The box blur of a row-major buffer, as a row-major buffer. */
  function Blurred(f: seq<real>, W: nat, H: nat, r: nat, gain: real): (b: seq<real>)
    requires |f| == W * H
    ensures |b| == W * H
  {
    FlattenLength(BoxBlur(Rows(f, W, H), W, r, gain), W, H);
    Flatten(BoxBlur(Rows(f, W, H), W, r, gain))
  }

  /** Sample x + y*W of the blurred buffer is the box mean around (x, y), times the gain. */
  lemma BlurredAt(f: seq<real>, W: nat, H: nat, r: nat, gain: real, x: nat, y: nat)
    requires |f| == W * H && x < W && y < H
    ensures x + y * W < W * H
    ensures Blurred(f, W, H, r, gain)[x + y * W] == gain * BoxMean(Rows(f, W, H), W, y, x, r)
  {
    FlattenAt(BoxBlur(Rows(f, W, H), W, r, gain), W, H, x, y);
  }

  /** Sample x + y*W of a flattened grid is sample x of line y. */
  lemma FlattenAt(g: seq<seq<real>>, W: nat, H: nat, x: nat, y: nat)
    requires IsGrid(g, H, W) && x < W && y < H
    ensures x + y * W < W * H == |Flatten(g)|
    ensures Flatten(g)[x + y * W] == g[y][x]
  {
    RowsFlatten(g, W, H);
    RowsAt(Flatten(g), W, H, x, y);
  }

  /** A blur of radius 0 with gain 1 returns the buffer unchanged. */
  lemma BlurredRadiusZero(f: seq<real>, W: nat, H: nat)
    requires |f| == W * H
    ensures Blurred(f, W, H, 0, 1.0) == f
  {
    BoxBlurRadiusZero(Rows(f, W, H), W);
    FlattenRows(f, W, H);
  }

  /** A blur of a constant buffer c is the constant gain * c. */
  lemma BlurredConst(f: seq<real>, W: nat, H: nat, c: real, r: nat, gain: real)
    requires |f| == W * H
    requires forall j :: 0 <= j < |f| ==> f[j] == c
    ensures forall j :: 0 <= j < |f| ==> Blurred(f, W, H, r, gain)[j] == gain * c
  {
    var g := Rows(f, W, H);
    forall y, x | 0 <= y < H && 0 <= x < W
      ensures g[y][x] == c
    {
      RowsAt(f, W, H, x, y);
    }
    BoxBlurConst(g, W, c, r, gain);
    FlattenConst(BoxBlur(g, W, r, gain), W, H, gain * c);
  }

  /** A grid whose samples all equal c flattens to a buffer of c. */
  lemma {:induction false} FlattenConst(g: seq<seq<real>>, W: nat, H: nat, c: real)
    requires IsGrid(g, H, W)
    requires forall y, x :: 0 <= y < H && 0 <= x < W ==> g[y][x] == c
    ensures forall j :: 0 <= j < |Flatten(g)| ==> Flatten(g)[j] == c
    decreases H
  {
    if H > 0 {
      FlattenConst(g[..H - 1], W, H - 1, c);
    }
  }

  /** The indices lo, lo + 1, ..., hi - 1 in order. */
  function Indices(lo: nat, hi: nat): (s: seq<nat>)
    requires lo <= hi
    ensures |s| == hi - lo && forall k :: 0 <= k < |s| ==> s[k] == lo + k
  {
    seq(hi - lo, k => lo + k)
  }
}
