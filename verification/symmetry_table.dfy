/**
 * Symmetry lookup tables and their averaging (src/symmetry.cpp).
 *
 * A table is a list of groups of buffer indices (index x + y*w of pixel
 * (x, y) of a w x h image). `symmetry_init` builds one table per order 2, 3
 * and 4 and stores it at position order - 2: order 2 pairs every index i
 * of the first half with its point reflection w*h - 1 - i, order 3 is
 * left empty, and order 4 groups each pixel of the top-left quarter with
 * its horizontal, vertical and diagonal mirrors. `symmetry_apply` walks a
 * table group by group and overwrites every member of a group with the
 * group's average, read from the image as it stands at that moment.
 */
module SymmetryTable {
  import opened Flat

  /** Groups of buffer indices. */
  type Table = seq<seq<int>>

  /** Every index of every group addresses a sample of an n-sample image. */
  predicate InRange(t: Table, n: nat)
  {
    forall i, j :: 0 <= i < |t| && 0 <= j < |t[i]| ==> 0 <= t[i][j] < n
  }

  /** No index occurs twice in the table, inside one group or across two. */
  predicate Distinct(t: Table)
  {
    forall i, j, i', j' ::
      0 <= i < |t| && 0 <= j < |t[i]| && 0 <= i' < |t| && 0 <= j' < |t[i']| && (i != i' || j != j') ==>
        t[i][j] != t[i'][j']
  }

  /** A table of the given order over an n-sample image: groups of `order` distinct in-range indices, pairwise disjoint. */
  predicate WellFormed(t: Table, order: nat, n: nat)
  {
    InRange(t, n) && Distinct(t) && forall i :: 0 <= i < |t| ==> |t[i]| == order
  }

  /** Index k belongs to some group of the table. */
  predicate Covered(t: Table, k: int)
  {
    exists i :: 0 <= i < |t| && k in t[i]
  }

  // ---------------------------------------------------------------------
  // The tables
  // ---------------------------------------------------------------------

  /** Order 2: index i and its point reflection through the centre of the image. */
  function Order2(w: nat, h: nat): (t: Table)
    ensures |t| == w * h / 2
  {
    seq(w * h / 2, i => [i, w * h - 1 - i])
  }

  /** The four mirrors of pixel (x, y): itself, flipped left-right, flipped top-bottom, and both. */
  function Mirrors4(w: nat, h: nat, x: int, y: int): seq<int>
  {
    [x + y * w, (w - 1 - x) + y * w, x + (h - 1 - y) * w, (w - 1 - x) + (h - 1 - y) * w]
  }

  /** The groups of column x of the top-left quarter, top to bottom. */
  function Column4(w: nat, h: nat, x: nat): (c: Table)
    ensures |c| == h / 2
  {
    seq(h / 2, y => Mirrors4(w, h, x, y))
  }

  /** The groups of the first n columns of the top-left quarter, column after column. */
  function Order4Upto(w: nat, h: nat, n: nat): (t: Table)
    ensures |t| == n * (h / 2) && forall k :: 0 <= k < |t| ==> |t[k]| == 4
  {
    if n == 0 then [] else Order4Upto(w, h, n - 1) + Column4(w, h, n - 1)
  }

  /** Order 4: one group per pixel (x, y) of the top-left quarter, x-major. */
  function Order4(w: nat, h: nat): (t: Table)
    ensures |t| == (w / 2) * (h / 2) && forall k :: 0 <= k < |t| ==> |t[k]| == 4
  {
    Order4Upto(w, h, w / 2)
  }

  /**
   * The order-2 table pairs every index below w*h/2 with its reflection:
   * the pairs are disjoint, every index is covered, except the centre
   * index w*h/2 when w*h is odd, which no pair holds.
   */
  lemma Order2Spec(w: nat, h: nat)
    ensures WellFormed(Order2(w, h), 2, w * h)
    ensures forall k :: 0 <= k < w * h ==> (Covered(Order2(w, h), k) <==> (w * h) % 2 == 0 || k != w * h / 2)
  {
    var n, t := w * h, Order2(w, h);
    forall k | 0 <= k < n
      ensures Covered(t, k) <==> n % 2 == 0 || k != n / 2
    {
      if k < n / 2 {
        assert k in t[k];
      } else if n % 2 == 0 || k != n / 2 {
        assert k in t[n - 1 - k];
      } else {
        forall i | 0 <= i < |t|
          ensures k !in t[i]
        {
          assert t[i] == [i, n - 1 - i];
        }
      }
    }
  }

  /** One coordinate and its mirror: the lower half keeps it, the upper half flips it. */
  function Fold(n: nat, v: int, flip: bool): int
  {
    if flip then n - 1 - v else v
  }

  /** Mirror j of (x, y): x flipped for odd j, y flipped for j >= 2. */
  function Mirror(w: nat, h: nat, x: int, y: int, j: nat): int
  {
    Fold(w, x, j % 2 == 1) + Fold(h, y, j >= 2) * w
  }

  /** Below the middle, a coordinate or its mirror lies in the line and gives back both the coordinate and the choice. */
  lemma FoldUnique(n: nat, v: nat, flip: bool, v': nat, flip': bool)
    requires v < n / 2 && v' < n / 2
    ensures 0 <= Fold(n, v, flip) < n
    ensures Fold(n, v, flip) == Fold(n, v', flip') <==> v == v' && flip == flip'
  {
  }

  /** Mirror j of quarter pixel (x, y) lies in the image and determines x, y and j. */
  lemma {:induction false} MirrorUnique(w: nat, h: nat, x: nat, y: nat, j: nat, x': nat, y': nat, j': nat)
    requires x < w / 2 && y < h / 2 && j < 4
    requires x' < w / 2 && y' < h / 2 && j' < 4
    ensures 0 <= Mirror(w, h, x, y, j) < w * h
    ensures Mirror(w, h, x, y, j) == Mirror(w, h, x', y', j') <==> x == x' && y == y' && j == j'
  {
    FoldUnique(w, x, j % 2 == 1, x', j' % 2 == 1);
    FoldUnique(h, y, j >= 2, y', j' >= 2);
    var a, b := Fold(w, x, j % 2 == 1), Fold(h, y, j >= 2);
    var a', b' := Fold(w, x', j' % 2 == 1), Fold(h, y', j' >= 2);
    IndexBound(w, h, a, b);
    IndexUnique(w, a, b, a', b');
  }

  /** Mirror j of (x, y) as Mirrors4 lists it. */
  lemma MirrorAt(w: nat, h: nat, x: int, y: int, j: nat)
    requires j < 4
    ensures Mirrors4(w, h, x, y)[j] == Mirror(w, h, x, y, j)
  {
  }

  /** Group k of the first n columns belongs to quarter pixel (x, y) with k = y + x*(h/2). */
  lemma {:induction false} Order4Origin(w: nat, h: nat, n: nat, k: nat)
    requires k < |Order4Upto(w, h, n)|
    ensures exists x: nat, y: nat :: x < n && y < h / 2 && k == y + x * (h / 2) && Order4Upto(w, h, n)[k] == Mirrors4(w, h, x, y)
  {
    var front := Order4Upto(w, h, n - 1);
    if k < |front| {
      Order4Origin(w, h, n - 1, k);
      var x: nat, y: nat :| x < n - 1 && y < h / 2 && k == y + x * (h / 2) && front[k] == Mirrors4(w, h, x, y);
      assert Order4Upto(w, h, n)[k] == Mirrors4(w, h, x, y);
    } else {
      var y: nat := k - |front|;
      assert Order4Upto(w, h, n)[k] == Mirrors4(w, h, n - 1, y);
    }
  }

  /**
   * The order-4 table groups four distinct in-image indices per quarter
   * pixel, and no two groups share an index.
   */
  lemma Order4Spec(w: nat, h: nat)
    ensures WellFormed(Order4(w, h), 4, w * h)
  {
    var t := Order4(w, h);
    forall i, j | 0 <= i < |t| && 0 <= j < |t[i]|
      ensures 0 <= t[i][j] < w * h
    {
      Order4Apart(w, h, i, j, i, j);
    }
    forall i, j, i', j' | 0 <= i < |t| && 0 <= j < |t[i]| && 0 <= i' < |t| && 0 <= j' < |t[i']| && (i != i' || j != j')
      ensures t[i][j] != t[i'][j']
    {
      Order4Apart(w, h, i, j, i', j');
    }
  }

  /** Two different positions of the order-4 table hold different indices. */
  lemma {:induction false} Order4Apart(w: nat, h: nat, i: nat, j: nat, i': nat, j': nat)
    requires i < |Order4(w, h)| && i' < |Order4(w, h)| && j < 4 && j' < 4
    ensures 0 <= Order4(w, h)[i][j] < w * h
    ensures Order4(w, h)[i][j] == Order4(w, h)[i'][j'] <==> i == i' && j == j'
  {
    var t := Order4(w, h);
    Order4Origin(w, h, w / 2, i);
    var x: nat, y: nat :| x < w / 2 && y < h / 2 && i == y + x * (h / 2) && t[i] == Mirrors4(w, h, x, y);
    Order4Origin(w, h, w / 2, i');
    var x': nat, y': nat :| x' < w / 2 && y' < h / 2 && i' == y' + x' * (h / 2) && t[i'] == Mirrors4(w, h, x', y');
    MirrorAt(w, h, x, y, j);
    MirrorAt(w, h, x', y', j');
    GroupsApart(w, h, i, j, x, y, i', j', x', y');
  }

  /** Groups numbered y + x*(h/2) hold mirror j of (x, y): distinct positions hold distinct indices. */
  lemma {:induction false} GroupsApart(w: nat, h: nat, i: nat, j: nat, x: nat, y: nat, i': nat, j': nat, x': nat, y': nat)
    requires x < w / 2 && y < h / 2 && j < 4 && i == y + x * (h / 2)
    requires x' < w / 2 && y' < h / 2 && j' < 4 && i' == y' + x' * (h / 2)
    ensures 0 <= Mirror(w, h, x, y, j) < w * h
    ensures Mirror(w, h, x, y, j) == Mirror(w, h, x', y', j') <==> i == i' && j == j'
  {
    MirrorUnique(w, h, x, y, j, x', y', j');
    IndexUnique(h / 2, y, x, y', x');
  }

  /**
   * The table `symmetry_init` stores for an order in 2 .. 4 (order 3 has
   * none yet); each is well formed for its order.
   */
  function TableFor(order: nat, w: nat, h: nat): (t: Table)
    ensures 2 <= order <= 4 ==> WellFormed(t, order, w * h)
  {
    if order == 2 then Order2Spec(w, h); Order2(w, h)
    else if order == 4 then Order4Spec(w, h); Order4(w, h)
    else []
  }

  /**
   * The tables `symmetry_apply` reads are those of a w x h image: the
   * tables of orders 2, 3 and 4 sit at positions 0, 1 and 2. Tables
   * stored after them are never read.
   */
  predicate Initialised(tables: seq<Table>, w: nat, h: nat)
  {
    |tables| >= 3 && forall i :: 0 <= i < 3 ==> tables[i] == TableFor(i + 2, w, h)
  }

  // ---------------------------------------------------------------------
  // Building the tables
  // ---------------------------------------------------------------------

  /** `symmetry_init_order_2`: one pair per index of the first half. */
  method InitOrder2(w: nat, h: nat) returns (t: Table)
    ensures t == Order2(w, h)
  {
    t := [];
    for i := 0 to w * h / 2
      invariant t == Order2(w, h)[..i]
    {
      t := t + [[i, w * h - 1 - i]];
    }
  }

  /** `symmetry_init_order_4`: a column x of quarter pixels after another, y within the column. */
  method InitOrder4(w: nat, h: nat) returns (t: Table)
    ensures t == Order4(w, h)
  {
    t := [];
    for x := 0 to w / 2
      invariant t == Order4Upto(w, h, x)
    {
      ghost var column := Column4(w, h, x);
      for y := 0 to h / 2
        invariant t == Order4Upto(w, h, x) + column[..y]
      {
        assert column[..y + 1] == column[..y] + [Mirrors4(w, h, x, y)];
        t := t + [Mirrors4(w, h, x, y)];
      }
      assert column[..h / 2] == column;
    }
  }

  /**
   * `symmetry_init`: appends the tables of orders 2, 3 and 4, in that
   * order, to the tables already stored. Only a first call, on the empty
   * store, makes them the tables `symmetry_apply` reads; a later call
   * leaves positions 0 to 2 as they were.
   */
  method Init(tables: seq<Table>, w: nat, h: nat) returns (tables': seq<Table>)
    ensures tables' == tables + [TableFor(2, w, h), [], TableFor(4, w, h)]
    ensures tables == [] ==> Initialised(tables', w, h)
    ensures |tables| >= 3 ==> tables'[..3] == tables[..3]
  {
    tables' := tables;
    for order := 2 to 5
      invariant |tables'| == |tables| + order - 2 && tables'[..|tables|] == tables
      invariant forall o :: 2 <= o < order ==> tables'[|tables| + o - 2] == TableFor(o, w, h)
    {
      var sym: Table := [];
      if order == 2 {
        sym := InitOrder2(w, h);
      } else if order == 3 {
        sym := [];
      } else if order == 4 {
        sym := InitOrder4(w, h);
      }
      tables' := tables' + [sym];
    }
    var n := |tables|;
    assert TableFor(3, w, h) == [];
    assert tables'[n] == TableFor(2, w, h) && tables'[n + 1] == [] && tables'[n + 2] == TableFor(4, w, h);
    assert tables'[n..] == [TableFor(2, w, h), [], TableFor(4, w, h)];
    assert tables' == tables'[..n] + tables'[n..];
  }

  /**
   * A second `symmetry_init` for an image with another number of pairs
   * leaves the first image's tables in use: the store still holds the
   * tables of the first size at positions 0 to 2, not those of the new one.
   */
  lemma InitAgainStale(tables: seq<Table>, w: nat, h: nat, w': nat, h': nat)
    requires Initialised(tables, w, h) && w * h / 2 != w' * h' / 2
    ensures var t := tables + [TableFor(2, w', h'), [], TableFor(4, w', h')];
      Initialised(t, w, h) && !Initialised(t, w', h')
  {
    var t := tables + [TableFor(2, w', h'), [], TableFor(4, w', h')];
    assert t[0] == tables[0] && |t[0]| == w * h / 2;
    assert |TableFor(2, w', h')| == w' * h' / 2;
  }

  // ---------------------------------------------------------------------
  // Averaging
  // ---------------------------------------------------------------------

  /** The sum of the image over the indices of a group, counted with multiplicity. */
  function GroupSum(im: seq<real>, group: seq<int>): real
    requires forall j :: 0 <= j < |group| ==> 0 <= group[j] < |im|
  {
    if |group| == 0 then 0.0 else GroupSum(im, group[..|group| - 1]) + im[group[|group| - 1]]
  }

  /** Every index of the group set to the group's sum divided by the order. */
  function Averaged(im: seq<real>, group: seq<int>, order: nat): (a: seq<real>)
    requires order > 0
    requires forall j :: 0 <= j < |group| ==> 0 <= group[j] < |im|
    ensures |a| == |im|
  {
    var average := GroupSum(im, group) / order as real;
    seq(|im|, k requires 0 <= k < |im| => if k in group then average else im[k])
  }

  /** The groups of the table averaged one after the other, each reading the image the previous ones left. */
  function ApplyTable(im: seq<real>, t: Table, order: nat): (a: seq<real>)
    requires order > 0 && InRange(t, |im|)
    ensures |a| == |im|
  {
    if |t| == 0 then im
    else Averaged(ApplyTable(im, t[..|t| - 1], order), t[|t| - 1], order)
  }

  /** Two images that agree on a group's indices have the same group sum. */
  lemma {:induction false} GroupSumAgree(a: seq<real>, b: seq<real>, group: seq<int>)
    requires forall j :: 0 <= j < |group| ==> 0 <= group[j] < |a| && 0 <= group[j] < |b|
    requires forall j :: 0 <= j < |group| ==> a[group[j]] == b[group[j]]
    ensures GroupSum(a, group) == GroupSum(b, group)
  {
    if |group| > 0 {
      GroupSumAgree(a, b, group[..|group| - 1]);
    }
  }

  /** A group whose samples all equal c sums to |group| * c. */
  lemma {:induction false} GroupSumConst(im: seq<real>, group: seq<int>, c: real)
    requires forall j :: 0 <= j < |group| ==> 0 <= group[j] < |im| && im[group[j]] == c
    ensures GroupSum(im, group) == |group| as real * c
  {
    if |group| > 0 {
      GroupSumConst(im, group[..|group| - 1], c);
    }
  }

  /**
   * On a table without repeated indices, averaging group after group is
   * averaging every group over the original image: each index of group i
   * ends up holding group i's original sum divided by the order, and the
   * indices of no group keep their value.
   */
  lemma {:induction false} ApplyTableDisjoint(im: seq<real>, t: Table, order: nat)
    requires order > 0 && InRange(t, |im|) && Distinct(t)
    ensures forall i, j :: 0 <= i < |t| && 0 <= j < |t[i]| ==>
      ApplyTable(im, t, order)[t[i][j]] == GroupSum(im, t[i]) / order as real
    ensures forall k :: 0 <= k < |im| && !Covered(t, k) ==> ApplyTable(im, t, order)[k] == im[k]
  {
    if |t| > 0 {
      var front, last := t[..|t| - 1], t[|t| - 1];
      ApplyTableDisjoint(im, front, order);
      var prev := ApplyTable(im, front, order);
      forall j | 0 <= j < |last|
        ensures prev[last[j]] == im[last[j]]
      {
        forall i | 0 <= i < |front|
          ensures last[j] !in front[i]
        {
          assert forall j' :: 0 <= j' < |front[i]| ==> front[i][j'] == t[i][j'] != t[|t| - 1][j];
        }
      }
      GroupSumAgree(prev, im, last);
      forall i, j | 0 <= i < |front| && 0 <= j < |t[i]|
        ensures t[i][j] !in last
      {
        assert forall j' :: 0 <= j' < |last| ==> t[i][j] != last[j'];
      }
      forall k | 0 <= k < |im| && !Covered(t, k)
        ensures ApplyTable(im, t, order)[k] == im[k]
      {
        assert k !in last;
        assert forall i :: 0 <= i < |front| ==> k !in t[i];
      }
    }
  }

  /** A disjoint table of `order`-index groups leaves every group's sum as it found it. */
  lemma {:induction false} ApplyTableKeepsSums(im: seq<real>, t: Table, order: nat, i: nat)
    requires order > 0 && WellFormed(t, order, |im|) && i < |t|
    ensures GroupSum(ApplyTable(im, t, order), t[i]) == GroupSum(im, t[i])
  {
    GroupAveraged(im, t, order, i);
    MeanSum(ApplyTable(im, t, order), t[i], GroupSum(im, t[i]));
  }

  /** A group of samples that all equal sum/|group| sums to sum. */
  lemma {:induction false} MeanSum(a: seq<real>, group: seq<int>, sum: real)
    requires |group| > 0
    requires forall j :: 0 <= j < |group| ==> 0 <= group[j] < |a| && a[group[j]] == sum / |group| as real
    ensures GroupSum(a, group) == sum
  {
    var count := |group| as real;
    var mean := sum / count;
    assert GroupSum(a, group) == count * mean by {
      GroupSumConst(a, group, mean);
    }
    assert count * mean == sum by {
      MeanTimesCount(sum, count);
    }
  }

  /** After averaging a disjoint table, every index of group i holds the group's original mean. */
  lemma GroupAveraged(im: seq<real>, t: Table, order: nat, i: nat)
    requires order > 0 && InRange(t, |im|) && Distinct(t) && i < |t|
    ensures forall j :: 0 <= j < |t[i]| ==> ApplyTable(im, t, order)[t[i][j]] == GroupSum(im, t[i]) / order as real
  {
    ApplyTableDisjoint(im, t, order);
  }

  /** The mean of a group taken as many times as the group counts gives back its sum. */
  lemma MeanTimesCount(sum: real, count: real)
    requires count != 0.0
    ensures count * (sum / count) == sum
  {
  }

  /** Averaging with a disjoint table of `order`-index groups a second time changes nothing. */
  lemma ApplyTableIdempotent(im: seq<real>, t: Table, order: nat)
    requires order > 0 && WellFormed(t, order, |im|)
    ensures ApplyTable(ApplyTable(im, t, order), t, order) == ApplyTable(im, t, order)
  {
    var once := ApplyTable(im, t, order);
    var twice := ApplyTable(once, t, order);
    ApplyTableDisjoint(im, t, order);
    ApplyTableDisjoint(once, t, order);
    forall k | 0 <= k < |im|
      ensures twice[k] == once[k]
    {
      if Covered(t, k) {
        var i :| 0 <= i < |t| && k in t[i];
        var j :| 0 <= j < |t[i]| && t[i][j] == k;
        ApplyTableKeepsSums(im, t, order, i);
      }
    }
  }

  /** The sum loop of `symmetry_apply` over one group. */
  method SumGroup(im: seq<real>, group: seq<int>, order: nat) returns (sum: real)
    requires |group| == order
    requires forall j :: 0 <= j < |group| ==> 0 <= group[j] < |im|
    ensures sum == GroupSum(im, group)
  {
    sum := 0.0;
    for j := 0 to order
      invariant sum == GroupSum(im, group[..j])
    {
      assert group[..j + 1][..j] == group[..j];
      sum := sum + im[group[j]];
    }
    assert group[..order] == group;
  }

  /** The write loop of `symmetry_apply` over one group. */
  method FillGroup(im: seq<real>, group: seq<int>, order: nat, average: real) returns (out: seq<real>)
    requires |group| == order
    requires forall j :: 0 <= j < |group| ==> 0 <= group[j] < |im|
    ensures |out| == |im|
    ensures forall k :: 0 <= k < |im| ==> out[k] == if k in group then average else im[k]
  {
    out := im;
    for j := 0 to order
      invariant |out| == |im|
      invariant forall k :: 0 <= k < |im| ==> out[k] == if k in group[..j] then average else im[k]
    {
      assert group[..j + 1] == group[..j] + [group[j]];
      out := out[group[j] := average];
    }
    assert group[..order] == group;
  }

  /**
   * `symmetry_apply`: an order outside 2 .. 4 leaves the image alone;
   * otherwise every group of that order's table is replaced by its
   * average. Since the tables never repeat an index, each member of a
   * group ends up holding the group's original average, and every index in
   * no group keeps its value (so order 3, whose table is empty, changes
   * nothing).
   */
  method Apply(tables: seq<Table>, order: nat, w: nat, h: nat, im: seq<real>) returns (out: seq<real>)
    requires Initialised(tables, w, h) && |im| == w * h
    ensures !(2 <= order <= 4) ==> out == im
    ensures 2 <= order <= 4 ==> out == ApplyTable(im, tables[order - 2], order)
    ensures 2 <= order <= 4 ==> var t := tables[order - 2];
      |out| == |im| &&
      (forall i, j :: 0 <= i < |t| && 0 <= j < |t[i]| ==> out[t[i][j]] == GroupSum(im, t[i]) / order as real) &&
      (forall k :: 0 <= k < |im| && !Covered(t, k) ==> out[k] == im[k])
  {
    out := im;
    if 2 <= order <= 4 {
      var sym := tables[order - 2];
      assert sym == TableFor(order, w, h);
      for i := 0 to |sym|
        invariant out == ApplyTable(im, sym[..i], order)
      {
        assert sym[..i + 1][..i] == sym[..i];
        var sum := SumGroup(out, sym[i], order);
        var average := sum / order as real;
        out := FillGroup(out, sym[i], order, average);
      }
      assert sym[..|sym|] == sym;
      ApplyTableDisjoint(im, sym, order);
    }
  }

  /** With the tables of `symmetry_init`, applying an order twice is applying it once. */
  lemma ApplyIdempotent(tables: seq<Table>, order: nat, w: nat, h: nat, im: seq<real>)
    requires Initialised(tables, w, h) && |im| == w * h && 2 <= order <= 4
    ensures var once := ApplyTable(im, tables[order - 2], order);
      ApplyTable(once, tables[order - 2], order) == once
  {
    assert tables[order - 2] == TableFor(order, w, h);
    ApplyTableIdempotent(im, tables[order - 2], order);
  }
}
