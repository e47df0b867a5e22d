/**
 * Lists of symmetrical coordinates (src/symmetry.c, orders 0 and 1).
 *
 * The C code keeps a singly linked list of `struct sym`, each pointing to
 * a singly linked list of `struct xy` coordinates. The model keeps every
 * node kind in a heap of its own, a sequence of nodes in allocation order;
 * a pointer is an index into that heap and NULL is -1. `malloc` appends a
 * node to the heap, so a list built by appending at the tail only points
 * forward, and walking it from its head terminates.
 *
 * `build_sym_list` with order 0 builds no list; with order 1 it builds one
 * singleton coordinate list per pixel of the dim x dim image, column by
 * column. `symmetrize` replaces, group by group, every coordinate of a
 * group by the mean of the group over the image as it stands then.
 */
module SymmetryList {
  import opened Grid
  import opened Flat

  /** The NULL pointer. */
  const Null: int := -1

  /** A list node: its payload and the index of the next node, or Null. */
  datatype Node<T> = Node(value: T, next: int)

  /** A coordinate pair (`struct xy` without its link). */
  datatype Pos = Pos(x: nat, y: nat)

  /** Every link points to a later node of the heap, or is Null. */
  predicate Forward<T>(heap: seq<Node<T>>)
  {
    forall k :: 0 <= k < |heap| ==> heap[k].next == Null || k < heap[k].next < |heap|
  }

  /** How far a pointer is from the end of the heap; Null and dangling pointers are at 0. */
  function Rank<T>(heap: seq<Node<T>>, p: int): nat
  {
    if 0 <= p < |heap| then |heap| - p else 0
  }

  /** The payloads met walking the list from p until a Null link. */
  function Walk<T>(heap: seq<Node<T>>, p: int): seq<T>
    requires Forward(heap)
    decreases Rank(heap, p)
  {
    if 0 <= p < |heap| then [heap[p].value] + Walk(heap, heap[p].next) else []
  }

  /** The last node of the list starting at p. */
  function Last<T>(heap: seq<Node<T>>, p: int): (q: int)
    requires Forward(heap) && 0 <= p < |heap|
    ensures p <= q < |heap| && heap[q].next == Null
    decreases |heap| - p
  {
    if heap[p].next == Null then p else Last(heap, heap[p].next)
  }

  /** head and tail delimit a list: both Null, or tail is where the walk from head ends. */
  predicate IsList<T>(heap: seq<Node<T>>, head: int, tail: int)
  {
    Forward(heap) &&
    ((head == Null && tail == Null) || (0 <= head < |heap| && Last(heap, head) == tail))
  }

  /** A node allocated after the others changes no walk that starts among them. */
  lemma {:induction false} AllocKeeps<T>(heap: seq<Node<T>>, node: Node<T>, p: int)
    requires Forward(heap) && Forward(heap + [node]) && p < |heap|
    ensures Walk(heap + [node], p) == Walk(heap, p)
    decreases Rank(heap, p)
  {
    if 0 <= p {
      AllocKeeps(heap, node, heap[p].next);
    }
  }

  /**
   * Linking the last node of a list to a fresh node extends the walk from
   * every node of that list by the fresh payload and moves its last node
   * to the fresh one.
   */
  lemma {:induction false} LinkExtends<T>(heap: seq<Node<T>>, tail: int, v: T, p: int)
    requires Forward(heap) && 0 <= p < |heap| && Last(heap, p) == tail
    ensures var heap' := heap[tail := heap[tail].(next := |heap|)] + [Node(v, Null)];
      Forward(heap') && Walk(heap', p) == Walk(heap, p) + [v] && Last(heap', p) == |heap|
    decreases |heap| - p
  {
    var heap' := heap[tail := heap[tail].(next := |heap|)] + [Node(v, Null)];
    assert Forward(heap');
    if p != tail {
      LinkExtends(heap, tail, v, heap[p].next);
      assert heap'[p] == heap[p];
    } else {
      assert Walk(heap', |heap|) == [v];
    }
  }

  /**
   * Linking the last node of one list to a fresh node changes no walk
   * from a node whose list ends elsewhere.
   */
  lemma {:induction false} LinkKeeps<T>(heap: seq<Node<T>>, tail: int, v: T, p: int)
    requires Forward(heap) && 0 <= tail < |heap| && heap[tail].next == Null
    requires 0 <= p < |heap| && Last(heap, p) != tail
    ensures var heap' := heap[tail := heap[tail].(next := |heap|)] + [Node(v, Null)];
      Forward(heap') && Walk(heap', p) == Walk(heap, p)
    decreases |heap| - p
  {
    var heap' := heap[tail := heap[tail].(next := |heap|)] + [Node(v, Null)];
    assert Forward(heap');
    assert heap'[p] == heap[p];
    if heap[p].next != Null {
      LinkKeeps(heap, tail, v, heap[p].next);
    }
  }

  /**
   * `add_xy` and `add_sym`: allocate a node holding v and append it at the
   * tail of the list; on an empty list the node becomes the head too.
   * The list's walk gains v at its end, and every other list of the heap
   * walks as before.
   */
  method Append<T>(heap: seq<Node<T>>, head: int, tail: int, v: T)
    returns (heap': seq<Node<T>>, head': int, tail': int)
    requires IsList(heap, head, tail)
    ensures IsList(heap', head', tail') && tail' == |heap| && |heap'| == |heap| + 1
    ensures Walk(heap', head') == Walk(heap, head) + [v]
    ensures forall p :: 0 <= p < |heap| && (tail == Null || Last(heap, p) != tail) ==> Walk(heap', p) == Walk(heap, p)
  {
    var previous := tail;
    tail' := |heap|;
    if head == Null {
      heap' := heap + [Node(v, Null)];
      head' := tail';
      forall p | 0 <= p < |heap|
        ensures Walk(heap', p) == Walk(heap, p)
      {
        AllocKeeps(heap, Node(v, Null), p);
      }
    } else {
      heap' := heap[previous := heap[previous].(next := tail')] + [Node(v, Null)];
      head' := head;
      LinkExtends(heap, previous, v, head);
      forall p | 0 <= p < |heap| && Last(heap, p) != tail
        ensures Walk(heap', p) == Walk(heap, p)
      {
        LinkKeeps(heap, previous, v, p);
      }
    }
  }

  /** The coordinate lists that the given xy heads start. */
  function Groups(xys: seq<Node<Pos>>, heads: seq<int>): (gs: seq<seq<Pos>>)
    requires Forward(xys)
    ensures |gs| == |heads|
  {
    seq(|heads|, i requires 0 <= i < |heads| => Walk(xys, heads[i]))
  }

  /** The groups of a dim x dim image without symmetry: one per pixel, x-major, y-minor. */
  function Singletons(dim: nat): (gs: seq<seq<Pos>>)
    ensures |gs| == dim * dim
  {
    seq(dim * dim, k requires 0 <= k < dim * dim => [Pos(k / dim, k % dim)])
  }

  /** Group y + x*dim of the order-1 groups is the single pixel (x, y), which lies in the image. */
  lemma SingletonsAt(dim: nat, x: nat, y: nat)
    requires x < dim && y < dim
    ensures y + x * dim < dim * dim && Singletons(dim)[y + x * dim] == [Pos(x, y)]
  {
    IndexBound(dim, dim, y, x);
    DivModOf(dim, y, x);
  }

  /** Every order-1 group is a single pixel of the image. */
  lemma SingletonsInImage(dim: nat, k: nat)
    requires k < dim * dim
    ensures |Singletons(dim)[k]| == 1 && Singletons(dim)[k][0].x < dim && Singletons(dim)[k][0].y < dim
  {
    QuotientBound(k, dim, dim);
  }

  /**
   * One pixel of the order-1 build: a fresh one-node coordinate list,
   * appended to the symmetry list. The groups built so far stay as they
   * were and the new group is [(x, y)].
   */
  method AddPixel(xys: seq<Node<Pos>>, syms: seq<Node<int>>, head: int, tail: int, x: nat, y: nat, ghost heads: seq<int>)
    returns (xys': seq<Node<Pos>>, syms': seq<Node<int>>, head': int, tail': int, ghost heads': seq<int>)
    requires Forward(xys) && IsList(syms, head, tail) && Walk(syms, head) == heads
    requires forall i :: 0 <= i < |heads| ==> heads[i] < |xys|
    ensures Forward(xys') && IsList(syms', head', tail') && Walk(syms', head') == heads'
    ensures forall i :: 0 <= i < |heads'| ==> heads'[i] < |xys'|
    ensures Groups(xys', heads') == Groups(xys, heads) + [[Pos(x, y)]]
  {
    var headXy, tailXy;
    xys', headXy, tailXy := Append(xys, Null, Null, Pos(x, y));
    syms', head', tail' := Append(syms, head, tail, headXy);
    heads' := heads + [headXy];
    assert Walk(xys', headXy) == [Pos(x, y)];
    assert forall i :: 0 <= i < |heads| ==> Walk(xys', heads[i]) == Walk(xys, heads[i]);
  }

  /**
   * `build_sym_list` for orders 0 and 1: order 0 leaves both list ends
   * Null; order 1 builds one singleton group per pixel, x-major.
   */
  method BuildSymList(dim: nat, s: nat) returns (xys: seq<Node<Pos>>, syms: seq<Node<int>>, head: int, tail: int)
    requires s <= 1
    ensures Forward(xys) && IsList(syms, head, tail)
    ensures s == 0 ==> head == Null && tail == Null
    ensures s == 1 ==> Groups(xys, Walk(syms, head)) == Singletons(dim)
  {
    xys, syms, head, tail := [], [], Null, Null;
    if s == 1 {
      ghost var heads: seq<int> := [];
      ghost var all := Singletons(dim);
      for x := 0 to dim
        invariant Forward(xys) && IsList(syms, head, tail) && Walk(syms, head) == heads
        invariant forall i :: 0 <= i < |heads| ==> heads[i] < |xys|
        invariant |heads| == x * dim <= |all| && Groups(xys, heads) == all[..x * dim]
      {
        for y := 0 to dim
          invariant Forward(xys) && IsList(syms, head, tail) && Walk(syms, head) == heads
          invariant forall i :: 0 <= i < |heads| ==> heads[i] < |xys|
          invariant |heads| == x * dim + y <= |all| && Groups(xys, heads) == all[..x * dim + y]
        {
          SingletonsAt(dim, x, y);
          assert all[..|heads| + 1] == all[..|heads|] + [[Pos(x, y)]];
          xys, syms, head, tail, heads := AddPixel(xys, syms, head, tail, x, y, heads);
        }
        assert (x + 1) * dim == x * dim + dim;
      }
      assert all[..dim * dim] == all;
    }
  }

  // ---------------------------------------------------------------------
  // symmetrize
  // ---------------------------------------------------------------------

  /** Every coordinate of the group addresses a pixel of the dim x dim image. */
  predicate InImage(g: seq<Pos>, dim: nat)
  {
    forall j :: 0 <= j < |g| ==> g[j].x < dim && g[j].y < dim
  }

  /** The sum of the image over the coordinates of a group. */
  function PosSum(im: seq<seq<real>>, dim: nat, g: seq<Pos>): real
    requires IsGrid(im, dim, dim) && InImage(g, dim)
  {
    if |g| == 0 then 0.0 else PosSum(im, dim, g[..|g| - 1]) + im[g[|g| - 1].x][g[|g| - 1].y]
  }

  /** The image with every coordinate of a non-empty group set to the group's mean. */
  function Averaged(im: seq<seq<real>>, dim: nat, g: seq<Pos>): (a: seq<seq<real>>)
    requires IsGrid(im, dim, dim) && InImage(g, dim)
    ensures IsGrid(a, dim, dim)
  {
    if |g| == 0 then im
    else
      var mean := PosSum(im, dim, g) / |g| as real;
      seq(dim, x requires 0 <= x < dim =>
        seq(dim, y requires 0 <= y < dim => if Pos(x, y) in g then mean else im[x][y]))
  }

  /** The groups averaged one after the other, each reading the image the previous ones left. */
  function Symmetrized(im: seq<seq<real>>, dim: nat, gs: seq<seq<Pos>>): (a: seq<seq<real>>)
    requires IsGrid(im, dim, dim) && forall i :: 0 <= i < |gs| ==> InImage(gs[i], dim)
    ensures IsGrid(a, dim, dim)
  {
    if |gs| == 0 then im
    else Averaged(Symmetrized(im, dim, gs[..|gs| - 1]), dim, gs[|gs| - 1])
  }

  /** The first walk of `symmetrize`: the sum and the count of the group's samples. */
  method SumGroup(xys: seq<Node<Pos>>, p: int, im: seq<seq<real>>, dim: nat) returns (sum: real, count: nat)
    requires Forward(xys) && IsGrid(im, dim, dim) && InImage(Walk(xys, p), dim)
    ensures sum == PosSum(im, dim, Walk(xys, p)) && count == |Walk(xys, p)|
  {
    ghost var g := Walk(xys, p);
    sum, count := 0.0, 0;
    var q := p;
    while 0 <= q < |xys|
      invariant count <= |g| && Walk(xys, q) == g[count..]
      invariant sum == PosSum(im, dim, g[..count])
      decreases Rank(xys, q)
    {
      var c := xys[q].value;
      PosSumStep(im, dim, g, count);
      sum := sum + im[c.x][c.y];
      count := count + 1;
      q := xys[q].next;
    }
    assert g[..count] == g;
  }

  /** Summing one coordinate further along the group. */
  lemma PosSumStep(im: seq<seq<real>>, dim: nat, g: seq<Pos>, n: nat)
    requires IsGrid(im, dim, dim) && InImage(g, dim) && n < |g|
    ensures PosSum(im, dim, g[..n + 1]) == PosSum(im, dim, g[..n]) + im[g[n].x][g[n].y]
  {
    assert g[..n + 1][..n] == g[..n];
  }

  /** `im[c.x][c.y] = v`: pixel c takes v and every other pixel keeps its sample. */
  function Write(im: seq<seq<real>>, dim: nat, c: Pos, v: real): (out: seq<seq<real>>)
    requires IsGrid(im, dim, dim) && c.x < dim && c.y < dim
    ensures IsGrid(out, dim, dim)
    ensures forall x, y :: 0 <= x < dim && 0 <= y < dim ==> out[x][y] == if Pos(x, y) == c then v else im[x][y]
  {
    im[c.x := im[c.x][c.y := v]]
  }

  /** The second walk of `symmetrize`: every coordinate of the group set to v. */
  method FillGroup(xys: seq<Node<Pos>>, p: int, im: seq<seq<real>>, dim: nat, v: real) returns (out: seq<seq<real>>)
    requires Forward(xys) && IsGrid(im, dim, dim) && InImage(Walk(xys, p), dim)
    ensures IsGrid(out, dim, dim)
    ensures forall x, y :: 0 <= x < dim && 0 <= y < dim ==> out[x][y] == if Pos(x, y) in Walk(xys, p) then v else im[x][y]
  {
    ghost var g := Walk(xys, p);
    ghost var done := 0;
    out := im;
    var q := p;
    while 0 <= q < |xys|
      invariant done <= |g| && Walk(xys, q) == g[done..]
      invariant IsGrid(out, dim, dim)
      invariant forall x, y :: 0 <= x < dim && 0 <= y < dim ==> out[x][y] == if Pos(x, y) in g[..done] then v else im[x][y]
      decreases Rank(xys, q)
    {
      var c := xys[q].value;
      assert g[done] == c;
      assert g[..done + 1] == g[..done] + [c];
      out := Write(out, dim, c, v);
      done := done + 1;
      q := xys[q].next;
    }
    assert g[..done] == g;
  }

  /** Two dim x dim grids that agree at every pixel are equal. */
  lemma GridEq(a: seq<seq<real>>, b: seq<seq<real>>, dim: nat)
    requires IsGrid(a, dim, dim) && IsGrid(b, dim, dim)
    requires forall x, y :: 0 <= x < dim && 0 <= y < dim ==> a[x][y] == b[x][y]
    ensures a == b
  {
    forall x | 0 <= x < dim
      ensures a[x] == b[x]
    {
      assert forall y :: 0 <= y < dim ==> a[x][y] == b[x][y];
    }
  }

  /** One group of `symmetrize`: both walks over its coordinate list. */
  method AverageGroup(xys: seq<Node<Pos>>, p: int, im: seq<seq<real>>, dim: nat) returns (out: seq<seq<real>>)
    requires Forward(xys) && IsGrid(im, dim, dim) && InImage(Walk(xys, p), dim)
    ensures out == Averaged(im, dim, Walk(xys, p))
  {
    var sum, count := SumGroup(xys, p, im, dim);
    out := im;
    if count > 0 {
      out := FillGroup(xys, p, im, dim, sum / count as real);
      GridEq(out, Averaged(im, dim, Walk(xys, p)), dim);
    }
  }

  /**
   * `symmetrize`: walk the symmetry list and, for every group with at least
   * one coordinate, overwrite its coordinates with its mean over the image
   * as the earlier groups left it. (An empty group divides 0 by 0 but
   * writes nothing.)
   */
  method Symmetrize(xys: seq<Node<Pos>>, syms: seq<Node<int>>, head: int, dim: nat, im: seq<seq<real>>)
    returns (out: seq<seq<real>>)
    requires Forward(xys) && Forward(syms) && IsGrid(im, dim, dim)
    requires forall i :: 0 <= i < |Walk(syms, head)| ==> InImage(Walk(xys, Walk(syms, head)[i]), dim)
    ensures out == Symmetrized(im, dim, Groups(xys, Walk(syms, head)))
  {
    ghost var heads := Walk(syms, head);
    ghost var done := 0;
    out := im;
    var p := head;
    while 0 <= p < |syms|
      invariant done <= |heads| && Walk(syms, p) == heads[done..]
      invariant out == Symmetrized(im, dim, Groups(xys, heads[..done]))
      decreases Rank(syms, p)
    {
      var group := syms[p].value;
      SymmetrizedStep(im, dim, xys, heads, done);
      out := AverageGroup(xys, group, out, dim);
      done := done + 1;
      p := syms[p].next;
    }
    assert heads[..done] == heads;
  }

  /** Symmetrizing one group further along the list averages that group over the image so far. */
  lemma SymmetrizedStep(im: seq<seq<real>>, dim: nat, xys: seq<Node<Pos>>, heads: seq<int>, n: nat)
    requires Forward(xys) && IsGrid(im, dim, dim) && n < |heads|
    requires forall i :: 0 <= i < |heads| ==> InImage(Walk(xys, heads[i]), dim)
    ensures Symmetrized(im, dim, Groups(xys, heads[..n + 1])) ==
      Averaged(Symmetrized(im, dim, Groups(xys, heads[..n])), dim, Walk(xys, heads[n]))
  {
    assert Groups(xys, heads[..n + 1])[..n] == Groups(xys, heads[..n]);
  }

  /** Group i of a symmetrized image: coordinates in no group keep their sample. */
  lemma {:induction false} SymmetrizedOutside(im: seq<seq<real>>, dim: nat, gs: seq<seq<Pos>>, x: nat, y: nat)
    requires IsGrid(im, dim, dim) && forall i :: 0 <= i < |gs| ==> InImage(gs[i], dim)
    requires x < dim && y < dim && forall i :: 0 <= i < |gs| ==> Pos(x, y) !in gs[i]
    ensures Symmetrized(im, dim, gs)[x][y] == im[x][y]
  {
    if |gs| > 0 {
      SymmetrizedOutside(im, dim, gs[..|gs| - 1], x, y);
    }
  }

  /**
   * The group visited last holds, at each of its coordinates, its mean over
   * the image that the groups before it left.
   */
  lemma LastGroupAveraged(im: seq<seq<real>>, dim: nat, gs: seq<seq<Pos>>, j: nat)
    requires IsGrid(im, dim, dim) && forall i :: 0 <= i < |gs| ==> InImage(gs[i], dim)
    requires |gs| > 0 && j < |gs[|gs| - 1]|
    ensures var g, before := gs[|gs| - 1], Symmetrized(im, dim, gs[..|gs| - 1]);
      Symmetrized(im, dim, gs)[g[j].x][g[j].y] == PosSum(before, dim, g) / |g| as real
  {
    var g := gs[|gs| - 1];
    assert Pos(g[j].x, g[j].y) in g;
  }

  /** A single in-image coordinate sums to its own sample. */
  lemma SingletonMean(im: seq<seq<real>>, dim: nat, c: Pos)
    requires IsGrid(im, dim, dim) && c.x < dim && c.y < dim
    ensures PosSum(im, dim, [c]) / 1 as real == im[c.x][c.y]
  {
    assert [c][..0] == [];
  }

  /** Averaging groups of a single coordinate each changes nothing. */
  lemma {:induction false} SymmetrizedSingletons(im: seq<seq<real>>, dim: nat, gs: seq<seq<Pos>>)
    requires IsGrid(im, dim, dim) && forall i :: 0 <= i < |gs| ==> InImage(gs[i], dim) && |gs[i]| == 1
    ensures Symmetrized(im, dim, gs) == im
  {
    if |gs| > 0 {
      SymmetrizedSingletons(im, dim, gs[..|gs| - 1]);
      var c := gs[|gs| - 1][0];
      SingletonMean(im, dim, c);
      var a := Averaged(im, dim, gs[|gs| - 1]);
      forall x | 0 <= x < dim
        ensures a[x] == im[x]
      {
        assert forall y :: 0 <= y < dim ==> a[x][y] == im[x][y];
      }
    }
  }

  /** `symmetrize` over the list `build_sym_list` makes for order 1 returns the image unchanged. */
  lemma OrderOneIdentity(xys: seq<Node<Pos>>, syms: seq<Node<int>>, head: int, dim: nat, im: seq<seq<real>>)
    requires Forward(xys) && Forward(syms) && IsGrid(im, dim, dim)
    requires Groups(xys, Walk(syms, head)) == Singletons(dim)
    ensures forall i :: 0 <= i < |Walk(syms, head)| ==> InImage(Walk(xys, Walk(syms, head)[i]), dim)
    ensures Symmetrized(im, dim, Groups(xys, Walk(syms, head))) == im
  {
    var gs := Singletons(dim);
    forall i | 0 <= i < |gs|
      ensures InImage(gs[i], dim) && |gs[i]| == 1
    {
      SingletonsInImage(dim, i);
    }
    assert forall i :: 0 <= i < |Walk(syms, head)| ==> Walk(xys, Walk(syms, head)[i]) == gs[i];
    SymmetrizedSingletons(im, dim, gs);
  }
}
