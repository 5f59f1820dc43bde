/** `SquareMesh.generate_xyz_mesh`: the connection list `con` built over the
    pixels of an `nl x nk` disparity grid (`nl` rows, `nk` columns, pixel
    `p = row * nk + col`). */
module Mesh {
  import opened Disparity
  import opened Results

  /** One row `(a, b)` of `con`: a connection from pixel `a` to pixel `b`. */
  datatype Edge = Edge(a: nat, b: nat)

  /** `Ncon`, the number of rows `generate_xyz_mesh` preallocates for `con`:
      one per pair of horizontal neighbours, one per pair of vertical
      neighbours, and two (the diagonals) per square of four pixels. */
  function SlotCount(nl: int, nk: int): (n: int)
    ensures n == nl * (nk - 1) + (nl - 1) * nk + 2 * ((nl - 1) * (nk - 1))
  {
    4 * (nk - 1) * (nl - 1) + nk + nl - 2
  }

  function Maybe(keep: bool, e: Edge): seq<Edge> {
    if keep then [e] else []
  }

  /** The connections into the row below a pixel `p` that is not in the
      last row. */
  function Lower(p: nat, nk: nat, keepLeft: bool, keepRight: bool): seq<Edge>
    requires nk >= 1
  {
    [Edge(p, p + nk)] + Maybe(keepLeft, Edge(p, p + nk - 1)) + Maybe(keepRight, Edge(p, p + nk + 1))
  }

  /** The connections emitted at pixel `p`, in row `r` and column `c`, in
      emission order: the right neighbour unless in the last column; then,
      unless in the last row, the pixel below, the one below-left unless in
      the first column, and the one below-right unless in the last column. */
  function Emit(p: nat, r: nat, c: nat, nl: nat, nk: nat): seq<Edge>
    requires nk >= 1
  {
    Maybe(c != nk - 1, Edge(p, p + 1)) + (if r < nl - 1 then Lower(p, nk, c != 0, c != nk - 1) else [])
  }

  /** What `Emit` appends to the connections before it, in two parts. */
  lemma EmitSplit(p: nat, r: nat, c: nat, nl: nat, nk: nat, done: seq<Edge>)
    requires nk >= 1
    ensures r < nl - 1 ==>
              done + Emit(p, r, c, nl, nk) == done + Maybe(c != nk - 1, Edge(p, p + 1)) + Lower(p, nk, c != 0, c != nk - 1)
    ensures r >= nl - 1 ==> done + Emit(p, r, c, nl, nk) == done + Maybe(c != nk - 1, Edge(p, p + 1))
  {
  }

  /** The connections each of the first `n` pixels emits, by pixel. */
  function PixelBlocks(n: nat, nl: nat, nk: nat): (bs: seq<seq<Edge>>)
    requires nk >= 1
    ensures |bs| == n
  {
    if n == 0 then [] else PixelBlocks(n - 1, nl, nk) + [Emit(n - 1, Row(n - 1, nk), Col(n - 1, nk), nl, nk)]
  }

  /** The connections each pixel of an `nl x nk` grid emits, by pixel. */
  function Blocks(nl: nat, nk: nat): (bs: seq<seq<Edge>>)
    requires nk >= 1
    ensures |bs| == RowStart(nl, nk)
  {
    PixelBlocks(RowStart(nl, nk), nl, nk)
  }

  lemma {:induction false} PixelBlockAt(n: nat, k: nat, nl: nat, nk: nat)
    requires nk >= 1 && k < n
    ensures PixelBlocks(n, nl, nk)[k] == Emit(k, Row(k, nk), Col(k, nk), nl, nk)
  {
    if k < n - 1 {
      PixelBlockAt(n - 1, k, nl, nk);
    }
  }

  /** The connections of the first `n` pixels, in pixel order. */
  function Flat(bs: seq<seq<Edge>>, n: nat): seq<Edge>
    requires n <= |bs|
  {
    if n == 0 then [] else Flat(bs, n - 1) + bs[n - 1]
  }

  /** The whole connection list of an `nl x nk` grid, pixel by pixel. */
  function EdgeList(nl: nat, nk: nat): seq<Edge>
    requires nk >= 1
  {
    Flat(Blocks(nl, nk), RowStart(nl, nk))
  }

  /** Independent description of the connectivity: both pixels lie in the
      `nl` rows of the grid, and `b` is the pixel right of `a` in the same
      row, or one of the three pixels of the next row touching `a`. */
  predicate Neighbours(e: Edge, nl: nat, nk: nat)
    requires nk >= 1
  {
    var ra, ca, rb, cb := Row(e.a, nk), Col(e.a, nk), Row(e.b, nk), Col(e.b, nk);
    ra < nl && rb < nl &&
    ((rb == ra && cb == ca + 1) || (rb == ra + 1 && ca - 1 <= cb <= ca + 1))
  }

  /** The rank of an edge's direction in the emission order at its first
      pixel: 0 right, 1 down, 2 down-left, 3 down-right. */
  function Direction(e: Edge, nk: nat): nat
    requires nk >= 1
  {
    if Row(e.b, nk) == Row(e.a, nk) then 0
    else if Col(e.b, nk) == Col(e.a, nk) then 1
    else if Col(e.b, nk) < Col(e.a, nk) then 2
    else 3
  }

  /** `e` is emitted before `f`: by first endpoint, then by direction. */
  predicate Before(e: Edge, f: Edge, nk: nat)
    requires nk >= 1
  {
    e.a < f.a || (e.a == f.a && Direction(e, nk) < Direction(f, nk))
  }

  predicate Ordered(s: seq<Edge>, nk: nat)
    requires nk >= 1
  {
    forall i, j :: 0 <= i < j < |s| ==> Before(s[i], s[j], nk)
  }

  /** `s` holds exactly the neighbour pairs whose first pixel lies in
      `[lo, hi)`. */
  ghost predicate Holds(s: seq<Edge>, lo: int, hi: int, nl: nat, nk: nat)
    requires nk >= 1
  {
    forall e :: e in s <==> lo <= e.a < hi && Neighbours(e, nl, nk)
  }

  /** Every first endpoint in `s` lies in `[lo, hi)`. */
  predicate FirstIn(s: seq<Edge>, lo: int, hi: int) {
    forall i :: 0 <= i < |s| ==> lo <= s[i].a < hi
  }

  lemma OrderedAppend(s: seq<Edge>, t: seq<Edge>, nk: nat)
    requires nk >= 1
    requires Ordered(s, nk) && Ordered(t, nk)
    requires forall x, y :: x in s && y in t ==> Before(x, y, nk)
    ensures Ordered(s + t, nk)
  {
    var u := s + t;
    forall i, j | 0 <= i < j < |u| ensures Before(u[i], u[j], nk) {
      if j < |s| {
        assert u[i] == s[i] && u[j] == s[j];
      } else if i >= |s| {
        assert u[i] == t[i - |s|] && u[j] == t[j - |s|];
      } else {
        assert u[i] in s && u[j] in t;
      }
    }
  }

  /** Two ordered runs stay ordered when every first endpoint of the first
      lies below `m` and every first endpoint of the second does not. */
  lemma OrderedSplit(prev: seq<Edge>, here: seq<Edge>, nk: nat, base: int, m: int, hi: int)
    requires nk >= 1
    requires Ordered(prev, nk) && Ordered(here, nk)
    requires FirstIn(prev, base, m) && FirstIn(here, m, hi)
    ensures Ordered(prev + here, nk)
  {
    OrderedAppend(prev, here, nk);
  }

  /** The pixel `q` in row `rb`, column `cb`, seen together with pixel `p` in
      row `r`, column `c`. */
  lemma Candidate(p: nat, q: nat, r: nat, c: nat, rb: nat, cb: nat, nk: nat)
    requires nk >= 1 && c < nk && cb < nk
    requires p == RowStart(r, nk) + c && q == RowStart(rb, nk) + cb
    ensures Row(p, nk) == r && Col(p, nk) == c && Row(q, nk) == rb && Col(q, nk) == cb
  {
    RowColAt(p, r, c, nk);
    RowColAt(q, rb, cb, nk);
  }

  /** The four candidate connections of the pixel in row `r`, column `c`,
      each when the source's tests keep it, with its direction. */
  lemma RightNeighbour(p: nat, r: nat, c: nat, nl: nat, nk: nat)
    requires nk >= 1 && r < nl && c + 1 < nk && p == RowStart(r, nk) + c
    ensures Neighbours(Edge(p, p + 1), nl, nk) && Direction(Edge(p, p + 1), nk) == 0
  {
    Candidate(p, p + 1, r, c, r, c + 1, nk);
  }

  lemma DownNeighbour(p: nat, r: nat, c: nat, nl: nat, nk: nat)
    requires nk >= 1 && r + 1 < nl && c < nk && p == RowStart(r, nk) + c
    ensures Neighbours(Edge(p, p + nk), nl, nk) && Direction(Edge(p, p + nk), nk) == 1
  {
    assert RowStart(r + 1, nk) == RowStart(r, nk) + nk;
    Candidate(p, p + nk, r, c, r + 1, c, nk);
  }

  lemma DownLeftNeighbour(p: nat, r: nat, c: nat, nl: nat, nk: nat)
    requires nk >= 1 && r + 1 < nl && 0 < c < nk && p == RowStart(r, nk) + c
    ensures Neighbours(Edge(p, p + nk - 1), nl, nk) && Direction(Edge(p, p + nk - 1), nk) == 2
  {
    assert RowStart(r + 1, nk) == RowStart(r, nk) + nk;
    Candidate(p, p + nk - 1, r, c, r + 1, c - 1, nk);
  }

  lemma DownRightNeighbour(p: nat, r: nat, c: nat, nl: nat, nk: nat)
    requires nk >= 1 && r + 1 < nl && c + 1 < nk && p == RowStart(r, nk) + c
    ensures Neighbours(Edge(p, p + nk + 1), nl, nk) && Direction(Edge(p, p + nk + 1), nk) == 3
  {
    assert RowStart(r + 1, nk) == RowStart(r, nk) + nk;
    Candidate(p, p + nk + 1, r, c, r + 1, c + 1, nk);
  }

  /** The connections into the row below join the pixel to neighbours, in
      direction order, none of them rightward. */
  lemma LowerNeighbours(p: nat, r: nat, c: nat, nl: nat, nk: nat)
    requires nk >= 1 && r < nl - 1 && c < nk && p == RowStart(r, nk) + c
    ensures forall e :: e in Lower(p, nk, c != 0, c != nk - 1) ==> e.a == p && Neighbours(e, nl, nk) && Direction(e, nk) >= 1
    ensures Ordered(Lower(p, nk, c != 0, c != nk - 1), nk)
  {
    var down, downLeft, downRight := Edge(p, p + nk), Edge(p, p + nk - 1), Edge(p, p + nk + 1);
    var keepLeft, keepRight := c != 0, c != nk - 1;
    DownNeighbour(p, r, c, nl, nk);
    if keepLeft {
      DownLeftNeighbour(p, r, c, nl, nk);
    }
    if keepRight {
      DownRightNeighbour(p, r, c, nl, nk);
    }
    OrderedAppend([down], Maybe(keepLeft, downLeft), nk);
    OrderedAppend([down] + Maybe(keepLeft, downLeft), Maybe(keepRight, downRight), nk);
  }

  /** Each connection emitted at a pixel joins it to one of its neighbours,
      and they come in direction order. */
  lemma EmitNeighbours(p: nat, r: nat, c: nat, nl: nat, nk: nat)
    requires nk >= 1 && r < nl && c < nk && p == RowStart(r, nk) + c
    ensures forall e :: e in Emit(p, r, c, nl, nk) ==> e.a == p && Neighbours(e, nl, nk)
    ensures Ordered(Emit(p, r, c, nl, nk), nk)
  {
    var right := Maybe(c != nk - 1, Edge(p, p + 1));
    if c != nk - 1 {
      RightNeighbour(p, r, c, nl, nk);
    }
    if r < nl - 1 {
      LowerNeighbours(p, r, c, nl, nk);
      OrderedAppend(right, Lower(p, nk, c != 0, c != nk - 1), nk);
    } else {
      assert Emit(p, r, c, nl, nk) == right;
    }
  }

  /** Every neighbour of a pixel is emitted at that pixel. */
  lemma NeighbourEmitted(e: Edge, p: nat, r: nat, c: nat, nl: nat, nk: nat)
    requires nk >= 1 && r < nl && c < nk && p == RowStart(r, nk) + c
    requires e.a == p && Neighbours(e, nl, nk)
    ensures e in Emit(p, r, c, nl, nk)
  {
    RowColAt(p, r, c, nk);
    var rb, cb := Row(e.b, nk), Col(e.b, nk);
    RowColSplit(e.b, nk);
    if rb == r {
      assert e.b == p + 1;
    } else {
      assert rb == r + 1;
      assert e.b == RowStart(r, nk) + nk + cb;
    }
  }

  lemma EmitSpec(p: nat, r: nat, c: nat, nl: nat, nk: nat)
    requires nk >= 1 && r < nl && c < nk && p == RowStart(r, nk) + c
    ensures Holds(Emit(p, r, c, nl, nk), p, p + 1, nl, nk)
  {
    EmitNeighbours(p, r, c, nl, nk);
    forall e: Edge | e.a == p && Neighbours(e, nl, nk) ensures e in Emit(p, r, c, nl, nk) {
      NeighbourEmitted(e, p, r, c, nl, nk);
    }
  }

  lemma EmitFirst(p: nat, r: nat, c: nat, nl: nat, nk: nat)
    requires nk >= 1
    ensures FirstIn(Emit(p, r, c, nl, nk), p, p + 1)
  {
  }

  /** A run whose first endpoints lie in `[base, lo)` followed by one whose
      first endpoints lie in `[lo, hi)` has all of them in `[base, hi)`. */
  lemma ConcatBelow(prev: seq<Edge>, here: seq<Edge>, base: int, lo: int, hi: int)
    requires base <= lo <= hi
    requires FirstIn(prev, base, lo) && FirstIn(here, lo, hi)
    ensures FirstIn(prev + here, base, hi)
  {
    var s := prev + here;
    forall i | 0 <= i < |s| ensures base <= s[i].a < hi {
      if i >= |prev| {
        assert s[i] == here[i - |prev|];
      }
    }
  }

  /** Two runs holding exactly the neighbour pairs with first endpoint in
      the adjacent ranges `[base, lo)` and `[lo, hi)` together hold exactly
      those with first endpoint in `[base, hi)`. */
  lemma ConcatMembers(prev: seq<Edge>, here: seq<Edge>, base: int, lo: int, hi: int, nl: nat, nk: nat)
    requires nk >= 1 && base <= lo <= hi
    requires Holds(prev, base, lo, nl, nk) && Holds(here, lo, hi, nl, nk)
    ensures Holds(prev + here, base, hi, nl, nk)
  {
    forall e: Edge ensures e in prev + here <==> base <= e.a < hi && Neighbours(e, nl, nk) {
      assert e in prev + here <==> e in prev || e in here;
    }
  }

  lemma {:induction false} FlatFirst(bs: seq<seq<Edge>>, n: nat)
    requires n <= |bs|
    requires forall k :: 0 <= k < n ==> FirstIn(bs[k], k, k + 1)
    ensures FirstIn(Flat(bs, n), 0, n)
  {
    if n > 0 {
      FlatFirst(bs, n - 1);
      ConcatBelow(Flat(bs, n - 1), bs[n - 1], 0, n - 1, n);
    }
  }

  lemma {:induction false} FlatOrdered(bs: seq<seq<Edge>>, n: nat, nk: nat)
    requires nk >= 1 && n <= |bs|
    requires forall k :: 0 <= k < n ==> FirstIn(bs[k], k, k + 1) && Ordered(bs[k], nk)
    ensures Ordered(Flat(bs, n), nk)
  {
    if n > 0 {
      FlatOrdered(bs, n - 1, nk);
      FlatFirst(bs, n - 1);
      OrderedSplit(Flat(bs, n - 1), bs[n - 1], nk, 0, n - 1, n);
    }
  }

  lemma {:induction false} FlatHolds(bs: seq<seq<Edge>>, n: nat, nl: nat, nk: nat)
    requires nk >= 1 && n <= |bs|
    requires forall k :: 0 <= k < n ==> Holds(bs[k], k, k + 1, nl, nk)
    ensures Holds(Flat(bs, n), 0, n, nl, nk)
  {
    if n > 0 {
      FlatHolds(bs, n - 1, nl, nk);
      ConcatMembers(Flat(bs, n - 1), bs[n - 1], 0, n - 1, n, nl, nk);
    }
  }

  lemma {:induction false} FlatMono(bs: seq<seq<Edge>>, m: nat, n: nat)
    requires m <= n <= |bs|
    ensures |Flat(bs, m)| <= |Flat(bs, n)|
    decreases n
  {
    if m < n {
      FlatMono(bs, m, n - 1);
    }
  }

  /** What pixel `k` emits, stated without its row and column. */
  lemma BlockSpec(nl: nat, nk: nat, k: nat)
    requires nk >= 1 && k < RowStart(nl, nk)
    ensures Blocks(nl, nk)[k] == Emit(k, Row(k, nk), Col(k, nk), nl, nk)
    ensures Holds(Blocks(nl, nk)[k], k, k + 1, nl, nk)
    ensures FirstIn(Blocks(nl, nk)[k], k, k + 1) && Ordered(Blocks(nl, nk)[k], nk)
  {
    PixelBlockAt(RowStart(nl, nk), k, nl, nk);
    RowColSplit(k, nk);
    RowBelow(k, nl, nk);
    EmitSpec(k, Row(k, nk), Col(k, nk), nl, nk);
    EmitNeighbours(k, Row(k, nk), Col(k, nk), nl, nk);
    EmitFirst(k, Row(k, nk), Col(k, nk), nl, nk);
  }

  /** The connection list holds exactly the neighbour pairs of the grid. */
  lemma EdgeListNeighbours(nl: nat, nk: nat)
    requires nk >= 1
    ensures forall e :: e in EdgeList(nl, nk) <==> Neighbours(e, nl, nk)
  {
    var bs, np := Blocks(nl, nk), RowStart(nl, nk);
    forall k | 0 <= k < np ensures Holds(bs[k], k, k + 1, nl, nk) {
      BlockSpec(nl, nk, k);
    }
    FlatHolds(bs, np, nl, nk);
    forall e: Edge | Neighbours(e, nl, nk) ensures e.a < np {
      RowBelow(e.a, nl, nk);
    }
  }

  /** The connection list is sorted by first endpoint, and at one first
      endpoint comes right, down, down-left, down-right; so no pair occurs
      twice. */
  lemma EdgeListOrdered(nl: nat, nk: nat)
    requires nk >= 1
    ensures Ordered(EdgeList(nl, nk), nk)
    ensures forall i, j :: 0 <= i < j < |EdgeList(nl, nk)| ==>
              EdgeList(nl, nk)[i].a <= EdgeList(nl, nk)[j].a && EdgeList(nl, nk)[i] != EdgeList(nl, nk)[j]
  {
    var bs, np := Blocks(nl, nk), RowStart(nl, nk);
    forall k | 0 <= k < np ensures FirstIn(bs[k], k, k + 1) && Ordered(bs[k], nk) {
      BlockSpec(nl, nk, k);
    }
    FlatOrdered(bs, np, nk);
  }

  /** Connections contributed by the first `c` pixels of row `r`. */
  function RowPart(r: nat, c: nat, nl: nat, nk: nat): int {
    if r < nl - 1 then (if c == 0 then 0 else if c < nk then 4 * c - 1 else 4 * nk - 3)
    else (if c < nk then c else nk - 1)
  }

  /** How many connections the pixel in row `r`, column `c` emits. */
  function EmitCount(r: nat, c: nat, nl: nat, nk: nat): nat {
    (if c != nk - 1 then 1 else 0) +
    (if r < nl - 1 then 1 + (if c != 0 then 1 else 0) + (if c != nk - 1 then 1 else 0) else 0)
  }

  /** The flat index `RowStart(r, nk) + c` of the pixel in row `r`, column
      `c`, as a function so that quantifiers over rows and columns have a
      term to trigger on. */
  function Pixel(r: nat, c: nat, nk: nat): nat {
    RowStart(r, nk) + c
  }

  /** Every row but the last contributes `4 Nk - 3` connections, so the
      pixels before row `r`, column `c` emit `RowStart(r, 4 Nk - 3)` plus
      the part of row `r` before column `c`. */
  lemma {:induction false} FlatCount(bs: seq<seq<Edge>>, r: nat, c: nat, nl: nat, nk: nat)
    requires nk >= 1 && r < nl && c <= nk && |bs| == RowStart(nl, nk)
    requires forall r': nat, c': nat :: r' < nl && c' < nk ==> Pixel(r', c', nk) < |bs| && |bs[Pixel(r', c', nk)]| == EmitCount(r', c', nl, nk)
    ensures Pixel(r, c, nk) <= |bs|
    ensures |Flat(bs, Pixel(r, c, nk))| == RowStart(r, 4 * nk - 3) + RowPart(r, c, nl, nk)
    decreases r, c
  {
    Disparity.TimesMono(r + 1, nl, nk);
    if c > 0 {
      var p := Pixel(r, c - 1, nk);
      FlatCount(bs, r, c - 1, nl, nk);
      assert |bs[p]| == EmitCount(r, c - 1, nl, nk);
      assert Pixel(r, c, nk) == p + 1;
      RowPartStep(r, c - 1, nl, nk);
    } else if r > 0 {
      FlatCount(bs, r - 1, nk, nl, nk);
      assert RowStart(r, nk) == RowStart(r - 1, nk) + nk;
      assert RowStart(r, 4 * nk - 3) == RowStart(r - 1, 4 * nk - 3) + (4 * nk - 3);
    }
  }

  lemma RowPartStep(r: nat, c: nat, nl: nat, nk: nat)
    requires nk >= 1 && r < nl && c < nk
    ensures RowPart(r, c + 1, nl, nk) == RowPart(r, c, nl, nk) + EmitCount(r, c, nl, nk)
  {
  }

  lemma EmitLength(p: nat, r: nat, c: nat, nl: nat, nk: nat)
    requires nk >= 1
    ensures |Emit(p, r, c, nl, nk)| == EmitCount(r, c, nl, nk)
  {
  }

  lemma ListLength(nl: nat, nk: nat)
    requires nl >= 1 && nk >= 1
    ensures |EdgeList(nl, nk)| == RowStart(nl - 1, 4 * nk - 3) + nk - 1
  {
    var bs := Blocks(nl, nk);
    forall r: nat, c: nat | r < nl && c < nk ensures Pixel(r, c, nk) < |bs| && |bs[Pixel(r, c, nk)]| == EmitCount(r, c, nl, nk) {
      var p := Pixel(r, c, nk);
      Disparity.TimesMono(r + 1, nl, nk);
      RowColAt(p, r, c, nk);
      PixelBlockAt(RowStart(nl, nk), p, nl, nk);
      EmitLength(p, r, c, nl, nk);
    }
    FlatCount(bs, nl - 1, nk, nl, nk);
    assert RowStart(nl, nk) == Pixel(nl - 1, nk, nk);
  }

  /** The loop emits exactly `Ncon` connections: every preallocated slot is
      filled and none is written twice. */
  lemma EdgeCount(nl: nat, nk: nat)
    requires nl >= 1 && nk >= 1
    ensures |EdgeList(nl, nk)| == SlotCount(nl, nk)
  {
    ListLength(nl, nk);
    Disparity.TimesIsProduct(nl - 1, 4 * nk - 3);
    SlotCountByRows(nl, nk);
  }

  /** `(p + 1) % Nk` is nonzero exactly off the last column. */
  lemma LastColumnTest(p: nat, r: nat, c: nat, nk: nat)
    requires nk >= 1 && c < nk && p == RowStart(r, nk) + c
    ensures (p + 1) % nk != 0 <==> c != nk - 1
  {
    RowColDivMod(p + 1, nk);
    if c == nk - 1 {
      RowColAt(p + 1, r + 1, 0, nk);
    } else {
      RowColAt(p + 1, r, c + 1, nk);
    }
  }

  /** `p % Nk` is nonzero exactly off the first column. */
  lemma FirstColumnTest(p: nat, r: nat, c: nat, nk: nat)
    requires nk >= 1 && c < nk && p == RowStart(r, nk) + c
    ensures p % nk != 0 <==> c != 0
  {
    RowColDivMod(p, nk);
    RowColAt(p, r, c, nk);
  }

  /** `p < Nk * (Nl - 1)` holds exactly off the last row. */
  lemma LastRowTest(p: nat, r: nat, c: nat, nl: nat, nk: nat)
    requires nk >= 1 && c < nk && r < nl && p == RowStart(r, nk) + c
    ensures p < nk * (nl - 1) <==> r < nl - 1
  {
    var below := nl - 1;
    RowColAt(p, r, c, nk);
    RowBelow(p, below, nk);
    Disparity.TimesIsProduct(below, nk);
    assert RowStart(below, nk) == nk * below;
    assert p < RowStart(below, nk) <==> r < below;
  }

  /** The tests `generate_xyz_mesh` makes on the flat index `p` of the pixel
      in row `r`, column `c`: `(p + 1) % Nk` is nonzero off the last column,
      `p % Nk` is nonzero off the first column, and `p < Nk * (Nl - 1)`
      holds off the last row. */
  lemma SourceTests(p: nat, r: nat, c: nat, nl: nat, nk: nat)
    requires nk >= 1 && c < nk && r < nl && p == RowStart(r, nk) + c
    ensures p == r * nk + c
    ensures (p + 1) % nk != 0 <==> c != nk - 1
    ensures p % nk != 0 <==> c != 0
    ensures p < nk * (nl - 1) <==> r < nl - 1
  {
    Disparity.TimesIsProduct(r, nk);
    LastColumnTest(p, r, c, nk);
    FirstColumnTest(p, r, c, nk);
    LastRowTest(p, r, c, nl, nk);
  }

  /** The offset between the endpoints of a neighbour pair, by direction. */
  lemma EdgeOffsets(e: Edge, nl: nat, nk: nat)
    requires nk >= 1 && Neighbours(e, nl, nk)
    ensures e.a == RowStart(Row(e.a, nk), nk) + Col(e.a, nk)
    ensures Direction(e, nk) == 0 ==> e.b == e.a + 1 && Col(e.a, nk) != nk - 1
    ensures Direction(e, nk) == 1 ==> e.b == e.a + nk && Row(e.a, nk) < nl - 1
    ensures Direction(e, nk) == 2 ==> e.b == e.a + nk - 1 && Col(e.a, nk) != 0 && Row(e.a, nk) < nl - 1
    ensures Direction(e, nk) == 3 ==> e.b == e.a + nk + 1 && Col(e.a, nk) != nk - 1 && Row(e.a, nk) < nl - 1
  {
    RowColSplit(e.a, nk);
    RowColSplit(e.b, nk);
    if Row(e.b, nk) != Row(e.a, nk) {
      assert RowStart(Row(e.b, nk), nk) == RowStart(Row(e.a, nk), nk) + nk;
    }
  }

  /** The shape of a connection, in the source's own tests: it joins two
      distinct pixels of the grid, the second after the first, at offset 1
      (right, not from the last column), `Nk` (down, not from the last row),
      `Nk - 1` (down-left, not from the first column) or `Nk + 1`
      (down-right, neither from the last column nor the last row). */
  lemma EdgeShape(e: Edge, nl: nat, nk: nat)
    requires nk >= 1 && Neighbours(e, nl, nk)
    ensures e.a < e.b < nl * nk
    ensures Direction(e, nk) == 0 ==> e.b == e.a + 1 && (e.a + 1) % nk != 0
    ensures Direction(e, nk) == 1 ==> e.b == e.a + nk && e.a < nk * (nl - 1)
    ensures Direction(e, nk) == 2 ==> e.b == e.a + nk - 1 && e.a % nk != 0 && e.a < nk * (nl - 1)
    ensures Direction(e, nk) == 3 ==> e.b == e.a + nk + 1 && (e.a + 1) % nk != 0 && e.a < nk * (nl - 1)
  {
    EdgeOffsets(e, nl, nk);
    SourceTests(e.a, Row(e.a, nk), Col(e.a, nk), nl, nk);
    assert e.b < nl * nk by {
      RowBelow(e.b, nl, nk);
      Disparity.TimesIsProduct(nl, nk);
    }
  }

  /** The connections of each pixel of a 2 x 2 grid. */
  lemma TwoByTwoPixels()
    ensures Emit(0, 0, 0, 2, 2) == [Edge(0, 1), Edge(0, 2), Edge(0, 3)]
    ensures Emit(1, 0, 1, 2, 2) == [Edge(1, 3), Edge(1, 2)]
    ensures Emit(2, 1, 0, 2, 2) == [Edge(2, 3)]
    ensures Emit(3, 1, 1, 2, 2) == []
  {
  }

  lemma TwoByTwoBlocks()
    ensures Blocks(2, 2) == [[Edge(0, 1), Edge(0, 2), Edge(0, 3)], [Edge(1, 3), Edge(1, 2)], [Edge(2, 3)], []]
  {
    TwoByTwoPixels();
    assert RowStart(2, 2) == 4;
  }

  /** The list for a 2 x 2 grid: pixel 0 connects right, down and
      down-right, pixel 1 down and down-left, pixel 2 right. */
  lemma TwoByTwo()
    ensures EdgeList(2, 2) == [Edge(0, 1), Edge(0, 2), Edge(0, 3), Edge(1, 3), Edge(1, 2), Edge(2, 3)]
    ensures SlotCount(2, 2) == 6
  {
    TwoByTwoBlocks();
    assert Flat([[Edge(0, 1), Edge(0, 2), Edge(0, 3)], [Edge(1, 3), Edge(1, 2)], [Edge(2, 3)], []], 4)
        == [Edge(0, 1), Edge(0, 2), Edge(0, 3), Edge(1, 3), Edge(1, 2), Edge(2, 3)];
  }

  /** `con` has dtype `uint16`: a stored index is reduced modulo 2^16. */
  const Uint16Modulus: nat := 0x1_0000

  function Store(e: Edge): Edge {
    Edge(e.a % Uint16Modulus, e.b % Uint16Modulus)
  }

  function StoreAll(s: seq<Edge>): (t: seq<Edge>)
    ensures |t| == |s|
    ensures forall i :: 0 <= i < |s| ==> t[i] == Store(s[i])
  {
    seq(|s|, i requires 0 <= i < |s| => Store(s[i]))
  }

  /** On grids of at most 2^16 pixels every index fits in `uint16`, and the
      stored list is the connection list itself. */
  lemma StoredExactly(nl: nat, nk: nat)
    requires nk >= 1 && nl * nk <= Uint16Modulus
    ensures StoreAll(EdgeList(nl, nk)) == EdgeList(nl, nk)
  {
    var s := EdgeList(nl, nk);
    EdgeListNeighbours(nl, nk);
    forall i | 0 <= i < |s| ensures Store(s[i]) == s[i] {
      assert s[i] in s;
      StoreFits(s[i], nl, nk);
    }
  }

  lemma StoreFits(e: Edge, nl: nat, nk: nat)
    requires nk >= 1 && nl * nk <= Uint16Modulus && Neighbours(e, nl, nk)
    ensures Store(e) == e
  {
    EdgeShape(e, nl, nk);
    SmallResidue(e.a);
    SmallResidue(e.b);
  }

  lemma SmallResidue(x: nat)
    requires x < Uint16Modulus
    ensures x % Uint16Modulus == x
  {
  }

  /** `Ncon` counted row by row: `4 Nk - 3` connections from each row but the
      last, `Nk - 1` from the last. */
  lemma SlotCountByRows(nl: nat, nk: nat)
    requires nk >= 1
    ensures SlotCount(nl, nk) == (nl - 1) * (4 * nk - 3) + nk - 1
  {
    assert 4 * (nk - 1) * (nl - 1) == (nl - 1) * (4 * nk - 3) - (nl - 1);
  }

  /** A grid with one side zero and the other not has a negative `Ncon`. */
  lemma EmptySide(nl: nat, nk: nat)
    requires nl == 0 || nk == 0
    ensures SlotCount(nl, nk) >= 0 <==> nl == 0 && nk == 0
  {
    if nl == 0 {
      assert SlotCount(nl, nk) == 2 - 3 * nk;
    } else {
      assert SlotCount(nl, nk) == 2 - 3 * nl;
    }
  }

  /** Writes connection `e`, as `uint16`, into slot `i`. */
  method Put(con: seq<Edge>, i: nat, e: Edge, ghost s: seq<Edge>) returns (con': seq<Edge>, i': nat)
    requires i < |con| && con[..i] == StoreAll(s)
    ensures |con'| == |con| && i' == i + 1
    ensures con'[..i'] == StoreAll(s + [e])
  {
    con', i' := con[i := Store(e)], i + 1;
    assert con'[..i'] == con[..i] + [Store(e)];
  }

  /** Writes `e` into slot `i` when `keep` holds. */
  method PutIf(con: seq<Edge>, i: nat, keep: bool, e: Edge, ghost s: seq<Edge>) returns (con': seq<Edge>, i': nat)
    requires i <= |con| && con[..i] == StoreAll(s) && |s + Maybe(keep, e)| <= |con|
    ensures |con'| == |con| && i' <= |con'|
    ensures con'[..i'] == StoreAll(s + Maybe(keep, e))
  {
    con', i' := con, i;
    if keep {
      con', i' := Put(con, i, e, s);
    } else {
      assert s + Maybe(keep, e) == s;
    }
  }

  /** The connections of pixel `p` into the row below: down, then down-left
      when `keepLeft`, then down-right when `keepRight`. */
  method PutLower(con: seq<Edge>, i: nat, p: nat, nk: nat, keepLeft: bool, keepRight: bool, ghost s: seq<Edge>)
    returns (con': seq<Edge>, i': nat)
    requires nk >= 1 && i <= |con| && con[..i] == StoreAll(s)
    requires |s + Lower(p, nk, keepLeft, keepRight)| <= |con|
    ensures |con'| == |con| && i' <= |con'|
    ensures con'[..i'] == StoreAll(s + Lower(p, nk, keepLeft, keepRight))
  {
    var down, downLeft, downRight := Edge(p, p + nk), Edge(p, p + nk - 1), Edge(p, p + nk + 1);
    ghost var s1 := s + [down];
    ghost var s2 := s1 + Maybe(keepLeft, downLeft);
    assert s2 + Maybe(keepRight, downRight) == s + Lower(p, nk, keepLeft, keepRight);
    con', i' := Put(con, i, down, s);
    con', i' := PutIf(con', i', keepLeft, downLeft, s1);
    con', i' := PutIf(con', i', keepRight, downRight, s2);
  }

  /** One pass of `generate_xyz_mesh`'s loop body, at pixel `p` in row `r`,
      column `c`: it writes the connections of `p`, in the source's order and
      under the source's tests, into the slots from `i` on. */
  method EmitPixel(con: seq<Edge>, i: nat, p: nat, nl: nat, nk: nat, ghost r: nat, ghost c: nat, ghost done: seq<Edge>)
    returns (con': seq<Edge>, i': nat)
    requires nk >= 1 && r < nl && c < nk && p == RowStart(r, nk) + c
    requires i <= |con| && con[..i] == StoreAll(done)
    requires |done + Emit(p, r, c, nl, nk)| <= |con|
    ensures |con'| == |con| && i' <= |con'|
    ensures con'[..i'] == StoreAll(done + Emit(p, r, c, nl, nk))
  {
    var notLastColumn, notLastRow, notFirstColumn := (p + 1) % nk != 0, p < nk * (nl - 1), p % nk != 0;
    assert notLastColumn == (c != nk - 1) && notLastRow == (r < nl - 1) && notFirstColumn == (c != 0) by {
      SourceTests(p, r, c, nl, nk);
    }
    ghost var s1 := done + Maybe(notLastColumn, Edge(p, p + 1));
    EmitSplit(p, r, c, nl, nk, done);
    con', i' := PutIf(con, i, notLastColumn, Edge(p, p + 1), done);
    if notLastRow {
      con', i' := PutLower(con', i', p, nk, notFirstColumn, notLastColumn, s1);
    }
  }

  /** Pixel `p` appends its own connections to those of the pixels before. */
  lemma FlatStep(nl: nat, nk: nat, p: nat)
    requires nk >= 1 && p < RowStart(nl, nk)
    ensures Row(p, nk) < nl && p == RowStart(Row(p, nk), nk) + Col(p, nk)
    ensures Flat(Blocks(nl, nk), p + 1) == Flat(Blocks(nl, nk), p) + Emit(p, Row(p, nk), Col(p, nk), nl, nk)
    ensures |Flat(Blocks(nl, nk), p + 1)| <= |EdgeList(nl, nk)|
  {
    PixelBlockAt(RowStart(nl, nk), p, nl, nk);
    RowColSplit(p, nk);
    RowBelow(p, nl, nk);
    FlatMono(Blocks(nl, nk), p + 1, RowStart(nl, nk));
  }

  /** `Nl * Nk`, the number of pixels the loop visits. */
  method PixelCount(nl: nat, nk: nat) returns (np: nat)
    ensures np == RowStart(nl, nk)
  {
    np := nl * nk;
    Disparity.TimesIsProduct(nl, nk);
  }

  /** One iteration of `generate_xyz_mesh`'s loop, at pixel `p`: the slots
      written so far grow from the connections of the pixels before `p` to
      those of the pixels up to `p`. */
  method FillPixel(con: seq<Edge>, i: nat, p: nat, nl: nat, nk: nat) returns (con': seq<Edge>, i': nat)
    requires nk >= 1 && p < RowStart(nl, nk)
    requires |con| == |EdgeList(nl, nk)| && i <= |con|
    requires con[..i] == StoreAll(Flat(Blocks(nl, nk), p))
    ensures |con'| == |con| && i' <= |con'|
    ensures con'[..i'] == StoreAll(Flat(Blocks(nl, nk), p + 1))
  {
    FlatStep(nl, nk, p);
    con', i' := EmitPixel(con, i, p, nl, nk, Row(p, nk), Col(p, nk), Flat(Blocks(nl, nk), p));
  }

  /** `generate_xyz_mesh`'s loop `for p in range(Nl*Nk)` over the pixels of
      a non-empty grid, filling the preallocated rows of `con`; `i` is the
      next row to write. */
  method FillEdges(con: seq<Edge>, nl: nat, nk: nat) returns (con': seq<Edge>)
    requires nl >= 1 && nk >= 1 && |con| == |EdgeList(nl, nk)|
    ensures con' == StoreAll(EdgeList(nl, nk))
  {
    var np := PixelCount(nl, nk);
    var i: nat, p: nat := 0, 0;
    con' := con;
    while p < np
      invariant p <= np && |con'| == |con| && i <= |con'|
      invariant con'[..i] == StoreAll(Flat(Blocks(nl, nk), p))
    {
      con', i := FillPixel(con', i, p, nl, nk);
      p := p + 1;
    }
    FilledAll(con', i, nl, nk);
  }

  /** Once every pixel is visited, every slot is written. */
  lemma FilledAll(con: seq<Edge>, i: nat, nl: nat, nk: nat)
    requires nk >= 1 && |con| == |EdgeList(nl, nk)| && i <= |con|
    requires con[..i] == StoreAll(Flat(Blocks(nl, nk), RowStart(nl, nk)))
    ensures con == StoreAll(EdgeList(nl, nk))
  {
    assert con[..i] == con;
  }

  /** `generate_xyz_mesh`'s connection list. `numpy.zeros` refuses the
      negative row count `Ncon` of a grid with exactly one dimension zero;
      the empty grid gets two rows that the loop never reaches. */
  method GenerateEdges(nl: nat, nk: nat) returns (r: Result<seq<Edge>>)
    ensures r.Err? <==> SlotCount(nl, nk) < 0
    ensures r.Ok? ==> |r.value| == SlotCount(nl, nk)
    ensures nl >= 1 && nk >= 1 ==> r == Ok(StoreAll(EdgeList(nl, nk)))
    ensures nl == 0 && nk == 0 ==> r == Ok([Edge(0, 0), Edge(0, 0)])
  {
    var ncon := SlotCount(nl, nk);
    if ncon < 0 {
      if nl >= 1 && nk >= 1 {
        EdgeCount(nl, nk);
        assert false;
      }
      return Err("negative dimensions are not allowed");
    }
    var con := seq(ncon, _ => Edge(0, 0));
    if nl == 0 || nk == 0 {
      assert nl == 0 && nk == 0 by { EmptySide(nl, nk); }
      assert con == [Edge(0, 0), Edge(0, 0)];
      return Ok(con);
    }
    assert |con| == |EdgeList(nl, nk)| by { EdgeCount(nl, nk); }
    con := FillEdges(con, nl, nk);
    return Ok(con);
  }
}
