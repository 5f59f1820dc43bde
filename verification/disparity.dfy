/** The disparity image the mesh is built from, and its strided decimation
    (`disparity[::sub, ::sub]`). */
module Disparity {

  /** A `rows x cols` array of disparity readings; `cell[r][c]` is row `r`,
      column `c`. The shape is carried explicitly, as a numpy array carries it
      even when it has no rows. */
  datatype Grid = Grid(rows: nat, cols: nat, cell: seq<seq<real>>) {
    predicate Valid() {
      |cell| == rows && forall r :: 0 <= r < rows ==> |cell[r]| == cols
    }
  }

  lemma MulMono(a: int, b: int, s: nat)
    requires a <= b
    ensures a * s <= b * s
  {
  }

  /** Division by `cols` recovers row and column from `r * cols + c`. */
  lemma DivMod(r: nat, c: nat, cols: nat)
    requires c < cols
    ensures 0 <= r * cols + c
    ensures (r * cols + c) / cols == r && (r * cols + c) % cols == c
  {
    var k := r * cols + c;
    var q, m := k / cols, k % cols;
    assert (r - q) * cols == m - c;
    if r - q >= 1 {
      MulMono(1, r - q, cols);
      assert false;
    } else if r - q <= -1 {
      MulMono(r - q, -1, cols);
      assert false;
    }
  }

  /** `a * b`, counted up `b` at a time. Offsets of the form `i * sub`
      (the `i`-th kept index of a strided slice) and `r * w` (the first
      index of row `r` of a row-major layout `w` wide) are written with it,
      which keeps the proofs about them linear; `TimesIsProduct` ties it to
      the product. */
  function Times(a: nat, b: nat): nat {
    if a == 0 then 0 else Times(a - 1, b) + b
  }

  lemma {:induction false} TimesIsProduct(a: nat, b: nat)
    ensures Times(a, b) == a * b
  {
    if a > 0 {
      TimesIsProduct(a - 1, b);
      assert (a - 1) * b + b == a * b;
    }
  }

  lemma {:induction false} TimesMono(a: nat, a': nat, b: nat)
    requires a <= a'
    ensures Times(a, b) <= Times(a', b)
    decreases a'
  {
    if a < a' {
      TimesMono(a, a' - 1, b);
    }
  }

  /** The index of the first pixel of row `r` on a grid `w` pixels wide,
      `r * w`. */
  function RowStart(r: nat, w: nat): nat {
    Times(r, w)
  }

  /** Row of pixel `x` on a grid `nk` pixels wide. */
  function Row(x: nat, nk: nat): nat
    requires nk >= 1
    decreases x
  {
    if x < nk then 0 else 1 + Row(x - nk, nk)
  }

  /** Column of pixel `x` on a grid `nk` pixels wide. */
  function Col(x: nat, nk: nat): (c: nat)
    requires nk >= 1
    ensures c < nk
    decreases x
  {
    if x < nk then x else Col(x - nk, nk)
  }

  lemma {:induction false} RowColSplit(x: nat, nk: nat)
    requires nk >= 1
    ensures x == RowStart(Row(x, nk), nk) + Col(x, nk)
    decreases x
  {
    if x >= nk {
      RowColSplit(x - nk, nk);
    }
  }

  lemma {:induction false} RowColOf(r: nat, c: nat, nk: nat)
    requires nk >= 1 && c < nk
    ensures Row(RowStart(r, nk) + c, nk) == r && Col(RowStart(r, nk) + c, nk) == c
  {
    if r > 0 {
      RowColOf(r - 1, c, nk);
    }
  }

  lemma RowColAt(p: nat, r: nat, c: nat, nk: nat)
    requires nk >= 1 && c < nk && p == RowStart(r, nk) + c
    ensures Row(p, nk) == r && Col(p, nk) == c
  {
    RowColOf(r, c, nk);
  }

  /** `Row` and `Col` are the quotient and remainder the source computes. */
  lemma RowColDivMod(x: nat, nk: nat)
    requires nk >= 1
    ensures Row(x, nk) == x / nk && Col(x, nk) == x % nk
  {
    RowColSplit(x, nk);
    TimesIsProduct(Row(x, nk), nk);
    DivMod(Row(x, nk), Col(x, nk), nk);
  }

  /** A pixel lies in the first `nl` rows exactly when its index is below
      `nl * nk`. */
  lemma RowBelow(x: nat, nl: nat, nk: nat)
    requires nk >= 1
    ensures Row(x, nk) < nl <==> x < RowStart(nl, nk)
  {
    RowColSplit(x, nk);
    var r := Row(x, nk);
    if r < nl {
      TimesMono(r + 1, nl, nk);
    } else {
      TimesMono(nl, r, nk);
    }
  }

  /** An index below `RowStart(rows, cols)` is a cell of a `rows` by `cols` grid. */
  lemma CellIndex(k: nat, rows: nat, cols: nat)
    requires k < RowStart(rows, cols)
    ensures cols >= 1 && Row(k, cols) < rows
  {
    TimesIsProduct(rows, cols);
    RowBelow(k, rows, cols);
  }

  /** Row-major flattening: cell `(r, c)` of a grid with `cols` columns is
      element `r * cols + c`, and that index gives back its row and column. */
  lemma RowMajor(r: nat, c: nat, rows: nat, cols: nat)
    requires r < rows && c < cols
    ensures r * cols + c < rows * cols
    ensures Row(r * cols + c, cols) == r && Col(r * cols + c, cols) == c
  {
    MulMono(r + 1, rows, cols);
    TimesIsProduct(r, cols);
    RowColAt(r * cols + c, r, c, cols);
  }

  /** Every index below `rows * cols` is the flattening of a cell. */
  lemma RowMajorInverse(k: nat, rows: nat, cols: nat)
    requires k < rows * cols
    ensures cols >= 1 && Row(k, cols) < rows && k == Row(k, cols) * cols + Col(k, cols)
  {
    RowColSplit(k, cols);
    TimesIsProduct(Row(k, cols), cols);
    TimesIsProduct(rows, cols);
    RowBelow(k, rows, cols);
  }

  /** The length of the slice `[::sub]` of an axis of length `n`: the least
      `k` with `k * sub >= n`, that is, the ceiling of `n / sub`. */
  function StridedLength(n: nat, sub: nat): (k: nat)
    requires sub >= 1
    ensures n <= Times(k, sub)
    ensures k > 0 ==> Times(k - 1, sub) < n
    decreases n
  {
    if n == 0 then 0
    else if n <= sub then 1
    else 1 + StridedLength(n - sub, sub)
  }

  /** Position `i` of the slice `[::sub]` exists exactly when index
      `i * sub` lies on the axis. */
  lemma StridedIndex(n: nat, sub: nat, i: nat)
    requires sub >= 1
    ensures i < StridedLength(n, sub) <==> Times(i, sub) < n
  {
    var k := StridedLength(n, sub);
    if i < k {
      TimesMono(i, k - 1, sub);
    } else {
      TimesMono(k, i, sub);
    }
  }

  lemma KeptIndices(n: nat, sub: nat)
    requires sub >= 1
    ensures forall i: nat :: i < StridedLength(n, sub) ==> Times(i, sub) < n
  {
    forall i: nat | i < StridedLength(n, sub) ensures Times(i, sub) < n { StridedIndex(n, sub, i); }
  }

  /** Row `i * sub` of `g`, every `sub`-th column of it. */
  function StridedRow(g: Grid, sub: nat, i: nat): (row: seq<real>)
    requires g.Valid() && sub >= 1 && Times(i, sub) < g.rows
    ensures |row| == StridedLength(g.cols, sub)
    ensures forall j :: 0 <= j < |row| ==> Times(j, sub) < g.cols && row[j] == g.cell[Times(i, sub)][Times(j, sub)]
  {
    var nc := StridedLength(g.cols, sub);
    KeptIndices(g.cols, sub);
    seq(nc, j requires 0 <= j < nc => g.cell[Times(i, sub)][Times(j, sub)])
  }

  /** `disparity[::sub, ::sub]`: cell `(i, j)` of the result is cell
      `(i * sub, j * sub)` of the original, and the result has one row per
      multiple of `sub` below `rows` and one column per multiple of `sub`
      below `cols`. */
  function Subsample(g: Grid, sub: nat): (h: Grid)
    requires g.Valid() && sub >= 1
    ensures h.Valid()
    ensures h.rows == StridedLength(g.rows, sub) && h.cols == StridedLength(g.cols, sub)
    ensures forall i, j :: 0 <= i < h.rows && 0 <= j < h.cols ==>
              Times(i, sub) < g.rows && Times(j, sub) < g.cols && h.cell[i][j] == g.cell[Times(i, sub)][Times(j, sub)]
  {
    var rows := StridedRows(g, sub);
    Grid(|rows|, StridedLength(g.cols, sub), rows)
  }

  /** A cell whose row and column are multiples of `sub` survives the
      decimation, at the quotients. */
  lemma SubsampleCell(g: Grid, sub: nat, i: nat, j: nat)
    requires g.Valid() && sub >= 1 && Times(i, sub) < g.rows && Times(j, sub) < g.cols
    ensures var h := Subsample(g, sub);
            i < h.rows && j < h.cols && h.cell[i][j] == g.cell[Times(i, sub)][Times(j, sub)]
  {
    StridedIndex(g.rows, sub, i);
    StridedIndex(g.cols, sub, j);
  }

  /** Rows `0, sub, 2 * sub, ...` of `g`, each strided. */
  function StridedRows(g: Grid, sub: nat): (rows: seq<seq<real>>)
    requires g.Valid() && sub >= 1
    ensures |rows| == StridedLength(g.rows, sub)
    ensures forall i :: 0 <= i < |rows| ==> Times(i, sub) < g.rows && rows[i] == StridedRow(g, sub, i)
  {
    var nr := StridedLength(g.rows, sub);
    KeptIndices(g.rows, sub);
    seq(nr, i requires 0 <= i < nr => StridedRow(g, sub, i))
  }
}
