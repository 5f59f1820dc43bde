/** The residual functions handed to the least-squares solver: `fitfunc`,
    its companion `devfunc`, and `errfunc`. A matrix `M` with `2 Ned + 3`
    columns holds two columns per connection and three anchor columns. */
module Residuals {
  import opened Linalg

  /** `Ned = (M.shape[1] - 3) / 2`, with Python 2 floor division. */
  function EdgeColumns(cols: nat): nat
    requires cols >= 3
  {
    (cols - 3) / 2
  }

  /** A matrix with `2n + 3` columns has `n` connection column pairs. */
  lemma EdgeColumnsOf(n: nat)
    ensures EdgeColumns(2 * n + 3) == n && (2 * n + 3) % 2 == 1
  {
  }

  /** The slice `s[start::2]`: the entries at `start`, `start + 2`, ... that
      lie inside `s`. */
  function EverySecond(s: seq<real>, start: nat): (r: seq<real>)
    decreases |s| - start
  {
    if start >= |s| then [] else [s[start]] + EverySecond(s, start + 2)
  }

  /** The slice `s[start::2]` has the ceiling of `(|s| - start) / 2`
      entries, and its entry `k` is `s[start + 2k]`. */
  lemma {:induction false} EverySecondAt(s: seq<real>, start: nat)
    ensures |EverySecond(s, start)| == if start >= |s| then 0 else (|s| - start + 1) / 2
    ensures forall k :: 0 <= k < |EverySecond(s, start)| ==>
              start + 2 * k < |s| && EverySecond(s, start)[k] == s[start + 2 * k]
    decreases |s| - start
  {
    if start < |s| {
      EverySecondAt(s, start + 2);
    }
  }

  /** `D[0:-3:2] + D[1:-3:2]` followed by `D[-3:]`: the first `(|d| - 3) / 2`
      entries add the two entries of a pair, and the last three copy the
      last three of `d`. */
  function PairSums(d: seq<real>): (r: seq<real>)
    requires |d| >= 3 && |d| % 2 == 1
    ensures |r| == (|d| - 3) / 2 + 3
    ensures forall k :: 0 <= k < (|d| - 3) / 2 ==> r[k] == d[2 * k] + d[2 * k + 1]
    ensures forall k :: (|d| - 3) / 2 <= k < |r| ==> r[k] == d[k + (|d| - 3) / 2]
  {
    var front := d[..|d| - 3];
    EverySecondAt(front, 0);
    EverySecondAt(front, 1);
    Add(EverySecond(front, 0), EverySecond(front, 1)) + d[|d| - 3..]
  }

  /** `fitfunc(u, M)`: with `D = dot(u, M) ** 2`, entry `k < Ned` adds the
      squares of the two columns of connection `k`, and the last three entries
      are the squares of the three anchor columns. `FitfuncSlices` proves this
      is the source's `D[0:-3:2] + D[1:-3:2]` followed by `D[-3:]`. */
  function Fitfunc(u: seq<real>, m: seq<seq<real>>, cols: nat): (r: seq<real>)
    requires IsMatrix(m, |u|, cols) && cols >= 3 && cols % 2 == 1
    ensures |r| == EdgeColumns(cols) + 3
    ensures forall k :: 0 <= k < |r| ==> r[k] >= 0.0
  {
    var ned := EdgeColumns(cols);
    var d := Squares(VecMat(u, m, cols));
    assert forall j :: 0 <= j < cols ==> d[j] >= 0.0 by {
      forall j | 0 <= j < cols ensures d[j] >= 0.0 {
        SqNonNegative(VecMat(u, m, cols)[j]);
      }
    }
    seq(ned + 3, k requires 0 <= k < ned + 3 => if k < ned then d[2 * k] + d[2 * k + 1] else d[2 * ned + (k - ned)])
  }

  /** `devfunc(u, M) = 2 * dot(u, M)`. */
  function Devfunc(u: seq<real>, m: seq<seq<real>>, cols: nat): (g: seq<real>)
    requires IsMatrix(m, |u|, cols)
    ensures |g| == cols
  {
    var w := VecMat(u, m, cols);
    seq(cols, j requires 0 <= j < cols => 2.0 * w[j])
  }

  /** `errfunc(u, M, d_x) = fitfunc(u, M) - d_x`. */
  function Errfunc(u: seq<real>, m: seq<seq<real>>, d: seq<real>, cols: nat): (e: seq<real>)
    requires IsMatrix(m, |u|, cols) && cols >= 3 && cols % 2 == 1
    requires |d| == EdgeColumns(cols) + 3
    ensures |e| == |d|
  {
    var r := Fitfunc(u, m, cols);
    seq(|d|, k requires 0 <= k < |d| => r[k] - d[k])
  }

  /** `fitfunc` is built as the source builds it: `R[:Ned]` is
      `D[0:-3:2] + D[1:-3:2]` and `R[-3:]` is `D[-3:]`. */
  lemma FitfuncSlices(u: seq<real>, m: seq<seq<real>>, cols: nat)
    requires IsMatrix(m, |u|, cols) && cols >= 3 && cols % 2 == 1
    ensures Fitfunc(u, m, cols) == PairSums(Squares(VecMat(u, m, cols)))
  {
    var r, p := Fitfunc(u, m, cols), PairSums(Squares(VecMat(u, m, cols)));
    assert |r| == |p|;
    forall k | 0 <= k < |r|
      ensures r[k] == p[k]
    {
    }
  }

  /** The connection entries of `fitfunc` in terms of the columns of `M`:
      entry `k` of the first `Ned` adds the squares of columns `2k` and
      `2k + 1` (`FitfuncAnchor` gives the last three). */
  lemma FitfuncEntries(u: seq<real>, m: seq<seq<real>>, cols: nat)
    requires IsMatrix(m, |u|, cols) && cols >= 3 && cols % 2 == 1
    ensures 2 * EdgeColumns(cols) + 3 == cols
    ensures forall k :: 0 <= k < EdgeColumns(cols) ==>
              Fitfunc(u, m, cols)[k] == Sq(Dot(u, Column(m, cols, 2 * k))) + Sq(Dot(u, Column(m, cols, 2 * k + 1)))
  {
    forall k | 0 <= k < EdgeColumns(cols)
      ensures Fitfunc(u, m, cols)[k] == Sq(Dot(u, Column(m, cols, 2 * k))) + Sq(Dot(u, Column(m, cols, 2 * k + 1)))
    {
      FitfuncEdge(u, m, cols, k);
    }
  }

  /** Entry `k < Ned` of `fitfunc` adds the squares of columns `2k` and `2k + 1`. */
  lemma FitfuncEdge(u: seq<real>, m: seq<seq<real>>, cols: nat, k: nat)
    requires IsMatrix(m, |u|, cols) && cols >= 3 && cols % 2 == 1 && k < EdgeColumns(cols)
    ensures 2 * k + 1 < cols
    ensures Fitfunc(u, m, cols)[k] == Sq(Dot(u, Column(m, cols, 2 * k))) + Sq(Dot(u, Column(m, cols, 2 * k + 1)))
  {
    FitfuncPair(u, m, cols, k);
    SquareOfColumn(u, m, cols, 2 * k);
    SquareOfColumn(u, m, cols, 2 * k + 1);
  }

  /** Entry `k < Ned` of `fitfunc` from the values `x` and `y` of `u`
      against columns `2k` and `2k + 1`. */
  lemma FitfuncPairOf(u: seq<real>, m: seq<seq<real>>, cols: nat, k: nat, x: real, y: real)
    requires IsMatrix(m, |u|, cols) && cols >= 3 && cols % 2 == 1 && k < EdgeColumns(cols)
    requires 2 * k + 1 < cols && Dot(u, Column(m, cols, 2 * k)) == x && Dot(u, Column(m, cols, 2 * k + 1)) == y
    ensures |Fitfunc(u, m, cols)| == EdgeColumns(cols) + 3
    ensures Fitfunc(u, m, cols)[k] == Sq(x) + Sq(y)
  {
    FitfuncEdge(u, m, cols, k);
  }

  lemma FitfuncPair(u: seq<real>, m: seq<seq<real>>, cols: nat, k: nat)
    requires IsMatrix(m, |u|, cols) && cols >= 3 && cols % 2 == 1 && k < EdgeColumns(cols)
    ensures 2 * k + 1 < cols
    ensures var d := Squares(VecMat(u, m, cols)); Fitfunc(u, m, cols)[k] == d[2 * k] + d[2 * k + 1]
  {
    assert 2 * EdgeColumns(cols) + 3 == cols;
  }

  /** Entry `Ned + t` of `fitfunc` is the square of anchor column `2 Ned + t`. */
  lemma FitfuncAnchor(u: seq<real>, m: seq<seq<real>>, cols: nat, t: nat)
    requires IsMatrix(m, |u|, cols) && cols >= 3 && cols % 2 == 1 && t < 3
    ensures 2 * EdgeColumns(cols) + 3 == cols
    ensures Fitfunc(u, m, cols)[EdgeColumns(cols) + t] == Sq(Dot(u, Column(m, cols, 2 * EdgeColumns(cols) + t)))
  {
    FitfuncLast(u, m, cols, t);
    SquareOfColumn(u, m, cols, 2 * EdgeColumns(cols) + t);
  }

  lemma FitfuncLast(u: seq<real>, m: seq<seq<real>>, cols: nat, t: nat)
    requires IsMatrix(m, |u|, cols) && cols >= 3 && cols % 2 == 1 && t < 3
    ensures 2 * EdgeColumns(cols) + 3 == cols
    ensures Fitfunc(u, m, cols)[EdgeColumns(cols) + t] == Squares(VecMat(u, m, cols))[2 * EdgeColumns(cols) + t]
  {
    assert 2 * EdgeColumns(cols) + 3 == cols;
  }

  /** Entry `j` of `devfunc(u, M)` from the value `x` of `u` against column `j`. */
  lemma DevfuncAt(u: seq<real>, m: seq<seq<real>>, cols: nat, j: nat, x: real)
    requires IsMatrix(m, |u|, cols) && j < cols && Dot(u, Column(m, cols, j)) == x
    ensures Devfunc(u, m, cols)[j] == 2.0 * x
  {
  }

  /** `devfunc` is the derivative of `D = dot(u, M) ** 2`: moving `u` by `h`
      changes entry `j` of `D` by `devfunc(u, M)[j]` times the move along
      column `j`, plus the square of that move. */
  lemma DevfuncIsDerivative(u: seq<real>, h: seq<real>, m: seq<seq<real>>, cols: nat)
    requires |h| == |u| && IsMatrix(m, |u|, cols)
    ensures var d, d', g, s := Squares(VecMat(u, m, cols)), Squares(VecMat(Add(u, h), m, cols)),
                               Devfunc(u, m, cols), VecMat(h, m, cols);
            forall j :: 0 <= j < cols ==> d'[j] == d[j] + g[j] * s[j] + Sq(s[j])
  {
    VecMatAdd(u, h, m, cols);
    var w, s := VecMat(u, m, cols), VecMat(h, m, cols);
    forall j | 0 <= j < cols
      ensures Squares(VecMat(Add(u, h), m, cols))[j] == Squares(w)[j] + Devfunc(u, m, cols)[j] * s[j] + Sq(s[j])
    {
      assert VecMat(Add(u, h), m, cols)[j] == w[j] + s[j];
      assert (w[j] + s[j]) * (w[j] + s[j]) == w[j] * w[j] + 2.0 * w[j] * s[j] + s[j] * s[j];
    }
  }

  /** `errfunc` vanishes exactly where `fitfunc` meets the targets, and adding
      the targets back gives `fitfunc`. */
  lemma ErrfuncZero(u: seq<real>, m: seq<seq<real>>, d: seq<real>, cols: nat)
    requires IsMatrix(m, |u|, cols) && cols >= 3 && cols % 2 == 1
    requires |d| == EdgeColumns(cols) + 3
    ensures var e, r := Errfunc(u, m, d, cols), Fitfunc(u, m, cols);
            (forall k :: 0 <= k < |e| ==> e[k] + d[k] == r[k]) &&
            ((forall k :: 0 <= k < |e| ==> e[k] == 0.0) <==> r == d)
  {
    var e, r := Errfunc(u, m, d, cols), Fitfunc(u, m, cols);
    if forall k :: 0 <= k < |e| ==> e[k] == 0.0 {
      forall k | 0 <= k < |r|
        ensures r[k] == d[k]
      {
        assert e[k] == 0.0;
      }
    }
  }
}
