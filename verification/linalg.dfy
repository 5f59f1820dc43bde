/** The little dense linear algebra the fit needs: the vector-matrix
    product `dot(u, M)` and element-wise squares. */
module Linalg {
  /** A matrix of `rows` rows, each `cols` entries long. */
  predicate IsMatrix(m: seq<seq<real>>, rows: nat, cols: nat) {
    |m| == rows && forall i :: 0 <= i < rows ==> |m[i]| == cols
  }

  function Dot(u: seq<real>, v: seq<real>): real
    requires |u| == |v|
    decreases |u|
  {
    if |u| == 0 then 0.0 else u[0] * v[0] + Dot(u[1..], v[1..])
  }

  /** Column `j` of `m`. */
  function Column(m: seq<seq<real>>, cols: nat, j: nat): (col: seq<real>)
    requires IsMatrix(m, |m|, cols) && j < cols
    ensures |col| == |m|
    ensures forall i :: 0 <= i < |m| ==> col[i] == m[i][j]
  {
    seq(|m|, i requires 0 <= i < |m| => m[i][j])
  }

  /** `dot(u, M)`: entry `j` is `u` against column `j`. */
  function VecMat(u: seq<real>, m: seq<seq<real>>, cols: nat): (w: seq<real>)
    requires IsMatrix(m, |u|, cols)
    ensures |w| == cols
  {
    seq(cols, j requires 0 <= j < cols => Dot(u, Column(m, cols, j)))
  }

  function Sq(x: real): real {
    x * x
  }

  /** `w ** 2`, element-wise. */
  function Squares(w: seq<real>): (s: seq<real>)
    ensures |s| == |w|
  {
    seq(|w|, j requires 0 <= j < |w| => Sq(w[j]))
  }

  function Add(u: seq<real>, w: seq<real>): (s: seq<real>)
    requires |u| == |w|
    ensures |s| == |u|
  {
    seq(|u|, i requires 0 <= i < |u| => u[i] + w[i])
  }

  /** Entry `j` of `dot(u, M) ** 2`. */
  lemma SquareOfColumn(u: seq<real>, m: seq<seq<real>>, cols: nat, j: nat)
    requires IsMatrix(m, |u|, cols) && j < cols
    ensures Squares(VecMat(u, m, cols))[j] == Sq(Dot(u, Column(m, cols, j)))
  {
  }

  lemma SqNonNegative(x: real)
    ensures Sq(x) >= 0.0
  {
  }

  lemma SqNegate(x: real)
    ensures Sq(-x) == Sq(x)
  {
  }

  /** A vector against a zero vector gives zero. */
  lemma {:induction false} DotZero(u: seq<real>, v: seq<real>)
    requires |u| == |v|
    requires forall k :: 0 <= k < |v| ==> v[k] == 0.0
    ensures Dot(u, v) == 0.0
    decreases |u|
  {
    if |u| > 0 {
      DotZero(u[1..], v[1..]);
    }
  }

  /** A vector against one with a single non-zero entry `x` picks `u[x]`. */
  lemma {:induction false} DotSingle(u: seq<real>, v: seq<real>, x: nat)
    requires |u| == |v| && x < |v|
    requires forall k :: 0 <= k < |v| && k != x ==> v[k] == 0.0
    ensures Dot(u, v) == u[x] * v[x]
    decreases |u|
  {
    if x == 0 {
      DotZero(u[1..], v[1..]);
    } else {
      DotSingle(u[1..], v[1..], x - 1);
    }
  }

  /** A vector against one with two non-zero entries `x` and `y`. */
  lemma {:induction false} DotPair(u: seq<real>, v: seq<real>, x: nat, y: nat)
    requires |u| == |v| && x < |v| && y < |v| && x != y
    requires forall k :: 0 <= k < |v| && k != x && k != y ==> v[k] == 0.0
    ensures Dot(u, v) == u[x] * v[x] + u[y] * v[y]
    decreases |u|
  {
    if x == 0 {
      DotSingle(u[1..], v[1..], y - 1);
    } else if y == 0 {
      DotSingle(u[1..], v[1..], x - 1);
    } else {
      DotPair(u[1..], v[1..], x - 1, y - 1);
    }
  }

  /** The product is linear in the vector. */
  lemma {:induction false} DotAdd(u: seq<real>, w: seq<real>, v: seq<real>)
    requires |u| == |w| == |v|
    ensures Dot(Add(u, w), v) == Dot(u, v) + Dot(w, v)
    decreases |u|
  {
    if |u| > 0 {
      assert Add(u, w)[1..] == Add(u[1..], w[1..]);
      DotAdd(u[1..], w[1..], v[1..]);
    }
  }

  /** `dot(u + h, M) == dot(u, M) + dot(h, M)`. */
  lemma VecMatAdd(u: seq<real>, h: seq<real>, m: seq<seq<real>>, cols: nat)
    requires |u| == |h| && IsMatrix(m, |u|, cols)
    ensures VecMat(Add(u, h), m, cols) == Add(VecMat(u, m, cols), VecMat(h, m, cols))
  {
    forall j | 0 <= j < cols
      ensures VecMat(Add(u, h), m, cols)[j] == VecMat(u, m, cols)[j] + VecMat(h, m, cols)[j]
    {
      DotAdd(u, h, Column(m, cols, j));
    }
  }
}
