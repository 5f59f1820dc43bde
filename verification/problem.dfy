/** `run_optimization` up to the solver call: the design matrix `M`, the
    target vector `d_x`, the anchor at the middle point `mp`, and the initial
    guess `u0` built next to it. Unknowns are interleaved: `u[2k]` and
    `u[2k + 1]` are the plane coordinates of point `k`. */
module Problem {
  import opened Linalg
  import Residuals
  import Mesh
  import Results
  import Camera
  import Disparity

  /** `mp = (rows / 2) * cols + cols / 2`, Python 2 floor division: the
      row-major index of the pixel in row `nl / 2`, column `nk / 2`. */
  function MiddlePoint(nl: nat, nk: nat): (mp: nat)
    ensures mp == Disparity.RowStart(nl / 2, nk) + nk / 2
  {
    Disparity.TimesIsProduct(nl / 2, nk);
    (nl / 2) * nk + nk / 2
  }

  /** The middle pixel sits in the middle row and the middle column. */
  lemma MiddlePixel(nl: nat, nk: nat)
    requires nk >= 1
    ensures Disparity.Row(MiddlePoint(nl, nk), nk) == nl / 2
    ensures Disparity.Col(MiddlePoint(nl, nk), nk) == nk / 2
  {
    Disparity.RowColOf(nl / 2, nk / 2, nk);
  }

  /** The middle pixel lies on the grid, and so does its right-hand
      successor `mp + 1`, whose `y` the third anchor pins, unless the grid
      is at most 2 x 2. */
  lemma AnchorInRange(nl: nat, nk: nat)
    requires nl >= 1 && nk >= 1
    ensures MiddlePoint(nl, nk) < nl * nk
    ensures MiddlePoint(nl, nk) + 1 < nl * nk <==> !(nl <= 2 && nk <= 2)
  {
    var q := nl / 2;
    assert nl - q >= 1;
    assert nl * nk - q * nk == (nl - q) * nk;
    if nl <= 2 {
      assert nl - q == 1;
    } else {
      assert nl - q >= 2;
      Disparity.MulMono(2, nl - q, nk);
    }
    Disparity.MulMono(1, nl - q, nk);
  }

  /** Every connection joins two of the `np` points. */
  predicate InRange(con: seq<Mesh.Edge>, np: nat) {
    forall i :: 0 <= i < |con| ==> con[i].a < np && con[i].b < np
  }

  /** Row of `M` that anchor column `t` (0, 1 or 2 from the third-last)
      selects: `x` and `y` of point `mp`, then `y` of point `mp + 1`. */
  function AnchorRow(mp: nat, t: nat): nat {
    if t == 0 then 2 * mp else if t == 1 then 2 * mp + 1 else 2 * mp + 3
  }

  /** Entry `(row, col)` of the finished `M`. Column `2i + par` belongs to
      connection `i = (a, b)` and component `par`: `-1` in row `2b + par`
      (written last, so it wins when `a == b`), `+1` in row `2a + par`. The
      last three columns hold a single `1` in their anchor row. */
  function Entry(con: seq<Mesh.Edge>, mp: nat, row: nat, col: nat): real
    requires col < 2 * |con| + 3
  {
    if col < 2 * |con| then EdgeEntry(con[col / 2], col % 2, row)
    else if row == AnchorRow(mp, col - 2 * |con|) then 1.0 else 0.0
  }

  /** Entry `row` of the column of connection `e` for component `par`. */
  function EdgeEntry(e: Mesh.Edge, par: nat, row: nat): real {
    if row == 2 * e.b + par then -1.0 else if row == 2 * e.a + par then 1.0 else 0.0
  }

  /** The design matrix `M`, `2 Np x (2 Ned + 3)`, in closed form. */
  function DesignMatrix(np: nat, con: seq<Mesh.Edge>, mp: nat): (m: seq<seq<real>>)
    ensures IsMatrix(m, 2 * np, 2 * |con| + 3)
  {
    var cols := 2 * |con| + 3;
    seq(2 * np, row requires 0 <= row < 2 * np =>
      seq(cols, col requires 0 <= col < cols => Entry(con, mp, row, col)))
  }

  /** Columns the assembly has reached once it has written the first `n`
      connections and the first `k` anchors. */
  predicate Written(ned: nat, n: nat, k: nat, col: nat) {
    col < 2 * n || (2 * ned <= col < 2 * ned + k)
  }

  /** `M` part-way through its assembly: the written columns agree with the
      design matrix, the others are still zero. */
  function Stage(np: nat, con: seq<Mesh.Edge>, mp: nat, n: nat, k: nat): (m: seq<seq<real>>)
    requires n <= |con| && k <= 3
    ensures IsMatrix(m, 2 * np, 2 * |con| + 3)
  {
    var cols := 2 * |con| + 3;
    seq(2 * np, row requires 0 <= row < 2 * np =>
      seq(cols, col requires 0 <= col < cols =>
        if Written(|con|, n, k, col) then Entry(con, mp, row, col) else 0.0))
  }

  /** `M[row, col] = v`. */
  function Set(m: seq<seq<real>>, row: nat, col: nat, v: real): (m': seq<seq<real>>)
    requires row < |m| && col < |m[row]|
    ensures |m'| == |m| && forall i :: 0 <= i < |m| ==> |m'[i]| == |m[i]|
  {
    m[row := m[row][col := v]]
  }

  /** The four writes of loop iteration `i` complete columns `2i` and
      `2i + 1`. */
  lemma EdgeWrites(np: nat, con: seq<Mesh.Edge>, mp: nat, i: nat)
    requires i < |con| && con[i].a < np && con[i].b < np
    ensures var a, b, m := con[i].a, con[i].b, Stage(np, con, mp, i, 0);
            Set(Set(Set(Set(m, 2 * a, 2 * i, 1.0), 2 * b, 2 * i, -1.0), 2 * a + 1, 2 * i + 1, 1.0), 2 * b + 1, 2 * i + 1, -1.0)
            == Stage(np, con, mp, i + 1, 0)
  {
    var a, b, cols := con[i].a, con[i].b, 2 * |con| + 3;
    var m0 := Stage(np, con, mp, i, 0);
    var m1 := Set(m0, 2 * a, 2 * i, 1.0);
    var m2 := Set(m1, 2 * b, 2 * i, -1.0);
    var m3 := Set(m2, 2 * a + 1, 2 * i + 1, 1.0);
    var m4 := Set(m3, 2 * b + 1, 2 * i + 1, -1.0);
    var t := Stage(np, con, mp, i + 1, 0);
    forall row | 0 <= row < 2 * np
      ensures m4[row] == t[row]
    {
      forall col | 0 <= col < cols
        ensures m4[row][col] == t[row][col]
      {
        if col == 2 * i {
          assert col / 2 == i && col % 2 == 0;
        } else if col == 2 * i + 1 {
          assert col / 2 == i && col % 2 == 1;
        }
      }
    }
  }

  /** The three anchor writes complete the design matrix. */
  lemma AnchorWrites(np: nat, con: seq<Mesh.Edge>, mp: nat)
    requires 2 * mp + 3 < 2 * np
    ensures var ned, m := |con|, Stage(np, con, mp, |con|, 0);
            Set(Set(Set(m, 2 * mp, 2 * ned, 1.0), 2 * mp + 1, 2 * ned + 1, 1.0), 2 * mp + 3, 2 * ned + 2, 1.0)
            == DesignMatrix(np, con, mp)
  {
    var ned, cols := |con|, 2 * |con| + 3;
    var m0 := Stage(np, con, mp, ned, 0);
    var m1 := Set(m0, 2 * mp, 2 * ned, 1.0);
    var m2 := Set(m1, 2 * mp + 1, 2 * ned + 1, 1.0);
    var m3 := Set(m2, 2 * mp + 3, 2 * ned + 2, 1.0);
    var t := DesignMatrix(np, con, mp);
    forall row | 0 <= row < 2 * np
      ensures m3[row] == t[row]
    {
      forall col | 0 <= col < cols
        ensures m3[row][col] == t[row][col]
      {
      }
    }
  }

  /** `((xyz[a] - xyz[b]) ** 2).sum()`: the squared distance. */
  function SqDist(p: Camera.Point3, q: Camera.Point3): (s: real)
    ensures s >= 0.0
  {
    SqNonNegative(p.x - q.x);
    SqNonNegative(p.y - q.y);
    SqNonNegative(p.z - q.z);
    Sq(p.x - q.x) + Sq(p.y - q.y) + Sq(p.z - q.z)
  }

  /** `d_x`: the squared length of each connection, then three zeros for
      the anchors. */
  function Targets(xyz: seq<Camera.Point3>, con: seq<Mesh.Edge>): (d: seq<real>)
    requires InRange(con, |xyz|)
    ensures |d| == |con| + 3
    ensures forall k :: 0 <= k < |d| ==> d[k] >= 0.0
    ensures d[|con|] == 0.0 && d[|con| + 1] == 0.0 && d[|con| + 2] == 0.0
  {
    seq(|con| + 3, k requires 0 <= k < |con| + 3 =>
      if k < |con| then SqDist(xyz[con[k].a], xyz[con[k].b]) else 0.0)
  }

  /** The squared distance does not depend on which end comes first, and
      is unchanged by moving both points by the same offset. */
  lemma SqDistSymmetric(p: Camera.Point3, q: Camera.Point3, t: Camera.Point3)
    ensures SqDist(p, q) == SqDist(q, p)
    ensures SqDist(Camera.Point3(p.x + t.x, p.y + t.y, p.z + t.z), Camera.Point3(q.x + t.x, q.y + t.y, q.z + t.z))
            == SqDist(p, q)
  {
    assert Sq(p.x - q.x) == Sq(q.x - p.x);
    assert Sq(p.y - q.y) == Sq(q.y - p.y);
    assert Sq(p.z - q.z) == Sq(q.z - p.z);
  }

  /** The matrix and targets handed to the solver. */
  datatype Setup = Setup(m: seq<seq<real>>, d: seq<real>)

  /** `d_x` once the first `n` connections have been measured. */
  function PartialTargets(xyz: seq<Camera.Point3>, con: seq<Mesh.Edge>, n: nat): (d: seq<real>)
    requires n <= |con| && forall k :: 0 <= k < n ==> con[k].a < |xyz| && con[k].b < |xyz|
    ensures |d| == |con| + 3
  {
    seq(|con| + 3, k requires 0 <= k < |con| + 3 =>
      if k < n then SqDist(xyz[con[k].a], xyz[con[k].b]) else 0.0)
  }

  /** `zeros((2 Np, 2 Ned + 3))` and `zeros(Ned + 3)`: nothing written yet. */
  lemma ZeroStage(xyz: seq<Camera.Point3>, con: seq<Mesh.Edge>, mp: nat)
    ensures seq(2 * |xyz|, _ => seq(2 * |con| + 3, _ => 0.0)) == Stage(|xyz|, con, mp, 0, 0)
    ensures seq(|con| + 3, _ => 0.0) == PartialTargets(xyz, con, 0)
  {
    var m := seq(2 * |xyz|, _ => seq(2 * |con| + 3, _ => 0.0));
    forall row | 0 <= row < 2 * |xyz|
      ensures m[row] == Stage(|xyz|, con, mp, 0, 0)[row]
    {
    }
  }

  /** Iteration `i` of the loop of `run_optimization`: the four writes of
      column pair `2i, 2i + 1` and `d_x[i]`. */
  method WriteConnection(xyz: seq<Camera.Point3>, con: seq<Mesh.Edge>, mp: nat, i: nat,
                         m: seq<seq<real>>, d: seq<real>) returns (m': seq<seq<real>>, d': seq<real>)
    requires i < |con| && forall k :: 0 <= k <= i ==> con[k].a < |xyz| && con[k].b < |xyz|
    requires m == Stage(|xyz|, con, mp, i, 0) && d == PartialTargets(xyz, con, i)
    ensures m' == Stage(|xyz|, con, mp, i + 1, 0) && d' == PartialTargets(xyz, con, i + 1)
  {
    var a, b := con[i].a, con[i].b;
    EdgeWrites(|xyz|, con, mp, i);
    m' := Set(m, 2 * a, 2 * i, 1.0);
    m' := Set(m', 2 * b, 2 * i, -1.0);
    m' := Set(m', 2 * a + 1, 2 * i + 1, 1.0);
    m' := Set(m', 2 * b + 1, 2 * i + 1, -1.0);
    d' := d[i := SqDist(xyz[a], xyz[b])];
  }

  /** `run_optimization` up to `leastsq`, for the points `xyz`, the list
      `con` and a disparity grid of shape `nl x nk`. An endpoint beyond the
      point list, or an anchor row past `M` (`mp + 1 >= Np`), raises
      `IndexError`. */
  method Assemble(xyz: seq<Camera.Point3>, con: seq<Mesh.Edge>, nl: nat, nk: nat) returns (r: Results.Result<Setup>)
    ensures r.Err? <==> !InRange(con, |xyz|) || MiddlePoint(nl, nk) + 1 >= |xyz|
    ensures r.Ok? ==> r.value.m == DesignMatrix(|xyz|, con, MiddlePoint(nl, nk)) &&
                      r.value.d == Targets(xyz, con)
  {
    var np, ned := |xyz|, |con|;
    var mp := MiddlePoint(nl, nk);
    var ok, m, d := WriteConnections(xyz, con, mp);
    if !ok {
      return Results.Err("index out of bounds");
    }
    if 2 * mp + 3 >= 2 * np {
      return Results.Err("index out of bounds");
    }
    AnchorWrites(np, con, mp);
    m := Set(m, 2 * mp, 2 * ned, 1.0);
    m := Set(m, 2 * mp + 1, 2 * ned + 1, 1.0);
    m := Set(m, 2 * mp + 3, 2 * ned + 2, 1.0);
    return Results.Ok(Setup(m, d));
  }

  /** The loop of `run_optimization` over the connections, from a zero `M`
      and a zero `d_x`: it stops at the first connection with an endpoint
      beyond the point list, and otherwise fills every connection column
      and every target. */
  method WriteConnections(xyz: seq<Camera.Point3>, con: seq<Mesh.Edge>, mp: nat)
      returns (ok: bool, m: seq<seq<real>>, d: seq<real>)
    ensures ok <==> InRange(con, |xyz|)
    ensures ok ==> m == Stage(|xyz|, con, mp, |con|, 0) && d == Targets(xyz, con)
  {
    var np, ned := |xyz|, |con|;
    m := seq(2 * np, _ => seq(2 * ned + 3, _ => 0.0));
    d := seq(ned + 3, _ => 0.0);
    ZeroStage(xyz, con, mp);
    var i: nat := 0;
    while i < ned
      invariant i <= ned
      invariant forall k :: 0 <= k < i ==> con[k].a < np && con[k].b < np
      invariant m == Stage(np, con, mp, i, 0) && d == PartialTargets(xyz, con, i)
    {
      if con[i].a >= np || con[i].b >= np {
        return false, m, d;
      }
      m, d := WriteConnection(xyz, con, mp, i, m, d);
      i := i + 1;
    }
    assert d == Targets(xyz, con);
    return true, m, d;
  }

  /** `u0 = reshape(xyz[:, :2] - xyz[mp, :2], -1)`: the plane coordinates
      of every point relative to point `mp`, interleaved. Indexing a missing
      point `mp` raises `IndexError`. */
  function InitialGuess(xyz: seq<Camera.Point3>, mp: nat): (r: Results.Result<seq<real>>)
    ensures r.Err? <==> mp >= |xyz|
    ensures r.Ok? ==> |r.value| == 2 * |xyz| && r.value[2 * mp] == 0.0 && r.value[2 * mp + 1] == 0.0
  {
    if mp >= |xyz| then Results.Err("index out of bounds")
    else
      Results.Ok(seq(2 * |xyz|, j requires 0 <= j < 2 * |xyz| =>
        if j % 2 == 0 then xyz[j / 2].x - xyz[mp].x else xyz[j / 2].y - xyz[mp].y))
  }

  /** `u0` keeps the plane geometry: the difference of two points' entries
      is the difference of their `x` and `y` coordinates. */
  lemma InitialGuessRelative(xyz: seq<Camera.Point3>, mp: nat, k: nat, l: nat)
    requires mp < |xyz| && k < |xyz| && l < |xyz|
    ensures var u := InitialGuess(xyz, mp).value;
            u[2 * k] - u[2 * l] == xyz[k].x - xyz[l].x &&
            u[2 * k + 1] - u[2 * l + 1] == xyz[k].y - xyz[l].y
  {
    var u := InitialGuess(xyz, mp).value;
    assert (2 * k) / 2 == k && (2 * k + 1) / 2 == k && (2 * k) % 2 == 0 && (2 * k + 1) % 2 == 1;
    assert (2 * l) / 2 == l && (2 * l + 1) / 2 == l && (2 * l) % 2 == 0 && (2 * l + 1) % 2 == 1;
  }

  /** Column `2i + par` of `M` against `u`: the difference of the two
      endpoints' coordinates, or only the negated second one when the
      connection is a loop `a == b`. */
  lemma EdgeColumnDot(np: nat, con: seq<Mesh.Edge>, mp: nat, u: seq<real>, i: nat, par: nat)
    requires InRange(con, np) && |u| == 2 * np && i < |con| && par < 2
    ensures var a, b := con[i].a, con[i].b;
            a == b ==> Dot(u, Column(DesignMatrix(np, con, mp), 2 * |con| + 3, 2 * i + par)) == -u[2 * b + par]
    ensures var a, b := con[i].a, con[i].b;
            a != b ==> Dot(u, Column(DesignMatrix(np, con, mp), 2 * |con| + 3, 2 * i + par)) == u[2 * a + par] - u[2 * b + par]
  {
    EdgeColumn(np, con, mp, i, par);
    DotEdge(u, Column(DesignMatrix(np, con, mp), 2 * |con| + 3, 2 * i + par), con[i], par);
  }

  /** A vector against the entries of connection `e`. */
  lemma DotEdge(u: seq<real>, v: seq<real>, e: Mesh.Edge, par: nat)
    requires |u| == |v| && 2 * e.a + par < |v| && 2 * e.b + par < |v|
    requires forall row :: 0 <= row < |v| ==> v[row] == EdgeEntry(e, par, row)
    ensures Dot(u, v) == if e.a == e.b then -u[2 * e.b + par] else u[2 * e.a + par] - u[2 * e.b + par]
  {
    if e.a == e.b {
      DotSingle(u, v, 2 * e.b + par);
    } else {
      DotPair(u, v, 2 * e.a + par, 2 * e.b + par);
    }
  }

  /** Column `2i + par` of `M` holds the entries of connection `i`. */
  lemma EdgeColumn(np: nat, con: seq<Mesh.Edge>, mp: nat, i: nat, par: nat)
    requires i < |con| && par < 2
    ensures var v := Column(DesignMatrix(np, con, mp), 2 * |con| + 3, 2 * i + par);
            |v| == 2 * np && forall row :: 0 <= row < 2 * np ==> v[row] == EdgeEntry(con[i], par, row)
  {
    var col := 2 * i + par;
    assert col / 2 == i && col % 2 == par;
  }

  /** Column `2i + par` of `M` for connection `i = (a, b)`: `-1` in row
      `2b + par`, `+1` in row `2a + par` unless `a == b` (the `-1` is written
      last), and zero in every other row. */
  lemma EdgeColumnEntries(np: nat, con: seq<Mesh.Edge>, mp: nat, i: nat, par: nat)
    requires InRange(con, np) && i < |con| && par < 2
    ensures var v, a, b := Column(DesignMatrix(np, con, mp), 2 * |con| + 3, 2 * i + par), con[i].a, con[i].b;
            |v| == 2 * np && v[2 * b + par] == -1.0 && (a != b ==> v[2 * a + par] == 1.0) &&
            forall row :: 0 <= row < 2 * np && row != 2 * a + par && row != 2 * b + par ==> v[row] == 0.0
  {
    EdgeColumn(np, con, mp, i, par);
  }

  /** Anchor column `t` of `M` (the third-, second- or last column) holds a
      single `1`, in row `2mp`, `2mp + 1` or `2mp + 3`. */
  lemma AnchorColumn(np: nat, con: seq<Mesh.Edge>, mp: nat, t: nat)
    requires 2 * mp + 3 < 2 * np && t < 3
    ensures var v, row := Column(DesignMatrix(np, con, mp), 2 * |con| + 3, 2 * |con| + t), AnchorRow(mp, t);
            |v| == 2 * np && row == 2 * mp + (if t == 2 then 3 else t) && v[row] == 1.0 &&
            forall k :: 0 <= k < 2 * np && k != row ==> v[k] == 0.0
  {
  }

  /** Anchor column `t` of `M` against `u` picks the anchored coordinate. */
  lemma AnchorColumnDot(np: nat, con: seq<Mesh.Edge>, mp: nat, u: seq<real>, t: nat)
    requires |u| == 2 * np && 2 * mp + 3 < 2 * np && t < 3
    ensures Dot(u, Column(DesignMatrix(np, con, mp), 2 * |con| + 3, 2 * |con| + t)) == u[AnchorRow(mp, t)]
  {
    var v := Column(DesignMatrix(np, con, mp), 2 * |con| + 3, 2 * |con| + t);
    DotSingle(u, v, AnchorRow(mp, t));
  }

  /** `fitfunc(u, M)` at connection `i = (a, b)`: the squared plane
      distance between points `a` and `b` under `u` (only the second point's
      square when `a == b`). */
  lemma FitOfEdge(np: nat, con: seq<Mesh.Edge>, mp: nat, u: seq<real>, i: nat)
    requires InRange(con, np) && |u| == 2 * np && i < |con|
    ensures |Residuals.Fitfunc(u, DesignMatrix(np, con, mp), 2 * |con| + 3)| == |con| + 3
    ensures var r, a, b := Residuals.Fitfunc(u, DesignMatrix(np, con, mp), 2 * |con| + 3), con[i].a, con[i].b;
            a != b ==> r[i] == Sq(u[2 * a] - u[2 * b]) + Sq(u[2 * a + 1] - u[2 * b + 1])
    ensures var r, b := Residuals.Fitfunc(u, DesignMatrix(np, con, mp), 2 * |con| + 3), con[i].b;
            con[i].a == b ==> r[i] == Sq(u[2 * b]) + Sq(u[2 * b + 1])
  {
    Residuals.EdgeColumnsOf(|con|);
    EdgeColumn(np, con, mp, i, 0);
    EdgeColumn(np, con, mp, i, 1);
    FitOfEdgeColumns(u, DesignMatrix(np, con, mp), 2 * |con| + 3, i, con[i]);
  }

  /** Entry `i` of `fitfunc(u, m)` for any `m` whose columns `2i` and
      `2i + 1` hold the entries of connection `e`. */
  lemma FitOfEdgeColumns(u: seq<real>, m: seq<seq<real>>, cols: nat, i: nat, e: Mesh.Edge)
    requires IsMatrix(m, |u|, cols) && cols >= 3 && cols % 2 == 1 && i < Residuals.EdgeColumns(cols)
    requires 2 * e.a + 1 < |u| && 2 * e.b + 1 < |u| && 2 * i + 1 < cols
    requires forall row :: 0 <= row < |u| ==> Column(m, cols, 2 * i)[row] == EdgeEntry(e, 0, row)
    requires forall row :: 0 <= row < |u| ==> Column(m, cols, 2 * i + 1)[row] == EdgeEntry(e, 1, row)
    ensures |Residuals.Fitfunc(u, m, cols)| == Residuals.EdgeColumns(cols) + 3
    ensures e.a != e.b ==> Residuals.Fitfunc(u, m, cols)[i] == Sq(u[2 * e.a] - u[2 * e.b]) + Sq(u[2 * e.a + 1] - u[2 * e.b + 1])
    ensures e.a == e.b ==> Residuals.Fitfunc(u, m, cols)[i] == Sq(u[2 * e.b]) + Sq(u[2 * e.b + 1])
  {
    var a, b := e.a, e.b;
    DotEdge(u, Column(m, cols, 2 * i), e, 0);
    DotEdge(u, Column(m, cols, 2 * i + 1), e, 1);
    if a == b {
      SqNegate(u[2 * b]);
      SqNegate(u[2 * b + 1]);
      Residuals.FitfuncPairOf(u, m, cols, i, -u[2 * b], -u[2 * b + 1]);
    } else {
      Residuals.FitfuncPairOf(u, m, cols, i, u[2 * a] - u[2 * b], u[2 * a + 1] - u[2 * b + 1]);
    }
  }

  /** The three anchor entries of `fitfunc(u, M)`: the squares of `u[2mp]`,
      `u[2mp + 1]` and `u[2mp + 3]`. */
  lemma FitOfAnchors(np: nat, con: seq<Mesh.Edge>, mp: nat, u: seq<real>)
    requires |u| == 2 * np && mp + 1 < np
    ensures var r, ned := Residuals.Fitfunc(u, DesignMatrix(np, con, mp), 2 * |con| + 3), |con|;
            |r| == ned + 3 &&
            r[ned] == Sq(u[2 * mp]) && r[ned + 1] == Sq(u[2 * mp + 1]) && r[ned + 2] == Sq(u[2 * mp + 3])
  {
    var m, cols := DesignMatrix(np, con, mp), 2 * |con| + 3;
    assert Residuals.EdgeColumns(cols) == |con|;
    Residuals.FitfuncAnchor(u, m, cols, 0);
    Residuals.FitfuncAnchor(u, m, cols, 1);
    Residuals.FitfuncAnchor(u, m, cols, 2);
    AnchorColumnDot(np, con, mp, u, 0);
    AnchorColumnDot(np, con, mp, u, 1);
    AnchorColumnDot(np, con, mp, u, 2);
  }

  /** `devfunc(u, M)` on the design matrix: twice the coordinate difference
      along each connection, or twice the negated second endpoint when both
      endpoints coincide (the anchors are `DevfuncOfAnchors`). */
  lemma DevfuncOfDesign(np: nat, con: seq<Mesh.Edge>, mp: nat, u: seq<real>)
    requires InRange(con, np) && |u| == 2 * np
    ensures var g := Residuals.Devfunc(u, DesignMatrix(np, con, mp), 2 * |con| + 3);
            forall i :: 0 <= i < |con| && con[i].a != con[i].b ==>
              g[2 * i] == 2.0 * (u[2 * con[i].a] - u[2 * con[i].b]) &&
              g[2 * i + 1] == 2.0 * (u[2 * con[i].a + 1] - u[2 * con[i].b + 1])
    ensures var g := Residuals.Devfunc(u, DesignMatrix(np, con, mp), 2 * |con| + 3);
            forall i :: 0 <= i < |con| && con[i].a == con[i].b ==>
              g[2 * i] == -2.0 * u[2 * con[i].b] && g[2 * i + 1] == -2.0 * u[2 * con[i].b + 1]
  {
    var m, cols := DesignMatrix(np, con, mp), 2 * |con| + 3;
    forall i | 0 <= i < |con|
      ensures con[i].a != con[i].b ==>
                Residuals.Devfunc(u, m, cols)[2 * i] == 2.0 * (u[2 * con[i].a] - u[2 * con[i].b]) &&
                Residuals.Devfunc(u, m, cols)[2 * i + 1] == 2.0 * (u[2 * con[i].a + 1] - u[2 * con[i].b + 1])
      ensures con[i].a == con[i].b ==>
                Residuals.Devfunc(u, m, cols)[2 * i] == -2.0 * u[2 * con[i].b] &&
                Residuals.Devfunc(u, m, cols)[2 * i + 1] == -2.0 * u[2 * con[i].b + 1]
    {
      EdgeColumn(np, con, mp, i, 0);
      EdgeColumn(np, con, mp, i, 1);
      DevfuncOfEdgeColumns(u, m, cols, i, con[i]);
    }
  }

  /** The three anchor entries of `devfunc(u, M)`: twice `u[2mp]`,
      `u[2mp + 1]` and `u[2mp + 3]`. */
  lemma DevfuncOfAnchors(np: nat, con: seq<Mesh.Edge>, mp: nat, u: seq<real>)
    requires |u| == 2 * np && mp + 1 < np
    ensures var g, ned := Residuals.Devfunc(u, DesignMatrix(np, con, mp), 2 * |con| + 3), |con|;
            g[2 * ned] == 2.0 * u[2 * mp] && g[2 * ned + 1] == 2.0 * u[2 * mp + 1] && g[2 * ned + 2] == 2.0 * u[2 * mp + 3]
  {
    var m, cols := DesignMatrix(np, con, mp), 2 * |con| + 3;
    AnchorColumnDot(np, con, mp, u, 0);
    AnchorColumnDot(np, con, mp, u, 1);
    AnchorColumnDot(np, con, mp, u, 2);
    Residuals.DevfuncAt(u, m, cols, 2 * |con|, u[2 * mp]);
    Residuals.DevfuncAt(u, m, cols, 2 * |con| + 1, u[2 * mp + 1]);
    Residuals.DevfuncAt(u, m, cols, 2 * |con| + 2, u[2 * mp + 3]);
  }

  /** Entries `2i` and `2i + 1` of `devfunc(u, m)` for any `m` whose
      columns `2i` and `2i + 1` hold the entries of connection `e`. */
  lemma DevfuncOfEdgeColumns(u: seq<real>, m: seq<seq<real>>, cols: nat, i: nat, e: Mesh.Edge)
    requires IsMatrix(m, |u|, cols) && 2 * e.a + 1 < |u| && 2 * e.b + 1 < |u| && 2 * i + 1 < cols
    requires forall row :: 0 <= row < |u| ==> Column(m, cols, 2 * i)[row] == EdgeEntry(e, 0, row)
    requires forall row :: 0 <= row < |u| ==> Column(m, cols, 2 * i + 1)[row] == EdgeEntry(e, 1, row)
    ensures e.a != e.b ==> Residuals.Devfunc(u, m, cols)[2 * i] == 2.0 * (u[2 * e.a] - u[2 * e.b])
    ensures e.a != e.b ==> Residuals.Devfunc(u, m, cols)[2 * i + 1] == 2.0 * (u[2 * e.a + 1] - u[2 * e.b + 1])
    ensures e.a == e.b ==> Residuals.Devfunc(u, m, cols)[2 * i] == -2.0 * u[2 * e.b]
    ensures e.a == e.b ==> Residuals.Devfunc(u, m, cols)[2 * i + 1] == -2.0 * u[2 * e.b + 1]
  {
    var a, b := e.a, e.b;
    DotEdge(u, Column(m, cols, 2 * i), e, 0);
    DotEdge(u, Column(m, cols, 2 * i + 1), e, 1);
    if a != b {
      Residuals.DevfuncAt(u, m, cols, 2 * i, u[2 * a] - u[2 * b]);
      Residuals.DevfuncAt(u, m, cols, 2 * i + 1, u[2 * a + 1] - u[2 * b + 1]);
    } else {
      Residuals.DevfuncAt(u, m, cols, 2 * i, -u[2 * b]);
      Residuals.DevfuncAt(u, m, cols, 2 * i + 1, -u[2 * b + 1]);
    }
  }

  /** On a flat scene the initial guess gives connection `k` exactly its
      target: the plane distance is the whole distance. */
  lemma FlatEdge(xyz: seq<Camera.Point3>, con: seq<Mesh.Edge>, mp: nat, k: nat)
    requires InRange(con, |xyz|) && mp < |xyz| && k < |con| && con[k].a != con[k].b
    requires xyz[con[k].a].z == xyz[con[k].b].z
    ensures |Residuals.Fitfunc(InitialGuess(xyz, mp).value, DesignMatrix(|xyz|, con, mp), 2 * |con| + 3)| == |con| + 3
    ensures Residuals.Fitfunc(InitialGuess(xyz, mp).value, DesignMatrix(|xyz|, con, mp), 2 * |con| + 3)[k]
            == Targets(xyz, con)[k]
  {
    var u := InitialGuess(xyz, mp).value;
    InitialGuessRelative(xyz, mp, con[k].a, con[k].b);
    LevelEdgeFit(xyz, con, mp, u, k);
  }

  /** Any `u` that keeps the plane differences of a level connection's
      endpoints gives that connection exactly its target. */
  lemma LevelEdgeFit(xyz: seq<Camera.Point3>, con: seq<Mesh.Edge>, mp: nat, u: seq<real>, k: nat)
    requires InRange(con, |xyz|) && |u| == 2 * |xyz| && k < |con|
    requires var a, b := con[k].a, con[k].b;
             a != b && xyz[a].z == xyz[b].z &&
             u[2 * a] - u[2 * b] == xyz[a].x - xyz[b].x && u[2 * a + 1] - u[2 * b + 1] == xyz[a].y - xyz[b].y
    ensures |Residuals.Fitfunc(u, DesignMatrix(|xyz|, con, mp), 2 * |con| + 3)| == |con| + 3
    ensures Residuals.Fitfunc(u, DesignMatrix(|xyz|, con, mp), 2 * |con| + 3)[k] == Targets(xyz, con)[k]
  {
    var a, b := con[k].a, con[k].b;
    FitOfEdge(|xyz|, con, mp, u, k);
    LevelSqDist(xyz[a], xyz[b]);
    assert Targets(xyz, con)[k] == SqDist(xyz[a], xyz[b]);
  }

  /** Two points at equal depth are as far apart as their `x` and `y` say. */
  lemma LevelSqDist(p: Camera.Point3, q: Camera.Point3)
    requires p.z == q.z
    ensures SqDist(p, q) == Sq(p.x - q.x) + Sq(p.y - q.y)
  {
    assert Sq(p.z - q.z) == 0.0;
  }

  /** On a scene where point `mp + 1` is level with point `mp`, the initial
      guess satisfies the three anchors. */
  lemma FlatAnchors(xyz: seq<Camera.Point3>, con: seq<Mesh.Edge>, mp: nat)
    requires InRange(con, |xyz|) && mp + 1 < |xyz| && xyz[mp + 1].y == xyz[mp].y
    ensures var u := InitialGuess(xyz, mp).value;
            var r, ned := Residuals.Fitfunc(u, DesignMatrix(|xyz|, con, mp), 2 * |con| + 3), |con|;
            |r| == ned + 3 && r[ned] == 0.0 && r[ned + 1] == 0.0 && r[ned + 2] == 0.0
  {
    var u := InitialGuess(xyz, mp).value;
    FitOfAnchors(|xyz|, con, mp, u);
    InitialGuessRelative(xyz, mp, mp + 1, mp);
    assert u[2 * mp + 3] == 0.0;
    assert Sq(0.0) == 0.0;
  }

  /** `errfunc(u0, M, d_x)` is zero in every entry: the initial guess
      already solves the least-squares problem exactly. */
  predicate GuessIsExact(xyz: seq<Camera.Point3>, con: seq<Mesh.Edge>, mp: nat)
    requires InRange(con, |xyz|) && mp < |xyz|
  {
    var e := Residuals.Errfunc(InitialGuess(xyz, mp).value, DesignMatrix(|xyz|, con, mp), Targets(xyz, con), 2 * |con| + 3);
    forall k :: 0 <= k < |e| ==> e[k] == 0.0
  }

  /** A scene whose connected points lie at equal depths, with the point
      after the middle one level with it, is solved exactly by the initial
      guess: every connection keeps its length in the plane and every anchor
      holds, so `errfunc(u0, M, d_x)` is zero. */
  lemma FlatSceneExact(xyz: seq<Camera.Point3>, con: seq<Mesh.Edge>, mp: nat)
    requires InRange(con, |xyz|) && mp + 1 < |xyz|
    requires forall i :: 0 <= i < |con| ==> con[i].a != con[i].b && xyz[con[i].a].z == xyz[con[i].b].z
    requires xyz[mp + 1].y == xyz[mp].y
    ensures GuessIsExact(xyz, con, mp)
  {
    var u, cols := InitialGuess(xyz, mp).value, 2 * |con| + 3;
    var m, d := DesignMatrix(|xyz|, con, mp), Targets(xyz, con);
    assert Residuals.EdgeColumns(cols) == |con|;
    var r := Residuals.Fitfunc(u, m, cols);
    FlatAnchors(xyz, con, mp);
    forall k | 0 <= k < |con| + 3
      ensures r[k] == d[k]
    {
      if k < |con| {
        FlatEdge(xyz, con, mp, k);
      }
    }
    Residuals.ErrfuncZero(u, m, d, cols);
  }

  /** The point of the middle pixel and of the one after it share a row of
      the grid when it is at least three pixels wide, so they are level
      whenever their depths agree. */
  lemma MiddleNeighbourLevel(p: Camera.Intrinsics, g: Disparity.Grid, depth: real -> real)
    requires g.Valid() && p.f != 0.0 && g.rows >= 1 && g.cols >= 3
    requires depth(g.cell[g.rows / 2][g.cols / 2]) == depth(g.cell[g.rows / 2][g.cols / 2 + 1])
    ensures var xyz, mp := Camera.Coordinates(p, g, depth), MiddlePoint(g.rows, g.cols);
            mp + 1 < |xyz| && xyz[mp + 1].y == xyz[mp].y
  {
    var r, c := g.rows / 2, g.cols / 2;
    assert MiddlePoint(g.rows, g.cols) == r * g.cols + c;
    Camera.CoordinatesRowMajor(p, g, depth, r, c);
    Camera.CoordinatesRowMajor(p, g, depth, r, c + 1);
  }

  /** Every point of the cloud of a grid whose cells all have depth `z`
      lies at depth `z`. */
  lemma FlatCoordinates(p: Camera.Intrinsics, g: Disparity.Grid, depth: real -> real, z: real)
    requires g.Valid() && p.f != 0.0
    requires forall r, c :: 0 <= r < g.rows && 0 <= c < g.cols ==> depth(g.cell[r][c]) == z
    ensures var xyz := Camera.Coordinates(p, g, depth);
            forall k :: 0 <= k < |xyz| ==> xyz[k].z == z
  {
    var xyz := Camera.Coordinates(p, g, depth);
    forall k | 0 <= k < |xyz|
      ensures xyz[k].z == z
    {
      Disparity.CellIndex(k, g.rows, g.cols);
      Disparity.RowColSplit(k, g.cols);
      Camera.CoordinatesAt(p, g, depth, Disparity.Row(k, g.cols), Disparity.Col(k, g.cols));
    }
  }

  /** On a grid of at most 2^16 pixels every stored connection runs forward
      to a later pixel of the grid. */
  lemma StoredEdgesForward(nl: nat, nk: nat)
    requires nk >= 1 && nl * nk <= Mesh.Uint16Modulus
    ensures var con := Mesh.StoreAll(Mesh.EdgeList(nl, nk));
            forall i :: 0 <= i < |con| ==> con[i].a < con[i].b < nl * nk
  {
    var con := Mesh.StoreAll(Mesh.EdgeList(nl, nk));
    Mesh.StoredExactly(nl, nk);
    Mesh.EdgeListNeighbours(nl, nk);
    forall i | 0 <= i < |con|
      ensures con[i].a < con[i].b < nl * nk
    {
      assert con[i] in Mesh.EdgeList(nl, nk);
      Mesh.EdgeShape(con[i], nl, nk);
    }
  }

  /** Forward connections between points that all lie at depth `z` index
      the cloud and join distinct points at equal depth. */
  lemma LevelConnections(xyz: seq<Camera.Point3>, con: seq<Mesh.Edge>, z: real)
    requires forall i :: 0 <= i < |con| ==> con[i].a < con[i].b < |xyz|
    requires forall k :: 0 <= k < |xyz| ==> xyz[k].z == z
    ensures InRange(con, |xyz|)
    ensures forall i :: 0 <= i < |con| ==> con[i].a != con[i].b && xyz[con[i].a].z == xyz[con[i].b].z
  {
  }

  /** On a flat grid of at most 2^16 pixels the stored connections index
      the cloud and join distinct points at equal depth. */
  lemma FlatGridConnections(p: Camera.Intrinsics, g: Disparity.Grid, depth: real -> real, z: real)
    requires g.Valid() && p.f != 0.0 && g.cols >= 1
    requires g.rows * g.cols <= Mesh.Uint16Modulus
    requires forall r, c :: 0 <= r < g.rows && 0 <= c < g.cols ==> depth(g.cell[r][c]) == z
    ensures var xyz, con := Camera.Coordinates(p, g, depth), Mesh.StoreAll(Mesh.EdgeList(g.rows, g.cols));
            InRange(con, |xyz|)
    ensures var xyz, con := Camera.Coordinates(p, g, depth), Mesh.StoreAll(Mesh.EdgeList(g.rows, g.cols));
            forall i :: 0 <= i < |con| ==> con[i].a != con[i].b && xyz[con[i].a].z == xyz[con[i].b].z
  {
    var xyz, con := Camera.Coordinates(p, g, depth), Mesh.StoreAll(Mesh.EdgeList(g.rows, g.cols));
    Camera.CoordinatesLength(p, g, depth);
    StoredEdgesForward(g.rows, g.cols);
    FlatCoordinates(p, g, depth, z);
    LevelConnections(xyz, con, z);
  }

  /** On a grid at least one row high and three columns wide the point after
      the middle one exists, and on a flat grid it is level with it. */
  lemma FlatGridMiddle(p: Camera.Intrinsics, g: Disparity.Grid, depth: real -> real, z: real)
    requires g.Valid() && p.f != 0.0 && g.rows >= 1 && g.cols >= 3
    requires forall r, c :: 0 <= r < g.rows && 0 <= c < g.cols ==> depth(g.cell[r][c]) == z
    ensures var xyz, mp := Camera.Coordinates(p, g, depth), MiddlePoint(g.rows, g.cols);
            mp + 1 < |xyz| && xyz[mp + 1].y == xyz[mp].y
  {
    MiddleNeighbourLevel(p, g, depth);
  }

  /** The whole pipeline on a flat scene: for a grid of at least one row
      and three columns, at most 2^16 pixels, whose cells all have depth
      `z`, `run_optimization` gets past its index checks and the initial
      guess `u0` is an exact zero of `errfunc`. */
  lemma FlatGridExact(p: Camera.Intrinsics, g: Disparity.Grid, depth: real -> real, z: real)
    requires g.Valid() && p.f != 0.0 && g.rows >= 1 && g.cols >= 3
    requires g.rows * g.cols <= Mesh.Uint16Modulus
    requires forall r, c :: 0 <= r < g.rows && 0 <= c < g.cols ==> depth(g.cell[r][c]) == z
    ensures var xyz, con := Camera.Coordinates(p, g, depth), Mesh.StoreAll(Mesh.EdgeList(g.rows, g.cols));
            InRange(con, |xyz|) && MiddlePoint(g.rows, g.cols) + 1 < |xyz|
    ensures var xyz, con := Camera.Coordinates(p, g, depth), Mesh.StoreAll(Mesh.EdgeList(g.rows, g.cols));
            GuessIsExact(xyz, con, MiddlePoint(g.rows, g.cols))
  {
    FlatGridConnections(p, g, depth, z);
    FlatGridMiddle(p, g, depth, z);
    FlatSceneExact(Camera.Coordinates(p, g, depth), Mesh.StoreAll(Mesh.EdgeList(g.rows, g.cols)),
                   MiddlePoint(g.rows, g.cols));
  }
}
