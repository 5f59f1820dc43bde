/** `IntrinsicParameters`: the pinhole model that turns a disparity grid into
    camera-frame 3D points. The depth formula `distance_from_disparity` belongs
    to a module outside this model, so it is a parameter `depth` here. */
module Camera {
  import Disparity

  /** Focal length `f` and optical centre `(cx, cy)`, all in pixels. */
  datatype Intrinsics = Intrinsics(f: real, cx: real, cy: real)

  datatype Point3 = Point3(x: real, y: real, z: real)

  /** `IntrinsicParameters.subsample`: focal length and both centre components
      divided by the stride. Returns new parameters instead of mutating. */
  function Subsample(p: Intrinsics, sub: nat): (q: Intrinsics)
    requires sub >= 1
    ensures q.f * (sub as real) == p.f
    ensures q.cx * (sub as real) == p.cx && q.cy * (sub as real) == p.cy
  {
    Intrinsics(p.f / sub as real, p.cx / sub as real, p.cy / sub as real)
  }

  /** The camera-frame point seen at pixel (column `c`, row `r`) at depth `z`. */
  function Project(p: Intrinsics, r: int, c: int, z: real): Point3
    requires p.f != 0.0
  {
    Point3((c as real - p.cx) * (z / p.f), (r as real - p.cy) * (z / p.f), z)
  }

  /** The pinhole model is consistent: a point at non-zero depth projects back
      onto the pixel it was built from. */
  lemma ProjectReprojects(p: Intrinsics, r: int, c: int, z: real)
    requires p.f != 0.0 && z != 0.0
    ensures var q := Project(p, r, c, z);
            p.f * q.x / q.z + p.cx == c as real && p.f * q.y / q.z + p.cy == r as real
  {
    var q := Project(p, r, c, z);
    assert p.f * q.x == (c as real - p.cx) * z;
    assert p.f * q.y == (r as real - p.cy) * z;
  }

  /** The points of row `r`, one per column, left to right. */
  function RowPoints(p: Intrinsics, g: Disparity.Grid, depth: real -> real, r: nat): (pts: seq<Point3>)
    requires g.Valid() && p.f != 0.0 && r < g.rows
    ensures |pts| == g.cols
  {
    seq(g.cols, c requires 0 <= c < g.cols => Project(p, r, c, depth(g.cell[r][c])))
  }

  /** The points of the first `n` rows, row after row. */
  function CloudRows(p: Intrinsics, g: Disparity.Grid, depth: real -> real, n: nat): (pts: seq<Point3>)
    requires g.Valid() && p.f != 0.0 && n <= g.rows
    ensures |pts| == Disparity.RowStart(n, g.cols)
  {
    if n == 0 then [] else CloudRows(p, g, depth, n - 1) + RowPoints(p, g, depth, n - 1)
  }

  /** `coordinates_from_disparity`: one point per cell, in the row-major order
      in which `mgrid(...).T.reshape(-1, 2)` lists the pixels and `ravel()`
      lists the disparities. */
  function Coordinates(p: Intrinsics, g: Disparity.Grid, depth: real -> real): (pts: seq<Point3>)
    requires g.Valid() && p.f != 0.0
    ensures |pts| == Disparity.RowStart(g.rows, g.cols)
  {
    CloudRows(p, g, depth, g.rows)
  }

  /** The cloud has one point per cell. */
  lemma CoordinatesLength(p: Intrinsics, g: Disparity.Grid, depth: real -> real)
    requires g.Valid() && p.f != 0.0
    ensures |Coordinates(p, g, depth)| == g.rows * g.cols
  {
    Disparity.TimesIsProduct(g.rows, g.cols);
  }

  /** The point list is the row-major flattening of the grid: the point of the
      cell in row `r`, column `c` is at index `r * cols + c`, its `x` and `y`
      are the pixel's offsets from the optical centre scaled by `z / f`, and its
      `z` is the depth of that cell's disparity. */
  lemma CoordinatesRowMajor(p: Intrinsics, g: Disparity.Grid, depth: real -> real, r: nat, c: nat)
    requires g.Valid() && p.f != 0.0
    requires r < g.rows && c < g.cols
    ensures var pts := Coordinates(p, g, depth);
            var z := depth(g.cell[r][c]);
            r * g.cols + c < |pts| &&
            pts[r * g.cols + c] == Point3((c as real - p.cx) * (z / p.f), (r as real - p.cy) * (z / p.f), z)
  {
    CoordinatesAt(p, g, depth, r, c);
    Disparity.TimesIsProduct(r, g.cols);
  }

  /** Cell `(r, c)` is point `RowStart(r, cols) + c`. */
  lemma CoordinatesAt(p: Intrinsics, g: Disparity.Grid, depth: real -> real, r: nat, c: nat)
    requires g.Valid() && p.f != 0.0
    requires r < g.rows && c < g.cols
    ensures var pts, k := Coordinates(p, g, depth), Disparity.RowStart(r, g.cols) + c;
            k < |pts| && pts[k] == Project(p, r, c, depth(g.cell[r][c]))
  {
    CloudRowsAt(p, g, depth, g.rows, r, c);
  }

  lemma {:induction false} CloudRowsAt(p: Intrinsics, g: Disparity.Grid, depth: real -> real, n: nat, r: nat, c: nat)
    requires g.Valid() && p.f != 0.0 && n <= g.rows
    requires r < n && c < g.cols
    ensures var pts, k := CloudRows(p, g, depth, n), Disparity.RowStart(r, g.cols) + c;
            k < |pts| && pts[k] == Project(p, r, c, depth(g.cell[r][c]))
  {
    if r < n - 1 {
      CloudRowsAt(p, g, depth, n - 1, r, c);
    }
  }

  lemma ScaleQuotient(a: real, z: real, f: real, k: real)
    requires f != 0.0
    ensures a * (k * z / f) == k * (a * (z / f))
  {
    assert k * z / f == k * (z / f);
  }

  /** The depth formula `depth` scaled by `k`. */
  function ScaleDepth(depth: real -> real, k: real): real -> real {
    d => k * depth(d)
  }

  /** Depth enters linearly: scaling every depth by `k` scales every point by `k`. */
  lemma CoordinatesScaleWithDepth(p: Intrinsics, g: Disparity.Grid, depth: real -> real, k: real, r: nat, c: nat)
    requires g.Valid() && p.f != 0.0
    requires r < g.rows && c < g.cols
    ensures var a, b := Coordinates(p, g, depth), Coordinates(p, g, ScaleDepth(depth, k));
            var n := Disparity.RowStart(r, g.cols) + c;
            |b| == |a| && n < |a| && b[n] == Point3(k * a[n].x, k * a[n].y, k * a[n].z)
  {
    var z := depth(g.cell[r][c]);
    CoordinatesAt(p, g, depth, r, c);
    CoordinatesAt(p, g, ScaleDepth(depth, k), r, c);
    assert ScaleDepth(depth, k)(g.cell[r][c]) == k * z;
    ProjectScales(p, r, c, z, k);
  }

  lemma ProjectScales(p: Intrinsics, r: int, c: int, z: real, k: real)
    requires p.f != 0.0
    ensures var q := Project(p, r, c, z);
            Project(p, r, c, k * z) == Point3(k * q.x, k * q.y, k * q.z)
  {
    ScaleQuotient(c as real - p.cx, z, p.f, k);
    ScaleQuotient(r as real - p.cy, z, p.f, k);
  }

  /** Decimation commutes with projection: a pixel of the decimated grid,
      projected with the decimated intrinsics, is exactly the point of the
      pixel it was taken from, projected with the original intrinsics. */
  lemma ProjectSubsampled(p: Intrinsics, sub: nat, r: int, c: int, z: real)
    requires p.f != 0.0 && sub >= 1
    ensures Subsample(p, sub).f != 0.0
    ensures Project(Subsample(p, sub), r, c, z) == Project(p, r * sub, c * sub, z)
  {
    var s, t := sub as real, z / p.f;
    DivideByQuotient(z, p.f, s);
    OffsetScales(c, sub, p.cx);
    OffsetScales(r, sub, p.cy);
    Regroup(c as real - p.cx / s, s, t);
    Regroup(r as real - p.cy / s, s, t);
  }

  /** `z / (f / s) == s * (z / f)`. */
  lemma DivideByQuotient(z: real, f: real, s: real)
    requires f != 0.0 && s != 0.0
    ensures f / s != 0.0 && z / (f / s) == s * (z / f)
  {
  }

  /** A pixel offset from the decimated centre, scaled back by the stride, is
      the offset of the original pixel from the original centre. */
  lemma OffsetScales(c: int, sub: nat, cx: real)
    requires sub >= 1
    ensures (c as real - cx / sub as real) * (sub as real) == (c * sub) as real - cx
  {
  }

  lemma Regroup(a: real, s: real, t: real)
    ensures a * (s * t) == (a * s) * t
  {
  }

  /** `SquareMesh.subsample` followed by `coordinates_from_disparity` picks
      every `sub`-th point of the full-resolution projection: the point of
      cell `(i, j)` of the decimated grid, projected with the decimated
      intrinsics, and the point of cell `(r, c) = (i * sub, j * sub)` of the
      full grid, projected with the original intrinsics, are one and the same
      point. Multiplication appears as `Times` and a row-major index
      `r * cols + c` as `RowStart(r, cols) + c` (see `Disparity.TimesIsProduct`). */
  lemma DecimationConsistent(p: Intrinsics, g: Disparity.Grid, sub: nat, depth: real -> real, i: nat, j: nat)
    requires g.Valid() && p.f != 0.0 && sub >= 1
    requires Disparity.Times(i, sub) < g.rows && Disparity.Times(j, sub) < g.cols
    ensures Subsample(p, sub).f != 0.0
    ensures var h := Disparity.Subsample(g, sub); i < h.rows && j < h.cols
    ensures var h, r, c := Disparity.Subsample(g, sub), Disparity.Times(i, sub), Disparity.Times(j, sub);
            var small, full := Coordinates(Subsample(p, sub), h, depth), Coordinates(p, g, depth);
            var k, n := Disparity.RowStart(i, h.cols) + j, Disparity.RowStart(r, g.cols) + c;
            var x := Project(p, r, c, depth(g.cell[r][c]));
            k < |small| && n < |full| && small[k] == x && full[n] == x
  {
    DecimatedMultiple(p, g, sub, depth, i, j);
    FullMultiple(p, g, sub, depth, i, j);
  }

  /** `CoordinatesAt` at the cell `(Times(i, sub), Times(j, sub))`. */
  lemma FullMultiple(p: Intrinsics, g: Disparity.Grid, sub: nat, depth: real -> real, i: nat, j: nat)
    requires g.Valid() && p.f != 0.0
    requires Disparity.Times(i, sub) < g.rows && Disparity.Times(j, sub) < g.cols
    ensures var r, c := Disparity.Times(i, sub), Disparity.Times(j, sub);
            var full, n := Coordinates(p, g, depth), Disparity.RowStart(r, g.cols) + c;
            n < |full| && full[n] == Project(p, r, c, depth(g.cell[r][c]))
  {
    CoordinatesAt(p, g, depth, Disparity.Times(i, sub), Disparity.Times(j, sub));
  }

  /** The point of cell `(i, j)` of the decimated grid, with the decimated
      intrinsics, is the projection of cell `(Times(i, sub), Times(j, sub))`
      of the full grid with the original ones. */
  lemma DecimatedMultiple(p: Intrinsics, g: Disparity.Grid, sub: nat, depth: real -> real, i: nat, j: nat)
    requires g.Valid() && p.f != 0.0 && sub >= 1
    requires Disparity.Times(i, sub) < g.rows && Disparity.Times(j, sub) < g.cols
    ensures Subsample(p, sub).f != 0.0
    ensures var h := Disparity.Subsample(g, sub); i < h.rows && j < h.cols
    ensures var h, r, c := Disparity.Subsample(g, sub), Disparity.Times(i, sub), Disparity.Times(j, sub);
            var small, k := Coordinates(Subsample(p, sub), h, depth), Disparity.RowStart(i, h.cols) + j;
            k < |small| && small[k] == Project(p, r, c, depth(g.cell[r][c]))
  {
    var r, c := Disparity.Times(i, sub), Disparity.Times(j, sub);
    Disparity.SubsampleCell(g, sub, i, j);
    ProjectAtMultiple(p, sub, i, j, depth(g.cell[r][c]));
    DecimatedPoint(p, g, sub, depth, i, j);
  }

  /** The point of cell `(i, j)` of the decimated grid is that cell projected
      with the decimated intrinsics. */
  lemma DecimatedPoint(p: Intrinsics, g: Disparity.Grid, sub: nat, depth: real -> real, i: nat, j: nat)
    requires g.Valid() && sub >= 1 && p.f != 0.0
    requires var h := Disparity.Subsample(g, sub); i < h.rows && j < h.cols
    ensures Subsample(p, sub).f != 0.0
    ensures var h := Disparity.Subsample(g, sub);
            var small, k := Coordinates(Subsample(p, sub), h, depth), Disparity.RowStart(i, h.cols) + j;
            k < |small| && small[k] == Project(Subsample(p, sub), i, j, depth(h.cell[i][j]))
  {
    SubsampledFocus(p, sub);
    CoordinatesAt(Subsample(p, sub), Disparity.Subsample(g, sub), depth, i, j);
  }

  lemma SubsampledFocus(p: Intrinsics, sub: nat)
    requires p.f != 0.0 && sub >= 1
    ensures Subsample(p, sub).f != 0.0
  {
    DivideByQuotient(1.0, p.f, sub as real);
  }

  /** `ProjectSubsampled` at the multiples `Times(i, sub)`, `Times(j, sub)`. */
  lemma ProjectAtMultiple(p: Intrinsics, sub: nat, i: nat, j: nat, z: real)
    requires p.f != 0.0 && sub >= 1
    ensures Subsample(p, sub).f != 0.0
    ensures Project(Subsample(p, sub), i, j, z) == Project(p, Disparity.Times(i, sub), Disparity.Times(j, sub), z)
  {
    Disparity.TimesIsProduct(i, sub);
    Disparity.TimesIsProduct(j, sub);
    ProjectSubsampled(p, sub, i, j, z);
  }
}
