/** `SquareMesh`: a disparity grid with its camera, decimated by
    `subsample` and turned into a point cloud with its connection list by
    `generate_xyz_mesh`. */
module SquareMeshes {
  import Disparity
  import Camera
  import Mesh
  import Results

  datatype SquareMesh = SquareMesh(disparity: Disparity.Grid, intparam: Camera.Intrinsics)

  /** The point cloud `xyz` and the connection list `con`. */
  datatype Cloud = Cloud(xyz: seq<Camera.Point3>, con: seq<Mesh.Edge>)

  /** `SquareMesh.subsample`: keeps every `sub`-th row and column of the grid
      and scales the intrinsics to the decimated grid. Returns a new mesh
      instead of mutating. */
  function Subsample(m: SquareMesh, sub: nat): (d: SquareMesh)
    requires m.disparity.Valid() && sub >= 1
    ensures d.disparity.Valid()
    ensures d.disparity.rows == Disparity.StridedLength(m.disparity.rows, sub)
    ensures d.disparity.cols == Disparity.StridedLength(m.disparity.cols, sub)
    ensures d.intparam == Camera.Subsample(m.intparam, sub)
  {
    SquareMesh(Disparity.Subsample(m.disparity, sub), Camera.Subsample(m.intparam, sub))
  }

  /** `SquareMesh.generate_xyz_mesh`: one point per pixel, then the
      connection list of the grid, which fails when `Ncon` is negative. */
  method GenerateXyzMesh(m: SquareMesh, depth: real -> real) returns (r: Results.Result<Cloud>)
    requires m.disparity.Valid() && m.intparam.f != 0.0
    ensures r.Err? <==> Mesh.SlotCount(m.disparity.rows, m.disparity.cols) < 0
    ensures r.Ok? ==> r.value.xyz == Camera.Coordinates(m.intparam, m.disparity, depth)
    ensures r.Ok? ==> |r.value.con| == Mesh.SlotCount(m.disparity.rows, m.disparity.cols)
    ensures r.Ok? && m.disparity.rows >= 1 && m.disparity.cols >= 1 ==>
              r.value.con == Mesh.StoreAll(Mesh.EdgeList(m.disparity.rows, m.disparity.cols))
  {
    var xyz := Camera.Coordinates(m.intparam, m.disparity, depth);
    var con := Mesh.GenerateEdges(m.disparity.rows, m.disparity.cols);
    if con.Err? {
      return Results.Err(con.reason);
    }
    return Results.Ok(Cloud(xyz, con.value));
  }

  /** On a grid of at least one pixel with at most 2^16 pixels, every
      connection of the generated mesh joins two neighbouring points of the
      cloud, and every pair of neighbours is connected exactly once. */
  lemma MeshConnectsNeighbours(m: SquareMesh, c: Cloud)
    requires m.disparity.rows >= 1 && m.disparity.cols >= 1
    requires m.disparity.rows * m.disparity.cols <= Mesh.Uint16Modulus
    requires c.con == Mesh.StoreAll(Mesh.EdgeList(m.disparity.rows, m.disparity.cols))
    ensures forall e :: e in c.con <==> Mesh.Neighbours(e, m.disparity.rows, m.disparity.cols)
    ensures forall i, j :: 0 <= i < j < |c.con| ==> c.con[i] != c.con[j]
  {
    Mesh.StoredExactly(m.disparity.rows, m.disparity.cols);
    Mesh.EdgeListNeighbours(m.disparity.rows, m.disparity.cols);
    Mesh.EdgeListOrdered(m.disparity.rows, m.disparity.cols);
  }
}
