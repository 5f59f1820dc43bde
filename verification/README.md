# Distance-preserving mapping: the geometric core of `fit_mapping.py`

This project is a Dafny model of the part of `fit_mapping.py` that comes
before the nonlinear least-squares solve. It covers:

- **Camera** (`IntrinsicParameters`): a pinhole camera turns a disparity
  image into a row-major list of camera-frame 3D points. `subsample` divides
  the focal length and the optical centre by an integer stride.
- **Disparity**: the disparity grid and its strided decimation
  `disparity[::sub, ::sub]`.
- **Mesh** (`SquareMesh.generate_xyz_mesh`): the connection list `con`. A
  walk over the pixels of an `Nl x Nk` grid connects each pixel to its right
  neighbour and to the three pixels touching it in the row below. The walk
  fills exactly the `Ncon` rows it preallocates.
- **SquareMeshes** (`SquareMesh`): a grid with its camera, decimated by
  `subsample` and turned into a point cloud plus connection list.
- **Linalg**: the dense `dot(u, M)` and element-wise squares.
- **Residuals**: `fitfunc`, `devfunc` and `errfunc`. `fitfunc` is proved equal to the source's construction from the strided slices of `D`.
- **Results**: the value an operation returns, or the exception numpy or Python raises instead.
- **Problem** (`run_optimization` up to `leastsq`): the ±1 design matrix
  `M`, the squared-length targets `d_x`, the three anchor columns at the
  middle pixel `mp`, and the initial guess `u0` of the main block.

Integer divisions are Python 2 floor divisions. Unknowns are interleaved:
`u[2k]` and `u[2k + 1]` are the plane coordinates of point `k`.

Two index offsets are written with `Disparity.Times`, which is
multiplication by repeated addition:

- the first index of a row, `Disparity.RowStart(r, cols)`;
- the kept positions of a strided slice, `Times(i, sub)`.

This keeps the proofs about them linear. `Disparity.TimesIsProduct` proves
`Times(a, b) == a * b`. Contracts that quote the source's formulas, such as
`Camera.CoordinatesRowMajor` and `Mesh.SourceTests`, state the products
themselves.

## Model

| member | source | states |
|---|---|---|
| Disparity.Subsample | fit_mapping.py:118 | The decimated grid has one row per multiple of `sub` below `rows` and one column per multiple below `cols` (a ceiling division). Its cell `(i, j)` is the original cell `(i*sub, j*sub)`. |
| Disparity.StridedIndex | fit_mapping.py:118 | Position `i` of the slice `[::sub]` exists if and only if `i*sub` lies on the axis. |
| Disparity.RowMajor | fit_mapping.py:63-64 | Cell `(r, c)` of a grid `cols` wide is index `r*cols + c < rows*cols`, and that index gives back `r` and `c`. |
| Disparity.RowMajorInverse | fit_mapping.py:63-64 | Every index below `rows*cols` is `row*cols + col` for a cell of the grid. |
| Disparity.TimesIsProduct | fit_mapping.py:63 | Repeated addition equals the product, which ties the linear offsets to the source's `r*cols + c`. |
| Camera.Subsample | fit_mapping.py:49-51 | `subsample(sub)` divides `f`, `cx` and `cy` by `sub`: each new value times `sub` is the old one. |
| Camera.ProjectReprojects | fit_mapping.py:64-73 | A projected point at non-zero depth reprojects through `f * x / z + cx` onto the column and row it came from. |
| Camera.Coordinates | fit_mapping.py:58-74 | `coordinates_from_disparity` returns one point per cell. Where each point lies is stated by `Camera.CoordinatesRowMajor` and `Camera.CoordinatesAt`. |
| Camera.CoordinatesLength | fit_mapping.py:63 | `coordinates_from_disparity` returns `rows * cols` points. |
| Camera.CoordinatesRowMajor | fit_mapping.py:58-74 | Point `r*cols + c` is `((c - cx) * z/f, (r - cy) * z/f, z)` with `z = depth(disparity[r][c])`. |
| Camera.CoordinatesAt | fit_mapping.py:63-73 | The point at the row-major index of cell `(r, c)` is the projection of pixel `(r, c)` at the depth of its disparity. |
| Camera.CoordinatesScaleWithDepth | fit_mapping.py:68-73 | Depth enters linearly: scaling the depth function by `k` scales every point by `k`. |
| Camera.ProjectSubsampled | fit_mapping.py:49-51 | Projecting pixel `(r, c)` with the subsampled intrinsics equals projecting pixel `(r*sub, c*sub)` with the original ones. |
| Camera.DecimationConsistent | fit_mapping.py:117-119 | After `SquareMesh.subsample`, point `(i, j)` of the decimated cloud equals point `(i*sub, j*sub)` of the full-resolution cloud. |
| Mesh.SlotCount | fit_mapping.py:88 | `Ncon` counts one slot per pair of horizontal neighbours, `Nl (Nk-1)`, one per pair of vertical neighbours, `(Nl-1) Nk`, and two diagonals per square of four pixels, `2 (Nl-1)(Nk-1)`. `Mesh.EdgeCount` proves the walk fills them. |
| Mesh.EdgeCount | fit_mapping.py:87-115 | For `Nl, Nk >= 1` the walk emits exactly `Ncon = 4(Nk-1)(Nl-1) + Nk + Nl - 2` connections. |
| Mesh.SourceTests | fit_mapping.py:96-112 | The source's tests classify pixel `p = r*Nk + c` by position: `(p+1) % Nk != 0` exactly off the last column; `p % Nk != 0` exactly off the first column; `p < Nk*(Nl-1)` exactly off the last row. |
| Mesh.EdgeShape | fit_mapping.py:94-115 | Every connection `(p, q)` has `p < q < Nl*Nk`. Its offset is `1` (with `(p+1) % Nk != 0`), `Nk` (with `p < Nk*(Nl-1)`), `Nk-1` (also with `p % Nk != 0`) or `Nk+1` (also with `(p+1) % Nk != 0`). |
| Mesh.EdgeListNeighbours | fit_mapping.py:94-115 | A pair is in the list if and only if it joins a pixel to its right neighbour or to one of the three pixels touching it in the next row. |
| Mesh.EdgeListOrdered | fit_mapping.py:94-115 | The list is sorted by first endpoint. At one first endpoint the order is right, down, down-left, down-right. No pair occurs twice. |
| Mesh.TwoByTwo | fit_mapping.py:94-115 | A 2 x 2 grid gives `(0,1),(0,2),(0,3),(1,3),(1,2),(2,3)`, which is `Ncon = 6` connections. |
| Mesh.EmitPixel | fit_mapping.py:95-115 | One pass of the loop body, run under the source's `%` and `<` tests, appends exactly the connections of pixel `p` in emission order. |
| Mesh.FillEdges | fit_mapping.py:93-115 | The loop over all pixels fills every preallocated slot with the connection list, stored as `uint16`. |
| Mesh.GenerateEdges | fit_mapping.py:87-115 | A negative `Ncon` fails as `numpy.zeros` does. Otherwise `con` has `Ncon` rows: the stored connection list on a non-empty grid, and two untouched zero rows on a 0 x 0 grid. |
| Mesh.EmptySide | fit_mapping.py:88-89 | A grid with exactly one side of length zero has a negative `Ncon`. |
| Mesh.StoredExactly | fit_mapping.py:89 | On grids of at most 2^16 pixels the `uint16` storage loses nothing. |
| SquareMeshes.Subsample | fit_mapping.py:117-119 | The mesh's grid is decimated to the strided shape, and its intrinsics are those of `IntrinsicParameters.subsample`. |
| SquareMeshes.GenerateXyzMesh | fit_mapping.py:82-115 | `xyz` is the projected cloud. `con` has `Ncon` rows and is the stored connection list, or there is an error exactly when `Ncon < 0`. |
| SquareMeshes.MeshConnectsNeighbours | fit_mapping.py:94-115 | The generated `con` holds each pair of neighbouring pixels exactly once, and nothing else. |
| Residuals.Fitfunc | fit_mapping.py:31-37 | `fitfunc(u, M)` has `Ned + 3` entries, all non-negative. |
| Residuals.EverySecondAt | fit_mapping.py:35 | The slice `s[start::2]` that `D[0:-3:2]` and `D[1:-3:2]` take has `ceil((|s| - start) / 2)` entries, and its entry `k` is `s[start + 2k]`. |
| Residuals.PairSums | fit_mapping.py:34-36 | Built from the two strided slices and `D[-3:]`: entry `k < Ned` is `D[2k] + D[2k+1]`, which pairs the slices position by position because both have `Ned` entries, and entry `Ned + t` is `D[2 Ned + t]`. |
| Residuals.FitfuncSlices | fit_mapping.py:31-37 | For every `u` and `M`, `fitfunc` as the model indexes it, with entry `k < Ned` the squares of columns `2k` and `2k+1` and entry `Ned + t` the square of column `2 Ned + t`, equals the source's construction from the strided slices `D[0:-3:2] + D[1:-3:2]` and `D[-3:]`. |
| Residuals.Devfunc | fit_mapping.py:39-40 | `devfunc(u, M)` has one entry per column of `M`. What the entries are is stated by `Residuals.DevfuncIsDerivative`, `Problem.DevfuncOfDesign` and `Problem.DevfuncOfAnchors`. |
| Residuals.Errfunc | fit_mapping.py:42 | `errfunc(u, M, d_x)` has one entry per target. When it vanishes is stated by `Problem.FlatSceneExact` and `Problem.FlatGridExact`. |
| Residuals.DevfuncIsDerivative | fit_mapping.py:39-40 | `devfunc = 2 dot(u, M)` is the derivative of `D = dot(u, M)**2`: moving `u` by `h` changes `D[j]` by `devfunc[j] * s[j] + s[j]^2`, with `s = dot(h, M)`. |
| Problem.MiddlePoint | fit_mapping.py:141 | `mp` is the row-major index `RowStart(Nl/2, Nk) + Nk/2` of the pixel in row `Nl/2`, column `Nk/2`. |
| Problem.MiddlePixel | fit_mapping.py:141 | The pixel with index `mp` lies in row `Nl/2` and column `Nk/2`. |
| Problem.AnchorInRange | fit_mapping.py:141-144 | `mp` is a pixel of the grid. `mp + 1` is one as well unless both sides are at most 2. |
| Problem.EdgeColumnEntries | fit_mapping.py:129-135 | Column `2i + par` of `M` is `-1` at row `2b + par`, `+1` at row `2a + par` when `a != b`, and zero elsewhere. |
| Problem.AnchorColumn | fit_mapping.py:142-144 | Each of the last three columns of `M` holds a single `1`, at row `2mp`, `2mp + 1` or `2mp + 3`. |
| Problem.Targets | fit_mapping.py:127-137 | `d_x` has `Ned + 3` entries, all non-negative, and the last three are zero. |
| Problem.SqDistSymmetric | fit_mapping.py:137 | The target of a connection does not depend on the direction of the pair, and a common translation of both points leaves it unchanged. |
| Problem.EdgeWrites | fit_mapping.py:132-135 | The four writes of iteration `i` complete columns `2i` and `2i + 1` of `M`. |
| Problem.AnchorWrites | fit_mapping.py:142-144 | The three anchor writes complete `M`. |
| Problem.WriteConnections | fit_mapping.py:129-137 | The loop succeeds if and only if every endpoint indexes a point. It then leaves every connection column of `M` and every target of `d_x` filled. |
| Problem.Assemble | fit_mapping.py:121-144 | `run_optimization` raises an index error exactly when an endpoint is beyond the point list or `mp + 1 >= Np`. Otherwise it builds exactly the design matrix and the targets. |
| Problem.InitialGuess | fit_mapping.py:216-218 | `u0` has `2 Np` entries, with `u0[2mp] = u0[2mp+1] = 0`. It fails exactly when `mp` is not a point. |
| Problem.InitialGuessRelative | fit_mapping.py:218 | Differences of entries of `u0` are differences of the points' `x` and `y`. |
| Problem.FitOfEdge | fit_mapping.py:31-37 | On the design matrix, `fitfunc[i] = (u[2a]-u[2b])^2 + (u[2a+1]-u[2b+1])^2` for connection `i = (a, b)` with `a != b`. For `a == b` it is the square of the second point's entries. |
| Problem.FitOfAnchors | fit_mapping.py:36 | On the design matrix, the last three entries of `fitfunc` are `u[2mp]^2`, `u[2mp+1]^2` and `u[2mp+3]^2`. |
| Problem.EdgeColumnDot | fit_mapping.py:129-135 | `u` against column `2i + par` of `M` is `u[2a+par] - u[2b+par]`, or `-u[2b+par]` when `a == b`. |
| Problem.DevfuncOfDesign | fit_mapping.py:39-40 | On the design matrix, entries `2i` and `2i + 1` of `devfunc` are twice the coordinate differences along connection `i = (a, b)`, or `-2 u[2b]` and `-2 u[2b+1]` when `a == b`. |
| Problem.DevfuncOfAnchors | fit_mapping.py:39-40 | On the design matrix, the anchor entries of `devfunc` are twice `u[2mp]`, `u[2mp+1]` and `u[2mp+3]`. |
| Problem.FlatSceneExact | fit_mapping.py:216-218 | When every connection joins two distinct points at equal depth and point `mp + 1` is level with `mp`, `errfunc(u0, M, d_x)` is zero. |
| Problem.MiddleNeighbourLevel | fit_mapping.py:141 | On a grid at least three pixels wide, points `mp` and `mp + 1` share a row, so they are level when their depths agree. |
| Problem.FlatGridExact | fit_mapping.py:121-144 | For a constant-depth grid of at least 1 x 3 and at most 2^16 pixels, `run_optimization` passes its index checks and `u0` is an exact zero of `errfunc`. |

## Left out

- `scipy.optimize.leastsq`, `final_err` and `mdist` (fit_mapping.py:150-157): a foreign floating-point solver with no statable postcondition. `Problem.Assemble` ends where the solver call begins.
- The `__main__` block (fit_mapping.py:162-274): plotting, colour maps, `loadtxt` file input and argument checks. Only the `mp` and `u0` arithmetic of lines 216-218 is modelled.
- `fit_camera.py` is not part of this model. It is an interactive script built on mouse clicks and image files.
- `distance_from_disparity` lives in the `sim_stereo` module, which is not part of this model. It is the uninterpreted parameter `depth: real -> real`.
- Floating point: coordinates are reals. A focal length of zero (where numpy gives infinities) is excluded by a `requires p.f != 0.0`.
- Strides: `sub >= 1` is required. A zero stride raises in numpy, and a negative stride reverses the grid instead of decimating it.
- Mutation: `subsample` mutates the shared `intparam`, and `run_optimization` and the edge loop write into preallocated arrays. All of these are modelled as functions or methods that return new values. `Mesh.FillEdges` keeps the loop over `p` as a `while` loop.
- `uint16` storage of `con`: a stored index is reduced modulo 2^16 (`Mesh.StoreAll`). That this loses nothing is proved only for grids of at most 2^16 pixels. The products `a*2` and `b*2` are taken on unbounded integers.
- Residuals.Fitfunc: requires an odd column count. Every `M` that `run_optimization` builds has one; on an even count the two slices of `D` differ in length, and numpy either broadcasts a length-one slice or raises.
- Residuals.Devfunc: its own contract gives only the length. Its meaning is stated by `Residuals.DevfuncIsDerivative`, `Problem.DevfuncOfDesign` and `Problem.DevfuncOfAnchors`. The code never passes `devfunc` to `leastsq` (line 153), so nothing in the model feeds it to the solver.
- Problem.AnchorColumn: row `2mp + 3` is the `y` of point `mp + 1`, so the third anchor pins it to the `y` of `mp` (line 144). That it is level with `mp` is what `Problem.FlatSceneExact` assumes and `Problem.MiddleNeighbourLevel` proves for a grid at least three wide.
- Camera.DecimationConsistent: stated per cell, with the decimated indices written `Times(i, sub)`. `Disparity.TimesIsProduct` equates these with `i * sub`.
- That a target is zero exactly when the endpoints coincide, and that a `fitfunc` entry is zero exactly when both differences are, are not stated. Both need nonlinear facts about squares of reals beyond `Sq(x) >= 0`.
