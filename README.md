# dia core, modelled in Dafny

This project models the discrete core of `dia`, a Rust ray-tracing and
Monte-Carlo radiative-transfer (MCRT) toolkit. Floating-point colour physics,
random sampling, threading and file I/O sit outside this core. What remains is
index arithmetic and bounding-box bookkeeping, together with the control logic
of the octree spatial index those simulations trace rays through. Every value
of type `f64` is a Dafny `real`. Geometry that the core only calls is a
function-valued parameter:

- triangle/box overlap;
- ray-triangle and ray-box distance;
- box expansion;
- triangle area;
- the transformation applied to a triangle;
- normalisation;
- the aspect ratio's vertical resolution;
- float-token parsing;
- an item's `Display`.

| file | models |
|---|---|
| `index.dfy` | `three_dim`: a linear index split into an (x, y, z) index |
| `render_run.dfy` | pixel orders, pixel coordinates, the flipped preview buffer and `from_u8_rgb` of the renderer |
| `sensor.dfy` | `Sensor::new`, `num_pixels`, `super_samples` |
| `vectors.dfy`, `aabb.dfy` | `Pos3`/`Vec3` over reals; `Aabb` and its width, centre, area, volume and containment |
| `grid.dfy` | the regular grid: `Grid::new`, `total_cells`, `gen_index`, `gen_index_voxel` |
| `mesh.dfy`, `mesh_load.dfy` | `Mesh` with its bounding box, area, overlap and transform; the Wavefront OBJ loader over the file's lines |
| `groups.dfy`, `scene.dfy` | group keys in ascending order, as a `BTreeMap` iterates them; `Scene::new`, `init_boundary`, `load` |
| `octree.dfy`, `construct.dfy`, `constructor.dfy` | the `Root`/`Branch`/`Leaf`/`Empty` cell and its recursive construction |
| `properties.dfy` | the cell counters `max_depth`, `num_cells`, `num_leaf_cells` and `num_tri_refs` |
| `search.dfy` | `find_terminal_cell` |
| `scan.dfy` | `hit_scan` and `observe` |
| `mcrt_hit.dfy`, `mcrt_event.dfy` | MCRT `Hit::new` and `Event::new` |
| `lambda_formula.dfy`, `func_formula.dfy`, `multivariate.dfy`, `linear_plan.dfy` | the formula evaluators and the piecewise-linear interpolant |
| `average.dfy`, `grid_data.dfy`, `mcrt_data.dfy`, `mcrt_output.dfy` | the running average and the MCRT output grids merged in place |
| `group_maps.dfy`, `attributes.dfy`, `colours.dfy` | the group-keyed builders that reject duplicates |
| `slice_fmt.dfy` | the `list` formatter |

The construction code exists twice in the source. The octree of
`sci/math/geom/dom/tree/construct.rs` and the adaptive grid of
`geom/dom/grid/adaptive/constructor.rs` have identical `init_child` and
`init_children`, so `TreeConstruct` models those two once. The two versions
differ in `new_root` and `init_boundary`, so each is modelled separately:
- the tree pads after `init_boundary` and starts its children at depth 1;
- the adaptive grid pads inside `init_boundary` and starts at depth 0.

The source has five kinds of failure, and the model treats each differently:
- A `debug_assert!`, a `require!`, or a `panic!` on a case the caller must not pass becomes a `requires`. The `panic!` is the one in `hit_scan` on a Root or Branch cell (src/sci/math/geom/dom/grid/adaptive/scan.rs:41), which becomes `requires cell.Leaf? || cell.Empty?` on `AdaptiveScan.HitScan`.
- A panic that input data can trigger becomes an error value. This covers a malformed OBJ line, an index out of range, a file with no faces, a duplicate group, a gradient with no colours, and a bad index or length mismatch in `Multivariate`.
- An `unwrap` on a collection that the caller could pass empty becomes a `requires` that it is not empty. Each such method is listed under "## Left out".
- An integer division by a resolution that the caller could pass as zero becomes a `requires` that it is positive. Each such member is listed under "## Left out".
- An `unwrap` that cannot fail is discharged by proof.

## Model

| member | source | states |
|---|---|---|
| LinIndex.ThreeDim | src/tools/lin/index.rs:8-14 | z < res[Z] and y < res[Y] whenever res[Y], res[Z] > 0 |
| LinIndex.ThreeDimRecombines | src/tools/lin/index.rs:8-13 | x·ry·rz + y·rz + z gives back the linear index n |
| LinIndex.ThreeDimInRange | src/tools/lin/index.rs:11 | x < res[X] whenever n < rx·ry·rz |
| LinIndex.ThreeDimInverse | src/tools/lin/index.rs:8-13 | decomposing x·ry·rz + y·rz + z returns (x, y, z) for in-range y and z |
| LinIndex.ThreeDimIgnoresX | src/tools/lin/index.rs:8-14 | the result does not depend on res[X] |
| RenderRun.Forward | src/sim/render/run.rs:28 | the forward order is a permutation of 0..num_pixels in strictly ascending order |
| RenderRun.Below | src/sim/render/run.rs:28 | the pixel set {0..n-1} has exactly n members |
| RenderRun.PermutationCoversAll | src/sim/render/run.rs:27-39 | every pixel below num_pixels occurs in any order that is a permutation |
| RenderRun.Backward | src/sim/render/run.rs:29-33 | the backward order is the forward order reversed, a permutation, strictly descending |
| RenderRun.PixelCoord | src/sim/render/run.rs:232 | [p % h_res, p / h_res] has x < h_res and x + y·h_res == p |
| RenderRun.PixelCoordInImage | src/sim/render/run.rs:179 | for p below h_res·v_res the row is below v_res |
| RenderRun.BufferIndex | src/sim/render/run.rs:251 | total − (p+1) lies in [0, total) and sums with p to total − 1 |
| RenderRun.BufferIndexFlips | src/sim/render/run.rs:251-257 | the buffer index is an involution that reverses the order of pixels |
| RenderRun.FromU8Rgb | src/sim/render/run.rs:266-268 | the packed colour is below 2^24 and r, g, b are recovered by shift and mask |
| RenderRun.FromU8RgbValue | src/sim/render/run.rs:266-268 | the packed colour equals r·2^16 + g·2^8 + b |
| RenderRun.PaintBlock | src/sim/render/run.rs:228-258 | slot q paints pixel order[q + buffer_start] at its flipped buffer index; no other buffer entry changes |
| Cameras.NewSensor | src/sim/render/camera/sensor.rs:20-27 | res is (hr_res, vt_res(hr_res)), the power is stored unchanged, and the power is > 1 when present |
| Cameras.NumPixels | src/sim/render/camera/sensor.rs:32-34 | there are no pixels exactly when one side of the resolution is zero |
| Cameras.NumPixelsCoversImage | src/sim/render/camera/sensor.rs:32-34 | num_pixels = res.0·res.1 indexes exactly the (x, y) pixels of the image, both ways |
| Cameras.SuperSamples | src/sim/render/camera/sensor.rs:39-45 | power² with a power, 1 without; a valid sensor gives 1 or at least 4 |
| Vectors.Min | src/geom/surf/mesh.rs:49-55 | the componentwise minimum is below both arguments and attained by one of them on each axis |
| Vectors.Max | src/geom/surf/mesh.rs:49-55 | the componentwise maximum is above both arguments and attained by one of them on each axis |
| Vectors.FoldsBound | src/geom/surf/mesh.rs:47-57 | the folded minimum and maximum bound every vertex |
| Vectors.FoldsAttained | src/geom/surf/mesh.rs:47-57 | each folded bound is attained by some vertex on each axis |
| Vectors.FoldsSnoc | src/geom/surf/mesh.rs:47-57 | one more vertex updates the folds by one min/max step |
| Boxes.New | src/geom/surf/aabb.rs:21-25 | mins < maxs gives a proper box that contains both corners and has positive widths |
| Boxes.NewCentred | src/geom/surf/aabb.rs:30-34 | with positive half widths, the box is proper, has centre c and has half widths hws |
| Boxes.Widths | src/geom/surf/aabb.rs:39-41 | mins + widths == maxs; positive on a proper box |
| Boxes.HalfWidths | src/geom/surf/aabb.rs:46-48 | two half widths make the widths; mins + 2·hw == maxs |
| Boxes.Centre | src/geom/surf/aabb.rs:53-55 | the centre is equidistant from both corners and equals mins + half widths |
| Boxes.Area | src/geom/surf/aabb.rs:60-63 | area == 2(wx·wy + wy·wz + wz·wx), positive on a proper box |
| Boxes.Vol | src/geom/surf/aabb.rs:68-71 | the volume of a proper box is positive |
| Boxes.Contains | src/geom/surf/aabb.rs:76-78 | a box contains a point only if its mins are at most its maxs on every axis |
| Boxes.ContainsCorners | src/geom/surf/aabb.rs:76-78 | containment is inclusive: mins, maxs and the centre are contained |
| RegularGrid.New | src/sci/math/geom/dom/grid/mod.rs:29-40 | the bound and res are kept, and voxel_size·res == widths on each axis; it never fails, and for a proper bound the voxel sizes are positive |
| RegularGrid.TotalCells | src/sci/math/geom/dom/grid/mod.rs:45-47 | the grid has cells exactly when every resolution component is positive |
| RegularGrid.TotalCellsEnumerated | src/sci/math/geom/dom/grid/mod.rs:45-47 | the total_cells linear indices decompose into distinct in-range cells |
| RegularGrid.AxisIndex | src/sci/math/geom/dom/grid/mod.rs:58-60 | floor((p−min)/(max−min)·n) lies in [0, n], and equals n exactly on the max face |
| RegularGrid.GenIndex | src/sci/math/geom/dom/grid/mod.rs:53-65 | None iff the bound does not contain p; each component is ≤ res and equals res only on the max face |
| RegularGrid.GenIndexVoxel | src/sci/math/geom/dom/grid/mod.rs:71-82 | None iff gen_index is None; otherwise the same index with a proper box of extent voxel_size that contains the point (z offset corrected, see Findings) |
| RegularGrid.VoxelSizePositive | src/sci/math/geom/dom/grid/mod.rs:30-33 | a valid grid has positive voxel sizes |
| RegularGrid.VoxelAsWrittenMissesPoint | src/sci/math/geom/dom/grid/mod.rs:73-78 | a contained point that the voxel built as written (x offset twice, z never) does not contain |
| RegularGrid.IntendedVoxelContainsPoint | src/sci/math/geom/dom/grid/mod.rs:72-78 | with the z offset applied to min.z, the voxel contains the point and has extent voxel_size |
| Meshes.AllVerts | src/geom/surf/mesh.rs:47-48 | three vertices per triangle |
| Meshes.AllVertsAt | src/geom/surf/mesh.rs:47-48 | vertex 3i + j of the flattening is vertex j of triangle i |
| Meshes.BoundingBoxEncloses | src/geom/surf/mesh.rs:37-60 | every vertex of every triangle lies in the mesh box |
| Meshes.BoundingBoxTight | src/geom/surf/mesh.rs:37-60 | each of the six box bounds is attained by some vertex |
| Meshes.UpdateAxis | src/geom/surf/mesh.rs:50-54 | the else-if update lowers the min or raises the max, and keeps min ≤ max |
| Meshes.InitAabb | src/geom/surf/mesh.rs:37-60 | the nested loops compute the bounding box of all vertices |
| Meshes.WidenOverVerts | src/geom/surf/mesh.rs:48-56 | widening over one triangle's vertices extends both folds by those vertices |
| Meshes.New | src/geom/surf/mesh.rs:29-34 | stores the triangles unchanged, with their bounding box |
| Meshes.FoldsOfSubset | src/geom/surf/mesh.rs:37-60 | a box over a superset of vertices encloses the box over a subset |
| Meshes.FoldsSameElements | src/geom/surf/mesh.rs:37-60 | the box depends only on the set of vertices, so the first vertex counts once |
| Meshes.TotalAreaAppend | src/geom/surf/mesh.rs:65-73 | the summed area of concatenated triangle lists is the sum of the parts |
| Meshes.TotalAreaBounds | src/geom/surf/mesh.rs:65-73 | with non-negative triangle areas, the total is at least each triangle's area |
| Meshes.Area | src/geom/surf/mesh.rs:65-73 | the loop accumulates the sum of the triangle areas |
| Meshes.Overlap | src/geom/surf/mesh.rs:79-91 | true iff the mesh box overlaps and some triangle overlaps; false whenever the box does not overlap |
| Meshes.Transform | src/geom/surf/mesh.rs:96-102 | every triangle is transformed in order and the box is recomputed from the transformed triangles |
| MeshLoad.Words | src/geom/surf/mesh.rs:117 | split_whitespace yields non-empty words free of whitespace |
| MeshLoad.WordsOfJoined | src/geom/surf/mesh.rs:117 | splitting words joined by single spaces gives the words back |
| MeshLoad.ReplaceSlashes | src/geom/surf/mesh.rs:153 | replacing "//" by " " never lengthens the line |
| MeshLoad.ReplaceSlashesKeeps | src/geom/surf/mesh.rs:153 | text free of slashes passes through unchanged |
| MeshLoad.ParseUsize | src/geom/surf/mesh.rs:157-162 | a parsed usize fits in 64 bits and came from a '+' or a digit |
| MeshLoad.ParseUsizeShow | src/geom/surf/mesh.rs:157-162 | a rendered usize parses back to itself |
| MeshLoad.ParseIndex | src/geom/surf/mesh.rs:157-162 | a face index is the parsed usize minus one; zero is rejected as the subtraction's overflow, as a debug build checks it |
| MeshLoad.ParseIndexShow | src/geom/surf/mesh.rs:157-162 | index n + 1 written in the file reads back as n |
| MeshLoad.Filter | src/geom/surf/mesh.rs:109-113 | exactly the lines with the prefix are kept |
| MeshLoad.FilterAppend | src/geom/surf/mesh.rs:109-113 | filtering keeps file order: the lines kept from two blocks are those of the first, then those of the second |
| MeshLoad.FilterOne | src/geom/surf/mesh.rs:109-113 | a single line is kept iff it starts with the prefix |
| MeshLoad.ParseTriple | src/geom/surf/mesh.rs:116-125 | a "v"/"vn" line parses only with at least a keyword and three words |
| MeshLoad.FaceLineRoundTrip | src/geom/surf/mesh.rs:152-165 | the line "f a//na b//nb c//nc" with one-based indices parses to the zero-based face |
| MeshLoad.ParseTriples | src/geom/surf/mesh.rs:115-125 | succeeds iff every line parses; the i-th point, post-processed, comes from the i-th line |
| MeshLoad.ParseFaces | src/geom/surf/mesh.rs:151-165 | succeeds iff every face line parses; faces are in line order |
| MeshLoad.BuildTriangles | src/geom/surf/mesh.rs:167-181 | succeeds iff every face index is in range; triangle k takes the vertices and normals face k names |
| MeshLoad.Load | src/geom/surf/mesh.rs:108-184 | Ok iff the lines load; one triangle per "f" line in file order, built from the "v"/"vn" lines, with its bounding box; otherwise the first failing stage names the error: bad vertex, then bad normal, then bad face, then index out of range, then no faces |
| MeshLoad.LoadedTriangles | src/geom/surf/mesh.rs:145-183 | the parsed vertices, normals and faces in range assemble to the specified triangles |
| Groups.SortedKeys | src/geom/dom/collect/scene.rs:33 | the keys of a group map, each once, in strictly ascending order |
| Groups.SortedKeysCount | src/geom/dom/collect/scene.rs:33 | the ascending key list has as many entries as the map has keys |
| Scenes.UnionEncloses | src/geom/dom/collect/scene.rs:29-64 | the union's mins are ≤ and its maxs are ≥ every box's corners |
| Scenes.UnionTight | src/geom/dom/collect/scene.rs:29-64 | each of the union's six bounds is attained by some box |
| Scenes.UnionProper | src/geom/dom/collect/scene.rs:63 | the union of proper boxes is proper |
| Scenes.Widen | src/geom/dom/collect/scene.rs:35-59 | one Option-min/max update folds one more box into the running corners |
| Scenes.WidenOver | src/geom/dom/collect/scene.rs:34-60 | widening over one group's meshes folds in their boxes in order |
| Scenes.InitBoundary | src/geom/dom/collect/scene.rs:29-64 | the loops compute the union of every mesh box of every group |
| Scenes.BoundaryEncloses | src/geom/dom/collect/scene.rs:29-64 | the boundary encloses every mesh's box |
| Scenes.New | src/geom/dom/collect/scene.rs:21-24 | the surfaces are stored unchanged with the boundary computed from them |
| Scenes.ObjPath | src/geom/dom/collect/scene.rs:76 | the path ends in "<name>.obj" |
| Scenes.AddMesh | src/geom/dom/collect/scene.rs:80-84 | appends to the group's list, creating it on first occurrence; other groups are unchanged |
| Scenes.CollectedSnoc | src/geom/dom/collect/scene.rs:80-84 | appending a loaded mesh keeps every group's meshes equal to its listed names, loaded in order |
| Scenes.LoadGroup | src/geom/dom/collect/scene.rs:75-85 | Ok iff every name of the group loads; otherwise the error is that of the first failing name |
| Scenes.FirstFailure | src/geom/dom/collect/scene.rs:78 | a failure within one group is the first failure over all listed names |
| Scenes.Load | src/geom/dom/collect/scene.rs:69-89 | Ok iff every listed mesh loads; the first failure's error otherwise; the groups hold their meshes in listing order with the boundary over them |
| Octree.OctantInside | src/sci/math/geom/dom/tree/construct.rs:75-100 | an octant has extent half the parent's widths and lies inside the parent; octants of a proper box are proper |
| TreeConstruct.Overlapping | src/sci/math/geom/dom/tree/construct.rs:117-122 | the kept triangles are exactly the candidates overlapping the volume |
| TreeConstruct.Filter | src/sci/math/geom/dom/tree/construct.rs:117-122 | the push loop keeps the overlapping candidates in their original order |
| TreeConstruct.InitChild | src/sci/math/geom/dom/tree/construct.rs:106-135 | builds the specified child: Empty, Leaf or a Branch over the overlapping triangles |
| TreeConstruct.InitChildren | src/sci/math/geom/dom/tree/construct.rs:66-101 | builds the eight specified children, one per octant |
| TreeConstruct.ListsChildren | src/sci/math/geom/dom/tree/construct.rs:91-100 | the eight children listed nnn, pnn, npn, ppn, nnp, pnp, npp, ppp are the children in octant order |
| TreeConstruct.OctantsAre | src/sci/math/geom/dom/tree/construct.rs:86-98 | child k has min corner mins + hws·(bit0, bit1, bit2) of k and extent hws |
| TreeConstruct.ChildKind | src/sci/math/geom/dom/tree/construct.rs:114-134 | Empty iff nothing overlaps the padded volume; Leaf iff some overlap and count ≤ tar_tris or depth ≥ max_depth, holding exactly the overlapping triangles; a Branch only below max_depth |
| TreeConstruct.ChildIsBranch | src/sci/math/geom/dom/tree/construct.rs:128-134 | too many overlaps below max_depth give a Branch whose children are built at depth + 1 from the overlapping triangles |
| TreeConstruct.ChildIsTerminal | src/sci/math/geom/dom/tree/construct.rs:124-130 | no overlaps, or few enough, or the depth limit, give a Leaf or Empty cell |
| TreeConstruct.ChildWellFormed | src/sci/math/geom/dom/tree/construct.rs:106-135 | every constructed cell is well formed: branches have eight children on their octants |
| TreeConstruct.ChildrenWellFormed | src/sci/math/geom/dom/tree/construct.rs:66-101 | the eight children are well-formed non-root cells on their octants |
| TreeConstruct.ChildrenAt | src/sci/math/geom/dom/tree/construct.rs:66-101 | there are exactly eight children and child k is built on octant k |
| TreeConstruct.ChildDepth | src/sci/math/geom/dom/tree/construct.rs:112-134 | a child built at depth d has max_depth ≤ max_depth − d + 1, so construction stops |
| TreeConstruct.ChildrenDepth | src/sci/math/geom/dom/tree/construct.rs:72 | the children built at depth d are at most max_depth − d + 1 deep |
| TreeConstruct.ChildLeaves | src/sci/math/geom/dom/tree/construct.rs:117-130 | every leaf holds only candidate triangles that overlap its padded volume, and at least one |
| TreeConstruct.LeavesFromPopulated | src/sci/math/geom/dom/tree/construct.rs:124-129 | no constructed leaf is empty |
| TreeConstruct.RootShape | src/sci/math/geom/dom/tree/construct.rs:21-23 | a root over the built children is well formed and depth-bounded, and its leaves come from the candidates |
| TreeConstruct.InOrder | src/sci/math/geom/dom/tree/construct.rs:33 | the meshes in ascending group order |
| TreeConstruct.MeshBoundsEncloses | src/sci/math/geom/dom/tree/construct.rs:29-60 | the union of mesh bounds encloses every mesh's box |
| TreeConstruct.InitBoundary | src/sci/math/geom/dom/tree/construct.rs:29-60 | the loop computes the union of the mesh boxes |
| TreeConstruct.Tag | src/sci/math/geom/dom/tree/construct.rs:17-19 | each triangle paired with its group, in order |
| TreeConstruct.FlattenHas | src/sci/math/geom/dom/tree/construct.rs:14-20 | (g, t) is in the flattened list iff g is a group and t is a triangle of its mesh |
| TreeConstruct.PushTagged | src/sci/math/geom/dom/tree/construct.rs:16-19 | pushing one mesh appends its tagged triangles |
| TreeConstruct.FlattenTris | src/sci/math/geom/dom/tree/construct.rs:14-20 | the loop builds the flattened (group, triangle) list in group order |
| TreeConstruct.NewRoot | src/sci/math/geom/dom/tree/construct.rs:10-24 | a Root on the padded union of mesh bounds, children built at depth 1 from every triangle; well formed, at most max_depth deep, leaves drawn from the triangles |
| AdaptiveConstruct.InitBoundary | src/geom/dom/grid/adaptive/constructor.rs:31-69 | the union of every mesh box, padded once |
| AdaptiveConstruct.TagMeshesHas | src/geom/dom/grid/adaptive/constructor.rs:16-21 | (h, t) comes from a group's meshes iff h is that group and t is in one of its meshes |
| AdaptiveConstruct.FlattenHas | src/geom/dom/grid/adaptive/constructor.rs:14-22 | (g, t) is in the list iff t is a triangle of some mesh of group g |
| AdaptiveConstruct.PushMeshes | src/geom/dom/grid/adaptive/constructor.rs:16-21 | pushing one group appends its meshes' tagged triangles in order |
| AdaptiveConstruct.FlattenTris | src/geom/dom/grid/adaptive/constructor.rs:14-22 | the loops build the flattened list of every triangle of every mesh of every group |
| AdaptiveConstruct.NewRoot | src/geom/dom/grid/adaptive/constructor.rs:11-26 | a Root on the padded boundary, children built at depth 0 from every triangle; well formed, at most max_depth + 1 deep |
| CellProperties.MaxDepth | legacy/dom/grid/adaptive/properties.rs:7-15 | max_depth is at least 1 |
| CellProperties.DeepestChild | legacy/dom/grid/adaptive/properties.rs:9-11 | the maximum over the children bounds each child's depth and is attained |
| CellProperties.NumCells | legacy/dom/grid/adaptive/properties.rs:20-27 | a cell counts itself, and a Root or Branch counts more cells than it has children |
| CellProperties.NumLeafCells | legacy/dom/grid/adaptive/properties.rs:32-40 | num_leaf_cells ≤ num_cells, strictly for a Root or Branch |
| CellProperties.NumTriRefs | legacy/dom/grid/adaptive/properties.rs:45-53 | a cell without leaves references no triangles |
| CellProperties.RefsAtLeastLeaves | legacy/dom/grid/adaptive/properties.rs:32-53 | with no leaf empty, num_leaf_cells ≤ num_tri_refs |
| AdaptiveSearch.ChildIndex | src/geom/dom/grid/adaptive/search.rs:15-26 | index = [x ≥ cx] + 2[y ≥ cy] + 4[z ≥ cz] < 8; a contained point lies in that octant |
| AdaptiveSearch.FindTerminalCell | src/geom/dom/grid/adaptive/search.rs:9-30 | the result is a Leaf or Empty cell, it contains the position, and it is reached by descending the tree |
| AdaptiveScan.Travel | src/sci/math/geom/dom/grid/adaptive/scan.rs:58 | travelling d moves the position by d·dir and keeps the direction |
| AdaptiveScan.NearestNone | src/sci/math/geom/dom/grid/adaptive/scan.rs:15-22 | no nearest hit iff no triangle is hit |
| AdaptiveScan.NearestMin | src/sci/math/geom/dom/grid/adaptive/scan.rs:15-22 | the nearest hit is no farther than any hit |
| AdaptiveScan.NearestIsFirst | src/sci/math/geom/dom/grid/adaptive/scan.rs:15-22 | the nearest hit is the earliest triangle at the minimum distance (strict <) |
| AdaptiveScan.HitScan | src/sci/math/geom/dom/grid/adaptive/scan.rs:9-44 | the loop computes the specified scan of a Leaf or Empty cell |
| AdaptiveScan.ScanClassified | src/sci/math/geom/dom/grid/adaptive/scan.rs:24-39 | Surface iff some hit is < boundary − bump; Boundary iff no hit is < boundary + bump; Boundary and Both carry the boundary distance; a hit is the first nearest |
| AdaptiveScan.ScanDistances | src/sci/math/geom/dom/grid/adaptive/scan.rs:24-39 | with positive hit distances, the carried distances are non-negative |
| AdaptiveScan.StepOf | src/sci/math/geom/dom/grid/adaptive/scan.rs:70-83 | the walk continues iff the scan is Boundary and the bumped position is still inside, and only then |
| AdaptiveScan.NextStep | src/sci/math/geom/dom/grid/adaptive/scan.rs:69-83 | a continuing step stays inside the root boundary |
| AdaptiveScan.NextStepAdvances | src/sci/math/geom/dom/grid/adaptive/scan.rs:71-79 | each boundary step adds dist + bump > 0 to the distance travelled, and a reported hit lies beyond it |
| AdaptiveScan.Entry | src/sci/math/geom/dom/grid/adaptive/scan.rs:55-68 | a ray inside starts where it is; outside and missing the boundary gives None; an entered ray is inside |
| AdaptiveScan.Enter | src/sci/math/geom/dom/grid/adaptive/scan.rs:52-68 | moving the ray into the boundary computes the specified entry |
| AdaptiveScan.Decide | src/sci/math/geom/dom/grid/adaptive/scan.rs:70-83 | one scan result decides the specified next step |
| AdaptiveScan.TakeStep | src/sci/math/geom/dom/grid/adaptive/scan.rs:69-83 | finding the terminal cell and scanning it compute the specified next step |
| AdaptiveScan.WalkFrom | src/sci/math/geom/dom/grid/adaptive/scan.rs:69-87 | the loop computes the specified walk |
| AdaptiveScan.WalkFuelStable | src/sci/math/geom/dom/grid/adaptive/scan.rs:69-87 | once the walk finds a hit, more fuel does not change it |
| AdaptiveScan.WalkBeyondTravelled | src/sci/math/geom/dom/grid/adaptive/scan.rs:71-79 | a reported hit distance exceeds the distance already travelled |
| AdaptiveScan.Observe | src/sci/math/geom/dom/grid/adaptive/scan.rs:49-88 | computes the specified observation; None when the ray starts outside and misses the boundary |
| McrtHit.Min | src/sim/mcrt/hit.rs:23-27 | the minimum is at most both arguments and is one of them |
| McrtHit.New | src/sim/mcrt/hit.rs:18-28 | Voxel iff voxel ≤ scat; the distance is min(voxel, scat) > 0 |
| McrtEvent.New | src/sim/mcrt/event.rs:20-45 | Surface iff a hit is nearer than min(voxel, scat); otherwise Voxel iff voxel ≤ scat; the event's distance is the minimum of the candidates |
| McrtEvent.NoSurfaceIsHit | src/sim/mcrt/event.rs:40-44 | without a surface hit, the event agrees with Hit::new |
| LambdaFormula.Y | src/sci/math/lambda/formula.rs:49-70 | the evaluator, including the Polynomial loop, computes each variant's formula |
| LambdaFormula.PolySumIsHorner | src/sci/math/lambda/formula.rs:54-60 | Σ cs[i]·x^i equals Horner evaluation |
| LambdaFormula.PolynomialEmpty | src/sci/math/lambda/formula.rs:54-60 | the empty polynomial is 0 |
| LambdaFormula.PolynomialConstant | src/sci/math/lambda/formula.rs:52-60 | [c] is Constant c |
| LambdaFormula.PolynomialLinear | src/sci/math/lambda/formula.rs:53-60 | [c, m] is Linear(c, m) |
| LambdaFormula.PolynomialTrailingZero | src/sci/math/lambda/formula.rs:54-60 | a trailing zero coefficient changes nothing |
| LambdaFormula.RecoveryAtTarget | src/sci/math/lambda/formula.rs:61 | recovery is zero at x = c and positive below c for r > 0 |
| LambdaFormula.BifurcationSwitches | src/sci/math/lambda/formula.rs:62-68 | the result is a or b, and at x = t it is b |
| FuncFormula.Y | src/sci/math/func/formula.rs:33-45 | each variant agrees with the lambda formula of the same name; a bifurcation takes its under or its over value |
| FuncFormula.FlatLinearIsConstant | src/sci/math/func/formula.rs:35-36 | Linear with m = 0 is Constant c |
| FuncFormula.LinearMonotone | src/sci/math/func/formula.rs:36 | with m ≥ 0, Linear is monotone |
| FuncFormula.BifurcationAtThreshold | src/sci/math/func/formula.rs:37-43 | under below t, over at t |
| Multivariate.Y | src/sci/math/lambda/multivariate.rs:110-135 | Ok iff every index is in range and every weight length matches; otherwise InvalidIndex or LengthMismatch; Sum is Σ xs and Constant is c |
| Multivariate.SumIsUnitWeight | src/sci/math/lambda/multivariate.rs:112-128 | Sum equals Weight with all-one weights |
| Multivariate.ScaledWeightUnit | src/sci/math/lambda/multivariate.rs:124-133 | ScaledWeight with k = 1 equals Weight |
| Multivariate.WeightScales | src/sci/math/lambda/multivariate.rs:124-128 | Weight is linear in the inputs |
| Multivariate.ScaledOrdersAgree | src/sci/math/lambda/multivariate.rs:114-123 | each order is the previous order times the indexed entry |
| LinearPlan.New | src/sci/math/lambda/linear_formula_plan.rs:14-40 | n − 1 gradients (y[i+1] − y[i])/(x[i+1] − x[i]) and range [x0, x(n−1)] |
| LinearPlan.Segment | src/sci/math/lambda/linear_formula_plan.rs:51-57 | the first knot at or beyond x |
| LinearPlan.Y | src/sci/math/lambda/linear_formula_plan.rs:48-66 | the scan computes the specified value and never reaches unreachable! |
| LinearPlan.ValueOnSegment | src/sci/math/lambda/linear_formula_plan.rs:57-61 | x lies in its segment and the value lies on the segment's line |
| LinearPlan.ThroughKnots | src/sci/math/lambda/linear_formula_plan.rs:48-66 | the interpolant passes through every knot |
| LinearPlan.ValueBetweenKnots | src/sci/math/lambda/linear_formula_plan.rs:48-66 | the value lies between its segment's two knot values |
| RollingAverage.Average.constructor | src/tools/data/average.rs:7-13 | the default has total 0 and counts 0 |
| RollingAverage.Average.AddAssign | src/tools/data/average.rs:29-32 | adds v to total and one to counts; the total stays the sum of everything added |
| RollingAverage.Average.Ave | src/tools/data/average.rs:22-24 | ave·counts == total |
| RollingAverage.Average.AveWithin | src/tools/data/average.rs:22-32 | the average lies between the smallest and largest value added |
| RollingAverage.TotalWithin | src/tools/data/average.rs:29-32 | n values in [lo, hi] sum to within [n·lo, n·hi] |
| RollingAverage.AverageOfOne | src/tools/data/average.rs:7-32 | one addition of v to the default gives ave == v |
| GridData.Zeros | src/sim/mcrt/data.rs:24 | Array3::zeros: n cells, all zero |
| GridData.Plus | src/sim/mcrt/data.rs:32 | element-wise sum, same shape |
| GridData.PlusZeros | src/sim/mcrt/data.rs:22-33 | adding a zero grid leaves a grid unchanged |
| GridData.PlusCommutes | src/sim/mcrt/output.rs:66-70 | the element-wise merge commutes |
| GridData.AddInto | src/sim/mcrt/data.rs:31-33 | adds the other grid into this one in place |
| McrtData.Data.constructor | src/sim/mcrt/data.rs:22-26 | an all-zero grid with rx·ry·rz cells, so the array length matches the resolution |
| McrtData.Data.AddAssign | src/sim/mcrt/data.rs:31-33 | adds rhs element-wise into self, leaving rhs unchanged and the length matching the resolution |
| McrtData.AddFreshUnchanged | src/sim/mcrt/data.rs:22-33 | adding a fresh Data of the same shape leaves the data unchanged |
| McrtOutput.Output.constructor | src/sim/mcrt/output.rs:42-60 | five zero grids of shape res, no paths, cell_vol·rx·ry·rz == vol |
| McrtOutput.Output.AddAssign | src/sim/mcrt/output.rs:65-72 | the five grids are added element-wise; paths become self ++ rhs and rhs's are drained; cell_vol and rhs's grids are unchanged |
| McrtOutput.Output.Save | src/sim/mcrt/output.rs:95-125 | always Ok |
| GroupMaps.Build | src/file/form/colours.rs:22-46 | Ok iff no group repeats; then the keys are the listed groups, the size is the list length and each group maps to its value; otherwise the error names the first repeated group |
| GroupMaps.InsertStep | src/file/form/colours.rs:25-43 | inserting a new group keeps the keys equal to the groups seen and the size equal to the count |
| GroupMaps.DuplicateAt | src/file/form/colours.rs:25-27 | a group already present is the first duplicate |
| Attributes.Build | legacy/attributes.rs:17-29 | Ok iff no group repeats; then each group maps to its attribute and the map size is the list length; otherwise the repeated group |
| Attributes.BuildEmpty | legacy/attributes.rs:18-28 | the empty list builds the empty map |
| Colours.ToGradient | src/file/form/colours.rs:31-41 | colour i maps components [0..3] to r, g, b, a, in listed order |
| Colours.Build | src/file/form/colours.rs:21-47 | Ok iff no group repeats and every group lists a colour; then one gradient per group, in listed colour order, and the map size is the list length; otherwise it stops at the first entry whose group repeats (checked first) or that lists no colour, and names that group |
| Colours.BuildsAll | src/file/form/colours.rs:21-47 | every entry building is the same as no repeated group and no empty colour list |
| Colours.StopsOnce | src/file/form/colours.rs:21-47 | the entry where building stops, and its error, are unique |
| SliceFmt.PadLeft | src/util/fmt/slice.rs:16 | right-aligned to width 15 with spaces and never truncated |
| SliceFmt.List | src/util/fmt/slice.rs:10-24 | always Ok: the padded items joined by single spaces, with no trailing space |
| SliceFmt.WrittenIsJoined | src/util/fmt/slice.rs:15-21 | the loop writes the joined text plus one space; it is empty iff the list is |
| SliceFmt.JoinedLength | src/util/fmt/slice.rs:15-21 | items of at most 15 characters give length 16n − 1 |

## Left out

- Threading, windows, progress bars, `time_scaler`, the `Shuffle` order and all random sampling are left out. They are concurrency, floating point and randomness. `PaintBlock` models only the buffer writes of `render_pix`, and the pixel colours it writes are a parameter.
- Every `f64` is a real number, so the model ignores rounding, NaN and infinities. In particular, `floor() as usize` in `gen_index` is the exact floor.
- Geometry the core only calls is a parameter, as listed above. This covers `SmoothTriangle::overlap`, `dist_side` and `area`; `Aabb::dist`, `Aabb::expand` and `Aabb::overlap`; `Trans3` application; and `AspectRatio::vt_res`.
- `src/sci/math/sort/order.rs`, `AspectRatio::ratio` and `ave_leaf_tris` are not part of this model.
- File I/O is a parameter. `Mesh::load` works on the file's lines, and `Scene::load` calls a given mesh loader. Float-token parsing and `Dir3::new_normalize` are given functions.
- `Display` impls, the `report`/`access`/`clone` macros, the `println!` progress and debugging output, and the Histogram spectrometer of `Output` are left out. The `println!` calls are the "Loading mesh" line of `Scene::load` (src/geom/dom/collect/scene.rs:77) and the gradient and knot lines of `LinearFormulaPlan` (src/sci/math/lambda/linear_formula_plan.rs:27 and :58). The spectrometer is not merged by `add_assign` in any case.
- `palette::Gradient` is represented by its list of colours. `ColoursInst` is the map itself.
- Grid arrays (`Array3`) are stored flat in x-major order, with `rx·ry·rz` cells. Broadcasting between shapes is not modelled: `add_assign` requires equal sizes.
- `usize` arithmetic is unbounded except where it is observable. The OBJ index parser checks the 64-bit `usize` range and the underflow of `index − 1`. The underflow follows a debug build, which panics on it, so the model reports a bad face. A release build wraps `0 − 1` to `usize::MAX` instead, and the panic then comes at the vertex lookup (src/geom/surf/mesh.rs:170), which is the index-out-of-range stage. The `i32` of `Average::counts` and of the depth is unbounded.
- Cameras.SuperSamples: `power.pow(2)` is an `i32` product, which overflows for a power above 46340. The model squares an unbounded integer.
- The `Multivariate` constructors are the datatype's own constructors.
- `Output::save` has no file effects, because its body is entirely commented out.
- `is_ascending` and `Range` are not part of this model. `Linear::new` takes `is_ascending` as strictly ascending, and `Range::contains` as inclusive at both ends.
- AdaptiveScan.Observe: the `while let` loop runs under a fuel bound. Termination of the source's loop depends on ray-box geometry that the model does not have. When the fuel runs out the result is None, and once a hit is found more fuel does not change it.
- AdaptiveSearch.FindTerminalCell: returns the cell itself. The source wraps it in an `Option` that is always `Some`.
- AdaptiveScan.HitScan: `boundary.dist(ray).unwrap()` is a requires. A ray inside a box is assumed to reach the box's boundary.
- TreeConstruct.InitChildren: the `!potential_tris.is_empty()` debug assertion is not required. Every call the model makes satisfies it, and construction never reads the list's emptiness.
- Meshes.InitAabb: the box of a flat mesh may have mins == maxs on an axis, so `Aabb::new`'s debug assertion `mins < maxs` is not imposed here. The same holds for the boundaries in `Scenes.InitBoundary` and the two `InitBoundary` methods.
- Boxes.New: `debug_assert!(mins < maxs)` is a requires.
- RegularGrid.New: requires every resolution component to be positive. `Grid::new` accepts a zero component: it divides the widths by it, which gives infinite voxel sizes and a grid of zero cells. A real cannot express an infinite voxel size. `GenIndex` and `GenIndexVoxel` inherit the requirement through the grid's validity.
- LinIndex.ThreeDim: requires res[Y] > 0 and res[Z] > 0. With a zero component, `n % res[Z]` or the divisions by `res[Z]` and `res[Y]·res[Z]` panic on integer division by zero.
- RenderRun.PixelCoord: requires h_res > 0. With a zero horizontal resolution, `p % h_res` and `p / h_res` panic on integer division by zero. `PixelCoordInImage` inherits the requirement.
- RenderRun.PaintBlock: requires h_res > 0, for the same divisions when it computes each pixel's coordinates.
- Meshes.InitAabb: requires a non-empty triangle list. The source unwraps `tris.get(0)` and panics on an empty list.
- Meshes.New: requires a non-empty triangle list, for the same unwrap in `init_aabb`.
- Meshes.Transform: requires a mesh with at least one triangle, for the same unwrap when the box is recomputed.
- TreeConstruct.InitBoundary: requires a non-empty surface map. The source unwraps `mins` after the loop and panics when no mesh was visited.
- TreeConstruct.NewRoot: requires a non-empty surface map, for the same unwrap in `init_boundary`.
- AdaptiveConstruct.InitBoundary: requires at least one mesh in the surface map. The source unwraps `mins` after the loop and panics when no mesh was visited.
- AdaptiveConstruct.NewRoot: requires at least one mesh in the surface map, for the same unwrap in `init_boundary`.
- Scenes.InitBoundary: requires the surface map to hold at least one mesh. The source unwraps `mins` after the loop (src/geom/dom/collect/scene.rs:62) and panics when no mesh was visited.
- Scenes.New: requires the surface map to hold at least one mesh, for the same unwrap in `init_boundary`. `Scene::new` is public and accepts any map.
- Scenes.Load: requires at least one listed mesh name. With none, `Scene::new` unwraps an empty boundary and panics.
- RollingAverage.Average.Ave: requires counts ≠ 0. On an empty average the source divides by zero and yields NaN, which a real cannot express.

## Findings

| source | as written | input that shows it | evidently intended | confidence | as-written member | corrected member |
|---|---|---|---|---|---|---|
| src/sci/math/geom/dom/grid/mod.rs:76 | `min.x += voxel_size[Z] * index[Z]` offsets the voxel's x by the z index and never moves its z | bound [0,1]³, res (1, 1, 2), p = (0, 0, 0.75): gen_index gives (0, 0, 1), but the voxel as written spans z in [0, 0.5] and x in [0.5, 1.5] | `min.z += voxel_size[Z] * index[Z]`, so that the voxel contains p | not executed | RegularGrid.VoxelAsWrittenMissesPoint | RegularGrid.IntendedVoxelContainsPoint |
