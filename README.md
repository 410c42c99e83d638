# displaz point store, pole clustering and sphere mesh — a Dafny model

displaz is a viewer for large point clouds. This project models the parts of
it that decide which points exist, where they are stored and what is drawn,
picked or clustered:

- **the point store** (`PointArray`): finishing a file load, editing points
  by their original index, picking the point nearest to a ray, estimating and
  drawing the per-leaf point counts, and listing the points of one
  classification. The store keeps its fields in octree order and keeps the
  inverse permutation, so edits addressed by original index find their
  storage slot;
- **the octree walks** of the point store: depth-first walks over an explicit
  stack and the best-first search over a priority queue;
- **DBSCAN clustering** of picked points, and the grouping of cluster labels
  into poles;
- **the recent-files list** of the main window;
- **the list of poles** held by the 3D view;
- **the sphere mesh** used as a pole marker.

The modules, in dependency order:

| file | module | contents |
|---|---|---|
| geometry.dfy | `Geometry` | vectors, boxes, offsets |
| fields.dfy | `Fields` | typed per-point columns, field lookup, reordering |
| permutation.dfy | `Permutation` | permutations of [0, n) and their inverse |
| octree.dfy | `Octree` | the node arena and the exact node sequence a stack walk pops |
| patching.dfy | `Patching` | what `mutate` writes |
| walks.dfy | `Walks` | cost estimate, draw cursors, classification query |
| picking.dfy | `Picking` | nearest-point search |
| pointstore.dfy | `PointStore` | the `PointArray` class |
| dbscan.dfy | `Dbscan` | the clustering of `MainWindow.cpp` |
| grouping.dfy | `Grouping` | cluster labels to pole groups |
| recent.dfy | `Recent` | the recent-files list |
| poles.dfy | `Poles` | the pole list of the 3D view |
| sphere.dfy | `SphereMesh` | sphere vertex, normal and index buffers |
| seqs.dfy | `Seqs` | associativity of concatenation, shared by the walks and the recent list |

## Design

**Octree.** The octree is an arena `Tree(nodes)` whose node 0 is the root.
A child always has a larger index than its parent. A leaf owns the storage
range `[beginIndex, endIndex)`. An internal node lists its non-null children
in slot order.

**Walks.** Each stack walk of the source is specified by `VisitAll`: the
exact sequence of nodes the walk pops. This includes the nodes it then culls.
Because children are pushed in slot order, the last slot is popped first.
The cost estimate, the draw walk and the classification query are folds over
that sequence. Each loop is proved against its fold.

**Collaborators.** Code outside the model becomes a function parameter. What
the store relies on is stated as a precondition. These collaborators are:
- the file loaders;
- the octree builder `makeTree`;
- `OctreeNode::drawCount`;
- `ClipBox::canCull`;
- `EllipticalDist` and its box bound;
- `OctreeNode::findNearest`;
- the DBSCAN distance test;
- sine, cosine and normalisation in the sphere mesh.

**The field `reorder`.** Its definition is not part of this model. The model
takes it to be the gather `Fields.Reorder`: slot i of the reordered field
receives element `perm[i]` of the loaded one. Under this reading the store
built by `m_inds[inds[i]] = i` is the map from an original index to its slot,
which is how `mutate` uses it.

**Direction of the index map.** `PointArray.inds` maps an original point
index to its storage slot, as `m_inds[inds[i]] = i` at
`src/render/PointArray.cpp:233` stores it and `mutate` reads it.

## Model

| member | source | states |
|---|---|---|
| Geometry.Sub | src/render/PointArray.cpp:301 | the difference of two offsets added back to the second gives the first |
| Fields.FirstNamed | src/render/PointArray.cpp:658-666 | the index of the first field with the name, and -1 exactly when no field has it |
| Fields.FindField | src/render/PointArray.cpp:658-666 | the search loop returns the first field with the name, or -1 |
| Fields.FirstPosition | src/render/PointArray.cpp:161-169 | the first field named "position" of type 3 x float32, and -1 exactly when there is none |
| Fields.FindPositionField | src/render/PointArray.cpp:161-169 | the search loop returns the first position field, or -1 |
| Fields.Reorder | src/render/PointArray.cpp:222-227 | a reordered column holds, in slot i, the element of point `perm[i]` |
| Permutation.Identity | src/render/PointArray.cpp:208-210 | the initial index array holds i at position i |
| Permutation.IdentityIsPermutation | src/render/PointArray.cpp:208-210 | the initial index array is a permutation of [0, n) |
| Permutation.InvertPermutation | src/render/PointArray.cpp:230-233 | the stored index is a permutation and the inverse of the octree order, both ways round |
| PointStore.InOrderFinds | src/render/PointArray.cpp:222-233 | reordering every field keeps names, types and shapes, and the inverse finds each original point's element in its slot |
| PointStore.ReorderFields | src/render/PointArray.cpp:222-227 | the loop over the fields puts every one of them into the builder's order |
| PointStore.OrderPoints | src/render/PointArray.cpp:200-233 | an empty file keeps its fields and gets an empty root; otherwise the tree is the builder's tree, every field is gathered into the builder's order, and the stored map sends each original index to its slot |
| PointStore.FinishLoad | src/render/PointArray.cpp:160-233 | loading succeeds exactly when the loader succeeded and a position field exists; on success the tree, field order and index map are the builder's, and every original point is found in its slot |
| PointStore.PointArray.constructor | src/render/PointArray.cpp:36-38 | a new store holds no fields, no points and no octree |
| PointStore.PointArray.LoadFile | src/render/PointArray.cpp:160-237 | succeeds exactly when a position field exists; after success the store is valid, keeps the file offset, holds the builder's tree with every field in the builder's order and the inverse of that order, and finds each original point in its slot; after a missing position field it keeps the fields but has no tree |
| PointStore.PointArray.WorldPosition | src/render/PointArray.cpp:389 | a stored position less the store offset is the stored element |
| Patching.Target | src/render/PointArray.cpp:264-293 | a patch field lands on the first store field of its name exactly when it is not "index" and the types agree |
| Patching.ShiftKeepsWorldPosition | src/render/PointArray.cpp:295-309 | a patched position shifted by the difference of the offsets keeps its world position |
| Patching.ScatterAt | src/render/PointArray.cpp:317-320 | after the copy loop, a slot holds the value of the last entry written to it, or its old value |
| Patching.SlotHitIsIndexHit | src/render/PointArray.cpp:304 | with an injective slot table, the entries that hit slot `inds[o]` are exactly those addressed to point o |
| Patching.DataAfterAt | src/render/PointArray.cpp:264-322 | an element after the first m patch fields comes from the last field targeting it and the last entry hitting it, or is unchanged |
| Patching.MutatedAtOriginal | src/render/PointArray.cpp:241-323 | in an accepted patch, the slot of original point o holds the last value addressed to o from the last matching field, position values being shifted by the offset difference |
| Patching.MutatedKeepsShape | src/render/PointArray.cpp:264-322 | a patch never changes a field's name, type, length or element size |
| Patching.ScatterPatch | src/render/PointArray.cpp:295-321 | the per-entry copy loop writes the patch values into the slots of their points in patch order |
| Patching.PatchField | src/render/PointArray.cpp:264-322 | one iteration over the patch fields applies that field and keeps the loop's state |
| Patching.ApplyPatch | src/render/PointArray.cpp:241-323 | the whole patch is rejected when the store has more than 2^32 - 1 points or any index is out of range; otherwise every patch field is applied in turn |
| PointStore.PointArray.Mutate | src/render/PointArray.cpp:241-323 | the fields become the patched fields; nothing else changes and a valid store stays valid |
| Octree.VisitKidsIsVisitAll | src/render/PointArray.cpp:438-443 | pushing the children in slot order schedules exactly the walk below the node |
| Octree.PopStep | src/render/PointArray.cpp:430-445 | popping the top node pops it and leaves exactly the walk of the rest and of its pushed children |
| Octree.PopWalk | src/render/PointArray.cpp:430-445 | the same step in terms of the stack after the pop, which has a strictly shorter walk |
| Octree.RootStack | src/render/PointArray.cpp:428-429 | a stack holding only the root walks exactly the root's subtree |
| Octree.LeafPointsMember | src/render/PointArray.cpp:710-713 | a storage index is reached exactly when some leaf popped owns it |
| Octree.StackPointsMember | src/render/PointArray.cpp:352-372 | the points below a queue are exactly the points below one of its entries |
| Octree.PointsOfNode | src/render/PointArray.cpp:364-382 | a leaf's points are its range; an internal node's are those below its children |
| Octree.QueueTake | src/render/PointArray.cpp:357-362 | taking an entry out of the search queue shortens the walk by the entry's own and removes exactly its points |
| Octree.QueueExpand | src/render/PointArray.cpp:364-372 | replacing an internal entry by its children shortens the walk and keeps the points |
| Octree.EmptyTree | src/render/PointArray.cpp:200-204 | the root made for an empty file is a well-formed tree over no points |
| Picking.Top | src/render/PointArray.cpp:352-357 | the top of the queue is an entry of least priority |
| Picking.ExpandStep | src/render/PointArray.cpp:364-372 | expanding an internal node keeps the search invariant and shortens the walk |
| Picking.ScanStep | src/render/PointArray.cpp:373-382 | scanning a leaf keeps the search invariant; the best changes only to a strictly smaller distance |
| Picking.StopEarly | src/render/PointArray.cpp:357-360 | when the least bound exceeds the best distance, no point is closer than the best |
| Picking.SearchStep | src/render/PointArray.cpp:357-382 | one iteration keeps the search invariant; when it stops, the best distance is already no more than any point's; otherwise the remaining walk is shorter |
| Picking.NearestPoint | src/render/PointArray.cpp:335-383 | the best distance is the least over all points; below DBL_MAX it is reached by the returned point, which the first scan to reach it found |
| PointStore.PointArray.PickVertex | src/render/PointArray.cpp:326-417 | a point is picked exactly when some point is closer than DBL_MAX; it is then a nearest point, with its distance and world position |
| Walks.LeafCostMonotone | src/render/PointArray.cpp:446-450 | with a draw count that grows with quality, a higher quality never lowers the estimate |
| Walks.LeafCostFrame | src/render/PointArray.cpp:446-450 | the estimate depends only on the cursors of the walked nodes |
| Walks.AddLeafCounts | src/render/PointArray.cpp:446-450 | the first numEstimates counts grow by the leaf's draw count at each quality; the others are unchanged |
| Walks.EstimateWalk | src/render/PointArray.cpp:428-451 | each of the first numEstimates counts grows by the tree's estimate at that quality; the others are unchanged |
| PointStore.PointArray.EstimateCost | src/render/PointArray.cpp:420-452 | the same for the store's tree and cursors |
| Walks.NextCursor | src/render/PointArray.cpp:561-568 | a leaf's cursor restarts at its range unless drawing incrementally, and advances by the number drawn when there are fields to upload |
| Walks.DrawWalkCursorAt | src/render/PointArray.cpp:550-636 | in a walk that pops no node twice, a kept leaf ends one draw step past its old cursor; every other cursor is unchanged |
| Walks.DrawTotalIsCost | src/render/PointArray.cpp:561-565 | an incremental draw draws exactly what the cost estimate counts for the same cursors |
| Walks.DrawNode | src/render/PointArray.cpp:552-636 | drawing one popped node gives the cursors and count of one draw step |
| Octree.SubtreesDisjoint | src/render/PointArray.cpp:549-558 | when every node has a single parent, the walks below two different child slots share no node |
| Octree.RootWalkDistinct | src/render/PointArray.cpp:549-558 | a walk from the root of a well-formed tree, culled or not, pops no node twice |
| Walks.RootDraw | src/render/PointArray.cpp:549-636 | drawing from the root moves each visited kept leaf's cursor by one draw step and no other cursor; an incremental draw draws exactly the cost estimate |
| Walks.DrawLoop | src/render/PointArray.cpp:548-636 | the draw loop's cursors and total are those of the draw walk over the nodes popped from the root |
| PointStore.PointArray.DrawPoints | src/render/PointArray.cpp:488-651 | drawing updates only the cursors, as the draw walk says: each visited kept leaf moves one draw step and the others stay; an incremental draw returns exactly the estimated cost |
| Walks.MatchesExact | src/render/PointArray.cpp:713-717 | a leaf scan returns exactly the indices of its range whose class is the target, ascending |
| Walks.ClassMatchesMember | src/render/PointArray.cpp:692-743 | the walk's matches are exactly the points of the popped leaves whose class is the target |
| Walks.ClassWalkExact | src/render/PointArray.cpp:686-743 | from the root, the matches are exactly the stored points of the target class |
| Walks.StoredPosition | src/render/PointArray.cpp:721 | a reported position less the offset is the stored element |
| Walks.ScanIndex | src/render/PointArray.cpp:716-740 | one index is reported, at its world position, exactly when its class equals the target |
| Walks.ScanLeaf | src/render/PointArray.cpp:713-741 | the leaf loop reports the matching points in range order, each at its world position, and their storage indices are the range's matches |
| Walks.ClassNode | src/render/PointArray.cpp:697-742 | a popped node reports its matches when it is a leaf and nothing otherwise |
| Walks.ClassWalk | src/render/PointArray.cpp:686-743 | the stack loop reports the matches of the whole walk, leaf after leaf |
| PointStore.PointArray.GetPointsByClassification | src/render/PointArray.cpp:654-746 | nothing without a classification field or a tree; otherwise exactly the stored points of the target class, each with its world position |
| Dbscan.Threshold | src/gui/MainWindow.cpp:82 | the neighbour threshold is minPts converted to a 64-bit size, so a negative minPts wraps |
| Dbscan.NeighborsMember | src/gui/MainWindow.cpp:76-80 | a point is listed as a neighbour exactly when it is within eps |
| Dbscan.RegionQuery | src/gui/MainWindow.cpp:76-80 | the neighbour loop lists exactly the points within eps, in index order |
| Dbscan.VisitNeighbor | src/gui/MainWindow.cpp:91-108 | an unlabelled or noise neighbour joins the cluster; an unvisited core neighbour adds all of its own neighbours; nothing else changes |
| Dbscan.ExpandStep | src/gui/MainWindow.cpp:90-108 | one worklist entry keeps the loop's state: it is clustered, clustered labels stay, and what it appends are neighbours of a core point of the cluster |
| Dbscan.ExpandCluster | src/gui/MainWindow.cpp:87-110 | only unvisited and noise points change, all to the cluster; every queued neighbour is clustered; no core point is noise; core points' neighbours are clustered; every clustered point is core or a neighbour of a core point of its cluster |
| Dbscan.ClusterStep | src/gui/MainWindow.cpp:72-111 | one point of the outer loop keeps its state: points up to it are labelled, every cluster so far has a core seed labelled with it, no core point is noise, core neighbours are clustered, every clustered point is backed by a core point of its cluster, and under a symmetric neighbour test neighbouring core points share their label |
| Dbscan.JoinedStep | src/gui/MainWindow.cpp:90-108 | under a symmetric neighbour test, one worklist entry keeps every core neighbour of a core point in the point's cluster or still queued: a clustered core entry already carries the growing cluster's id, and a core entry just claimed queues all its neighbours |
| Dbscan.Cluster | src/gui/MainWindow.cpp:64-113 | the labels form a DBSCAN labelling: noise or a cluster id below the count, each cluster holds a core point, no core point is noise, the neighbours of a core point are clustered, every clustered point is a core point or a neighbour of a core point of its own cluster, and, when the neighbour test is symmetric (as `distance <= eps` is), two neighbouring core points are in the same cluster |
| Dbscan.SplitCoresRejected | src/gui/MainWindow.cpp:64-113 | two core points that are each other's neighbours cannot carry two different cluster ids: [0, 1] is not a labelling of two mutually neighbouring points at threshold 2 |
| Grouping.Members | src/gui/MainWindow.cpp:643-646 | every member of a group carries the group's label |
| Grouping.MembersExact | src/gui/MainWindow.cpp:643-646 | every point with the label is a member, in ascending order |
| Grouping.GroupByLabel | src/gui/MainWindow.cpp:640-647 | the keys are exactly the labels present other than the skipped one, and each key maps to its points in order |
| Grouping.NoisePole | src/gui/MainWindow.cpp:644 | skipping UNVISITED keeps NOISE as a key: one point with minPts 2 is noise and becomes a pole |
| Grouping.GroupsAreClusters | src/gui/MainWindow.cpp:643-647 | skipping NOISE, the keys are exactly the cluster ids and every group holds a core point |
| Grouping.PoleGroups | src/gui/MainWindow.cpp:635-647 | clustering and then grouping without NOISE gives one group per cluster, holding that cluster's points and a core point; the labels are a DBSCAN labelling as stated for `Dbscan.Cluster`, so under a symmetric neighbour test neighbouring core points fall in the same group |
| Recent.RemoveAll | src/gui/MainWindow.cpp:1084 | no copy of the file is left, every other entry keeps its count, and a list without the file is unchanged |
| Recent.RemoveAllAppend | src/gui/MainWindow.cpp:1084 | removal works on each part of a list separately and keeps the parts in order, so the remaining entries keep their order |
| Recent.TouchCounts | src/gui/MainWindow.cpp:1084-1085 | the opened file is the newest entry and occurs once; the entries before it are the old list without it, in order; other counts are unchanged |
| Recent.TouchKeepsDistinct | src/gui/MainWindow.cpp:1084-1085 | a list without repeats keeps that property |
| Recent.Without | src/gui/MainWindow.cpp:1078-1087 | the old list without any entry of the batch: none of them is left and the other counts are unchanged |
| Recent.TouchAllOrder | src/gui/MainWindow.cpp:1078-1087 | after a batch, the old entries that were not reopened come first in their old order, followed by entries that depend on the batch alone |
| Recent.TouchAllCounts | src/gui/MainWindow.cpp:1078-1087 | after a batch, each opened file occurs once, the last one opened is the newest, and other counts are unchanged |
| Recent.RememberAll | src/gui/MainWindow.cpp:1078-1087 | the loop moves each file in turn to the end |
| Recent.DropOldest | src/gui/MainWindow.cpp:1386-1389 | the loop keeps the newest `limit` entries in order: a suffix of length min(size, limit) |
| Recent.RecentFiles.constructor | src/gui/MainWindow.h:110 | the window starts from the stored list |
| Recent.RecentFiles.OpenFiles | src/gui/MainWindow.cpp:1078-1087 | the list after the file dialog is the batch update of the old one |
| Recent.RecentFiles.OpenRecent | src/gui/MainWindow.cpp:1090-1103 | a recent-menu action moves its file to the end; without a sender nothing changes |
| Recent.RecentFiles.WriteSettings | src/gui/MainWindow.cpp:1383-1390 | saving keeps the newest entries, at most the limit of 15 declared in src/gui/MainWindow.h at line 111 |
| Poles.At | src/render/View3D.h:94-99 | reading inside the list gives the pole; past the end gives the origin |
| Poles.Erase | src/render/View3D.h:100-103 | an in-range erase removes one entry and shifts the later ones down; an out-of-range index, negative included, changes nothing |
| Poles.AtAfterErase | src/render/View3D.h:94-103 | after an erase at idx, reading j reads the old j before idx and the old j + 1 from idx on |
| Poles.EraseMultiset | src/render/View3D.h:100-103 | an erase drops exactly one copy of the erased pole |
| Poles.PoleView.constructor | src/render/View3D.h:142 | the view starts from the poles it is given |
| Poles.PoleView.RemovePoleAt | src/render/View3D.h:100-103 | the list becomes the erased list; the count falls by one exactly when the index is in range |
| SphereMesh.FlattenAt | src/render/Sphere.cpp:29 | the coordinates of point k sit at 3k, 3k + 1 and 3k + 2 |
| SphereMesh.GridSize | src/render/Sphere.cpp:22-24 | the grid has (stacks + 1) x (slices + 1) points |
| SphereMesh.GridPointAt | src/render/Sphere.cpp:22-29 | point (i, j) is vertex i * (slices + 1) + j |
| SphereMesh.NormalAt | src/render/Sphere.cpp:31-33 | the normal of vertex k is the normalised vertex k |
| SphereMesh.RowCell | src/render/Sphere.cpp:38-48 | cell j of row i is the two triangles of its four corners, in the source's order |
| SphereMesh.MeshCell | src/render/Sphere.cpp:37-50 | in the index buffer, entries 6(i*slices+j) .. 6(i*slices+j)+5 are the two triangles of cell (i, j), in the order of the pushes |
| SphereMesh.MeshIndicesSize | src/render/Sphere.cpp:37-50 | the index buffer has 6 x stacks x slices entries |
| SphereMesh.MeshIndicesRange | src/render/Sphere.cpp:37-50 | every index names a grid vertex |
| SphereMesh.AppendRow | src/render/Sphere.cpp:24-34 | the inner loop appends grid row i to the vertex and normal buffers |
| SphereMesh.GridBuffers | src/render/Sphere.cpp:22-35 | the nested loops fill the buffers with the grid, row by row |
| SphereMesh.AppendCellRow | src/render/Sphere.cpp:38-49 | the inner loop appends the two triangles of every cell of cell row i, in order |
| SphereMesh.TriangleIndices | src/render/Sphere.cpp:37-50 | the nested loops fill the index buffer with the cells, row by row |
| SphereMesh.MeshConsistent | src/render/Sphere.cpp:15-51 | the buffers agree in size, and every index addresses a full vertex in the vertex buffer |
| SphereMesh.Sphere.constructor | src/render/Sphere.cpp:3-8 | a new sphere keeps its position and radius and holds the mesh |
| SphereMesh.Sphere.GenerateGeometry | src/render/Sphere.cpp:15-51 | the three buffers are replaced by the grid, its normals and its triangles |

## Left out

- File loading (`loadLas`, `loadPly`, `loadText`): the loader's result enters `LoadFile` as parameters. Logging, progress signals and the load timer are also left out.
- The bounding box and centroid computed in `loadFile`, and the root bound given to the builder: floating-point geometry that no modelled property depends on.
- OpenGL: buffer uploads, attribute setup and draw calls in `drawPoints`, and everything in `Sphere::setupBuffers` and `Sphere::draw`.
- Floating point: coordinates are reals. float32 rounding, sine, cosine and square root are not modelled. The sphere's point and normal functions are parameters.
- Octree building, `drawCount`, `canCull`, `findNearest` and the distance bound are not part of this model. They enter as function parameters, with what the store relies on as preconditions. `reorder` is modelled as the gather `Fields.Reorder`.
- `DrawCount`: the source's `drawCount` returns a `DrawCount` struct, which `estimateCost` and `drawPoints` sum with `+=` (src/render/PointArray.cpp:448-449, 563-566). The model keeps only its `numVertices` member: the parameter `dc` returns a `nat`, `drawCounts` is an `array<nat>`, and the cursor advances by that number as at line 635. The struct's other members are not modelled.
- Patching.MutatedAtOriginal: the position special case (src/render/PointArray.cpp:295-309) is modelled for a store "position" field of three float32 components. The source writes three floats at float offset `3*m_inds[idx]` of the first field named "position", which need not be the loader's 3 x float32 position field. Its only check on that field's type is the debug-build `assert` at line 297, which is not modelled. For a "position" field of another type (3 x float64, or fewer components), the source writes at an offset that is not element `m_inds[idx]` and reinterprets the bytes. The model instead writes the shifted element into element slot `inds[o]`, and for fewer than three components it writes the patch value unshifted.
- The text `info` of `pickVertex` and of `getPointsByClassification` is replaced by the storage index of the point. The text formatting is left out.
- PointStore.PointArray.PickVertex: ties in the priority queue are broken by node address in the source. The model takes any entry of least priority, so it states which distance is found and not which of several equally near points.
- Walks.ClassOf: the source reads byte idx of the raw classification column, which is element idx only when the field's elements are one byte wide. The model compares the first component of element idx with the target, so it agrees with the source for one-byte classification fields only; what the source reads for wider element types is not modelled.
- The `m_inds` entries are 32-bit in the source. `mutate` refuses stores of more than 2^32 - 1 points, and so does the model; the truncating cast at load time is not modelled beyond that.
- SphereMesh.TriangleIndices: the index arithmetic is on unbounded integers. `int` overflow for meshes of more than 2^31 vertices is not modelled.
- An empty file (no points at all) gets the empty leaf root of `Octree.EmptyTree`. The source builds a default node of radius 1, whose fields are not part of this model.
- Poles.PoleView.PoleCount and Poles.PoleView.GetPoleAt carry no contract of their own. They read `|poles|` and `At(poles, idx)`, whose properties are stated on `Poles.At`.
- `setPoles` of the 3D view: it replaces the list wholesale and is not part of this model.
- The "lastDirectory" setting and the `loadFile` calls made by `openFiles` and `openRecent` are left out. Only the recent list is modelled.
- The centroid, height and pole creation that follow the grouping in `loadPoles` are not part of this model.
- DBSCAN's distance test `distance(p, q) <= eps` is the parameter `nbr`, an arbitrary relation. Everything about the labels holds for any relation. That neighbouring core points share a cluster is stated for a symmetric relation only (`Dbscan.Symmetric`). The source's test is symmetric: `distance` (src/gui/MainWindow.cpp:60-62) is the norm of `a - b`, and swapping the points only flips the sign of each component. For a relation that is not symmetric the clause does not hold. A core point of a later cluster can list a core point of an earlier one as its neighbour when the earlier point does not list it back.

## Findings

| source | as written | input that shows it | evidently intended | confidence | as-written member | corrected member |
|---|---|---|---|---|---|---|
| src/gui/MainWindow.cpp:643-647 | the grouping skips label -1 (UNVISITED), which DBSCAN never leaves, so NOISE (-2) points form a pole | one point, a neighbour test that holds for the point with itself, and minPts = 2: the only labelling is [NOISE], and -2 becomes a pole key | skip NOISE, as the comment "Ignore noise points" says, so that the poles are exactly the clusters | not executed | Grouping.NoisePole | Grouping.PoleGroups |
