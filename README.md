# libcommon core, modelled in Dafny

This project models the game-support core of libcommon, a small C++ library.

- **Spatial partitioning.**
  - the point quadtree `QuadTree<T>` and the box quadtree `LineQuadTree<T>`, with their breadth-first iterators;
  - the uniform grid `CellSpacePartition<T>`;
  - the axis-aligned boxes they rely on (`AABB`, `BoundingBox3`).
- **Geometry.**
  - the integer `IPoint` and the `Polygon` class, with its cached convex hull (monotone chain) and its point-in-polygon test (bounding box, then PNPOLY);
  - Bresenham's `Line` rasteriser;
  - `Rectangle`.
- **Search.** The generic A* search `AStar<T>::solve`.
- **Small value types and helpers.**
  - `Color`, `FontConfig` and `TextTexture`;
  - the `Countdown` and `SteadyTimer` timers;
  - the `signum` and `clamp` templates.

Each C++ file is modelled in the form it has in C++.

- **Value types** become datatypes with functions. This covers `AABB`, `IPoint`, `Color`, `FontConfig` and `Rectangle`.
- **Classes that mutate their fields** become Dafny classes. Their methods carry `modifies` clauses and state the whole new state. This covers:
  - `QuadTree`, `LineQuadTree` and `CellSpacePartition`;
  - `Polygon`, with its caches;
  - the iterators, `Countdown` and `SteadyTimer`.
- **Loops** become methods with invariants. Each is proved against a specification function. This covers:
  - the hull's upper and lower loops;
  - the pnpoly loop;
  - the bounding-box loop;
  - the Bresenham loop;
  - the A* loop;
  - the grid's query loops.

A tree node is an owned recursive datatype: a boundary, a local map, and either no children or four quadrant children. Each tree class holds its root node and reassigns it. The tree operations are recursive functions returning the new node and the C++ `bool`. Two abstractions of the stored entries state their contracts:
- `Entries`, a multiset of (key, position) pairs;
- `Keys`, a set of keys.

Floats are modelled as exact reals. `long64` and `int` coordinates are unbounded integers. Where the source relies on a width, the model makes it explicit:
- `counterClockwise`'s result is truncated to `int` (`Geometry.ToInt`);
- `getNumPoints` and `positionToIndex` are truncated to `unsigned int` (`Polygons.UInt`, `CellSpace.PositionToIndex`);
- float-to-int casts truncate toward zero (`Seqs.Trunc`).

## Model

| member | source | states |
|---|---|---|
| Partition.Contains | Partition.h:22-27 | `AABB::contains`: the point is within the half-dimensions of the centre on both axes, boundary included; its partners are the lemmas below (closed boundary, own centre, disjoint boxes) |
| Partition.Intersects | Partition.h:29-34 | `AABB::intersects`: the centres are no further apart than the summed half-dimensions on both axes; proved symmetric and implied by a common point below |
| Partition.ContainsBox | Partition.h:12 | the box-in-box test the line quadtree calls through `contains`; proved to transfer points and to be transitive below |
| Partition.ContainsIsClosed | Partition.h:22-27 | `AABB::contains` is closed: a point exactly at the half-extent in both axes is inside |
| Partition.ContainsOwnCentre | Partition.h:22-27 | a box with non-negative half-extents contains its centre and intersects itself |
| Partition.IntersectsSymmetric | Partition.h:29-34 | `intersects` does not depend on argument order |
| Partition.CommonPointIntersects | Partition.h:22-34 | two boxes that contain a common point intersect |
| Partition.DisjointExcludes | Partition.h:22-34 | a point inside a box cannot be inside a box that does not intersect it |
| Partition.ContainedBoxIntersects | Partition.h:12 | when a box inside a node intersects an area, the node intersects the area too |
| Partition.KidMissesArea | Partition.h:22-34 | a box inside a box that misses the query area misses it too, so pruning a subtree loses nothing |
| Partition.QuadrantsCover | QuadTree.h:212-233 | every point of a box lies in at least one of its four quadrants |
| Partition.QuadrantsInside | QuadTree.h:212-233 | every point of a quadrant lies in the parent box |
| Partition.ContainsBoxTransfers | Partition.h:12 | the points of a box inside another are points of the other |
| Partition.ContainsBoxTransitive | Partition.h:12 | box containment is transitive |
| Partition.Box3ExtendsBox2 | Partition.h:50-66 | the 3D contains and intersects are the 2D tests on x and y plus the same closed test on z |
| Partition.Contains3 | Partition.h:50-56 | `BoundingBox3::contains`: the point is within the half-dimensions on all three axes; it restricts to the 2D test on x and y (`Box3ExtendsBox2`) |
| Partition.Intersects3 | Partition.h:58-66 | `BoundingBox3::intersects` on all three axes; proved symmetric and implied by a common point |
| Partition.Intersects3Symmetric | Partition.h:58-66 | the 3D intersects is symmetric |
| Partition.CommonPointIntersects3 | Partition.h:50-66 | 3D boxes sharing a point intersect |
| MathUtil.Signum | Math.h:17-26 | the result is -1, 0 or 1, and is -1 exactly for negative and 1 exactly for positive input |
| MathUtil.SignumTimesMagnitude | Math.h:17-26 | the sign times the magnitude gives the value back |
| MathUtil.StdMax | Math.h:28-32 | `std::max`: at least both arguments and equal to one of them |
| MathUtil.StdMin | Math.h:28-32 | `std::min`: at most both arguments and equal to one of them |
| MathUtil.Clamp | Math.h:28-32 | the result never exceeds the upper bound, and is at least the lower bound whenever the bounds are ordered |
| MathUtil.ClampKeeps | Math.h:28-32 | a value in range is returned unchanged |
| MathUtil.ClampOutside | Math.h:28-32 | a value below the range gives the lower bound and one above it gives the upper bound |
| MathUtil.ClampInverted | Math.h:28-32 | with inverted bounds the upper bound always wins |
| MathUtil.ClampIdempotent | Math.h:28-32 | clamping twice is clamping once |
| MathUtil.ClampMonotone | Math.h:28-32 | clamping preserves order |
| QuadNodes.Size | QuadTree.h:197-210 | `size()` is the number of entries stored in the node and all its descendants |
| QuadNodes.SizeCountsKeys | QuadTree.h:197-210 | size equals the number of keys that iteration visits, counted with repetition |
| QuadNodes.KeysOfEntries | QuadTree.h:197-210 | the key of every stored entry is one of the tree's keys |
| QuadNodes.EntryOfKey | QuadTree.h:253-275 | every key of the tree has a stored entry |
| QuadNodes.Subdivide | QuadTree.h:212-233 | `subdivide` keeps the node's boundary and items and adds four children that are exactly its quadrants, provided the node is large enough to split |
| QuadNodes.LeafEmpty | QuadTree.h:65-73 | a freshly constructed node stores nothing |
| QuadNodes.SubdivideKeeps | QuadTree.h:212-233 | subdividing stores no entry and loses none |
| QuadNodes.Divided | QuadTree.h:99-101 | after "subdivide if not yet divided", the node has children, and an already divided node is untouched |
| QuadNodes.DividedKeeps | QuadTree.h:99-101 | dividing if needed changes no entry, key or key count |
| QuadNodes.DividedShape | QuadTree.h:99-101 | dividing a large enough node keeps the quadrant shape |
| QuadNodes.KidQuadrants | QuadTree.h:212-233 | children 0-3 are the NW, NE, SW and SE quadrants |
| QuadNodes.KidShape | QuadTree.h:212-233 | every child of a well-shaped node is well-shaped |
| QuadNodes.KidShrinks | QuadTree.h:93-101 | a child's half-width is strictly smaller, so recursive insertion terminates |
| QuadNodes.WithKidEntries | QuadTree.h:103-106 | replacing one child changes the entries by exactly that child's change |
| QuadNodes.Clear | QuadTree.h:144-154 | `clear` empties every node and keeps the tree's shape, boundaries and subdivisions |
| QuadNodes.KidsQueue | QuadTree.h:308-335 | a node's keys are its own keys plus those of the children the iterator queues |
| QuadNodes.PopAndQueueKids | QuadTree.h:308-335 | popping the front node and queueing its children leaves exactly the keys still to visit, and the queue's weight drops |
| QuadNodes.DrainedQueue | QuadTree.h:308-335 | when the queue runs dry nothing remains to visit |
| QuadNodes.KeysOf | QuadTree.h:327 | the keys copied out of a node's map are exactly its keys |
| QuadNodes.NodeIterator.constructor | QuadTree.h:278-289 | a begin iterator has every key of the tree still to visit, and is at end exactly when the tree is empty; an end iterator has nothing left |
| QuadNodes.NodeIterator.Start | QuadTree.h:278-289 | the first `next()` from the root leaves all keys to visit, and is at end iff there are none |
| QuadNodes.NodeIterator.Next | QuadTree.h:308-335 | `next` moves to the next node with keys and keeps the set of keys still to visit |
| QuadNodes.NodeIterator.Current | QuadTree.h:349-353 | `operator*` yields a key not yet visited |
| QuadNodes.NodeIterator.Increment | QuadTree.h:297-306 | `operator++` removes exactly the current key from those still to visit |
| QuadNodes.CountEntries | QuadTree.h:337-353 | iterating from `begin()` to `end()` visits exactly `size()` keys |
| QuadTrees.NodeInsert | QuadTree.h:86-109 | insert succeeds exactly when the boundary contains the point; on failure the tree is unchanged; the boundary and the quadrant shape are kept |
| QuadTrees.InsertIntoKids | QuadTree.h:103-108 | when some quadrant contains the point, trying the children in order succeeds |
| QuadTrees.InsertSplits | QuadTree.h:93-106 | a full, large node subdivides and passes the point to its children |
| QuadTrees.SplitCovers | QuadTree.h:99-106 | after subdividing, some child contains a point the parent contains, so the source's final `return false` is unreachable |
| QuadTrees.InsertKeepsInside | QuadTree.h:86-109 | insertion keeps every stored point inside the boundary of the node that stores it |
| QuadTrees.InsertStores | QuadTree.h:86-109 | a successful insert stores the (key, point) entry |
| QuadTrees.InsertAddsKey | QuadTree.h:86-109 | a successful insert adds exactly the key to the key set |
| QuadTrees.InsertKeepsOthers | QuadTree.h:86-109 | insertion leaves every entry of other keys as it was |
| QuadTrees.InsertFresh | QuadTree.h:86-109 | inserting a new key adds exactly one entry |
| QuadTrees.NodeFind | QuadTree.h:253-275 | `find` returns a node only when the boundary contains the position, and the node holds the key |
| QuadTrees.FoundIsStored | QuadTree.h:253-275 | the node that `find` returns stores an entry of the tree for the key |
| QuadTrees.NodeDelete | QuadTree.h:111-134 | `deleteT` succeeds exactly when `find` finds the key, and otherwise leaves the tree unchanged |
| QuadTrees.DeleteRemoves | QuadTree.h:111-134 | a successful delete removes exactly the found entry |
| QuadTrees.DeleteKeepsShape | QuadTree.h:111-134 | deletion keeps the quadrant shape |
| QuadTrees.DeleteKeepsInside | QuadTree.h:111-134 | deletion keeps stored points inside their nodes |
| QuadTrees.NodeUpdateClean | QuadTree.h:235-251 | `updateClean` succeeds iff the key is found at its old position and the new position is inside; a missing key changes nothing, and an outside position only deletes |
| QuadTrees.LocalHits | QuadTree.h:164-168 | a node's local query hits are exactly its keys whose points the area contains, each once |
| QuadTrees.NodeQuery | QuadTree.h:156-195 | every key the query returns is a hit |
| QuadTrees.QueryComplete | QuadTree.h:156-195 | on a well-formed tree the pruned query returns exactly all hits, with multiplicity |
| QuadTrees.NoHitsOutside | QuadTree.h:161-162 | a subtree whose boundary misses the area has no hits, so the pruning is sound |
| QuadTrees.HitsAreStoredInArea | QuadTree.h:156-195 | a key is a hit iff the tree stores it at a point inside the area |
| QuadTrees.StoredInside | QuadTree.h:86-109 | every stored point lies in the root's boundary |
| QuadTrees.FindStored | QuadTree.h:253-275 | `find` finds every stored entry by its own point |
| QuadTrees.DeleteStored | QuadTree.h:111-134 | deleting a stored entry succeeds and the size drops by one |
| QuadTrees.DeleteAfterInsert | QuadTree.h:86-134 | inserting a new key and deleting it again gives back the same entries |
| QuadTrees.UpdateAfterInsert | QuadTree.h:136-142 | after inserting a new key, updating it to another inside position succeeds and moves the entry |
| QuadTrees.InsertDistinct | QuadTree.h:197-210 | inserting n distinct new keys at inside points makes the size grow by n |
| QuadTrees.ClearedInside | QuadTree.h:144-154 | a cleared tree is still well-formed |
| QuadTrees.QuadTree.constructor | QuadTree.h:65-73 | a new tree has the given boundary and size 0 |
| QuadTrees.QuadTree.Insert | QuadTree.h:86-109 | the root is replaced by the inserted node; success iff the point is inside, adding the key and the entry and keeping all other entries |
| QuadTrees.QuadTree.DeleteT | QuadTree.h:111-134 | success iff the key is found; then exactly its entry is removed, and otherwise nothing changes |
| QuadTrees.QuadTree.Update | QuadTree.h:136-142 | `update` is `updateClean` on the root, with the same success condition |
| QuadTrees.QuadTree.Clear | QuadTree.h:144-154 | afterwards no entries remain and the shape is kept |
| QuadTrees.QuadTree.Query | QuadTree.h:156-195 | the query returns exactly the keys stored at points inside the area |
| QuadTrees.QuadTree.Count | QuadTree.h:197-210 | `size()` is the number of stored entries |
| QuadTrees.QuadTree.Begin | QuadTree.h:337-341 | `begin()` starts with exactly the tree's multiset of keys still to visit, and is at the end iff the tree holds no key |
| QuadTrees.QuadTree.End | QuadTree.h:343-347 | `end()` is at end with nothing to visit |
| LineQuadTrees.Put | LineQuadTree.h:94 | `std::map::insert` adds the key, but an existing key keeps its old box |
| LineQuadTrees.NodeInsert | LineQuadTree.h:85-109 | insert succeeds exactly when the boundary contains the whole box; on failure nothing changes; the boundary and the shape are kept |
| LineQuadTrees.InsertIntoKids | LineQuadTree.h:102-108 | trying the children then falling back to the node itself always succeeds |
| LineQuadTrees.InsertSplits | LineQuadTree.h:98-108 | a large node subdivides and offers the box to its children |
| LineQuadTrees.KidsFitQuadrant | LineQuadTree.h:102-105 | some child accepts the box iff it fits inside one quadrant |
| LineQuadTrees.InsertIntoKidsMisses | LineQuadTree.h:107-108 | a box no child accepts is stored in the node itself |
| LineQuadTrees.InsertIntoKidsDescends | LineQuadTree.h:102-105 | a box that a child accepts leaves the node's own map untouched |
| LineQuadTrees.StraddleStaysLocal | LineQuadTree.h:98-108 | a box straddling quadrant lines is stored at the node, after it is subdivided |
| LineQuadTrees.InsertKeepsLocally | LineQuadTree.h:92-108 | a small node, or a straddling box, keeps the box locally; otherwise the local map is untouched |
| LineQuadTrees.ReinsertKeepsBox | LineQuadTree.h:94 | re-inserting a key that the node already stores keeps its old box, because `map::insert` does not overwrite |
| LineQuadTrees.InsertKeepsInside | LineQuadTree.h:85-109 | every stored box stays inside its node's boundary |
| LineQuadTrees.InsertAddsKey | LineQuadTree.h:85-109 | a successful insert adds exactly the key |
| LineQuadTrees.InsertKeepsOthers | LineQuadTree.h:85-109 | entries of other keys are unchanged |
| LineQuadTrees.InsertFresh | LineQuadTree.h:85-109 | inserting a new key adds exactly its entry |
| LineQuadTrees.NodeFind | LineQuadTree.h:253-275 | `find` returns a node only when the boundary contains the box, and the node holds the key |
| LineQuadTrees.FoundIsStored | LineQuadTree.h:253-275 | the node found stores an entry of the tree for the key |
| LineQuadTrees.NodeDelete | LineQuadTree.h:111-134 | `deleteT` succeeds exactly when `find` does, and otherwise changes nothing |
| LineQuadTrees.DeleteRemoves | LineQuadTree.h:111-134 | a successful delete removes exactly the found entry |
| LineQuadTrees.DeleteKeepsShape | LineQuadTree.h:111-134 | deletion keeps the quadrant shape |
| LineQuadTrees.DeleteKeepsInside | LineQuadTree.h:111-134 | deletion keeps stored boxes inside their nodes |
| LineQuadTrees.NodeUpdateClean | LineQuadTree.h:235-251 | `updateClean` succeeds iff the key is found at its old box and the new box is inside; otherwise it deletes or does nothing |
| LineQuadTrees.LocalHits | LineQuadTree.h:164-168 | a node's local hits are exactly its keys whose boxes the area intersects |
| LineQuadTrees.NodeQuery | LineQuadTree.h:156-195 | every key returned is a hit |
| LineQuadTrees.QueryComplete | LineQuadTree.h:156-195 | on a well-formed tree the query returns exactly all hits |
| LineQuadTrees.NoHitsOutside | LineQuadTree.h:161-162 | a subtree whose boundary misses the area has no hits |
| LineQuadTrees.HitsAreStoredInArea | LineQuadTree.h:156-195 | a key is a hit iff the tree stores it with a box intersecting the area |
| LineQuadTrees.StoredInside | LineQuadTree.h:85-109 | every stored box lies inside the root's boundary |
| LineQuadTrees.FindStored | LineQuadTree.h:253-275 | `find` finds every stored entry by its own box |
| LineQuadTrees.DeleteStored | LineQuadTree.h:111-134 | deleting a stored entry succeeds and the size drops by one |
| LineQuadTrees.DeleteAfterInsert | LineQuadTree.h:85-134 | inserting a new key and deleting it gives back the same entries |
| LineQuadTrees.UpdateAfterInsert | LineQuadTree.h:136-142 | after inserting a new key, updating it to another inside box succeeds and moves the entry |
| LineQuadTrees.InsertDistinct | LineQuadTree.h:197-210 | n distinct new keys with inside boxes make the size grow by n |
| LineQuadTrees.ClearedInside | LineQuadTree.h:144-154 | a cleared tree is still well-formed |
| LineQuadTrees.LineQuadTree.constructor | LineQuadTree.h:64-72 | a new tree has the given boundary and size 0 |
| LineQuadTrees.LineQuadTree.Insert | LineQuadTree.h:85-109 | the root becomes the inserted node; success iff the box is inside, adding the key and keeping other entries |
| LineQuadTrees.LineQuadTree.DeleteT | LineQuadTree.h:111-134 | success iff found; exactly that entry is removed |
| LineQuadTrees.LineQuadTree.Update | LineQuadTree.h:136-142 | `update` is `updateClean` on the root |
| LineQuadTrees.LineQuadTree.Clear | LineQuadTree.h:144-154 | no entries remain and the shape is kept |
| LineQuadTrees.LineQuadTree.Query | LineQuadTree.h:156-195 | exactly the keys whose boxes intersect the area |
| LineQuadTrees.LineQuadTree.Count | LineQuadTree.h:197-210 | the number of stored entries |
| LineQuadTrees.LineQuadTree.Begin | LineQuadTree.h:335-339 | `begin()` starts with exactly the tree's multiset of keys still to visit, and is at the end iff the tree holds no key |
| LineQuadTrees.LineQuadTree.End | LineQuadTree.h:341-345 | `end()` has nothing to visit |
| CellSpace.MakeLayout | CellSpacePartition.h:59-60 | the cell size times the number of cells is the grid's extent, in each axis |
| CellSpace.PositionToIndex | CellSpacePartition.h:144-149 | the as-written index (row times `numCellsY` plus column) fits in `unsigned int` |
| CellSpace.CellIndex | CellSpacePartition.h:61-68 | the row-major index (row times `numCellsX` plus column) fits in `unsigned int` |
| CellSpace.RowMajor | CellSpacePartition.h:61-68 | the constructor's row-major numbering is a bijection onto the cells: the row and column are recovered by division and remainder |
| CellSpace.ColumnLocates | CellSpacePartition.h:144-149 | a point in the grid has a column in range, and its x lies in that column's cell |
| CellSpace.RowLocates | CellSpacePartition.h:144-149 | a point in the grid has a row in range, and its y lies in that row's cell |
| CellSpace.CellIndexLocates | CellSpacePartition.h:61-68 | with the row stride the constructor uses, every point in the grid maps to a cell that contains it |
| CellSpace.SquareGridAgrees | CellSpacePartition.h:147 | on a square grid the as-written index equals the row-major one |
| CellSpace.StrideCounterexample | CellSpacePartition.h:147 | on a 1x2 grid the as-written index of a point in cell 1 is 2, past the last cell |
| CellSpace.AddTo | CellSpacePartition.h:75-80 | adding puts the entity into exactly one cell's member list and changes no other cell |
| CellSpace.RemoveFrom | CellSpacePartition.h:82-87 | removing takes every copy of the entity out of exactly one cell and changes no other |
| CellSpace.AddThenRemove | CellSpacePartition.h:75-87 | removing an entity just added to a cell that lacked it restores the cells |
| CellSpace.QueryRectHas | CellSpacePartition.h:115-125 | the query collects every member of every cell in the rectangle of rows and columns |
| CellSpace.QueryRectOnly | CellSpacePartition.h:115-125 | everything the query collects is a member of a cell in the rectangle |
| CellSpace.Split | CellSpacePartition.h:108-112 | the column recovered from an index is less than the stride |
| CellSpace.QueryRect | CellSpacePartition.h:104-112 | the query's column bounds are below the stride that `queryBegin` uses |
| CellSpace.CellSpacePartition.constructor | CellSpacePartition.h:49-73 | there are `cellsx * cellsy` empty cells, and cell k has the box of column `k % cellsx`, row `k / cellsx` |
| CellSpace.CellSpacePartition.Add | CellSpacePartition.h:75-80 | adds to the indexed cell when the index is in range (`at()` succeeds), and otherwise changes nothing |
| CellSpace.CellSpacePartition.Remove | CellSpacePartition.h:82-87 | removes from the indexed cell when the index is in range, and otherwise changes nothing |
| CellSpace.CellSpacePartition.Update | CellSpacePartition.h:89-99 | moves the entity only when the old and new indices differ, removing before adding |
| CellSpace.CellSpacePartition.QueryBegin | CellSpacePartition.h:101-130 | the result buffer holds exactly the members of the cells in the query rectangle, the slots past them are unchanged, and the first slot is returned |
| CellSpace.CellSpacePartition.QueryRows | CellSpacePartition.h:115-125 | the row loop fills the buffer with the gathered members of the rows |
| CellSpace.CellSpacePartition.CopyRow | CellSpacePartition.h:116-124 | the column loop appends one row's members |
| CellSpace.CellSpacePartition.CopyMembers | CellSpacePartition.h:119-122 | the member loop appends one cell's members |
| CellSpace.CellSpacePartition.QueryEnd | CellSpacePartition.h:132-136 | `queryEnd()`: true once the cursor has reached the number of results; `ReadResults` ends with it holding, the cursor exactly at the last result |
| CellSpace.CellSpacePartition.QueryNext | CellSpacePartition.h:138-142 | advances the cursor and yields the buffer entry, or nothing past the buffer's end |
| CellSpace.CellSpacePartition.CollectQuery | CellSpacePartition.h:101-142 | iterating a query from `queryBegin` to `queryEnd` yields exactly the query's members, in order, and ends with `queryEnd()` true |
| CellSpace.CellSpacePartition.ReadResults | CellSpacePartition.h:132-142 | reading with `queryNext` until `queryEnd` yields the buffered results in order and stops with `queryEnd()` true, the cursor at the result count |
| Raster.Line | Line.cpp:8-55 | from `from` to `to` inclusive, one point per step of the major axis, each step moving one unit along the major axis and at most one along the minor, every point within half a pixel of the ideal line |
| Raster.OrientTwice | Line.cpp:17-21 | swapping x and y for steep lines is undone by swapping back |
| Raster.CrossOrient | Line.cpp:17-21 | the swap keeps each point's distance from the line |
| Raster.CrossSwap | Line.cpp:22-26 | reversing the endpoints keeps each point's distance from the line |
| Raster.Sweep | Line.cpp:27-53 | the normalised loop produces a raster from one endpoint to the other |
| Raster.SweepKeeps | Line.cpp:36-53 | one iteration of the error-term loop keeps the loop invariant |
| Raster.Lift | Line.cpp:17-53 | undoing the normalisation turns a raster of the normalised line into one of the original |
| Raster.EmitAt | Line.cpp:41-46 | the emitted points are the generated ones, swapped back and reversed as needed |
| AStarSearch.Solve | AStar.h:36-113 | a returned path starts at the start, ends at a goal and follows graph edges with non-negative cost; an empty path means no walk from the start reaches a goal; a start that is a goal gives `[start]`; no node is expanded twice |
| AStarSearch.PopMin | AStar.h:50-53 | the popped entry has the least f-cost in the open queue |
| AStarSearch.Relax | AStar.h:74-95 | a visited child or negative edge changes nothing; otherwise the child gets the lower of its cost and the new one, with the parent that gave it |
| AStarSearch.Expand | AStar.h:67-96 | relaxing all children keeps the search invariant |
| AStarSearch.Pass | AStar.h:49-97 | one loop iteration keeps the invariant and makes progress |
| AStarSearch.Reconstruct | AStar.h:100-108 | following the parent links back from a goal gives a walk from the start to it |
| AStarSearch.NoPath | AStar.h:98-99 | when the queue empties without reaching a goal, no walk from the start reaches one |
| AStarSearch.WalkStays | AStar.h:67-96 | a walk from a closed set of nodes never leaves it |
| AStarSearch.InitInv | AStar.h:48 | the initial queue holding only the start satisfies the invariant |
| AStarSearch.RelaxReplaces | AStar.h:79-95 | a cheaper path replaces a node's cost and parent, keeping the invariant |
| AStarSearch.VisitLinks | AStar.h:56-59 | marking a node visited keeps every parent link pointing to an earlier visited node |
| Geometry.Equal | Geometry.h:25-28 | `==` is equality of points |
| Geometry.NotEqual | Geometry.h:30-33 | `!=` is its negation |
| Geometry.Null | Geometry.h:42-45 | `null` holds exactly for the origin |
| Geometry.Less | Geometry.h:35-40 | `IPoint::operator<`: x first, y to break a tie; its order properties are the two lemmas below |
| Geometry.LessTotal | Geometry.h:35-40 | `<` (x first, then y) is irreflexive, asymmetric and total on distinct points |
| Geometry.LessTransitive | Geometry.h:35-40 | `<` is transitive, a strict weak order as `std::sort` needs |
| Geometry.Det | Geometry.cpp:12-15 | the exact `long64` determinant of the two edge vectors; it changes sign when the last two points swap (`DetSwap`) |
| Geometry.ToInt | Geometry.cpp:12-15 | the truncation to `int` lies in the 32-bit range, agrees modulo 2^32, and changes no value already in range |
| Geometry.CounterClockwise | Geometry.cpp:12-15 | the result lies in the 32-bit `int` range, and equals the exact determinant whenever that fits |
| Geometry.DetSwap | Geometry.cpp:12-15 | the exact determinant changes sign when the last two points swap |
| Geometry.CounterClockwiseSwap | Geometry.cpp:12-15 | the truncated orientation test changes sign when its exact value fits in `int` |
| Geometry.CounterClockwiseWraps | Geometry.cpp:12-15 | a clearly counter-clockwise triangle with 65536-sized legs has determinant 2^32, which the `int` truncation turns into 0 (collinear) |
| Geometry.InsertSortedSorts | Geometry.cpp:35-36 | inserting into a sorted sequence keeps it sorted and adds exactly the one point |
| Geometry.SortPointsSorts | Geometry.cpp:35-36 | sorting gives a sorted permutation of the points |
| Geometry.PopRight | Geometry.cpp:44-53 | popping non-right turns keeps the chain's first and last points |
| Geometry.PopRightTurns | Geometry.cpp:44-53 | after the inner loop the chain makes only right turns |
| Geometry.PopRightFrom | Geometry.cpp:44-53 | the inner loop only removes points |
| Geometry.ScanEnds | Geometry.cpp:38-54 | a chain scan starts at the first chain point and ends at the last point pushed |
| Geometry.ScanTurns | Geometry.cpp:38-54 | the scanned chain makes only right turns |
| Geometry.ScanFrom | Geometry.cpp:38-72 | every point of a scanned chain comes from the input |
| Geometry.Downward | Geometry.cpp:56-72 | the lower loop visits the sorted points from the third-last down to its stop index |
| Geometry.ChainEnds | Geometry.cpp:38-76 | the upper chain runs from the leftmost to the rightmost point and the lower chain runs back, so joining them drops just the shared endpoints |
| Geometry.ChainsTurn | Geometry.cpp:38-72 | both chains of the corrected hull are convex (only right turns) |
| Geometry.HullAsWritten | Geometry.cpp:17-80 | `getConvexHull` as written for four or more points: the sorted points, the truncated turn test, the lower chain stopping at the second point; `KiteLosesVertex` shows the vertex it drops |
| Geometry.ConvexHull | Geometry.cpp:17-80 | the hull with the exact turn test and the lower chain run to the first point, three points being their own hull; its chains are convex (`ChainsTurn`), its vertices come from the input (`HullFromInput`) |
| Geometry.HullFromInput | Geometry.cpp:17-80 | every vertex of the hull is a vertex of the polygon |
| Geometry.LowerAsWrittenEnd | Geometry.cpp:60 | the as-written lower chain ends at the second sorted point, never reaching the first |
| Geometry.KiteSorts | Geometry.cpp:35-36 | the kite's points sorted by `<` |
| Geometry.KiteLosesVertex | Geometry.cpp:56-76 | the hull as written of the kite (0,0),(1,-10),(1,5),(2,0) misses its vertex (1,-10) |
| Geometry.KiteKeepsVertex | Geometry.cpp:56-76 | the corrected hull of the kite has all four vertices |
| Geometry.Crosses | Geometry.cpp:108-111 | PNPOLY's crossing test: the edge straddles the point's row and the point lies left of the edge there, with division truncating toward zero |
| Geometry.EdgeCrossings | Geometry.cpp:105-116 | one flag per edge (i, j = i - 1 cyclically), set when the edge crosses the ray from p |
| Geometry.ParityIsOdd | Geometry.cpp:105-116 | the toggled flag is true exactly when an odd number of edges cross the ray |
| Geometry.PointIn | Geometry.cpp:82-117 | `pointInPolygon`: false outside the vertices' bounding box, otherwise an odd number of edge crossings (`ParityIsOdd` ties the toggled flag to that parity) |
| Geometry.SquareHoldsCentre | Geometry.cpp:82-117 | the centre of a 4x4 square is inside it, by the box test and PNPOLY together |
| Polygons.UInt | Geometry.h:139-142 | the conversion to `unsigned int` is below 2^32 and exact for sizes that fit |
| Polygons.PopClockwise | Geometry.cpp:44-53 | the inner `while` loop computes the pop of non-right turns |
| Polygons.UpperLoop | Geometry.cpp:38-54 | the upper-chain loop computes the upper chain |
| Polygons.LowerLoop | Geometry.cpp:56-72 | the lower-chain loop, run down to index 0, computes the lower chain |
| Polygons.Polygon.constructor | Geometry.h:91-97 | a polygon from points with the convex flag, and no caches |
| Polygons.Polygon.Empty | Geometry.h:99-103 | an empty polygon with the convex flag, and no caches |
| Polygons.Polygon.InvalidateCaches | Geometry.h:154-162 | drops the hull, resets the simplicity to unknown, and zeroes the centroid and area, keeping the points |
| Polygons.Polygon.AddPoint | Geometry.h:110-114 | appends the point and invalidates the caches |
| Polygons.Polygon.RemovePoint | Geometry.h:116-120 | removes every copy of the point, keeps the order of the rest, and invalidates the caches |
| Seqs.RemoveAll | Geometry.h:119 | the erase-remove idiom (also `std::list::remove`): the result holds every element other than the removed one, with the same multiplicity, and is shorter by the removed one's count |
| Polygons.Polygon.Clear | Geometry.h:122-126 | no points remain and the caches are invalidated |
| Polygons.Polygon.SetPoints | Geometry.h:128-132 | replaces the points and invalidates the caches |
| Polygons.Polygon.NumPoints | Geometry.h:139-142 | the point count as `unsigned int` |
| Polygons.Polygon.IsEmpty | Geometry.h:144-147 | true exactly when there are no points |
| Polygons.Polygon.GetConvexHull | Geometry.cpp:17-80 | the polygon itself when flagged convex or with fewer than three points; otherwise the (corrected) convex hull, cached on the first call, with every vertex from the polygon |
| Polygons.Polygon.IsConvex | Geometry.h:149-152 | flagged convex, or the corrected hull has as many points as the polygon (see Left out) |
| Polygons.KiteIsConvex | Geometry.h:149-152 | on the unflagged kite the vertex-count test fails with the hull as written and holds with the corrected hull |
| Polygons.Polygon.PointInPolygon | Geometry.cpp:82-117 | false outside the bounding box, and otherwise the PNPOLY crossing parity |
| Polygons.Bounds | Geometry.cpp:84-98 | the min/max loop bounds every point, and each bound is attained by a point unless it kept its `LONG_MAX`/`LONG_MIN` start |
| Polygons.BoxTest | Geometry.cpp:100-102 | the early return fires exactly when p lies outside the points' bounding box |
| Polygons.Pnpoly | Geometry.cpp:105-116 | the loop's result is the parity of the edge-crossing flags |
| Colors.Equal | Color.h:42-45 | `==` is component-wise equality, the same as equality of colours |
| Colors.Less | Color.h:47-54 | `operator<`: red, then green, then blue; a strict total order by the two lemmas below |
| Colors.LessTotal | Color.h:47-54 | `<` (red, then green, then blue) is a strict total order |
| Colors.LessTransitive | Color.h:47-54 | `<` is transitive |
| Colors.Distance | Color.h:56-63 | `operator-` lies between 0 and 765 and is 0 exactly for equal colours |
| Colors.DistanceSymmetric | Color.h:56-63 | the distance is symmetric |
| Colors.DistanceTriangle | Color.h:56-63 | the distance obeys the triangle inequality |
| Colors.Mix | Color.h:65-74 | each mixed component lies between the two inputs and is their sum halved and rounded down |
| Colors.MixSame | Color.h:65-74 | mixing a colour with itself leaves it unchanged |
| Colors.MixSymmetric | Color.h:65-74 | mixing is symmetric |
| Fonts.TextLess | FontConfig.h:31-38 | `std::string` `<` on the text: lexicographic on unsigned bytes, a proper prefix first; a strict total order by the two lemmas below |
| Fonts.TextLessTotal | FontConfig.h:31-38 | `std::string` comparison of the text, as unsigned bytes, is a strict total order |
| Fonts.TextLessTransitive | FontConfig.h:31-38 | the text order is transitive |
| Fonts.Equal | FontConfig.h:26-29 | `==` holds exactly for equal text, colour and scale |
| Fonts.Less | FontConfig.h:31-38 | `operator<`: by text, then colour, then scale; a strict total order consistent with `==` by the two lemmas below |
| Fonts.LessTotal | FontConfig.h:31-38 | `<` (text, then colour, then scale) is a strict total order consistent with `==`, as the cache's `std::map` key needs |
| Fonts.LessTransitive | FontConfig.h:31-38 | `<` is transitive |
| Fonts.NewTextTexture | FontConfig.h:47-52 | the constructor keeps the texture and stores width and height as `unsigned int`: equal to the arguments modulo 2^32, and exactly the arguments when they fit |
| Clocks.Countdown.constructor | Clock.cpp:49-54 | starts at its time, already checked, so not running |
| Clocks.Countdown.DoCountdown | Clock.cpp:56-60 | subtracts only while time remains |
| Clocks.Countdown.Check | Clock.cpp:85-92 | done iff no time remains; when done it is no longer running |
| Clocks.Countdown.Rewind | Clock.cpp:79-83 | back to the start time and running |
| Clocks.Countdown.CheckAndRewind | Clock.cpp:62-71 | done iff no time remained, and then rewound; otherwise unchanged |
| Clocks.Countdown.CountdownAndRewind | Clock.cpp:73-77 | counts down, then is done and rewound iff no time remains |
| Clocks.Countdown.Running | Clock.cpp:94-97 | running iff not checked since the last rewind |
| Clocks.Countdown.TimeLeft | Clock.cpp:99-102 | never negative: the remaining time, or 0 once it has run out |
| Clocks.Countdown.Clear | Clock.cpp:104-108 | out of time, not running, no time left |
| Clocks.Countdown.GetMaxTime | Clock.cpp:110-113 | the start time |
| Clocks.ClearedIsDone | Clock.cpp:85-108 | after `clear`, `check` reports done |
| Clocks.CatchUp | Clock.cpp:126-127 | the left time after adding the truncated number of whole steps; `CatchUpBounds` puts it in (0, step] |
| Clocks.CatchUpBounds | Clock.cpp:124-129 | when the timer has fallen more than a step behind, adding the truncated number of whole steps lands the left time in (0, step] |
| Clocks.SteadyTimer.constructor | Clock.cpp:115-119 | the step and the initial left time, which is valid when it lies in [0, step] |
| Clocks.SteadyTimer.Check | Clock.cpp:121-136 | fires iff the elapsed time uses up what was left; then one step, or as many whole steps as catch up, is added; a valid timer given non-negative elapsed time stays valid, so the source's assertion holds |
| Rectangles.PointWithin | Rectangle.h:32-36 | `pointWithin`: the closed box from the corner to the corner plus the size; characterised by the lemmas below |
| Rectangles.CornersWithin | Rectangle.h:32-36 | the test is inclusive: all four corners of a non-negative rectangle are within |
| Rectangles.WithinOffset | Rectangle.h:32-36 | within iff the offset from the corner is between 0 and the size in each axis |
| Rectangles.NegativeEmpty | Rectangle.h:32-36 | a negative width or height contains nothing |
| Rectangles.DefaultHoldsOrigin | Rectangle.h:24-25 | the default rectangle contains only the origin |

## Left out

- SDL surfaces, textures, the text renderer, the driver framework, the vector, matrix and quaternion code, steering, random numbers and the printers are outside this model.
- Float rounding: every float is an exact real. The 0.01 margin in `queryBegin` is kept, but rounding in the box tests is not modelled.
- `Clock` (the frame-rate limiter reading the system time) is I/O and is left out.
- Clocks.SteadyTimer.constructor: the source draws the first left time at random from [0, step). Here it is a parameter.
- Clocks.SteadyTimer.Check: with a step of 0 the catch-up branch divides by zero in the source. The model leaves the left time as it is in that case.
- `Clock.h` declares neither `countdownAndRewind` nor `getMaxTime`. Both are modelled as `Clock.cpp` defines them.
- Color `luminance` and `hue` work on floats and are left out. The colour constructors are the datatype's constructor.
- Colors.Mix returns the mixed colour instead of updating `*this` in place. A caller that mixes in place assigns the result.
- Fonts.LessTotal: the scale is a real, so the float NaN, for which `<` is not a strict weak order, is not modelled.
- `TextTexture` holds a `shared_ptr<Texture>`. The texture is a type parameter, and sharing is not modelled.
- Polygon `isSimple`, `getCentroid` and `getSignedArea` are not part of this model; they are float computations. Their caches appear only as fields that `invalidateCaches` resets. `getPoints` and `hasConvexHullCached` are plain field reads.
- Polygons.Polygon.GetConvexHull returns the hull's vertex sequence, not a `Polygon` object flagged convex. It uses the corrected hull (see Findings).
- Polygons.Polygon.IsConvex compares the point count with the corrected hull (see Findings), not with the hull as written. On the kite (0,0), (1,-10), (1,5), (2,0) the source's `isConvex` answers false, because its hull drops a vertex; the model answers true (`Polygons.KiteIsConvex`).
- Polygons.Polygon.PointInPolygon requires every coordinate to fit in `long64`. The products in `counterClockwise` and in PNPOLY may still overflow for huge coordinates, and that is not modelled. PNPOLY's division is on integers, truncating toward zero (`Seqs.TruncDiv`).
- Geometry.SortPointsSorts: `std::sort` is modelled by an insertion sort. Only the sorted result matters, and `<` is a strict total order on points.
- QuadTrees.QuadTree.Query and LineQuadTrees.LineQuadTree.Query return a multiset. The `std::vector` order (map key order per node, children NW, NE, SW, SE) is not modelled.
- QuadNodes.NodeIterator.Next visits a node's keys in an arbitrary order instead of `std::map` key order.
- QuadTrees.QuadTree.Count and LineQuadTrees.LineQuadTree.Count return an unbounded count. The `unsigned int` wrap-around of `size()` is not modelled.
- QuadTrees.QuadTree.Update: the `assert(success)` in `update` is not a precondition. The model returns the failure.
- LineQuadTrees.LineQuadTree.Update: the `assert(success)` in `update` and the `assert(0)` on each failure path of `updateClean` (with its `std::cout` message) are not preconditions. The model returns the failure, as the source does with assertions compiled out.
- CellSpace.CellSpacePartition.QueryBegin requires the result to fit the buffer of `maxEntities` (the source asserts it), and requires all indexed cells to exist (`at()` would throw).
- CellSpace.CellSpacePartition.Add, CellSpace.CellSpacePartition.Remove, CellSpace.CellSpacePartition.Update, CellSpace.CellSpacePartition.QueryBegin and CellSpace.CellSpacePartition.CollectQuery require `Indexable`: the source divides by the cell width and height cast to `int` (CellSpacePartition.h:147), which is a division by zero, undefined behaviour, for cells narrower or lower than one unit.
- CellSpace.CellSpacePartition.QueryBegin and CellSpace.CellSpacePartition.CollectQuery require `maxEntities > 0`: the source reads slot 0 of the result buffer without a check (CellSpacePartition.h:129), undefined behaviour for an empty buffer.
- AStarSearch.Relax: the diagnostic `fprintf` to `stderr` for a negative edge cost is output only and is not modelled; the edge is skipped as in the source.
- CellSpace.CellSpacePartition.constructor requires `cellsx > 0 && cellsy > 0`. The source accepts a zero count and divides by it as a float (CellSpacePartition.h:59-60), giving an infinite cell size; exact reals have no infinity, so that case is not modelled.
- CellSpace.CellSpacePartition.constructor leaves `queryIndex` unconstrained, as the source leaves it uninitialised; `queryBegin` sets it before any `queryNext`.
- CellSpace.CellIndexLocates assumes cell sizes that are whole numbers dividing the grid (`Regular`). The float division of other sizes is not modelled.
- Raster.Line: `int` overflow of the coordinate differences is not modelled.
- AStarSearch.Solve takes a ghost finite set of nodes closed under the graph's edges, to argue termination. The order in which `std::set` children are relaxed, the tie-breaking between equal f-costs and cost overflow are not modelled.
- Destructors and memory ownership (`delete` of children, of the hull cache) are not modelled. Children are owned values.

## Findings

| source | as written | input that shows it | evidently intended | confidence | as-written member | corrected member |
|---|---|---|---|---|---|---|
| CellSpacePartition.h:147 | the cell index is row times `numCellsY` plus column | a 1x2 grid of size 10 by 20 and the point (0, 5): the point lies in cell 1, but the index is 2, past the last cell, so `at()` throws | row times `numCellsX` plus column, the row-major order the constructor lays the cells out in | not executed | CellSpace.StrideCounterexample | CellSpace.CellIndexLocates |
| Geometry.cpp:60 | the lower-chain loop runs while `i > 0`, so it never pushes the leftmost sorted point, and the join then drops one more point | the kite (0,0), (1,-10), (1,5), (2,0): the hull comes out as (0,0), (1,5), (2,0), missing the vertex (1,-10) | the loop runs down to `i >= 0`, as Andrew's monotone chain does | not executed | Geometry.KiteLosesVertex | Geometry.KiteKeepsVertex |
| Geometry.cpp:12-15 | `counterClockwise` computes the `long64` determinant and returns it as `int` | (0,0), (65536,0), (0,65536): the determinant is 2^32, which truncates to 0, so a counter-clockwise turn reads as collinear | return the determinant at full `long64` width | not executed | Geometry.CounterClockwiseWraps | Geometry.DetSwap |
