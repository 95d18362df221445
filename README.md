# KD-Tree symbol tables, modelled in Dafny

The repository implements two symbol tables that map points of the plane to
values. Both support `put`, `get`, `contains`, `points()`, `range(rect)` and
`nearest(p)`.

- `KdTreeST` is a 2d-tree. It is a binary tree whose levels alternate
  between splitting on x (vertical) and on y (horizontal). A key strictly
  below the node's coordinate goes left/bottom (`lb`); an equal or greater one
  goes right/top (`rt`). Every node also stores the rectangle of the region it
  owns. `range` skips subtrees whose rectangle misses the query, and `nearest`
  skips subtrees whose rectangle is farther than the best distance so far.
- `PointST` is the brute-force reference. It delegates storage to an ordered
  symbol table, and answers `range` and `nearest` by a linear scan over
  `points()`.

The Dafny project is laid out as follows.

- `results.dfy` (`Results`): `Option`, and the `Result`/`Outcome` values that
  stand for a return or a thrown `NullPointerException`.
- `geometry.dfy` (`Geometry`): points and rectangles, given the semantics of
  algs4's `Point2D` and `RectHV`:
  - inclusive `contains`;
  - the four-comparison `intersects`;
  - the squared distance between points;
  - the squared distance from a point to a rectangle;
  - `distanceTo(q) > k` written without a square root.
  
  It also holds the two limits `Double.MIN_VALUE` and `Double.MAX_VALUE` as
  exact rationals.
- `point_seqs.dfy` (`PointSeqs`): the queue both tables fill, the filter
  `Within` that specifies a range query, and facts about duplicate-free
  sequences.
- `kd_nodes.dfy` (`KdNodes`): the node structure as a datatype, with:
  - the recursive helpers `put`, `get` and `nearest` as functions;
  - `range` as the function `RangeWalk`;
  - the ordering, region and distinctness invariants;
  - the corrected nearest search.
- `kd_tree_st.dfy` (`KdTrees`): the class `KdTreeST`. It owns `root` and
  `size`; `put`, `keys` and `range` are methods that update the size counter
  or append to the queue.
- `point_st.dfy` (`BruteForce`): the class `PointST`. The ordered symbol
  table is represented as a map plus the sequence of its keys in the order
  `keys()` yields them (ascending by y, then x); `range` and `nearest` are
  loops over that sequence.
- `agreement.dfy` (`Agreement`): two tables holding the same map answer
  size, `get`, `contains`, `points()` and `range` alike, and the corrected
  2d-tree search agrees in distance with the brute-force scan.
- `nearest_findings.dfy` (`NearestFindings`) and `root_region.dfy`
  (`RootRegion`): the defects listed under Findings.

Null arguments are `Option` parameters. Every operation that throws
`NullPointerException` returns `Err(NullPointer)` (or `Fail(NullPointer)`)
on `None`.

## Model

| member | source | states |
|---|---|---|
| KdTrees.KdTreeST.constructor | KdTreeST.java:49-52 | the new table is empty (null root, size 0) and satisfies the invariant |
| KdTrees.KdTreeST.IsEmpty | KdTreeST.java:55-57 | true exactly when no point is stored |
| KdTrees.KdTreeST.Size | KdTreeST.java:60-62 | the size field equals the number of nodes and the number of distinct stored points |
| KdTrees.KdTreeST.Put | KdTreeST.java:65-73 | a null point or value throws and changes nothing; otherwise the root becomes the tree put builds, the map is updated at p, p joins the keys, size grows by one exactly when p is new, and the invariant is kept |
| KdTrees.KdTreeST.PutAt | KdTreeST.java:76-127 | the recursive put returns the updated subtree and increments size by the number of nodes it creates |
| KdTrees.KdTreeST.Get | KdTreeST.java:130-135 | a null point throws; otherwise the stored value for p, or null when p is not stored |
| KdTrees.KdTreeST.Contains | KdTreeST.java:161-167 | a null point throws; otherwise true exactly when p is stored |
| KdTrees.KdTreeST.Points | KdTreeST.java:170-174 | the pre-order enumeration: every stored point exactly once, length equal to size |
| KdTrees.KdTreeST.KeysInto | KdTreeST.java:176-181 | appends the subtree's points to the queue in pre-order (node, lb, rt) |
| KdTrees.KdTreeST.Range | KdTreeST.java:205-213 | a null rectangle throws; otherwise exactly the stored points the rectangle contains, each once, in pre-order |
| KdTrees.KdTreeST.RangeInto | KdTreeST.java:215-224 | appends to the queue what the pruned walk reports for the subtree |
| KdTrees.KdTreeST.Nearest | KdTreeST.java:227-230 | as written: a null query throws, and so does an empty table (root.point is dereferenced); otherwise a stored point no farther from p than the root's point |
| KdTrees.KdTreeST.NearestNeighbour | KdTreeST.java:226-230 | as documented: a null query throws; no point exactly when the table is empty; otherwise a stored point no stored point is closer than |
| KdNodes.InsertKeys | KdTreeST.java:76-127 | put adds exactly the key to the set of stored points |
| KdNodes.InsertOrdered | KdTreeST.java:94-126 | put keeps the kd ordering: strictly smaller coordinate in lb, equal or greater in rt, alternating x and y |
| KdNodes.InsertRegions | KdTreeST.java:99-122 | given a key inside the region, put keeps every node's rectangle equal to its parent's clipped at the parent's coordinate |
| KdNodes.InsertDistinct | KdTreeST.java:86-89 | an existing key is overwritten in place, never stored twice |
| KdNodes.InsertToMap | KdTreeST.java:76-127 | put is a map update at the key |
| KdNodes.InsertCount | KdTreeST.java:81-89 | put creates one node exactly when the key is new |
| KdNodes.InsertInv | KdTreeST.java:71 | a put of a point in the root region, started at the root with a vertical split, keeps the whole invariant |
| KdNodes.FindInsertSame | KdTreeST.java:137-158 | get after put finds the value just put |
| KdNodes.FindInsertOther | KdTreeST.java:137-158 | put leaves get of every other key unchanged |
| KdNodes.Insert | KdTreeST.java:76-127 | the recursive put as a value; no contract of its own, specified by InsertKeys, InsertOrdered, InsertRegions, InsertDistinct, InsertToMap and InsertCount, and equal to PutAt's result |
| KdNodes.ClipBelow | KdTreeST.java:100-116 | the left/bottom child's rectangle; no contract of its own, used by InsertRegions and RegionsCover |
| KdNodes.ClipAbove | KdTreeST.java:105-121 | the right/top child's rectangle; no contract of its own, used by InsertRegions and RegionsCover |
| KdNodes.Find | KdTreeST.java:137-158 | the comparison-path descent of the private get; no contract of its own, specified by FindIsLookup, FindInsertSame and FindInsertOther |
| KdNodes.FindIsLookup | KdTreeST.java:137-158 | in an ordered tree the single comparison path finds every stored key, and get is null exactly for keys not stored |
| KdNodes.KeysToMap | KdTreeST.java:32-46 | the points the nodes store are the keys of the map the tree represents |
| KdNodes.PreOrder | KdTreeST.java:176-181 | the node, lb, rt enumeration; no contract of its own, specified by PreOrderMembers and PreOrderNoDuplicates, and what KeysInto appends |
| KdNodes.PreOrderMembers | KdTreeST.java:176-181 | the enumeration visits exactly the stored points, once per node |
| KdNodes.PreOrderNoDuplicates | KdTreeST.java:176-181 | the enumeration has no duplicates |
| KdNodes.CountKeys | KdTreeST.java:81-83 | the number of nodes is the number of distinct stored points |
| KdNodes.RegionsCover | KdTreeST.java:100-122 | every point of a subtree lies in the rectangle stored at the subtree's root |
| KdNodes.RangePruneSound | KdTreeST.java:216 | a subtree whose rectangle misses the query holds no point the query contains |
| KdNodes.RangeWalk | KdTreeST.java:215-224 | the pruned range walk as a value; no contract of its own, specified by RangeWalkSound, and what RangeInto appends |
| KdNodes.RangeWalkSound | KdTreeST.java:215-224 | under the region invariant the pruned walk reports exactly the filter of the pre-order enumeration |
| KdNodes.NearestFrom | KdTreeST.java:232-282 | the as-written nearest helper; no contract of its own, specified by NearestFromFacts and exhibited wrong by SkipsCloserNodePoint and SquaredPruneLosesNearest |
| KdNodes.Improve | KdTreeST.java:255-278 | one "if nearestDist > candidate's distance, take it" step; no contract of its own, part of NearestFrom |
| KdNodes.NearestFromFacts | KdTreeST.java:232-282 | the helper returns nothing only for a null subtree; otherwise a point of the subtree that is its root point or strictly closer (squared) than nearestKnown |
| KdNodes.NearestWithin | KdTreeST.java:232-282 | corrected helper: the result is the incoming best or a point of the subtree, no farther than the best, and no point of the subtree is closer |
| KdNodes.PruneSound | KdTreeST.java:237 | no point of a subtree is closer to the query than the rectangle stored at its root |
| KdNodes.NearestOf | KdTreeST.java:226-230 | corrected top level: nothing exactly for an empty tree, otherwise a stored point at minimal squared distance |
| Geometry.Dist2 | PointST.java:92 | Point2D.distanceSquaredTo is non-negative and zero from a point to itself |
| Geometry.RectDist2 | KdTreeST.java:237 | the squared distance from a point to a rectangle is non-negative and zero inside it |
| Geometry.DistanceExceedsMeans | KdTreeST.java:237 | the square-root-free test is the comparison of the true distance with nearestKnown |
| Geometry.RectDist2LowerBound | KdTreeST.java:237 | no point of a rectangle is closer to q than the rectangle's distance |
| Geometry.IntersectsIffCommonPoint | KdTreeST.java:216 | two well-formed rectangles intersect exactly when some point lies in both |
| PointSeqs.Within | PointST.java:73-80 | the in-order filter by an inclusive rectangle; no contract of its own, specified by WithinMembers, WithinConcat and WithinNoDuplicates |
| PointSeqs.WithinMembers | PointST.java:74-78 | the filter keeps exactly the points the rectangle contains |
| PointSeqs.WithinConcat | PointST.java:74-78 | filtering distributes over concatenation |
| PointSeqs.WithinNoDuplicates | KdTreeST.java:218-220 | filtering a duplicate-free enumeration keeps it duplicate-free |
| PointSeqs.NoDuplicatesCardinality | PointST.java:33-35 | a duplicate-free enumeration of a set has the set's size |
| PointSeqs.PointQueue.Enqueue | KdTreeST.java:178 | enqueue appends the point at the back |
| BruteForce.PointST.constructor | PointST.java:23-25 | the new table is empty |
| BruteForce.PointST.IsEmpty | PointST.java:28-30 | true exactly when no point is stored |
| BruteForce.PointST.Size | PointST.java:33-35 | the number of distinct stored points |
| BruteForce.PointST.Put | PointST.java:38-43 | a null point or value throws and changes nothing; otherwise the map is updated at p and p takes its place in the ascending key enumeration; on an overwrite the enumeration, and so the size, is unchanged |
| BruteForce.PointST.Get | PointST.java:46-51 | a null point throws; otherwise the stored value, or null exactly when p is not stored |
| BruteForce.PointST.Contains | PointST.java:55-61 | a null point throws; otherwise true exactly when p is stored |
| BruteForce.PointST.Points | PointST.java:64-66 | every stored point exactly once, ascending by y and then x |
| BruteForce.InsertSorted | PointST.java:42 | the key enumeration after the ordered table's put; no contract of its own, specified by InsertSortedFacts |
| BruteForce.InsertSortedFacts | PointST.java:42 | insertion keeps the enumeration ascending, adds exactly p, and changes nothing when p is already stored |
| BruteForce.SortedNoDuplicates | PointST.java:64-66 | an ascending enumeration has no duplicates |
| BruteForce.KeyOrderTieBreak | PointST.java:89-98 | after put((1, 0)) then put((-1, 0)), keys() yields (-1, 0) first, and nearest((0, 0)) keeps it on the tie |
| BruteForce.Scan | PointST.java:89-98 | the loop's strict-less arg-min scan; no contract of its own, specified by ScanFacts |
| BruteForce.LinearNearest | PointST.java:89-100 | the scan seeded with null at Double.MAX_VALUE; no contract of its own, specified by LinearNearestFacts |
| BruteForce.PointST.Range | PointST.java:68-82 | a null rectangle throws; otherwise the points of points() the rectangle contains, in the same order, each once |
| BruteForce.PointST.Nearest | PointST.java:84-102 | a null query throws; otherwise the result of the arg-min scan: null exactly when every stored point is at squared distance Double.MAX_VALUE or more (in particular when empty), else a stored point no stored point is closer than |
| BruteForce.ScanFacts | PointST.java:89-98 | the scan keeps its seed if nothing beats it, else ends on a point that beats the seed, is minimal, and is strictly closer than every point before it |
| BruteForce.LinearNearestFacts | PointST.java:89-100 | null exactly when no point is below Double.MAX_VALUE; otherwise the first point of the enumeration at minimal squared distance |
| Agreement.PutBoth | PointST.java:38-43 | putting the same entry into both tables gives the same outcome and keeps their maps equal |
| Agreement.SameSize | PointST.java:28-35 | tables with the same map have the same size and emptiness |
| Agreement.SameLookups | PointST.java:46-61 | tables with the same map answer get and contains alike |
| Agreement.SamePoints | PointST.java:64-66 | tables with the same map enumerate the same points, up to order |
| Agreement.SameRange | PointST.java:68-82 | tables with the same map report the same range, up to order |
| Agreement.SameNearestDistance | PointST.java:84-102 | the corrected 2d-tree search finds a point exactly when the table is non-empty, at the squared distance the scan finds |
| NearestFindings.SkipsCloserNodePoint | KdTreeST.java:241-242 | on a three-point tree the search as written returns a point farther than a stored one; the corrected search returns the nearest |
| NearestFindings.SquaredPruneLosesNearest | KdTreeST.java:237 | on a three-point tree the prune as written skips the subtree holding the nearest point; the corrected search finds it |
| NearestFindings.EmptyTreeNearestThrows | KdTreeST.java:226-229 | on an empty table nearest throws, while the corrected search reports no point |
| RootRegion.NegativePointMissedByRange | KdTreeST.java:27-30 | a stored point with a negative coordinate is missed by a range query that contains it; rooted at the full region it is found |
| RootRegion.FullRootRangeSound | KdTreeST.java:71 | rooted at the region of all finite doubles, put keeps the region invariant for every finite point and range is exact |

## Left out

- Both `main` methods: console output only.
- Floating point. Coordinates and distances are exact reals, so rounding, overflow of `distanceSquaredTo` and of the `cmp` subtraction, NaN and infinities are not modelled. `Double.MIN_VALUE` and `Double.MAX_VALUE` are their exact values.
- The `int` size field. It is an unbounded `nat`, so wrap-around after 2^31 - 1 puts is not modelled.
- KdTrees.KdTreeST.Put: requires the point to lie in the root region `[Double.MIN_VALUE, Double.MAX_VALUE]^2`.
  - Outside it, the region invariant fails and `range` can miss the point (the finding below).
  - Deeper in the tree, the unseen `RectHV` constructor may reject a clipped rectangle whose bounds cross.
- Node mutation and aliasing. The source updates nodes in place (`x.value = val`, `x.lb = put(...)`). Nodes are values here, and each reassignment rebuilds the node on the path. No node is shared, so no caller can observe the difference.
- The sentinel `Point2D(XMAX, YMAX)`. The nearest helper returns it for a null child; here that child gives `None`, which never replaces the best point.
  - In doubles the sentinel's squared distance overflows to infinity for most queries, so it loses. It does not lose for queries whose coordinates are both within about 1.3e154 of `Double.MAX_VALUE`.
  - For such a query `nearestKnown` itself overflows to infinity, the sentinel is at a finite distance and wins, and the source returns (XMAX, YMAX), a point that is not stored. Example: a table holding only (1, 1) and the query (`Double.MAX_VALUE`, `Double.MAX_VALUE`).
  - The model does not capture this. There, `KdTrees.KdTreeST.Nearest` always returns a stored point.
- The algs4 library types (`Point2D`, `RectHV`, `Queue`, `RedBlackBST`) are not part of this model. They are replaced by the datatypes, the queue class and the map-plus-key-sequence described above.
- BruteForce.PointST.Points: the key order is that of `Point2D.compareTo` (y, then x). This is the documented order of the algs4 `Point2D` class, which is not part of this model. Signed zeros are not distinguished.
- KdTrees.KdTreeST.Nearest: states only that the result is a stored point no farther than the root's, and the nearest helper only the facts of `KdNodes.NearestFromFacts`. The search as written is not a nearest-neighbour search (see Findings), so it is not related to `PointST.nearest`. Also not stated separately: that `cmp >= 0` visits `rt` first. That order is the structure of `KdNodes.NearestFrom`.

## Findings

| source | as written | input that shows it | evidently intended | confidence | as-written member | corrected member |
|---|---|---|---|---|---|---|
| KdTreeST.java:241-242 | the running best starts as (nearestKnown, x.point), so the node's own point is never measured and carries the incoming distance | put (1, 10), (9, 10), (10, 12); nearest((10, 10)) returns (10, 12) at squared distance 4, though (9, 10) is at 1 | the node's point becomes the best only when it is closer than nearestKnown | not executed | NearestFindings.SkipsCloserNodePoint | KdNodes.NearestWithin |
| KdTreeST.java:237 | the prune compares the unsquared rect.distanceTo with the squared nearestKnown | put (1, 1.4), (0.7, 3), (0.99, 1); nearest((1.3, 1)) skips the subtree at distance 0.3 > 0.25 and returns (1, 1.4) at 0.25, though (0.99, 1) is at 0.0961 | compare squared with squared (rect.distanceSquaredTo) | not executed | NearestFindings.SquaredPruneLosesNearest | KdNodes.NearestWithin |
| KdTreeST.java:226-229 | nearest reads root.point before searching, so an empty table throws | a new table; nearest((0.5, 0.5)) | return null for an empty table, as the comment says | not executed | NearestFindings.EmptyTreeNearestThrows | KdTrees.KdTreeST.NearestNeighbour |
| KdTreeST.java:27-30 | XMIN and YMIN are Double.MIN_VALUE, the smallest positive double, so the root region excludes negative coordinates | put (-1, 5); range([-2, -0.5] x [4, 6]) returns nothing, since the root's rectangle misses the query | a root region spanning all finite doubles, from -Double.MAX_VALUE | not executed | RootRegion.NegativePointMissedByRange | RootRegion.FullRootRangeSound |
