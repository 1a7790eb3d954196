# k-d tree and PR-quadtree range search, modelled in Dafny

The repository offers two planar (or k-dimensional) point indexes. Both
answer orthogonal range queries: "which points lie inside this rectangle?".

- **k-d tree** (`kdtree/kdtree.py`). Construction first sorts the point list
  once per axis. It then splits the lists recursively at the lower median of
  the axis `depth % k`. A point goes left when `p[axis] - median <= eps`, and
  every list keeps its own order. A query walks the tree with a region given
  by two bound vectors. It reports a whole subtree when the region is inside
  the query box, prunes the subtree when they do not meet, and otherwise
  descends.
- **PR-quadtree** (`quadtree/quad.py`). The root square is the bounding box
  of the points. `construct_subtree` splits a node into four quarters
  (NE, NW, SW, SE) until each leaf bucket holds at most `BUCKET_SIZE = 1`
  point. Quarters use the convention "x > mid is east, y > mid is north".
  `insert_subtree` adds one point to an existing tree. `query_range_subtree`
  prunes nodes whose square does not intersect the range and tests bucketed
  points one by one.

The project has these modules:

| file | module | what it holds |
|---|---|---|
| `wrappers.dfy` | `Wrappers` | `Option` and `Result` |
| `kdnode.dfy` | `KdNode` | the k-d tree as a datatype; `report_subtree`; region bounds with ±infinity |
| `kdbuild.dfy` | `KdBuild` | the per-axis sort, the partition loops, `__build_kdtree` and `KDtree.__init__` |
| `kdquery.dfy` | `KdQuery` | `__contains`, `__intersects`, `__search_kdtree` on shared bound arrays, `query` |
| `quad_geometry.dfy` | `QuadGeometry` | `Rectangle`, `set_partition`, `min_square` |
| `quad_model.dfy` | `QuadModel` | a quadtree node as a value, and what building, inserting and querying do to it |
| `quad_tree.dfy` | `QuadTree` | the classes `Node` and `Quad` over heap objects, each proved to follow `QuadModel` |

Python floats are modelled as `real`. The k-d tree's `float('inf')` bounds
are the datatype `Ext`. Lists are sequences and Python sets are `set`.

The k-d tree's recursion is not structural, and on some inputs it is
unbounded: Python stops it at its recursion limit with RecursionError, and
no tree is built (see `CornerDiverges`). The build is therefore specified by a relation
`Builds`. `BuildKdtree` is proved to compute the unique tree that the
relation gives, whenever one exists. Building a quadtree always ends
because distinct points are split apart within a bounded depth. That depth
is a ghost argument `n`, whose existence is proved by `BudgetFor`.

## Model

| member | source | states |
|---|---|---|
| KdNode.NegInfs | kdtree/kdtree.py:194 | the initial lower bound: `k` entries, each minus infinity |
| KdNode.PosInfs | kdtree/kdtree.py:194 | the initial upper bound: `k` entries, each plus infinity |
| KdNode.ReportHasDim | kdtree/kdtree.py:18-33 | `report_subtree` is `KdNode.Report` (kdnode.dfy:106); every point a subtree reports has at least `k` coordinates when all its leaves do |
| KdNode.ProperReportsSomething | kdtree/kdtree.py:18-33 | a subtree that is not empty itself, and has no split whose two children are both empty, reports at least one point |
| KdBuild.InsertOn | kdtree/kdtree.py:91 | inserting into a sorted list adds exactly one element and keeps the dimension |
| KdBuild.InsertOnPermutes | kdtree/kdtree.py:91 | insertion adds exactly the new point to the multiset of the list |
| KdBuild.InsertOnSorted | kdtree/kdtree.py:91 | insertion keeps a list sorted by the axis |
| KdBuild.SortOn | kdtree/kdtree.py:91 | `sorted(P, key=p[i])` has the same length as `P` and is ordered on axis `i` |
| KdBuild.SortOnPermutes | kdtree/kdtree.py:91 | the sorted list is a permutation of `P` |
| KdBuild.SortAllSorted | kdtree/kdtree.py:91 | the preprocessing is `KdBuild.SortAll` (kdbuild.dfy:121); every preprocessed list is sorted on its own axis, and the first one is a permutation of `P` |
| KdBuild.KeepSplitsMultiset | kdtree/kdtree.py:59-64 | one list's left and right part are `KdBuild.Keep` (kdbuild.dfy:130); the left and right lists together are a permutation of the input list |
| KdBuild.KeepSound | kdtree/kdtree.py:59-64 | every point of the left list satisfies `p[axis] - median <= eps`, and no point of the right list does |
| KdBuild.KeepSorted | kdtree/kdtree.py:59-64 | partitioning keeps each list's order on its own axis |
| KdBuild.PartitionSplits | kdtree/kdtree.py:57-64 | one partition step: a permutation split, each side on the right side of the median, and the order kept |
| KdBuild.SplitConsistent | kdtree/kdtree.py:57-64 | after partitioning, all `k` lists of one side are still permutations of each other and still sorted |
| KdBuild.PartitionList | kdtree/kdtree.py:60-64 | the inner loop appends each point to the left or to the right list, in input order |
| KdBuild.PartitionLists | kdtree/kdtree.py:57-64 | the outer loop gives, for every axis list, its left and its right part |
| KdBuild.BuildKdtree | kdtree/kdtree.py:40-70 | the recursive build returns the tree that the build relation `KdBuild.Builds` (kdbuild.dfy:351) determines |
| KdBuild.BuildsUnique | kdtree/kdtree.py:40-70 | the build is deterministic: at most one tree is built from given lists |
| KdBuild.BuildsReports | kdtree/kdtree.py:40-70 | the built tree reports exactly the input points, with multiplicity, and a non-empty input gives a tree that is never empty itself and has no split whose two children are both empty (one empty child does occur: in `KDtree([(1,2),(1,3)])` both points tie with the median and go left) |
| KdBuild.BuildsRegion | kdtree/kdtree.py:54-70 | every point in a subtree lies within `eps` of the region formed by the split lines above it |
| KdBuild.SplitIsLowerMedian | kdtree/kdtree.py:54-55 | the split line, `KdBuild.Median` (kdbuild.dfy:337), is the lower median along the active axis |
| KdBuild.LeftHoldsLowerHalf | kdtree/kdtree.py:55-68 | the left subtree receives at least the lower half, `(n - 1) // 2 + 1` points |
| KdBuild.StuckDiverges | kdtree/kdtree.py:50-70 | if every point of a list with two or more points goes left on every axis, no tree is ever built |
| KdBuild.CornerDiverges | kdtree/kdtree.py:73-93 | for `KDtree([(1,2),(2,1),(2,2)])` with `eps = 0` no finite tree satisfies the build relation: the recursion is unbounded, Python raises RecursionError, and no tree is built |
| KdBuild.NewKdTree | kdtree/kdtree.py:73-93 | ValueError on an empty list, TypeError when the first point is not `k`-dimensional, and otherwise a tree that reports a permutation of `P` and respects its split regions |
| KdQuery.ContainedInBox | kdtree/kdtree.py:96-108 | `__contains` is `KdQuery.Contains` (kdquery.dfy:58); with `eps = 0`, when it holds, every point of the region is inside the query box |
| KdQuery.DisjointMissesBox | kdtree/kdtree.py:111-126 | `__intersects` is `KdQuery.Intersects` (kdquery.dfy:66); with `eps = 0`, when it fails, no point of the region is inside the query box |
| KdQuery.Hits | kdtree/kdtree.py:174-196 | the reference answer holds exactly the points of the list inside the box, where the leaf test of line 144 is `KdQuery.InBox` (kdquery.dfy:73) |
| KdQuery.HitsAppend | kdtree/kdtree.py:147-171 | filtering a concatenation filters each part (the shape of the `points +=` accumulation) |
| KdQuery.SearchFindsHits | kdtree/kdtree.py:129-171 | with `eps = 0`, pruning by `__contains` and `__intersects` returns the same list as filtering the whole subtree |
| KdQuery.Search | kdtree/kdtree.py:129-171 | the search on shared bound arrays restores both arrays after each child and returns the specified answer |
| KdQuery.Query | kdtree/kdtree.py:174-196 | TypeError exactly when the chained test `len(ll) != len(ur) != k` holds, whatever the corners' lengths; otherwise the search from infinite bounds, which with `eps = 0` is the filtered report |
| KdQuery.QueryFindsExactly | kdtree/kdtree.py:73-196 | building with `eps = 0` and then querying returns a permutation of the input points inside the box, each once when the input is duplicate-free |
| KdQuery.HitsPermutation | kdtree/kdtree.py:174-196 | an answer that permutes the reference answer has the same members, each at most once for distinct input |
| QuadGeometry.MedX | quadtree/quad.py:37 | `med_x` is the midpoint of the x-extent |
| QuadGeometry.MedY | quadtree/quad.py:36 | `med_y` is the midpoint of the y-extent |
| QuadGeometry.QuarterRect | quadtree/quad.py:39-47 | `rectangle_partition` is `QuadGeometry.RectanglePartition` (quad_geometry.dfy:63), built from this; each quarter spans its half of the rectangle on both axes |
| QuadGeometry.QuarterHalves | quadtree/quad.py:39-47 | each quarter is half as wide and half as tall as the rectangle, and lies inside it |
| QuadGeometry.IntersectsSymmetric | quadtree/quad.py:49-51 | `intersects` is `QuadGeometry.Intersects` (quad_geometry.dfy:42); `a.intersects(b)` equals `b.intersects(a)` |
| QuadGeometry.TouchingDisjoint | quadtree/quad.py:49-51 | rectangles that meet along an edge (the right edge of one is the left edge of the other, or the top edge of one the bottom edge of the other) do not intersect, in either order |
| QuadGeometry.QuadrantOf | quadtree/quad.py:12-19 | a point falls in exactly one quarter: east iff `x > mx`, north iff `y > my` |
| QuadGeometry.SetPartition | quadtree/quad.py:4-21 | the loop puts each point into the set of its quarter; `None` gives four empty sets |
| QuadGeometry.PartitionIsPartition | quadtree/quad.py:4-21 | the four sets are pairwise disjoint and together make up the input |
| QuadGeometry.QuadrantInQuarter | quadtree/quad.py:77-95 | `contains` is `QuadGeometry.Contains` (quad_geometry.dfy:36); a point of the square lies in the quarter square that its classification names |
| QuadGeometry.MidlineInTwoQuarters | quadtree/quad.py:12-19 | a point on the vertical midline lies in both northern quarter squares but is classified NW |
| QuadGeometry.MinSquare | quadtree/quad.py:182-187 | no square for an empty list; otherwise the square contains every point, and each side passes through some point |
| QuadModel.StoredInSquare | quadtree/quad.py:77-111 | every point stored in a subtree lies in the node's square |
| QuadModel.BudgetFor | quadtree/quad.py:77-95 | every point set in a square has a depth at which splitting separates all its points |
| QuadModel.ConstructStores | quadtree/quad.py:77-95 | `construct_subtree` is `QuadModel.Construct` (quad_model.dfy:351); it stores exactly the given points, as a bucket or in the new children |
| QuadModel.ConstructInv | quadtree/quad.py:77-95 | construction keeps the invariant: buckets inside their squares, and children on the four quarters |
| QuadModel.FreshBuild | quadtree/quad.py:167-171 | building a fresh node stores exactly the given points, at most `BUCKET_SIZE` per bucket, and no node gets both a bucket and children; the node keeps its points as a bucket, with no children, exactly when `count <= BUCKET_SIZE` |
| QuadModel.InsertRefusedUnchanged | quadtree/quad.py:97-111 | an insert that does not return True leaves the tree unchanged; a point outside the square is refused |
| QuadModel.InsertOutcome | quadtree/quad.py:97-111 | `insert_subtree` is `QuadModel.Insert` (quad_model.dfy:535); it returns False outside the square, fails on a root without children, and returns True otherwise |
| QuadModel.InsertStores | quadtree/quad.py:97-111 | insert keeps the invariant, and an accepted point is then stored |
| QuadModel.LeafInsertStores | quadtree/quad.py:99-107 | a point of a leaf's square is always accepted and stored there |
| QuadModel.StaleLeafForgets | quadtree/quad.py:103-106 | re-splitting a full leaf keeps only the bucket and the new point |
| QuadModel.CleanInsertKeeps | quadtree/quad.py:97-111 | on a tree where no node has both a bucket and children, an accepted insert stores exactly the old points plus the new one |
| QuadModel.SecondInsertForgetsFirst | quadtree/quad.py:81-106 | after one insert splits a full leaf, the leaf keeps its bucket beside its new children, and a second insert there loses the first point |
| QuadModel.QuerySound | quadtree/quad.py:113-132 | `query_range_subtree` is `QuadModel.Query` (quad_model.dfy:915); a query returns only stored points that the range contains |
| QuadModel.QueryComplete | quadtree/quad.py:113-132 | a query finds every stored point strictly inside the range |
| QuadModel.EdgePointMissed | quadtree/quad.py:49-51 | a stored point on the right edge of a square, where the range begins, is not returned |
| QuadModel.QueryClosedExact | quadtree/quad.py:113-132 | with a closed overlap test, a query returns exactly the stored points in the range |
| QuadModel.QueryClosedExtends | quadtree/quad.py:113-132 | the closed query returns everything the query as written returns, and differs only on the range's edges |
| QuadTree.Node.constructor | quadtree/quad.py:66-72 | a new node has its square, no bucket and no children |
| QuadTree.Node.IsLeaf | quadtree/quad.py:74 | on a valid node, `is_leaf` holds exactly when the node's model has a bucket and the node is not the root, the leaf test of `QuadModel.Insert` |
| QuadTree.Node.ConstructSubtree | quadtree/quad.py:77-95 | the node and its new children change exactly as `Construct` says; a kept bucket appends the node to `tree.leaves` |
| QuadTree.Node.KeepBucket | quadtree/quad.py:78-80 | keeping the points as the bucket changes the model as `Construct` does and appends the node to `tree.leaves` |
| QuadTree.Node.SplitNode | quadtree/quad.py:81-95 | splitting changes the model as `Construct` does, with four fresh children built from the node's quarters |
| QuadTree.Node.InsertSubtree | quadtree/quad.py:97-111 | the subtree and the answer change exactly as `Insert` says; `tree.leaves` only grows, and a refusal changes neither the subtree nor `tree.leaves` |
| QuadTree.Node.InsertLeaf | quadtree/quad.py:99-107 | insertion into a leaf changes the model as `Insert` does and returns True; `tree.leaves` only grows, and stays as it was when the bucket has room; re-inserting the point of a full one-point bucket appends the node to `tree.leaves` a second time |
| QuadTree.Node.AddToBucket | quadtree/quad.py:100-102 | the bucket gains the point and nothing else changes |
| QuadTree.Node.InsertBelow | quadtree/quad.py:108-111 | passing the point to the children in the order NE, NW, SE, SW changes the subtree as `Insert` does; `tree.leaves` only grows, and a refusal leaves it as it was |
| QuadTree.Node.Offer | quadtree/quad.py:108-111 | offering the point to one child changes that child as `Insert` does and leaves the other three as they were; `tree.leaves` only grows, and a refusal leaves it as it was |
| QuadTree.Node.QueryRangeSubtree | quadtree/quad.py:113-132 | the answer equals `Query` of the node's model |
| QuadTree.Quad.constructor | quadtree/quad.py:167-171 | the root covers the bounding box and stores every input point, at most one per bucket, with no node holding both a bucket and children; the root has no children exactly when `len(points) <= 1` |
| QuadTree.Quad.Insert | quadtree/quad.py:174 | False outside the root square, failure on a root without children, and otherwise True with the point stored; on a tree still as built, nothing stored before is lost; `leaves` only grows, and a refused point leaves it as it was |
| QuadTree.Quad.QueryRange | quadtree/quad.py:175 | only stored points in the range are returned, and every stored point strictly inside it is |
| QuadTree.PointsOf | quadtree/quad.py:167-171 | the set of a list has the same members and no more elements than the list |
| QuadTree.NewQuad | quadtree/quad.py:167-171 | an empty list fails (in `min_square`); otherwise the new tree stores exactly the list's points |

## Notes on the behaviour

- **The k-d build can diverge.** All points tied with the median go left.
  When every point of a sublist goes left on every axis, the recursion calls
  itself on the same lists without bound, until Python raises RecursionError
  at its recursion limit; no tree is built. `CornerDiverges` exhibits this on the
  input `[(1,2),(2,1),(2,2)]` with `eps = 0`.
- **A re-split leaf forgets points.** `insert_subtree` on a full leaf
  calls `construct_subtree` on the bucket plus the new point. The split
  branch never clears `self.points`, so the node keeps its bucket beside
  its new children and `is_leaf()` stays true. The next insert into that
  node rebuilds its children from the one-point bucket alone, and every
  point accepted there before is dropped. For example, `Quad([(0,0),(4,4)])`
  accepts `insert((3,3))` and then `insert((2.5,3.5))`, after which `(3,3)`
  is no longer stored. `StaleLeafForgets` proves what such a node then
  stores, and `SecondInsertForgetsFirst` proves the loss for any full leaf
  and any two new points in its square. Until this happens the tree is
  clean: no node has both a bucket and children. A fresh build is clean
  (`FreshBuild`), and on a clean tree an accepted insert keeps every stored
  point (`CleanInsertKeeps`).
- **Midline points.** A point on the vertical midline is classified NW
  (`x <= mx`), yet it also lies in the closed NE square
  (`MidlineInTwoQuarters`). `insert_subtree` tries NE first. So an inserted
  midline point can land in NE, where a fresh build would have put it in
  NW.
- **Duplicate entries in `leaves`.** Inserting a point already in a full
  bucket makes `construct_subtree` keep the same one-point bucket, and the
  node is appended to `leaves` again: `Quad([(0,0),(4,4)])` followed by
  `insert((4,4))` lists the NE child twice (`InsertLeaf`).
- **A root without children.** A root built from a one-point list keeps
  a bucket and has no children (`Quad.constructor`: no children exactly
  when `len(points) <= 1`). For a point in its square, `insert`
  then calls `insert_subtree` on `None`. The model returns `NoChildren` for this AttributeError
  (`InsertOutcome`).
- **The dimension check in `query`.** `len(ll) != len(ur) != k` is a
  chained comparison. It means `len(ll) != len(ur) and len(ur) != k`, so
  corners of equal but wrong length pass it. `Query` models the check on
  corners of any length. It excludes only corners that pass the check with
  fewer than `k` coordinates (see "Left out").

## Findings

| source | as written | input that shows it | evidently intended | confidence | as-written member | corrected member |
|---|---|---|---|---|---|---|
| quadtree/quad.py:49-51, 113-115 | `intersects` uses strict comparisons, so a node whose square only touches the range is pruned, together with its points on that edge | points `[(0,0),(1,1)]`: root square `(0,0,1,1)`; `query_range(Rectangle(1,1,2,2))` skips the root and returns `{}`, though `(1,1)` is in the range | return every stored point that the range contains (`contains` is closed) | high; not executed | QuadModel.EdgePointMissed | QuadModel.QueryClosedExact |

`EdgePointMissed` proves the miss for any stored point on the right edge of
a node's square when the range's left edge passes through it. The root
square is the tight bounding box, so the points of largest x are always in
that position. `QueryClosed` is the same query with a closed overlap test.
`QueryClosedExact` proves that it returns exactly the stored points in the
range. `QueryClosedExtends` proves that it agrees with the query as written
everywhere except on the range's edges. The classes keep the behaviour as
written.

## Left out

- Drawing and visualisation (`Rectangle.draw`, `Node.draw`, `graphic_query_range_subtree`, `graphic_query_range`, `Quad.draw`, `__str__`) are I/O. The k-d tree visualiser, the point generators, the GUI, the test script and the `__main__` block are not part of this model either.
- Floating point: coordinates are exact reals, so rounding and NaN are not modelled. Infinite coordinates occur only in the k-d tree's initial bounds.
- `Node.parent` and `Node.quarter` are never read by the core and are left out.
- A bucket is a Dafny `set`. `len(points)` at construction is passed as `count`, so repeated points in the input list count as in Python.
- A quadtree node's four child fields are one `links` field. It holds either no children or all four.
- `construct_subtree` creates and builds the four children one after another and then links them. Python links each child before building it; no one observes the difference.
- `QuadTree.Node.ConstructSubtree`: `tree.leaves` is only proved to grow by appending, with the node itself appended when it keeps a bucket. Which leaves a split appends is not stated.
- `KdQuery.Query`: corners that pass the dimension check but have fewer than `k` coordinates are excluded by its precondition. On such corners the search may raise IndexError, or may return normally when a failing comparison stops `all(...)` before the missing coordinate (line 144).
- `KdBuild.BuildKdtree` and `KdBuild.NewKdTree` are modelled only on inputs where the build terminates. Their callers pass a ghost tree that satisfies the build relation. Divergence is shown by `StuckDiverges`, a sufficient condition on the lists of one call, and by the instance `CornerDiverges`; no converse is proved. The RecursionError such inputs raise is not one of the modelled `KdError` outcomes.
- `KdQuery.Query`: equality with the filtered report is proved only for `eps = 0`. For `eps > 0` the answer is tied only to the pruning search.
- `QuadTree.Quad.constructor` does not state that the root's footprint is fresh or which `Construct` call built it. It states the stored points, the bucket bound and when the root has children.
- `KDtree.__init__` defaults: the model always takes `k` and `eps` explicitly, where the source defaults to `k = 2` and `eps = 0`.
- The quadtree construction depth bound `n` is a ghost argument with no counterpart in the source. It only proves termination.
