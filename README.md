# Bucketed KD-tree insertion, modelled in Dafny

This project models insertion into the bucketed KD-tree of `src/KDTree.java`.
The tree holds points with any fixed number of integer dimensions. A leaf keeps
a bucket of points sorted by the leaf's own dimension. When a point arrives at
a full leaf, the leaf is replaced by a split node on that dimension. Its
threshold is the midpoint of the bucket's smallest and largest values, and it
has two new leaves on the next dimension. Points below the threshold go left;
all others go right.

The model has three layers:

- `Buckets` holds buckets as sequences. `SortBy` is the stable sort that
  `Node.add` applies after every append. `Below` and `AtOrAbove` are the two
  sides of a split. `HalfTowardZero` is Java's truncating `/ 2`.
- `KDSpec` holds the tree as a value (`KD`). `AddToBucket` and `Insert` state
  what `addToBucket` and `add` compute. It also has the well-formedness
  invariant `Wf` and the lemmas about it.
- `KDTrees` holds the Java classes as Dafny classes whose methods update fields
  in place: `Node` with `add` and `size`, and `KDTree` with its constructor,
  `add` and `addToBucket`.
  - Ghost state ties the nodes to the value model. `shape` arranges the
    reachable nodes as a tree and `model` is the `KD` value they hold.
  - `KDTree.Add` keeps the Java loop with its `break`. It is proved to leave
    the nodes holding `Insert` of the old model.
  - The body of `addToBucket` is spread, in order, over four methods:
    - `AddToBucket`: the capacity test;
    - `SplitLeaf`: the overflow branch;
    - `NewSplitNode`: the three new nodes;
    - `Distribute`: the partition loop.
  - The body of `add` is spread over three methods:
    - `AddAtLeafRoot`: the leaf-root branch;
    - `ReplaceLeafChild` and `GraftLeaf`: replacing a leaf child inside the
      loop.

`Scenario` replays the first four insertions of the demo driver `src/VM.java`
on the value model. It exhibits both kinds of split and the resulting bucket
order.

No bound of `bucketSize` points per leaf holds for this code. A split sends
every point whose value is at least the midpoint to the right leaf. When all
values in an overflowing bucket are equal, the midpoint equals that value, so
all `bucketSize + 1` points go right. Near-ties do the same: with non-negative
values whose largest exceeds the smallest by one (5, 5, 6), the truncated
midpoint is the smallest value. `TiesFillRightLeaf` and
`AdjacentValuesSplitRight` prove these cases, and `Wf` has no capacity bound.

## Model

| member | source | states |
|---|---|---|
| `Buckets.SortByIsSorted` | src/KDTree.java:37-42 | re-sorting a bucket after an append leaves it in ascending order of the node's dimension |
| `Buckets.SortByMultiset` | src/KDTree.java:37-42 | the sort neither loses nor duplicates a point: the result is a permutation of its input |
| `Buckets.InsertSortedMultiset` | src/KDTree.java:37-42 | placing one point into a sorted bucket adds exactly that point |
| `Buckets.InsertSortedSorted` | src/KDTree.java:37-42 | placing one point into a sorted bucket keeps it sorted |
| `Buckets.AddToSortedBucket` | src/KDTree.java:37-42 | appending `x` to a sorted bucket and sorting stably inserts `x` after every point with a lower or equal key and before every point with a larger key, keeping the rest in place |
| `Buckets.SortBySorted` | src/KDTree.java:37-42 | sorting a bucket that is already sorted leaves it unchanged |
| `Buckets.SortByResort` | src/KDTree.java:114-120 | adding points one at a time to a leaf, re-sorting each time, gives the same bucket as sorting all of them once |
| `Buckets.InsertSortedAtRank` | src/KDTree.java:37-42 | the new point lands exactly at position `Rank`, the number of leading points with a key no larger than its own |
| `Buckets.RankSeparates` | src/KDTree.java:37-42 | in a sorted bucket every point from position `Rank` on has a strictly larger key than the inserted point |
| `Buckets.BelowMembers` | src/KDTree.java:114-116 | the left side of a split holds exactly the bucket's points whose value is below the threshold, in both directions |
| `Buckets.AboveMembers` | src/KDTree.java:114-118 | the right side of a split holds exactly the bucket's points whose value is at or above the threshold, in both directions |
| `Buckets.PartitionMultiset` | src/KDTree.java:114-120 | together the two sides of a split hold every point of the bucket exactly as often as the bucket does |
| `Buckets.RouteStep` | src/KDTree.java:114-120 | one iteration of the partition loop adds the point to the sorted left leaf when its value is below the threshold, and to the right leaf otherwise; the other leaf is unchanged |
| `Buckets.HalfTowardZero` | src/KDTree.java:107-108 | `median /= 2` truncates toward zero: the remainder is 0 or 1 for a non-negative sum and 0 or -1 for a negative one |
| `Buckets.MidpointBetween` | src/KDTree.java:104-108 | for a sorted bucket the threshold lies between the bucket's first (smallest) and last (largest) value |
| `Buckets.Rank` | src/KDTree.java:37-42 | the rank never exceeds the bucket length, and every point before it has a key no larger than the new point's |
| `KDSpec.AddToBucketSpec` | src/KDTree.java:93-126 | `addToBucket` keeps the leaf's dimension and adds exactly the new point; it returns a leaf if and only if the bucket was below capacity; that leaf's bucket is sorted; and the result is well-formed |
| `KDSpec.SplitBucketSpec` | src/KDTree.java:99-120 | a split node stays on the leaf's dimension and keeps every point; it puts on the left only points below the threshold and on the right only points at or above it, both new leaves on the next dimension with their buckets sorted by that dimension |
| `KDSpec.SplitIsWf` | src/KDTree.java:110-120 | a split node whose two sorted leaves on the next dimension are separated by its threshold satisfies the tree invariant |
| `KDSpec.SplitKeepsMaximumRight` | src/KDTree.java:104-118 | the threshold lies between the smallest and largest values and the largest point goes right, so the right leaf of a split is never empty |
| `KDSpec.AddToFullBucket` | src/KDTree.java:98-120 | a full leaf becomes a split node on its own dimension: its threshold is the bucket midpoint, it has two sorted leaves on the next dimension separated at the threshold, together they hold the old points plus the new one, and the right leaf holds a point with the largest value |
| `KDSpec.TiesFillRightLeaf` | src/KDTree.java:104-118 | if every point of a full bucket has the same value, the split leaves the left leaf empty and all `bucketSize + 1` points in the right leaf, so no capacity bound holds |
| `KDSpec.AdjacentValuesSplitRight` | src/KDTree.java:104-118 | when a sorted bucket's non-negative values span only two adjacent integers, the truncated midpoint is the smallest value, the left leaf stays empty and every point goes right |
| `KDSpec.TiesSplitRight` | src/KDTree.java:104-118 | splitting a bucket whose values are all `k` sends every point right |
| `KDSpec.TiesThreshold` | src/KDTree.java:104-108 | the threshold of a bucket whose values are all `k` is `k` itself |
| `KDSpec.InsertSpec` | src/KDTree.java:63-126 | insertion keeps the root's dimension, adds exactly the new point to the tree, and keeps a well-formed tree well-formed |
| `KDSpec.GraftKeepsWf` | src/KDTree.java:75-85 | replacing one child of a well-formed split node by a well-formed subtree holding one more point, which belongs on that side, keeps the node well-formed |
| `KDSpec.Route` | src/KDTree.java:69-90 | the descent of `add` follows a path that exists in the tree and ends at a leaf |
| `KDSpec.InsertReplacesRouteLeaf` | src/KDTree.java:63-91 | insertion changes exactly one leaf, the one at the end of the route, which becomes `addToBucket` of itself; everything else in the tree is unchanged |
| `KDSpec.RouteTurns` | src/KDTree.java:72-89 | every step of the route goes left if and only if the point's value on that node's dimension is below the node's threshold |
| `KDSpec.StoredOnRoute` | src/KDTree.java:72-89 | in a well-formed tree a stored point lies in the leaf that its own route reaches |
| `KDTrees.Node.OfKind` | src/KDTree.java:27-30 | the constructed node has the given leaf flag and dimension, the other fields keep their Java defaults, and the bucket is empty |
| `KDTrees.Node.OfValue` | src/KDTree.java:32-35 | the constructed node is a split node (not a leaf) with the given threshold and dimension, no children, and an empty bucket |
| `KDTrees.Node.Add` | src/KDTree.java:37-42 | the bucket becomes the old bucket with the point appended and stably sorted by the node's dimension, and the node is marked as a leaf |
| `KDTrees.KDTree.constructor` | src/KDTree.java:53-57 | the new tree is valid; its root is a fresh empty leaf on the seed dimension; it models the empty leaf |
| `KDTrees.KDTree.AddToBucket` | src/KDTree.java:93-126 | the leaf's bucket takes the point. Below capacity the same node is returned; otherwise only fresh nodes are returned. The returned nodes form a tree of distinct nodes that holds `KDSpec.AddToBucket` of the old leaf |
| `KDTrees.KDTree.SplitLeaf` | src/KDTree.java:98-123 | the old leaf's bucket takes the point, and fresh distinct nodes hold the split that `KDSpec.AddToBucket` makes of the full leaf |
| `KDTrees.KDTree.NewSplitNode` | src/KDTree.java:110-112 | three fresh, distinct nodes: a split node with the median and the leaf's dimension, whose children are two empty leaves on the next dimension |
| `KDTrees.KDTree.Distribute` | src/KDTree.java:114-120 | after the loop the lower leaf holds, sorted by its dimension, exactly the bucket's points below the median, and the upper leaf holds the others |
| `KDTrees.KDTree.Add` | src/KDTree.java:63-91 | the tree stays valid, every new node is fresh, and the nodes now hold `Insert` of the old model, so `InsertSpec` and `InsertReplacesRouteLeaf` apply to the heap |
| `KDTrees.KDTree.AddAtLeafRoot` | src/KDTree.java:64-67 | replacing a leaf root by `addToBucket` of it leaves a valid tree holding `Insert` of the old model |
| `KDTrees.KDTree.ReplaceLeafChild` | src/KDTree.java:75-85 | replacing the leaf child on the point's side of the current node leaves a valid tree holding `Insert` of the old model |
| `KDTrees.KDTree.GraftLeaf` | src/KDTree.java:76-84 | after `cur.left = addToBucket(cur.left, x)` or its right-hand twin, the nodes below `cur` hold the old subtree with that leaf child replaced by `KDSpec.AddToBucket` of it |
| `KDTrees.DescendStep` | src/KDTree.java:72-89 | moving from the current node to its child on the point's side reaches the node that holds the corresponding subtree; that child is a split node unless it is a leaf; the subtree is lower; and inserting below it is inserting into the whole tree |
| `KDTrees.MirrorReplace` | src/KDTree.java:75-85 | nodes that still hold the tree outside one path, together with new nodes below it, hold the tree with that subtree replaced |
| `KDTrees.NodesReplace` | src/KDTree.java:75-85 | replacing a subtree by nodes apart from the rest keeps every node distinct, and the replacement keeps the same root |
| `Scenario.DemoInsertions` | src/VM.java:6-19 | with bucket size 2 and seed dimension 1, the first two points share the root leaf in salary order. The third splits it on salary at 230, with the low-salary points in age order on the left. The fourth goes left and splits that leaf on age at 37 |

## Left out

- Display and printing (`display`, `print`, src/KDTree.java:128-260) are output only. The commented-out code after them and the commented lines 121-122 are not part of the program.
- Field lookup by reflection (src/KDTree.java:54 and 59-61) becomes the accessor `key`, which returns a point's value for a dimension index. The number of declared fields becomes `dims`.
- The reflection exceptions and the comparator's fallback result 0 (src/KDTree.java:17-25) are left out. The accessor is total here, so these paths cannot arise.
- Java's 32-bit `int` is modelled as unbounded integers. The overflow of `aV - bV` in the comparator (src/KDTree.java:21) and of the sum in `median` (src/KDTree.java:107) is not modelled. The comparator is modelled by its sign, as ordering by the accessor's value.
- `List.sort` is modelled as a stable insertion sort (`SortBy`). Any stable sort gives the same list, and the Java library sort is stable.
- `KDTrees.KDTree.constructor` requires `attrIndexSeed < dims`. The Java constructor does not check this, but a larger seed would fail at the first reflective lookup.
- `delete`, `NotFound`, merge and rebalance are not in `src/KDTree.java` and are not modelled. Point equality (`DataPoint.equals`) is only needed by delete.
- `Scenario.DemoInsertions` covers the first four insertions of `src/VM.java`. The later insertions and the calls to `delete` and `print` are not modelled.
- `KDTrees.KDTree.Add` states what the other nodes keep through the value model: the nodes hold `Insert` of the old model, and `InsertReplacesRouteLeaf` says that only the routed leaf changes. It has no heap-level frame per node; its `modifies this, Repr` covers every node of the tree.
- A bound of `bucketSize` points per leaf does not hold for this code, so no member promises it. `KDSpec.TiesFillRightLeaf` and `KDSpec.AdjacentValuesSplitRight` prove it fails.
