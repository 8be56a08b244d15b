/**
 * The KD-tree as a value, and insertion as a function on it.
 *
 * `KD` is the abstract view of the tree of `Node` objects in KDTree.java: a
 * leaf holds a bucket whose order is given by its own dimension, a split node
 * holds a threshold and two subtrees.  `AddToBucket` and `Insert` state what
 * `KDTree.addToBucket` and `KDTree.add` compute (KDTree.java:63-126); the
 * class model in module KDTrees is proved to follow them, and the lemmas
 * below state what they guarantee.
 */
module KDSpec {
  import opened Buckets

  /** The number of dimensions, `attributes.length`; division by it needs it positive. */
  type Dims = n: nat | 1 <= n witness 1

  /**
   * The fixed configuration of one tree: the attribute accessor, the number
   * of dimensions and `bucketSize` (KDTree.java:49-55).
   */
  datatype Config<!T> = Config(key: Accessor<T>, dims: Dims, bucketSize: int)

  /** A leaf with its dimension and bucket, or a split node with dimension, threshold and children. */
  datatype KD<T> =
    | Leaf(dim: nat, bucket: seq<T>)
    | Split(dim: nat, value: int, left: KD<T>, right: KD<T>)

  /** One step down a split node. */
  datatype Side = Left | Right

  /** The dimension of the children of a split node on `d`: `(d + 1) % attributes.length` (KDTree.java:99). */
  function NextDim(d: nat, dims: Dims): nat
  {
    (d + 1) % dims
  }

  /** All points stored in the leaves of `t`, with multiplicity. */
  function Contents<T>(t: KD<T>): multiset<T>
  {
    match t
    case Leaf(_, b) => multiset(b)
    case Split(_, _, l, r) => Contents(l) + Contents(r)
  }

  function Height<T>(t: KD<T>): nat
  {
    match t
    case Leaf(_, _) => 0
    case Split(_, _, l, r) => 1 + (if Height(l) < Height(r) then Height(r) else Height(l))
  }

  /**
   * The invariant every tree built by insertion keeps: dimensions are in
   * range, the children of a split node on `d` are on `NextDim(d)`, every
   * bucket is sorted by its own dimension, and a split node on `d` with
   * threshold `v` has only points below `v` on its left and only points at
   * or above `v` on its right.
   */
  ghost predicate Wf<T>(c: Config<T>, t: KD<T>)
  {
    match t
    case Leaf(d, b) => d < c.dims && SortedBy(b, c.key, d)
    case Split(d, v, l, r) =>
      && d < c.dims
      && l.dim == NextDim(d, c.dims) && r.dim == NextDim(d, c.dims)
      && (forall p :: p in Contents(l) ==> c.key(p, d) < v)
      && (forall p :: p in Contents(r) ==> v <= c.key(p, d))
      && Wf(c, l) && Wf(c, r)
  }

  /**
   * `addToBucket` on a leaf on dimension `d` holding `b` (KDTree.java:93-126).
   * Below capacity the point joins the bucket and the leaf stays a leaf;
   * otherwise the point joins the bucket and the bucket is split.
   */
  function AddToBucket<T>(c: Config<T>, d: nat, b: seq<T>, x: T): KD<T>
  {
    var sb := SortBy(b + [x], c.key, d);
    if |b| < c.bucketSize then Leaf(d, sb) else SplitBucket(c, d, sb)
  }

  /**
   * What `addToBucket` guarantees: the result stays on the leaf's dimension,
   * holds the old points and `x`, is a leaf exactly when the bucket was below
   * capacity, keeps a leaf bucket sorted, and is well-formed.
   */
  lemma AddToBucketSpec<T>(c: Config<T>, d: nat, b: seq<T>, x: T)
    ensures AddToBucket(c, d, b, x).dim == d
    ensures Contents(AddToBucket(c, d, b, x)) == multiset(b) + multiset{x}
    ensures AddToBucket(c, d, b, x).Leaf? ==> |b| < c.bucketSize
    ensures |b| < c.bucketSize ==> AddToBucket(c, d, b, x).Leaf?
    ensures AddToBucket(c, d, b, x).Leaf? ==> SortedBy(AddToBucket(c, d, b, x).bucket, c.key, d)
    ensures d < c.dims ==> Wf(c, AddToBucket(c, d, b, x))
  {
    var sb := SortBy(b + [x], c.key, d);
    SortByMultiset(b + [x], c.key, d);
    SortByIsSorted(b + [x], c.key, d);
    if c.bucketSize <= |b| {
      SplitBucketSpec(c, d, sb);
      SplitIsWf(c, SplitBucket(c, d, sb));
    }
  }

  /** A split node with two sorted leaves on the next dimension, separated by its threshold, is well-formed. */
  lemma SplitIsWf<T>(c: Config<T>, r: KD<T>)
    requires r.Split? && r.left.Leaf? && r.right.Leaf?
    requires r.left.dim == NextDim(r.dim, c.dims) && r.right.dim == NextDim(r.dim, c.dims)
    requires forall t :: t in r.left.bucket ==> c.key(t, r.dim) < r.value
    requires forall t :: t in r.right.bucket ==> r.value <= c.key(t, r.dim)
    requires SortedBy(r.left.bucket, c.key, r.left.dim) && SortedBy(r.right.bucket, c.key, r.right.dim)
    ensures r.dim < c.dims ==> Wf(c, r)
  {
    forall p | p in Contents(r.left) ensures c.key(p, r.dim) < r.value {
      assert p in r.left.bucket;
    }
    forall p | p in Contents(r.right) ensures r.value <= c.key(p, r.dim) {
      assert p in r.right.bucket;
    }
  }

  /**
   * The overflow branch of `addToBucket` (KDTree.java:99-123) on the sorted
   * overflowed bucket `sb`: a node on `d` whose threshold `m` is the midpoint
   * of the first and last values, with two new leaves on the next dimension;
   * every point with value below `m` goes left, the others go right, each
   * leaf adding them one at a time and re-sorting by its own dimension.
   */
  function SplitBucket<T>(c: Config<T>, d: nat, sb: seq<T>): KD<T>
    requires |sb| > 0
  {
    var m := Midpoint(sb, c.key, d);
    var nd := NextDim(d, c.dims);
    Split(d, m, Leaf(nd, SortBy(Below(sb, c.key, d, m), c.key, nd)),
                Leaf(nd, SortBy(AtOrAbove(sb, c.key, d, m), c.key, nd)))
  }

  /**
   * A split keeps every point of the bucket, puts on the left exactly points
   * below the threshold and on the right points at or above it, and leaves
   * both new buckets sorted on the next dimension.
   */
  lemma SplitBucketSpec<T>(c: Config<T>, d: nat, sb: seq<T>)
    requires |sb| > 0
    ensures SplitBucket(c, d, sb).dim == d
    ensures SplitBucket(c, d, sb).left.dim == NextDim(d, c.dims)
    ensures SplitBucket(c, d, sb).right.dim == NextDim(d, c.dims)
    ensures Contents(SplitBucket(c, d, sb)) == multiset(sb)
    ensures forall t :: t in SplitBucket(c, d, sb).left.bucket ==> c.key(t, d) < SplitBucket(c, d, sb).value
    ensures forall t :: t in SplitBucket(c, d, sb).right.bucket ==> SplitBucket(c, d, sb).value <= c.key(t, d)
    ensures SortedBy(SplitBucket(c, d, sb).left.bucket, c.key, NextDim(d, c.dims))
    ensures SortedBy(SplitBucket(c, d, sb).right.bucket, c.key, NextDim(d, c.dims))
  {
    var m := Midpoint(sb, c.key, d);
    var nd := NextDim(d, c.dims);
    var lo := Below(sb, c.key, d, m);
    var hi := AtOrAbove(sb, c.key, d, m);
    PartitionMultiset(sb, c.key, d, m);
    SortByMultiset(lo, c.key, nd);
    SortByMultiset(hi, c.key, nd);
    SortByIsSorted(lo, c.key, nd);
    SortByIsSorted(hi, c.key, nd);
    BelowMembers(sb, c.key, d, m);
    AboveMembers(sb, c.key, d, m);
    SameMembers(SortBy(lo, c.key, nd), lo);
    SameMembers(SortBy(hi, c.key, nd), hi);
  }

  /**
   * Because the threshold is at most the largest value of the sorted bucket,
   * that largest point goes right: the right leaf of a split is never empty,
   * and its threshold lies between the smallest and largest values.
   */
  lemma SplitKeepsMaximumRight<T>(c: Config<T>, d: nat, sb: seq<T>)
    requires |sb| > 0 && SortedBy(sb, c.key, d)
    ensures var r := SplitBucket(c, d, sb);
            && c.key(sb[0], d) <= r.value <= c.key(sb[|sb| - 1], d)
            && sb[|sb| - 1] in r.right.bucket
            && forall u :: u in sb ==> c.key(u, d) <= c.key(sb[|sb| - 1], d)
  {
    SplitBucketSpec(c, d, sb);
    MidpointBetween(sb, c.key, d);
    MaximumGoesRight(c, d, sb, SplitBucket(c, d, sb));
  }

  /** The argument of `SplitKeepsMaximumRight`, for any split of `sb` at its midpoint. */
  lemma MaximumGoesRight<T>(c: Config<T>, d: nat, sb: seq<T>, r: KD<T>)
    requires |sb| > 0
    requires forall i :: 0 <= i < |sb| ==> c.key(sb[i], d) <= c.key(sb[|sb| - 1], d)
    requires r.Split? && r.value <= c.key(sb[|sb| - 1], d) && r.left.Leaf? && r.right.Leaf?
    requires Contents(r) == multiset(sb)
    requires forall t :: t in r.left.bucket ==> c.key(t, d) < r.value
    ensures sb[|sb| - 1] in r.right.bucket
    ensures forall u :: u in sb ==> c.key(u, d) <= c.key(sb[|sb| - 1], d)
  {
    var top := sb[|sb| - 1];
    assert top in multiset(sb);
    assert top !in r.left.bucket;
    assert top in multiset(r.right.bucket);
    forall u | u in sb ensures c.key(u, d) <= c.key(top, d) {
      var i :| 0 <= i < |sb| && sb[i] == u;
    }
  }

  /**
   * The overflow case of `AddToBucket` spelled out node by node, for the
   * sorted bucket `sb` and its threshold `m` as `addToBucket` computes them.
   */
  lemma SplitBucketNodes<T>(c: Config<T>, d: nat, b: seq<T>, x: T, sb: seq<T>, m: int)
    requires c.bucketSize <= |b| && sb == SortBy(b + [x], c.key, d)
    requires m == HalfTowardZero(c.key(sb[0], d) + c.key(sb[|sb| - 1], d))
    ensures AddToBucket(c, d, b, x)
              == Split(d, m, Leaf(NextDim(d, c.dims), SortBy(Below(sb, c.key, d, m), c.key, NextDim(d, c.dims))),
                             Leaf(NextDim(d, c.dims), SortBy(AtOrAbove(sb, c.key, d, m), c.key, NextDim(d, c.dims))))
  {
  }

  /**
   * The overflow case of `addToBucket` stated on its input leaf
   * (KDTree.java:98-120): the result is a split node on the leaf's dimension
   * whose threshold is the midpoint of the sorted bucket's first and last
   * values, with two sorted leaves on the next dimension that split the
   * points at the threshold, and the right leaf holds a largest point.
   */
  lemma {:induction false} AddToFullBucket<T>(c: Config<T>, d: nat, b: seq<T>, x: T)
    requires c.bucketSize <= |b|
    ensures var r := AddToBucket(c, d, b, x);
            var sb := SortBy(b + [x], c.key, d);
            var nd := NextDim(d, c.dims);
            && r.Split? && r.dim == d
            && r.value == Midpoint(sb, c.key, d)
            && r.left == Leaf(nd, r.left.bucket) && r.right == Leaf(nd, r.right.bucket)
            && SortedBy(r.left.bucket, c.key, nd) && SortedBy(r.right.bucket, c.key, nd)
            && (forall t :: t in r.left.bucket ==> c.key(t, d) < r.value)
            && (forall t :: t in r.right.bucket ==> r.value <= c.key(t, d))
            && multiset(r.left.bucket) + multiset(r.right.bucket) == multiset(b) + multiset{x}
            && (exists t :: t in r.right.bucket && forall u :: u in b + [x] ==> c.key(u, d) <= c.key(t, d))
  {
    var sb := SortBy(b + [x], c.key, d);
    var r := AddToBucket(c, d, b, x);
    SortByIsSorted(b + [x], c.key, d);
    SortByMultiset(b + [x], c.key, d);
    SplitBucketSpec(c, d, sb);
    SplitKeepsMaximumRight(c, d, sb);
    assert Contents(r) == multiset(r.left.bucket) + multiset(r.right.bucket);
    var top := sb[|sb| - 1];
    assert forall u :: u in b + [x] ==> c.key(u, d) <= c.key(top, d) by {
      SameMembers(sb, b + [x]);
    }
  }

  /**
   * `add` (KDTree.java:63-91): from the root, a point whose value on a split
   * node's dimension is below the node's threshold goes left and any other
   * point goes right, until a leaf is reached; that leaf is replaced by what
   * `addToBucket` makes of it.
   */
  function Insert<T>(c: Config<T>, t: KD<T>, x: T): KD<T>
  {
    match t
    case Leaf(d, b) => AddToBucket(c, d, b, x)
    case Split(d, v, l, r) =>
      if c.key(x, d) < v then Split(d, v, Insert(c, l, x), r)
      else Split(d, v, l, Insert(c, r, x))
  }

  /**
   * Insertion keeps the root's dimension, adds exactly `x` to the points of
   * the tree, and keeps a well-formed tree well-formed.
   */
  lemma {:induction false} InsertSpec<T>(c: Config<T>, t: KD<T>, x: T)
    ensures Insert(c, t, x).dim == t.dim
    ensures Contents(Insert(c, t, x)) == Contents(t) + multiset{x}
    ensures Wf(c, t) ==> Wf(c, Insert(c, t, x))
  {
    match t
    case Leaf(d, b) =>
      AddToBucketSpec(c, d, b, x);
    case Split(d, v, l, r) =>
      if c.key(x, d) < v {
        InsertSpec(c, l, x);
        GraftKeepsWf(c, t, Insert(c, t, x), x);
      } else {
        InsertSpec(c, r, x);
        GraftKeepsWf(c, t, Insert(c, t, x), x);
      }
  }

  /**
   * Replacing one child of a well-formed split node by a well-formed tree on
   * the same dimension that holds one more point, which belongs on that
   * side, keeps the node well-formed.
   */
  lemma GraftKeepsWf<T>(c: Config<T>, t: KD<T>, t': KD<T>, x: T)
    requires t.Split? && t'.Split? && t'.dim == t.dim && t'.value == t.value
    requires (t'.right == t.right && t'.left.dim == t.left.dim && c.key(x, t.dim) < t.value
              && Contents(t'.left) == Contents(t.left) + multiset{x})
          || (t'.left == t.left && t'.right.dim == t.right.dim && t.value <= c.key(x, t.dim)
              && Contents(t'.right) == Contents(t.right) + multiset{x})
    ensures Wf(c, t) && Wf(c, t'.left) && Wf(c, t'.right) ==> Wf(c, t')
  {
  }

  // Paths from the root, used to say which single leaf an insertion replaces.

  predicate ValidPath<T>(t: KD<T>, p: seq<Side>)
  {
    p == [] || (t.Split? && ValidPath(if p[0] == Left then t.left else t.right, p[1..]))
  }

  function SubtreeAt<T>(t: KD<T>, p: seq<Side>): KD<T>
    requires ValidPath(t, p)
  {
    if p == [] then t else SubtreeAt(if p[0] == Left then t.left else t.right, p[1..])
  }

  /** `t` with the subtree at `p` replaced by `u`. */
  function ReplaceAt<T>(t: KD<T>, p: seq<Side>, u: KD<T>): KD<T>
    requires ValidPath(t, p)
  {
    if p == [] then u
    else if p[0] == Left then Split(t.dim, t.value, ReplaceAt(t.left, p[1..], u), t.right)
    else Split(t.dim, t.value, t.left, ReplaceAt(t.right, p[1..], u))
  }

  /** The path `add` walks from the root of `t` to the leaf that receives `x`. */
  function Route<T>(c: Config<T>, t: KD<T>, x: T): (p: seq<Side>)
    ensures ValidPath(t, p) && SubtreeAt(t, p).Leaf?
  {
    match t
    case Leaf(_, _) => []
    case Split(d, v, l, r) =>
      if c.key(x, d) < v then [Left] + Route(c, l, x) else [Right] + Route(c, r, x)
  }

  /** Extending a path by one step selects a child of the subtree it reached. */
  lemma {:induction false} SubtreeAtSnoc<T>(t: KD<T>, p: seq<Side>, s: Side)
    requires ValidPath(t, p) && SubtreeAt(t, p).Split?
    ensures ValidPath(t, p + [s])
    ensures SubtreeAt(t, p + [s]) == if s == Left then SubtreeAt(t, p).left else SubtreeAt(t, p).right
  {
    if p != [] {
      assert (p + [s])[1..] == p[1..] + [s];
      SubtreeAtSnoc(if p[0] == Left then t.left else t.right, p[1..], s);
    }
  }

  /** Replacing one child of the subtree at `p` is replacing at `p` extended by that side. */
  lemma {:induction false} ReplaceAtSnoc<T>(t: KD<T>, p: seq<Side>, s: Side, u: KD<T>)
    requires ValidPath(t, p) && SubtreeAt(t, p).Split?
    ensures ValidPath(t, p + [s])
    ensures var n := SubtreeAt(t, p);
            ReplaceAt(t, p + [s], u)
              == ReplaceAt(t, p, if s == Left then Split(n.dim, n.value, u, n.right)
                                 else Split(n.dim, n.value, n.left, u))
  {
    SubtreeAtSnoc(t, p, s);
    if p != [] {
      assert (p + [s])[1..] == p[1..] + [s];
      ReplaceAtSnoc(if p[0] == Left then t.left else t.right, p[1..], s, u);
    }
  }

  /**
   * Where the route leaves the split node at `p` for a leaf child on side
   * `s`, insertion replaces that child by what `AddToBucket` makes of it.
   */
  lemma InsertAtLeafChild<T>(c: Config<T>, t: KD<T>, p: seq<Side>, x: T, s: Side)
    requires ValidPath(t, p) && SubtreeAt(t, p).Split?
    requires s == Left <==> c.key(x, SubtreeAt(t, p).dim) < SubtreeAt(t, p).value
    requires (if s == Left then SubtreeAt(t, p).left else SubtreeAt(t, p).right).Leaf?
    requires Insert(c, t, x) == ReplaceAt(t, p, Insert(c, SubtreeAt(t, p), x))
    ensures var n := SubtreeAt(t, p);
            Insert(c, t, x)
              == ReplaceAt(t, p, if s == Left then Split(n.dim, n.value, AddToBucket(c, n.left.dim, n.left.bucket, x), n.right)
                                 else Split(n.dim, n.value, n.left, AddToBucket(c, n.right.dim, n.right.bucket, x)))
  {
  }

  /**
   * Insertion changes exactly one leaf: the one at the end of `Route`, which
   * is replaced by the result of `AddToBucket` on it; the rest of the tree
   * is as before.
   */
  lemma {:induction false} InsertReplacesRouteLeaf<T>(c: Config<T>, t: KD<T>, x: T)
    ensures var p := Route(c, t, x);
            var leaf := SubtreeAt(t, p);
            Insert(c, t, x) == ReplaceAt(t, p, AddToBucket(c, leaf.dim, leaf.bucket, x))
  {
    match t
    case Leaf(_, _) =>
    case Split(d, v, l, r) =>
      if c.key(x, d) < v {
        InsertReplacesRouteLeaf(c, l, x);
        assert ([Left] + Route(c, l, x))[1..] == Route(c, l, x);
      } else {
        InsertReplacesRouteLeaf(c, r, x);
        assert ([Right] + Route(c, r, x))[1..] == Route(c, r, x);
      }
  }

  /**
   * Every step of the route goes left exactly when the point's value on the
   * node's dimension is below the node's threshold (KDTree.java:72-89).
   */
  lemma {:induction false} RouteTurns<T>(c: Config<T>, t: KD<T>, x: T, i: nat)
    requires i < |Route(c, t, x)|
    ensures var p := Route(c, t, x);
            ValidPath(t, p[..i]) && SubtreeAt(t, p[..i]).Split?
            && (p[i] == Left <==> c.key(x, SubtreeAt(t, p[..i]).dim) < SubtreeAt(t, p[..i]).value)
  {
    match t
    case Split(d, v, l, r) =>
      var child := if c.key(x, d) < v then l else r;
      var p := Route(c, t, x);
      assert p == [p[0]] + Route(c, child, x);
      if i > 0 {
        RouteTurns(c, child, x, i - 1);
        assert p[..i][1..] == Route(c, child, x)[..i - 1];
      }
  }

  /**
   * In a well-formed tree a stored point lies in the leaf that its own route
   * leads to: the split thresholds send it back to where it was put.
   */
  lemma {:induction false} StoredOnRoute<T>(c: Config<T>, t: KD<T>, x: T)
    requires Wf(c, t) && x in Contents(t)
    ensures x in SubtreeAt(t, Route(c, t, x)).bucket
  {
    match t
    case Leaf(_, _) =>
    case Split(d, v, l, r) =>
      if c.key(x, d) < v {
        assert x !in Contents(r);
        StoredOnRoute(c, l, x);
        assert ([Left] + Route(c, l, x))[1..] == Route(c, l, x);
      } else {
        assert x !in Contents(l);
        StoredOnRoute(c, r, x);
        assert ([Right] + Route(c, r, x))[1..] == Route(c, r, x);
      }
  }

  /**
   * No size bound is promised for the leaves a split makes: when every point
   * of an overflowing bucket has the same value on the leaf's dimension, the
   * midpoint equals that value and all `|b| + 1` points go right.
   */
  lemma TiesFillRightLeaf<T>(c: Config<T>, d: nat, b: seq<T>, x: T)
    requires c.bucketSize <= |b|
    requires forall u :: u in b ==> c.key(u, d) == c.key(x, d)
    ensures var r := AddToBucket(c, d, b, x);
            r.Split? && r.left.bucket == [] && |r.right.bucket| == |b| + 1
  {
    var sb := SortBy(b + [x], c.key, d);
    SortByMultiset(b + [x], c.key, d);
    forall u | u in sb ensures c.key(u, d) == c.key(x, d) {
      SameMembers(sb, b + [x]);
    }
    TiesSplitRight(c, d, sb, c.key(x, d));
  }

  /** A split of a bucket whose points all have value `k` on `d` sends them all right. */
  lemma TiesSplitRight<T>(c: Config<T>, d: nat, sb: seq<T>, k: int)
    requires |sb| > 0
    requires forall u :: u in sb ==> c.key(u, d) == k
    ensures var r := SplitBucket(c, d, sb);
            r.left.bucket == [] && |r.right.bucket| == |sb|
  {
    TiesThreshold(c, d, sb, k);
    SplitBucketSpec(c, d, sb);
    NothingBelow(c.key, d, sb, SplitBucket(c, d, sb));
  }

  /**
   * Near-ties break the bound as well: when the values of a sorted bucket
   * are non-negative and its largest value exceeds its smallest by one, the
   * truncated midpoint is the smallest value and every point goes right
   * (values 5, 5, 6 give threshold 5).
   */
  lemma AdjacentValuesSplitRight<T>(c: Config<T>, d: nat, sb: seq<T>)
    requires |sb| > 0 && SortedBy(sb, c.key, d)
    requires 0 <= c.key(sb[0], d) && c.key(sb[|sb| - 1], d) == c.key(sb[0], d) + 1
    ensures var r := SplitBucket(c, d, sb);
            r.value == c.key(sb[0], d) && r.left.bucket == [] && |r.right.bucket| == |sb|
  {
    var r := SplitBucket(c, d, sb);
    assert r.value == c.key(sb[0], d);
    forall u | u in sb ensures r.value <= c.key(u, d) {
      var i :| 0 <= i < |sb| && sb[i] == u;
      assert i == 0 || c.key(sb[0], d) <= c.key(sb[i], d);
    }
    SplitBucketSpec(c, d, sb);
    NothingBelow(c.key, d, sb, r);
  }

  /**
   * A split node holding the points of `sb`, none of them below its
   * threshold, has nothing on its left.
   */
  lemma NothingBelow<T>(key: Accessor<T>, d: nat, sb: seq<T>, r: KD<T>)
    requires r.Split? && r.left.Leaf? && r.right.Leaf?
    requires forall u :: u in sb ==> r.value <= key(u, d)
    requires Contents(r) == multiset(sb)
    requires forall t :: t in r.left.bucket ==> key(t, d) < r.value
    ensures r.left.bucket == [] && |r.right.bucket| == |sb|
  {
    assert Contents(r) == multiset(r.left.bucket) + multiset(r.right.bucket);
    forall t ensures t !in r.left.bucket {
      assert t in r.left.bucket ==> t in multiset(sb);
    }
    assert r.left.bucket == [] by {
      assert forall i :: 0 <= i < |r.left.bucket| ==> r.left.bucket[i] in r.left.bucket;
    }
    assert multiset(r.left.bucket) == multiset{};
    assert multiset(r.right.bucket) == multiset(sb);
    assert |multiset(r.right.bucket)| == |multiset(sb)|;
  }

  /** The threshold of a bucket whose points all have value `k` is `k`. */
  lemma TiesThreshold<T>(c: Config<T>, d: nat, sb: seq<T>, k: int)
    requires |sb| > 0
    requires forall u :: u in sb ==> c.key(u, d) == k
    ensures SplitBucket(c, d, sb).value == k
  {
    assert sb[0] in sb && sb[|sb| - 1] in sb;
    HalfOfDouble(k);
  }

  /** Halving a doubled value gives it back, with either rounding. */
  lemma HalfOfDouble(k: int)
    ensures HalfTowardZero(k + k) == k
  {
  }
}
