/**
 * The KD-tree of KDTree.java as objects on the heap.
 *
 * `Node` and `KDTree` keep the fields of the Java classes and their methods
 * update those fields in place.  A tree object carries ghost state that ties
 * its nodes to the value model of module KDSpec: `shape` names the node
 * objects reachable from the root in tree form, and `model` is the `KD`
 * value they stand for.  The methods are proved to change the nodes exactly
 * as the functions of KDSpec change the model.
 */
module KDTrees {
  import opened Buckets
  import opened KDSpec

  /** A node of the tree: a split node or a leaf with a bucket (KDTree.java:9-47). */
  class Node<T> {
    const value: int
    const attrIndex: nat
    var left: Node?<T>
    var right: Node?<T>
    var leaf: bool
    var bucket: seq<T>

    /** `Node(boolean leaf, int attrIndex)`; the other fields keep their Java defaults. */
    constructor OfKind(leaf: bool, attrIndex: nat)
      ensures this.leaf == leaf && this.attrIndex == attrIndex
      ensures value == 0 && left == null && right == null && bucket == []
    {
      this.leaf := leaf;
      this.attrIndex := attrIndex;
      value := 0;
      left, right := null, null;
      bucket := [];
    }

    /** `Node(int value, int attrIndex)`: a split node, `leaf` staying `false`. */
    constructor OfValue(value: int, attrIndex: nat)
      ensures this.value == value && this.attrIndex == attrIndex
      ensures !leaf && left == null && right == null && bucket == []
    {
      this.value := value;
      this.attrIndex := attrIndex;
      leaf := false;
      left, right := null, null;
      bucket := [];
    }

    /**
     * `add`: the point is appended and the bucket sorted again, stably, by
     * the node's own dimension; the node becomes (or stays) a leaf.
     */
    method Add(p: T, key: Accessor<T>)
      modifies this`bucket, this`leaf
      ensures bucket == SortBy(old(bucket) + [p], key, attrIndex) && leaf
    {
      bucket := SortBy(bucket + [p], key, attrIndex);
      leaf := true;
    }

    /** `size`: the number of points in the bucket. */
    function Size(): (n: nat)
      reads this`bucket
      ensures n == |bucket|
    {
      |bucket|
    }
  }

  /**
   * The node objects of a tree, arranged as the tree: a leaf node, or a split
   * node with the shapes below its left and right children.
   */
  datatype Shape<T> = SLeaf(node: Node<T>) | SSplit(node: Node<T>, l: Shape<T>, r: Shape<T>)

  function Nodes<T>(s: Shape<T>): set<Node<T>>
  {
    match s
    case SLeaf(n) => {n}
    case SSplit(n, l, r) => {n} + Nodes(l) + Nodes(r)
  }

  /** No node object occurs twice in the shape: the nodes form a tree, not a graph. */
  predicate Distinct<T>(s: Shape<T>)
  {
    match s
    case SLeaf(_) => true
    case SSplit(n, l, r) =>
      n !in Nodes(l) && n !in Nodes(r) && Nodes(l) !! Nodes(r) && Distinct(l) && Distinct(r)
  }

  /**
   * The nodes of `s` hold the tree `t`: leaves are marked as leaves and hold
   * the bucket, split nodes are not and hold the threshold, each node has the
   * dimension of its subtree, and a split node's `left` and `right` fields
   * point to the roots of its child shapes.
   */
  ghost predicate Mirror<T>(s: Shape<T>, t: KD<T>)
    reads Nodes(s)
  {
    match s
    case SLeaf(n) => t.Leaf? && n.leaf && n.attrIndex == t.dim && n.bucket == t.bucket
    case SSplit(n, l, r) =>
      && t.Split? && !n.leaf && n.attrIndex == t.dim && n.value == t.value
      && n.left == l.node && n.right == r.node
      && Mirror(l, t.left) && Mirror(r, t.right)
  }

  /** `p` leads through split shapes of `s`. */
  predicate ShapePath<T>(s: Shape<T>, p: seq<Side>)
  {
    p == [] || (s.SSplit? && ShapePath(if p[0] == Left then s.l else s.r, p[1..]))
  }

  function ShapeAt<T>(s: Shape<T>, p: seq<Side>): Shape<T>
    requires ShapePath(s, p)
  {
    if p == [] then s else ShapeAt(if p[0] == Left then s.l else s.r, p[1..])
  }

  /** `s` with the shape at `p` replaced by `u`. */
  function ReplaceShape<T>(s: Shape<T>, p: seq<Side>, u: Shape<T>): Shape<T>
    requires ShapePath(s, p)
  {
    if p == [] then u
    else if p[0] == Left then SSplit(s.node, ReplaceShape(s.l, p[1..], u), s.r)
    else SSplit(s.node, s.l, ReplaceShape(s.r, p[1..], u))
  }

  /** Extending a path by one step selects a child of the shape it reached. */
  lemma {:induction false} ShapeAtSnoc<T>(s: Shape<T>, p: seq<Side>, d: Side)
    requires ShapePath(s, p) && ShapeAt(s, p).SSplit?
    ensures ShapePath(s, p + [d])
    ensures ShapeAt(s, p + [d]) == if d == Left then ShapeAt(s, p).l else ShapeAt(s, p).r
  {
    if p != [] {
      assert (p + [d])[1..] == p[1..] + [d];
      ShapeAtSnoc(if p[0] == Left then s.l else s.r, p[1..], d);
    }
  }

  /** The nodes below a path are nodes of the whole shape, and distinct when those are. */
  lemma {:induction false} ShapeAtNodes<T>(s: Shape<T>, p: seq<Side>)
    requires ShapePath(s, p)
    ensures Nodes(ShapeAt(s, p)) <= Nodes(s)
    ensures Distinct(s) ==> Distinct(ShapeAt(s, p))
  {
    if p != [] {
      ShapeAtNodes(if p[0] == Left then s.l else s.r, p[1..]);
    }
  }

  /**
   * Replacing the shape at `p` by a shape of distinct nodes that share no
   * node with the rest keeps all nodes distinct; the nodes of the result are
   * those outside the replaced part together with those of `u`.
   */
  lemma {:induction false} NodesReplace<T>(s: Shape<T>, p: seq<Side>, u: Shape<T>)
    requires ShapePath(s, p) && Distinct(s) && Distinct(u)
    requires Nodes(u) !! (Nodes(s) - Nodes(ShapeAt(s, p)))
    ensures Distinct(ReplaceShape(s, p, u))
    ensures Nodes(ReplaceShape(s, p, u)) == (Nodes(s) - Nodes(ShapeAt(s, p))) + Nodes(u)
    ensures u.node == ShapeAt(s, p).node ==> ReplaceShape(s, p, u).node == s.node
  {
    if p != [] {
      var child, other := if p[0] == Left then s.l else s.r, if p[0] == Left then s.r else s.l;
      ShapeAtNodes(child, p[1..]);
      NodesReplace(child, p[1..], u);
      assert Nodes(s) == {s.node} + Nodes(child) + Nodes(other);
    }
  }

  /**
   * The nodes of `s` that lie outside the shape at `p`: those on the way
   * down to it and everything hanging off that way.
   */
  function Above<T>(s: Shape<T>, p: seq<Side>): set<Node<T>>
    requires ShapePath(s, p)
  {
    if p == [] then {}
    else if p[0] == Left then {s.node} + Nodes(s.r) + Above(s.l, p[1..])
    else {s.node} + Nodes(s.l) + Above(s.r, p[1..])
  }

  /**
   * `Mirror` for the part of `s` outside the shape at `p`: the nodes on the
   * way to `p` and those hanging off it hold the corresponding parts of `t`,
   * and the last node on the way points to the node at `p`.  It reads only
   * the nodes outside, so it survives any change below `p`.
   */
  ghost predicate MirrorAbove<T>(s: Shape<T>, t: KD<T>, p: seq<Side>)
    requires ShapePath(s, p)
    reads Above(s, p)
  {
    p != [] ==>
      && t.Split? && !s.node.leaf && s.node.attrIndex == t.dim && s.node.value == t.value
      && s.node.left == s.l.node && s.node.right == s.r.node
      && if p[0] == Left then Mirror(s.r, t.right) && MirrorAbove(s.l, t.left, p[1..])
         else Mirror(s.l, t.left) && MirrorAbove(s.r, t.right, p[1..])
  }

  /** In a shape of distinct nodes the nodes outside `p` and those below it are apart. */
  lemma {:induction false} AboveApart<T>(s: Shape<T>, p: seq<Side>)
    requires ShapePath(s, p) && Distinct(s)
    ensures Above(s, p) !! Nodes(ShapeAt(s, p))
    ensures Above(s, p) <= Nodes(s)
  {
    if p != [] {
      var child := if p[0] == Left then s.l else s.r;
      AboveApart(child, p[1..]);
      ShapeAtNodes(child, p[1..]);
    }
  }

  /** A shape that holds a tree holds, in particular, the part outside any path. */
  lemma {:induction false} MirrorGivesAbove<T>(s: Shape<T>, t: KD<T>, p: seq<Side>)
    requires Mirror(s, t) && ValidPath(t, p) && ShapePath(s, p)
    ensures MirrorAbove(s, t, p)
  {
    if p != [] {
      MirrorGivesAbove(if p[0] == Left then s.l else s.r, if p[0] == Left then t.left else t.right, p[1..]);
    }
  }

  /** Three distinct nodes holding a split node and its two leaves hold the tree of one split. */
  lemma MirrorSplit<T>(split: Node<T>, lo: Node<T>, hi: Node<T>, t: KD<T>)
    requires split != lo && split != hi && lo != hi
    requires t.Split? && t.left.Leaf? && t.right.Leaf?
    requires !split.leaf && split.attrIndex == t.dim && split.value == t.value && split.left == lo && split.right == hi
    requires lo.leaf && lo.attrIndex == t.left.dim && lo.bucket == t.left.bucket
    requires hi.leaf && hi.attrIndex == t.right.dim && hi.bucket == t.right.bucket
    ensures Mirror(SSplit(split, SLeaf(lo), SLeaf(hi)), t) && Distinct(SSplit(split, SLeaf(lo), SLeaf(hi)))
  {
  }

  /** The nodes of a shape are allocated objects. */
  lemma {:induction false} ShapeAllocated<T>(s: Shape<T>)
    ensures forall n :: n in Nodes(s) ==> allocated(n)
  {
    match s
    case SLeaf(_) =>
    case SSplit(_, l, r) =>
      ShapeAllocated(l);
      ShapeAllocated(r);
  }

  /**
   * The part outside `p` together with a shape `u`, rooted at the node at
   * `p` and holding `ut`, holds the tree with `ut` in place of the subtree
   * at `p`.
   */
  lemma {:induction false} MirrorReplace<T>(s: Shape<T>, t: KD<T>, p: seq<Side>, u: Shape<T>, ut: KD<T>)
    requires ValidPath(t, p) && ShapePath(s, p) && MirrorAbove(s, t, p)
    requires u.node == ShapeAt(s, p).node && Mirror(u, ut)
    ensures Mirror(ReplaceShape(s, p, u), ReplaceAt(t, p, ut))
  {
    if p != [] && p[0] == Left {
      MirrorReplace(s.l, t.left, p[1..], u, ut);
      assert ReplaceShape(s.l, p[1..], u).node == s.l.node;
    } else if p != [] {
      MirrorReplace(s.r, t.right, p[1..], u, ut);
      assert ReplaceShape(s.r, p[1..], u).node == s.r.node;
    }
  }

  /**
   * One step of the descent of `add` from the node at `p` to its child on
   * side `s`, the side the point belongs to: the child is held by the child
   * shape, a child that is not a leaf is a split node, the subtree gets
   * lower, and inserting below the child is still inserting into the tree.
   */
  lemma DescendStep<T>(c: Config<T>, sh: Shape<T>, m: KD<T>, p: seq<Side>, s: Side, x: T)
    requires ValidPath(m, p) && ShapePath(sh, p)
    requires Mirror(ShapeAt(sh, p), SubtreeAt(m, p)) && SubtreeAt(m, p).Split?
    requires s == Left <==> c.key(x, SubtreeAt(m, p).dim) < SubtreeAt(m, p).value
    requires Insert(c, m, x) == ReplaceAt(m, p, Insert(c, SubtreeAt(m, p), x))
    ensures ValidPath(m, p + [s]) && ShapePath(sh, p + [s])
    ensures ShapeAt(sh, p + [s]).node == if s == Left then ShapeAt(sh, p).node.left else ShapeAt(sh, p).node.right
    ensures Mirror(ShapeAt(sh, p + [s]), SubtreeAt(m, p + [s]))
    ensures !ShapeAt(sh, p + [s]).node.leaf ==> SubtreeAt(m, p + [s]).Split?
    ensures Height(SubtreeAt(m, p + [s])) < Height(SubtreeAt(m, p))
    ensures Insert(c, m, x) == ReplaceAt(m, p + [s], Insert(c, SubtreeAt(m, p + [s]), x))
  {
    var sub := SubtreeAt(m, p);
    SubtreeAtSnoc(m, p, s);
    ShapeAtSnoc(sh, p, s);
    ReplaceAtSnoc(m, p, s, Insert(c, if s == Left then sub.left else sub.right, x));
  }

  /**
   * The tree object (KDTree.java:49-57): the accessor standing for the
   * reflective field lookup, the number of dimensions, the bucket capacity
   * and the root node.
   */
  class KDTree<T> {
    const key: Accessor<T>
    const dims: Dims
    const bucketSize: int
    var root: Node<T>

    ghost var shape: Shape<T>
    ghost var model: KD<T>
    ghost var Repr: set<Node<T>>

    function Cfg(): Config<T>
    {
      Config(key, dims, bucketSize)
    }

    /** The nodes reachable from the root are distinct and hold `model`, which is well-formed. */
    ghost predicate Valid()
      reads this, Repr
    {
      && root == shape.node && Repr == Nodes(shape) && Distinct(shape)
      && Mirror(shape, model) && Wf(Cfg(), model)
    }

    /** The constructor: an empty leaf on dimension `attrIndexSeed` as the root. */
    constructor (key: Accessor<T>, dims: Dims, bucketSize: int, attrIndexSeed: nat)
      requires attrIndexSeed < dims
      ensures Valid() && fresh(Repr)
      ensures this.key == key && this.dims == dims && this.bucketSize == bucketSize
      ensures model == Leaf(attrIndexSeed, [])
      ensures root.leaf && root.bucket == [] && root.attrIndex == attrIndexSeed
    {
      this.key := key;
      this.dims := dims;
      this.bucketSize := bucketSize;
      var n := new Node<T>.OfKind(true, attrIndexSeed);
      root := n;
      shape := SLeaf(n);
      model := Leaf(attrIndexSeed, []);
      Repr := {n};
    }

    /**
     * `addToBucket` (KDTree.java:93-126).  Below capacity the point joins
     * the node's bucket and the node itself is returned.  Otherwise the point
     * also joins the bucket, which is then split into a new split node and
     * two new leaves; every node it returns is new.  Either way the returned
     * nodes hold what `KDSpec.AddToBucket` makes of the old leaf.
     */
    method AddToBucket(n: Node<T>, x: T) returns (r: Node<T>, ghost rs: Shape<T>)
      modifies n`bucket, n`leaf
      ensures n.bucket == SortBy(old(n.bucket) + [x], key, n.attrIndex) && n.leaf
      ensures Mirror(rs, KDSpec.AddToBucket(Cfg(), n.attrIndex, old(n.bucket), x))
      ensures r == rs.node && Distinct(rs)
      ensures old(|n.bucket|) < bucketSize ==> rs == SLeaf(n)
      ensures bucketSize <= old(|n.bucket|) ==> fresh(Nodes(rs))
    {
      if n.Size() < bucketSize {
        n.Add(x, key);
        r, rs := n, SLeaf(n);
      } else {
        r, rs := SplitLeaf(n, x);
      }
    }

    /**
     * The overflow branch of `addToBucket` (KDTree.java:98-123): the point
     * joins the bucket, whose first and last points give the threshold of a
     * new split node on the leaf's dimension, and the bucket's points are
     * distributed over two new leaves on the next dimension.
     */
    method SplitLeaf(n: Node<T>, x: T) returns (r: Node<T>, ghost rs: Shape<T>)
      requires bucketSize <= |n.bucket|
      modifies n`bucket, n`leaf
      ensures n.bucket == SortBy(old(n.bucket) + [x], key, n.attrIndex) && n.leaf
      ensures Mirror(rs, KDSpec.AddToBucket(Cfg(), n.attrIndex, old(n.bucket), x))
      ensures r == rs.node && Distinct(rs) && fresh(Nodes(rs))
    {
      ghost var b := n.bucket;
      var d := n.attrIndex;
      var nd := NextDim(d, dims);
      n.Add(x, key);
      // The Java local `bucket` is the node's own list, so it already holds `x`.
      var bucket := n.bucket;
      var lower, upper := bucket[0], bucket[|bucket| - 1];
      var median := key(lower, d) + key(upper, d);
      median := HalfTowardZero(median);
      var split, lo, hi := NewSplitNode(median, d, nd);
      Distribute(bucket, d, median, lo, hi);
      r, rs := split, SSplit(split, SLeaf(lo), SLeaf(hi));
      SplitBucketNodes(Cfg(), d, b, x, bucket, median);
      MirrorSplit(split, lo, hi, KDSpec.AddToBucket(Cfg(), d, b, x));
    }

    /**
     * `new Node(median, attrIndex)` with two new empty leaves on the next
     * dimension as its children (KDTree.java:110-112).
     */
    method NewSplitNode(median: int, d: nat, nd: nat) returns (split: Node<T>, lo: Node<T>, hi: Node<T>)
      ensures fresh(split) && fresh(lo) && fresh(hi) && split != lo && split != hi && lo != hi
      ensures !split.leaf && split.value == median && split.attrIndex == d && split.left == lo && split.right == hi
      ensures lo.leaf && lo.attrIndex == nd && lo.bucket == [] && hi.leaf && hi.attrIndex == nd && hi.bucket == []
    {
      split := new Node<T>.OfValue(median, d);
      lo := new Node<T>.OfKind(true, nd);
      hi := new Node<T>.OfKind(true, nd);
      split.left, split.right := lo, hi;
    }

    /**
     * The loop of `addToBucket` (KDTree.java:114-120): each point of the
     * bucket, in order, is added to the lower leaf when its value on `d` is
     * below the threshold and to the upper leaf otherwise.
     */
    method Distribute(bucket: seq<T>, d: nat, median: int, lo: Node<T>, hi: Node<T>)
      requires lo != hi && lo.attrIndex == hi.attrIndex && lo.bucket == [] && hi.bucket == []
      requires lo.leaf && hi.leaf
      modifies lo`bucket, lo`leaf, hi`bucket, hi`leaf
      ensures lo.leaf && hi.leaf
      ensures lo.bucket == SortBy(Below(bucket, key, d, median), key, lo.attrIndex)
      ensures hi.bucket == SortBy(AtOrAbove(bucket, key, d, median), key, hi.attrIndex)
    {
      var nd := lo.attrIndex;
      ghost var lob: seq<T> := [];
      ghost var hib: seq<T> := [];
      for i := 0 to |bucket|
        invariant lo.leaf && hi.leaf && lo.bucket == lob && hi.bucket == hib
        invariant lob == SortBy(Below(bucket[..i], key, d, median), key, nd)
        invariant hib == SortBy(AtOrAbove(bucket[..i], key, d, median), key, nd)
      {
        var t := bucket[i];
        RouteStep(bucket, i, key, d, median, nd, lob, hib);
        if median > key(t, d) {
          lo.Add(t, key);
          lob := SortBy(lob + [t], key, nd);
        } else {
          hi.Add(t, key);
          hib := SortBy(hib + [t], key, nd);
        }
      }
      assert bucket[..|bucket|] == bucket;
    }

    /**
     * `add` (KDTree.java:63-91): a leaf root takes the point itself;
     * otherwise the loop walks down from the root, left when the point's
     * value is below the node's threshold and right otherwise, and replaces
     * the first leaf child it meets by what `AddToBucket` returns for it.
     * The nodes then hold `Insert` of the old model.
     */
    method Add(x: T)
      requires Valid()
      modifies this, Repr
      ensures Valid() && fresh(Repr - old(Repr))
      ensures model == Insert(Cfg(), old(model), x)
    {
      if root.leaf {
        AddAtLeafRoot(x);
        return;
      }
      var cur := root;
      ghost var p: seq<Side> := [];
      while !cur.leaf
        invariant Valid() && unchanged(this) && unchanged(Repr)
        invariant ValidPath(model, p) && ShapePath(shape, p)
        invariant ShapeAt(shape, p).node == cur && Mirror(ShapeAt(shape, p), SubtreeAt(model, p))
        invariant SubtreeAt(model, p).Split?
        invariant Insert(Cfg(), model, x) == ReplaceAt(model, p, Insert(Cfg(), SubtreeAt(model, p), x))
        decreases Height(SubtreeAt(model, p))
      {
        if key(x, cur.attrIndex) < cur.value {
          if cur.left.leaf {
            ReplaceLeafChild(cur, x, p, Left);
            break;
          } else {
            DescendStep(Cfg(), shape, model, p, Left, x);
            cur, p := cur.left, p + [Left];
          }
        } else {
          if cur.right.leaf {
            ReplaceLeafChild(cur, x, p, Right);
            break;
          } else {
            DescendStep(Cfg(), shape, model, p, Right, x);
            cur, p := cur.right, p + [Right];
          }
        }
      }
    }

    /** The first branch of `add` (KDTree.java:64-67): a leaf root is replaced by what `AddToBucket` returns for it. */
    method AddAtLeafRoot(x: T)
      requires Valid() && root.leaf
      modifies this, Repr
      ensures Valid() && fresh(Repr - old(Repr))
      ensures model == Insert(Cfg(), old(model), x)
    {
      InsertSpec(Cfg(), model, x);
      var r;
      ghost var rs;
      r, rs := AddToBucket(root, x);
      root := r;
      Commit(rs, Insert(Cfg(), old(model), x));
    }

    /**
     * The last step of `add` (KDTree.java:75-77 and 83-85): the leaf child of
     * `cur` on side `s`, the side the point belongs to, is replaced by what
     * `AddToBucket` returns for it.  `cur` is reached from the root by `p`,
     * so the whole tree then holds `Insert` of the old model.
     */
    method ReplaceLeafChild(cur: Node<T>, x: T, ghost p: seq<Side>, s: Side)
      requires Valid()
      requires ValidPath(model, p) && ShapePath(shape, p) && ShapeAt(shape, p).node == cur
      requires Mirror(ShapeAt(shape, p), SubtreeAt(model, p)) && SubtreeAt(model, p).Split?
      requires s == Left <==> key(x, cur.attrIndex) < cur.value
      requires if s == Left then cur.left.leaf else cur.right.leaf
      requires Insert(Cfg(), model, x) == ReplaceAt(model, p, Insert(Cfg(), SubtreeAt(model, p), x))
      modifies this, Repr
      ensures Valid() && fresh(Repr - old(Repr))
      ensures model == Insert(Cfg(), old(model), x)
    {
      ghost var sh, m := shape, model;
      ghost var here := ShapeAt(sh, p);
      ShapeAtNodes(sh, p);
      MirrorGivesAbove(sh, m, p);
      AboveApart(sh, p);
      InsertAtLeafChild(Cfg(), m, p, x, s);
      InsertSpec(Cfg(), m, x);
      ghost var u, ut := GraftLeaf(cur, x, here, SubtreeAt(m, p), s);
      MirrorReplace(sh, m, p, u, ut);
      NodesReplace(sh, p, u);
      Commit(ReplaceShape(sh, p, u), ReplaceAt(m, p, ut));
    }

    /** Records that the nodes from the root are now arranged as `sh` and hold `m`. */
    ghost method Commit(sh: Shape<T>, m: KD<T>)
      requires root == sh.node && Distinct(sh) && Mirror(sh, m) && Wf(Cfg(), m)
      modifies this
      ensures shape == sh && model == m && Repr == Nodes(sh) && Valid()
      ensures unchanged(this`root)
    {
      shape, model, Repr := sh, m, Nodes(sh);
    }

    /**
     * The statements `cur.left = addToBucket(cur.left, x)` and
     * `cur.right = addToBucket(cur.right, x)` of `add` (KDTree.java:76 and 84):
     * the nodes below `cur`, which hold `sub`, then hold `sub` with its leaf
     * child on side `s` replaced by `KDSpec.AddToBucket` of it.
     */
    method GraftLeaf(cur: Node<T>, x: T, ghost here: Shape<T>, ghost sub: KD<T>, s: Side)
        returns (ghost u: Shape<T>, ghost ut: KD<T>)
      requires Mirror(here, sub) && Distinct(here) && here.node == cur && sub.Split?
      requires if s == Left then cur.left.leaf && sub.left.Leaf? else cur.right.leaf && sub.right.Leaf?
      modifies Nodes(here)
      ensures u.node == cur && Mirror(u, ut) && Distinct(u) && fresh(Nodes(u) - Nodes(here))
      ensures ut == if s == Left then Split(sub.dim, sub.value, KDSpec.AddToBucket(Cfg(), sub.left.dim, sub.left.bucket, x), sub.right)
                    else Split(sub.dim, sub.value, sub.left, KDSpec.AddToBucket(Cfg(), sub.right.dim, sub.right.bucket, x))
    {
      assert here.SSplit? && here.l.node == cur.left && here.r.node == cur.right;
      ShapeAllocated(here);
      assert Mirror(here.l, sub.left) && Mirror(here.r, sub.right);
      var r;
      ghost var rs;
      if s == Left {
        r, rs := AddToBucket(cur.left, x);
        assert cur !in Nodes(rs) && Nodes(rs) !! Nodes(here.r);
        cur.left := r;
        u := SSplit(cur, rs, here.r);
        ut := Split(sub.dim, sub.value, KDSpec.AddToBucket(Cfg(), sub.left.dim, sub.left.bucket, x), sub.right);
      } else {
        r, rs := AddToBucket(cur.right, x);
        assert cur !in Nodes(rs) && Nodes(rs) !! Nodes(here.l);
        cur.right := r;
        u := SSplit(cur, here.l, rs);
        ut := Split(sub.dim, sub.value, sub.left, KDSpec.AddToBucket(Cfg(), sub.right.dim, sub.right.bucket, x));
      }
    }
  }
}
