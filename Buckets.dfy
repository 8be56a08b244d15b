/**
 * Leaf buckets of the KD-tree as values.
 *
 * A leaf keeps its points in a list that `Node.add` re-sorts, with a stable
 * sort keyed on one dimension, after every insertion (KDTree.java:37-42); an
 * overflowing leaf is split by routing every point to one of two new leaves
 * by comparing it with the midpoint of the bucket's value range
 * (KDTree.java:104-120).  This module holds those pieces as functions on
 * sequences, together with the facts the tree proofs need about them.
 */
module Buckets {

  /**
   * The attribute accessor: `key(p, i)` is the value of dimension `i` of
   * point `p`.  It stands for the reflective `getAttributeValue`
   * (KDTree.java:59-61), which reads the `i`-th declared field of the point.
   */
  type Accessor<!T> = (T, nat) -> int

  /** `s` is in ascending order of dimension `d`. */
  ghost predicate SortedBy<T>(s: seq<T>, key: Accessor<T>, d: nat)
  {
    forall i, j :: 0 <= i < j < |s| ==> key(s[i], d) <= key(s[j], d)
  }

  /**
   * Inserts `x` into `s` just before the first element whose key on `d` is
   * larger than that of `x`, so that `x` follows every element with an equal
   * key.  This is what a stable sort does to a sorted list with `x` appended.
   */
  function InsertSorted<T>(s: seq<T>, x: T, key: Accessor<T>, d: nat): (r: seq<T>)
    ensures |r| == |s| + 1
  {
    if s == [] then [x]
    else if key(x, d) < key(s[0], d) then [x] + s
    else [s[0]] + InsertSorted(s[1..], x, key, d)
  }

  /** Insertion adds exactly `x` to the points of `s`. */
  lemma {:induction false} InsertSortedMultiset<T>(s: seq<T>, x: T, key: Accessor<T>, d: nat)
    ensures multiset(InsertSorted(s, x, key, d)) == multiset(s) + multiset{x}
  {
    if s != [] && key(s[0], d) <= key(x, d) {
      InsertSortedMultiset(s[1..], x, key, d);
      assert s == [s[0]] + s[1..];
    }
  }

  /** A lower bound of `x` and of every point of `s` bounds the result of insertion too. */
  lemma {:induction false} InsertSortedBounded<T>(s: seq<T>, x: T, key: Accessor<T>, d: nat, lb: int)
    requires forall i :: 0 <= i < |s| ==> lb <= key(s[i], d)
    requires lb <= key(x, d)
    ensures forall j :: 0 <= j < |s| + 1 ==> lb <= key(InsertSorted(s, x, key, d)[j], d)
  {
    if s != [] && key(s[0], d) <= key(x, d) {
      InsertSortedBounded(s[1..], x, key, d, lb);
    }
  }

  /** Insertion keeps a sorted sequence sorted. */
  lemma {:induction false} InsertSortedSorted<T>(s: seq<T>, x: T, key: Accessor<T>, d: nat)
    requires SortedBy(s, key, d)
    ensures SortedBy(InsertSorted(s, x, key, d), key, d)
  {
    if s != [] && key(s[0], d) <= key(x, d) {
      var tail := s[1..];
      assert SortedBy(tail, key, d);
      InsertSortedSorted(tail, x, key, d);
      InsertSortedBounded(tail, x, key, d, key(s[0], d));
    } else if s != [] {
      assert forall j :: 0 < j < |s| + 1 ==> key(x, d) < key(([x] + s)[j], d);
    }
  }

  /**
   * The stable sort of `s` by dimension `d`, as insertion sort: each element,
   * from the first to the last, is inserted after the elements already placed
   * that have a key lower than or equal to its own.
   */
  function SortBy<T>(s: seq<T>, key: Accessor<T>, d: nat): (r: seq<T>)
    ensures |r| == |s|
    decreases |s|
  {
    if s == [] then []
    else InsertSorted(SortBy(s[..|s| - 1], key, d), s[|s| - 1], key, d)
  }

  /** The result of sorting is in ascending order. */
  lemma {:induction false} SortByIsSorted<T>(s: seq<T>, key: Accessor<T>, d: nat)
    ensures SortedBy(SortBy(s, key, d), key, d)
    decreases |s|
  {
    if s != [] {
      SortByIsSorted(s[..|s| - 1], key, d);
      InsertSortedSorted(SortBy(s[..|s| - 1], key, d), s[|s| - 1], key, d);
    }
  }

  /** Sorting neither loses nor adds points. */
  lemma {:induction false} SortByMultiset<T>(s: seq<T>, key: Accessor<T>, d: nat)
    ensures multiset(SortBy(s, key, d)) == multiset(s)
    decreases |s|
  {
    if s != [] {
      var init := s[..|s| - 1];
      SortByMultiset(init, key, d);
      InsertSortedMultiset(SortBy(init, key, d), s[|s| - 1], key, d);
      assert s == init + [s[|s| - 1]];
    }
  }

  /** Appending one point and sorting is inserting it into the sorted prefix. */
  lemma SortByAppend<T>(s: seq<T>, x: T, key: Accessor<T>, d: nat)
    ensures SortBy(s + [x], key, d) == InsertSorted(SortBy(s, key, d), x, key, d)
  {
    assert (s + [x])[..|s|] == s;
  }

  /** Inserting a point that is at least as large as everything goes last. */
  lemma {:induction false} InsertSortedAtEnd<T>(s: seq<T>, x: T, key: Accessor<T>, d: nat)
    requires forall i :: 0 <= i < |s| ==> key(s[i], d) <= key(x, d)
    ensures InsertSorted(s, x, key, d) == s + [x]
  {
    if s != [] {
      InsertSortedAtEnd(s[1..], x, key, d);
      assert [s[0]] + (s[1..] + [x]) == s + [x];
    }
  }

  /** Sorting a sorted sequence leaves it as it is. */
  lemma {:induction false} SortBySorted<T>(s: seq<T>, key: Accessor<T>, d: nat)
    requires SortedBy(s, key, d)
    ensures SortBy(s, key, d) == s
    decreases |s|
  {
    if s != [] {
      var init, last := s[..|s| - 1], s[|s| - 1];
      assert SortedBy(init, key, d);
      SortBySorted(init, key, d);
      InsertSortedAtEnd(init, last, key, d);
      assert init + [last] == s;
    }
  }

  /** Sorting an already sorted prefix again before appending changes nothing. */
  lemma SortByResort<T>(s: seq<T>, x: T, key: Accessor<T>, d: nat)
    ensures SortBy(SortBy(s, key, d) + [x], key, d) == SortBy(s + [x], key, d)
  {
    SortByAppend(SortBy(s, key, d), x, key, d);
    SortByIsSorted(s, key, d);
    SortBySorted(SortBy(s, key, d), key, d);
    SortByAppend(s, x, key, d);
  }

  /** How many leading elements of `s` have a key on `d` no larger than that of `x`. */
  function Rank<T>(s: seq<T>, x: T, key: Accessor<T>, d: nat): (k: nat)
    ensures k <= |s|
    ensures forall i :: 0 <= i < k ==> key(s[i], d) <= key(x, d)
  {
    if s == [] || key(x, d) < key(s[0], d) then 0 else 1 + Rank(s[1..], x, key, d)
  }

  /** Insertion puts `x` at position `Rank`. */
  lemma {:induction false} InsertSortedAtRank<T>(s: seq<T>, x: T, key: Accessor<T>, d: nat)
    ensures var k := Rank(s, x, key, d); InsertSorted(s, x, key, d) == s[..k] + [x] + s[k..]
  {
    if s != [] && key(s[0], d) <= key(x, d) {
      var tail := s[1..];
      var k := Rank(tail, x, key, d);
      InsertSortedAtRank(tail, x, key, d);
      calc {
        InsertSorted(s, x, key, d);
        [s[0]] + InsertSorted(tail, x, key, d);
        [s[0]] + (tail[..k] + [x] + tail[k..]);
        ([s[0]] + tail[..k]) + [x] + tail[k..];
        { assert s[..k + 1] == [s[0]] + tail[..k]; assert s[k + 1..] == tail[k..]; }
        s[..k + 1] + [x] + s[k + 1..];
      }
    } else {
      assert s[..0] + [x] + s[0..] == [x] + s;
    }
  }

  /** In a sorted sequence every element from position `Rank` on has a larger key than `x`. */
  lemma {:induction false} RankSeparates<T>(s: seq<T>, x: T, key: Accessor<T>, d: nat)
    requires SortedBy(s, key, d)
    ensures forall i :: Rank(s, x, key, d) <= i < |s| ==> key(x, d) < key(s[i], d)
  {
    if s != [] && key(s[0], d) <= key(x, d) {
      assert SortedBy(s[1..], key, d);
      RankSeparates(s[1..], x, key, d);
    }
  }

  /**
   * `Node.add` on a sorted bucket: the new bucket is the old one with `x`
   * placed after all points whose key on `d` is lower or equal and before
   * all points whose key is larger (KDTree.java:37-42).
   */
  lemma AddToSortedBucket<T>(b: seq<T>, x: T, key: Accessor<T>, d: nat)
    requires SortedBy(b, key, d)
    ensures exists k :: 0 <= k <= |b| && SortBy(b + [x], key, d) == b[..k] + [x] + b[k..]
                        && (forall i :: 0 <= i < k ==> key(b[i], d) <= key(x, d))
                        && (forall i :: k <= i < |b| ==> key(x, d) < key(b[i], d))
  {
    SortByAppend(b, x, key, d);
    SortBySorted(b, key, d);
    InsertSortedAtRank(b, x, key, d);
    RankSeparates(b, x, key, d);
    var k := Rank(b, x, key, d);
    assert SortBy(b + [x], key, d) == b[..k] + [x] + b[k..];
  }

  /** Sequences with the same multiset have the same members. */
  lemma SameMembers<T>(a: seq<T>, b: seq<T>)
    requires multiset(a) == multiset(b)
    ensures forall t :: t in a ==> t in b
    ensures forall t :: t in b ==> t in a
  {
    forall t ensures t in a <==> t in b {
      assert t in a <==> t in multiset(a);
      assert t in b <==> t in multiset(b);
    }
  }

  /** The points of `s` whose value on `d` is below `m`, in the order of `s`. */
  function Below<T>(s: seq<T>, key: Accessor<T>, d: nat, m: int): seq<T>
    decreases |s|
  {
    if s == [] then []
    else
      var last := s[|s| - 1];
      Below(s[..|s| - 1], key, d, m) + (if key(last, d) < m then [last] else [])
  }

  /** `Below` keeps exactly the points of `s` whose value lies below `m`. */
  lemma {:induction false} BelowMembers<T>(s: seq<T>, key: Accessor<T>, d: nat, m: int)
    ensures forall t :: t in Below(s, key, d, m) ==> t in s && key(t, d) < m
    ensures forall t :: t in s && key(t, d) < m ==> t in Below(s, key, d, m)
    decreases |s|
  {
    if s != [] {
      BelowMembers(s[..|s| - 1], key, d, m);
      assert s == s[..|s| - 1] + [s[|s| - 1]];
    }
  }

  /** The points of `s` whose value on `d` is at least `m`, in the order of `s`. */
  function AtOrAbove<T>(s: seq<T>, key: Accessor<T>, d: nat, m: int): seq<T>
    decreases |s|
  {
    if s == [] then []
    else
      var last := s[|s| - 1];
      AtOrAbove(s[..|s| - 1], key, d, m) + (if key(last, d) < m then [] else [last])
  }

  /** `AtOrAbove` keeps exactly the points of `s` whose value is at least `m`. */
  lemma {:induction false} AboveMembers<T>(s: seq<T>, key: Accessor<T>, d: nat, m: int)
    ensures forall t :: t in AtOrAbove(s, key, d, m) ==> t in s && m <= key(t, d)
    ensures forall t :: t in s && m <= key(t, d) ==> t in AtOrAbove(s, key, d, m)
    decreases |s|
  {
    if s != [] {
      AboveMembers(s[..|s| - 1], key, d, m);
      assert s == s[..|s| - 1] + [s[|s| - 1]];
    }
  }

  /** Taking one more point of `s` extends the lower side by it if it lies below `m`. */
  lemma BelowSnoc<T>(s: seq<T>, i: nat, key: Accessor<T>, d: nat, m: int)
    requires i < |s|
    ensures Below(s[..i + 1], key, d, m) == Below(s[..i], key, d, m) + (if key(s[i], d) < m then [s[i]] else [])
  {
    assert s[..i + 1][..i] == s[..i];
  }

  /** Taking one more point of `s` extends the upper side by it if it lies at or above `m`. */
  lemma AboveSnoc<T>(s: seq<T>, i: nat, key: Accessor<T>, d: nat, m: int)
    requires i < |s|
    ensures AtOrAbove(s[..i + 1], key, d, m) == AtOrAbove(s[..i], key, d, m) + (if key(s[i], d) < m then [] else [s[i]])
  {
    assert s[..i + 1][..i] == s[..i];
  }

  /**
   * One step of routing the points of `s` in order to a leaf that sorts on
   * `nd`: a point below `m` is added to the sorted lower side, any other
   * point leaves it as it is.
   */
  lemma BelowStep<T>(s: seq<T>, i: nat, key: Accessor<T>, d: nat, m: int, nd: nat)
    requires i < |s|
    ensures key(s[i], d) < m ==>
              SortBy(Below(s[..i + 1], key, d, m), key, nd)
              == SortBy(SortBy(Below(s[..i], key, d, m), key, nd) + [s[i]], key, nd)
    ensures m <= key(s[i], d) ==> Below(s[..i + 1], key, d, m) == Below(s[..i], key, d, m)
  {
    BelowSnoc(s, i, key, d, m);
    if key(s[i], d) < m {
      SortByResort(Below(s[..i], key, d, m), s[i], key, nd);
    } else {
      assert Below(s[..i], key, d, m) + [] == Below(s[..i], key, d, m);
    }
  }

  /** The counterpart of `BelowStep` for the upper side. */
  lemma AboveStep<T>(s: seq<T>, i: nat, key: Accessor<T>, d: nat, m: int, nd: nat)
    requires i < |s|
    ensures m <= key(s[i], d) ==>
              SortBy(AtOrAbove(s[..i + 1], key, d, m), key, nd)
              == SortBy(SortBy(AtOrAbove(s[..i], key, d, m), key, nd) + [s[i]], key, nd)
    ensures key(s[i], d) < m ==> AtOrAbove(s[..i + 1], key, d, m) == AtOrAbove(s[..i], key, d, m)
  {
    AboveSnoc(s, i, key, d, m);
    if m <= key(s[i], d) {
      SortByResort(AtOrAbove(s[..i], key, d, m), s[i], key, nd);
    } else {
      assert AtOrAbove(s[..i], key, d, m) + [] == AtOrAbove(s[..i], key, d, m);
    }
  }

  /**
   * One step of routing the points of `s` in order to two leaves that sort
   * on `nd`, holding `lob` and `hib` after the first `i` points: the next
   * point joins the lower leaf if it lies below `m` and the upper one otherwise.
   */
  lemma RouteStep<T>(s: seq<T>, i: nat, key: Accessor<T>, d: nat, m: int, nd: nat, lob: seq<T>, hib: seq<T>)
    requires i < |s|
    requires lob == SortBy(Below(s[..i], key, d, m), key, nd)
    requires hib == SortBy(AtOrAbove(s[..i], key, d, m), key, nd)
    ensures key(s[i], d) < m ==> SortBy(lob + [s[i]], key, nd) == SortBy(Below(s[..i + 1], key, d, m), key, nd)
    ensures key(s[i], d) < m ==> hib == SortBy(AtOrAbove(s[..i + 1], key, d, m), key, nd)
    ensures m <= key(s[i], d) ==> lob == SortBy(Below(s[..i + 1], key, d, m), key, nd)
    ensures m <= key(s[i], d) ==> SortBy(hib + [s[i]], key, nd) == SortBy(AtOrAbove(s[..i + 1], key, d, m), key, nd)
  {
    BelowStep(s, i, key, d, m, nd);
    AboveStep(s, i, key, d, m, nd);
  }

  /** The two sides of a split together hold exactly the points of `s`. */
  lemma {:induction false} PartitionMultiset<T>(s: seq<T>, key: Accessor<T>, d: nat, m: int)
    ensures multiset(Below(s, key, d, m)) + multiset(AtOrAbove(s, key, d, m)) == multiset(s)
    decreases |s|
  {
    if s != [] {
      PartitionMultiset(s[..|s| - 1], key, d, m);
      assert s == s[..|s| - 1] + [s[|s| - 1]];
    }
  }

  /**
   * Java's `a / 2` on `int`: division truncating toward zero, which for a
   * negative odd `a` rounds up where Dafny's `/` rounds down.
   */
  function HalfTowardZero(a: int): (r: int)
    ensures 0 <= a ==> 0 <= a - 2 * r <= 1
    ensures a < 0 ==> 0 <= 2 * r - a <= 1
  {
    if 0 <= a then a / 2 else -((-a) / 2)
  }

  /**
   * The split threshold of an overflowing bucket: the value midpoint of its
   * first and last points, `(lo + hi) / 2` with truncating division
   * (KDTree.java:104-108).  For a sorted bucket it lies between the smallest
   * and the largest value.
   */
  function Midpoint<T>(s: seq<T>, key: Accessor<T>, d: nat): int
    requires |s| > 0
  {
    HalfTowardZero(key(s[0], d) + key(s[|s| - 1], d))
  }

  /** For a sorted bucket the midpoint lies between the smallest and the largest value. */
  lemma MidpointBetween<T>(s: seq<T>, key: Accessor<T>, d: nat)
    requires |s| > 0 && SortedBy(s, key, d)
    ensures forall i :: 0 <= i < |s| ==> key(s[i], d) <= key(s[|s| - 1], d)
    ensures key(s[0], d) <= Midpoint(s, key, d) <= key(s[|s| - 1], d)
  {
  }
}
