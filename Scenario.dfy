/**
 * The first insertions of the demo driver in VM.java, on the value model:
 * a tree of `DataPoint`s with bucket size 2 whose root starts on dimension 1
 * (salary).
 */
module Scenario {
  import opened Buckets
  import opened KDSpec

  /** A data point with its two declared fields, in declaration order (DataPoint.java:7-8). */
  datatype DataPoint = DataPoint(age: int, salary: int)

  /** The value of the `i`-th declared field: `age` for 0, `salary` otherwise. */
  function Field(p: DataPoint, i: nat): int
  {
    if i == 0 then p.age else p.salary
  }

  function Demo(): Config<DataPoint>
  {
    Config(Field, 2, 2)
  }

  const P1 := DataPoint(25, 60)
  const P2 := DataPoint(50, 120)
  const P3 := DataPoint(25, 400)
  const P4 := DataPoint(45, 60)

  /**
   * The first two points share the root leaf, ordered by salary; the third
   * overflows it into a split on salary at 230, with the two low-salary
   * points on the left ordered by age; the fourth goes left and overflows
   * that leaf into a split on age at 37.
   */
  lemma DemoInsertions()
    ensures var t1 := Insert(Demo(), Leaf(1, []), P1);
            var t2 := Insert(Demo(), t1, P2);
            var t3 := Insert(Demo(), t2, P3);
            var t4 := Insert(Demo(), t3, P4);
            && t2 == Leaf(1, [P1, P2])
            && t3 == Split(1, 230, Leaf(0, [P1, P2]), Leaf(0, [P3]))
            && t4 == Split(1, 230, Split(0, 37, Leaf(1, [P1]), Leaf(1, [P4, P2])), Leaf(0, [P3]))
  {
    DemoRootLeaf();
    DemoFirstSplit(P1, P2, P3);
    DemoSecondSplit(P1, P2, P3, P4);
  }

  /** The root leaf on salary takes the first two points in salary order. */
  lemma DemoRootLeaf()
    ensures Insert(Demo(), Insert(Demo(), Leaf(1, []), P1), P2) == Leaf(1, [P1, P2])
  {
    SortByAppend([], P1, Field, 1);
    SortByAppend([P1], P2, Field, 1);
    InsertSortedAtEnd([P1], P2, Field, 1);
  }

  /** The third point overflows the root leaf, which splits on salary at 230. */
  lemma DemoFirstSplit(a: DataPoint, b: DataPoint, e: DataPoint)
    requires a == P1 && b == P2 && e == P3
    ensures Insert(Demo(), Leaf(1, [a, b]), e) == Split(1, 230, Leaf(0, [a, b]), Leaf(0, [e]))
  {
    var c := Demo();
    SortByAppend([a, b], e, Field, 1);
    SortBySorted([a, b], Field, 1);
    InsertSortedAtEnd([a, b], e, Field, 1);
    var sb := [a, b, e];
    assert SortBy([a, b] + [e], Field, 1) == sb;
    assert Midpoint(sb, Field, 1) == 230;
    assert sb[..2] == [a, b] && [a, b][..1] == [a] && [a][..0] == [];
    assert Below([a], Field, 1, 230) == [a];
    assert Below([a, b], Field, 1, 230) == [a, b];
    assert Below(sb, Field, 1, 230) == [a, b];
    assert AtOrAbove([a], Field, 1, 230) == [];
    assert AtOrAbove([a, b], Field, 1, 230) == [];
    assert AtOrAbove(sb, Field, 1, 230) == [e];
    SortBySorted([a, b], Field, 0);
    SortBySorted([e], Field, 0);
    assert SplitBucket(c, 1, sb) == Split(1, 230, Leaf(0, [a, b]), Leaf(0, [e]));
  }

  /** The fourth point goes left and overflows that leaf, which splits on age at 37. */
  lemma DemoSecondSplit(a: DataPoint, b: DataPoint, e: DataPoint, f: DataPoint)
    requires a == P1 && b == P2 && e == P3 && f == P4
    ensures Insert(Demo(), Split(1, 230, Leaf(0, [a, b]), Leaf(0, [e])), f)
            == Split(1, 230, Split(0, 37, Leaf(1, [a]), Leaf(1, [f, b])), Leaf(0, [e]))
  {
    var c := Demo();
    DemoAgeOrder(a, b, f);
    var sb := [a, f, b];
    assert Midpoint(sb, Field, 0) == 37;
    assert sb[..2] == [a, f] && [a, f][..1] == [a] && [a][..0] == [];
    assert Below([a], Field, 0, 37) == [a];
    assert Below([a, f], Field, 0, 37) == [a];
    assert Below(sb, Field, 0, 37) == [a];
    assert AtOrAbove([a], Field, 0, 37) == [];
    assert AtOrAbove([a, f], Field, 0, 37) == [f];
    assert AtOrAbove(sb, Field, 0, 37) == [f, b];
    SortBySorted([a], Field, 1);
    SortBySorted([f, b], Field, 1);
    assert SplitBucket(c, 0, sb) == Split(0, 37, Leaf(1, [a]), Leaf(1, [f, b]));
  }

  /** Sorting the left leaf with the fourth point by age puts it between the other two. */
  lemma DemoAgeOrder(a: DataPoint, b: DataPoint, f: DataPoint)
    requires a == P1 && b == P2 && f == P4
    ensures SortBy([a, b] + [f], Field, 0) == [a, f, b]
  {
    SortByAppend([a, b], f, Field, 0);
    SortBySorted([a, b], Field, 0);
    assert [a, b][1..] == [b];
    assert InsertSorted([b], f, Field, 0) == [f, b];
  }
}
