/** Concrete evaluations of whole pipelines over integers, as Collect computes them. */
module Scenarios {
  import opened Wrappers
  import opened Steps
  import opened Sorting
  import opened Dedup
  import opened Engine
  import opened Terminals
  import opened Pipeline

  /** Filter(x > 2) then Map(x * 2) over [5, 3, 8, 1]. */
  lemma FilterThenMap()
    ensures ApplyOps([Op.Filter(x => x > 2), Op.Map(x => x * 2)], [5, 3, 8, 1]) == [10, 6, 16]
  {
    var ops: seq<Op<int>> := [Op.Filter(x => x > 2), Op.Map(x => x * 2)];
    var xs := [5, 3, 8, 1];
    assert FilterSeq(x => x > 2, xs) == [5, 3, 8];
  }

  /** Distinct(==) over [1, 2, 2, 3, 3, 3]. */
  lemma DistinctOfRuns()
    ensures ApplyOps([Op.Distinct((a, b) => a == b)], [1, 2, 2, 3, 3, 3]) == [1, 2, 3]
  {
    var eq: (int, int) -> bool := (a, b) => a == b;
    var xs := [1, 2, 2, 3, 3, 3];
    assert Kept(eq, xs, 1) == [1] by {
      assert Seen(eq, 1, [1]) by { assert eq(1, [1][0]); }
    }
    assert Kept(eq, xs, 2) == [1, 2];
    assert Kept(eq, xs, 3) == [1, 2] by {
      assert eq(2, [1, 2][1]);
    }
    assert Kept(eq, xs, 4) == [1, 2, 3];
    assert Kept(eq, xs, 5) == [1, 2, 3] by {
      assert eq(3, [1, 2, 3][2]);
    }
    assert Kept(eq, xs, 6) == [1, 2, 3] by {
      assert eq(3, [1, 2, 3][2]);
    }
  }

  /** Skip(2) then Limit(2) over [1, 2, 3, 4, 5]. */
  lemma SkipThenLimitWindow()
    ensures ApplyOps([Op.Skip(2), Op.Limit(2)], [1, 2, 3, 4, 5]) == [3, 4]
  {
  }

  predicate IntLess(a: int, b: int) {
    a < b
  }

  /** Sort(<) over [3, 1, 2]. */
  lemma SortThree()
    ensures SortSeq(IntLess, [3, 1, 2]) == [1, 2, 3]
    ensures ApplyOps([Op.Sort(IntLess)], [3, 1, 2]) == [1, 2, 3]
  {
    var less := IntLess;
    var xs := [3, 1, 2];
    assert SortSeq(less, xs[..1]) == [3];
    assert SortSeq(less, xs[..2]) == [1, 3] by {
      assert Insert(less, [3], 1) == Insert(less, [], 1) + [3];
    }
    assert SortSeq(less, xs) == [1, 2, 3] by {
      assert xs[..2] == [3, 1];
      assert Insert(less, [1, 3], 2) == Insert(less, [1], 2) + [3];
    }
  }

  /** On an empty source Max finds nothing and Count is zero. */
  method EmptySource() returns (max: Option<int>, count: nat)
    ensures max == None && count == 0
  {
    var s := new Stream<int>([]);
    max := s.Max((a, b) => a < b);
    count := s.Count();
  }

  /** A Sort that comes before any Filter, Map or Distinct reorders the stored data too,
      so a second Collect after Reset sees the sorted order. */
  method SortReordersStore() returns (first: seq<int>, stored: seq<int>, again: seq<int>)
    ensures first == [1, 2, 3] && stored == [1, 2, 3] && again == [1, 2, 3]
  {
    var s := new Stream([3, 1, 2]);
    var t := s.Sort(IntLess);
    SortThree();
    assert s.ops[1..] == [];
    ghost var xs := [3, 1, 2];
    assert s.data[..] == xs && s.ops == [Op.Sort(IntLess)] && s.data.Length == 3;
    assert StoreAfter(s.ops, xs, 0, 3) == [1, 2, 3] by {
      assert xs[0..3] == xs && xs[..0] == [] && xs[3..] == [];
    }
    first := s.Collect();
    stored := s.data[..];
    t := s.Reset();
    again := s.Collect();
  }
}
