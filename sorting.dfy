/** The Sort step. The source hands its working slice, wrapped in the `sortbyfun` adapter
    (stream.go:19-26), to the library's in-place sort; this model sorts through the same
    adapter with an in-place insertion sort, specified by the functional insertion sort
    SortSeq. */
module Sorting {
  import opened Orders

  /** Inserts `x` into `s` scanning from the right end, moving past every element that
      `x` is less than. */
  function Insert<T>(less: (T, T) -> bool, s: seq<T>, x: T): (r: seq<T>)
    ensures |r| == |s| + 1
    decreases |s|
  {
    if s == [] then [x]
    else if less(x, s[|s| - 1]) then Insert(less, s[..|s| - 1], x) + [s[|s| - 1]]
    else s + [x]
  }

  /** Insertion sort: each element in turn is inserted into the sorted prefix. */
  function SortSeq<T>(less: (T, T) -> bool, xs: seq<T>): (r: seq<T>)
    ensures |r| == |xs|
    decreases |xs|
  {
    if xs == [] then [] else Insert(less, SortSeq(less, xs[..|xs| - 1]), xs[|xs| - 1])
  }

  /** No adjacent pair is out of order. */
  ghost predicate NoDescent<T>(less: (T, T) -> bool, b: seq<T>) {
    forall i, j :: 0 <= i && j == i + 1 && j < |b| ==> !less(b[j], b[i])
  }

  /** No pair at all is out of order. */
  ghost predicate Sorted<T>(less: (T, T) -> bool, b: seq<T>) {
    forall i, j :: 0 <= i < j < |b| ==> !less(b[j], b[i])
  }

  lemma {:induction false} InsertPermutes<T>(less: (T, T) -> bool, s: seq<T>, x: T)
    ensures multiset(Insert(less, s, x)) == multiset(s) + multiset{x}
    decreases |s|
  {
    if s != [] && less(x, s[|s| - 1]) {
      InsertPermutes(less, s[..|s| - 1], x);
      assert s == s[..|s| - 1] + [s[|s| - 1]];
    }
  }

  /** Sorting is a permutation: same elements, each as often. */
  lemma {:induction false} SortPermutes<T>(less: (T, T) -> bool, xs: seq<T>)
    ensures multiset(SortSeq(less, xs)) == multiset(xs)
    decreases |xs|
  {
    if xs != [] {
      var init := xs[..|xs| - 1];
      SortPermutes(less, init);
      InsertPermutes(less, SortSeq(less, init), xs[|xs| - 1]);
      assert xs == init + [xs[|xs| - 1]];
    }
  }

  /** The last element after an insertion is the inserted one or the old last one. */
  lemma {:induction false} InsertLast<T>(less: (T, T) -> bool, s: seq<T>, x: T)
    ensures var r := Insert(less, s, x);
      r[|s|] == x || (s != [] && r[|s|] == s[|s| - 1])
  {
  }

  lemma {:induction false} InsertNoDescent<T(!new)>(less: (T, T) -> bool, s: seq<T>, x: T)
    requires Asymmetric(less) && NoDescent(less, s)
    ensures NoDescent(less, Insert(less, s, x))
    decreases |s|
  {
    if s != [] && less(x, s[|s| - 1]) {
      var init := s[..|s| - 1];
      InsertNoDescent(less, init, x);
      InsertLast(less, init, x);
      var r := Insert(less, s, x);
      assert r == Insert(less, init, x) + [s[|s| - 1]];
      forall i, j | 0 <= i && j == i + 1 && j < |r| ensures !less(r[j], r[i]) {
        if j == |s| {
          assert r[i] == x || r[i] == s[|s| - 2];
        } else {
          assert r[i] == Insert(less, init, x)[i] && r[j] == Insert(less, init, x)[j];
        }
      }
    }
  }

  /** For an asymmetric less-than, no adjacent pair of the sorted output satisfies
      less(b[i+1], b[i]). */
  lemma {:induction false} SortNoDescent<T(!new)>(less: (T, T) -> bool, xs: seq<T>)
    requires Asymmetric(less)
    ensures NoDescent(less, SortSeq(less, xs))
    decreases |xs|
  {
    if xs != [] {
      SortNoDescent(less, xs[..|xs| - 1]);
      InsertNoDescent(less, SortSeq(less, xs[..|xs| - 1]), xs[|xs| - 1]);
    }
  }

  lemma {:induction false} NoDescentSorted<T(!new)>(less: (T, T) -> bool, b: seq<T>)
    requires NegativelyTransitive(less) && NoDescent(less, b)
    ensures Sorted(less, b)
    decreases |b|
  {
    if |b| > 1 {
      var init := b[..|b| - 1];
      NoDescentSorted(less, init);
      forall i | 0 <= i < |b| - 1 ensures !less(b[|b| - 1], b[i]) {
        var k := |b| - 2;
        while k > i
          invariant i <= k <= |b| - 2
          invariant !less(b[|b| - 1], b[k])
        {
          assert !less(b[k], b[k - 1]);
          k := k - 1;
        }
      }
    }
  }

  /** For a strict weak order the sorted output is in order everywhere, not only between
      neighbours. */
  lemma SortSorted<T(!new)>(less: (T, T) -> bool, xs: seq<T>)
    requires StrictWeakOrder(less)
    ensures Sorted(less, SortSeq(less, xs))
  {
    SortNoDescent(less, xs);
    NoDescentSorted(less, SortSeq(less, xs));
  }

  /** The `sortbyfun` adapter: a window data[lo..hi] of an array (the Go slice) and the
      caller's less-than, offering the length, less and swap queries the sort needs. */
  class SortByFun<T> {
    const data: array<T>
    const lo: nat
    const hi: nat
    const less: (T, T) -> bool

    ghost predicate Valid() {
      lo <= hi <= data.Length
    }

    constructor (data: array<T>, lo: nat, hi: nat, less: (T, T) -> bool)
      requires lo <= hi <= data.Length
      ensures Valid()
      ensures this.data == data && this.lo == lo && this.hi == hi && this.less == less
    {
      this.data, this.lo, this.hi, this.less := data, lo, hi, less;
    }

    /** The Go slice the adapter wraps. */
    ghost function Window(): seq<T>
      requires Valid()
      reads data
    {
      data[lo..hi]
    }

    function Len(): (n: nat)
      requires Valid()
      ensures n == |Window()|
    {
      hi - lo
    }

    /** One call of the wrapped callable on the i-th and j-th elements of the window. */
    predicate Less(i: nat, j: nat)
      requires Valid() && i < Len() && j < Len()
      reads data
      ensures Less(i, j) == less(Window()[i], Window()[j])
    {
      less(data[lo + i], data[lo + j])
    }

    method Swap(i: nat, j: nat)
      requires Valid() && i < Len() && j < Len()
      modifies data
      ensures Window() == old(Window())[i := old(Window()[j])][j := old(Window()[i])]
      ensures data[..lo] == old(data[..lo]) && data[hi..] == old(data[hi..])
    {
      data[lo + i], data[lo + j] := data[lo + j], data[lo + i];
    }
  }

  /** The window during one insertion pass: the sorted prefix with `x` at position j. */
  ghost function Layout<T>(sorted: seq<T>, x: T, rest: seq<T>, j: nat): seq<T>
    requires j <= |sorted|
  {
    sorted[..j] + [x] + sorted[j..] + rest
  }

  /** Swapping `x` with its left neighbour moves it one place to the left. */
  lemma SwapLeft<T>(sorted: seq<T>, x: T, rest: seq<T>, j: nat)
    requires 0 < j <= |sorted|
    ensures var w := Layout(sorted, x, rest, j);
      w[j] == x && w[j - 1] == sorted[j - 1] &&
      w[j - 1 := x][j := sorted[j - 1]] == Layout(sorted, x, rest, j - 1)
  {
    var w := Layout(sorted, x, rest, j);
    var v := Layout(sorted, x, rest, j - 1);
    assert sorted[j - 1..] == [sorted[j - 1]] + sorted[j..];
    assert |w| == |v|;
    forall k | 0 <= k < |w| ensures w[j - 1 := x][j := sorted[j - 1]][k] == v[k] {
      if k < j - 1 {
        assert w[k] == sorted[k] && v[k] == sorted[k];
      } else if k > j {
        assert w[k] == v[k];
      }
    }
  }

  /** Moving past an element that `x` is less than is what Insert does next. */
  lemma {:induction false} InsertStepsLeft<T>(less: (T, T) -> bool, sorted: seq<T>, x: T, j: nat)
    requires 0 < j <= |sorted| && less(x, sorted[j - 1])
    requires Insert(less, sorted, x) == Insert(less, sorted[..j], x) + sorted[j..]
    ensures Insert(less, sorted, x) == Insert(less, sorted[..j - 1], x) + sorted[j - 1..]
  {
    assert sorted[..j][..j - 1] == sorted[..j - 1];
    assert sorted[j - 1..] == [sorted[j - 1]] + sorted[j..];
  }

  /** Where the pass stops, the window holds the insertion of `x` into the prefix. */
  lemma {:induction false} InsertStops<T>(less: (T, T) -> bool, sorted: seq<T>, x: T, rest: seq<T>, j: nat)
    requires j <= |sorted| && (j == 0 || !less(x, sorted[j - 1]))
    requires Insert(less, sorted, x) == Insert(less, sorted[..j], x) + sorted[j..]
    ensures Layout(sorted, x, rest, j) == Insert(less, sorted, x) + rest
  {
    if j == 0 {
      assert sorted[..j] == [];
    }
  }

  /** One pass of the insertion sort: the i-th element of the window is swapped leftwards
      past every element it is less than, into the sorted prefix before it. */
  method InsertAt<T>(s: SortByFun<T>, i: nat)
    requires s.Valid() && i < s.Len()
    modifies s.data
    ensures s.Window() == Insert(s.less, old(s.Window()[..i]), old(s.Window()[i])) + old(s.Window()[i + 1..])
    ensures s.data[..s.lo] == old(s.data[..s.lo]) && s.data[s.hi..] == old(s.data[s.hi..])
  {
    ghost var sorted, x, rest := s.Window()[..i], s.Window()[i], s.Window()[i + 1..];
    var j := i;
    assert sorted[..j] == sorted && sorted[j..] == [];
    assert s.Window() == Layout(sorted, x, rest, j);
    while j > 0 && s.Less(j, j - 1)
      invariant 0 <= j <= i
      invariant s.Window() == Layout(sorted, x, rest, j)
      invariant Insert(s.less, sorted, x) == Insert(s.less, sorted[..j], x) + sorted[j..]
      invariant s.data[..s.lo] == old(s.data[..s.lo]) && s.data[s.hi..] == old(s.data[s.hi..])
    {
      SwapLeft(sorted, x, rest, j);
      assert s.less(x, sorted[j - 1]);
      InsertStepsLeft(s.less, sorted, x, j);
      s.Swap(j - 1, j);
      j := j - 1;
    }
    if j > 0 {
      SwapLeft(sorted, x, rest, j);
      assert !s.less(x, sorted[j - 1]);
    }
    InsertStops(s.less, sorted, x, rest, j);
  }

  /** Sorting one more element of the input is inserting it into the sorted prefix. */
  lemma SortPrefixStep<T>(less: (T, T) -> bool, orig: seq<T>, i: nat)
    requires i < |orig|
    ensures SortSeq(less, orig[..i + 1]) == Insert(less, SortSeq(less, orig[..i]), orig[i])
  {
    assert orig[..i + 1][..i] == orig[..i];
  }

  /** An array seen as its part before the window, the window and its part after. */
  lemma ArrayAround<T>(a: seq<T>, lo: nat, hi: nat, pre: seq<T>, w: seq<T>, post: seq<T>)
    requires lo <= hi <= |a|
    requires a[..lo] == pre && a[lo..hi] == w && a[hi..] == post
    ensures a == pre + w + post
  {
    assert a == a[..lo] + a[lo..hi] + a[hi..];
  }

  lemma PartsOf<T>(w: seq<T>, sorted: seq<T>, orig: seq<T>, i: nat)
    requires i < |orig| && |sorted| == i && w == sorted + orig[i..]
    ensures w[..i] == sorted && w[i] == orig[i] && w[i + 1..] == orig[i + 1..]
  {
  }

  /** Sorts the adapter's window in place; the rest of the array is untouched. */
  method InsertionSort<T>(s: SortByFun<T>)
    requires s.Valid()
    modifies s.data
    ensures s.Window() == SortSeq(s.less, old(s.Window()))
    ensures s.data[..s.lo] == old(s.data[..s.lo]) && s.data[s.hi..] == old(s.data[s.hi..])
  {
    ghost var pre, orig, post := s.data[..s.lo], s.Window(), s.data[s.hi..];
    var n := s.Len();
    var i := 0;
    assert orig[..0] == [];
    while i < n
      invariant 0 <= i <= n
      invariant s.Window() == SortSeq(s.less, orig[..i]) + orig[i..]
      invariant s.data[..s.lo] == pre && s.data[s.hi..] == post
    {
      ghost var sorted := SortSeq(s.less, orig[..i]);
      PartsOf(s.Window(), sorted, orig, i);
      InsertAt(s, i);
      SortPrefixStep(s.less, orig, i);
      i := i + 1;
    }
    assert orig[..n] == orig && orig[n..] == [];
  }

  /** Sorts the window a[lo..hi] in place through the adapter, as Collect's Sort step does
      (stream.go:149-150), leaving the rest of the array alone. */
  method SortWindow<T>(a: array<T>, lo: nat, hi: nat, less: (T, T) -> bool)
    requires lo <= hi <= a.Length
    modifies a
    ensures a[..] == old(a[..lo]) + SortSeq(less, old(a[lo..hi])) + old(a[hi..])
    ensures a[lo..hi] == SortSeq(less, old(a[lo..hi]))
  {
    var s := new SortByFun(a, lo, hi, less);
    InsertionSort(s);
    ArrayAround(a[..], lo, hi, old(a[..lo]), SortSeq(less, old(a[lo..hi])), old(a[hi..]));
  }
}
