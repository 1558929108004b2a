/** The element-wise and slicing steps of the evaluation engine: Filter, Map, Limit and
    Skip (Peek is the identity on the working sequence). Each step has a pure
    specification function; Filter and Map also have the loop that the engine runs
    through `each` (stream.go:324-331). */
module Steps {

  /** The elements of `xs` that satisfy `p`, in their original order. */
  function FilterSeq<T>(p: T -> bool, xs: seq<T>): (r: seq<T>)
    ensures |r| <= |xs|
    ensures forall i :: 0 <= i < |r| ==> p(r[i])
  {
    if xs == [] then []
    else (if p(xs[0]) then [xs[0]] else []) + FilterSeq(p, xs[1..])
  }

  /** Filtering distributes over concatenation, so the relative order of the kept
      elements is the order of the input. */
  lemma {:induction false} FilterAppend<T>(p: T -> bool, a: seq<T>, b: seq<T>)
    ensures FilterSeq(p, a + b) == FilterSeq(p, a) + FilterSeq(p, b)
  {
    if a == [] {
      assert a + b == b;
    } else {
      assert (a + b)[1..] == a[1..] + b;
      FilterAppend(p, a[1..], b);
    }
  }

  /** Filter keeps exactly the elements that satisfy the predicate, each as many times as
      it occurs in the input. */
  lemma {:induction false} FilterCounts<T>(p: T -> bool, xs: seq<T>)
    ensures forall x :: multiset(FilterSeq(p, xs))[x] == if p(x) then multiset(xs)[x] else 0
  {
    if xs != [] {
      FilterCounts(p, xs[1..]);
      assert xs == [xs[0]] + xs[1..];
      assert multiset(xs) == multiset{xs[0]} + multiset(xs[1..]);
    }
  }

  /** A predicate that holds of every element keeps the sequence unchanged. */
  lemma {:induction false} FilterAllTrue<T>(p: T -> bool, xs: seq<T>)
    requires forall i :: 0 <= i < |xs| ==> p(xs[i])
    ensures FilterSeq(p, xs) == xs
  {
    if xs != [] {
      FilterAllTrue(p, xs[1..]);
    }
  }

  /** The filter loop of Collect (stream.go:130-138): `each` calls the predicate on every
      element in order and appends the ones for which it returns true. */
  method FilterEach<T>(p: T -> bool, xs: seq<T>) returns (r: seq<T>)
    ensures r == FilterSeq(p, xs)
  {
    r := [];
    for i := 0 to |xs|
      invariant r == FilterSeq(p, xs[..i])
    {
      assert xs[..i + 1] == xs[..i] + [xs[i]];
      FilterAppend(p, xs[..i], [xs[i]]);
      if p(xs[i]) {
        r := r + [xs[i]];
      }
    }
    assert xs[..|xs|] == xs;
  }

  /** The results of `f` on each element, in order. */
  function MapSeq<T>(f: T -> T, xs: seq<T>): (r: seq<T>)
    ensures |r| == |xs|
    ensures forall i :: 0 <= i < |xs| ==> r[i] == f(xs[i])
  {
    if xs == [] then [] else [f(xs[0])] + MapSeq(f, xs[1..])
  }

  /** The map loop of Collect (stream.go:141-148). */
  method MapEach<T>(f: T -> T, xs: seq<T>) returns (r: seq<T>)
    ensures r == MapSeq(f, xs)
  {
    r := [];
    for i := 0 to |xs|
      invariant |r| == i
      invariant forall j :: 0 <= j < i ==> r[j] == f(xs[j])
    {
      r := r + [f(xs[i])];
    }
  }

  /** Limit(n): the first n elements, or all of them when there are fewer
      (stream.go:167-173). */
  function LimitSeq<T>(n: nat, xs: seq<T>): (r: seq<T>)
    ensures r <= xs
    ensures |r| == if n > |xs| then |xs| else n
  {
    var limit := if n > |xs| then |xs| else n;
    xs[..limit]
  }

  /** Skip(n): everything after the first n elements, or nothing when there are fewer
      (stream.go:174-180). */
  function SkipSeq<T>(n: nat, xs: seq<T>): (r: seq<T>)
    ensures |r| == if n > |xs| then 0 else |xs| - n
    ensures forall i :: 0 <= i < |r| ==> r[i] == xs[|xs| - |r| + i]
  {
    var skip := if n > |xs| then |xs| else n;
    xs[skip..]
  }

  /** Limit and Skip with the same count split the sequence with no gap and no overlap. */
  lemma LimitSkipSplit<T>(n: nat, xs: seq<T>)
    ensures LimitSeq(n, xs) + SkipSeq(n, xs) == xs
  {
  }

  /** Skip(k) followed by Limit(|xs| - k) gives exactly the tail from k. */
  lemma SkipThenLimit<T>(k: nat, xs: seq<T>)
    requires k <= |xs|
    ensures LimitSeq(|xs| - k, SkipSeq(k, xs)) == xs[k..]
  {
  }

  /** Limit(0) is always empty. */
  lemma LimitZero<T>(xs: seq<T>)
    ensures LimitSeq(0, xs) == []
  {
  }
}
