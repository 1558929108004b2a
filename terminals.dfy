/** The loops the terminal operations run over the evaluated sequence
    (stream.go:186-316), each proved against a specification. */
module Terminals {
  import opened Wrappers
  import opened Orders

  /** AllMatch's loop (stream.go:197-209): stops at the first element that fails. */
  method MatchAll<T>(p: T -> bool, xs: seq<T>) returns (b: bool)
    ensures b <==> forall i :: 0 <= i < |xs| ==> p(xs[i])
  {
    b := true;
    var i := 0;
    while i < |xs|
      invariant 0 <= i <= |xs|
      invariant forall j :: 0 <= j < i ==> p(xs[j])
    {
      if !p(xs[i]) {
        b := false;
        return;
      }
      i := i + 1;
    }
  }

  /** AnyMatch's loop (stream.go:211-223): stops at the first element that passes. */
  method MatchAny<T>(p: T -> bool, xs: seq<T>) returns (b: bool)
    ensures b <==> exists i :: 0 <= i < |xs| && p(xs[i])
  {
    b := false;
    var i := 0;
    while i < |xs|
      invariant 0 <= i <= |xs|
      invariant forall j :: 0 <= j < i ==> !p(xs[j])
    {
      if p(xs[i]) {
        b := true;
        return;
      }
      i := i + 1;
    }
  }

  /** NoneMatch's loop (stream.go:225-237): stops at the first element that passes. */
  method MatchNone<T>(p: T -> bool, xs: seq<T>) returns (b: bool)
    ensures b <==> forall i :: 0 <= i < |xs| ==> !p(xs[i])
  {
    b := true;
    var i := 0;
    while i < |xs|
      invariant 0 <= i <= |xs|
      invariant forall j :: 0 <= j < i ==> !p(xs[j])
    {
      if p(xs[i]) {
        b := false;
        return;
      }
      i := i + 1;
    }
  }

  /** The position held after scanning the first i elements, seeded with position 0 and
      moved to a later element x whenever better(current, x). Max uses less itself, Min
      its flip. */
  function BestIndex<T>(better: (T, T) -> bool, xs: seq<T>, i: nat): (k: nat)
    requires 0 < i <= |xs|
    ensures k < i
    decreases i
  {
    if i == 1 then 0
    else
      var k := BestIndex(better, xs, i - 1);
      if better(xs[k], xs[i - 1]) then i - 1 else k
  }

  /** For a strict partial order, no scanned element is better than the one held. */
  lemma {:induction false} BestUnbeaten<T(!new)>(better: (T, T) -> bool, xs: seq<T>, i: nat)
    requires 0 < i <= |xs| && Irreflexive(better) && Transitive(better)
    ensures forall j :: 0 <= j < i ==> !better(xs[BestIndex(better, xs, i)], xs[j])
    decreases i
  {
    if i > 1 {
      BestUnbeaten(better, xs, i - 1);
    }
  }

  /** For a strict weak order, every element before the one held is strictly worse: of
      several equally good elements the earliest is kept. */
  lemma {:induction false} BestEarliest<T(!new)>(better: (T, T) -> bool, xs: seq<T>, i: nat)
    requires 0 < i <= |xs| && StrictWeakOrder(better)
    ensures var k := BestIndex(better, xs, i);
      forall j :: 0 <= j < k ==> better(xs[j], xs[k])
    decreases i
  {
    if i > 1 {
      BestEarliest(better, xs, i - 1);
      BestUnbeaten(better, xs, i - 1);
      var k := BestIndex(better, xs, i - 1);
      if better(xs[k], xs[i - 1]) {
        forall j | 0 <= j < i - 1 ensures better(xs[j], xs[i - 1]) {
          assert !better(xs[k], xs[j]);
        }
      }
    }
  }

  /** Max's result for a strict weak order less: an element of the input that no element
      is greater than, and that every earlier element is less than. */
  lemma MaxIsGreatest<T(!new)>(less: (T, T) -> bool, xs: seq<T>)
    requires 0 < |xs| && StrictWeakOrder(less)
    ensures var k := BestIndex(less, xs, |xs|);
      k < |xs| &&
      (forall j :: 0 <= j < |xs| ==> !less(xs[k], xs[j])) &&
      (forall j :: 0 <= j < k ==> less(xs[j], xs[k]))
  {
    BestUnbeaten(less, xs, |xs|);
    BestEarliest(less, xs, |xs|);
  }

  /** Min's result for a strict weak order less: an element of the input that is less
      than no element, and that is less than every earlier element. */
  lemma MinIsLeast<T(!new)>(less: (T, T) -> bool, xs: seq<T>)
    requires 0 < |xs| && StrictWeakOrder(less)
    ensures var k := BestIndex(Flip(less), xs, |xs|);
      k < |xs| &&
      (forall j :: 0 <= j < |xs| ==> !less(xs[j], xs[k])) &&
      (forall j :: 0 <= j < k ==> less(xs[k], xs[j]))
  {
    FlipStrictWeakOrder(less);
    BestUnbeaten(Flip(less), xs, |xs|);
    BestEarliest(Flip(less), xs, |xs|);
  }

  /** Max's loop (stream.go:245-259): nothing on empty input, otherwise seeded with the
      first element and replaced by x whenever less(current, x). */
  method MaxOf<T>(less: (T, T) -> bool, xs: seq<T>) returns (r: Option<T>)
    ensures xs == [] ==> r == None
    ensures xs != [] ==> r == Some(xs[BestIndex(less, xs, |xs|)])
  {
    r := None;
    if |xs| > 0 {
      var max := xs[0];
      for i := 1 to |xs|
        invariant max == xs[BestIndex(less, xs, i)]
      {
        if less(max, xs[i]) {
          max := xs[i];
        }
      }
      r := Some(max);
    }
  }

  /** Min's loop (stream.go:261-276): replaced by x whenever less(x, current). */
  method MinOf<T>(less: (T, T) -> bool, xs: seq<T>) returns (r: Option<T>)
    ensures xs == [] ==> r == None
    ensures xs != [] ==> r == Some(xs[BestIndex(Flip(less), xs, |xs|)])
  {
    r := None;
    if |xs| > 0 {
      var min := xs[0];
      for i := 1 to |xs|
        invariant min == xs[BestIndex(Flip(less), xs, i)]
      {
        if less(xs[i], min) {
          min := xs[i];
        }
      }
      r := Some(min);
    }
  }

  /** The position of the first element satisfying p, or |xs| when there is none. */
  function FindFirst<T>(p: T -> bool, xs: seq<T>): (k: nat)
    ensures k <= |xs|
    ensures k < |xs| ==> p(xs[k])
    ensures forall j :: 0 <= j < k ==> !p(xs[j])
  {
    if xs == [] then 0
    else if p(xs[0]) then 0
    else 1 + FindFirst(p, xs[1..])
  }

  /** The position of the last element satisfying p, or -1 when there is none. */
  function FindLast<T>(p: T -> bool, xs: seq<T>): (k: int)
    ensures -1 <= k < |xs|
    ensures 0 <= k ==> p(xs[k])
    ensures forall j :: k < j < |xs| ==> !p(xs[j])
  {
    if xs == [] then -1
    else if p(xs[|xs| - 1]) then |xs| - 1
    else FindLast(p, xs[..|xs| - 1])
  }

  /** First's loop (stream.go:278-289): scans forward and returns the first match. */
  method FirstOf<T>(p: T -> bool, xs: seq<T>) returns (r: Option<T>)
    ensures var k := FindFirst(p, xs);
      r == if k < |xs| then Some(xs[k]) else None
  {
    for i := 0 to |xs|
      invariant forall j :: 0 <= j < i ==> !p(xs[j])
    {
      if p(xs[i]) {
        return Some(xs[i]);
      }
    }
    return None;
  }

  /** Last's loop (stream.go:291-303): scans backward and returns the first match met. */
  method LastOf<T>(p: T -> bool, xs: seq<T>) returns (r: Option<T>)
    ensures var k := FindLast(p, xs);
      r == if 0 <= k then Some(xs[k]) else None
  {
    var i := |xs| - 1;
    while i >= 0
      invariant -1 <= i < |xs|
      invariant forall j :: i < j < |xs| ==> !p(xs[j])
    {
      if p(xs[i]) {
        return Some(xs[i]);
      }
      i := i - 1;
    }
    return None;
  }

  /** The left fold of f over xs from acc. */
  function Fold<T, R>(f: (R, T) -> R, acc: R, xs: seq<T>): (r: R)
    ensures xs == [] ==> r == acc
    ensures xs != [] ==> r == f(Fold(f, acc, xs[..|xs| - 1]), xs[|xs| - 1])
    decreases |xs|
  {
    if xs == [] then acc
    else
      var rest := Fold(f, f(acc, xs[0]), xs[1..]);
      assert |xs| > 1 ==> xs[..|xs| - 1][1..] == xs[1..][..|xs| - 2];
      rest
  }

  /** Folding over a concatenation folds the second part from the result of the first. */
  lemma {:induction false} FoldAppend<T, R>(f: (R, T) -> R, acc: R, a: seq<T>, b: seq<T>)
    ensures Fold(f, acc, a + b) == Fold(f, Fold(f, acc, a), b)
    decreases |a|
  {
    if a == [] {
      assert a + b == b;
    } else {
      assert (a + b)[0] == a[0] && (a + b)[1..] == a[1..] + b;
      FoldAppend(f, f(acc, a[0]), a[1..], b);
    }
  }

  /** Reduce's loop (stream.go:305-316): the accumulator starts at the seed and becomes
      f(accumulator, element) for each element in order. */
  method ReduceOf<T, R>(seed: R, f: (R, T) -> R, xs: seq<T>) returns (r: R)
    ensures r == Fold(f, seed, xs)
    ensures xs == [] ==> r == seed
  {
    r := seed;
    for i := 0 to |xs|
      invariant r == Fold(f, seed, xs[..i])
    {
      assert xs[..i + 1] == xs[..i] + [xs[i]];
      FoldAppend(f, seed, xs[..i], [xs[i]]);
      r := f(r, xs[i]);
    }
    assert xs[..|xs|] == xs;
  }
}
