/** The Distinct step (stream.go:151-166). The retained list is seeded with the first
    element; then EVERY element, the first one included, is compared with every retained
    element as eq(candidate, retained), and is appended when none of them matches. */
module Dedup {
  import opened Orders

  /** Some retained element matches the candidate `x`. */
  predicate Seen<T>(eq: (T, T) -> bool, x: T, kept: seq<T>) {
    exists m :: 0 <= m < |kept| && eq(x, kept[m])
  }

  /** The retained list after the first i elements of `xs` have been scanned. */
  function Kept<T>(eq: (T, T) -> bool, xs: seq<T>, i: nat): (r: seq<T>)
    requires 0 < |xs| && i <= |xs|
    ensures 0 < |r| <= i + 1 && r[0] == xs[0]
    decreases i
  {
    if i == 0 then [xs[0]]
    else
      var k := Kept(eq, xs, i - 1);
      if Seen(eq, xs[i - 1], k) then k else k + [xs[i - 1]]
  }

  /** The result of Distinct on a non-empty working sequence; the engine never runs it on
      an empty one (stream.go:126-128), where the seeding read of the first element would
      fail. */
  function DistinctSeq<T>(eq: (T, T) -> bool, xs: seq<T>): (r: seq<T>)
    requires 0 < |xs|
    ensures 0 < |r| <= |xs| + 1 && r[0] == xs[0]
  {
    Kept(eq, xs, |xs|)
  }

  /** The input positions of the retained elements. */
  ghost function KeptIndices<T>(eq: (T, T) -> bool, xs: seq<T>, i: nat): seq<nat>
    requires 0 < |xs| && i <= |xs|
    decreases i
  {
    if i == 0 then [0]
    else
      var idx := KeptIndices(eq, xs, i - 1);
      if Seen(eq, xs[i - 1], Kept(eq, xs, i - 1)) then idx else idx + [i - 1]
  }

  /** The retained list only grows, by appending. */
  lemma {:induction false} KeptGrows<T>(eq: (T, T) -> bool, xs: seq<T>, i: nat, j: nat)
    requires 0 < |xs| && i <= j <= |xs|
    ensures Kept(eq, xs, i) <= Kept(eq, xs, j)
    decreases j
  {
    if i < j {
      KeptGrows(eq, xs, i, j - 1);
    }
  }

  /** Every retained element is the input element at its recorded position, and that
      position has already been scanned. */
  lemma {:induction false} KeptAt<T>(eq: (T, T) -> bool, xs: seq<T>, i: nat)
    requires 0 < |xs| && i <= |xs|
    ensures var k, idx := Kept(eq, xs, i), KeptIndices(eq, xs, i);
      |idx| == |k| &&
      forall m :: 0 <= m < |k| ==> idx[m] < |xs| && idx[m] <= i && (0 < i ==> idx[m] < i) && k[m] == xs[idx[m]]
    decreases i
  {
    if i > 0 {
      KeptAt(eq, xs, i - 1);
    }
  }

  /** For a reflexive eq the recorded positions strictly increase: the result is a
      subsequence of the input. */
  lemma {:induction false} KeptIncreasing<T(!new)>(eq: (T, T) -> bool, xs: seq<T>, i: nat)
    requires 0 < |xs| && 0 < i <= |xs| && Reflexive(eq)
    ensures var idx := KeptIndices(eq, xs, i);
      forall m, n :: 0 <= m < n < |idx| ==> idx[m] < idx[n]
    decreases i
  {
    if i == 1 {
      assert eq(xs[0], Kept(eq, xs, 0)[0]);
    } else {
      KeptIncreasing(eq, xs, i - 1);
      KeptAt(eq, xs, i - 1);
    }
  }

  /** No retained element matches a retained element before it. */
  lemma {:induction false} KeptPairwise<T>(eq: (T, T) -> bool, xs: seq<T>, i: nat)
    requires 0 < |xs| && i <= |xs|
    ensures forall m, n :: 0 <= m < n < |Kept(eq, xs, i)| ==> !eq(Kept(eq, xs, i)[n], Kept(eq, xs, i)[m])
    decreases i
  {
    if i > 0 {
      KeptPairwise(eq, xs, i - 1);
    }
  }

  /** For a reflexive eq every scanned element matches some retained element. */
  lemma {:induction false} KeptCovers<T(!new)>(eq: (T, T) -> bool, xs: seq<T>, i: nat)
    requires 0 < |xs| && i <= |xs| && Reflexive(eq)
    ensures forall j :: 0 <= j < i ==> Seen(eq, xs[j], Kept(eq, xs, i))
    decreases i
  {
    if i > 0 {
      KeptCovers(eq, xs, i - 1);
      var k, k' := Kept(eq, xs, i - 1), Kept(eq, xs, i);
      forall j | 0 <= j < i ensures Seen(eq, xs[j], k') {
        if j < i - 1 {
          var m :| 0 <= m < |k| && eq(xs[j], k[m]);
          assert k'[m] == k[m];
        } else if !Seen(eq, xs[j], k) {
          assert eq(xs[j], k'[|k|]);
        }
      }
    }
  }

  /** For a reflexive eq the retained list is never longer than the scanned input. */
  lemma {:induction false} KeptLength<T(!new)>(eq: (T, T) -> bool, xs: seq<T>, i: nat)
    requires 0 < |xs| && 0 < i <= |xs| && Reflexive(eq)
    ensures |Kept(eq, xs, i)| <= i
    decreases i
  {
    if i == 1 {
      assert eq(xs[0], Kept(eq, xs, 0)[0]);
    } else {
      KeptLength(eq, xs, i - 1);
    }
  }

  /** Distinct for a reflexive and symmetric eq: the result begins with the first element,
      is a subsequence of the input, holds no two eq-related elements, represents every
      input element, and is no longer than the input. */
  lemma DistinctProperties<T(!new)>(eq: (T, T) -> bool, xs: seq<T>)
    requires 0 < |xs| && Reflexive(eq) && Symmetric(eq)
    ensures var r := DistinctSeq(eq, xs);
      && 0 < |r| <= |xs| && r[0] == xs[0]
      && (forall m, n :: 0 <= m < |r| && 0 <= n < |r| && m != n ==> !eq(r[m], r[n]))
      && (forall j :: 0 <= j < |xs| ==> exists m :: 0 <= m < |r| && eq(xs[j], r[m]))
    ensures var r, idx := DistinctSeq(eq, xs), KeptIndices(eq, xs, |xs|);
      && |idx| == |r|
      && (forall m :: 0 <= m < |r| ==> idx[m] < |xs| && r[m] == xs[idx[m]])
      && (forall m, n :: 0 <= m < n < |idx| ==> idx[m] < idx[n])
  {
    var r := DistinctSeq(eq, xs);
    KeptLength(eq, xs, |xs|);
    KeptPairwise(eq, xs, |xs|);
    KeptCovers(eq, xs, |xs|);
    KeptAt(eq, xs, |xs|);
    KeptIncreasing(eq, xs, |xs|);
    forall m, n | 0 <= m < |r| && 0 <= n < |r| && m != n ensures !eq(r[m], r[n]) {
      if m < n {
        assert !eq(r[n], r[m]);
      }
    }
  }

  /** The first-occurrence reference: an element is kept iff no earlier input element is
      eq to it. */
  ghost function FirstOccurrences<T>(eq: (T, T) -> bool, xs: seq<T>, i: nat): seq<T>
    requires i <= |xs|
    decreases i
  {
    if i == 0 then []
    else
      FirstOccurrences(eq, xs, i - 1)
      + (if exists j :: 0 <= j < i - 1 && eq(xs[i - 1], xs[j]) then [] else [xs[i - 1]])
  }

  /** A candidate that matches a retained element matches an earlier input element. */
  lemma EarlierFromSeen<T>(eq: (T, T) -> bool, xs: seq<T>, i: nat)
    requires 0 < i < |xs| && Seen(eq, xs[i], Kept(eq, xs, i))
    ensures exists j :: 0 <= j < i && eq(xs[i], xs[j])
  {
    var k, idx := Kept(eq, xs, i), KeptIndices(eq, xs, i);
    KeptAt(eq, xs, i);
    var m :| 0 <= m < |k| && eq(xs[i], k[m]);
    assert eq(xs[i], xs[idx[m]]);
  }

  /** For a reflexive and transitive eq, a candidate that matches an earlier input element
      matches a retained element. */
  lemma SeenFromEarlier<T(!new)>(eq: (T, T) -> bool, xs: seq<T>, i: nat, j: nat)
    requires j < i < |xs| && Reflexive(eq) && Transitive(eq) && eq(xs[i], xs[j])
    ensures Seen(eq, xs[i], Kept(eq, xs, i))
  {
    var k := Kept(eq, xs, i);
    KeptCovers(eq, xs, i);
    assert Seen(eq, xs[j], k);
    var m :| 0 <= m < |k| && eq(xs[j], k[m]);
    assert eq(xs[i], k[m]);
  }

  /** For an equivalence relation, matching a retained element is the same as matching
      some earlier input element. */
  lemma SeenIffEarlier<T(!new)>(eq: (T, T) -> bool, xs: seq<T>, i: nat)
    requires 0 < i < |xs| && Reflexive(eq) && Transitive(eq)
    ensures Seen(eq, xs[i], Kept(eq, xs, i)) <==> exists j :: 0 <= j < i && eq(xs[i], xs[j])
  {
    if Seen(eq, xs[i], Kept(eq, xs, i)) {
      EarlierFromSeen(eq, xs, i);
    }
    if exists j :: 0 <= j < i && eq(xs[i], xs[j]) {
      var j :| 0 <= j < i && eq(xs[i], xs[j]);
      SeenFromEarlier(eq, xs, i, j);
    }
  }

  lemma {:induction false} KeptIsFirstOccurrences<T(!new)>(eq: (T, T) -> bool, xs: seq<T>, i: nat)
    requires 0 < |xs| && 0 < i <= |xs| && Equivalence(eq)
    ensures Kept(eq, xs, i) == FirstOccurrences(eq, xs, i)
    decreases i
  {
    if i == 1 {
      assert eq(xs[0], Kept(eq, xs, 0)[0]);
    } else {
      KeptIsFirstOccurrences(eq, xs, i - 1);
      SeenIffEarlier(eq, xs, i - 1);
    }
  }

  /** For an equivalence relation Distinct keeps exactly the first occurrence of each
      class, in input order. */
  lemma DistinctFirstOccurrences<T(!new)>(eq: (T, T) -> bool, xs: seq<T>)
    requires 0 < |xs| && Equivalence(eq)
    ensures DistinctSeq(eq, xs) == FirstOccurrences(eq, xs, |xs|)
  {
    KeptIsFirstOccurrences(eq, xs, |xs|);
  }

  /** When eq does not relate the first element to itself, the first element is retained
      twice: the seed, and again when it is scanned as a candidate. */
  lemma DistinctRepeatsFirst<T>(eq: (T, T) -> bool, xs: seq<T>)
    requires 0 < |xs| && !eq(xs[0], xs[0])
    ensures var r := DistinctSeq(eq, xs);
      2 <= |r| && r[0] == xs[0] && r[1] == xs[0]
  {
    assert Kept(eq, xs, 1) == [xs[0], xs[0]];
    KeptGrows(eq, xs, 1, |xs|);
  }

  /** The Distinct loop of Collect: a nested scan with no early exit from the inner
      loop. */
  method DistinctScan<T>(eq: (T, T) -> bool, xs: seq<T>) returns (r: seq<T>)
    requires 0 < |xs|
    ensures r == DistinctSeq(eq, xs)
  {
    r := [xs[0]];
    for i := 0 to |xs|
      invariant r == Kept(eq, xs, i)
    {
      var found := false;
      for j := 0 to |r|
        invariant found <==> exists m :: 0 <= m < j && eq(xs[i], r[m])
      {
        if eq(xs[i], r[j]) {
          found := true;
        }
      }
      if !found {
        r := r + [xs[i]];
      }
    }
  }
}
