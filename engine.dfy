/** The deferred operations and what evaluating them means: ApplyOps gives the sequence
    Collect returns (stream.go:123-184), StoreAfter gives the stream's stored data after
    Collect, which the in-place Sort can reorder. */
module Engine {
  import opened Orders
  import opened Steps
  import opened Sorting
  import opened Dedup

  /** One queued step (stream.go:14-17). Limit and Skip hold their clamped count directly;
      the source wraps it in a zero-argument closure. Peek's observer has no effect on the
      working sequence and is not kept. */
  datatype Op<!T> =
    | Filter(p: T -> bool)
    | Map(f: T -> T)
    | Sort(less: (T, T) -> bool)
    | Distinct(eq: (T, T) -> bool)
    | Peek
    | Limit(n: nat)
    | Skip(n: nat)
  {
    /** Filter, Map and Distinct build a fresh slice; Sort, Peek, Limit and Skip go on
        working on the slice they were given. */
    predicate MakesFresh() {
      Filter? || Map? || Distinct?
    }
  }

  /** One step on a non-empty working sequence. */
  function ApplyOp<T>(op: Op<T>, xs: seq<T>): (r: seq<T>)
    requires xs != []
    ensures op.Filter? ==> |r| <= |xs| && forall i :: 0 <= i < |r| ==> op.p(r[i])
    ensures op.Map? ==> |r| == |xs|
    ensures op.Sort? ==> multiset(r) == multiset(xs)
    ensures op.Distinct? ==> 0 < |r| && r[0] == xs[0]
    ensures op.Peek? ==> r == xs
    ensures op.Limit? ==> r <= xs
    ensures op.Skip? ==> |r| <= |xs| && r == xs[|xs| - |r|..]
  {
    match op
    case Filter(p) => FilterSeq(p, xs)
    case Map(f) => MapSeq(f, xs)
    case Sort(less) => SortPermutes(less, xs); SortSeq(less, xs)
    case Distinct(eq) => DistinctSeq(eq, xs)
    case Peek => xs
    case Limit(n) => LimitSeq(n, xs)
    case Skip(n) => SkipSeq(n, xs)
  }

  /** The steps in insertion order, stopping as soon as the working sequence is empty. */
  function ApplyOps<T>(ops: seq<Op<T>>, xs: seq<T>): (r: seq<T>)
    ensures xs == [] ==> r == []
    decreases |ops|
  {
    if ops == [] || xs == [] then xs else ApplyOps(ops[1..], ApplyOp(ops[0], xs))
  }

  /** The stored data after evaluation, when the working slice is the window
      store[lo..hi] of it: Sort reorders the window in place, Limit and Skip narrow it,
      and the first Filter, Map or Distinct detaches the working slice from the store. */
  function StoreAfter<T>(ops: seq<Op<T>>, store: seq<T>, lo: nat, hi: nat): (r: seq<T>)
    requires lo <= hi <= |store|
    ensures |r| == |store|
    decreases |ops|
  {
    if ops == [] || lo == hi then store
    else match ops[0]
      case Sort(less) =>
        StoreAfter(ops[1..], store[..lo] + SortSeq(less, store[lo..hi]) + store[hi..], lo, hi)
      case Peek => StoreAfter(ops[1..], store, lo, hi)
      case Limit(n) =>
        var limit := if n > hi - lo then hi - lo else n;
        StoreAfter(ops[1..], store, lo, lo + limit)
      case Skip(n) =>
        var skip := if n > hi - lo then hi - lo else n;
        StoreAfter(ops[1..], store, lo + skip, hi)
      case _ => store
  }

  /** Evaluating a queue is evaluating its first part and then its second part on the
      result: operations run in insertion order, none is reordered or fused. */
  lemma {:induction false} ApplyOpsAppend<T>(a: seq<Op<T>>, b: seq<Op<T>>, xs: seq<T>)
    ensures ApplyOps(a + b, xs) == ApplyOps(b, ApplyOps(a, xs))
    decreases |a|
  {
    if a == [] {
      assert a + b == b;
    } else if xs != [] {
      assert (a + b)[0] == a[0] && (a + b)[1..] == a[1..] + b;
      ApplyOpsAppend(a[1..], b, ApplyOp(a[0], xs));
    }
  }

  /** Appending one operation applies it to the previous result, unless that result is
      already empty. */
  lemma ApplyOpsSnoc<T>(ops: seq<Op<T>>, op: Op<T>, xs: seq<T>)
    ensures var ys := ApplyOps(ops, xs);
      ApplyOps(ops + [op], xs) == if ys == [] then [] else ApplyOp(op, ys)
  {
    ApplyOpsAppend(ops, [op], xs);
    var ys := ApplyOps(ops, xs);
    if ys != [] {
      assert [op][1..] == [];
    }
  }

  /** Short circuit: once a prefix of the queue has emptied the working sequence, the
      rest of the queue makes no difference. */
  lemma ShortCircuit<T>(ops: seq<Op<T>>, k: nat, xs: seq<T>)
    requires k <= |ops| && ApplyOps(ops[..k], xs) == []
    ensures ApplyOps(ops, xs) == []
  {
    assert ops == ops[..k] + ops[k..];
    ApplyOpsAppend(ops[..k], ops[k..], xs);
  }

  /** Every Distinct in the queue uses a reflexive relation. */
  ghost predicate DistinctsReflexive<T(!new)>(ops: seq<Op<T>>) {
    forall i :: 0 <= i < |ops| && ops[i].Distinct? ==> Reflexive(ops[i].eq)
  }

  lemma ApplyOpShrinks<T(!new)>(op: Op<T>, xs: seq<T>)
    requires xs != [] && (op.Distinct? ==> Reflexive(op.eq))
    ensures |ApplyOp(op, xs)| <= |xs|
  {
    if op.Distinct? {
      KeptLength(op.eq, xs, |xs|);
    }
  }

  /** No queue lengthens the sequence, provided its Distinct relations are reflexive (a
      non-reflexive one can repeat the first element: see Dedup.DistinctRepeatsFirst). */
  lemma {:induction false} ApplyOpsShrinks<T(!new)>(ops: seq<Op<T>>, xs: seq<T>)
    requires DistinctsReflexive(ops)
    ensures |ApplyOps(ops, xs)| <= |xs|
    decreases |ops|
  {
    if ops != [] && xs != [] {
      ApplyOpShrinks(ops[0], xs);
      ApplyOpsShrinks(ops[1..], ApplyOp(ops[0], xs));
    }
  }

  /** Sorting the window in place permutes the array and keeps what lies around it. */
  lemma SortWindowPermutes<T>(less: (T, T) -> bool, store: seq<T>, lo: nat, hi: nat)
    requires lo <= hi <= |store|
    ensures var next := store[..lo] + SortSeq(less, store[lo..hi]) + store[hi..];
      |next| == |store| && multiset(next) == multiset(store) &&
      next[..lo] == store[..lo] && next[hi..] == store[hi..]
  {
    var next := store[..lo] + SortSeq(less, store[lo..hi]) + store[hi..];
    SortPermutes(less, store[lo..hi]);
    assert next[..lo] == store[..lo] && next[hi..] == store[hi..];
    assert store == store[..lo] + store[lo..hi] + store[hi..];
  }

  /** What lies outside a window lies outside every window inside it. */
  lemma OutsideNarrower<T>(r: seq<T>, store: seq<T>, lo: nat, lo': nat, hi': nat, hi: nat)
    requires lo <= lo' <= hi' <= hi <= |store| == |r|
    requires r[..lo'] == store[..lo'] && r[hi'..] == store[hi'..]
    ensures r[..lo] == store[..lo] && r[hi..] == store[hi..]
  {
    assert r[..lo] == r[..lo'][..lo] && store[..lo] == store[..lo'][..lo];
    assert r[hi..] == r[hi'..][hi - hi'..] && store[hi..] == store[hi'..][hi - hi'..];
  }

  /** Evaluation only permutes the stored data, and only inside the initial window. */
  lemma {:induction false} StoreAfterPermutes<T>(ops: seq<Op<T>>, store: seq<T>, lo: nat, hi: nat)
    requires lo <= hi <= |store|
    ensures var r := StoreAfter(ops, store, lo, hi);
      multiset(r) == multiset(store) && r[..lo] == store[..lo] && r[hi..] == store[hi..]
    decreases |ops|
  {
    if ops != [] && lo != hi {
      var r := StoreAfter(ops, store, lo, hi);
      match ops[0]
      case Sort(less) =>
        var next := store[..lo] + SortSeq(less, store[lo..hi]) + store[hi..];
        SortWindowPermutes(less, store, lo, hi);
        StoreAfterPermutes(ops[1..], next, lo, hi);
      case Peek =>
        StoreAfterPermutes(ops[1..], store, lo, hi);
      case Limit(n) =>
        var limit := if n > hi - lo then hi - lo else n;
        StoreAfterPermutes(ops[1..], store, lo, lo + limit);
        OutsideNarrower(r, store, lo, lo, lo + limit, hi);
      case Skip(n) =>
        var skip := if n > hi - lo then hi - lo else n;
        StoreAfterPermutes(ops[1..], store, lo + skip, hi);
        OutsideNarrower(r, store, lo, lo + skip, hi, hi);
      case _ =>
    }
  }

  /** A queue without Sort leaves the stored data as it was. */
  lemma {:induction false} StoreAfterWithoutSort<T>(ops: seq<Op<T>>, store: seq<T>, lo: nat, hi: nat)
    requires lo <= hi <= |store|
    requires forall i :: 0 <= i < |ops| ==> !ops[i].Sort?
    ensures StoreAfter(ops, store, lo, hi) == store
    decreases |ops|
  {
    if ops != [] && lo != hi {
      assert !ops[0].Sort?;
      match ops[0]
      case Peek =>
        StoreAfterWithoutSort(ops[1..], store, lo, hi);
      case Limit(n) =>
        var limit := if n > hi - lo then hi - lo else n;
        StoreAfterWithoutSort(ops[1..], store, lo, lo + limit);
      case Skip(n) =>
        var skip := if n > hi - lo then hi - lo else n;
        StoreAfterWithoutSort(ops[1..], store, lo + skip, hi);
      case _ =>
    }
  }

  /** Operations after the first Filter, Map or Distinct never touch the stored data. */
  lemma {:induction false} StoreAfterStopsAtFresh<T>(ops: seq<Op<T>>, k: nat, store: seq<T>, lo: nat, hi: nat)
    requires lo <= hi <= |store| && k < |ops| && ops[k].MakesFresh()
    ensures StoreAfter(ops, store, lo, hi) == StoreAfter(ops[..k], store, lo, hi)
    decreases k
  {
    if lo != hi {
      if k == 0 {
        assert ops[..k] == [];
      } else {
        assert ops[..k][0] == ops[0] && ops[..k][1..] == ops[1..][..k - 1];
        match ops[0]
        case Sort(less) =>
          StoreAfterStopsAtFresh(ops[1..], k - 1, store[..lo] + SortSeq(less, store[lo..hi]) + store[hi..], lo, hi);
        case Peek =>
          StoreAfterStopsAtFresh(ops[1..], k - 1, store, lo, hi);
        case Limit(n) =>
          var limit := if n > hi - lo then hi - lo else n;
          StoreAfterStopsAtFresh(ops[1..], k - 1, store, lo, lo + limit);
        case Skip(n) =>
          var skip := if n > hi - lo then hi - lo else n;
          StoreAfterStopsAtFresh(ops[1..], k - 1, store, lo + skip, hi);
        case _ =>
      }
    }
  }

  /** One step of the evaluation loop, seen from the remaining queue. */
  lemma ApplyOpsStep<T>(ops: seq<Op<T>>, k: nat, w: seq<T>)
    requires k < |ops| && w != []
    ensures ApplyOps(ops[k..], w) == ApplyOps(ops[k + 1..], ApplyOp(ops[k], w))
  {
    assert ops[k..][0] == ops[k] && ops[k..][1..] == ops[k + 1..];
  }

  /** The stored data and window after one step that keeps working on the store: Sort
      reorders the window, Limit moves its end, Skip its start, Peek changes nothing. */
  function InPlace<T>(op: Op<T>, store: seq<T>, lo: nat, hi: nat): (r: (seq<T>, nat, nat))
    requires lo <= hi <= |store|
    ensures |r.0| == |store| && lo <= r.1 <= r.2 <= hi
  {
    match op
    case Sort(less) => (store[..lo] + SortSeq(less, store[lo..hi]) + store[hi..], lo, hi)
    case Limit(n) => (store, lo, lo + (if n > hi - lo then hi - lo else n))
    case Skip(n) => (store, lo + (if n > hi - lo then hi - lo else n), hi)
    case _ => (store, lo, hi)
  }

  /** An in-place step leaves in its window what ApplyOp computes from the old window. */
  lemma InPlaceWindow<T>(op: Op<T>, store: seq<T>, lo: nat, hi: nat)
    requires lo < hi <= |store| && !op.MakesFresh()
    ensures var t := InPlace(op, store, lo, hi); t.0[t.1..t.2] == ApplyOp(op, store[lo..hi])
  {
    match op {
      case Sort(less) =>
        var t := InPlace(op, store, lo, hi);
        assert t.0[lo..hi] == SortSeq(less, store[lo..hi]);
      case Peek =>
      case Limit(n) =>
        var limit := if n > hi - lo then hi - lo else n;
        assert store[lo..lo + limit] == store[lo..hi][..limit];
      case Skip(n) =>
        var skip := if n > hi - lo then hi - lo else n;
        assert store[lo + skip..hi] == store[lo..hi][skip..];
    }
  }

  /** The evaluation loop's view of the store across an in-place step. */
  lemma StoreAfterInPlace<T>(ops: seq<Op<T>>, k: nat, store: seq<T>, lo: nat, hi: nat)
    requires k < |ops| && lo < hi <= |store| && !ops[k].MakesFresh()
    ensures var t := InPlace(ops[k], store, lo, hi);
      StoreAfter(ops[k..], store, lo, hi) == StoreAfter(ops[k + 1..], t.0, t.1, t.2)
  {
    assert ops[k..][0] == ops[k] && ops[k..][1..] == ops[k + 1..];
  }

  /** The evaluation loop's view of the store at a step that detaches the working slice. */
  lemma StoreAfterFresh<T>(ops: seq<Op<T>>, k: nat, store: seq<T>, lo: nat, hi: nat)
    requires k < |ops| && lo < hi <= |store| && ops[k].MakesFresh()
    ensures StoreAfter(ops[k..], store, lo, hi) == store
  {
    assert ops[k..][0] == ops[k];
  }
}
