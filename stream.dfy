/** The pipeline handle (stream.go:9-12): the stored elements and the queue of pending
    operations. Builders append to the queue and return the same handle; terminals
    evaluate the queue once through Collect and finish on its result. */
module Pipeline {
  import opened Wrappers
  import opened Steps
  import opened Sorting
  import opened Dedup
  import opened Engine
  import opened Terminals

  /** What `New` receives: a slice or array of elements, a pointer to a value (followed
      once), or any other value. */
  datatype Arg<T> = Collection(elems: seq<T>) | PointerTo(target: Arg<T>) | NotCollection

  datatype Error = TypeMismatch

  /** The elements `New` copies, or None when the argument is not a collection after at
      most one pointer has been followed (stream.go:32-42). */
  function Elements<T>(arg: Arg<T>): (r: Option<seq<T>>)
    ensures r.Some? <==> arg.Collection? || (arg.PointerTo? && arg.target.Collection?)
  {
    match arg
    case Collection(xs) => Some(xs)
    case PointerTo(Collection(xs)) => Some(xs)
    case _ => None
  }

  class Stream<T> {
    var ops: seq<Op<T>>
    /** The stored elements. The handle never replaces them, but Collect can reorder
        them in place: see StoreAfter. */
    const data: array<T>

    /** The sequence Collect would return now. */
    ghost function Evaluated(): seq<T>
      reads this, data
    {
      ApplyOps(ops, data[..])
    }

    /** The stored elements as Collect would leave them now. */
    ghost function DataAfterCollect(): seq<T>
      reads this, data
    {
      StoreAfter(ops, data[..], 0, data.Length)
    }

    /** A handle over an independent copy of `xs`, in order, with an empty queue. */
    constructor (xs: seq<T>)
      ensures ops == [] && fresh(data) && data[..] == xs
    {
      ops := [];
      data := new T[|xs|](i requires 0 <= i < |xs| => xs[i]);
    }

    /** Clears the queue and keeps the data (stream.go:62-65). */
    method Reset() returns (s: Stream<T>)
      modifies this
      ensures s == this && ops == [] && data[..] == old(data[..])
    {
      ops := [];
      s := this;
    }

    method Filter(p: T -> bool) returns (s: Stream<T>)
      modifies this
      ensures s == this && ops == old(ops) + [Op.Filter(p)] && data[..] == old(data[..])
    {
      ops := ops + [Op.Filter(p)];
      s := this;
    }

    method Map(f: T -> T) returns (s: Stream<T>)
      modifies this
      ensures s == this && ops == old(ops) + [Op.Map(f)] && data[..] == old(data[..])
    {
      ops := ops + [Op.Map(f)];
      s := this;
    }

    method Sort(less: (T, T) -> bool) returns (s: Stream<T>)
      modifies this
      ensures s == this && ops == old(ops) + [Op.Sort(less)] && data[..] == old(data[..])
    {
      ops := ops + [Op.Sort(less)];
      s := this;
    }

    method Distinct(eq: (T, T) -> bool) returns (s: Stream<T>)
      modifies this
      ensures s == this && ops == old(ops) + [Op.Distinct(eq)] && data[..] == old(data[..])
    {
      ops := ops + [Op.Distinct(eq)];
      s := this;
    }

    method Peek() returns (s: Stream<T>)
      modifies this
      ensures s == this && ops == old(ops) + [Op.Peek] && data[..] == old(data[..])
    {
      ops := ops + [Op.Peek];
      s := this;
    }

    /** A negative count is recorded as 0 (stream.go:103-110). */
    method Limit(num: int) returns (s: Stream<T>)
      modifies this
      ensures s == this && ops == old(ops) + [Op.Limit(if num < 0 then 0 else num)]
      ensures data[..] == old(data[..])
    {
      var n := num;
      if n < 0 {
        n := 0;
      }
      ops := ops + [Op.Limit(n)];
      s := this;
    }

    /** A negative count is recorded as 0 (stream.go:113-120). */
    method Skip(num: int) returns (s: Stream<T>)
      modifies this
      ensures s == this && ops == old(ops) + [Op.Skip(if num < 0 then 0 else num)]
      ensures data[..] == old(data[..])
    {
      var n := num;
      if n < 0 {
        n := 0;
      }
      ops := ops + [Op.Skip(n)];
      s := this;
    }

    /** Evaluates the queue (stream.go:123-184). The working slice starts as the stored
        data itself and stays a window result[lo..hi] of it until a Filter, Map or
        Distinct builds a fresh one; a Sort in the meantime sorts the stored data in
        place. */
    method Collect() returns (r: seq<T>)
      modifies data
      ensures r == old(Evaluated())
      ensures data[..] == old(DataAfterCollect())
    {
      ghost var start := data[..];
      ghost var aliased := true;
      var result, lo: nat, hi: nat := data, 0, data.Length;
      var k := 0;
      assert ops[k..] == ops && result[lo..hi] == start;
      while k < |ops|
        invariant 0 <= k <= |ops| && lo <= hi <= result.Length
        invariant aliased ==> result == data
        invariant aliased ==> StoreAfter(ops, start, 0, |start|) == StoreAfter(ops[k..], data[..], lo, hi)
        invariant !aliased ==> fresh(result) && data[..] == StoreAfter(ops, start, 0, |start|)
        invariant ApplyOps(ops, start) == ApplyOps(ops[k..], result[lo..hi])
      {
        if lo == hi {
          break;
        }
        ApplyOpsStep(ops, k, result[lo..hi]);
        if ops[k].MakesFresh() {
          if aliased {
            StoreAfterFresh(ops, k, data[..], lo, hi);
          }
          var temp := FreshStep(ops[k], result[lo..hi]);
          result := FromSeq(temp);
          lo, hi := 0, |temp|;
          aliased := false;
        } else {
          if aliased {
            StoreAfterInPlace(ops, k, data[..], lo, hi);
          }
          lo, hi := InPlaceStep(ops[k], result, lo, hi);
        }
        k := k + 1;
      }
      r := result[lo..hi];
    }

    /** Evaluates the queue for its effects only (stream.go:187-189). */
    method Exec()
      modifies data
      ensures data[..] == old(DataAfterCollect())
    {
      var ignored := Collect();
    }

    /** Calls the action on each evaluated element in order (stream.go:192-195); the model
        returns the elements the action receives. */
    method ForEach() returns (visited: seq<T>)
      modifies data
      ensures visited == old(Evaluated())
      ensures data[..] == old(DataAfterCollect())
    {
      var ys := Collect();
      visited := [];
      for i := 0 to |ys|
        invariant visited == ys[..i]
      {
        visited := visited + [ys[i]];
      }
      assert ys[..|ys|] == ys;
    }

    method AllMatch(p: T -> bool) returns (b: bool)
      modifies data
      ensures var ys := old(Evaluated()); b <==> forall i :: 0 <= i < |ys| ==> p(ys[i])
      ensures data[..] == old(DataAfterCollect())
    {
      var ys := Collect();
      b := MatchAll(p, ys);
    }

    method AnyMatch(p: T -> bool) returns (b: bool)
      modifies data
      ensures var ys := old(Evaluated()); b <==> exists i :: 0 <= i < |ys| && p(ys[i])
      ensures data[..] == old(DataAfterCollect())
    {
      var ys := Collect();
      b := MatchAny(p, ys);
    }

    method NoneMatch(p: T -> bool) returns (b: bool)
      modifies data
      ensures var ys := old(Evaluated()); b <==> forall i :: 0 <= i < |ys| ==> !p(ys[i])
      ensures data[..] == old(DataAfterCollect())
    {
      var ys := Collect();
      b := MatchNone(p, ys);
    }

    /** The number of evaluated elements (stream.go:240-242). */
    method Count() returns (c: nat)
      modifies data
      ensures c == |old(Evaluated())|
      ensures data[..] == old(DataAfterCollect())
    {
      var ys := Collect();
      c := |ys|;
    }

    method Max(less: (T, T) -> bool) returns (r: Option<T>)
      modifies data
      ensures var ys := old(Evaluated());
        r == if ys == [] then None else Some(ys[BestIndex(less, ys, |ys|)])
      ensures data[..] == old(DataAfterCollect())
    {
      var ys := Collect();
      r := MaxOf(less, ys);
    }

    method Min(less: (T, T) -> bool) returns (r: Option<T>)
      modifies data
      ensures var ys := old(Evaluated());
        r == if ys == [] then None else Some(ys[BestIndex(Orders.Flip(less), ys, |ys|)])
      ensures data[..] == old(DataAfterCollect())
    {
      var ys := Collect();
      r := MinOf(less, ys);
    }

    method First(p: T -> bool) returns (r: Option<T>)
      modifies data
      ensures var ys := old(Evaluated()); var k := FindFirst(p, ys);
        r == if k < |ys| then Some(ys[k]) else None
      ensures data[..] == old(DataAfterCollect())
    {
      var ys := Collect();
      r := FirstOf(p, ys);
    }

    method Last(p: T -> bool) returns (r: Option<T>)
      modifies data
      ensures var ys := old(Evaluated()); var k := FindLast(p, ys);
        r == if 0 <= k then Some(ys[k]) else None
      ensures data[..] == old(DataAfterCollect())
    {
      var ys := Collect();
      r := LastOf(p, ys);
    }

    method Reduce<R>(seed: R, f: (R, T) -> R) returns (r: R)
      modifies data
      ensures r == Fold(f, seed, old(Evaluated()))
      ensures data[..] == old(DataAfterCollect())
    {
      var ys := Collect();
      r := ReduceOf(seed, f, ys);
    }
  }

  /** One Filter, Map or Distinct step of Collect (stream.go:130-138, 141-148,
      151-166): a new slice computed from the working one. */
  method FreshStep<T>(op: Op<T>, xs: seq<T>) returns (r: seq<T>)
    requires op.MakesFresh() && xs != []
    ensures r == ApplyOp(op, xs)
  {
    match op {
      case Filter(p) => r := FilterEach(p, xs);
      case Map(f) => r := MapEach(f, xs);
      case Distinct(eq) => r := DistinctScan(eq, xs);
    }
  }

  /** One Sort, Peek, Limit or Skip step of Collect (stream.go:139-140, 149-150,
      167-180): it works on the window a[lo..hi] of the current array, sorting it in
      place or narrowing it. */
  method InPlaceStep<T>(op: Op<T>, a: array<T>, lo: nat, hi: nat) returns (lo': nat, hi': nat)
    requires lo < hi <= a.Length && !op.MakesFresh()
    modifies a
    ensures (a[..], lo', hi') == InPlace(op, old(a[..]), lo, hi)
    ensures a[lo'..hi'] == ApplyOp(op, old(a[lo..hi]))
  {
    InPlaceWindow(op, a[..], lo, hi);
    match op {
      case Sort(less) =>
        SortWindow(a, lo, hi, less);
        lo', hi' := lo, hi;
      case Peek =>
        lo', hi' := lo, hi;
      case Limit(n) =>
        var limit := n;
        if limit > hi - lo {
          limit := hi - lo;
        }
        lo', hi' := lo, lo + limit;
      case Skip(n) =>
        var skip := n;
        if skip > hi - lo {
          skip := hi - lo;
        }
        lo', hi' := lo + skip, hi;
    }
  }

  /** A fresh array holding `xs`. */
  method FromSeq<T>(xs: seq<T>) returns (a: array<T>)
    ensures fresh(a) && a[..] == xs && a[0..|xs|] == xs
  {
    a := new T[|xs|](i requires 0 <= i < |xs| => xs[i]);
  }

  /** Builds a handle over a copy of a slice or array, or of the one a pointer points to;
      any other argument is a TypeMismatch (stream.go:28-44). */
  method New<T>(arg: Arg<T>) returns (r: Result<Stream<T>, Error>)
    ensures r.Failure? <==> Elements(arg).None?
    ensures r.Failure? ==> r.error == TypeMismatch
    ensures r.Success? ==> fresh(r.value) && fresh(r.value.data)
    ensures r.Success? ==> r.value.ops == [] && r.value.data[..] == Elements(arg).value
  {
    var a := arg;
    if a.PointerTo? {
      a := a.target;
    }
    if a.Collection? {
      var s := new Stream(a.elems);
      r := Success(s);
    } else {
      r := Failure(TypeMismatch);
    }
  }
}
