# stream: a verified model of a lazy collection pipeline

This project models `stream.go`, a small Go library that builds a collection pipeline.

A pipeline handle holds a copy of the caller's elements (`data`) and an ordered queue of pending operations (`ops`). The builders `Filter`, `Map`, `Sort`, `Distinct`, `Peek`, `Limit` and `Skip` each append one tagged operation and return the same handle. `Reset` empties the queue.

`Collect` evaluates the queue in insertion order over a working slice and stops as soon as that slice is empty. Every terminal calls `Collect` exactly once and finishes on its result: `Exec`, `ForEach`, `AllMatch`, `AnyMatch`, `NoneMatch`, `Count`, `Max`, `Min`, `First`, `Last` and `Reduce`.

The model is imperative where the Go code is, and each loop is proved against a pure specification function.

Modules:
- `Pipeline`: the handle is the class `Stream<T>`, with `var ops: seq<Op<T>>` and the stored elements as `const data: array<T>`. The builders reassign `ops`. `Collect` runs the evaluation loop, and the terminals call it.
- `Engine`: the operations as the datatype `Op`, and the meaning of the queue.
  - `ApplyOps` is the sequence `Collect` returns.
  - `StoreAfter` is the stored data after `Collect`.
- `Steps`, `Sorting`, `Dedup` and `Terminals`: one step each, with its loop, its specification function, and the properties proved about that function.
  - `Sorting` includes the `sortbyfun` adapter as the class `SortByFun`, with `Len`, `Less` and an in-place `Swap`. An in-place insertion sort runs through it.
- `Orders`: relation properties (reflexive, strict weak order, equivalence, …) that the lemmas assume of caller-supplied callables.
- `Scenarios`: whole pipelines evaluated on concrete integer inputs.

## Behaviour a caller might not expect

Two behaviours of `stream.go` that the model keeps exactly.

- **`Collect` reorders the stored data when a `Sort` runs before any `Filter`, `Map` or `Distinct`.**
  - In the code, the working slice starts as `s.data` itself (stream.go:124). `Limit` and `Skip` only re-slice it (stream.go:172-173, 179-180). `Sort` swaps entries of that slice in place (stream.go:25, 150).
  - So a `Sort` that comes before every `Filter`, `Map` and `Distinct` reorders the sorted window of the stored data. This holds after any `Limit`/`Skip` narrowing of that window.
  - `Pipeline.Stream.Collect` therefore `modifies data`, and its postcondition gives the new contents as `StoreAfter`.
  - `Engine.StoreAfterPermutes` shows the new contents are a permutation that differs only inside the window. `Engine.StoreAfterWithoutSort` shows a queue without `Sort` leaves the data alone.
  - `Scenarios.SortReordersStore` shows a later `Reset` plus `Collect` sees the sorted order.
- **`Distinct` compares the first element with itself, and can therefore lengthen the sequence.**
  - The code seeds the retained list with the first element and then compares *every* element, the first one included (stream.go:153-154). The comparison is `eq(candidate, retained)`, with no early exit.
  - For a reflexive `eq` the extra comparison changes nothing and the result is never longer than the input (`Dedup.KeptLength`). For an `eq` that does not relate the first element to itself, that element is kept twice (`Dedup.DistinctRepeatsFirst`).

## Model

| member | source | states |
|---|---|---|
| Pipeline.Elements | stream.go:32-42 | the argument yields elements exactly when it is a slice or array, or a pointer to one |
| Pipeline.New | stream.go:28-44 | a collection (possibly behind one pointer) gives a fresh handle with an empty queue whose data is an in-order copy of the elements in a fresh array; any other argument gives `TypeMismatch` and no handle |
| Pipeline.Stream.constructor | stream.go:29-43 | the handle owns a fresh array equal to the input and has an empty queue |
| Pipeline.Stream.Reset | stream.go:62-65 | the queue becomes empty, the data is unchanged, the same handle is returned |
| Pipeline.Stream.Filter | stream.go:68-72 | exactly one `Filter` op is appended at the end of the queue; data unchanged; same handle returned |
| Pipeline.Stream.Map | stream.go:75-79 | exactly one `Map` op appended at the end; data unchanged; same handle |
| Pipeline.Stream.Sort | stream.go:82-86 | exactly one `Sort` op appended at the end; data unchanged; same handle |
| Pipeline.Stream.Distinct | stream.go:89-93 | exactly one `Distinct` op appended at the end; data unchanged; same handle |
| Pipeline.Stream.Peek | stream.go:96-100 | exactly one `Peek` op appended at the end; data unchanged; same handle |
| Pipeline.Stream.Limit | stream.go:103-110 | appends `Limit(max(num, 0))`; data unchanged; same handle |
| Pipeline.Stream.Skip | stream.go:113-120 | appends `Skip(max(num, 0))`; data unchanged; same handle |
| Pipeline.Stream.Collect | stream.go:123-184 | returns `ApplyOps(ops, data)`, the operations applied in queue order with the empty-slice short circuit; the stored data becomes `StoreAfter(ops, data, 0, n)`, i.e. the window sorted in place while the working slice still aliases it |
| Pipeline.FreshStep | stream.go:129-166 | a Filter, Map or Distinct arm yields exactly `ApplyOp(op, working)` as a new slice |
| Pipeline.InPlaceStep | stream.go:139-180 | a Sort, Peek, Limit or Skip arm leaves the array and window given by `InPlace` (sorting the window in place or moving an end, clamped) and the new window holds `ApplyOp(op, old window)` |
| Pipeline.Stream.Exec | stream.go:187-189 | evaluates the queue for its effect on the stored data only |
| Pipeline.Stream.ForEach | stream.go:192-195 | the action receives exactly the evaluated elements, once each, in order |
| Pipeline.Stream.AllMatch | stream.go:198-209 | true iff every evaluated element satisfies p (so true on an empty result) |
| Pipeline.Stream.AnyMatch | stream.go:212-223 | true iff some evaluated element satisfies p (so false on an empty result) |
| Pipeline.Stream.NoneMatch | stream.go:226-237 | true iff no evaluated element satisfies p, i.e. the negation of AnyMatch (so true on an empty result) |
| Pipeline.Stream.Count | stream.go:240-242 | the length of the evaluated sequence |
| Pipeline.Stream.Max | stream.go:245-259 | None on an empty result, otherwise the element held by the `less(max, x)` replacement scan over the evaluated sequence |
| Pipeline.Stream.Min | stream.go:262-276 | None on an empty result, otherwise the element held by the `less(x, min)` replacement scan |
| Pipeline.Stream.First | stream.go:279-289 | the first evaluated element satisfying p, or None |
| Pipeline.Stream.Last | stream.go:292-303 | the last evaluated element satisfying p, or None |
| Pipeline.Stream.Reduce | stream.go:306-316 | the left fold of f over the evaluated sequence starting from the seed |
| Engine.ApplyOp | stream.go:129-181 | one operation on a non-empty working sequence: Filter keeps only elements satisfying p; Map keeps the length; Sort permutes; Distinct starts with the first element; Limit gives a prefix and Skip a suffix; Peek leaves the sequence unchanged |
| Engine.ApplyOps | stream.go:125-128 | an empty working sequence stays empty whatever the queue holds |
| Engine.ApplyOpsAppend | stream.go:125-182 | evaluating `a + b` is evaluating `b` on the result of `a`: operations run in insertion order, none reordered or fused |
| Engine.ApplyOpsSnoc | stream.go:125-182 | appending one op applies it to the previous result unless that result is empty |
| Engine.ShortCircuit | stream.go:126-128 | once a prefix of the queue has emptied the sequence, the whole queue yields empty |
| Engine.ApplyOpsShrinks | stream.go:123-184 | when every Distinct relation is reflexive, evaluation never lengthens the sequence |
| Engine.StoreAfter | stream.go:124-180 | evaluation keeps the stored data's length |
| Engine.StoreAfterPermutes | stream.go:124-150 | the stored data after evaluation is a permutation of it, unchanged outside the initial window |
| Engine.StoreAfterWithoutSort | stream.go:124-184 | a queue with no Sort leaves the stored data exactly as it was |
| Engine.StoreAfterStopsAtFresh | stream.go:130-166 | operations after the first Filter, Map or Distinct cannot change the stored data |
| Engine.InPlace | stream.go:149-180 | an in-place step keeps the array length and only narrows the window |
| Engine.InPlaceWindow | stream.go:149-180 | the window an in-place step leaves holds what the step's specification computes from the old window |
| Steps.FilterSeq | stream.go:130-138 | every kept element satisfies p and the result is no longer than the input |
| Steps.FilterAppend | stream.go:130-138 | filtering distributes over concatenation, so kept elements stay in input order |
| Steps.FilterCounts | stream.go:130-138 | each element occurs in the result exactly as often as in the input if it satisfies p, and not at all otherwise |
| Steps.FilterAllTrue | stream.go:130-138 | a predicate true of every element returns the sequence unchanged |
| Steps.FilterEach | stream.go:130-138 | the `each`-driven append loop computes FilterSeq |
| Steps.MapSeq | stream.go:141-148 | same length, i-th element is `f(xs[i])` |
| Steps.MapEach | stream.go:141-148 | the `each`-driven append loop computes MapSeq |
| Steps.LimitSeq | stream.go:167-173 | the prefix of exactly `min(n, \|xs\|)` elements |
| Steps.SkipSeq | stream.go:174-180 | the last `max(|xs| - n, 0)` elements, in order |
| Steps.LimitSkipSplit | stream.go:167-180 | Limit(n) and Skip(n) split the sequence with no gap and no overlap |
| Steps.SkipThenLimit | stream.go:167-180 | for k ≤ \|xs\|, Skip(k) then Limit(\|xs\| - k) gives exactly `xs[k..]` |
| Steps.LimitZero | stream.go:167-173 | Limit(0) is empty |
| Sorting.SortByFun.Len | stream.go:24 | the adapter's length is the length of the wrapped slice |
| Sorting.SortByFun.Less | stream.go:26 | one call of the wrapped less-than on the i-th and j-th elements of the wrapped slice |
| Sorting.SortByFun.Swap | stream.go:25 | exchanges the i-th and j-th elements of the wrapped slice in place and touches nothing else of the array |
| Sorting.InsertAt | stream.go:149-150 | one insertion pass through Less and Swap moves the i-th element into the sorted prefix, as `Insert` specifies |
| Sorting.InsertionSort | stream.go:149-150 | sorting through the adapter turns the window into `SortSeq(less, old window)` and leaves the rest of the array alone |
| Sorting.SortWindow | stream.go:149-150 | the whole array becomes prefix + sorted window + suffix |
| Sorting.SortSeq | stream.go:149-150 | sorting keeps the length |
| Sorting.SortPermutes | stream.go:149-150 | the sorted sequence has the same multiset as the input |
| Sorting.SortNoDescent | stream.go:149-150 | for an asymmetric less no adjacent pair satisfies `less(b[i+1], b[i])` |
| Sorting.NoDescentSorted | stream.go:149-150 | for a negatively transitive less, no adjacent descent means no descent between any pair |
| Sorting.SortSorted | stream.go:149-150 | for a strict weak order the result is sorted: no later element is less than an earlier one |
| Dedup.Kept | stream.go:151-166 | the retained list is non-empty, starts with the first element, and after i elements are scanned holds at most i + 1 |
| Dedup.KeptPairwise | stream.go:151-166 | for any eq, no retained element is eq to one retained before it |
| Dedup.KeptLength | stream.go:151-166 | for a reflexive eq the retained list is never longer than the scanned input |
| Dedup.DistinctProperties | stream.go:151-166 | for a reflexive, symmetric eq the result starts with `xs[0]`, is no longer than the input, is a subsequence (strictly increasing source positions), has no two eq-related elements, and every input element is eq to a retained one |
| Dedup.SeenIffEarlier | stream.go:154-164 | for a reflexive, transitive eq a candidate matches a retained element iff it is eq to an earlier input element |
| Dedup.DistinctFirstOccurrences | stream.go:151-166 | for an equivalence relation the result is exactly the first occurrence of each class, in input order |
| Dedup.DistinctRepeatsFirst | stream.go:153-154 | if eq does not relate the first element to itself, it is retained twice and the result is at least two long |
| Dedup.DistinctSeq | stream.go:151-166 | the Distinct arm's result is non-empty, starts with the first element, and is at most one element longer than the input |
| Dedup.DistinctScan | stream.go:151-166 | the nested scan without inner break computes DistinctSeq |
| Terminals.MatchAll | stream.go:197-209 | the early-exit loop answers whether every element satisfies p |
| Terminals.MatchAny | stream.go:211-223 | the early-exit loop answers whether some element satisfies p |
| Terminals.MatchNone | stream.go:225-237 | the early-exit loop answers whether no element satisfies p |
| Terminals.BestIndex | stream.go:245-259 | the held position is among those already scanned |
| Terminals.BestUnbeaten | stream.go:245-259 | for an irreflexive, transitive relation no scanned element beats the held one |
| Terminals.BestEarliest | stream.go:245-259 | for a strict weak order every element before the held one is strictly worse, so ties keep the earliest |
| Terminals.MaxIsGreatest | stream.go:245-259 | for a strict weak order Max's element is not less than any element, and every earlier element is less than it |
| Terminals.MinIsLeast | stream.go:261-276 | for a strict weak order no element is less than Min's element, and it is less than every earlier element |
| Terminals.MaxOf | stream.go:245-259 | None on empty input, otherwise the element at BestIndex(less) |
| Terminals.MinOf | stream.go:261-276 | None on empty input, otherwise the element at BestIndex of the flipped relation |
| Terminals.FindFirst | stream.go:278-289 | the position of the first element satisfying p, with none before it, or the length when none does |
| Terminals.FindLast | stream.go:291-303 | the position of the last element satisfying p, with none after it, or -1 when none does |
| Terminals.FirstOf | stream.go:278-289 | the forward loop returns the element at FindFirst, or None |
| Terminals.LastOf | stream.go:291-303 | the backward loop returns the element at FindLast, or None |
| Terminals.Fold | stream.go:309-315 | folding the empty sequence gives the seed; folding `xs + [x]` applies f once more to the fold of `xs` |
| Terminals.FoldAppend | stream.go:305-316 | folding a concatenation folds the second part from the first part's result |
| Terminals.ReduceOf | stream.go:305-316 | the accumulator loop computes the left fold from the seed, and returns the seed on empty input |
| Scenarios.FilterThenMap | stream.go:123-184 | Filter(x > 2) then Map(x * 2) on [5, 3, 8, 1] gives [10, 6, 16] |
| Scenarios.DistinctOfRuns | stream.go:151-166 | Distinct(==) on [1, 2, 2, 3, 3, 3] gives [1, 2, 3] |
| Scenarios.SkipThenLimitWindow | stream.go:167-180 | Skip(2) then Limit(2) on [1, 2, 3, 4, 5] gives [3, 4] |
| Scenarios.SortThree | stream.go:149-150 | Sort(<) on [3, 1, 2] gives [1, 2, 3] |
| Scenarios.EmptySource | stream.go:245-259 | on an empty source Max is None and Count is 0 |
| Scenarios.SortReordersStore | stream.go:123-150 | after Sort and Collect the stored data itself is sorted, and Reset then Collect returns it sorted |

## Left out

- Reflective invocation (`call`, stream.go:333-339) and its panic when a callable's signature does not fit. Callables are typed, pure Dafny functions, so arity and type faults cannot arise.
- `Map` changing the element type through `interface{}`. The model has a single element type, so `Map` takes `T -> T`.
- `Of`, `Ints`, `Floats`, `Strings` (stream.go:46-60). These are one-line wrappers around `New`, and `Floats` brings in float64.
- The `reflect.Kind` tests in `New`:
  - slice and array kinds are merged into `Collection`;
  - a nil pointer and a pointer to a pointer both fall under "not a collection after one dereference", which gives the `TypeMismatch` error;
  - the error text is not modelled.
- Side effects of user callables:
  - `Peek`'s observer is not kept, and the `Peek` step is the identity on the working sequence;
  - `ForEach` returns the sequence of elements its action receives instead of calling an action;
  - how many times each callable is invoked is not modelled.
- Pipeline.Stream.Collect: Go's `sort.Sort` is library code with an unspecified, unstable algorithm. The model sorts through the same adapter with an in-place insertion sort. Its order of elements that `less` ties can therefore differ from Go's. What is proved, and what the code promises, is permutation plus sortedness for a strict weak order.
- Pipeline.Stream.Collect returns a sequence value. In Go the returned slice can share storage with `data`, so a caller who writes into it changes the pipeline's data. That later aliasing is not modelled; the reordering by `Sort` during `Collect` is.
- `each` (stream.go:324-331) is not a separate member. Its loop is written out in each place that uses it:
  - `Steps.FilterEach` and `Steps.MapEach`;
  - `Pipeline.Stream.ForEach`;
  - the early-exit loops `Terminals.MatchAll`, `MatchAny` and `MatchNone`;
  - for `Peek`, the loop has no effect on the sequence.
- `Max`, `Min`, `First` and `Last` return `nil` in Go when nothing is found. The model returns `Option.None`. A stored nil element, which Go cannot tell apart from "nothing found", is not modelled.
- Concurrent use, and aliasing of one handle by several callers. The library has no concurrency.
