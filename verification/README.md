# go-toolbox `highorder`: Filter, Map and Reduce

This project models the three generic slice helpers of the `highorder` package
of go-toolbox and proves what their doc comments and tests promise:

- `Filter(input, fn)` walks `input` once, left to right, and appends every
  element for which `fn` holds to a result slice that starts out empty.
- `Map(input, fn)` walks `input` once and appends `fn(v)` for every element `v`
  to a result slice preallocated to `len(input)`.
- `Reduce(input, acc, accfn)` walks `input` once and replaces the accumulator by
  `accfn(v, acc)` for every element `v` (element first, accumulator second),
  then returns it.

Each Go file becomes one module (`HighorderFilter`, `HighorderMap`,
`HighorderReduce`). Each helper's loop is a Dafny `method` with a `for` loop.
The loop invariant says that the result built so far equals a recursive
specification function applied to the prefix `input[..i]`. The specification
functions are `Filtered`, `Mapped` and `Folded`. The properties of the helpers
are proved as lemmas about those functions.

Go slices are modelled as Dafny sequences, which are immutable values. The input
therefore cannot be changed by any of the helpers, and each result is a new
value. The callbacks are total, pure Dafny function values.

## Model

| member | source | states |
|---|---|---|
| `HighorderFilter.Filter` | highorder/filter.go:6-14 | the loop returns exactly `Filtered(input, fn)`, and every element it returns satisfies `fn` |
| `HighorderFilter.FilteredConcat` | highorder/filter.go:8-12 | filtering `a + b` is filtering `a` followed by filtering `b`; this is the loop step |
| `HighorderFilter.FilteredSatisfies` | highorder/filter.go:8-12 | every element of the result satisfies the predicate |
| `HighorderFilter.FilteredPositions` | highorder/filter.go:8-12 | the result is the subsequence of the input at exactly the positions whose element satisfies the predicate: those positions in strictly increasing order, none missed |
| `HighorderFilter.PositionsAreSatisfying` | highorder/filter.go:8-12 | the position list used by `FilteredPositions` holds exactly the set of input positions whose element satisfies the predicate, the set that `FilteredLength` counts |
| `HighorderFilter.FilteredMultiset` | highorder/filter.go:8-12 | each value occurs in the result as often as in the input when it satisfies the predicate, and never otherwise |
| `HighorderFilter.FilteredLength` | highorder/filter.go:7-12 | the result length equals the number of input positions that satisfy the predicate, so it is at most the input length |
| `HighorderFilter.FilteredEmptyIff` | highorder/filter.go:7-13 | the result is empty if and only if no input element satisfies the predicate; this covers an empty input and an always-false predicate |
| `HighorderFilter.FilteredKeepsAllIff` | highorder/filter.go:8-12 | the result equals the input if and only if every input element satisfies the predicate |
| `HighorderFilter.FilteredIdempotent` | highorder/filter.go:8-12 | filtering the result again with the same predicate gives the same result |
| `HighorderFilter.FilteredEvens` | highorder/filter_test.go:8-15 | filtering `[1, 2, 3, 4, 5, 6]` for even numbers gives `[2, 4, 6]` |
| `HighorderMap.Map` | highorder/map.go:5-11 | the loop returns exactly `Mapped(input, fn)`, with the input's length, and element i is `fn(input[i])` |
| `HighorderMap.MappedConcat` | highorder/map.go:7-9 | mapping distributes over concatenation: `Mapped(a + b) == Mapped(a) + Mapped(b)` |
| `HighorderMap.MappedAt` | highorder/map.go:6-9 | the result has the input's length, and element i is `f` applied to input element i, so order is preserved |
| `HighorderMap.MappedEmptyIff` | highorder/map.go:6-10 | the result is empty if and only if the input is empty |
| `HighorderMap.MappedSquares` | highorder/map_test.go:9-16 | squaring `[1, 2, 3, 4]` gives `[1, 4, 9, 16]` |
| `HighorderReduce.Reduce` | highorder/reduce.go:6-11 | the loop returns exactly the left fold `Folded(input, acc, accfn)` |
| `HighorderReduce.FoldedConcat` | highorder/reduce.go:7-9 | folding `a + b` from `acc` is folding `b` from the result of folding `a` |
| `HighorderReduce.FoldedSnoc` | highorder/reduce.go:7-9 | appending `x` to the input applies `f(x, previous accumulator)`, with the element as the first argument; this is the loop step |
| `HighorderReduce.FoldedEmpty` | highorder/reduce.go:7-10 | an empty input returns the initial accumulator unchanged |
| `HighorderReduce.FoldedSingleton` | highorder/reduce.go:8 | the input `[x]` with initial `acc` gives `f(x, acc)` |
| `HighorderReduce.FoldedSum` | highorder/reduce_test.go:9-17 | summing `[1, 2, 3, 4]` from 0 gives 10 |

## Left out

- The `concurrent` package (`MutexValue`, `RWMutexValue` in concurrent/mutex_value.go and concurrent/rwmutex_value.go) is not part of this model. Its purpose is to guard a value with Go's `sync.Mutex` and `sync.RWMutex`. The lock semantics belong to Go's runtime, and without the locks only a plain field get/set and a callback applied to the value remain.
- The guarantee that a lock is released when a callback panics is not modelled, because it rests on Go's `defer` and panic unwinding.
- The goroutine stress tests are not modelled, because they are about interleavings, not about sequential results.
- Go slice mechanics are not modelled: nil versus empty slices, the capacity preallocated by `Map`, and reallocation by `append`. None of them changes the elements of a result.
- Callbacks that panic, have side effects or are nil are not modelled; each callback is a total, pure function.
- Integer width: the helpers are generic and do no arithmetic of their own. The test callbacks (`n % 2`, `n * n`, `acc + n`) use Go's `int` (32 or 64 bits by platform), which is modelled as Dafny's unbounded `int`. No wrap-around happens on the test inputs.
