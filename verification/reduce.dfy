/** Reduce from highorder/reduce.go: thread an accumulator through a slice from
    left to right, calling the combining function with the element first and the
    accumulator second. Slices are modelled as sequences and the combining
    function as a total function. */
module HighorderReduce {

  /** The left fold of `s` starting from `acc`: the first element is combined
      with `acc`, the second with that result, and so on. */
  function Folded<T, U>(s: seq<T>, acc: U, f: (T, U) -> U): (r: U)
  {
    if s == [] then acc else Folded(s[1..], f(s[0], acc), f)
  }

  /** The loop of Reduce: the accumulator is replaced by `accfn(v, acc)` for
      each element `v`, left to right, and its final value is returned. */
  method Reduce<T, U>(input: seq<T>, acc: U, accfn: (T, U) -> U) returns (result: U)
    ensures result == Folded(input, acc, accfn)
  {
    result := acc;
    for i := 0 to |input|
      invariant result == Folded(input[..i], acc, accfn)
    {
      var v := input[i];
      assert input[..i + 1] == input[..i] + [v];
      FoldedSnoc(input[..i], v, acc, accfn);
      result := accfn(v, result);
    }
    assert input[..|input|] == input;
  }

  /** Folding a concatenation folds the second part starting from the result
      of folding the first. */
  lemma {:induction false} FoldedConcat<T, U>(a: seq<T>, b: seq<T>, acc: U, f: (T, U) -> U)
    ensures Folded(a + b, acc, f) == Folded(b, Folded(a, acc, f), f)
  {
    if a == [] {
      assert a + b == b;
    } else {
      assert (a + b)[0] == a[0];
      assert (a + b)[1..] == a[1..] + b;
      FoldedConcat(a[1..], b, f(a[0], acc), f);
    }
  }

  /** Appending one element to the input combines it, as first argument, with
      the fold of the rest: the fold is a left fold. */
  lemma {:induction false} FoldedSnoc<T, U>(xs: seq<T>, x: T, acc: U, f: (T, U) -> U)
    ensures Folded(xs + [x], acc, f) == f(x, Folded(xs, acc, f))
  {
    FoldedConcat(xs, [x], acc, f);
  }

  /** An empty input gives back the initial accumulator. */
  lemma FoldedEmpty<T, U>(acc: U, f: (T, U) -> U)
    ensures Folded([], acc, f) == acc
  {
  }

  /** A one-element input `[x]` gives `f(x, acc)`: element first, accumulator
      second. */
  lemma FoldedSingleton<T, U>(x: T, acc: U, f: (T, U) -> U)
    ensures Folded([x], acc, f) == f(x, acc)
  {
  }

  /** The case exercised by the repository's test: summing 1..4 from 0 gives 10. */
  lemma FoldedSum()
    ensures Folded([1, 2, 3, 4], 0, (n: int, acc: int) => acc + n) == 10
  {
  }
}
