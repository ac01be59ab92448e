/** Map from highorder/map.go: apply a transformation to every element of a
    slice, collecting the results, in order, in a freshly built result.
    Slices are modelled as sequences and the transformation as a total function. */
module HighorderMap {

  /** `f` applied to each element of `s`, in order. */
  function Mapped<T, U>(s: seq<T>, f: T -> U): (r: seq<U>)
  {
    if s == [] then [] else [f(s[0])] + Mapped(s[1..], f)
  }

  /** The loop of Map: one pass, left to right, appending `fn(v)` for each
      element `v` to a result that starts out empty. */
  method Map<T, U>(input: seq<T>, fn: T -> U) returns (result: seq<U>)
    ensures result == Mapped(input, fn)
    ensures |result| == |input|
    ensures forall i :: 0 <= i < |input| ==> result[i] == fn(input[i])
  {
    result := [];
    for i := 0 to |input|
      invariant result == Mapped(input[..i], fn)
    {
      var v := input[i];
      assert input[..i + 1] == input[..i] + [v];
      MappedConcat(input[..i], [v], fn);
      result := result + [fn(v)];
    }
    assert input[..|input|] == input;
    MappedAt(input, fn);
  }

  /** Mapping distributes over concatenation. */
  lemma {:induction false} MappedConcat<T, U>(a: seq<T>, b: seq<T>, f: T -> U)
    ensures Mapped(a + b, f) == Mapped(a, f) + Mapped(b, f)
  {
    if a == [] {
      assert a + b == b;
    } else {
      assert (a + b)[0] == a[0];
      assert (a + b)[1..] == a[1..] + b;
      MappedConcat(a[1..], b, f);
    }
  }

  /** The result has the input's length, and element i of the result is `f`
      applied to element i of the input. */
  lemma {:induction false} MappedAt<T, U>(s: seq<T>, f: T -> U)
    ensures |Mapped(s, f)| == |s|
    ensures forall i :: 0 <= i < |s| ==> Mapped(s, f)[i] == f(s[i])
  {
    if s != [] {
      MappedAt(s[1..], f);
      assert forall i :: 1 <= i < |s| ==> s[1..][i - 1] == s[i];
    }
  }

  /** The result is empty exactly when the input is. */
  lemma MappedEmptyIff<T, U>(s: seq<T>, f: T -> U)
    ensures Mapped(s, f) == [] <==> s == []
  {
    MappedAt(s, f);
  }

  /** The case exercised by the repository's test: squaring 1..4. */
  lemma MappedSquares()
    ensures Mapped([1, 2, 3, 4], (n: int) => n * n) == [1, 4, 9, 16]
  {
  }
}
