/** Filter from highorder/filter.go: keep the elements of a slice that satisfy a
    predicate, in their original order, in a freshly built result.
    Slices are modelled as sequences and the predicate as a total function. */
module HighorderFilter {

  /** The elements of `s` that satisfy `p`, in the order they occur in `s`. */
  function Filtered<T>(s: seq<T>, p: T -> bool): (r: seq<T>)
  {
    if s == [] then []
    else if p(s[0]) then [s[0]] + Filtered(s[1..], p)
    else Filtered(s[1..], p)
  }

  /** The positions of `s` whose element satisfies `p`. */
  ghost function SatisfyingPositions<T>(s: seq<T>, p: T -> bool): (positions: set<nat>)
  {
    set i: nat | i < |s| && p(s[i])
  }

  /** The loop of Filter: one pass, left to right, appending each element that
      satisfies `fn` to a result that starts out empty. */
  method Filter<T>(input: seq<T>, fn: T -> bool) returns (result: seq<T>)
    ensures result == Filtered(input, fn)
    ensures forall k :: 0 <= k < |result| ==> fn(result[k])
  {
    result := [];
    for i := 0 to |input|
      invariant result == Filtered(input[..i], fn)
    {
      var v := input[i];
      assert input[..i + 1] == input[..i] + [v];
      FilteredConcat(input[..i], [v], fn);
      if fn(v) {
        result := result + [v];
      }
    }
    assert input[..|input|] == input;
    FilteredSatisfies(input, fn);
  }

  /** Filtering distributes over concatenation. */
  lemma {:induction false} FilteredConcat<T>(a: seq<T>, b: seq<T>, p: T -> bool)
    ensures Filtered(a + b, p) == Filtered(a, p) + Filtered(b, p)
  {
    if a == [] {
      assert a + b == b;
    } else {
      assert (a + b)[0] == a[0];
      assert (a + b)[1..] == a[1..] + b;
      FilteredConcat(a[1..], b, p);
    }
  }

  /** Every element of the result satisfies the predicate. */
  lemma {:induction false} FilteredSatisfies<T>(s: seq<T>, p: T -> bool)
    ensures forall k :: 0 <= k < |Filtered(s, p)| ==> p(Filtered(s, p)[k])
  {
    if s != [] {
      FilteredSatisfies(s[1..], p);
    }
  }

  /** The positions of `s` whose element satisfies `p`, in increasing order. */
  ghost function Positions<T>(s: seq<T>, p: T -> bool): (idx: seq<nat>)
    ensures forall k :: 0 <= k < |idx| ==> idx[k] < |s|
  {
    if s == [] then []
    else
      var rest := Positions(s[1..], p);
      var shifted := seq(|rest|, k requires 0 <= k < |rest| => rest[k] + 1);
      if p(s[0]) then [0] + shifted else shifted
  }

  lemma {:induction false} PositionsIncreasing<T>(s: seq<T>, p: T -> bool)
    ensures forall j, k :: 0 <= j < k < |Positions(s, p)| ==> Positions(s, p)[j] < Positions(s, p)[k]
  {
    if s != [] {
      PositionsIncreasing(s[1..], p);
    }
  }

  lemma {:induction false} PositionsComplete<T>(s: seq<T>, p: T -> bool)
    ensures forall i :: 0 <= i < |s| && p(s[i]) ==> i in Positions(s, p)
  {
    if s != [] {
      PositionsComplete(s[1..], p);
      var rest := Positions(s[1..], p);
      forall i | 1 <= i < |s| && p(s[i])
        ensures i in Positions(s, p)
      {
        assert s[1..][i - 1] == s[i];
        var k :| 0 <= k < |rest| && rest[k] == i - 1;
        assert Positions(s, p)[k + if p(s[0]) then 1 else 0] == i;
      }
    }
  }

  lemma {:induction false} FilteredAtPositions<T>(s: seq<T>, p: T -> bool)
    ensures |Positions(s, p)| == |Filtered(s, p)|
    ensures forall k :: 0 <= k < |Positions(s, p)| ==>
      p(s[Positions(s, p)[k]]) && Filtered(s, p)[k] == s[Positions(s, p)[k]]
  {
    if s != [] {
      FilteredAtPositions(s[1..], p);
      var rest := Positions(s[1..], p);
      var d := if p(s[0]) then 1 else 0;
      forall k | d <= k < |Positions(s, p)|
        ensures Positions(s, p)[k] == rest[k - d] + 1
        ensures p(s[Positions(s, p)[k]]) && Filtered(s, p)[k] == s[Positions(s, p)[k]]
      {
        assert s[1..][rest[k - d]] == s[rest[k - d] + 1];
      }
    }
  }

  /** `Positions` lists exactly the members of `SatisfyingPositions`. */
  lemma PositionsAreSatisfying<T>(s: seq<T>, p: T -> bool)
    ensures (set k | k in Positions(s, p)) == SatisfyingPositions(s, p)
  {
    PositionsComplete(s, p);
    FilteredAtPositions(s, p);
  }

  /** The result is exactly the subsequence of `s` at the positions whose element
      satisfies `p`: `idx` lists those positions in strictly increasing order,
      misses none of them, and element k of the result is `s[idx[k]]`. */
  lemma {:induction false} FilteredPositions<T>(s: seq<T>, p: T -> bool) returns (idx: seq<nat>)
    ensures |idx| == |Filtered(s, p)|
    ensures forall k :: 0 <= k < |idx| ==> idx[k] < |s| && p(s[idx[k]]) && Filtered(s, p)[k] == s[idx[k]]
    ensures forall j, k :: 0 <= j < k < |idx| ==> idx[j] < idx[k]
    ensures forall i :: 0 <= i < |s| && p(s[i]) ==> i in idx
  {
    idx := Positions(s, p);
    PositionsIncreasing(s, p);
    PositionsComplete(s, p);
    FilteredAtPositions(s, p);
  }

  /** Each value occurs in the result as often as in the input if it satisfies
      the predicate, and not at all otherwise. */
  lemma {:induction false} FilteredMultiset<T>(s: seq<T>, p: T -> bool, x: T)
    ensures multiset(Filtered(s, p))[x] == if p(x) then multiset(s)[x] else 0
  {
    if s != [] {
      assert s == [s[0]] + s[1..];
      FilteredMultiset(s[1..], p, x);
    }
  }

  /** The result is no longer than the input, and its length is the number of
      input positions whose element satisfies the predicate. */
  lemma {:induction false} FilteredLength<T>(s: seq<T>, p: T -> bool)
    ensures |Filtered(s, p)| == |SatisfyingPositions(s, p)|
    ensures |Filtered(s, p)| <= |s|
  {
    if s == [] {
      assert SatisfyingPositions(s, p) == {};
    } else {
      var init, x := s[..|s| - 1], s[|s| - 1];
      assert s == init + [x];
      FilteredLength(init, p);
      FilteredConcat(init, [x], p);
      var before := SatisfyingPositions(init, p);
      assert |init| !in before;
      if p(x) {
        assert SatisfyingPositions(s, p) == before + {|init|};
      } else {
        assert SatisfyingPositions(s, p) == before;
      }
    }
  }

  /** The result is empty exactly when no input element satisfies the predicate
      (in particular for an empty input or a predicate that is always false). */
  lemma {:induction false} FilteredEmptyIff<T>(s: seq<T>, p: T -> bool)
    ensures Filtered(s, p) == [] <==> forall i :: 0 <= i < |s| ==> !p(s[i])
  {
    if s != [] {
      FilteredEmptyIff(s[1..], p);
      assert forall i :: 1 <= i < |s| ==> s[1..][i - 1] == s[i];
    }
  }

  /** The result equals the input exactly when every input element satisfies
      the predicate. */
  lemma {:induction false} FilteredKeepsAllIff<T>(s: seq<T>, p: T -> bool)
    ensures Filtered(s, p) == s <==> forall i :: 0 <= i < |s| ==> p(s[i])
  {
    if s != [] {
      FilteredKeepsAllIff(s[1..], p);
      FilteredLength(s[1..], p);
      assert forall i :: 1 <= i < |s| ==> s[1..][i - 1] == s[i];
      if !p(s[0]) {
        assert |Filtered(s, p)| < |s|;
      }
    }
  }

  /** Filtering the result again with the same predicate changes nothing. */
  lemma {:induction false} FilteredIdempotent<T>(s: seq<T>, p: T -> bool)
    ensures Filtered(Filtered(s, p), p) == Filtered(s, p)
  {
    FilteredSatisfies(s, p);
    FilteredKeepsAllIff(Filtered(s, p), p);
  }

  /** The case exercised by the repository's test: the even numbers of 1..6. */
  lemma FilteredEvens()
    ensures Filtered([1, 2, 3, 4, 5, 6], (n: int) => n % 2 == 0) == [2, 4, 6]
  {
  }
}
