/** Order-preserving selection from a sequence, used for the records a run keeps or logs. */
module Sequences {
  /** `a` is `b` with some elements dropped and the rest kept in order. */
  predicate Subsequence<T(==)>(a: seq<T>, b: seq<T>)
    decreases |b|
  {
    a == [] || (b != [] && ((a[|a| - 1] == b[|b| - 1] && Subsequence(a[..|a| - 1], b[..|b| - 1]))
                            || Subsequence(a, b[..|b| - 1])))
  }

  /** Keeping or dropping a new last element of `b` preserves the relation. */
  lemma SubsequenceSnoc<T>(a: seq<T>, b: seq<T>, x: T)
    requires Subsequence(a, b)
    ensures Subsequence(a + [x], b + [x])
    ensures Subsequence(a, b + [x])
  {
    assert (a + [x])[..|a|] == a;
    assert (b + [x])[..|b|] == b;
  }

  /** A subsequence is no longer than the sequence and draws its elements from it. */
  lemma {:induction false} SubsequenceElements<T>(a: seq<T>, b: seq<T>)
    requires Subsequence(a, b)
    ensures |a| <= |b|
    ensures forall x :: x in a ==> x in b
    decreases |b|
  {
    if a != [] {
      var a', b' := a[..|a| - 1], b[..|b| - 1];
      assert a == a' + [a[|a| - 1]] && b == b' + [b[|b| - 1]];
      if a[|a| - 1] == b[|b| - 1] && Subsequence(a', b') {
        SubsequenceElements(a', b');
      } else {
        SubsequenceElements(a, b');
      }
    }
  }

  /** `picked` lists `from` at the strictly increasing positions `idx`, one entry per position. */
  predicate PicksOut<T(==)>(picked: seq<T>, from: seq<T>, idx: seq<nat>)
  {
    && |idx| == |picked|
    && (forall j :: 0 <= j < |idx| ==> idx[j] < |from| && picked[j] == from[idx[j]])
    && (forall j1, j2 :: 0 <= j1 < j2 < |idx| ==> idx[j1] < idx[j2])
  }

  /** Positions picked out of a sequence remain valid when an element is appended, and the new element can be picked out after them. */
  lemma PicksOutGrow<T>(picked: seq<T>, from: seq<T>, idx: seq<nat>)
    requires from != [] && PicksOut(picked, from[..|from| - 1], idx)
    ensures PicksOut(picked, from, idx)
    ensures PicksOut(picked + [from[|from| - 1]], from, idx + [|from| - 1])
    ensures |from| - 1 !in idx
  {
    var n := |from| - 1;
    forall j | 0 <= j < |idx|
      ensures picked[j] == from[idx[j]]
    {
      assert from[..n][idx[j]] == from[idx[j]];
    }
  }
}
