/** Generic facts about sequences used across the model: concatenating a
    list of lists, and order-preserving selection. */
module Sequences {

  /** The concatenation of the given sequences, in order. */
  function Flatten<T>(xs: seq<seq<T>>): seq<T> {
    if |xs| == 0 then [] else Flatten(xs[..|xs| - 1]) + xs[|xs| - 1]
  }

  lemma {:induction false} FlattenAppend<T>(a: seq<seq<T>>, b: seq<seq<T>>)
    ensures Flatten(a + b) == Flatten(a) + Flatten(b)
  {
    if |b| == 0 {
      assert a + b == a;
    } else {
      assert (a + b)[..|a + b| - 1] == a + b[..|b| - 1];
      FlattenAppend(a, b[..|b| - 1]);
    }
  }

  /** One more part goes at the end. */
  lemma FlattenSnoc<T>(xs: seq<seq<T>>, x: seq<T>)
    ensures Flatten(xs + [x]) == Flatten(xs) + x
  {
    assert (xs + [x])[..|xs|] == xs;
  }

  /** Part k sits between the parts before it and the parts after it. */
  lemma {:induction false} FlattenSplit<T>(xs: seq<seq<T>>, k: nat)
    requires k < |xs|
    ensures Flatten(xs) == Flatten(xs[..k]) + xs[k] + Flatten(xs[k + 1..])
  {
    assert xs == xs[..k] + [xs[k]] + xs[k + 1..];
    FlattenAppend(xs[..k] + [xs[k]], xs[k + 1..]);
    FlattenAppend(xs[..k], [xs[k]]);
    assert Flatten([xs[k]]) == xs[k] by {
      assert [xs[k]][..0] == [];
    }
  }

  /** No element occurs twice. */
  predicate Distinct<T(==)>(xs: seq<T>) {
    forall i, j :: 0 <= i < j < |xs| ==> xs[i] != xs[j]
  }

  /** a keeps some of b's elements, in b's order. */
  predicate IsSubsequence<T(==)>(a: seq<T>, b: seq<T>)
    decreases |b|
  {
    if |a| == 0 then true
    else if |b| == 0 then false
    else
      || (a[|a| - 1] == b[|b| - 1] && IsSubsequence(a[..|a| - 1], b[..|b| - 1]))
      || IsSubsequence(a, b[..|b| - 1])
  }

  lemma {:induction false} SubsequenceOfLonger<T>(a: seq<T>, b: seq<T>, c: seq<T>)
    requires IsSubsequence(a, b)
    requires |c| == |b| + 1 && c[..|b|] == b
    ensures IsSubsequence(a, c)
  {
    if |a| > 0 {
      assert c[..|c| - 1] == b;
    }
  }
}
