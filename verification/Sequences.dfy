/** Taking elements out of a sequence, seen as a multiset. */
module Sequences {
  lemma MiddleMoves<T>(a: seq<T>, b: seq<T>, c: seq<T>)
    ensures multiset(a + b + c) == multiset(a + c) + multiset(b)
  {
  }

  lemma RemoveOne<T>(xs: seq<T>, j: nat)
    requires j < |xs|
    ensures multiset(xs[..j] + xs[j + 1..]) == multiset(xs) - multiset{xs[j]}
    ensures |xs[..j] + xs[j + 1..]| == |xs| - 1
  {
    assert xs == xs[..j] + [xs[j]] + xs[j + 1..];
    MiddleMoves(xs[..j], [xs[j]], xs[j + 1..]);
  }
}
