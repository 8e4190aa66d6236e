/** Stable sorting by a real key, and what stability means: ties keep any order the input already had. */
module StableSorting {
  ghost predicate Pairwise<T(!new)>(xs: seq<T>, before: (T, T) -> bool) {
    forall i, j :: 0 <= i < j < |xs| ==> before(xs[i], xs[j])
  }

  /** Ordered by the key, ties ordered by `before`. */
  function Lex<T>(key: T -> real, before: (T, T) -> bool): (T, T) -> bool {
    (a, b) => key(a) < key(b) || (key(a) == key(b) && before(a, b))
  }

  /** Inserts ahead of every element whose key is not smaller. */
  function Insert<T>(x: T, xs: seq<T>, key: T -> real): seq<T> {
    if xs == [] || key(x) <= key(xs[0]) then [x] + xs else [xs[0]] + Insert(x, xs[1..], key)
  }

  function StableSort<T>(xs: seq<T>, key: T -> real): seq<T> {
    if xs == [] then [] else Insert(xs[0], StableSort(xs[1..], key), key)
  }

  lemma {:induction false} InsertElements<T>(x: T, xs: seq<T>, key: T -> real)
    ensures multiset(Insert(x, xs, key)) == multiset(xs) + multiset{x}
  {
    if xs != [] && key(x) > key(xs[0]) {
      InsertElements(x, xs[1..], key);
      assert xs == [xs[0]] + xs[1..];
    }
  }

  lemma {:induction false} SortPermutes<T>(xs: seq<T>, key: T -> real)
    ensures multiset(StableSort(xs, key)) == multiset(xs)
  {
    if xs != [] {
      SortPermutes(xs[1..], key);
      InsertElements(xs[0], StableSort(xs[1..], key), key);
      assert xs == [xs[0]] + xs[1..];
    }
  }

  lemma {:induction false} InsertKeepsOrder<T(!new)>(x: T, xs: seq<T>, key: T -> real, before: (T, T) -> bool)
    requires Pairwise(xs, Lex(key, before)) && forall y :: y in xs ==> before(x, y)
    ensures Pairwise(Insert(x, xs, key), Lex(key, before))
  {
    if xs != [] && key(x) > key(xs[0]) {
      var rest := Insert(x, xs[1..], key);
      InsertKeepsOrder(x, xs[1..], key, before);
      InsertElements(x, xs[1..], key);
      forall y | y in rest
        ensures Lex(key, before)(xs[0], y)
      {
        assert y in multiset(rest);
      }
    }
  }

  /** Sorting an input ordered by `before` orders it by key first and by `before` among equal keys. */
  lemma {:induction false} SortIsLexicographic<T(!new)>(xs: seq<T>, key: T -> real, before: (T, T) -> bool)
    requires Pairwise(xs, before)
    ensures Pairwise(StableSort(xs, key), Lex(key, before))
  {
    if xs != [] {
      SortIsLexicographic(xs[1..], key, before);
      SortPermutes(xs[1..], key);
      forall y | y in StableSort(xs[1..], key)
        ensures before(xs[0], y)
      {
        assert y in multiset(xs[1..]);
      }
      InsertKeepsOrder(xs[0], StableSort(xs[1..], key), key, before);
    }
  }

  lemma FirstAgrees<T(!new)>(xs: seq<T>, ys: seq<T>, before: (T, T) -> bool)
    requires multiset(xs) == multiset(ys) && Pairwise(xs, before) && Pairwise(ys, before)
    requires forall a, b :: before(a, b) ==> !before(b, a)
    requires xs != [] && ys != []
    ensures xs[0] == ys[0]
  {
    assert xs[0] in multiset(ys) && ys[0] in multiset(xs);
    var j :| 0 <= j < |ys| && ys[j] == xs[0];
    var i :| 0 <= i < |xs| && xs[i] == ys[0];
  }

  lemma TailElements<T>(xs: seq<T>)
    requires xs != []
    ensures multiset(xs[1..]) == multiset(xs) - multiset{xs[0]}
  {
    assert xs == [xs[0]] + xs[1..];
  }

  /** An asymmetric order lists a given collection in only one way. */
  lemma {:induction false} OrderedListUnique<T(!new)>(xs: seq<T>, ys: seq<T>, before: (T, T) -> bool)
    requires multiset(xs) == multiset(ys) && Pairwise(xs, before) && Pairwise(ys, before)
    requires forall a, b :: before(a, b) ==> !before(b, a)
    ensures xs == ys
  {
    assert |multiset(xs)| == |xs| && |multiset(ys)| == |ys|;
    if xs != [] {
      FirstAgrees(xs, ys, before);
      TailElements(xs);
      TailElements(ys);
      OrderedListUnique(xs[1..], ys[1..], before);
    }
  }

  function Filter<T(!new)>(xs: seq<T>, keep: T -> bool): (ys: seq<T>)
    ensures forall y :: y in ys <==> y in xs && keep(y)
  {
    if xs == [] then []
    else
      var rest := Filter(xs[..|xs| - 1], keep);
      var x := xs[|xs| - 1];
      assert xs == xs[..|xs| - 1] + [x];
      if keep(x) then rest + [x] else rest
  }

  lemma {:induction false} FilterAll<T(!new)>(xs: seq<T>, keep: T -> bool)
    requires forall x :: x in xs ==> keep(x)
    ensures Filter(xs, keep) == xs
    decreases |xs|
  {
    if xs != [] {
      FilterAll(xs[..|xs| - 1], keep);
      assert xs == xs[..|xs| - 1] + [xs[|xs| - 1]];
    }
  }

  lemma {:induction false} FilterKeepsOrder<T(!new)>(xs: seq<T>, keep: T -> bool, before: (T, T) -> bool)
    requires Pairwise(xs, before)
    ensures Pairwise(Filter(xs, keep), before)
  {
    if xs != [] {
      FilterKeepsOrder(xs[..|xs| - 1], keep, before);
      var rest := Filter(xs[..|xs| - 1], keep);
      forall i | 0 <= i < |rest|
        ensures before(rest[i], xs[|xs| - 1])
      {
        assert rest[i] in xs[..|xs| - 1];
      }
    }
  }
}
