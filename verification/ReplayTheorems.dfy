/** What a projected replay decides, and why the order of its evidence is irrelevant. */
module ReplayTheorems {
  import opened Sequences
  import opened StableSorting
  import opened ExperienceContract
  import opened ExperienceReplay

  // ----- the order of eligible candidates

  lemma {:induction false} PlaceElements(c: Candidate, cs: seq<Candidate>)
    ensures multiset(Place(c, cs)) == multiset(cs) + multiset{c}
    decreases |cs|
  {
    if cs != [] && !Before(c, cs[0]) {
      PlaceElements(c, cs[1..]);
      assert cs == [cs[0]] + cs[1..];
    }
  }

  lemma {:induction false} ArrangePermutes(cs: seq<Candidate>)
    ensures multiset(Arrange(cs)) == multiset(cs)
    decreases |cs|
  {
    if cs != [] {
      var rest := cs[..|cs| - 1];
      ArrangePermutes(rest);
      PlaceElements(cs[|cs| - 1], Arrange(rest));
      assert cs == rest + [cs[|cs| - 1]];
    }
  }

  lemma BeforeIsOrder(a: Candidate, b: Candidate, c: Candidate)
    ensures Before(a, b) ==> !Before(b, a)
    ensures a.id != b.id ==> Before(a, b) || Before(b, a)
    ensures Before(a, b) && Before(b, c) ==> Before(a, c)
  {
    LessTotal(a.id, b.id);
    if Less(b.id, a.id) && Less(c.id, b.id) {
      LessTransitive(c.id, b.id, a.id);
    }
  }

  lemma {:induction false} PlaceKeepsOrder(c: Candidate, cs: seq<Candidate>)
    requires Pairwise(cs, Before) && forall d :: d in cs ==> d.id != c.id
    ensures Pairwise(Place(c, cs), Before)
    decreases |cs|
  {
    if cs != [] {
      if Before(c, cs[0]) {
        forall d | d in cs
          ensures Before(c, d)
        {
          BeforeIsOrder(c, cs[0], d);
        }
        Prepend(c, cs);
      } else {
        BeforeIsOrder(c, cs[0], c);
        BeforeIsOrder(cs[0], c, c);
        var rest := Place(c, cs[1..]);
        PlaceKeepsOrder(c, cs[1..]);
        PlaceElements(c, cs[1..]);
        forall d | d in rest
          ensures Before(cs[0], d)
        {
          assert d in multiset(rest);
        }
        Prepend(cs[0], rest);
      }
    }
  }

  lemma Prepend(c: Candidate, cs: seq<Candidate>)
    requires Pairwise(cs, Before) && forall d :: d in cs ==> Before(c, d)
    ensures Pairwise([c] + cs, Before)
  {
  }

  lemma {:induction false} ArrangeOrders(cs: seq<Candidate>)
    requires DistinctIds(cs)
    ensures Pairwise(Arrange(cs), Before)
    decreases |cs|
  {
    if cs != [] {
      var rest, c := cs[..|cs| - 1], cs[|cs| - 1];
      ArrangeOrders(rest);
      ArrangePermutes(rest);
      forall d | d in Arrange(rest)
        ensures d.id != c.id
      {
        assert d in multiset(rest);
        var i :| 0 <= i < |rest| && rest[i] == d;
      }
      PlaceKeepsOrder(c, Arrange(rest));
    }
  }

  lemma ArrangeIgnoresOrder(xs: seq<Candidate>, ys: seq<Candidate>)
    requires multiset(xs) == multiset(ys) && DistinctIds(xs) && DistinctIds(ys)
    ensures Arrange(xs) == Arrange(ys)
  {
    ArrangePermutes(xs);
    ArrangePermutes(ys);
    ArrangeOrders(xs);
    ArrangeOrders(ys);
    forall a, b | Before(a, b)
      ensures !Before(b, a)
    {
      BeforeIsOrder(a, b, b);
    }
    OrderedListUnique(Arrange(xs), Arrange(ys), Before);
  }

  // ----- the entries that qualify

  lemma {:induction false} MapFilterConcat<T, U>(a: seq<T>, b: seq<T>, keep: T -> bool, f: T -> U)
    ensures MapFilter(a + b, keep, f) == MapFilter(a, keep, f) + MapFilter(b, keep, f)
    decreases |b|
  {
    if b == [] {
      assert a + b == a;
    } else {
      assert (a + b)[..|a + b| - 1] == a + b[..|b| - 1];
      MapFilterConcat(a, b[..|b| - 1], keep, f);
    }
  }

  lemma MapFilterMiddle<T, U>(a: seq<T>, b: seq<T>, c: seq<T>, keep: T -> bool, f: T -> U)
    ensures multiset(MapFilter(a + b + c, keep, f)) == multiset(MapFilter(a + c, keep, f)) + multiset(MapFilter(b, keep, f))
  {
    MapFilterConcat(a + b, c, keep, f);
    MapFilterConcat(a, b, keep, f);
    MapFilterConcat(a, c, keep, f);
    MiddleMoves(MapFilter(a, keep, f), MapFilter(b, keep, f), MapFilter(c, keep, f));
  }

  lemma MapFilterRemove<T, U>(xs: seq<T>, j: nat, keep: T -> bool, f: T -> U)
    requires j < |xs|
    ensures multiset(MapFilter(xs, keep, f)) ==
            multiset(MapFilter(xs[..j] + xs[j + 1..], keep, f)) + multiset(MapFilter([xs[j]], keep, f))
  {
    assert xs == xs[..j] + [xs[j]] + xs[j + 1..];
    MapFilterMiddle(xs[..j], [xs[j]], xs[j + 1..], keep, f);
  }

  lemma RemovedAlike<T, U>(xs: seq<T>, ys: seq<T>, j: nat, keep: T -> bool, f: T -> U)
    requires xs != [] && j < |ys| && ys[j] == xs[0]
    requires multiset(MapFilter(xs[..0] + xs[1..], keep, f)) == multiset(MapFilter(ys[..j] + ys[j + 1..], keep, f))
    ensures multiset(MapFilter(xs, keep, f)) == multiset(MapFilter(ys, keep, f))
  {
    MapFilterRemove(xs, 0, keep, f);
    MapFilterRemove(ys, j, keep, f);
  }

  lemma {:induction false} MapFilterPermutes<T, U>(xs: seq<T>, ys: seq<T>, keep: T -> bool, f: T -> U)
    requires multiset(xs) == multiset(ys)
    ensures multiset(MapFilter(xs, keep, f)) == multiset(MapFilter(ys, keep, f))
    decreases |xs|
  {
    assert |multiset(xs)| == |xs| && |multiset(ys)| == |ys|;
    if xs != [] {
      assert xs[0] in multiset(ys);
      var j :| 0 <= j < |ys| && ys[j] == xs[0];
      var xs', ys' := xs[..0] + xs[1..], ys[..j] + ys[j + 1..];
      RemoveOne(xs, 0);
      RemoveOne(ys, j);
      MapFilterPermutes(xs', ys', keep, f);
      RemovedAlike(xs, ys, j, keep, f);
    }
  }

  lemma {:induction false} MapFilterOrigins<T, U>(xs: seq<T>, keep: T -> bool, f: T -> U, y: U) returns (i: nat)
    requires y in MapFilter(xs, keep, f)
    ensures i < |xs| && keep(xs[i]) && f(xs[i]) == y
    decreases |xs|
  {
    var k := |xs| - 1;
    if keep(xs[k]) && f(xs[k]) == y {
      i := k;
    } else {
      i := MapFilterOrigins(xs[..k], keep, f, y);
    }
  }

  lemma SelectedMatch(env: Env, r: Request, h: seq<Entry>, c: Candidate)
    requires c in SelectedCandidates(env, r, h)
    ensures Matching(env, r, c)
  {
    var i := MapFilterOrigins(h, Qualifies(env, r), Snapshot(r), c);
    assert Selected(env, r, h[i]);
  }

  lemma {:induction false} SelectedDistinct(env: Env, r: Request, h: seq<Entry>)
    requires DistinctKeys(h, EntryId)
    ensures DistinctIds(SelectedCandidates(env, r, h))
    decreases |h|
  {
    if h != [] {
      var k := |h| - 1;
      var rest := SelectedCandidates(env, r, h[..k]);
      SelectedDistinct(env, r, h[..k]);
      forall c | c in rest
        ensures c.id != EntryId(h[k])
      {
        var i := MapFilterOrigins(h[..k], Qualifies(env, r), Snapshot(r), c);
        assert EntryId(h[i]) != EntryId(h[k]);
      }
    }
  }

  ghost predicate OnlyAt<T(!new)>(xs: seq<T>, keep: T -> bool, i: nat) {
    i < |xs| && keep(xs[i]) && forall j :: 0 <= j < |xs| && j != i ==> !keep(xs[j])
  }

  lemma {:induction false} FilterNone<T(!new)>(xs: seq<T>, keep: T -> bool)
    ensures Filter(xs, keep) == [] <==> forall j :: 0 <= j < |xs| ==> !keep(xs[j])
    decreases |xs|
  {
    if xs != [] {
      var rest := xs[..|xs| - 1];
      FilterNone(rest, keep);
      assert forall j :: 0 <= j < |rest| ==> rest[j] == xs[j];
    }
  }

  lemma {:induction false} FilterOne<T(!new)>(xs: seq<T>, keep: T -> bool)
    ensures |Filter(xs, keep)| == 1 <==> exists i :: OnlyAt(xs, keep, i)
    decreases |xs|
  {
    if xs != [] {
      var k := |xs| - 1;
      var rest := xs[..k];
      assert forall j :: 0 <= j < k ==> rest[j] == xs[j];
      if keep(xs[k]) {
        FilterNone(rest, keep);
        assert Filter(rest, keep) == [] <==> OnlyAt(xs, keep, k);
        assert forall i :: OnlyAt(xs, keep, i) ==> i == k;
      } else {
        FilterOne(rest, keep);
        assert forall i :: OnlyAt(xs, keep, i) <==> OnlyAt(rest, keep, i);
      }
    }
  }

  lemma {:induction false} MapFilterSize<T(!new), U>(xs: seq<T>, keep: T -> bool, f: T -> U)
    ensures |MapFilter(xs, keep, f)| == |Filter(xs, keep)|
    decreases |xs|
  {
    if xs != [] {
      MapFilterSize(xs[..|xs| - 1], keep, f);
    }
  }

  /** Exactly one entry of the history is eligible and carries the brief's key. */
  ghost predicate ExactlyOne(env: Env, r: Request, h: seq<Entry>) {
    exists i :: OnlyAt(h, Qualifies(env, r), i)
  }

  lemma OneSelected(env: Env, r: Request, h: seq<Entry>)
    ensures |SelectedCandidates(env, r, h)| == 1 <==> ExactlyOne(env, r, h)
  {
    MapFilterSize(h, Qualifies(env, r), Snapshot(r));
    FilterOne(h, Qualifies(env, r));
  }

  // ----- the theorems

  /** Every projected candidate matches, so the matches are as many as the candidates. */
  lemma ProjectedMatches(env: Env, r: Request, h: seq<Entry>, consent: seq<Consent>)
    ensures var q := Projected(env, r, h, consent); Matches(env, q) == q.candidates
  {
    var q := Projected(env, r, h, consent);
    var eligible := SelectedCandidates(env, r, h);
    ArrangePermutes(eligible);
    forall c | c in q.candidates
      ensures Matching(env, q, c)
    {
      assert c in Arrange(eligible);
      assert c in multiset(Arrange(eligible)) && c in multiset(eligible);
      SelectedMatch(env, r, h, c);
    }
    FilterAll(q.candidates, c => Matching(env, q, c));
  }

  /**
   * After projection, reuse or adaptation is decided exactly when the intent is complete and not canonical,
   * the edits are supported, the latest tenant consent is enabled, and exactly one history entry qualifies.
   */
  lemma ReplayDecidesExactly(env: Env, r: Request, h: seq<Entry>, consent: seq<Consent>)
    ensures RequiredDecision(env, Projected(env, r, h, consent)).mode in {Reuse, Adapt} <==>
              CompleteIntent(r) && !r.canonicalRecipe && SupportedEdits(env, r.edits)
              && ConsentGiven(r, consent) && ExactlyOne(env, r, h)
  {
    var q := Projected(env, r, h, consent);
    ProjectedMatches(env, r, h, consent);
    OneSelected(env, r, h);
    ArrangePermutes(SelectedCandidates(env, r, h));
    assert |multiset(Arrange(SelectedCandidates(env, r, h)))| == |multiset(SelectedCandidates(env, r, h))|;
    ReuseExactly(env, q);
  }

  lemma ValidHistoryPermutes(env: Env, r: Request, h: seq<Entry>, h': seq<Entry>)
    requires multiset(h) == multiset(h') && ValidHistory(env, r, h)
    ensures ValidHistory(env, r, h')
  {
    DistinctPermutes(h, h', EntryId);
    assert |multiset(h)| == |h| && |multiset(h')| == |h'|;
    forall e | e in h'
      ensures ValidEntry(env, r, e)
    {
      assert e in multiset(h);
    }
  }

  lemma ConsentPermutes(env: Env, r: Request, c: seq<Consent>, c': seq<Consent>)
    requires multiset(c) == multiset(c')
    ensures ValidConsent(env, c) <==> ValidConsent(env, c')
    ensures ConsentGiven(r, c) <==> ConsentGiven(r, c')
  {
    DistinctPermutes(c, c', ConsentKey);
    assert |multiset(c)| == |c| && |multiset(c')| == |c'|;
    assert forall x :: x in c <==> x in multiset(c);
    assert forall x :: x in c' <==> x in multiset(c');
  }

  /** Reordering history or consent changes neither acceptance nor the projected request. */
  lemma ReplayIgnoresOrder(env: Env, r: Request, h: seq<Entry>, c: seq<Consent>, h': seq<Entry>, c': seq<Consent>)
    requires multiset(h) == multiset(h') && multiset(c) == multiset(c')
    ensures Projectable(env, r, h, c) <==> Projectable(env, r, h', c')
    ensures Projectable(env, r, h, c) ==> Projected(env, r, h, c) == Projected(env, r, h', c')
  {
    ConsentPermutes(env, r, c, c');
    if ValidHistory(env, r, h) {
      ValidHistoryPermutes(env, r, h, h');
      SameProjection(env, r, h, c, h', c');
    } else if ValidHistory(env, r, h') {
      ValidHistoryPermutes(env, r, h', h);
    }
  }

  lemma SameProjection(env: Env, r: Request, h: seq<Entry>, c: seq<Consent>, h': seq<Entry>, c': seq<Consent>)
    requires multiset(h) == multiset(h') && multiset(c) == multiset(c')
    requires ValidHistory(env, r, h) && ValidHistory(env, r, h')
    ensures Projected(env, r, h, c) == Projected(env, r, h', c')
  {
    var xs, ys := SelectedCandidates(env, r, h), SelectedCandidates(env, r, h');
    ConsentPermutes(env, r, c, c');
    MapFilterPermutes(h, h', Qualifies(env, r), Snapshot(r));
    SelectedDistinct(env, r, h);
    SelectedDistinct(env, r, h');
    ArrangeIgnoresOrder(xs, ys);
    assert |multiset(xs)| == |xs| && |multiset(ys)| == |ys|;
  }
}
