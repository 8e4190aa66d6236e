/** Exactly when multiplying all routing weights by a positive factor changes the ranking a caller sees. */
module WeightScaling {
  import opened StableSorting
  import opened DecisionEngine
  import opened DecisionOrder

  /** The score of a row before the reinforcement bias. */
  function BaseScore(r: Ranked, w: Weights): real {
    w.cost * r.cost + w.latency * r.latency + w.quality * r.penalty
  }

  function Bias(nodeId: string, stats: map<string, RoutingStat>): real {
    if nodeId in stats && stats[nodeId].pulls >= 3 then stats[nodeId].meanReward * 0.1 else 0.0
  }

  lemma RowScore(pool: seq<Candidate>, p: Preferences, stats: map<string, RoutingStat>, r: Ranked)
    requires r in Scored(pool, p, stats)
    ensures r.score == BaseScore(r, NormalizedWeights(p)) - Bias(r.nodeId, stats)
  {
    var i :| 0 <= i < |pool| && Scored(pool, p, stats)[i] == r;
    RowScoreAt(pool[i], NormalizedWeights(p), i, stats);
  }

  lemma RowScoreAt(c: Candidate, w: Weights, position: nat, stats: map<string, RoutingStat>)
    ensures var r := Adjust(ScoreWith(c, w, position), stats); r.score == BaseScore(r, w) - Bias(r.nodeId, stats)
  {
  }

  /** Both rows of a candidate differ in their score only, by a multiple of its base score. */
  lemma RowScales(c: Candidate, w: Weights, k: real, position: nat, stats: map<string, RoutingStat>)
    ensures var r, s := Adjust(ScoreWith(c, w, position), stats), Adjust(ScoreWith(c, Scale(w, k), position), stats);
            s.(score := r.score) == r && (BaseScore(r, w) == 0.0 ==> s == r)
  {
    var r, s := Adjust(ScoreWith(c, w, position), stats), Adjust(ScoreWith(c, Scale(w, k), position), stats);
    RowScoreAt(c, w, position, stats);
    RowScoreAt(c, Scale(w, k), position, stats);
    BaseScales(r, s, w, k);
  }

  lemma BaseScales(r: Ranked, s: Ranked, w: Weights, k: real)
    requires s.cost == r.cost && s.latency == r.latency && s.penalty == r.penalty
    ensures BaseScore(s, Scale(w, k)) == k * BaseScore(r, w)
  {
    Distribute(k, w.cost, r.cost);
    Distribute(k, w.latency, r.latency);
    Distribute(k, w.quality, r.penalty);
    SumScales(k, w.cost * r.cost, w.latency * r.latency, w.quality * r.penalty);
  }

  lemma Distribute(k: real, a: real, b: real)
    ensures (k * a) * b == k * (a * b)
  {
  }

  lemma SumScales(k: real, a: real, b: real, c: real)
    ensures k * a + k * b + k * c == k * (a + b + c)
  {
  }

  lemma {:induction false} FilterCount<T(!new)>(xs: seq<T>, keep: T -> bool, x: T)
    ensures multiset(Filter(xs, keep))[x] == if keep(x) then multiset(xs)[x] else 0
    decreases |xs|
  {
    if xs != [] {
      FilterCount(xs[..|xs| - 1], keep, x);
      assert xs == xs[..|xs| - 1] + [xs[|xs| - 1]];
    }
  }

  lemma FilterPermutes<T(!new)>(xs: seq<T>, ys: seq<T>, keep: T -> bool)
    requires multiset(xs) == multiset(ys)
    ensures multiset(Filter(xs, keep)) == multiset(Filter(ys, keep))
  {
    forall x
      ensures multiset(Filter(xs, keep))[x] == multiset(Filter(ys, keep))[x]
    {
      FilterCount(xs, keep, x);
      FilterCount(ys, keep, x);
    }
  }

  lemma {:induction false} FilterPointwise<T(!new)>(xs: seq<T>, ys: seq<T>, keep: T -> bool)
    requires |xs| == |ys|
    requires forall i :: 0 <= i < |xs| ==> keep(xs[i]) == keep(ys[i]) && (keep(xs[i]) ==> xs[i] == ys[i])
    ensures Filter(xs, keep) == Filter(ys, keep)
    decreases |xs|
  {
    if xs != [] {
      FilterPointwise(xs[..|xs| - 1], ys[..|ys| - 1], keep);
    }
  }

  function Rescale(input: Input, k: real): Input {
    input.(preferences := Rescaled(input.preferences, k))
  }

  /** The rows of a scored pool, by candidate. */
  lemma ScoredScales(input: Input, k: real, i: nat)
    requires k > 0.0 && Total(RawWeights(input.preferences)) == 0.0 && i < |Pool(input)|
    ensures Pool(Rescale(input, k)) == Pool(input)
    ensures var w, stats := RawWeights(input.preferences), input.stats;
            var r := Scored(Pool(input), input.preferences, stats)[i];
            var s := Scored(Pool(input), Rescaled(input.preferences, k), stats)[i];
            s.(score := r.score) == r && (BaseScore(r, w) == 0.0 ==> s == r)
  {
    SamePool(input, k);
    CancelledWeights(input.preferences, k);
    RowScales(Pool(input)[i], RawWeights(input.preferences), k, i, input.stats);
  }

  lemma SamePool(input: Input, k: real)
    ensures Pool(Rescale(input, k)) == Pool(input)
  {
    var p, p' := input.preferences, Rescaled(input.preferences, k);
    FilterCongruent(input.candidates, c => Admissible(c, p), c => Admissible(c, p'));
  }

  lemma CancelledWeights(p: Preferences, k: real)
    requires Total(RawWeights(p)) == 0.0
    ensures NormalizedWeights(p) == RawWeights(p) && NormalizedWeights(Rescaled(p, k)) == Scale(RawWeights(p), k)
  {
    assert RawWeights(Rescaled(p, k)) == Scale(RawWeights(p), k);
    CancellingNormalized(RawWeights(p));
    ScaledTotal(RawWeights(p), k);
    CancellingNormalized(Scale(RawWeights(p), k));
  }

  /** No row a caller sees has a base score. */
  predicate BaseScoresVanish(input: Input) {
    forall r :: r in Ranking(input) ==> BaseScore(r, RawWeights(input.preferences)) == 0.0
  }

  lemma RankedIsScored(input: Input, r: Ranked)
    requires r in Ranking(input)
    ensures r in Scored(Pool(input), input.preferences, input.stats)
  {
    FullRankingIsLexicographic(input);
    assert r in FullRanking(input);
    assert r in multiset(FullRanking(input));
  }

  /** Rows without a base score are ranked as before, whatever happens to rows the budget hides. */
  lemma VanishingScoresKeepRanking(input: Input, k: real)
    requires k > 0.0 && Total(RawWeights(input.preferences)) == 0.0 && BaseScoresVanish(input)
    ensures Ranking(Rescale(input, k)) == Ranking(input)
  {
    var scored := Scored(Pool(input), input.preferences, input.stats);
    var scored' := Scored(Pool(input), Rescaled(input.preferences, k), input.stats);
    SamePool(input, k);
    FullRankingIsLexicographic(input);
    FullRankingIsLexicographic(Rescale(input, k));
    var keep := (r: Ranked) => input.limitUsd.None? || r.cost <= input.limitUsd.value;
    forall i | 0 <= i < |scored|
      ensures keep(scored[i]) == keep(scored'[i])
      ensures scored[i] in Ranking(input) ==> scored[i] == scored'[i]
    {
      ScoredScales(input, k, i);
    }
    if forall r :: r in FullRanking(input) ==> !keep(r) {
      AllHidden(input, k, scored, scored');
    } else {
      SomeKept(input, k, scored, scored', keep);
    }
  }

  lemma InFullRanking(input: Input, r: Ranked)
    ensures r in FullRanking(input) <==> r in Scored(Pool(input), input.preferences, input.stats)
  {
    FullRankingIsLexicographic(input);
    assert r in FullRanking(input) <==> r in multiset(FullRanking(input));
    var scored := Scored(Pool(input), input.preferences, input.stats);
    assert r in scored <==> r in multiset(scored);
  }

  lemma AllHidden(input: Input, k: real, scored: seq<Ranked>, scored': seq<Ranked>)
    requires scored == Scored(Pool(input), input.preferences, input.stats)
    requires scored' == Scored(Pool(input), Rescaled(input.preferences, k), input.stats)
    requires Pool(Rescale(input, k)) == Pool(input)
    requires forall r :: r in FullRanking(input) ==> input.limitUsd.Some? && r.cost > input.limitUsd.value
    requires forall i :: 0 <= i < |scored| ==> scored[i] in Ranking(input) ==> scored[i] == scored'[i]
    ensures Ranking(Rescale(input, k)) == Ranking(input)
  {
    BudgetKeepsOrder(input);
    forall i | 0 <= i < |scored|
      ensures scored[i] == scored'[i]
    {
      InFullRanking(input, scored[i]);
    }
    assert scored == scored';
  }

  lemma SomeKept(input: Input, k: real, scored: seq<Ranked>, scored': seq<Ranked>, keep: Ranked -> bool)
    requires scored == Scored(Pool(input), input.preferences, input.stats)
    requires scored' == Scored(Pool(input), Rescaled(input.preferences, k), input.stats)
    requires Pool(Rescale(input, k)) == Pool(input)
    requires forall r :: keep(r) == (input.limitUsd.None? || r.cost <= input.limitUsd.value)
    requires exists r :: r in FullRanking(input) && keep(r)
    requires forall i :: 0 <= i < |scored| ==> keep(scored[i]) == keep(scored'[i])
    requires forall i :: 0 <= i < |scored| ==> scored[i] in Ranking(input) ==> scored[i] == scored'[i]
    ensures Ranking(Rescale(input, k)) == Ranking(input)
  {
    var full, full' := FullRanking(input), FullRanking(Rescale(input, k));
    KeptRanking(input, keep);
    forall i | 0 <= i < |scored| && keep(scored[i])
      ensures scored[i] == scored'[i]
    {
      InFullRanking(input, scored[i]);
    }
    FilterPointwise(scored, scored', keep);
    FullRankingIsLexicographic(input);
    FullRankingIsLexicographic(Rescale(input, k));
    FilterPermutes(full, scored, keep);
    FilterPermutes(full', scored', keep);
    FilterKeepsOrder(full, keep, RankingOrder(input.strategy));
    FilterKeepsOrder(full', keep, RankingOrder(input.strategy));
    RankingOrderAsymmetric(input.strategy);
    OrderedListUnique(Filter(full', keep), Filter(full, keep), RankingOrder(input.strategy));
    var r :| r in full && keep(r);
    assert r in Filter(full', keep);
    KeptRanking(Rescale(input, k), keep);
  }

  /** With a row to keep, the ranking is what the budget keeps of the full ranking. */
  lemma KeptRanking(input: Input, keep: Ranked -> bool)
    requires forall r :: keep(r) == (input.limitUsd.None? || r.cost <= input.limitUsd.value)
    requires exists r :: r in FullRanking(input) && keep(r)
    ensures Ranking(input) == Filter(FullRanking(input), keep)
  {
    var full := FullRanking(input);
    if input.limitUsd.None? {
      FilterAll(full, keep);
    } else {
      FilterCongruent(full, keep, (r: Ranked) => r.cost <= input.limitUsd.value);
      var r :| r in full && keep(r);
      assert r in Filter(full, keep);
    }
  }

  /** A row with a base score shows a different score after rescaling, wherever it ends up. */
  lemma VisibleScoreChanges(input: Input, k: real, i: nat)
    requires k > 0.0 && k != 1.0 && Total(RawWeights(input.preferences)) == 0.0
    requires i < |Ranking(input)| && BaseScore(Ranking(input)[i], RawWeights(input.preferences)) != 0.0
    ensures Shown(Ranking(Rescale(input, k))) != Shown(Ranking(input))
  {
    var w, again := RawWeights(input.preferences), Ranking(Rescale(input, k));
    if Shown(again) == Shown(Ranking(input)) {
      var r, s := Ranking(input)[i], again[i];
      assert Shown(again)[i] == Shown(Ranking(input))[i];
      SameRow(r, s);
      SamePool(input, k);
      RankedIsScored(input, r);
      RankedIsScored(Rescale(input, k), s);
      CancelledWeights(input.preferences, k);
      RowScore(Pool(input), input.preferences, input.stats, r);
      RowScore(Pool(input), Rescaled(input.preferences, k), input.stats, s);
      BaseScales(r, s, w, k);
      SameScores(BaseScore(r, w), BaseScore(s, Scale(w, k)), Bias(r.nodeId, input.stats), k);
    }
  }

  lemma SameScores(b: real, b': real, bias: real, k: real)
    requires b' == k * b && b' - bias == b - bias
    ensures k == 1.0 || b == 0.0
  {
    SameMultiple(b, k);
  }

  lemma SameRow(r: Ranked, s: Ranked)
    requires r.(position := 0) == s.(position := 0)
    ensures s.cost == r.cost && s.latency == r.latency && s.penalty == r.penalty && s.nodeId == r.nodeId && s.score == r.score
  {
  }

  /**
   * Rescaling all weights leaves the ranking a caller sees alone exactly when the weights do not cancel, the factor
   * is one, or no visible row has a base score.
   */
  lemma RescalingRankingExactly(input: Input, k: real)
    requires k > 0.0
    ensures Shown(Ranking(Rescale(input, k))) == Shown(Ranking(input)) <==>
            Total(RawWeights(input.preferences)) != 0.0 || k == 1.0 || BaseScoresVanish(input)
  {
    if Total(RawWeights(input.preferences)) != 0.0 {
      RescalingKeepsRanking(input, k);
    } else if BaseScoresVanish(input) {
      VanishingScoresKeepRanking(input, k);
    } else if k == 1.0 {
      IdentityScale(input);
    } else {
      var r :| r in Ranking(input) && BaseScore(r, RawWeights(input.preferences)) != 0.0;
      var i :| 0 <= i < |Ranking(input)| && Ranking(input)[i] == r;
      VisibleScoreChanges(input, k, i);
    }
  }

  lemma IdentityScale(input: Input)
    ensures Ranking(Rescale(input, 1.0)) == Ranking(input)
  {
    var p, p' := input.preferences, Rescaled(input.preferences, 1.0);
    ScaleIsIdentity(RawWeights(p), 1.0);
    assert RawWeights(p') == RawWeights(p);
    SamePool(input, 1.0);
    ScoredByWeights(Pool(input), p, p', input.stats);
  }
}
