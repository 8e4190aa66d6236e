/** The meaning of a routing ranking, its replay, and the effect of rescaling the weights. */
module DecisionOrder {
  import opened Options
  import opened StableSorting
  import opened DecisionEngine

  function ByPosition(): (Ranked, Ranked) -> bool {
    (a: Ranked, b: Ranked) => a.position < b.position
  }

  /** Strategy key first, then adjusted score, then input position. */
  function RankingOrder(strategy: Strategy): (Ranked, Ranked) -> bool {
    Lex(StrategyKey(strategy), Lex(Score, ByPosition()))
  }

  /** Without the score in between: how a single stable sort breaks ties. */
  function ReplayOrder(strategy: Strategy): (Ranked, Ranked) -> bool {
    Lex(StrategyKey(strategy), ByPosition())
  }

  /** The order spelled out. */
  lemma RankingOrderMeans(strategy: Strategy, a: Ranked, b: Ranked)
    ensures RankingOrder(strategy)(a, b) <==>
            var x, y := StrategyKey(strategy)(a), StrategyKey(strategy)(b);
            x < y || (x == y && (a.score < b.score || (a.score == b.score && a.position < b.position)))
    ensures ReplayOrder(strategy)(a, b) <==>
            var x, y := StrategyKey(strategy)(a), StrategyKey(strategy)(b);
            x < y || (x == y && a.position < b.position)
  {
    var byScore := Lex(Score, ByPosition());
    assert byScore(a, b) <==> Score(a) < Score(b) || (Score(a) == Score(b) && ByPosition()(a, b));
    assert RankingOrder(strategy)(a, b) <==>
           StrategyKey(strategy)(a) < StrategyKey(strategy)(b)
           || (StrategyKey(strategy)(a) == StrategyKey(strategy)(b) && byScore(a, b));
  }

  lemma ScoredByPosition(pool: seq<Candidate>, p: Preferences, stats: map<string, RoutingStat>)
    ensures Pairwise(Scored(pool, p, stats), ByPosition())
  {
  }

  /** The full ranking is the scored pool in lexicographic order. */
  lemma FullRankingIsLexicographic(input: Input)
    ensures Pairwise(FullRanking(input), RankingOrder(input.strategy))
    ensures multiset(FullRanking(input)) == multiset(Scored(Pool(input), input.preferences, input.stats))
  {
    var scored := Scored(Pool(input), input.preferences, input.stats);
    ScoredByPosition(Pool(input), input.preferences, input.stats);
    SortIsLexicographic(scored, Score, ByPosition());
    SortPermutes(scored, Score);
    SortIsLexicographic(StableSort(scored, Score), StrategyKey(input.strategy), Lex(Score, ByPosition()));
    SortPermutes(StableSort(scored, Score), StrategyKey(input.strategy));
  }

  lemma RankingOrderAsymmetric(strategy: Strategy)
    ensures forall a, b :: RankingOrder(strategy)(a, b) ==> !RankingOrder(strategy)(b, a)
  {
    forall a, b | RankingOrder(strategy)(a, b)
      ensures !RankingOrder(strategy)(b, a)
    {
      RankingOrderMeans(strategy, a, b);
      RankingOrderMeans(strategy, b, a);
    }
  }

  /** No other arrangement of the scored pool is in that order. */
  lemma FullRankingIsUnique(input: Input, ranking: seq<Ranked>)
    requires multiset(ranking) == multiset(Scored(Pool(input), input.preferences, input.stats))
    requires Pairwise(ranking, RankingOrder(input.strategy))
    ensures ranking == FullRanking(input)
  {
    FullRankingIsLexicographic(input);
    RankingOrderAsymmetric(input.strategy);
    OrderedListUnique(ranking, FullRanking(input), RankingOrder(input.strategy));
  }

  /** The budget keeps the order and drops exactly the dearer rows, unless that would leave nothing. */
  lemma BudgetKeepsOrder(input: Input)
    ensures Pairwise(Ranking(input), RankingOrder(input.strategy))
    ensures input.limitUsd.None? || (forall r :: r in FullRanking(input) ==> r.cost > input.limitUsd.value) ==>
              Ranking(input) == FullRanking(input)
    ensures input.limitUsd.Some? && (exists r :: r in FullRanking(input) && r.cost <= input.limitUsd.value) ==>
              forall r :: r in Ranking(input) <==> r in FullRanking(input) && r.cost <= input.limitUsd.value
  {
    FullRankingIsLexicographic(input);
    if input.limitUsd.Some? {
      var full, keep := FullRanking(input), (r: Ranked) => r.cost <= input.limitUsd.value;
      FilterKeepsOrder(full, keep, RankingOrder(input.strategy));
      assert Filter(full, keep) != [] ==> Filter(full, keep)[0] in Filter(full, keep);
    }
  }

  lemma {:induction false} FilterCongruent<T(!new)>(xs: seq<T>, f: T -> bool, g: T -> bool)
    requires forall x :: x in xs ==> f(x) == g(x)
    ensures Filter(xs, f) == Filter(xs, g)
    decreases |xs|
  {
    if xs != [] {
      FilterCongruent(xs[..|xs| - 1], f, g);
    }
  }

  /** An earlier row ties a later one on the strategy key although the later one scores better. */
  ghost predicate TieAgainstScore(scored: seq<Ranked>, strategy: Strategy) {
    exists a, b :: a in scored && b in scored && a.position < b.position
                   && StrategyKey(strategy)(a) == StrategyKey(strategy)(b) && b.score < a.score
  }

  lemma ReplayIsLexicographic(candidates: seq<Candidate>, p: Preferences, strategy: Strategy)
    ensures Pairwise(ReplayRanking(candidates, p, strategy), ReplayOrder(strategy))
    ensures multiset(ReplayRanking(candidates, p, strategy)) == multiset(Scored(candidates, p, map[]))
  {
    ScoredByPosition(candidates, p, map[]);
    SortIsLexicographic(Scored(candidates, p, map[]), StrategyKey(strategy), ByPosition());
    SortPermutes(Scored(candidates, p, map[]), StrategyKey(strategy));
  }

  ghost predicate Plain(input: Input) {
    && input.preferences.minSuccessRate.None? && input.preferences.maxLatencyMs.None?
    && input.limitUsd.None? && input.stats == map[]
  }

  lemma PlainPool(input: Input)
    requires Plain(input)
    ensures Pool(input) == input.candidates
  {
    FilterAll(input.candidates, c => Admissible(c, input.preferences));
  }

  /** The rows as a caller sees them. */
  function Shown(rows: seq<Ranked>): seq<Ranked> {
    seq(|rows|, i requires 0 <= i < |rows| => rows[i].(position := 0))
  }

  lemma TieSeparates(scored: seq<Ranked>, strategy: Strategy, live: seq<Ranked>, replay: seq<Ranked>)
    requires multiset(replay) == multiset(scored) && TieAgainstScore(scored, strategy)
    requires Pairwise(replay, ReplayOrder(strategy)) && Pairwise(live, RankingOrder(strategy))
    ensures Shown(live) != Shown(replay)
  {
    var a, b :| a in scored && b in scored && a.position < b.position
                && StrategyKey(strategy)(a) == StrategyKey(strategy)(b) && b.score < a.score;
    assert a in multiset(replay) && b in multiset(replay);
    var i :| 0 <= i < |replay| && replay[i] == a;
    var j :| 0 <= j < |replay| && replay[j] == b;
    RankingOrderMeans(strategy, b, a);
    assert i < j;
    if Shown(live) == Shown(replay) {
      ShownOrder(strategy, live, replay, i, j);
    }
  }

  lemma ShownOrder(strategy: Strategy, live: seq<Ranked>, replay: seq<Ranked>, i: nat, j: nat)
    requires Shown(live) == Shown(replay) && i < j < |replay| && Pairwise(live, RankingOrder(strategy))
    ensures var x, y := StrategyKey(strategy)(replay[i]), StrategyKey(strategy)(replay[j]);
            x < y || (x == y && replay[i].score <= replay[j].score)
  {
    SameWhenShown(strategy, live, replay, i);
    SameWhenShown(strategy, live, replay, j);
    RankingOrderMeans(strategy, live[i], live[j]);
    assert RankingOrder(strategy)(live[i], live[j]);
  }

  lemma SameWhenShown(strategy: Strategy, live: seq<Ranked>, replay: seq<Ranked>, i: nat)
    requires Shown(live) == Shown(replay) && i < |replay|
    ensures i < |live| && live[i].score == replay[i].score && StrategyKey(strategy)(live[i]) == StrategyKey(strategy)(replay[i])
  {
    assert |Shown(live)| == |live| && Shown(live)[i] == Shown(replay)[i];
    assert live[i].(position := 0) == replay[i].(position := 0);
  }

  lemma NoTieRefines(scored: seq<Ranked>, strategy: Strategy, replay: seq<Ranked>)
    requires multiset(replay) == multiset(scored) && !TieAgainstScore(scored, strategy)
    requires Pairwise(replay, ReplayOrder(strategy))
    ensures Pairwise(replay, RankingOrder(strategy))
  {
    forall i, j | 0 <= i < j < |replay|
      ensures RankingOrder(strategy)(replay[i], replay[j])
    {
      var a, b := replay[i], replay[j];
      assert a in multiset(scored) && b in multiset(scored);
      RankingOrderMeans(strategy, a, b);
      assert ReplayOrder(strategy)(a, b);
    }
  }

  /**
   * With no constraints, stats or budget, the decision and its replay show the same ranking exactly when no tie
   * on the strategy key runs against the score.
   */
  lemma ReplayAgreesExactly(input: Input)
    requires Plain(input)
    ensures var replay := ReplayRanking(input.candidates, input.preferences, input.strategy);
            Shown(Ranking(input)) == Shown(replay) <==>
              !TieAgainstScore(Scored(input.candidates, input.preferences, map[]), input.strategy)
  {
    PlainPool(input);
    FullRankingIsLexicographic(input);
    ReplayIsLexicographic(input.candidates, input.preferences, input.strategy);
    var scored := Scored(input.candidates, input.preferences, map[]);
    if TieAgainstScore(scored, input.strategy) {
      TieSeparates(scored, input.strategy, FullRanking(input),
                   ReplayRanking(input.candidates, input.preferences, input.strategy));
    } else {
      NoTieReplays(input);
    }
  }

  lemma NoTieReplays(input: Input)
    requires Plain(input) && !TieAgainstScore(Scored(input.candidates, input.preferences, map[]), input.strategy)
    ensures Ranking(input) == ReplayRanking(input.candidates, input.preferences, input.strategy)
  {
    PlainPool(input);
    ReplayIsLexicographic(input.candidates, input.preferences, input.strategy);
    var replay := ReplayRanking(input.candidates, input.preferences, input.strategy);
    NoTieRefines(Scored(input.candidates, input.preferences, map[]), input.strategy, replay);
    FullRankingIsUnique(input, replay);
  }

  /** Two candidates of equal cost: the live decision prefers the faster one, the replay the one listed first. */
  lemma CheapestTieDiffers(slow: Candidate, fast: Candidate, input: Input)
    requires slow.avgCost == fast.avgCost == 1.0 && slow.avgLatencyMs == 10.0 && fast.avgLatencyMs == 0.0
    requires input == Input([slow, fast], Preferences(Some(0.0), Some(1.0), Some(0.0), None, None), None, map[], Cheapest)
    ensures Plain(input)
    ensures Shown(Ranking(input)) != Shown(ReplayRanking(input.candidates, input.preferences, Cheapest))
  {
    var p := input.preferences;
    LatencyOnly(p, slow, 0);
    LatencyOnly(p, fast, 1);
    var a, b := ScoreCandidate(slow, p, 0), ScoreCandidate(fast, p, 1);
    TwoScored(input.candidates, p, a, b);
    ReplayAgreesExactly(input);
  }

  lemma TwoScored(pool: seq<Candidate>, p: Preferences, a: Ranked, b: Ranked)
    requires |pool| == 2 && a == ScoreCandidate(pool[0], p, 0) && b == ScoreCandidate(pool[1], p, 1)
    requires a.cost == b.cost && b.score < a.score
    ensures TieAgainstScore(Scored(pool, p, map[]), Cheapest)
  {
    var scored := Scored(pool, p, map[]);
    assert scored[0] == a && scored[1] == b;
    assert a in scored && b in scored;
  }

  lemma LatencyOnly(p: Preferences, c: Candidate, position: nat)
    requires p.weightCost == Some(0.0) && p.weightLatency == Some(1.0) && p.weightQuality == Some(0.0)
    ensures ScoreCandidate(c, p, position).score == c.avgLatencyMs
  {
    QuotientUnique(0.0, 1.0, 0.0);
    QuotientUnique(1.0, 1.0, 1.0);
    assert NormalizedWeights(p) == Weights(0.0, 1.0, 0.0);
  }

  /** Under the scoring strategies no such tie exists, so replay always reproduces the ranking. */
  lemma DefaultStrategyReplays(input: Input)
    requires Plain(input) && input.strategy in {Auto, Balanced}
    ensures Ranking(input) == ReplayRanking(input.candidates, input.preferences, input.strategy)
  {
    NoTieReplays(input);
  }

  function Scale(w: Weights, k: real): Weights {
    Weights(k * w.cost, k * w.latency, k * w.quality)
  }

  /** All three weights, defaults included, multiplied by `k`. */
  function Rescaled(p: Preferences, k: real): Preferences {
    var w := Scale(RawWeights(p), k);
    p.(weightCost := Some(w.cost), weightLatency := Some(w.latency), weightQuality := Some(w.quality))
  }

  lemma QuotientUnique(x: real, y: real, q: real)
    requires y != 0.0 && x == q * y
    ensures x / y == q
  {
  }

  lemma QuotientScales(x: real, total: real, k: real, x': real, total': real)
    requires k > 0.0 && total != 0.0 && x' == k * x && total' == k * total
    ensures total' != 0.0 && x' / total' == x / total
  {
    var q := x / total;
    ProductNonZero(k, total);
    assert x == q * total;
    Regroup(k, q, total);
    QuotientUnique(x', total', q);
  }

  lemma Regroup(k: real, q: real, total: real)
    ensures k * (q * total) == q * (k * total)
  {
  }

  lemma NormalizedFields(w: Weights, s: Weights)
    requires Total(w) != 0.0 && Total(s) != 0.0
    requires s.cost / Total(s) == w.cost / Total(w) && s.latency / Total(s) == w.latency / Total(w)
    requires s.quality / Total(s) == w.quality / Total(w)
    ensures Normalize(s) == Normalize(w)
  {
  }

  lemma ScaleNormalized(w: Weights, k: real)
    requires k > 0.0 && Total(w) != 0.0
    ensures Normalize(Scale(w, k)) == Normalize(w)
  {
    var s := Scale(w, k);
    ScaleDistributes(w, k);
    QuotientScales(w.cost, Total(w), k, s.cost, Total(s));
    QuotientScales(w.latency, Total(w), k, s.latency, Total(s));
    QuotientScales(w.quality, Total(w), k, s.quality, Total(s));
    NormalizedFields(w, s);
  }

  lemma ScaleDistributes(w: Weights, k: real)
    ensures Total(Scale(w, k)) == k * Total(w)
  {
  }

  lemma ProductNonZero(x: real, y: real)
    requires x != 0.0 && y != 0.0
    ensures x * y != 0.0
  {
  }

  lemma CancellingNormalized(w: Weights)
    requires Total(w) == 0.0
    ensures Normalize(w) == w
  {
  }

  lemma ScaleIsIdentity(w: Weights, k: real)
    ensures Scale(w, k) == w <==> k == 1.0 || w == Weights(0.0, 0.0, 0.0)
  {
    SameMultiple(w.cost, k);
    SameMultiple(w.latency, k);
    SameMultiple(w.quality, k);
  }

  lemma ScaledTotal(w: Weights, k: real)
    requires Total(w) == 0.0
    ensures Total(Scale(w, k)) == 0.0
  {
    ScaleDistributes(w, k);
  }

  /** Rescaling leaves the normalised weights alone exactly when they have a non-zero total, vanish, or k is one. */
  lemma RescalingWeights(w: Weights, k: real)
    requires k > 0.0
    ensures Normalize(Scale(w, k)) == Normalize(w) <==> Total(w) != 0.0 || k == 1.0 || w == Weights(0.0, 0.0, 0.0)
  {
    if Total(w) != 0.0 {
      ScaleNormalized(w, k);
    } else {
      ScaledTotal(w, k);
      CancellingNormalized(w);
      CancellingNormalized(Scale(w, k));
      ScaleIsIdentity(w, k);
    }
  }

  lemma SameMultiple(x: real, k: real)
    ensures k * x == x <==> k == 1.0 || x == 0.0
  {
    assert k * x - x == (k - 1.0) * x;
  }

  lemma ScoredByWeights(pool: seq<Candidate>, p: Preferences, q: Preferences, stats: map<string, RoutingStat>)
    requires NormalizedWeights(p) == NormalizedWeights(q)
    ensures Scored(pool, p, stats) == Scored(pool, q, stats)
  {
    forall i | 0 <= i < |pool|
      ensures Scored(pool, p, stats)[i] == Scored(pool, q, stats)[i]
    {
      assert ScoreCandidate(pool[i], p, i) == ScoreCandidate(pool[i], q, i);
    }
  }

  /** With a non-zero total, rescaling all weights changes neither scores nor ranking. */
  lemma RescalingKeepsRanking(input: Input, k: real)
    requires k > 0.0 && Total(RawWeights(input.preferences)) != 0.0
    ensures Ranking(input.(preferences := Rescaled(input.preferences, k))) == Ranking(input)
  {
    var p, p' := input.preferences, Rescaled(input.preferences, k);
    RescalingWeights(RawWeights(p), k);
    assert RawWeights(p') == Scale(RawWeights(p), k);
    FilterCongruent(input.candidates, c => Admissible(c, p), c => Admissible(c, p'));
    ScoredByWeights(Pool(input), p, p', input.stats);
  }

  /** With weights that cancel, doubling them doubles the score of this candidate. */
  lemma CancellingWeightsRescale()
    ensures var c, w := Candidate("a", 1.0, 0.0, 1.0), Weights(1.0, -1.0, 0.0);
            ScoreWith(c, Normalize(w), 0).score == 1.0 && ScoreWith(c, Normalize(Scale(w, 2.0)), 0).score == 2.0
  {
    var w := Weights(1.0, -1.0, 0.0);
    assert Scale(w, 2.0) == Weights(2.0, -2.0, 0.0);
    CancellingNormalized(w);
    CancellingNormalized(Scale(w, 2.0));
  }
}
