/** What the ranking means in terms of the candidates: dominance, rewards, thresholds and default weights. */
module DecisionDominance {
  import opened StableSorting
  import opened DecisionEngine
  import opened DecisionOrder

  predicate UniqueNodes(cs: seq<Candidate>) {
    forall i, j :: 0 <= i < j < |cs| ==> cs[i].nodeId != cs[j].nodeId
  }

  predicate Biased(stats: map<string, RoutingStat>, nodeId: string) {
    nodeId in stats && stats[nodeId].pulls >= 3
  }

  predicate FairWeights(p: Preferences) {
    var w := RawWeights(p);
    w.cost >= 0.0 && w.latency >= 0.0 && w.quality >= 0.0 && w.cost + w.latency + w.quality > 0.0
  }

  /** At least as cheap, fast and reliable, and strictly better in a respect that carries weight. */
  predicate Dominates(a: Candidate, b: Candidate, p: Preferences) {
    var w := RawWeights(p);
    && a.avgCost <= b.avgCost && a.avgLatencyMs <= b.avgLatencyMs && a.successRate >= b.successRate
    && ((w.cost > 0.0 && a.avgCost < b.avgCost) || (w.latency > 0.0 && a.avgLatencyMs < b.avgLatencyMs)
        || (w.quality > 0.0 && a.successRate > b.successRate))
  }

  /** The weighted sum of cost, latency and failure rate. */
  function Penalty(w: Weights, c: Candidate): real {
    w.cost * c.avgCost + w.latency * c.avgLatencyMs + w.quality * (1.0 - c.successRate)
  }

  /** The row at a position is that of its candidate. */
  lemma RowAt(input: Input, i: nat)
    requires i < |Pool(input)|
    ensures var r, c := Scored(Pool(input), input.preferences, input.stats)[i], Pool(input)[i];
            && r.position == i && r.nodeId == c.nodeId && r.cost == c.avgCost && r.latency == c.avgLatencyMs
            && r.quality == c.successRate
            && r.score == Penalty(NormalizedWeights(input.preferences), c)
                          - (if Biased(input.stats, c.nodeId) then input.stats[c.nodeId].meanReward * 0.1 else 0.0)
  {
  }

  /** How much a weighted amount grows. */
  lemma Gap(w: real, x: real, y: real) returns (gap: real)
    requires w >= 0.0 && x <= y
    ensures gap >= 0.0 && w * y == w * x + gap
    ensures w > 0.0 && x < y ==> gap > 0.0
  {
    var d := y - x;
    Distributes(w, x, d);
    ProductSign(w, d);
    gap := w * d;
    assert y == x + d;
  }

  lemma Distributes(w: real, x: real, d: real)
    ensures w * (x + d) == w * x + w * d
  {
  }

  lemma ProductSign(x: real, y: real)
    requires x >= 0.0 && y >= 0.0
    ensures x * y >= 0.0
    ensures x > 0.0 && y > 0.0 ==> x * y > 0.0
  {
  }

  lemma QuotientSign(x: real, total: real)
    requires x >= 0.0 && total > 0.0
    ensures x / total >= 0.0 && (x > 0.0 ==> x / total > 0.0)
  {
  }

  lemma NormalizedSigns(p: Preferences)
    requires FairWeights(p)
    ensures var w, n := RawWeights(p), NormalizedWeights(p);
            && n.cost >= 0.0 && n.latency >= 0.0 && n.quality >= 0.0
            && (w.cost > 0.0 ==> n.cost > 0.0) && (w.latency > 0.0 ==> n.latency > 0.0) && (w.quality > 0.0 ==> n.quality > 0.0)
  {
    var w := RawWeights(p);
    var total := Total(w);
    QuotientSign(w.cost, total);
    QuotientSign(w.latency, total);
    QuotientSign(w.quality, total);
  }

  lemma DominanceScores(a: Candidate, b: Candidate, p: Preferences)
    requires FairWeights(p) && Dominates(a, b, p)
    ensures Penalty(NormalizedWeights(p), a) < Penalty(NormalizedWeights(p), b)
  {
    NormalizedSigns(p);
    PenaltyRises(NormalizedWeights(p), a, b);
  }

  lemma PenaltyRises(n: Weights, a: Candidate, b: Candidate)
    requires n.cost >= 0.0 && n.latency >= 0.0 && n.quality >= 0.0
    requires a.avgCost <= b.avgCost && a.avgLatencyMs <= b.avgLatencyMs && a.successRate >= b.successRate
    requires (n.cost > 0.0 && a.avgCost < b.avgCost) || (n.latency > 0.0 && a.avgLatencyMs < b.avgLatencyMs)
             || (n.quality > 0.0 && a.successRate > b.successRate)
    ensures Penalty(n, a) < Penalty(n, b)
  {
    WeightedRise(n, a.avgCost, b.avgCost, a.avgLatencyMs, b.avgLatencyMs, 1.0 - a.successRate, 1.0 - b.successRate);
  }

  lemma WeightedRise(n: Weights, x: real, x': real, y: real, y': real, z: real, z': real)
    requires n.cost >= 0.0 && n.latency >= 0.0 && n.quality >= 0.0 && x <= x' && y <= y' && z <= z'
    requires (n.cost > 0.0 && x < x') || (n.latency > 0.0 && y < y') || (n.quality > 0.0 && z < z')
    ensures n.cost * x + n.latency * y + n.quality * z < n.cost * x' + n.latency * y' + n.quality * z'
  {
    var p := Gap(n.cost, x, x');
    var q := Gap(n.latency, y, y');
    var r := Gap(n.quality, z, z');
    assert p + q + r > 0.0;
  }

  /** Whether the budget shows a row depends on costs alone. */
  predicate Shows(input: Input, cost: real) {
    || input.limitUsd.None? || cost <= input.limitUsd.value
    || forall c :: c in Pool(input) ==> c.avgCost > input.limitUsd.value
  }

  lemma InFull(input: Input, r: Ranked)
    ensures r in FullRanking(input) <==> r in Scored(Pool(input), input.preferences, input.stats)
  {
    var scored := Scored(Pool(input), input.preferences, input.stats);
    FullRankingIsLexicographic(input);
    assert r in FullRanking(input) <==> r in multiset(FullRanking(input));
    assert r in scored <==> r in multiset(scored);
  }

  lemma RankedExactly(input: Input, r: Ranked)
    ensures r in Ranking(input) <==>
              r in Scored(Pool(input), input.preferences, input.stats) && Shows(input, r.cost)
  {
    BudgetKeepsOrder(input);
    InFull(input, r);
    if input.limitUsd.Some? {
      CostsOfRanked(input, input.limitUsd.value);
    }
  }

  lemma CostsOfRanked(input: Input, limit: real)
    ensures (exists r :: r in FullRanking(input) && r.cost <= limit) <==> (exists c :: c in Pool(input) && c.avgCost <= limit)
  {
    var scored := Scored(Pool(input), input.preferences, input.stats);
    if r :| r in FullRanking(input) && r.cost <= limit {
      InFull(input, r);
      var i := RowIndex(input, r);
      RowAt(input, i);
      assert Pool(input)[i] in Pool(input);
    }
    if c :| c in Pool(input) && c.avgCost <= limit {
      var i :| 0 <= i < |Pool(input)| && Pool(input)[i] == c;
      RowAt(input, i);
      InFull(input, scored[i]);
    }
  }

  /** Two rows of a ranking stand in its order. */
  lemma StandsBefore(input: Input, r: Ranked, s: Ranked, j: nat)
    requires r in Ranking(input) && j < |Ranking(input)| && Ranking(input)[j] == s && RankingOrder(input.strategy)(r, s)
    ensures exists i :: 0 <= i < j && Ranking(input)[i] == r
  {
    BudgetKeepsOrder(input);
    var i :| 0 <= i < |Ranking(input)| && Ranking(input)[i] == r;
    assert j < i ==> RankingOrder(input.strategy)(Ranking(input)[j], Ranking(input)[i]);
    RankingOrderMeans(input.strategy, r, s);
    RankingOrderMeans(input.strategy, s, r);
  }

  lemma CandidateOfRow(input: Input, r: Ranked, c: Candidate) returns (i: nat)
    requires UniqueNodes(input.candidates) && c in input.candidates
    requires r in Scored(Pool(input), input.preferences, input.stats) && r.nodeId == c.nodeId
    ensures i < |Pool(input)| && Pool(input)[i] == c && Scored(Pool(input), input.preferences, input.stats)[i] == r
  {
    i :| 0 <= i < |Pool(input)| && Scored(Pool(input), input.preferences, input.stats)[i] == r;
    RowAt(input, i);
    PoolMeans(input, Pool(input)[i]);
    var k :| 0 <= k < |input.candidates| && input.candidates[k] == Pool(input)[i];
    var l :| 0 <= l < |input.candidates| && input.candidates[l] == c;
  }

  /** A success rate above one is a percentage. */
  predicate Meets(c: Candidate, p: Preferences) {
    && (p.minSuccessRate.None?
        || (p.minSuccessRate.value <= 1.0 && c.successRate >= p.minSuccessRate.value)
        || (p.minSuccessRate.value > 1.0 && 100.0 * c.successRate >= p.minSuccessRate.value))
    && (p.maxLatencyMs.None? || c.avgLatencyMs <= p.maxLatencyMs.value)
  }

  lemma Percentage(rate: real, percent: real)
    ensures rate >= percent / 100.0 <==> 100.0 * rate >= percent
  {
  }

  /** Only candidates that meet the constraints are ranked, unless none does. */
  lemma PoolMeans(input: Input, c: Candidate)
    ensures c in Pool(input) <==>
              c in input.candidates && (Meets(c, input.preferences) || forall d :: d in input.candidates ==> !Meets(d, input.preferences))
  {
    forall d: Candidate
      ensures Admissible(d, input.preferences) <==> Meets(d, input.preferences)
    {
      if input.preferences.minSuccessRate.Some? {
        Percentage(d.successRate, input.preferences.minSuccessRate.value);
      }
    }
    var constrained := Filter(input.candidates, c => Admissible(c, input.preferences));
    assert constrained != [] ==> constrained[0] in constrained;
  }

  /**
   * Under the default strategies, with weights that are not negative and no reward on either, a candidate stands
   * before every ranked candidate it dominates.
   */
  lemma DominatingStandsBefore(input: Input, better: Candidate, worse: Candidate, j: nat) returns (i: nat)
    requires input.strategy in {Auto, Balanced} && UniqueNodes(input.candidates) && FairWeights(input.preferences)
    requires better in input.candidates && worse in input.candidates && Dominates(better, worse, input.preferences)
    requires !Biased(input.stats, better.nodeId) && !Biased(input.stats, worse.nodeId)
    requires j < |Ranking(input)| && Ranking(input)[j].nodeId == worse.nodeId
    ensures i < j && Ranking(input)[i].nodeId == better.nodeId
  {
    var scored, s := Scored(Pool(input), input.preferences, input.stats), Ranking(input)[j];
    RankedExactly(input, s);
    var k := CandidateOfRow(input, s, worse);
    PoolMeans(input, worse);
    PoolMeans(input, better);
    var l :| 0 <= l < |Pool(input)| && Pool(input)[l] == better;
    RowAt(input, k);
    RowAt(input, l);
    DominanceScores(better, worse, input.preferences);
    RankedExactly(input, scored[l]);
    RankingOrderMeans(input.strategy, scored[l], s);
    StandsBefore(input, scored[l], s, j);
    i :| 0 <= i < j && Ranking(input)[i] == scored[l];
  }

  /** So a dominated candidate is never chosen. */
  lemma ChosenIsUndominated(input: Input, better: Candidate, worse: Candidate)
    requires input.strategy in {Auto, Balanced} && UniqueNodes(input.candidates) && FairWeights(input.preferences)
    requires better in input.candidates && worse in input.candidates && Dominates(better, worse, input.preferences)
    requires !Biased(input.stats, better.nodeId) && !Biased(input.stats, worse.nodeId)
    ensures Ranking(input) != [] ==> Ranking(input)[0].nodeId != worse.nodeId
  {
    if Ranking(input) != [] && Ranking(input)[0].nodeId == worse.nodeId {
      var i := DominatingStandsBefore(input, better, worse, 0);
    }
  }

  function Rewarded(input: Input, nodeId: string, stat: RoutingStat): Input {
    input.(stats := input.stats[nodeId := stat])
  }

  /** Under any strategy, a reward from three or more pulls never moves a row back. */
  lemma RewardNeverHurts(input: Input, nodeId: string, stat: RoutingStat, i: nat, j: nat) returns (k: nat, l: nat)
    requires !Biased(input.stats, nodeId) && stat.pulls >= 3 && stat.meanReward >= 0.0
    requires i < j < |Ranking(input)| && Ranking(input)[i].nodeId == nodeId && Ranking(input)[j].nodeId != nodeId
    ensures var after := Ranking(Rewarded(input, nodeId, stat));
            && k < l < |after| && after[k].nodeId == nodeId && after[k].position == Ranking(input)[i].position
            && after[l] == Ranking(input)[j]
  {
    var again := Rewarded(input, nodeId, stat);
    var r, s := Ranking(input)[i], Ranking(input)[j];
    var scored := Scored(Pool(again), again.preferences, again.stats);
    RankedExactly(input, r);
    RankedExactly(input, s);
    var x := RowIndex(input, r);
    var y := RowIndex(input, s);
    RowAt(input, x);
    RowAt(input, y);
    RowAt(again, x);
    RowAt(again, y);
    SameOtherwise(input, nodeId, stat, y);
    BudgetKeepsOrder(input);
    assert RankingOrder(input.strategy)(r, s);
    RankingOrderMeans(input.strategy, r, s);
    RankingOrderMeans(input.strategy, scored[x], scored[y]);
    RankedExactly(again, scored[x]);
    RankedExactly(again, scored[y]);
    l :| 0 <= l < |Ranking(again)| && Ranking(again)[l] == scored[y];
    StandsBefore(again, scored[x], scored[y], l);
    k :| 0 <= k < l && Ranking(again)[k] == scored[x];
  }

  lemma RowIndex(input: Input, r: Ranked) returns (i: nat)
    requires r in Scored(Pool(input), input.preferences, input.stats)
    ensures i < |Pool(input)| && Scored(Pool(input), input.preferences, input.stats)[i] == r
  {
    i :| 0 <= i < |Pool(input)| && Scored(Pool(input), input.preferences, input.stats)[i] == r;
  }

  lemma SameOtherwise(input: Input, nodeId: string, stat: RoutingStat, i: nat)
    requires i < |Pool(input)| && Pool(input)[i].nodeId != nodeId
    ensures var again := Rewarded(input, nodeId, stat);
            Pool(again) == Pool(input)
            && Scored(Pool(again), again.preferences, again.stats)[i] == Scored(Pool(input), input.preferences, input.stats)[i]
  {
  }

  /** Without preferences cost and latency carry two fifths each, quality one fifth. */
  lemma DefaultWeights(p: Preferences)
    requires p.weightCost.None? && p.weightLatency.None? && p.weightQuality.None?
    ensures NormalizedWeights(p) == Weights(0.4, 0.4, 0.2)
  {
  }
}
