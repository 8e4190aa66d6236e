/** Deterministic routing decisions and their replay: constraints, scores, stable sorting and the budget. */
module DecisionEngine {
  import opened Options
  import opened StableSorting

  datatype Candidate = Candidate(nodeId: string, avgCost: real, avgLatencyMs: real, successRate: real)

  datatype Preferences = Preferences(weightCost: Option<real>, weightLatency: Option<real>, weightQuality: Option<real>,
                                     minSuccessRate: Option<real>, maxLatencyMs: Option<real>)

  datatype RoutingStat = RoutingStat(pulls: int, meanReward: real)

  /** An unknown strategy name behaves as Auto. */
  datatype Strategy = Auto | Cheapest | Fastest | Balanced

  datatype Input = Input(candidates: seq<Candidate>, preferences: Preferences, limitUsd: Option<real>,
                         stats: map<string, RoutingStat>, strategy: Strategy)

  /** `position` is where the candidate stood in the scored pool; it only serves to state stability. */
  datatype Ranked = Ranked(nodeId: string, score: real, cost: real, latency: real, quality: real, penalty: real,
                           position: nat)

  datatype Weights = Weights(cost: real, latency: real, quality: real)

  datatype Output = Output(chosen: Option<string>, confidence: real, ranking: seq<Ranked>)

  datatype Alternative = Alternative(nodeId: string, scoreDelta: real, costDelta: real, latencyDelta: real, qualityDelta: real)

  datatype ReplayResult = ReplayResult(chosen: Option<Ranked>, best: Option<Ranked>, ranking: seq<Ranked>,
                                       alternatives: seq<Alternative>)

  function RawWeights(p: Preferences): Weights {
    Weights(if p.weightCost.Some? then p.weightCost.value else 40.0,
            if p.weightLatency.Some? then p.weightLatency.value else 40.0,
            if p.weightQuality.Some? then p.weightQuality.value else 20.0)
  }

  function Total(w: Weights): real {
    w.cost + w.latency + w.quality
  }

  function Normalize(w: Weights): Weights {
    var total := if Total(w) == 0.0 then 1.0 else Total(w);
    Weights(w.cost / total, w.latency / total, w.quality / total)
  }

  function NormalizedWeights(p: Preferences): Weights {
    Normalize(RawWeights(p))
  }

  function ScoreWith(c: Candidate, w: Weights, position: nat): Ranked {
    var penalty := 1.0 - c.successRate;
    Ranked(c.nodeId, w.cost * c.avgCost + w.latency * c.avgLatencyMs + w.quality * penalty,
           c.avgCost, c.avgLatencyMs, c.successRate, penalty, position)
  }

  function ScoreCandidate(c: Candidate, p: Preferences, position: nat): Ranked {
    ScoreWith(c, NormalizedWeights(p), position)
  }

  /** The bounded reinforcement bias: at least three observations lower the score by a tenth of the reward. */
  function Adjust(r: Ranked, stats: map<string, RoutingStat>): Ranked {
    if r.nodeId in stats && stats[r.nodeId].pulls >= 3
    then r.(score := r.score - stats[r.nodeId].meanReward * 0.1) else r
  }

  predicate Admissible(c: Candidate, p: Preferences) {
    && (p.minSuccessRate.Some? ==>
          var t := p.minSuccessRate.value;
          c.successRate >= if t > 1.0 then t / 100.0 else t)
    && (p.maxLatencyMs.Some? ==> c.avgLatencyMs <= p.maxLatencyMs.value)
  }

  /** The constrained pool, or every candidate when none survives. */
  function Pool(input: Input): seq<Candidate> {
    var constrained := Filter(input.candidates, c => Admissible(c, input.preferences));
    if constrained == [] then input.candidates else constrained
  }

  function Scored(pool: seq<Candidate>, p: Preferences, stats: map<string, RoutingStat>): seq<Ranked> {
    seq(|pool|, i requires 0 <= i < |pool| => Adjust(ScoreCandidate(pool[i], p, i), stats))
  }

  function Score(r: Ranked): real { r.score }

  function StrategyKey(s: Strategy): Ranked -> real {
    match s
    case Cheapest => (r: Ranked) => r.cost
    case Fastest => (r: Ranked) => r.latency
    case _ => (r: Ranked) => r.score
  }

  function WithinBudget(ranking: seq<Ranked>, limit: Option<real>): seq<Ranked> {
    if limit.None? then ranking
    else
      var safe := Filter(ranking, (r: Ranked) => r.cost <= limit.value);
      if safe == [] then ranking else safe
  }

  function FullRanking(input: Input): seq<Ranked> {
    StableSort(StableSort(Scored(Pool(input), input.preferences, input.stats), Score), StrategyKey(input.strategy))
  }

  function Ranking(input: Input): seq<Ranked> {
    WithinBudget(FullRanking(input), input.limitUsd)
  }

  function Max(a: real, b: real): real { if a > b then a else b }

  function Min(a: real, b: real): real { if a < b then a else b }

  /** Certainty falls with the score, from one down to a half. */
  predicate Confident(confidence: real, score: real) {
    && (score <= 0.0 ==> confidence == 1.0) && (score >= 0.5 ==> confidence == 0.5)
    && (0.0 <= score <= 0.5 ==> confidence + score == 1.0)
  }

  method Constrain(candidates: seq<Candidate>, p: Preferences) returns (constrained: seq<Candidate>)
    ensures constrained == Filter(candidates, c => Admissible(c, p))
  {
    constrained := [];
    for i := 0 to |candidates|
      invariant constrained == Filter(candidates[..i], c => Admissible(c, p))
    {
      var c := candidates[i];
      assert candidates[..i + 1][..i] == candidates[..i];
      if p.minSuccessRate.Some? {
        var threshold := p.minSuccessRate.value;
        if threshold > 1.0 {
          threshold := threshold / 100.0;
        }
        if c.successRate < threshold {
          continue;
        }
      }
      if p.maxLatencyMs.Some? && c.avgLatencyMs > p.maxLatencyMs.value {
        continue;
      }
      constrained := constrained + [c];
    }
    assert candidates[..|candidates|] == candidates;
  }

  method ScorePool(pool: seq<Candidate>, p: Preferences, stats: map<string, RoutingStat>) returns (ranking: seq<Ranked>)
    ensures ranking == Scored(pool, p, stats)
  {
    ranking := [];
    for i := 0 to |pool|
      invariant |ranking| == i && forall j :: 0 <= j < i ==> ranking[j] == Scored(pool, p, stats)[j]
    {
      var ranked := ScoreCandidate(pool[i], p, i);
      if ranked.nodeId in stats && stats[ranked.nodeId].pulls >= 3 {
        ranked := ranked.(score := ranked.score - stats[ranked.nodeId].meanReward * 0.1);
      }
      ranking := ranking + [ranked];
    }
  }

  method KeepWithinBudget(ranking: seq<Ranked>, limit: real) returns (safe: seq<Ranked>)
    ensures safe == Filter(ranking, (r: Ranked) => r.cost <= limit)
  {
    safe := [];
    for i := 0 to |ranking|
      invariant safe == Filter(ranking[..i], (r: Ranked) => r.cost <= limit)
    {
      assert ranking[..i + 1][..i] == ranking[..i];
      if ranking[i].cost <= limit {
        safe := safe + [ranking[i]];
      }
    }
    assert ranking[..|ranking|] == ranking;
  }

  method Decide(input: Input) returns (output: Output)
    ensures output.ranking == Ranking(input)
    ensures output.chosen.None? <==> input.candidates == []
    ensures output.chosen.Some? ==> |output.ranking| > 0 && output.chosen.value == output.ranking[0].nodeId
    ensures output.chosen.None? ==> output.confidence == 0.0
    ensures output.chosen.Some? ==> Confident(output.confidence, output.ranking[0].score)
  {
    var constrained := Constrain(input.candidates, input.preferences);
    var pool := if |constrained| == 0 then input.candidates else constrained;
    var ranking := ScorePool(pool, input.preferences, input.stats);
    ranking := StableSort(ranking, Score);
    ranking := StableSort(ranking, StrategyKey(input.strategy));
    RankingSize(input);
    if input.limitUsd.Some? {
      var safe := KeepWithinBudget(ranking, input.limitUsd.value);
      if |safe| > 0 {
        ranking := safe;
      }
    }
    if |ranking| == 0 {
      return Output(None, 0.0, []);
    }
    return Output(Some(ranking[0].nodeId), Max(0.5, Min(1.0, 1.0 - ranking[0].score)), ranking);
  }

  lemma RankingSize(input: Input)
    ensures |FullRanking(input)| == |Pool(input)|
    ensures Pool(input) == [] <==> input.candidates == []
  {
    var scored := Scored(Pool(input), input.preferences, input.stats);
    SortPermutes(scored, Score);
    SortPermutes(StableSort(scored, Score), StrategyKey(input.strategy));
    assert |multiset(FullRanking(input))| == |multiset(scored)|;
  }

  function ReplayRanking(candidates: seq<Candidate>, p: Preferences, strategy: Strategy): seq<Ranked> {
    StableSort(Scored(candidates, p, map[]), StrategyKey(strategy))
  }

  function Versus(item: Ranked, chosen: Ranked): Alternative {
    Alternative(item.nodeId, item.score - chosen.score, item.cost - chosen.cost, item.latency - chosen.latency,
                item.quality - chosen.quality)
  }

  /** The row a replay explains: the first with the recorded node's id, or the best when there is none. */
  ghost predicate Explained(ranking: seq<Ranked>, chosenNodeId: string, chosen: Ranked) {
    if exists r :: r in ranking && r.nodeId == chosenNodeId then
      exists i :: 0 <= i < |ranking| && ranking[i] == chosen && chosen.nodeId == chosenNodeId
                  && forall j :: 0 <= j < i ==> ranking[j].nodeId != chosenNodeId
    else ranking != [] && chosen == ranking[0]
  }

  /** Adding the differences to the chosen row gives the other row back. */
  predicate Regains(chosen: Ranked, a: Alternative, other: Ranked) {
    && a.nodeId == other.nodeId && chosen.score + a.scoreDelta == other.score && chosen.cost + a.costDelta == other.cost
    && chosen.latency + a.latencyDelta == other.latency && chosen.quality + a.qualityDelta == other.quality
  }

  /** One difference for every row of another node, in ranking order. */
  ghost predicate Differences(alternatives: seq<Alternative>, ranking: seq<Ranked>, chosen: Ranked) {
    var others := Filter(ranking, (r: Ranked) => r.nodeId != chosen.nodeId);
    |alternatives| == |others| && forall i :: 0 <= i < |others| ==> Regains(chosen, alternatives[i], others[i])
  }

  method FindChosen(ranking: seq<Ranked>, chosenNodeId: string) returns (chosen: Ranked)
    requires ranking != []
    ensures Explained(ranking, chosenNodeId, chosen)
  {
    for i := 0 to |ranking|
      invariant forall j :: 0 <= j < i ==> ranking[j].nodeId != chosenNodeId
    {
      if ranking[i].nodeId == chosenNodeId {
        return ranking[i];
      }
    }
    return ranking[0];
  }

  method Compare(ranking: seq<Ranked>, chosen: Ranked) returns (alternatives: seq<Alternative>)
    ensures Differences(alternatives, ranking, chosen)
  {
    alternatives := [];
    for i := 0 to |ranking|
      invariant Differences(alternatives, ranking[..i], chosen)
    {
      assert ranking[..i + 1][..i] == ranking[..i];
      if ranking[i].nodeId != chosen.nodeId {
        alternatives := alternatives + [Versus(ranking[i], chosen)];
      }
    }
    assert ranking[..|ranking|] == ranking;
  }

  method ReplayDecision(chosenNodeId: string, candidates: seq<Candidate>, p: Preferences, strategy: Strategy)
    returns (result: ReplayResult)
    ensures result.ranking == ReplayRanking(candidates, p, strategy)
    ensures result.best == if result.ranking == [] then None else Some(result.ranking[0])
    ensures result.chosen.None? <==> result.ranking == []
    ensures result.chosen.None? ==> result.alternatives == []
    ensures result.chosen.Some? ==>
              && Explained(result.ranking, chosenNodeId, result.chosen.value)
              && Differences(result.alternatives, result.ranking, result.chosen.value)
  {
    var ranking := StableSort(Scored(candidates, p, map[]), StrategyKey(strategy));
    if |ranking| == 0 {
      return ReplayResult(None, None, [], []);
    }
    var chosen := FindChosen(ranking, chosenNodeId);
    var alternatives := Compare(ranking, chosen);
    return ReplayResult(Some(chosen), Some(ranking[0]), ranking, alternatives);
  }
}
