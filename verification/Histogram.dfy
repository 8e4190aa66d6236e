/** The load generator's latency histogram: millisecond buckets that answer percentiles without keeping samples. */
module Histogram {
  import opened Sequences

  const MAX_LATENCY_MS: nat := 90_000
  const NANOS_PER_MILLI := 1_000_000

  function Clamp(latency: int): nat {
    if latency < 0 then 0 else latency
  }

  /** Whole milliseconds rounded up, everything beyond the maximum in one overflow bucket. */
  function Bucket(nanos: nat): (b: nat)
    ensures b <= MAX_LATENCY_MS + 1
  {
    var millis := (nanos + NANOS_PER_MILLI - 1) / NANOS_PER_MILLI;
    if millis > MAX_LATENCY_MS then MAX_LATENCY_MS + 1 else millis
  }

  /** The bucket is the least whole millisecond not below the latency, up to ninety seconds; one bucket holds the rest. */
  lemma BucketRoundsUp(nanos: nat)
    ensures nanos <= 90_000_000_000 ==> nanos <= Bucket(nanos) * 1_000_000 < nanos + 1_000_000
    ensures nanos > 90_000_000_000 ==> Bucket(nanos) == 90_001
  {
  }

  lemma BucketMonotone(a: nat, b: nat)
    requires a <= b
    ensures Bucket(a) <= Bucket(b)
  {
  }

  function CountIn(samples: seq<nat>, b: nat): nat {
    if samples == [] then 0
    else CountIn(samples[..|samples| - 1], b) + if Bucket(samples[|samples| - 1]) == b then 1 else 0
  }

  /** How many samples fall into buckets below `b`. */
  function CountBelow(samples: seq<nat>, b: nat): nat {
    if samples == [] then 0
    else CountBelow(samples[..|samples| - 1], b) + if Bucket(samples[|samples| - 1]) < b then 1 else 0
  }

  function Total(samples: seq<nat>): nat {
    if samples == [] then 0 else Total(samples[..|samples| - 1]) + samples[|samples| - 1]
  }

  function Sum(xs: seq<nat>): nat {
    if xs == [] then 0 else Sum(xs[..|xs| - 1]) + xs[|xs| - 1]
  }

  lemma {:induction false} CountBelowStep(samples: seq<nat>, b: nat)
    ensures CountBelow(samples, b + 1) == CountBelow(samples, b) + CountIn(samples, b)
    decreases |samples|
  {
    if samples != [] {
      CountBelowStep(samples[..|samples| - 1], b);
    }
  }

  lemma {:induction false} CountBelowEnds(samples: seq<nat>)
    ensures CountBelow(samples, 0) == 0 && CountBelow(samples, MAX_LATENCY_MS + 2) == |samples|
    decreases |samples|
  {
    if samples != [] {
      CountBelowEnds(samples[..|samples| - 1]);
    }
  }

  lemma {:induction false} CountBelowConcat(a: seq<nat>, c: seq<nat>, b: nat)
    ensures CountBelow(a + c, b) == CountBelow(a, b) + CountBelow(c, b)
    decreases |c|
  {
    if c == [] {
      assert a + c == a;
    } else {
      assert (a + c)[..|a + c| - 1] == a + c[..|c| - 1];
      CountBelowConcat(a, c[..|c| - 1], b);
    }
  }

  lemma CountBelowSingle(x: nat, b: nat)
    ensures CountBelow([x], b) == if Bucket(x) < b then 1 else 0
  {
    assert [x][..0] == [];
  }

  lemma CountBelowRemove(xs: seq<nat>, j: nat, b: nat)
    requires j < |xs|
    ensures CountBelow(xs, b) == CountBelow(xs[..j] + xs[j + 1..], b) + if Bucket(xs[j]) < b then 1 else 0
  {
    var left, right := xs[..j], xs[j + 1..];
    assert xs == left + [xs[j]] + right;
    CountBelowConcat(left, right, b);
    CountBelowConcat(left + [xs[j]], right, b);
    CountBelowConcat(left, [xs[j]], b);
    CountBelowSingle(xs[j], b);
  }

  lemma RemovedAlike(xs: seq<nat>, ys: seq<nat>, j: nat, b: nat)
    requires xs != [] && j < |ys| && ys[j] == xs[0]
    requires CountBelow(xs[..0] + xs[1..], b) == CountBelow(ys[..j] + ys[j + 1..], b)
    ensures CountBelow(xs, b) == CountBelow(ys, b)
  {
    CountBelowRemove(xs, 0, b);
    CountBelowRemove(ys, j, b);
  }

  lemma {:induction false} CountBelowPermutes(xs: seq<nat>, ys: seq<nat>, b: nat)
    requires multiset(xs) == multiset(ys)
    ensures CountBelow(xs, b) == CountBelow(ys, b)
    decreases |xs|
  {
    assert |multiset(xs)| == |xs| && |multiset(ys)| == |ys|;
    if xs != [] {
      assert xs[0] in multiset(ys);
      var j :| 0 <= j < |ys| && ys[j] == xs[0];
      RemoveOne(xs, 0);
      RemoveOne(ys, j);
      var xs', ys' := xs[..0] + xs[1..], ys[..j] + ys[j + 1..];
      CountBelowPermutes(xs', ys', b);
      RemovedAlike(xs, ys, j, b);
    }
  }

  lemma {:induction false} CountBelowMonotone(samples: seq<nat>, a: nat, b: nat)
    requires a <= b
    ensures CountBelow(samples, a) <= CountBelow(samples, b)
    decreases |samples|
  {
    if samples != [] {
      CountBelowMonotone(samples[..|samples| - 1], a, b);
    }
  }

  ghost predicate Ascending(xs: seq<nat>) {
    forall i, j :: 0 <= i < j < |xs| ==> xs[i] <= xs[j]
  }

  /** `sorted` lists the same samples in ascending order. */
  ghost predicate SortedForm(sorted: seq<nat>, samples: seq<nat>) {
    Ascending(sorted) && multiset(sorted) == multiset(samples)
  }

  lemma {:induction false} PrefixBelow(xs: seq<nat>, n: nat, b: nat)
    requires n <= |xs| && forall i :: 0 <= i < n ==> Bucket(xs[i]) < b
    ensures n <= CountBelow(xs, b) <= |xs|
    decreases |xs|
  {
    if xs != [] {
      PrefixBelow(xs[..|xs| - 1], if n == |xs| then n - 1 else n, b);
    }
  }

  lemma {:induction false} SuffixNotBelow(xs: seq<nat>, n: nat, b: nat)
    requires n <= |xs| && forall i :: n <= i < |xs| ==> Bucket(xs[i]) >= b
    ensures CountBelow(xs, b) <= n
    decreases |xs|
  {
    if xs != [] {
      SuffixNotBelow(xs[..|xs| - 1], if n == |xs| then n - 1 else n, b);
    }
  }

  /** The first `rank` samples of a sorted list, and no later ones, can fall below the rank-th's next bucket or its own. */
  lemma RankBounds(sorted: seq<nat>, rank: nat)
    requires Ascending(sorted) && 1 <= rank <= |sorted|
    ensures var v := Bucket(sorted[rank - 1]); CountBelow(sorted, v) < rank <= CountBelow(sorted, v + 1)
  {
    var v := Bucket(sorted[rank - 1]);
    forall i | 0 <= i < rank
      ensures Bucket(sorted[i]) < v + 1
    {
      BucketMonotone(sorted[i], sorted[rank - 1]);
    }
    PrefixBelow(sorted, rank, v + 1);
    forall i | rank - 1 <= i < |sorted|
      ensures Bucket(sorted[i]) >= v
    {
      BucketMonotone(sorted[rank - 1], sorted[i]);
    }
    SuffixNotBelow(sorted, rank - 1, v);
  }

  /** In sorted order, the bucket where the running count reaches the rank is the bucket of the rank-th sample. */
  lemma RankOfSorted(sorted: seq<nat>, rank: nat, b: nat)
    requires Ascending(sorted) && 1 <= rank <= |sorted|
    requires CountBelow(sorted, b) < rank <= CountBelow(sorted, b + 1)
    ensures Bucket(sorted[rank - 1]) == b
  {
    var v := Bucket(sorted[rank - 1]);
    RankBounds(sorted, rank);
    if v < b {
      CountBelowMonotone(sorted, v + 1, b);
    } else if v > b {
      CountBelowMonotone(sorted, b + 1, v);
    }
  }

  function Ceiling(x: real): int {
    -((-x).Floor)
  }

  /**
   * The rank a percentile asks for: rounded up, at least one. `convert` is what the platform makes of a negative
   * number it has to read as unsigned.
   */
  function Rank(p: real, count: nat, convert: int -> nat): (rank: nat)
    ensures rank >= 1
  {
    var rounded := Ceiling(p * count as real);
    var rank: nat := if rounded < 0 then convert(rounded) else rounded;
    if rank == 0 then 1 else rank
  }

  /** Whether the rank exists among the samples, for percentiles that are not negative. */
  lemma RankExists(p: real, count: nat, convert: int -> nat)
    requires p >= 0.0 && count > 0
    ensures Rank(p, count, convert) <= count <==> p <= 1.0
  {
    var x := p * count as real;
    assert x - count as real == (p - 1.0) * count as real;
    assert (-(count as real)).Floor == 0 - count;
    assert x >= 0.0;
    if p <= 1.0 {
      assert x <= count as real;
    } else {
      assert x > count as real;
    }
  }

  class LatencyHistogram {
    var buckets: array<nat>
    var count: nat
    var errors: nat
    var totalNano: nat
    ghost var samples: seq<nat>

    ghost predicate Valid()
      reads this, buckets
    {
      && buckets.Length == MAX_LATENCY_MS + 2
      && count == |samples| && totalNano == Total(samples)
      && forall b :: 0 <= b < buckets.Length ==> buckets[b] == CountIn(samples, b)
    }

    constructor ()
      ensures Valid() && fresh(buckets) && samples == [] && errors == 0
    {
      buckets := new nat[MAX_LATENCY_MS + 2](_ => 0);
      count, errors, totalNano := 0, 0, 0;
      samples := [];
    }

    method Record(latency: int, failed: bool)
      requires Valid()
      modifies this, buckets
      ensures Valid() && buckets == old(buckets)
      ensures samples == old(samples) + [Clamp(latency)]
      ensures errors == old(errors) + if failed then 1 else 0
    {
      var nanos := Clamp(latency);
      var bucket := (nanos + NANOS_PER_MILLI - 1) / NANOS_PER_MILLI;
      if bucket > MAX_LATENCY_MS {
        bucket := MAX_LATENCY_MS + 1;
      }
      buckets[bucket] := buckets[bucket] + 1;
      count := count + 1;
      totalNano := totalNano + nanos;
      if failed {
        errors := errors + 1;
      }
      assert (samples + [nanos])[..|samples|] == samples;
      samples := samples + [nanos];
    }

    /** The buckets always add up to the count. */
    lemma BucketsAddUp()
      requires Valid()
      ensures Sum(buckets[..]) == count
    {
      var k := 0;
      CountBelowEnds(samples);
      while k < buckets.Length
        invariant 0 <= k <= buckets.Length && Sum(buckets[..k]) == CountBelow(samples, k)
      {
        assert buckets[..k + 1][..k] == buckets[..k];
        CountBelowStep(samples, k);
        k := k + 1;
      }
      assert buckets[..buckets.Length] == buckets[..];
    }

    /** Accumulates buckets until the rank is reached. */
    method BucketOfRank(rank: nat) returns (result: nat)
      requires Valid() && rank >= 1
      ensures rank > count ==> result == MAX_LATENCY_MS + 1
      ensures rank <= count ==>
                forall sorted :: SortedForm(sorted, samples) ==> |sorted| == count && result == Bucket(sorted[rank - 1])
    {
      var seen, index := 0, 0;
      CountBelowEnds(samples);
      while index < buckets.Length
        invariant 0 <= index <= buckets.Length && seen == CountBelow(samples, index) && seen < rank
      {
        CountBelowStep(samples, index);
        seen := seen + buckets[index];
        if seen >= rank {
          SortedRank(rank, index);
          return index;
        }
        index := index + 1;
      }
      return MAX_LATENCY_MS + 1;
    }

    /**
     * The bucket of the rank-th smallest sample, whichever way the samples are sorted, and the overflow bucket when
     * there is no such sample. In [0, 1] there always is one, beyond 1 never.
     */
    method Percentile(p: real, convert: int -> nat) returns (result: nat)
      requires Valid()
      ensures count == 0 ==> result == 0
      ensures count > 0 && p >= 0.0 ==> (Rank(p, count, convert) <= count <==> p <= 1.0)
      ensures count > 0 && Rank(p, count, convert) > count ==> result == MAX_LATENCY_MS + 1
      ensures count > 0 && Rank(p, count, convert) <= count ==>
                forall sorted :: SortedForm(sorted, samples) ==>
                  |sorted| == count && result == Bucket(sorted[Rank(p, count, convert) - 1])
    {
      if count == 0 {
        return 0;
      }
      if p >= 0.0 {
        RankExists(p, count, convert);
      }
      result := BucketOfRank(Rank(p, count, convert));
    }

    lemma SortedRank(rank: int, b: nat)
      requires CountBelow(samples, b) < rank <= CountBelow(samples, b + 1) && 1 <= rank
      ensures rank <= |samples|
      ensures forall sorted :: SortedForm(sorted, samples) ==>
                |sorted| == |samples| && Bucket(sorted[rank - 1]) == b
    {
      PrefixBelow(samples, 0, b + 1);
      forall sorted | SortedForm(sorted, samples)
        ensures |sorted| == |samples| && Bucket(sorted[rank - 1]) == b
      {
        assert |multiset(sorted)| == |sorted| && |multiset(samples)| == |samples|;
        CountBelowPermutes(sorted, samples, b);
        CountBelowPermutes(sorted, samples, b + 1);
        RankOfSorted(sorted, rank, b);
      }
    }
  }
}
