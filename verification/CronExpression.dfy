/** The textual grammar of cron fields, and what a compiled expression guarantees to the scheduler. */
module CronExpression {
  import opened Calendar
  import opened Options
  import opened Text
  import opened CronSchedule

  datatype FieldSpec = FieldSpec(min: int, max: int)

  const FIELD_SPECS := [FieldSpec(0, 59), FieldSpec(0, 23), FieldSpec(1, 31), FieldSpec(1, 12), FieldSpec(0, 6)]
  const INT64_LIMIT := 0x8000_0000_0000_0000

  datatype Part = Part(low: int, high: int, step: int, star: bool)

  /** A decimal integer with an optional sign that fits 64 bits. */
  function Atoi(s: string): Option<int> {
    var negative := s != [] && s[0] == '-';
    var digits := if s != [] && s[0] in {'+', '-'} then s[1..] else s;
    if digits == [] || !AllDigits(digits) then None
    else
      var n: int := if negative then 0 - Decimal(digits) else Decimal(digits);
      if -INT64_LIMIT <= n < INT64_LIMIT then Some(n) else None
  }

  /** One comma-separated part: a star, a range or a number, each with an optional step. */
  function ParsePart(part: string, spec: FieldSpec): (r: Option<Part>)
    ensures r.Some? ==> spec.min <= r.value.low && r.value.high <= spec.max && r.value.step >= 1
    ensures r.Some? && spec.min <= spec.max ==> r.value.low <= r.value.high
  {
    var rangePart := if '/' in part then Before(part, '/') else part;
    var step := if '/' in part then Atoi(After(part, '/')) else Some(1);
    if step.None? || step.value < 1 then None
    else
      var low := if rangePart == "*" then Some(spec.min)
                 else if '-' in rangePart then Atoi(Before(rangePart, '-')) else Atoi(rangePart);
      var high := if rangePart == "*" then Some(spec.max)
                  else if '-' in rangePart then Atoi(After(rangePart, '-')) else Atoi(rangePart);
      if low.None? || high.None? || ('-' in rangePart && low.value > high.value) then None
      else if low.value < spec.min || high.value > spec.max then None
      else Some(Part(low.value, high.value, step.value, rangePart == "*"))
  }

  ghost function StepAt(p: Part, k: nat): int {
    p.low + k * p.step
  }

  /** The values from `low` to `high` in steps: an arithmetic progression. */
  ghost predicate InPart(p: Part, v: int) {
    v <= p.high && exists k: nat :: v == StepAt(p, k)
  }

  /** Some part of the field names `v`. */
  ghost predicate Named(parts: seq<string>, spec: FieldSpec, v: int) {
    exists p :: p in parts && ParsePart(p, spec).Some? && InPart(ParsePart(p, spec).value, v)
  }

  /** A part that names every value and leaves a day field unrestricted. */
  ghost predicate Unrestricted(part: string, spec: FieldSpec) {
    ParsePart(part, spec).Some? && ParsePart(part, spec).value.star && ParsePart(part, spec).value.step == 1
  }

  ghost predicate AllUnrestricted(parts: seq<string>, spec: FieldSpec) {
    forall i :: 0 <= i < |parts| ==> Unrestricted(parts[i], spec)
  }

  lemma NamedAppend(parts: seq<string>, part: string, spec: FieldSpec)
    requires ParsePart(part, spec).Some?
    ensures forall v :: Named(parts + [part], spec, v) <==> Named(parts, spec, v) || InPart(ParsePart(part, spec).value, v)
    ensures AllUnrestricted(parts + [part], spec) <==> AllUnrestricted(parts, spec) && Unrestricted(part, spec)
  {
    assert (parts + [part])[|parts|] == part;
    assert forall i :: 0 <= i < |parts| ==> (parts + [part])[i] == parts[i];
    assert part in parts + [part];
    assert forall p :: p in parts ==> p in parts + [part];
  }

  ghost predicate WellFormedField(field: string, spec: FieldSpec) {
    forall p :: p in Split(field, ',') ==> ParsePart(p, spec).Some?
  }

  lemma StepsGrow(p: Part, j: nat, k: nat)
    requires p.step >= 1 && j <= k
    ensures StepAt(p, j) <= StepAt(p, k)
  {
    assert StepAt(p, k) - StepAt(p, j) == (k - j) * p.step;
  }

  method PartValues(p: Part) returns (values: set<int>)
    requires p.step >= 1
    ensures forall v :: v in values <==> InPart(p, v)
  {
    values := {};
    var value := p.low;
    ghost var k: nat := 0;
    while value <= p.high
      invariant value == StepAt(p, k)
      invariant forall v :: v in values <==> exists j: nat :: j < k && v == StepAt(p, j)
      invariant forall v :: v in values ==> v <= p.high
      decreases p.high + 1 - value
    {
      values := values + {value};
      value := value + p.step;
      assert value == StepAt(p, k + 1);
      k := k + 1;
    }
    forall v | InPart(p, v)
      ensures v in values
    {
      var j: nat :| v == StepAt(p, j);
      if k <= j {
        StepsGrow(p, k, j);
      }
    }
  }

  method ParseField(field: string, spec: FieldSpec) returns (values: Option<set<int>>, isWildcard: bool)
    requires spec.min <= spec.max
    ensures values.Some? <==> WellFormedField(field, spec)
    ensures values.Some? ==> forall v :: v in values.value <==> Named(Split(field, ','), spec, v)
    ensures values.Some? ==> isWildcard == AllUnrestricted(Split(field, ','), spec)
  {
    var parts := Split(field, ',');
    var found: set<int> := {};
    isWildcard := true;
    for i := 0 to |parts|
      invariant forall p :: p in parts[..i] ==> ParsePart(p, spec).Some?
      invariant forall v :: v in found <==> Named(parts[..i], spec, v)
      invariant isWildcard <==> AllUnrestricted(parts[..i], spec)
    {
      assert parts[..i + 1] == parts[..i] + [parts[i]];
      var parsed := ParsePart(parts[i], spec);
      if parsed.None? {
        return None, false;
      }
      assert Unrestricted(parts[i], spec) <==> parsed.value.star && parsed.value.step == 1;
      if !parsed.value.star || parsed.value.step > 1 {
        isWildcard := false;
      }
      var more := PartValues(parsed.value);
      NamedAppend(parts[..i], parts[i], spec);
      found := found + more;
    }
    assert parts[..|parts|] == parts;
    return Some(found), isWildcard;
  }

  lemma PartRange(p: Part, v: int)
    requires p.step >= 1 && InPart(p, v)
    ensures p.low <= v <= p.high
  {
    var k: nat :| v == StepAt(p, k);
    StepsGrow(p, 0, k);
  }

  /** An accepted field names at least one value, and only values in range. */
  lemma FieldRange(parts: seq<string>, spec: FieldSpec)
    requires spec.min <= spec.max && |parts| > 0 && ParsePart(parts[0], spec).Some?
    ensures forall v :: Named(parts, spec, v) ==> spec.min <= v <= spec.max
    ensures exists v :: Named(parts, spec, v)
  {
    forall v | Named(parts, spec, v)
      ensures spec.min <= v <= spec.max
    {
      var p :| p in parts && ParsePart(p, spec).Some? && InPart(ParsePart(p, spec).value, v);
      PartRange(ParsePart(p, spec).value, v);
    }
    var first := ParsePart(parts[0], spec).value;
    assert first.low == StepAt(first, 0);
    assert Named(parts, spec, first.low);
  }

  /** A wildcard names the whole range, which the day rule relies on. */
  lemma WildcardIsFull(parts: seq<string>, spec: FieldSpec, v: int)
    requires |parts| > 0 && AllUnrestricted(parts, spec) && spec.min <= v <= spec.max
    ensures Named(parts, spec, v)
  {
    assert Unrestricted(parts[0], spec);
    var first := ParsePart(parts[0], spec).value;
    StarIsFullRange(parts[0], spec);
    assert v == StepAt(first, v - first.low);
    assert InPart(first, v);
  }

  lemma StarIsFullRange(part: string, spec: FieldSpec)
    requires Unrestricted(part, spec)
    ensures ParsePart(part, spec).value == Part(spec.min, spec.max, 1, true)
  {
  }

  /** `values` and the restriction flag are what the field's text says. */
  ghost predicate Means(field: string, spec: FieldSpec, values: set<int>, restricted: bool) {
    && (forall v :: v in values <==> Named(Split(field, ','), spec, v))
    && restricted == !AllUnrestricted(Split(field, ','), spec)
  }

  ghost predicate Accepts(fields: seq<string>) {
    |fields| == 5 && forall i :: 0 <= i < 5 ==> WellFormedField(fields[i], FIELD_SPECS[i])
  }

  /** The schedule holds the meaning of the five fields, in order. */
  ghost predicate Compiled(fields: seq<string>, s: Schedule)
    requires |fields| == 5
  {
    && (exists r :: Means(fields[0], FIELD_SPECS[0], s.minute, r))
    && (exists r :: Means(fields[1], FIELD_SPECS[1], s.hour, r))
    && Means(fields[2], FIELD_SPECS[2], s.dayOfMonth, s.domRestricted)
    && (exists r :: Means(fields[3], FIELD_SPECS[3], s.month, r))
    && Means(fields[4], FIELD_SPECS[4], s.dayOfWeek, s.dowRestricted)
  }

  /** Field `j` has been compiled. */
  ghost predicate Done(fields: seq<string>, sets: seq<set<int>>, restricted: seq<bool>, j: nat)
    requires j < |sets| == |restricted| <= |fields| == 5
  {
    WellFormedField(fields[j], FIELD_SPECS[j]) && Means(fields[j], FIELD_SPECS[j], sets[j], restricted[j])
  }

  lemma DoneExtends(fields: seq<string>, sets: seq<set<int>>, restricted: seq<bool>, values: set<int>, r: bool)
    requires |sets| == |restricted| < |fields| == 5
    requires forall j {:trigger Done(fields, sets, restricted, j)} :: 0 <= j < |sets| ==> Done(fields, sets, restricted, j)
    requires WellFormedField(fields[|sets|], FIELD_SPECS[|sets|])
    requires Means(fields[|sets|], FIELD_SPECS[|sets|], values, r)
    ensures forall j {:trigger Done(fields, sets + [values], restricted + [r], j)} ::
              0 <= j <= |sets| ==> Done(fields, sets + [values], restricted + [r], j)
  {
    forall j | 0 <= j <= |sets|
      ensures Done(fields, sets + [values], restricted + [r], j)
    {
      assert j < |sets| ==> Done(fields, sets, restricted, j);
    }
  }

  method Parse(expression: string) returns (s: Option<Schedule>)
    ensures s.Some? <==> Accepts(Fields(TrimSpace(expression)))
    ensures s.Some? ==> Compiled(Fields(TrimSpace(expression)), s.value)
  {
    var fields := Fields(TrimSpace(expression));
    if |fields| != 5 {
      return None;
    }
    var sets: seq<set<int>>, restricted: seq<bool> := [], [];
    for i := 0 to 5
      invariant |sets| == |restricted| == i
      invariant forall j {:trigger Done(fields, sets, restricted, j)} :: 0 <= j < i ==> Done(fields, sets, restricted, j)
    {
      var values, isWildcard := ParseField(fields[i], FIELD_SPECS[i]);
      if values.None? {
        return None;
      }
      DoneExtends(fields, sets, restricted, values.value, !isWildcard);
      sets, restricted := sets + [values.value], restricted + [!isWildcard];
    }
    assert Done(fields, sets, restricted, 0) && Done(fields, sets, restricted, 1) && Done(fields, sets, restricted, 2)
        && Done(fields, sets, restricted, 3) && Done(fields, sets, restricted, 4);
    return Some(Schedule(sets[0], sets[1], sets[2], sets[3], sets[4], restricted[2], restricted[4]));
  }

  ghost predicate InRange(values: set<int>, spec: FieldSpec) {
    (exists v :: v in values) && forall v :: v in values ==> spec.min <= v <= spec.max
  }

  ghost predicate Full(values: set<int>, spec: FieldSpec) {
    forall v :: spec.min <= v <= spec.max ==> v in values
  }

  lemma MeaningInRange(field: string, spec: FieldSpec, values: set<int>, restricted: bool)
    requires spec.min <= spec.max && WellFormedField(field, spec) && Means(field, spec, values, restricted)
    ensures InRange(values, spec) && (!restricted ==> Full(values, spec))
  {
    var parts := Split(field, ',');
    assert parts[0] in parts;
    FieldRange(parts, spec);
    var v :| Named(parts, spec, v);
    assert v in values;
    if !restricted {
      forall v | spec.min <= v <= spec.max
        ensures v in values
      {
        WildcardIsFull(parts, spec, v);
      }
    }
  }

  /**
   * The classic day rule of the crontab utility (POSIX, IEEE Std 1003.1, crontab, INPUT FILES):
   * either field when both are restricted, otherwise the restricted one, otherwise every day.
   */
  lemma ClassicDayRule(fields: seq<string>, s: Schedule, n: int)
    requires Accepts(fields) && Compiled(fields, s)
    ensures var dom, dow := DateOf(n).day in s.dayOfMonth, Weekday(n) in s.dayOfWeek;
            MatchesDay(s, DateOf(n), Weekday(n)) <==>
            if s.domRestricted && s.dowRestricted then dom || dow
            else if s.domRestricted then dom
            else if s.dowRestricted then dow
            else true
  {
    MeaningInRange(fields[2], FIELD_SPECS[2], s.dayOfMonth, s.domRestricted);
    MeaningInRange(fields[4], FIELD_SPECS[4], s.dayOfWeek, s.dowRestricted);
  }

  /** The preview lists consecutive fires of the compiled schedule, and is empty for a rejected expression. */
  method PreviewFires(expression: string, from: int, count: int) returns (fires: seq<int>)
    ensures !Accepts(Fields(TrimSpace(expression))) ==> fires == []
    ensures Accepts(Fields(TrimSpace(expression))) ==>
              exists s :: Compiled(Fields(TrimSpace(expression)), s) && Consecutive(s, from, fires)
                          && Exhausted(s, from, fires, count)
  {
    var s := Parse(expression);
    if s.None? {
      return [];
    }
    fires := NextFires(s.value, from, count);
  }
}
