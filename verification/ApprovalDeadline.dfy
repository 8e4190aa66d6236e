/** Materialising a relative approval deadline at the moment the checkpoint is committed. */
module ApprovalDeadline {
  import opened Options
  import opened WaitingInstant
  import Calendar
  import Json

  const UNIX_EPOCH_MILLIS := 719_162 * 86_400_000
  const MAX_JS_TIMESTAMP_MILLIS := 8_640_000_000_000_000
  const MAX_JS_SAFE_INTEGER := 9_007_199_254_740_991

  function UnixMilli(t: int): int {
    t / NANOS_PER_MILLI - UNIX_EPOCH_MILLIS
  }

  function FromUnixMilli(millis: int): int {
    (millis + UNIX_EPOCH_MILLIS) * NANOS_PER_MILLI
  }

  lemma LaterByMillis(t: int, millis: int)
    ensures FromUnixMilli(UnixMilli(t) + millis) == TruncateToMillis(t) + millis * NANOS_PER_MILLI
    ensures TruncateToMillis(TruncateToMillis(t) + millis * NANOS_PER_MILLI) == TruncateToMillis(t) + millis * NANOS_PER_MILLI
  {
    ModOf(TruncateToMillis(t) + millis * NANOS_PER_MILLI, t / NANOS_PER_MILLI + millis, 0);
  }

  function SafePositiveInteger(v: Json.Value): Option<int> {
    if v.Number? && v.number > 0.0 && v.number.Floor as real == v.number && v.number <= MAX_JS_SAFE_INTEGER as real
    then Some(v.number.Floor) else None
  }

  /** The timeout a metadata record asks to be turned into a deadline, if it asks for one. */
  function PendingTimeout(metadata: map<string, Json.Value>): Option<int> {
    if "kind" !in metadata || metadata["kind"] != Json.Str("approval") then None
    else if "deadlineAt" in metadata || "decisionTimeoutMs" !in metadata then None
    else SafePositiveInteger(metadata["decisionTimeoutMs"])
  }

  predicate Representable(millis: int) {
    -MAX_JS_TIMESTAMP_MILLIS <= millis <= MAX_JS_TIMESTAMP_MILLIS
  }

  function DueInstant(checkpoint: int, timeout: int): int {
    FromUnixMilli(UnixMilli(checkpoint) + timeout)
  }

  ghost function Materialized(metadata: map<string, Json.Value>, checkpoint: int): map<string, Json.Value> {
    var timeout := PendingTimeout(metadata);
    if timeout.None? || !Representable(UnixMilli(checkpoint) + timeout.value) then metadata
    else
      metadata["deadlineAt" := Json.Str(FormatWaitingInstant(DueInstant(checkpoint, timeout.value)))]
              ["delayMs" := Json.Number(timeout.value as real)]
  }

  /** An approval record without a deadline whose timeout, counted from the checkpoint, stays in the timestamp range. */
  ghost predicate CanStart(metadata: map<string, Json.Value>, checkpoint: int) {
    var timeout := PendingTimeout(metadata);
    timeout.Some? && Representable(UnixMilli(checkpoint) + timeout.value)
  }

  /**
   * What a caller can rely on: other entries stay, a deadline is gained exactly when it can start, the recorded
   * delay is the requested timeout, and the recorded text reads back as the checkpoint plus that delay, to the
   * millisecond, exactly when its UTC year has four digits.
   */
  ghost predicate Started(metadata: map<string, Json.Value>, checkpoint: int, result: map<string, Json.Value>) {
    && result - {"deadlineAt", "delayMs"} == metadata - {"deadlineAt", "delayMs"}
    && (!CanStart(metadata, checkpoint) ==> result == metadata)
    && (CanStart(metadata, checkpoint) ==> "deadlineAt" !in metadata && Recorded(metadata, checkpoint, result))
  }

  ghost predicate Recorded(metadata: map<string, Json.Value>, checkpoint: int, result: map<string, Json.Value>) {
    exists text, timeout: int :: Records(metadata, result, text, timeout)
                                 && ReadsAs(text, TruncateToMillis(checkpoint) + timeout * NANOS_PER_MILLI)
  }

  ghost predicate Records(metadata: map<string, Json.Value>, result: map<string, Json.Value>, text: string, timeout: int) {
    && "deadlineAt" in result && result["deadlineAt"] == Json.Str(text)
    && "decisionTimeoutMs" in metadata && "delayMs" in result
    && result["delayMs"] == metadata["decisionTimeoutMs"] == Json.Number(timeout as real)
  }

  ghost predicate ReadsAs(text: string, due: int) {
    ParseAbsoluteInstant(text) == if 0 <= UtcYear(due) <= 9999 then Some(due) else None
  }

  method MaterializeApprovalWaitingMetadata(metadata: map<string, Json.Value>, checkpoint: int)
    returns (result: map<string, Json.Value>)
    ensures Started(metadata, checkpoint, result)
    ensures result == Materialized(metadata, checkpoint)
  {
    StartedByMaterialized(metadata, checkpoint);
    result := metadata;
    var timeout := PendingTimeout(metadata);
    if timeout.None? {
      return;
    }
    var deadline := UnixMilli(checkpoint) + timeout.value;
    if !Representable(deadline) {
      return;
    }
    var text := FormatInstant(DueInstant(checkpoint, timeout.value));
    result := result["deadlineAt" := Json.Str(text)];
    result := result["delayMs" := Json.Number(timeout.value as real)];
  }

  lemma StartedByMaterialized(metadata: map<string, Json.Value>, checkpoint: int)
    ensures Started(metadata, checkpoint, Materialized(metadata, checkpoint))
  {
    DeadlineIsFixed(metadata, checkpoint, checkpoint);
    if CanStart(metadata, checkpoint) {
      RecordedByMaterialized(metadata, checkpoint);
    }
  }

  lemma RecordedByMaterialized(metadata: map<string, Json.Value>, checkpoint: int)
    requires CanStart(metadata, checkpoint)
    ensures "deadlineAt" !in metadata && Recorded(metadata, checkpoint, Materialized(metadata, checkpoint))
  {
    var timeout := PendingTimeout(metadata).value;
    DeadlineText(metadata, checkpoint);
    PrintedDue(checkpoint, timeout);
    RecordedFrom(metadata, checkpoint, Materialized(metadata, checkpoint),
                 FormatWaitingInstant(DueInstant(checkpoint, timeout)), timeout);
  }

  lemma RecordedFrom(metadata: map<string, Json.Value>, checkpoint: int, result: map<string, Json.Value>,
                     text: string, timeout: int)
    requires Records(metadata, result, text, timeout)
    ensures ReadsAs(text, TruncateToMillis(checkpoint) + timeout * NANOS_PER_MILLI) ==> Recorded(metadata, checkpoint, result)
  {
  }

  lemma PrintedDue(checkpoint: int, timeout: int)
    ensures ReadsAs(FormatWaitingInstant(DueInstant(checkpoint, timeout)), TruncateToMillis(checkpoint) + timeout * NANOS_PER_MILLI)
  {
    DeadlineReadsBack(checkpoint, timeout);
  }

  lemma DeadlineText(metadata: map<string, Json.Value>, checkpoint: int)
    requires CanStart(metadata, checkpoint)
    ensures var result, timeout := Materialized(metadata, checkpoint), PendingTimeout(metadata).value;
            "deadlineAt" !in metadata
            && Records(metadata, result, FormatWaitingInstant(DueInstant(checkpoint, timeout)), timeout)
  {
  }

  /** A deadline, once set, never moves, and nothing else in the record changes. */
  lemma DeadlineIsFixed(metadata: map<string, Json.Value>, first: int, second: int)
    ensures var result := Materialized(metadata, first);
            && ("deadlineAt" in result ==> Materialized(result, second) == result)
            && result - {"deadlineAt", "delayMs"} == metadata - {"deadlineAt", "delayMs"}
  {
  }

  /** The due instant lies the timeout after the checkpoint, and reads back exactly when its year has four digits. */
  lemma DeadlineReadsBack(checkpoint: int, timeout: int)
    ensures DueInstant(checkpoint, timeout) == TruncateToMillis(checkpoint) + timeout * NANOS_PER_MILLI
    ensures var due := DueInstant(checkpoint, timeout);
            ReadBack(due) == if 0 <= UtcYear(due) <= 9999 then Some(due) else None
  {
    LaterByMillis(checkpoint, timeout);
    ReadBackExact(DueInstant(checkpoint, timeout));
  }

  /**
   * The accepted range of deadlines is wider than the grammar: a timeout that runs from the start of 2024 to the
   * year 10000 is materialised but cannot be read back.
   */
  lemma DeadlineBeyondGrammar()
    ensures exists checkpoint, timeout ::
              && UtcYear(checkpoint) == 2024 && 0 < timeout <= MAX_JS_SAFE_INTEGER
              && Representable(UnixMilli(checkpoint) + timeout) && ReadBack(DueInstant(checkpoint, timeout)) == None
  {
    var from, to := NewYear(2024), NewYear(10000);
    var timeout := (InstantOf(to) - InstantOf(from)) / NANOS_PER_MILLI;
    FieldsUnique(from);
    FieldsUnique(to);
    FarDeadline(timeout);
    ReadBackExact(InstantOf(to));
    assert UtcYear(InstantOf(from)) == 2024 && UtcYear(InstantOf(to)) == 10000;
  }

  /** A deadline starts for an approval without one that asks for a whole, positive, safe number of milliseconds. */
  lemma StartsExactly(metadata: map<string, Json.Value>, checkpoint: int)
    ensures CanStart(metadata, checkpoint) <==>
              && "kind" in metadata && metadata["kind"] == Json.Str("approval")
              && "deadlineAt" !in metadata && "decisionTimeoutMs" in metadata
              && exists n: int :: metadata["decisionTimeoutMs"] == Json.Number(n as real) && Safe(n)
                                  && Representable(UnixMilli(checkpoint) + n)
  {
    if CanStart(metadata, checkpoint) {
      var n := metadata["decisionTimeoutMs"].number.Floor;
      assert metadata["decisionTimeoutMs"] == Json.Number(n as real) && Safe(n);
    }
    forall n: int | "decisionTimeoutMs" in metadata && metadata["decisionTimeoutMs"] == Json.Number(n as real) && Safe(n)
      ensures SafePositiveInteger(metadata["decisionTimeoutMs"]) == Some(n)
    {
    }
  }

  predicate Safe(n: int) {
    1 <= n < 9_007_199_254_740_992
  }

  function Midnight(d: Calendar.Date): int
    requires Calendar.ValidDate(d)
  {
    InstantOf(Fields(d, 0, 0, 0, 0, 0))
  }

  const FIRST_DUE := Calendar.Date(-271_821, 4, 20)
  const LAST_DUE := Calendar.Date(275_760, 9, 13)

  /** Deadlines lie within a hundred million days of 1 January 1970: from 20 April -271821 to 13 September 275760. */
  lemma DeadlineRange(t: int)
    ensures Representable(UnixMilli(t)) <==> Midnight(FIRST_DUE) <= t < Midnight(LAST_DUE) + NANOS_PER_MILLI
    ensures Calendar.DayNumber(LAST_DUE) - 100_000_000 == Calendar.DayNumber(Calendar.Date(1970, 1, 1))
            == Calendar.DayNumber(FIRST_DUE) + 100_000_000
  {
    DueDays();
    FloorRange(t, -MAX_JS_TIMESTAMP_MILLIS + UNIX_EPOCH_MILLIS, MAX_JS_TIMESTAMP_MILLIS + UNIX_EPOCH_MILLIS);
  }

  lemma DueDays()
    ensures Calendar.DayNumber(FIRST_DUE) == 719_162 - 100_000_000
    ensures Calendar.DayNumber(LAST_DUE) == 719_162 + 100_000_000
    ensures Calendar.DayNumber(Calendar.Date(1970, 1, 1)) == 719_162
  {
  }

  lemma FloorRange(t: int, low: int, high: int)
    ensures low <= t / NANOS_PER_MILLI <= high <==> low * NANOS_PER_MILLI <= t < high * NANOS_PER_MILLI + NANOS_PER_MILLI
  {
  }

  function NewYear(year: int): Fields {
    Fields(Calendar.Date(year, 1, 1), 0, 0, 0, 0, 0)
  }

  lemma FarDeadline(timeout: int)
    requires timeout == (InstantOf(NewYear(10000)) - InstantOf(NewYear(2024))) / NANOS_PER_MILLI
    ensures 0 < timeout <= MAX_JS_SAFE_INTEGER && Representable(UnixMilli(InstantOf(NewYear(2024))) + timeout)
    ensures DueInstant(InstantOf(NewYear(2024)), timeout) == InstantOf(NewYear(10000))
  {
  }
}
