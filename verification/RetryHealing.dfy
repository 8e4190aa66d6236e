/** The closed auto-healing grammar, the deterministic proposal, and the retry-policy grammar it must satisfy. */
module RetryHealing {
  import opened Json
  import opened Options
  import opened Text

  /** A retry object by its known keys; `extra` collects any other key. */
  datatype Retry = Retry(maxAttempts: Option<Value>, delayMs: Option<Value>, maxDelayMs: Option<Value>,
                         backoff: Option<Value>, jitter: Option<Value>, retryOn: Option<Value>, ignoreOn: Option<Value>,
                         extra: set<string>)

  /** What stands under a `retry` key. */
  datatype RetryValue = NotAnObject | Block(retry: Retry)

  datatype Patch = Patch(timeoutMs: Option<Value>, retry: Option<RetryValue>, extra: set<string>)

  datatype Node = Node(kind: string, timeoutMs: Option<Value>, retry: Option<RetryValue>)

  datatype Policy = Policy(maxAttempts: int, delayMs: int, maxDelayMs: Option<int>, backoff: string, jitter: bool,
                           retryOn: seq<string>, ignoreOn: seq<string>)

  /** Node eligibility and the secret detector come from elsewhere. */
  datatype Env = Env(eligible: Node -> bool, hasSecret: Patch -> bool)

  const EMPTY := Retry(None, None, None, None, None, None, None, {})
  const NO_PATCH := Patch(None, None, {})

  /** A whole number within bounds. */
  function Whole(v: Option<Value>, low: int, high: int): Option<int> {
    if v.Some? && v.value.Number? && v.value.number.Floor as real == v.value.number && low <= v.value.number.Floor <= high
    then Some(v.value.number.Floor) else None
  }

  function Num(n: int): Option<Value> { Some(Number(n as real)) }

  predicate HealingMatcher(v: Value) {
    && v.Str? && v.text != "" && TrimSpace(v.text) == v.text && |v.text| <= 64
    && '\r' !in v.text && '\n' !in v.text
  }

  predicate HealingList(v: Option<Value>) {
    v.Some? && v.value.Arr? && |v.value.items| <= 16 && forall x :: x in v.value.items ==> HealingMatcher(x)
  }

  predicate IsBackoff(v: Option<Value>) {
    v.Some? && v.value.Str? && (v.value.text == "fixed" || v.value.text == "exponential")
  }

  /** The retry blocks the healing grammar admits. */
  ghost predicate HealingRetry(r: Retry) {
    && r != EMPTY && r.extra == {}
    && Whole(r.maxAttempts, 2, 10).Some?
    && (r.delayMs.Some? ==> Whole(r.delayMs, 1, 600_000).Some?)
    && (r.maxDelayMs.Some? ==> Whole(r.maxDelayMs, 1, 3_600_000).Some?)
    && (r.delayMs.Some? && r.maxDelayMs.Some? ==>
          Whole(r.delayMs, 1, 600_000).value <= Whole(r.maxDelayMs, 1, 3_600_000).value)
    && (r.backoff.Some? ==> IsBackoff(r.backoff))
    && (r.jitter.Some? ==> r.jitter.value.Bool?)
    && (r.retryOn.Some? ==> HealingList(r.retryOn))
    && (r.ignoreOn.Some? ==> HealingList(r.ignoreOn))
  }

  ghost predicate HealingPatch(env: Env, node: Node, p: Patch) {
    && env.eligible(node) && p != NO_PATCH && !env.hasSecret(p) && p.extra == {}
    && (p.timeoutMs.Some? ==> node.kind == "http" && Whole(p.timeoutMs, 1, 600_000).Some?)
    && (p.retry.Some? ==> p.retry.value.Block? && HealingRetry(p.retry.value.retry))
  }

  /** Rebuilds a retry block from its checked parts, rejecting the whole block on any bad one. */
  method ProjectRetry(r: Retry) returns (projected: Option<Retry>)
    ensures projected == if HealingRetry(r) then Some(r) else None
  {
    if r == EMPTY || r.extra != {} {
      return None;
    }
    var attempts := Whole(r.maxAttempts, 2, 10);
    if attempts.None? {
      return None;
    }
    var out := EMPTY.(maxAttempts := r.maxAttempts);
    var delay, maximum := Whole(r.delayMs, 1, 600_000), Whole(r.maxDelayMs, 1, 3_600_000);
    if (r.delayMs.Some? && delay.None?) || (r.maxDelayMs.Some? && maximum.None?) {
      return None;
    }
    out := out.(delayMs := r.delayMs, maxDelayMs := r.maxDelayMs);
    if delay.Some? && maximum.Some? && maximum.value < delay.value {
      return None;
    }
    if r.backoff.Some? {
      if !IsBackoff(r.backoff) {
        return None;
      }
      out := out.(backoff := r.backoff);
    }
    if r.jitter.Some? {
      if !r.jitter.value.Bool? {
        return None;
      }
      out := out.(jitter := r.jitter);
    }
    if r.retryOn.Some? {
      if !HealingList(r.retryOn) {
        return None;
      }
      out := out.(retryOn := r.retryOn);
    }
    if r.ignoreOn.Some? {
      if !HealingList(r.ignoreOn) {
        return None;
      }
      out := out.(ignoreOn := r.ignoreOn);
    }
    return Some(out);
  }

  /** The projection never rewrites a patch: it returns it whole or refuses it. */
  method ProjectHealingPatch(env: Env, node: Node, p: Patch) returns (projected: Option<Patch>)
    ensures projected == if HealingPatch(env, node, p) then Some(p) else None
  {
    if !env.eligible(node) || p == NO_PATCH || env.hasSecret(p) || p.extra != {} {
      return None;
    }
    var out := NO_PATCH;
    if p.timeoutMs.Some? {
      if node.kind != "http" || Whole(p.timeoutMs, 1, 600_000).None? {
        return None;
      }
      out := out.(timeoutMs := p.timeoutMs);
    }
    if p.retry.Some? {
      if !p.retry.value.Block? {
        return None;
      }
      var retry := ProjectRetry(p.retry.value.retry);
      if retry.None? {
        return None;
      }
      out := out.(retry := Some(Block(retry.value)));
    }
    return Some(out);
  }

  /** The block the deterministic proposal builds from the existing one. */
  function ProposedRetry(existing: Retry): Retry {
    var attempts := Whole(existing.maxAttempts, 2, 10);
    var delay := if Whole(existing.delayMs, 1, 600_000).Some? then Whole(existing.delayMs, 1, 600_000).value else 1000;
    var maximum := Whole(existing.maxDelayMs, 1, 3_600_000);
    Retry(Num(if attempts.Some? && attempts.value > 3 then attempts.value else 3),
          Num(delay),
          if maximum.Some? && maximum.value >= delay then Num(maximum.value) else None,
          if IsBackoff(existing.backoff) then existing.backoff else Some(Str("exponential")),
          if existing.jitter.Some? && existing.jitter.value.Bool? then existing.jitter else None,
          if HealingList(existing.retryOn) then existing.retryOn else None,
          if HealingList(existing.ignoreOn) then existing.ignoreOn else None,
          {})
  }

  function ExistingRetry(node: Node): Retry {
    if node.retry.Some? && node.retry.value.Block? then node.retry.value.retry else EMPTY
  }

  function Proposal(node: Node): Patch {
    var timeout := Whole(node.timeoutMs, 1, 300_000);
    Patch(if node.kind == "http" && timeout.Some? then Num(timeout.value * 2) else None,
          Some(Block(ProposedRetry(ExistingRetry(node)))), {})
  }

  /** A block that already is what healing asks for: grammatical, with three attempts or more, a delay and a backoff. */
  ghost predicate Hardened(r: Retry) {
    HealingRetry(r) && Whole(r.maxAttempts, 3, 10).Some? && r.delayMs.Some? && r.backoff.Some?
  }

  /** `faulty` differs from the hardened block `good` in one control that is missing or unsound, `cured` has its remedy. */
  ghost predicate OneFault(good: Retry, faulty: Retry, cured: Retry) {
    && Hardened(good)
    && (|| (faulty == good.(maxAttempts := faulty.maxAttempts) && Whole(faulty.maxAttempts, 3, 10).None?
            && cured == good.(maxAttempts := Num(3)))
        || (faulty == good.(delayMs := faulty.delayMs) && Whole(faulty.delayMs, 1, 600_000).None?
            && cured == good.(delayMs := Num(1000),
                              maxDelayMs := if Whole(good.maxDelayMs, 1000, 3_600_000).Some? then good.maxDelayMs else None))
        || (faulty == good.(maxDelayMs := faulty.maxDelayMs)
            && Whole(faulty.maxDelayMs, Whole(good.delayMs, 1, 600_000).value, 3_600_000).None?
            && cured == good.(maxDelayMs := None))
        || (faulty == good.(backoff := faulty.backoff) && !IsBackoff(faulty.backoff)
            && cured == good.(backoff := Some(Str("exponential"))))
        || (faulty == good.(jitter := faulty.jitter) && (faulty.jitter.Some? ==> !faulty.jitter.value.Bool?)
            && cured == good.(jitter := None))
        || (faulty == good.(retryOn := faulty.retryOn) && !HealingList(faulty.retryOn) && cured == good.(retryOn := None))
        || (faulty == good.(ignoreOn := faulty.ignoreOn) && !HealingList(faulty.ignoreOn) && cured == good.(ignoreOn := None))
        || (faulty == good.(extra := faulty.extra) && cured == good))
  }

  /** A hardened block comes back as it is, a single fault costs its own control, and no block at all gives the defaults. */
  ghost predicate Cured(before: Option<RetryValue>, after: Option<RetryValue>) {
    && (before.Some? && before.value.Block? ==>
          && (Hardened(before.value.retry) ==> after == before)
          && forall good, cured :: OneFault(good, before.value.retry, cured) ==> after == Some(Block(cured)))
    && (before.None? || before.value.NotAnObject? ==>
          after == Some(Block(Retry(Num(3), Num(1000), None, Some(Str("exponential")), None, None, None, {}))))
  }

  lemma WholeIsNum(v: Option<Value>, low: int, high: int)
    ensures Whole(v, low, high).Some? ==> v == Num(Whole(v, low, high).value)
  {
  }

  lemma HardenedIsKept(r: Retry)
    requires Hardened(r)
    ensures ProposedRetry(r) == r
  {
    WholeIsNum(r.maxAttempts, 2, 10);
    WholeIsNum(r.delayMs, 1, 600_000);
    WholeIsNum(r.maxDelayMs, 1, 3_600_000);
  }

  lemma OneFaultIsCured(good: Retry, faulty: Retry, cured: Retry)
    requires OneFault(good, faulty, cured)
    ensures ProposedRetry(faulty) == cured
  {
    HardenedIsKept(good);
    WholeIsNum(faulty.maxAttempts, 2, 10);
    WholeIsNum(good.delayMs, 1, 600_000);
    WholeIsNum(faulty.maxDelayMs, 1, 3_600_000);
  }

  lemma CuredByProposal(node: Node)
    ensures Cured(node.retry, Proposal(node).retry)
  {
    var existing := ExistingRetry(node);
    if Hardened(existing) {
      HardenedIsKept(existing);
    }
    forall good, cured | OneFault(good, existing, cured)
      ensures ProposedRetry(existing) == cured
    {
      OneFaultIsCured(good, existing, cured);
    }
  }

  /** An `http` node's whole timeout of at most five minutes is doubled; nothing else is proposed. */
  ghost predicate Doubled(node: Node, after: Option<Value>) {
    && (after.Some? <==> node.kind == "http" && Whole(node.timeoutMs, 1, 300_000).Some?)
    && (after.Some? ==> Whole(after, 2, 600_000) == Some(2 * Whole(node.timeoutMs, 1, 300_000).value))
  }

  lemma DoubledTimeout(node: Node)
    ensures Doubled(node, Proposal(node).timeoutMs)
  {
    if Whole(node.timeoutMs, 1, 300_000).Some? {
      WholeOfNum(2 * Whole(node.timeoutMs, 1, 300_000).value, 2, 600_000);
    }
  }

  /** Controls are healed apart: each depends on the control of its own name, the maximum delay on the delay too. */
  lemma ControlsHealApart(a: Retry, b: Retry)
    ensures var p, q := ProposedRetry(a), ProposedRetry(b);
            && (a.maxAttempts == b.maxAttempts ==> p.maxAttempts == q.maxAttempts)
            && (a.delayMs == b.delayMs ==> p.delayMs == q.delayMs)
            && (a.delayMs == b.delayMs && a.maxDelayMs == b.maxDelayMs ==> p.maxDelayMs == q.maxDelayMs)
            && (a.backoff == b.backoff ==> p.backoff == q.backoff) && (a.jitter == b.jitter ==> p.jitter == q.jitter)
            && (a.retryOn == b.retryOn ==> p.retryOn == q.retryOn) && (a.ignoreOn == b.ignoreOn ==> p.ignoreOn == q.ignoreOn)
  {
  }

  method DeterministicHealingPatch(env: Env, node: Node) returns (patch: Option<Patch>)
    ensures patch == if env.eligible(node) && !env.hasSecret(Proposal(node)) then Some(Proposal(node)) else None
    ensures patch.Some? ==> Cured(node.retry, patch.value.retry)
    ensures patch.Some? ==> Doubled(node, patch.value.timeoutMs)
  {
    CuredByProposal(node);
    DoubledTimeout(node);
    if !env.eligible(node) {
      return None;
    }
    var retry := EMPTY.(maxAttempts := Num(3), delayMs := Num(1000), backoff := Some(Str("exponential")));
    var delay, maximum := 1000, None;
    if node.retry.Some? && node.retry.value.Block? {
      var existing := node.retry.value.retry;
      var attempts := Whole(existing.maxAttempts, 2, 10);
      if attempts.Some? && attempts.value > 3 {
        retry := retry.(maxAttempts := Num(attempts.value));
      }
      var d := Whole(existing.delayMs, 1, 600_000);
      if d.Some? {
        delay := d.value;
        retry := retry.(delayMs := Num(delay));
      }
      maximum := Whole(existing.maxDelayMs, 1, 3_600_000);
      if maximum.Some? {
        retry := retry.(maxDelayMs := Num(maximum.value));
      }
      if IsBackoff(existing.backoff) {
        retry := retry.(backoff := existing.backoff);
      }
      if existing.jitter.Some? && existing.jitter.value.Bool? {
        retry := retry.(jitter := existing.jitter);
      }
      if HealingList(existing.retryOn) {
        retry := retry.(retryOn := existing.retryOn);
      }
      if HealingList(existing.ignoreOn) {
        retry := retry.(ignoreOn := existing.ignoreOn);
      }
    }
    if maximum.Some? && maximum.value < delay {
      retry := retry.(maxDelayMs := None);
    }
    assert retry == ProposedRetry(ExistingRetry(node));
    var proposal := NO_PATCH.(retry := Some(Block(retry)));
    if node.kind == "http" {
      var timeout := Whole(node.timeoutMs, 1, 300_000);
      if timeout.Some? {
        proposal := proposal.(timeoutMs := Num(timeout.value * 2));
      }
    }
    assert proposal == Proposal(node);
    ProposalInGrammar(env, node);
    patch := ProjectHealingPatch(env, node, proposal);
  }

  lemma WholeOfNum(n: int, low: int, high: int)
    requires low <= n <= high
    ensures Whole(Num(n), low, high) == Some(n)
  {
  }

  lemma ProposedRetryInGrammar(existing: Retry)
    ensures HealingRetry(ProposedRetry(existing))
  {
    var r := ProposedRetry(existing);
    WholeOfNum(r.maxAttempts.value.number.Floor, 2, 10);
    WholeOfNum(r.delayMs.value.number.Floor, 1, 600_000);
    if r.maxDelayMs.Some? {
      WholeOfNum(r.maxDelayMs.value.number.Floor, 1, 3_600_000);
    }
  }

  /** The proposal always lies in the healing grammar, so it is a fixed point of the projection unless it looks secret. */
  lemma ProposalInGrammar(env: Env, node: Node)
    ensures HealingPatch(env, node, Proposal(node)) <==> env.eligible(node) && !env.hasSecret(Proposal(node))
  {
    ProposedRetryInGrammar(ExistingRetry(node));
    var timeout := Whole(node.timeoutMs, 1, 300_000);
    if timeout.Some? {
      WholeOfNum(timeout.value * 2, 1, 600_000);
    }
  }

  // ----- the retry-policy grammar

  predicate PolicyMatcher(v: Value) {
    v.Str? && v.text != "" && TrimSpace(v.text) == v.text && |v.text| <= 64
  }

  ghost predicate Distinct(items: seq<Value>) {
    forall i, j :: 0 <= i < j < |items| ==> items[i] != items[j]
  }

  /** An absent or null list, or up to twenty distinct trimmed strings. */
  ghost predicate PolicyList(v: Option<Value>) {
    v.None? || v.value == Null ||
    (v.value.Arr? && |v.value.items| <= 20 && (forall x :: x in v.value.items ==> PolicyMatcher(x)) && Distinct(v.value.items))
  }

  ghost predicate ValidRetry(v: RetryValue) {
    && v.Block? && v.retry != EMPTY && v.retry.extra == {}
    && Whole(v.retry.maxAttempts, 1, 10).Some?
    && (v.retry.delayMs.Some? ==> Whole(v.retry.delayMs, 1, 600_000).Some?)
    && (v.retry.maxDelayMs.Some? ==> Whole(v.retry.maxDelayMs, 1, 3_600_000).Some?)
    && (v.retry.backoff.Some? ==> IsBackoff(v.retry.backoff))
    && (v.retry.jitter.Some? ==> v.retry.jitter.value.Bool?)
    && PolicyList(v.retry.retryOn) && PolicyList(v.retry.ignoreOn)
  }

  /** `items` are the texts of the list, none for an absent or null one. */
  ghost predicate Lists(v: Option<Value>, items: seq<string>) {
    if v.None? || !v.value.Arr? then items == []
    else |items| == |v.value.items| && forall i :: 0 <= i < |items| ==> v.value.items[i] == Str(items[i])
  }

  method ResolveRetryMatchers(v: Option<Value>) returns (items: Option<seq<string>>)
    ensures items.Some? <==> PolicyList(v)
    ensures items.Some? ==> Lists(v, items.value)
  {
    if v.None? || v.value == Null {
      return Some([]);
    }
    if !v.value.Arr? || |v.value.items| > 20 {
      return None;
    }
    var raw := v.value.items;
    var texts: seq<string> := [];
    for i := 0 to |raw|
      invariant |texts| == i && forall j :: 0 <= j < i ==> raw[j] == Str(texts[j])
      invariant forall j :: 0 <= j < i ==> PolicyMatcher(raw[j])
      invariant forall j, k :: 0 <= j < k < i ==> raw[j] != raw[k]
    {
      if !PolicyMatcher(raw[i]) {
        return None;
      }
      if raw[i].text in texts {
        ghost var j :| 0 <= j < i && texts[j] == raw[i].text;
        assert raw[j] == raw[i];
        return None;
      }
      texts := texts + [raw[i].text];
    }
    return Some(texts);
  }

  method ResolveRetryPolicy(v: RetryValue) returns (policy: Option<Policy>)
    ensures policy.Some? <==> ValidRetry(v)
    ensures policy.Some? ==> Some(policy.value.maxAttempts) == Whole(v.retry.maxAttempts, 1, 10)
    ensures policy.Some? ==> policy.value.delayMs == if v.retry.delayMs.Some? then Whole(v.retry.delayMs, 1, 600_000).value else 1000
    ensures policy.Some? ==> policy.value.maxDelayMs == Whole(v.retry.maxDelayMs, 1, 3_600_000)
    ensures policy.Some? ==> v.retry.backoff == if policy.value.backoff == "" then None else Some(Str(policy.value.backoff))
    ensures policy.Some? ==> (policy.value.jitter <==> v.retry.jitter == Some(Bool(true)))
    ensures policy.Some? ==> Lists(v.retry.retryOn, policy.value.retryOn) && Lists(v.retry.ignoreOn, policy.value.ignoreOn)
  {
    if !v.Block? || v.retry == EMPTY || v.retry.extra != {} {
      return None;
    }
    var r := v.retry;
    var attempts := Whole(r.maxAttempts, 1, 10);
    if attempts.None? {
      return None;
    }
    var result := Policy(attempts.value, 1000, None, "", false, [], []);
    if r.delayMs.Some? {
      var delay := Whole(r.delayMs, 1, 600_000);
      if delay.None? {
        return None;
      }
      result := result.(delayMs := delay.value);
    }
    if r.maxDelayMs.Some? {
      var maximum := Whole(r.maxDelayMs, 1, 3_600_000);
      if maximum.None? {
        return None;
      }
      result := result.(maxDelayMs := maximum);
    }
    if r.backoff.Some? {
      if !IsBackoff(r.backoff) {
        return None;
      }
      result := result.(backoff := r.backoff.value.text);
    }
    if r.jitter.Some? {
      if !r.jitter.value.Bool? {
        return None;
      }
      result := result.(jitter := r.jitter.value.flag);
    }
    var retryOn := ResolveRetryMatchers(r.retryOn);
    var ignoreOn := ResolveRetryMatchers(r.ignoreOn);
    if retryOn.None? || ignoreOn.None? {
      return None;
    }
    return Some(result.(retryOn := retryOn.value, ignoreOn := ignoreOn.value));
  }

  /** The list a proposal keeps is one the policy accepts exactly when it has no duplicate. */
  ghost predicate KeptDistinct(v: Option<Value>) {
    HealingList(v) ==> Distinct(v.value.items)
  }

  lemma KeptListAccepted(v: Option<Value>)
    ensures PolicyList(if HealingList(v) then v else None) <==> KeptDistinct(v)
  {
  }

  /** Matchers are texts of at most 64 characters that begin and end visibly; the healing grammar wants them on one line. */
  lemma MatchersExactly(v: Value)
    ensures PolicyMatcher(v) <==>
              v.Str? && 0 < |v.text| < 65 && !IsSpace(v.text[0]) && !IsSpace(v.text[|v.text| - 1])
    ensures HealingMatcher(v) <==> PolicyMatcher(v) && forall c :: c in v.text ==> c != '\n' && c != '\r'
  {
    if v.Str? && 0 < |v.text| && !IsSpace(v.text[0]) && !IsSpace(v.text[|v.text| - 1]) {
      TrimmedIsFixed(v.text);
    }
  }

  /** The two grammars differ in single attempts, in a maximum below the delay, and in what lists may hold. */
  lemma GrammarsDiffer(r: Retry)
    ensures HealingRetry(r) && KeptDistinct(r.retryOn) && KeptDistinct(r.ignoreOn) <==>
              && ValidRetry(Block(r)) && Whole(r.maxAttempts, 1, 1).None?
              && (r.delayMs.Some? && r.maxDelayMs.Some? ==> r.delayMs.value.number <= r.maxDelayMs.value.number)
              && ShortList(r.retryOn) && ShortList(r.ignoreOn)
  {
    ListsDiffer(r.retryOn);
    ListsDiffer(r.ignoreOn);
  }

  ghost predicate ShortList(v: Option<Value>) {
    v.None? || (v.value.Arr? && |v.value.items| < 17 && forall x :: x in v.value.items ==> HealingMatcher(x))
  }

  lemma ListsDiffer(v: Option<Value>)
    ensures (v.Some? ==> HealingList(v)) && KeptDistinct(v) <==> PolicyList(v) && ShortList(v)
  {
  }

  /** Any proposal's retry block is a valid policy exactly when the matcher lists it keeps have no duplicates. */
  lemma ProposalIsPolicyExactly(existing: Retry)
    ensures ValidRetry(Block(ProposedRetry(existing))) <==> KeptDistinct(existing.retryOn) && KeptDistinct(existing.ignoreOn)
  {
    ProposedRetryInGrammar(existing);
    KeptListAccepted(existing.retryOn);
    KeptListAccepted(existing.ignoreOn);
    var r := ProposedRetry(existing);
    assert Whole(r.maxAttempts, 1, 10) == Whole(r.maxAttempts, 2, 10);
  }

  /** A list that names a matcher twice passes the healing grammar and is kept, and the policy refuses it. */
  lemma RepeatedMatcherRefused()
    ensures var existing := EMPTY.(retryOn := Some(Arr([Str("a"), Str("a")])));
            HealingRetry(ProposedRetry(existing)) && !ValidRetry(Block(ProposedRetry(existing)))
  {
    var items := [Str("a"), Str("a")];
    var existing := EMPTY.(retryOn := Some(Arr(items)));
    TrimmedIsFixed("a");
    assert HealingMatcher(items[0]);
    assert HealingList(existing.retryOn);
    assert items[0] == items[1] && !Distinct(items);
    ProposedRetryInGrammar(existing);
    ProposalIsPolicyExactly(existing);
  }

  /** Every accepted configuration, or none, is hardened into an accepted one: attempts never fall and the timeout stays bounded. */
  lemma HealingHardensAcceptedPolicies(env: Env, node: Node)
    requires node.retry.Some? ==> ValidRetry(node.retry.value)
    ensures ValidRetry(Proposal(node).retry.value)
    ensures var after := Whole(Proposal(node).retry.value.retry.maxAttempts, 1, 10);
            after.Some? && after.value >= 3
            && (node.retry.Some? ==> after.value >= Whole(node.retry.value.retry.maxAttempts, 1, 10).value)
    ensures Proposal(node).timeoutMs.Some? ==>
              node.kind == "http" && Whole(Proposal(node).timeoutMs, 1, 600_000).Some?
              && Whole(Proposal(node).timeoutMs, 1, 600_000).value == 2 * Whole(node.timeoutMs, 1, 300_000).value
  {
    var existing := ExistingRetry(node);
    ProposalIsPolicyExactly(existing);
    var attempts := Whole(existing.maxAttempts, 2, 10);
    WholeOfNum(if attempts.Some? && attempts.value > 3 then attempts.value else 3, 1, 10);
    var timeout := Whole(node.timeoutMs, 1, 300_000);
    if timeout.Some? {
      WholeOfNum(timeout.value * 2, 1, 600_000);
    }
  }
}
