/** The recovery contract, its validation, and the seven gates of autonomous technical recovery. */
module RecoveryPolicy {
  import opened Options
  import opened Utf8

  datatype Evidence = Static | WritesSkipped | ProviderSimulated | LiveCanary | UnknownEvidence

  datatype EvidenceKind =
    | FailureSnapshot | RunTimeline | AuditTrail | ValidationReceipt | EffectReceipt | TerminalOutcome | UnknownKind

  datatype RepairClass =
    | Retry | ConfigPatch | StructuralPatch | Rollback | CredentialRotation | UpstreamWait | UnknownRepair

  datatype Idempotency = IdempotencyRequired | ProviderGuaranteed | Unavailable | UnknownIdempotency

  datatype ReceiptSource = RuntimeReceipt | ProviderReceipt | ManualReceipt | UnknownReceipt

  datatype Effect = Effect(nodeId: string, kindKnown: bool, idempotency: Idempotency, receipt: ReceiptSource)

  datatype Mutation = MutationRequired | AutonomousLevel4 | UnknownMutation

  datatype FailureKey = TerminalNodeFailure | StalledNode | UnknownFailure

  datatype Narrow = Narrow(allowedRepairs: seq<RepairClass>, minimumPrior: int, maxAffected: int, rollbackRequired: bool)

  /** `semanticOk` and `envelopesOk` stand for the semantic, verification and recurrence sections. */
  datatype Contract = Contract(knownVersion: bool, terminalNodeFailure: bool, overrides: map<FailureKey, int>,
                               semanticOk: bool, evidence: seq<EvidenceKind>, effects: seq<Effect>,
                               repairs: seq<RepairClass>, minimumEvidence: Evidence, permissionOk: bool,
                               mutation: Mutation, autonomyLevel: int, narrow: Option<Narrow>, envelopesOk: bool)

  datatype Assessment = Assessment(policy: bool, repairScope: bool, validationEvidence: bool, priorRecoveries: bool,
                                   blastRadius: bool, rollback: bool, effectReceipts: bool)

  /** The persisted facts a recovery is assessed on. */
  datatype Facts = Facts(stalled: bool, repair: Option<RepairClass>, evidence: Evidence, prior: int, affected: int,
                         rollbackReady: bool)

  predicate SupportsAutonomous(e: Evidence) {
    e == ProviderSimulated || e == LiveCanary
  }

  function Rank(e: Evidence): int {
    match e
    case Static => 0
    case WritesSkipped => 1
    case ProviderSimulated => 2
    case LiveCanary => 3
    case UnknownEvidence => -1
  }

  /** An unknown level counts as static. */
  function Parsed(e: Evidence): Evidence {
    if e == UnknownEvidence then Static else e
  }

  ghost predicate Unique<T>(xs: seq<T>) {
    forall i, j :: 0 <= i < j < |xs| ==> xs[i] != xs[j]
  }

  predicate IsLevel(level: int) {
    0 <= level <= 4
  }

  ghost predicate ValidFailure(c: Contract) {
    && c.terminalNodeFailure && c.semanticOk
    && forall k :: ValidOverride(c, k)
  }

  predicate ValidOverride(c: Contract, k: FailureKey) {
    k in c.overrides ==> k != UnknownFailure && IsLevel(c.overrides[k]) && c.overrides[k] <= c.autonomyLevel
  }

  ghost predicate ValidEvidence(c: Contract) {
    && 1 <= |c.evidence| <= 6 && Unique(c.evidence) && UnknownKind !in c.evidence
    && FailureSnapshot in c.evidence && AuditTrail in c.evidence && TerminalOutcome in c.evidence
  }

  predicate SafeEffect(e: Effect) {
    e.idempotency != Unavailable && e.receipt != ManualReceipt
  }

  predicate KnownEffect(e: Effect) {
    && e.nodeId != "" && ByteLength(e.nodeId) <= 200 && e.kindKnown
    && e.idempotency != UnknownIdempotency && e.receipt != UnknownReceipt
  }

  /** No problem in the declared effects; safe ones can be retried and leave a machine receipt. */
  ghost predicate ValidEffects(c: Contract) {
    && |c.effects| <= 100
    && (forall e :: e in c.effects ==> KnownEffect(e))
    && forall i, j :: 0 <= i < j < |c.effects| ==> c.effects[i].nodeId != c.effects[j].nodeId
  }

  ghost predicate ValidRepairs(c: Contract) {
    |c.repairs| >= 1 && Unique(c.repairs) && UnknownRepair !in c.repairs
  }

  ghost predicate ValidValidationLevel(c: Contract) {
    && c.minimumEvidence != UnknownEvidence
    && (c.minimumEvidence != Static ==> ValidationReceipt in c.evidence)
    && (SupportsAutonomous(c.minimumEvidence) ==> EffectReceipt in c.evidence)
  }

  ghost predicate ValidNarrow(c: Contract, n: Narrow) {
    && Unique(n.allowedRepairs) && |n.allowedRepairs| >= 1 && (forall r :: r in n.allowedRepairs ==> r in c.repairs)
    && 1 <= n.minimumPrior <= 1000 && 1 <= n.maxAffected <= 100 && n.rollbackRequired
  }

  ghost predicate ValidAutonomy(c: Contract) {
    && IsLevel(c.autonomyLevel)
    && if c.autonomyLevel == 4 then
         && SupportsAutonomous(c.minimumEvidence) && c.mutation == AutonomousLevel4
         && c.narrow.Some? && ValidNarrow(c, c.narrow.value)
         && forall e :: e in c.effects ==> SafeEffect(e)
       else c.mutation == MutationRequired && c.narrow.None?
  }

  /** A contract without problems in any section. */
  ghost predicate ValidContract(c: Contract) {
    && c.knownVersion && c.permissionOk && c.mutation != UnknownMutation && c.envelopesOk
    && ValidFailure(c) && ValidEvidence(c) && ValidEffects(c) && ValidRepairs(c)
    && ValidValidationLevel(c) && ValidAutonomy(c)
  }

  method HasDuplicates<T(==)>(xs: seq<T>) returns (found: bool)
    ensures found <==> !Unique(xs)
  {
    var seen := {};
    for i := 0 to |xs|
      invariant Unique(xs[..i]) && forall x :: x in seen <==> x in xs[..i]
    {
      if xs[i] in seen {
        return true;
      }
      seen := seen + {xs[i]};
    }
    assert xs[..|xs|] == xs;
    return false;
  }

  /** The validators of the sections count the problems they report. */
  method ValidateFailure(c: Contract) returns (problems: nat)
    ensures problems == 0 <==> ValidFailure(c)
  {
    problems := (if c.terminalNodeFailure then 0 else 1) + (if c.semanticOk then 0 else 1);
    var classes := [StalledNode, TerminalNodeFailure, UnknownFailure];
    for i := 0 to |classes|
      invariant problems == 0 <==> c.terminalNodeFailure && c.semanticOk && forall j :: 0 <= j < i ==> ValidOverride(c, classes[j])
    {
      if classes[i] in c.overrides {
        var level := c.overrides[classes[i]];
        if classes[i] == UnknownFailure {
          problems := problems + 1;
        } else if !IsLevel(level) {
          problems := problems + 1;
        } else if level > c.autonomyLevel {
          problems := problems + 1;
        }
      }
    }
    assert classes[0] == StalledNode && classes[1] == TerminalNodeFailure && classes[2] == UnknownFailure;
  }

  method ValidateEvidence(c: Contract) returns (problems: nat, required: set<EvidenceKind>)
    ensures problems == 0 <==> ValidEvidence(c)
    ensures forall k :: k in required <==> k in c.evidence
  {
    var duplicates := HasDuplicates(c.evidence);
    problems := (if 1 <= |c.evidence| <= 6 then 0 else 1) + (if duplicates then 1 else 0);
    required := {};
    for i := 0 to |c.evidence|
      invariant forall k :: k in required <==> k in c.evidence[..i]
      invariant problems == 0 <==> 1 <= |c.evidence| <= 6 && !duplicates && UnknownKind !in c.evidence[..i]
    {
      if c.evidence[i] == UnknownKind {
        problems := problems + 1;
      }
      required := required + {c.evidence[i]};
    }
    assert c.evidence[..|c.evidence|] == c.evidence;
    problems := problems + (if FailureSnapshot in required then 0 else 1)
                         + (if AuditTrail in required then 0 else 1) + (if TerminalOutcome in required then 0 else 1);
  }

  method ValidateEffects(c: Contract) returns (problems: nat)
    ensures problems == 0 <==> ValidEffects(c)
  {
    problems := if |c.effects| > 100 then 1 else 0;
    var ids := [];
    for i := 0 to |c.effects|
      invariant |ids| == i && forall j :: 0 <= j < i ==> ids[j] == c.effects[j].nodeId
      invariant problems == 0 <==> |c.effects| <= 100 && forall j :: 0 <= j < i ==> KnownEffect(c.effects[j])
    {
      var e := c.effects[i];
      ids := ids + [e.nodeId];
      problems := problems + (if e.nodeId == "" || ByteLength(e.nodeId) > 200 then 1 else 0) + (if e.kindKnown then 0 else 1)
                           + (if e.idempotency == UnknownIdempotency then 1 else 0)
                           + (if e.receipt == UnknownReceipt then 1 else 0);
    }
    var duplicates := HasDuplicates(ids);
    problems := problems + if duplicates then 1 else 0;
  }

  method ValidateRepairs(c: Contract) returns (problems: nat, allowed: set<RepairClass>)
    ensures problems == 0 <==> ValidRepairs(c)
    ensures forall r :: r in allowed <==> r in c.repairs
  {
    var duplicates := HasDuplicates(c.repairs);
    problems := (if |c.repairs| < 1 then 1 else 0) + (if duplicates then 1 else 0);
    allowed := {};
    for i := 0 to |c.repairs|
      invariant forall r :: r in allowed <==> r in c.repairs[..i]
      invariant problems == 0 <==> |c.repairs| >= 1 && !duplicates && UnknownRepair !in c.repairs[..i]
    {
      if c.repairs[i] == UnknownRepair {
        problems := problems + 1;
      }
      allowed := allowed + {c.repairs[i]};
    }
    assert c.repairs[..|c.repairs|] == c.repairs;
  }

  method ValidateNarrow(c: Contract, n: Narrow, allowed: set<RepairClass>) returns (problems: nat)
    requires forall r :: r in allowed <==> r in c.repairs
    ensures problems == 0 <==> ValidNarrow(c, n)
  {
    var duplicates := HasDuplicates(n.allowedRepairs);
    problems := (if duplicates then 1 else 0) + (if |n.allowedRepairs| < 1 then 1 else 0);
    for i := 0 to |n.allowedRepairs|
      invariant problems == 0 <==>
                  !duplicates && |n.allowedRepairs| >= 1 && forall r :: r in n.allowedRepairs[..i] ==> r in c.repairs
    {
      assert n.allowedRepairs[..i + 1] == n.allowedRepairs[..i] + [n.allowedRepairs[i]];
      if n.allowedRepairs[i] !in allowed {
        problems := problems + 1;
      }
    }
    assert n.allowedRepairs[..|n.allowedRepairs|] == n.allowedRepairs;
    problems := problems + (if 1 <= n.minimumPrior <= 1000 then 0 else 1) + (if 1 <= n.maxAffected <= 100 then 0 else 1)
                         + (if n.rollbackRequired then 0 else 1);
  }

  method ValidateSafeEffects(c: Contract) returns (problems: nat)
    ensures problems == 0 <==> forall e :: e in c.effects ==> SafeEffect(e)
  {
    problems := 0;
    for i := 0 to |c.effects|
      invariant problems == 0 <==> forall j :: 0 <= j < i ==> SafeEffect(c.effects[j])
    {
      problems := problems + (if c.effects[i].idempotency == Unavailable then 1 else 0)
                           + (if c.effects[i].receipt == ManualReceipt then 1 else 0);
    }
  }

  method ValidateAutonomy(c: Contract, allowed: set<RepairClass>) returns (problems: nat)
    requires forall r :: r in allowed <==> r in c.repairs
    ensures problems == 0 <==> ValidAutonomy(c)
  {
    problems := if IsLevel(c.autonomyLevel) then 0 else 1;
    if c.autonomyLevel == 4 {
      problems := problems + (if SupportsAutonomous(c.minimumEvidence) then 0 else 1)
                           + (if c.mutation == AutonomousLevel4 then 0 else 1);
      var bounds := 1;
      if c.narrow.Some? {
        bounds := ValidateNarrow(c, c.narrow.value, allowed);
      }
      var unsafe := ValidateSafeEffects(c);
      problems := problems + bounds + unsafe;
    } else {
      problems := problems + (if c.mutation == MutationRequired then 0 else 1) + (if c.narrow.Some? then 1 else 0);
    }
  }

  /** Reports no problem exactly for a missing contract and for one valid in every section. */
  method ValidateRecoveryContract(contract: Option<Contract>) returns (problems: nat)
    ensures problems == 0 <==> contract.None? || ValidContract(contract.value)
  {
    if contract.None? {
      return 0;
    }
    var c := contract.value;
    if !c.knownVersion {
      return 1;
    }
    var failure := ValidateFailure(c);
    var evidence, required := ValidateEvidence(c);
    var effects := ValidateEffects(c);
    var repairs, allowed := ValidateRepairs(c);
    problems := failure + evidence + effects + repairs
                + (if c.minimumEvidence == UnknownEvidence then 1 else 0)
                + (if c.minimumEvidence != Static && ValidationReceipt !in required then 1 else 0)
                + (if SupportsAutonomous(c.minimumEvidence) && EffectReceipt !in required then 1 else 0)
                + (if c.permissionOk then 0 else 1) + (if c.mutation == UnknownMutation then 1 else 0);
    var autonomy := ValidateAutonomy(c, allowed);
    problems := problems + autonomy + if c.envelopesOk then 0 else 1;
  }

  /** A valid contract without overrides can be turned over to people at any level below the autonomous one. */
  lemma LevelsBelowAutonomy(c: Contract, level: int)
    requires ValidContract(c) && c.overrides == map[]
    ensures ValidContract(c.(autonomyLevel := level, mutation := MutationRequired, narrow := None)) <==> 0 <= level < 4
  {
  }

  /** An override may be set for a known kind of failure, to any level up to the contract's own. */
  lemma OverrideBounds(c: Contract, k: FailureKey, level: int)
    requires ValidContract(c)
    ensures ValidContract(c.(overrides := c.overrides[k := level])) <==>
              (k == TerminalNodeFailure || k == StalledNode) && 0 <= level <= c.autonomyLevel
  {
    var d := c.(overrides := c.overrides[k := level]);
    forall other: FailureKey | other != k
      ensures ValidOverride(d, other)
    {
      assert ValidOverride(c, other);
    }
    assert ValidFailure(d) <==> ValidOverride(d, k);
  }

  /** The bounds of an autonomous contract move freely within 1 to 1000 recoveries and 1 to 100 executions. */
  lemma NarrowBounds(c: Contract, prior: int, affected: int, rollback: bool)
    requires ValidContract(c) && c.autonomyLevel == 4
    ensures var n := c.narrow.value.(minimumPrior := prior, maxAffected := affected, rollbackRequired := rollback);
            ValidContract(c.(narrow := Some(n))) <==> 0 < prior < 1001 && 0 < affected < 101 && rollback
  {
    SameFailure(c, c.(narrow := Some(c.narrow.value.(minimumPrior := prior, maxAffected := affected, rollbackRequired := rollback))));
  }

  /** A declared effect needs a node and known kinds; under an autonomous contract also a retry and a machine receipt. */
  lemma EffectBounds(c: Contract, e: Effect)
    requires ValidContract(c)
    ensures ValidContract(c.(effects := [e])) <==>
              && e.nodeId != "" && ByteLength(e.nodeId) < 201 && e.kindKnown
              && (e.idempotency in {IdempotencyRequired, ProviderGuaranteed} || (e.idempotency == Unavailable && c.autonomyLevel < 4))
              && (e.receipt in {RuntimeReceipt, ProviderReceipt} || (e.receipt == ManualReceipt && c.autonomyLevel < 4))
  {
    var d := c.(effects := [e]);
    SameFailure(c, d);
    assert d.effects[0] == e;
    assert ValidEffects(d) <==> KnownEffect(e);
    assert ValidAutonomy(d) <==> (c.autonomyLevel == 4 ==> SafeEffect(e));
    assert ValidEvidence(d) && ValidRepairs(d) && ValidValidationLevel(d);
  }

  lemma SameFailure(c: Contract, d: Contract)
    requires d.overrides == c.overrides && d.autonomyLevel == c.autonomyLevel
    requires d.terminalNodeFailure == c.terminalNodeFailure && d.semanticOk == c.semanticOk
    ensures ValidFailure(d) <==> ValidFailure(c)
  {
    assert forall k :: ValidOverride(c, k) <==> ValidOverride(d, k);
  }

  /** The autonomy level for a technical failure: its override, or the workflow's own level. */
  function ResolvedLevel(c: Contract, stalled: bool): int {
    var key := if stalled then StalledNode else TerminalNodeFailure;
    if key in c.overrides then c.overrides[key] else c.autonomyLevel
  }

  /** Receipts are kept, and every declared effect can be retried and leaves a machine receipt. */
  method SafeReceipts(c: Contract) returns (safe: bool)
    ensures safe <==> EffectReceipt in c.evidence && forall e :: e in c.effects ==> SafeEffect(e)
  {
    safe := EffectReceipt in c.evidence;
    if safe {
      for i := 0 to |c.effects|
        invariant forall j :: 0 <= j < i ==> SafeEffect(c.effects[j])
      {
        if c.effects[i].idempotency == Unavailable || c.effects[i].receipt == ManualReceipt {
          assert c.effects[i] in c.effects;
          return false;
        }
      }
    }
  }

  /**
   * The seven gates, in order; without a contract every gate is closed. Under a valid contract an open policy gate
   * means level 4 with safe effects, and all gates together mean exactly what `EligibleExactly` spells out.
   */
  method Assess(contract: Option<Contract>, facts: Facts) returns (a: Assessment)
    ensures contract.None? ==> a == Assessment(false, false, false, false, false, false, false)
    ensures contract.Some? ==> a == Gates(contract.value, facts)
    ensures Eligible(a) <==> a == Assessment(true, true, true, true, true, true, true)
    ensures contract.Some? && ValidContract(contract.value) ==> Justified(contract.value, facts, a)
  {
    if contract.None? {
      return Assessment(false, false, false, false, false, false, false);
    }
    var c := contract.value;
    var receipts := SafeReceipts(c);
    var narrow := c.narrow;
    a := Assessment(
      ResolvedLevel(c, facts.stalled) == 4 && c.mutation == AutonomousLevel4,
      facts.repair.Some? && narrow.Some? && facts.repair.value in c.repairs && facts.repair.value in narrow.value.allowedRepairs,
      Rank(Parsed(facts.evidence)) >= Rank(c.minimumEvidence) && SupportsAutonomous(Parsed(facts.evidence)),
      narrow.Some? && facts.prior >= narrow.value.minimumPrior,
      narrow.Some? && 1 <= facts.affected <= narrow.value.maxAffected,
      narrow.Some? && narrow.value.rollbackRequired && facts.rollbackReady,
      receipts);
    GatesMean(c, facts);
  }

  /** An open policy gate means level 4 with bounds and safe effects; all gates open means the recovery deserves it. */
  ghost predicate Justified(c: Contract, f: Facts, a: Assessment) {
    && (a.policy ==> c.autonomyLevel == 4 && c.narrow.Some? && a.effectReceipts)
    && (Eligible(a) <==> Deserves(c, f))
  }

  lemma GatesMean(c: Contract, f: Facts)
    ensures ValidContract(c) ==> Justified(c, f, Gates(c, f))
  {
    if ValidContract(c) {
      EligibleExactly(c, f);
      if Gates(c, f).policy {
        PolicyGateForcesLevel4(c, f);
      }
    }
  }

  function Gates(c: Contract, f: Facts): Assessment {
    var n := c.narrow;
    Assessment(
      ResolvedLevel(c, f.stalled) == 4 && c.mutation == AutonomousLevel4,
      f.repair.Some? && n.Some? && f.repair.value in c.repairs && f.repair.value in n.value.allowedRepairs,
      Rank(Parsed(f.evidence)) >= Rank(c.minimumEvidence) && SupportsAutonomous(Parsed(f.evidence)),
      n.Some? && f.prior >= n.value.minimumPrior,
      n.Some? && 1 <= f.affected <= n.value.maxAffected,
      n.Some? && n.value.rollbackRequired && f.rollbackReady,
      EffectReceipt in c.evidence && forall e :: e in c.effects ==> SafeEffect(e))
  }

  predicate Eligible(a: Assessment) {
    a.policy && a.repairScope && a.validationEvidence && a.priorRecoveries && a.blastRadius && a.rollback && a.effectReceipts
  }

  /** In a valid contract an open policy gate forces level 4, its bounds and safe effects, even through an override. */
  lemma PolicyGateForcesLevel4(c: Contract, f: Facts)
    requires ValidContract(c) && Gates(c, f).policy
    ensures c.autonomyLevel == 4 && c.narrow.Some? && ValidNarrow(c, c.narrow.value)
    ensures Gates(c, f).effectReceipts
  {
    var key := if f.stalled then StalledNode else TerminalNodeFailure;
    assert ValidOverride(c, key);
  }

  /** An override is about the failures of its own kind. */
  predicate Concerns(k: FailureKey, stalled: bool) {
    (k == StalledNode && stalled) || (k == TerminalNodeFailure && !stalled)
  }

  /** Level 4, an allowed repair, and enough evidence, history and bounds. */
  predicate Deserves(c: Contract, f: Facts) {
    && c.autonomyLevel == 4 && (forall k :: k in c.overrides && Concerns(k, f.stalled) ==> c.overrides[k] == 4)
    && f.repair.Some? && c.narrow.Some? && f.repair.value in c.narrow.value.allowedRepairs
    && (f.evidence == LiveCanary || (f.evidence == ProviderSimulated && c.minimumEvidence != LiveCanary))
    && f.prior >= c.narrow.value.minimumPrior
    && 1 <= f.affected <= c.narrow.value.maxAffected && f.rollbackReady
  }

  /** An override sets the level of the failures it concerns, without it the workflow's level holds, and no other gate moves. */
  lemma OverrideDecides(c: Contract, f: Facts, k: FailureKey, level: int)
    ensures var with, without := c.(overrides := c.overrides[k := level]), c.(overrides := c.overrides - {k});
            if Concerns(k, f.stalled) then
              && Gates(with, f) == Gates(c, f).(policy := level == 4 && c.mutation == AutonomousLevel4)
              && Gates(without, f) == Gates(c, f).(policy := c.autonomyLevel == 4 && c.mutation == AutonomousLevel4)
            else Gates(with, f) == Gates(c, f) == Gates(without, f)
  {
  }

  /** In a valid contract eligibility comes down to level, repair, evidence, history, blast radius and rollback. */
  lemma EligibleExactly(c: Contract, f: Facts)
    requires ValidContract(c)
    ensures Eligible(Gates(c, f)) <==> Deserves(c, f)
  {
    var key := if f.stalled then StalledNode else TerminalNodeFailure;
    assert ValidOverride(c, key);
    if Gates(c, f).policy {
      PolicyGateForcesLevel4(c, f);
    }
  }

  /** More evidence, more history and a smaller blast radius never cost eligibility, under any contract. */
  lemma EligibilityMonotone(c: Contract, f: Facts, g: Facts)
    requires g.stalled == f.stalled && g.repair == f.repair && g.rollbackReady == f.rollbackReady
    requires Rank(Parsed(f.evidence)) <= Rank(Parsed(g.evidence)) && f.prior <= g.prior && 1 <= g.affected <= f.affected
    ensures Eligible(Gates(c, f)) ==> Eligible(Gates(c, g))
  {
  }
}
