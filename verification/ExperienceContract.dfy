/** The authoring-experience contract: the decision policy requires, and independent validation of proposals. */
module ExperienceContract {
  import opened Options
  import opened Text
  import opened StableSorting

  const POLICY_VERSION := "authoring-experience-v1"
  const MAX_CANDIDATES := 5

  datatype Mode = Reuse | Adapt | Generate | Escalate

  datatype Reason =
    | ExactMatch | DescriptiveAdapt | NoMatch | CanonicalRecipe | IncompleteIntent | ConsentUnavailable
    | AmbiguousMatch | CandidatesTruncated | UnsupportedAdaptation

  datatype Edit = Edit(field: string, value: string)

  datatype Brief = Brief(version: string, language: string, objective: string, trigger: string, expectedOutcome: string,
                         failurePolicy: string, inputs: seq<string>, externalEffects: seq<string>,
                         approvals: seq<string>, examples: seq<string>)

  // Instants are integers; the zero time is 0.
  datatype Candidate = Candidate(id: string, organizationId: string, workflowId: string, versionId: string, version: int,
                                 briefKey: string, policyVersion: string, registeredAt: int, versionCreatedAt: int,
                                 retainUntil: int, revokedAt: Option<int>, deleted: bool, readable: bool, compatible: bool)

  datatype Request = Request(organizationId: string, contextRevision: string, catalogVersion: string, brief: Brief,
                             complete: bool, consent: bool, asOf: int, canonicalRecipe: bool,
                             candidates: seq<Candidate>, truncated: bool, edits: seq<Edit>)

  datatype Proposal = Proposal(mode: Mode, reason: Reason, contextRevision: string, catalogVersion: string,
                               candidateId: string, versionId: string, edits: seq<Edit>)

  datatype Reference = Reference(candidateId: string, workflowId: string, versionId: string, version: int)

  datatype Receipt = Receipt(mode: Mode, reason: Reason, policyVersion: string, contextRevision: string,
                             catalogVersion: string, source: Option<Reference>, edits: seq<Edit>, truncated: bool)

  datatype Decision = Decision(mode: Mode, reason: Reason, selected: Option<Candidate>)

  /** What the policy takes from elsewhere: text grammars, the brief's key, and the encoded size limits. */
  datatype Env = Env(validId: string -> bool, validEdit: Edit -> bool, validKey: string -> bool, validPolicy: string -> bool,
                     validBrief: Brief -> bool, keyOf: Brief -> string,
                     requestFits: Request -> bool, proposalFits: Proposal -> bool, receiptFits: Receipt -> bool)

  predicate SupportedEdits(env: Env, edits: seq<Edit>) {
    |edits| <= 1 && forall e :: e in edits ==> env.validEdit(e)
  }

  predicate ValidCandidate(env: Env, c: Candidate) {
    && env.validId(c.id) && env.validId(c.organizationId) && env.validId(c.workflowId) && env.validId(c.versionId)
    && c.version >= 1 && env.validKey(c.briefKey) && env.validPolicy(c.policyVersion)
    && c.registeredAt != 0 && c.versionCreatedAt != 0 && c.retainUntil != 0
  }

  ghost predicate DistinctIds(cs: seq<Candidate>) {
    forall i, j :: 0 <= i < j < |cs| ==> cs[i].id != cs[j].id
  }

  ghost predicate AllValid(env: Env, cs: seq<Candidate>) {
    forall i :: 0 <= i < |cs| ==> ValidCandidate(env, cs[i])
  }

  function IdsOf(cs: seq<Candidate>): set<string> {
    set c | c in cs :: c.id
  }

  lemma DistinctIdsAppend(cs: seq<Candidate>, c: Candidate)
    ensures DistinctIds(cs + [c]) <==> DistinctIds(cs) && c.id !in IdsOf(cs)
    ensures IdsOf(cs + [c]) == IdsOf(cs) + {c.id}
  {
    var all := cs + [c];
    assert all[|cs|] == c && forall i :: 0 <= i < |cs| ==> all[i] == cs[i];
    if c.id in IdsOf(cs) {
      var d :| d in cs && d.id == c.id;
      var i :| 0 <= i < |cs| && cs[i] == d;
      assert all[i].id == all[|cs|].id;
    }
  }

  lemma DistinctIdsPrefix(cs: seq<Candidate>, k: nat)
    requires k <= |cs|
    ensures DistinctIds(cs) ==> DistinctIds(cs[..k])
  {
  }

  method ValidateIds(cs: seq<Candidate>) returns (ok: bool)
    ensures ok <==> DistinctIds(cs)
  {
    var seen: set<string> := {};
    for i := 0 to |cs|
      invariant seen == IdsOf(cs[..i]) && DistinctIds(cs[..i])
    {
      assert cs[..i + 1] == cs[..i] + [cs[i]];
      DistinctIdsAppend(cs[..i], cs[i]);
      if cs[i].id in seen {
        DistinctIdsPrefix(cs, i + 1);
        return false;
      }
      seen := seen + {cs[i].id};
    }
    assert cs[..|cs|] == cs;
    return true;
  }

  /** The shape of a request apart from its candidates. */
  predicate ValidFrame(env: Env, r: Request) {
    && env.validId(r.organizationId) && env.validId(r.contextRevision) && env.validId(r.catalogVersion)
    && r.asOf != 0 && env.validBrief(r.brief) && |r.edits| <= 1
  }

  ghost predicate ValidRequest(env: Env, r: Request) {
    && env.requestFits(r) && ValidFrame(env, r) && |r.candidates| <= MAX_CANDIDATES
    && AllValid(env, r.candidates) && DistinctIds(r.candidates)
  }

  method ValidateRequest(env: Env, r: Request) returns (ok: bool)
    ensures ok <==> ValidRequest(env, r)
  {
    if !env.requestFits(r) || !ValidFrame(env, r) || |r.candidates| > MAX_CANDIDATES {
      return false;
    }
    for i := 0 to |r.candidates|
      invariant forall j :: 0 <= j < i ==> ValidCandidate(env, r.candidates[j])
    {
      if !ValidCandidate(env, r.candidates[i]) {
        return false;
      }
    }
    ok := ValidateIds(r.candidates);
  }

  predicate CompleteIntent(r: Request) {
    r.complete && TrimSpace(r.brief.objective) != "" && TrimSpace(r.brief.trigger) != "" && TrimSpace(r.brief.expectedOutcome) != ""
  }

  /** Scoped, readable, compatible, alive and current at the as-of instant. */
  predicate Eligible(organizationId: string, asOf: int, c: Candidate) {
    && c.organizationId == organizationId && c.policyVersion == POLICY_VERSION
    && c.readable && c.compatible && !c.deleted && c.registeredAt <= asOf && c.versionCreatedAt <= asOf
    && c.retainUntil > asOf && (c.revokedAt.None? || c.revokedAt.value > asOf)
  }

  predicate Matching(env: Env, r: Request, c: Candidate) {
    Eligible(r.organizationId, r.asOf, c) && c.briefKey == env.keyOf(r.brief)
  }

  function Matches(env: Env, r: Request): seq<Candidate> {
    Filter(r.candidates, c => Matching(env, r, c))
  }

  /** The one decision the policy allows. */
  function RequiredDecision(env: Env, r: Request): Decision {
    if !CompleteIntent(r) then Decision(Escalate, IncompleteIntent, None)
    else if r.canonicalRecipe then Decision(Generate, CanonicalRecipe, None)
    else if !r.consent then Decision(Escalate, ConsentUnavailable, None)
    else if !SupportedEdits(env, r.edits) then Decision(Escalate, UnsupportedAdaptation, None)
    else if r.truncated then Decision(Escalate, CandidatesTruncated, None)
    else
      var ms := Matches(env, r);
      if |ms| == 0 then Decision(Generate, NoMatch, None)
      else if |ms| > 1 then Decision(Escalate, AmbiguousMatch, None)
      else if |r.edits| > 0 then Decision(Adapt, DescriptiveAdapt, Some(ms[0]))
      else Decision(Reuse, ExactMatch, Some(ms[0]))
  }

  lemma FilterPrefixSize<T(!new)>(xs: seq<T>, keep: T -> bool, k: nat)
    requires k <= |xs|
    ensures |Filter(xs[..k], keep)| <= |Filter(xs, keep)|
    decreases |xs|
  {
    if k < |xs| {
      FilterPrefixSize(xs[..|xs| - 1], keep, k);
      assert xs[..|xs| - 1][..k] == xs[..k];
    } else {
      assert xs[..k] == xs;
    }
  }

  method DecideRequired(env: Env, r: Request) returns (d: Decision)
    ensures d == RequiredDecision(env, r)
  {
    if !CompleteIntent(r) {
      return Decision(Escalate, IncompleteIntent, None);
    }
    if r.canonicalRecipe {
      return Decision(Generate, CanonicalRecipe, None);
    }
    if !r.consent {
      return Decision(Escalate, ConsentUnavailable, None);
    }
    if !SupportedEdits(env, r.edits) {
      return Decision(Escalate, UnsupportedAdaptation, None);
    }
    if r.truncated {
      return Decision(Escalate, CandidatesTruncated, None);
    }
    var selected, ambiguous := FindMatch(env, r);
    if ambiguous {
      return Decision(Escalate, AmbiguousMatch, None);
    }
    if selected.None? {
      return Decision(Generate, NoMatch, None);
    }
    if |r.edits| > 0 {
      return Decision(Adapt, DescriptiveAdapt, selected);
    }
    return Decision(Reuse, ExactMatch, selected);
  }

  method FindMatch(env: Env, r: Request) returns (selected: Option<Candidate>, ambiguous: bool)
    ensures ambiguous <==> |Matches(env, r)| > 1
    ensures !ambiguous ==> Matches(env, r) == if selected.Some? then [selected.value] else []
  {
    ghost var matching := c => Matching(env, r, c);
    selected := None;
    for i := 0 to |r.candidates|
      invariant Filter(r.candidates[..i], matching) == if selected.Some? then [selected.value] else []
    {
      assert r.candidates[..i + 1][..i] == r.candidates[..i];
      if !Matching(env, r, r.candidates[i]) {
        continue;
      }
      if selected.Some? {
        FilterPrefixSize(r.candidates, matching, i + 1);
        return None, true;
      }
      selected := Some(r.candidates[i]);
    }
    assert r.candidates[..|r.candidates|] == r.candidates;
    return selected, false;
  }

  predicate ValidShape(env: Env, p: Proposal) {
    && env.proposalFits(p) && env.validId(p.contextRevision) && env.validId(p.catalogVersion) && |p.edits| <= 1
    && match p.mode
       case Reuse => p.reason == ExactMatch && env.validId(p.candidateId) && env.validId(p.versionId) && p.edits == []
       case Adapt => p.reason == DescriptiveAdapt && env.validId(p.candidateId) && env.validId(p.versionId)
                     && p.edits != [] && SupportedEdits(env, p.edits)
       case Generate => p.reason in {NoMatch, CanonicalRecipe} && p.candidateId == "" && p.versionId == "" && p.edits == []
       case Escalate => p.reason in {IncompleteIntent, ConsentUnavailable, AmbiguousMatch, CandidatesTruncated, UnsupportedAdaptation}
                        && p.candidateId == "" && p.versionId == "" && p.edits == []
  }

  function RulesProposal(env: Env, r: Request): Proposal {
    var d := RequiredDecision(env, r);
    if d.selected.Some? then
      Proposal(d.mode, d.reason, r.contextRevision, r.catalogVersion, d.selected.value.id, d.selected.value.versionId, r.edits)
    else Proposal(d.mode, d.reason, r.contextRevision, r.catalogVersion, "", "", [])
  }

  function ReceiptOf(env: Env, r: Request): Receipt {
    var d := RequiredDecision(env, r);
    Receipt(d.mode, d.reason, POLICY_VERSION, r.contextRevision, r.catalogVersion,
            if d.selected.Some? then
              Some(Reference(d.selected.value.id, d.selected.value.workflowId, d.selected.value.versionId, d.selected.value.version))
            else None,
            if d.selected.Some? then r.edits else [], r.truncated)
  }

  /** The receipt repeats the proposal and names the request's candidate it refers to. */
  ghost predicate Acknowledges(r: Request, p: Proposal, receipt: Receipt) {
    && receipt.mode == p.mode && receipt.reason == p.reason && receipt.edits == p.edits && receipt.truncated == r.truncated
    && receipt.policyVersion == "authoring-experience-v1"
    && receipt.contextRevision == p.contextRevision && receipt.catalogVersion == p.catalogVersion
    && match receipt.source
       case None => p.candidateId == "" && p.versionId == ""
       case Some(ref) => exists c :: c in r.candidates && c.id == p.candidateId && c.versionId == p.versionId
                                     && ref == Reference(c.id, c.workflowId, c.versionId, c.version)
  }

  /** Accepts a proposal by recomputing the decision and comparing every field. */
  method ValidateDecision(env: Env, r: Request, p: Proposal) returns (receipt: Option<Receipt>)
    ensures receipt.Some? <==>
              ValidRequest(env, r) && p == RulesProposal(env, r) && env.proposalFits(p) && env.receiptFits(ReceiptOf(env, r))
    ensures receipt.Some? ==> receipt.value == ReceiptOf(env, r) && Acknowledges(r, p, receipt.value)
  {
    var valid := ValidateRequest(env, r);
    if valid && env.proposalFits(RulesProposal(env, r)) {
      RulesProposalWellShaped(env, r);
    }
    if !valid || !ValidShape(env, p) || p.contextRevision != r.contextRevision || p.catalogVersion != r.catalogVersion {
      return None;
    }
    var d := DecideRequired(env, r);
    if p.mode != d.mode || p.reason != d.reason {
      return None;
    }
    var result := Receipt(d.mode, d.reason, POLICY_VERSION, r.contextRevision, r.catalogVersion, None, [], r.truncated);
    if d.selected.Some? {
      var c := d.selected.value;
      assert c in Matches(env, r) && c in r.candidates;
      if p.candidateId != c.id || p.versionId != c.versionId || p.edits != r.edits {
        return None;
      }
      result := result.(source := Some(Reference(c.id, c.workflowId, c.versionId, c.version)), edits := r.edits);
    } else if p.candidateId != "" || p.versionId != "" || |p.edits| > 0 {
      return None;
    }
    if !env.receiptFits(result) {
      return None;
    }
    return Some(result);
  }

  /** On a valid request the rules provider's own proposal always has a valid shape, size aside. */
  lemma RulesProposalWellShaped(env: Env, r: Request)
    requires ValidRequest(env, r) && env.proposalFits(RulesProposal(env, r))
    ensures ValidShape(env, RulesProposal(env, r))
  {
    var d := RequiredDecision(env, r);
    if d.selected.Some? {
      assert d.selected.value in Matches(env, r);
      var i :| 0 <= i < |r.candidates| && r.candidates[i] == d.selected.value;
      assert ValidCandidate(env, r.candidates[i]);
    }
  }

  /** When reuse or adaptation is required: every gate open and exactly one match, adapting exactly when edits are given. */
  lemma ReuseExactly(env: Env, r: Request)
    ensures RequiredDecision(env, r).mode in {Reuse, Adapt} <==>
              CompleteIntent(r) && !r.canonicalRecipe && r.consent && SupportedEdits(env, r.edits) && !r.truncated
              && |Matches(env, r)| == 1
    ensures RequiredDecision(env, r).mode in {Reuse, Adapt} ==>
              RequiredDecision(env, r).selected == Some(Matches(env, r)[0])
              && (RequiredDecision(env, r).mode == Adapt <==> r.edits != [])
  {
  }
}
