/** Every outcome of the required decision, stated on the request and its candidates. */
module ExperienceOutcomes {
  import opened Options
  import opened Text
  import opened ExperienceContract
  import opened ReplayTheorems

  /** A candidate's days begin when it is registered and created, whichever is later. */
  function Begin(c: Candidate): int {
    if c.registeredAt > c.versionCreatedAt then c.registeredAt else c.versionCreatedAt
  }

  /** They end with its retention, or with a revocation before. */
  function End(c: Candidate): int {
    match c.revokedAt
    case Some(t) => if t < c.retainUntil then t else c.retainUntil
    case None => c.retainUntil
  }

  ghost predicate Usable(env: Env, r: Request, c: Candidate) {
    && Begin(c) <= r.asOf < End(c) && c.organizationId == r.organizationId && c.readable && c.compatible && !c.deleted
    && c.policyVersion == "authoring-experience-v1" && c.briefKey == env.keyOf(r.brief)
  }

  lemma UsableMatches(env: Env, r: Request, c: Candidate)
    ensures Usable(env, r, c) <==> Matching(env, r, c)
  {
  }

  ghost predicate Unclear(r: Request) {
    !r.complete || exists text :: text in {r.brief.objective, r.brief.trigger, r.brief.expectedOutcome} && Blank(text)
  }

  lemma UnclearMeans(r: Request)
    ensures Unclear(r) <==> !CompleteIntent(r)
  {
    TrimSpaceEmpties(r.brief.objective);
    TrimSpaceEmpties(r.brief.trigger);
    TrimSpaceEmpties(r.brief.expectedOutcome);
  }

  /** No gate before the candidates is closed. */
  ghost predicate Searchable(env: Env, r: Request) {
    && !Unclear(r) && !r.canonicalRecipe && r.consent && !r.truncated
    && (r.edits == [] || (|r.edits| == 1 && env.validEdit(r.edits[0])))
  }

  ghost predicate UsableAt(env: Env, r: Request, i: nat) {
    i < |r.candidates| && Usable(env, r, r.candidates[i])
  }

  ghost predicate Twice(env: Env, r: Request) {
    exists i, j :: i < j && UsableAt(env, r, i) && UsableAt(env, r, j)
  }

  ghost predicate Once(env: Env, r: Request, i: nat) {
    UsableAt(env, r, i) && forall j :: UsableAt(env, r, j) ==> j == i
  }

  lemma MatchCounts(env: Env, r: Request)
    ensures |Matches(env, r)| == 0 <==> forall i: nat :: !UsableAt(env, r, i)
    ensures |Matches(env, r)| == 1 <==> exists i: nat :: Once(env, r, i)
  {
    var keep := c => Matching(env, r, c);
    forall i: nat
      ensures UsableAt(env, r, i) <==> i < |r.candidates| && keep(r.candidates[i])
    {
      if i < |r.candidates| {
        UsableMatches(env, r, r.candidates[i]);
      }
    }
    FilterNone(r.candidates, keep);
    FilterOne(r.candidates, keep);
    assert forall i :: Once(env, r, i) <==> OnlyAt(r.candidates, keep, i);
  }

  lemma SeveralMatches(env: Env, r: Request)
    ensures |Matches(env, r)| > 1 <==> Twice(env, r)
  {
    MatchCounts(env, r);
    if |Matches(env, r)| > 1 {
      var i: nat :| UsableAt(env, r, i);
      assert !Once(env, r, i);
      var j: nat :| UsableAt(env, r, j) && j != i;
      assert if i < j then UsableAt(env, r, i) && UsableAt(env, r, j) else j < i;
    }
  }

  lemma OneMatch(env: Env, r: Request, i: nat)
    requires Once(env, r, i)
    ensures Matches(env, r) == [r.candidates[i]]
  {
    MatchCounts(env, r);
    var m := Matches(env, r)[0];
    assert m in Matches(env, r);
    var k :| 0 <= k < |r.candidates| && r.candidates[k] == m;
    UsableMatches(env, r, m);
    assert UsableAt(env, r, k);
  }

  ghost predicate Outcome(env: Env, r: Request, d: Decision) {
    match d.reason
    case IncompleteIntent => d == Decision(Escalate, IncompleteIntent, None) && Unclear(r)
    case CanonicalRecipe => d == Decision(Generate, CanonicalRecipe, None) && !Unclear(r) && r.canonicalRecipe
    case ConsentUnavailable => d == Decision(Escalate, ConsentUnavailable, None) && !Unclear(r) && !r.canonicalRecipe && !r.consent
    case UnsupportedAdaptation =>
      && d == Decision(Escalate, UnsupportedAdaptation, None) && !Unclear(r) && !r.canonicalRecipe && r.consent
      && r.edits != [] && (|r.edits| > 1 || !env.validEdit(r.edits[0]))
    case CandidatesTruncated => d == Decision(Escalate, CandidatesTruncated, None) && Searchable(env, r.(truncated := false)) && r.truncated
    case AmbiguousMatch => d == Decision(Escalate, AmbiguousMatch, None) && Searchable(env, r) && Twice(env, r)
    case NoMatch => d == Decision(Generate, NoMatch, None) && Searchable(env, r) && forall i: nat :: !UsableAt(env, r, i)
    case ExactMatch =>
      Searchable(env, r) && r.edits == [] && exists i: nat :: Once(env, r, i) && d == Decision(Reuse, ExactMatch, Some(r.candidates[i]))
    case DescriptiveAdapt =>
      Searchable(env, r) && r.edits != [] && exists i: nat :: Once(env, r, i) && d == Decision(Adapt, DescriptiveAdapt, Some(r.candidates[i]))
  }

  /** Of all decisions exactly the required one is an outcome. */
  lemma OutcomesExactly(env: Env, r: Request, d: Decision)
    ensures Outcome(env, r, d) <==> d == RequiredDecision(env, r)
  {
    UnclearMeans(r);
    assert SupportedEdits(env, r.edits) <==> r.edits == [] || (|r.edits| == 1 && env.validEdit(r.edits[0]));
    assert Searchable(env, r.(truncated := false)) <==>
           CompleteIntent(r) && !r.canonicalRecipe && r.consent && SupportedEdits(env, r.edits);
    if Searchable(env, r) {
      SearchedExactly(env, r, d);
    }
  }

  lemma SearchedExactly(env: Env, r: Request, d: Decision)
    requires Searchable(env, r)
    ensures Outcome(env, r, d) <==> d == RequiredDecision(env, r)
  {
    UnclearMeans(r);
    MatchCounts(env, r);
    SeveralMatches(env, r);
    if i: nat :| Once(env, r, i) {
      OneMatch(env, r, i);
    }
  }
}
