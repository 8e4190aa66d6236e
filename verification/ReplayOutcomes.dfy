/** Every outcome of a projected replay, stated on its evidence, and which evidence is projected. */
module ReplayOutcomes {
  import opened Options
  import opened ExperienceContract
  import opened ExperienceReplay
  import opened ReplayTheorems
  import opened ExperienceOutcomes

  // ----- single fields

  /** Any field of a valid candidate can change within its own bound, and only within it. */
  lemma CandidateFields(env: Env, c: Candidate, text: string, n: int)
    requires ValidCandidate(env, c)
    ensures ValidCandidate(env, c.(id := text)) <==> env.validId(text)
    ensures ValidCandidate(env, c.(organizationId := text)) <==> env.validId(text)
    ensures ValidCandidate(env, c.(workflowId := text)) <==> env.validId(text)
    ensures ValidCandidate(env, c.(versionId := text)) <==> env.validId(text)
    ensures ValidCandidate(env, c.(version := n)) <==> n > 0
    ensures ValidCandidate(env, c.(briefKey := text)) <==> env.validKey(text)
    ensures ValidCandidate(env, c.(policyVersion := text)) <==> env.validPolicy(text)
    ensures ValidCandidate(env, c.(registeredAt := n)) <==> n != 0
    ensures ValidCandidate(env, c.(versionCreatedAt := n)) <==> n != 0
    ensures ValidCandidate(env, c.(retainUntil := n)) <==> n != 0
  {
  }

  /** So can any field of a valid request, as long as the whole still fits. */
  lemma RequestFields(env: Env, r: Request, s: Request, cs: seq<Candidate>)
    requires ValidRequest(env, r) && env.requestFits(s)
    ensures s == r.(organizationId := s.organizationId) ==> (ValidRequest(env, s) <==> env.validId(s.organizationId))
    ensures s == r.(contextRevision := s.contextRevision) ==> (ValidRequest(env, s) <==> env.validId(s.contextRevision))
    ensures s == r.(catalogVersion := s.catalogVersion) ==> (ValidRequest(env, s) <==> env.validId(s.catalogVersion))
    ensures s == r.(brief := s.brief) ==> (ValidRequest(env, s) <==> env.validBrief(s.brief))
    ensures s == r.(asOf := s.asOf) ==> (ValidRequest(env, s) <==> s.asOf != 0)
    ensures s == r.(edits := s.edits) ==> (ValidRequest(env, s) <==> |s.edits| < 2)
    ensures s == r.(candidates := cs) ==>
              (ValidRequest(env, s) <==> |cs| < 6 && AllValid(env, cs) && forall i, j :: 0 <= i < j < |cs| ==> cs[i].id != cs[j].id)
  {
  }

  // ----- the evidence

  /** The entry's candidate is usable and not deleted by the request's instant. */
  ghost predicate Present(env: Env, r: Request, e: Entry) {
    Usable(env, r, e.candidate.(deleted := false)) && (e.deletedAt.Some? ==> r.asOf < e.deletedAt.value)
  }

  lemma PresentQualifies(env: Env, r: Request, e: Entry)
    ensures Present(env, r, e) <==> Qualifies(env, r)(e)
    ensures Present(env, r, e) ==> Snapshot(r)(e) == e.candidate.(deleted := false)
  {
    UsableMatches(env, r, AsOf(e, r.asOf));
    UsableMatches(env, r, e.candidate.(deleted := false));
  }

  ghost function PresentAt(env: Env, r: Request, h: seq<Entry>): set<nat> {
    set i: nat | i < |h| && Present(env, r, h[i])
  }

  ghost function Positions<T(!new)>(xs: seq<T>, keep: T -> bool): set<nat> {
    set i: nat | i < |xs| && keep(xs[i])
  }

  lemma {:induction false} MapFilterPositions<T(!new), U>(xs: seq<T>, keep: T -> bool, f: T -> U)
    ensures |MapFilter(xs, keep, f)| == |Positions(xs, keep)|
    decreases |xs|
  {
    if xs != [] {
      var k := |xs| - 1;
      var rest := Positions(xs[..k], keep);
      MapFilterPositions(xs[..k], keep, f);
      assert k !in rest;
      if keep(xs[k]) {
        assert Positions(xs, keep) == rest + {k};
      } else {
        assert Positions(xs, keep) == rest;
      }
    }
  }

  lemma PresentCount(env: Env, r: Request, h: seq<Entry>)
    ensures |SelectedCandidates(env, r, h)| == |PresentAt(env, r, h)|
  {
    MapFilterPositions(h, Qualifies(env, r), Snapshot(r));
    forall i: nat | i < |h|
      ensures Present(env, r, h[i]) <==> Qualifies(env, r)(h[i])
    {
      PresentQualifies(env, r, h[i]);
    }
    assert PresentAt(env, r, h) == Positions(h, Qualifies(env, r));
  }

  /** Of tenant consent only the latest verdict up to the request's instant counts. */
  lemma ConsentByLatest(r: Request, consent: seq<Consent>, c: Consent)
    requires DistinctKeys(consent + [c], ConsentKey)
    ensures !ConsentGiven(r, [])
    ensures ConsentGiven(r, consent + [c]) ==
            if c.organizationId == r.organizationId && c.effectiveAt <= r.asOf
               && forall d :: d in consent && d.organizationId == r.organizationId && d.effectiveAt <= r.asOf
                              ==> d.effectiveAt < c.effectiveAt
            then c.enabled else ConsentGiven(r, consent)
  {
    var all := consent + [c];
    assert forall d :: d in all <==> d in consent || d == c;
    assert all[|consent|] == c;
    forall d | d in consent && d.organizationId == c.organizationId
      ensures d.effectiveAt != c.effectiveAt
    {
      var i :| 0 <= i < |consent| && consent[i] == d;
      assert ConsentKey(all[i]) != ConsentKey(all[|consent|]);
    }
    if ConsentGiven(r, consent) {
      var d :| d in consent && Relevant(r, d) && d.enabled
               && forall e :: e in consent && Relevant(r, e) ==> e.effectiveAt <= d.effectiveAt;
      assert d in all;
    }
    assert c in all;
  }

  // ----- the decision

  /** What is decided once every gate before the candidates is open, from the number of present entries. */
  function Counted(n: nat, edits: bool): Reason {
    if n == 0 then NoMatch
    else if n > 5 then CandidatesTruncated
    else if n > 1 then AmbiguousMatch
    else if edits then DescriptiveAdapt else ExactMatch
  }

  /** The reason of the decision on projected evidence. */
  lemma ReplayReason(env: Env, r: Request, h: seq<Entry>, consent: seq<Consent>)
    requires !r.truncated
    ensures RequiredDecision(env, Projected(env, r, h, consent)).reason ==
            if Unclear(r) then IncompleteIntent
            else if r.canonicalRecipe then CanonicalRecipe
            else if !ConsentGiven(r, consent) then ConsentUnavailable
            else if !Searchable(env, r.(consent := true)) then UnsupportedAdaptation
            else Counted(|PresentAt(env, r, h)|, r.edits != [])
  {
    var q := Projected(env, r, h, consent);
    UnclearMeans(r);
    UnclearMeans(r.(consent := true));
    ProjectedMatches(env, r, h, consent);
    PresentCount(env, r, h);
    ArrangePermutes(SelectedCandidates(env, r, h));
    assert |multiset(Arrange(SelectedCandidates(env, r, h)))| == |multiset(SelectedCandidates(env, r, h))|;
    assert SupportedEdits(env, r.edits) <==> r.edits == [] || (|r.edits| == 1 && env.validEdit(r.edits[0]));
  }

  /** What a decision selects was arranged from the one selected candidate. */
  lemma SelectedAlone(env: Env, r: Request, h: seq<Entry>, consent: seq<Consent>, c: Candidate)
    requires RequiredDecision(env, Projected(env, r, h, consent)).selected == Some(c)
    ensures |SelectedCandidates(env, r, h)| == 1 && c in SelectedCandidates(env, r, h)
  {
    var selected := SelectedCandidates(env, r, h);
    ProjectedMatches(env, r, h, consent);
    ArrangePermutes(selected);
    assert |multiset(Arrange(selected))| == |multiset(selected)|;
    assert c in Arrange(selected);
    assert c in multiset(Arrange(selected)) && c in multiset(selected);
  }

  /** A decision that selects takes the one present entry, as it was before any later deletion. */
  lemma ReplaySelects(env: Env, r: Request, h: seq<Entry>, consent: seq<Consent>, c: Candidate)
    requires RequiredDecision(env, Projected(env, r, h, consent)).selected == Some(c)
    ensures exists i: nat :: PresentAt(env, r, h) == {i} && c == h[i].candidate.(deleted := false)
  {
    SelectedAlone(env, r, h, consent, c);
    PresentCount(env, r, h);
    var i := MapFilterOrigins(h, Qualifies(env, r), Snapshot(r), c);
    PresentQualifies(env, r, h[i]);
    OnlyElement(PresentAt(env, r, h), i);
  }

  lemma OnlyElement(s: set<nat>, i: nat)
    requires i in s && |s| == 1
    ensures s == {i}
  {
    assert |s - {i}| == 0;
  }

  /** Of more than five present candidates the newest are kept. */
  lemma NewestKept(env: Env, r: Request, h: seq<Entry>, consent: seq<Consent>, i: nat, c: Candidate)
    requires DistinctKeys(h, EntryId) && i in PresentAt(env, r, h) && c in Projected(env, r, h, consent).candidates
    ensures h[i].candidate.(deleted := false) in Projected(env, r, h, consent).candidates
            || h[i].candidate.registeredAt <= c.registeredAt
  {
    var selected, d := SelectedCandidates(env, r, h), h[i].candidate.(deleted := false);
    PresentQualifies(env, r, h[i]);
    Keeps(h, Qualifies(env, r), Snapshot(r), i);
    SelectedDistinct(env, r, h);
    ArrangeOrders(selected);
    ArrangePermutes(selected);
    assert d in multiset(selected);
    assert d in multiset(Arrange(selected));
    var j :| 0 <= j < |Arrange(selected)| && Arrange(selected)[j] == d;
    var k :| 0 <= k < |Take(Arrange(selected))| && Arrange(selected)[k] == c;
    assert k < j ==> Before(c, d);
  }

  lemma {:induction false} Keeps<T, U>(xs: seq<T>, keep: T -> bool, f: T -> U, i: nat)
    requires i < |xs| && keep(xs[i])
    ensures f(xs[i]) in MapFilter(xs, keep, f)
    decreases |xs|
  {
    if i < |xs| - 1 {
      Keeps(xs[..|xs| - 1], keep, f, i);
    }
  }

  // ----- which evidence is projected

  ghost predicate SoundEntry(env: Env, r: Request, e: Entry) {
    ValidCandidate(env, e.candidate) && !e.candidate.deleted && e.deletedAt != Some(0) && env.requestFits(r.(candidates := [e.candidate]))
  }

  ghost predicate SoundEvidence(env: Env, r: Request, h: seq<Entry>, consent: seq<Consent>) {
    && |h| <= 2048 && |consent| <= 2048
    && (forall e :: e in h ==> SoundEntry(env, r, e))
    && (forall i, j :: 0 <= i < j < |h| ==> h[i].candidate.id != h[j].candidate.id)
    && (forall c :: c in consent ==> env.validId(c.organizationId) && c.effectiveAt != 0)
    && forall i, j :: 0 <= i < j < |consent| ==>
         consent[i].organizationId != consent[j].organizationId || consent[i].effectiveAt != consent[j].effectiveAt
  }

  lemma SoundMeans(env: Env, r: Request, h: seq<Entry>, consent: seq<Consent>)
    requires ValidFrame(env, r)
    ensures SoundEvidence(env, r, h, consent) <==> ValidHistory(env, r, h) && ValidConsent(env, consent)
  {
    forall e
      ensures SoundEntry(env, r, e) <==> ValidEntry(env, r, e)
    {
      assert AllValid(env, [e.candidate]) <==> ValidCandidate(env, [e.candidate][0]);
    }
    assert (forall i, j :: 0 <= i < j < |h| ==> h[i].candidate.id != h[j].candidate.id) <==> DistinctKeys(h, EntryId) by {
      assert forall i :: 0 <= i < |h| ==> EntryId(h[i]) == h[i].candidate.id;
    }
    assert forall i :: 0 <= i < |consent| ==> ConsentKey(consent[i]) == (consent[i].organizationId, consent[i].effectiveAt);
  }

  lemma ProjectedCandidates(env: Env, r: Request, h: seq<Entry>, consent: seq<Consent>)
    requires ValidHistory(env, r, h)
    ensures var cs := Projected(env, r, h, consent).candidates;
            |cs| <= 5 && AllValid(env, cs) && DistinctIds(cs)
  {
    var selected := SelectedCandidates(env, r, h);
    var cs := Projected(env, r, h, consent).candidates;
    SelectedDistinct(env, r, h);
    ArrangePermutes(selected);
    ArrangeOrders(selected);
    forall i | 0 <= i < |cs|
      ensures ValidCandidate(env, cs[i])
    {
      assert cs[i] in multiset(Arrange(selected));
      var j := MapFilterOrigins(h, Qualifies(env, r), Snapshot(r), cs[i]);
      assert ValidEntry(env, r, h[j]);
      assert ValidCandidate(env, r.(candidates := [h[j].candidate]).candidates[0]);
    }
    DistinctPermutes(selected, Arrange(selected), (c: Candidate) => c.id);
    forall i, j | 0 <= i < j < |cs|
      ensures cs[i].id != cs[j].id
    {
      assert Before(Arrange(selected)[i], Arrange(selected)[j]);
    }
  }

  /**
   * Projection succeeds exactly for a valid request without candidates, sound evidence, and a projected request that
   * fits: validating the projection again can only refuse it for its size.
   */
  lemma ProjectableExactly(env: Env, r: Request, h: seq<Entry>, consent: seq<Consent>)
    ensures Projectable(env, r, h, consent) <==>
              r.candidates == [] && !r.truncated && ValidRequest(env, r) && SoundEvidence(env, r, h, consent)
              && env.requestFits(Projected(env, r, h, consent))
  {
    if ValidFrame(env, r) {
      SoundMeans(env, r, h, consent);
    }
    if ValidHistory(env, r, h) {
      ProjectedCandidates(env, r, h, consent);
    }
  }
}
