/** Offline replay: projecting frozen history and consent into a decision request. */
module ExperienceReplay {
  import opened Options
  import opened ExperienceContract

  const MAX_HISTORY := 2048

  datatype Entry = Entry(candidate: Candidate, deletedAt: Option<int>)

  datatype Consent = Consent(organizationId: string, effectiveAt: int, enabled: bool)

  /** The candidate as of the request's instant: a later deletion has not happened yet. */
  function AsOf(e: Entry, asOf: int): Candidate {
    e.candidate.(deleted := e.deletedAt.Some? && e.deletedAt.value <= asOf)
  }

  predicate Selected(env: Env, r: Request, e: Entry) {
    Matching(env, r, AsOf(e, r.asOf))
  }

  ghost predicate ValidEntry(env: Env, r: Request, e: Entry) {
    && ValidRequest(env, r.(candidates := [e.candidate]))
    && !e.candidate.deleted && (e.deletedAt.Some? ==> e.deletedAt.value != 0)
  }

  function EntryId(e: Entry): string {
    e.candidate.id
  }

  function ConsentKey(c: Consent): (string, int) {
    (c.organizationId, c.effectiveAt)
  }

  ghost predicate DistinctKeys<T, K>(xs: seq<T>, key: T -> K) {
    forall i, j :: 0 <= i < j < |xs| ==> key(xs[i]) != key(xs[j])
  }

  function KeysOf<T, K>(xs: seq<T>, key: T -> K): set<K> {
    set i | 0 <= i < |xs| :: key(xs[i])
  }

  lemma DistinctAppend<T, K>(xs: seq<T>, x: T, key: T -> K)
    ensures KeysOf(xs + [x], key) == KeysOf(xs, key) + {key(x)}
    ensures DistinctKeys(xs + [x], key) <==> DistinctKeys(xs, key) && key(x) !in KeysOf(xs, key)
  {
    var all := xs + [x];
    assert all[|xs|] == x && forall i :: 0 <= i < |xs| ==> all[i] == xs[i];
    assert forall i :: 0 <= i < |xs| ==> key(all[i]) in KeysOf(xs, key);
    forall k | k in KeysOf(xs, key) + {key(x)}
      ensures k in KeysOf(all, key)
    {
      if k == key(x) {
        assert key(all[|xs|]) == k;
      } else {
        var i :| 0 <= i < |xs| && key(xs[i]) == k;
        assert key(all[i]) == k;
      }
    }
    if key(x) in KeysOf(xs, key) {
      var i :| 0 <= i < |xs| && key(xs[i]) == key(x);
      assert key(all[i]) == key(all[|xs|]);
    }
  }

  lemma DistinctPrefix<T, K>(xs: seq<T>, key: T -> K, k: nat)
    requires k <= |xs|
    ensures DistinctKeys(xs, key) ==> DistinctKeys(xs[..k], key)
  {
  }

  /** Distinct keys are as many as there are items, which no reordering changes. */
  lemma {:induction false} DistinctByCount<T, K>(xs: seq<T>, key: T -> K)
    ensures |KeysOf(xs, key)| <= |xs|
    ensures DistinctKeys(xs, key) <==> |KeysOf(xs, key)| == |xs|
    decreases |xs|
  {
    if xs != [] {
      var rest := xs[..|xs| - 1];
      assert xs == rest + [xs[|xs| - 1]];
      DistinctByCount(rest, key);
      DistinctAppend(rest, xs[|xs| - 1], key);
    }
  }

  lemma DistinctPermutes<T, K>(xs: seq<T>, ys: seq<T>, key: T -> K)
    requires multiset(xs) == multiset(ys)
    ensures DistinctKeys(xs, key) <==> DistinctKeys(ys, key)
  {
    DistinctByCount(xs, key);
    DistinctByCount(ys, key);
    assert |multiset(xs)| == |xs| && |multiset(ys)| == |ys|;
    KeysWithin(xs, ys, key);
    KeysWithin(ys, xs, key);
    assert KeysOf(xs, key) == KeysOf(ys, key);
  }

  lemma KeysWithin<T, K>(xs: seq<T>, ys: seq<T>, key: T -> K)
    requires multiset(xs) == multiset(ys)
    ensures KeysOf(xs, key) <= KeysOf(ys, key)
  {
    forall k | k in KeysOf(xs, key)
      ensures k in KeysOf(ys, key)
    {
      var i :| 0 <= i < |xs| && key(xs[i]) == k;
      assert xs[i] in multiset(ys);
      var j :| 0 <= j < |ys| && ys[j] == xs[i];
    }
  }

  ghost predicate ValidHistory(env: Env, r: Request, history: seq<Entry>) {
    && |history| <= MAX_HISTORY && (forall e :: e in history ==> ValidEntry(env, r, e)) && DistinctKeys(history, EntryId)
  }

  ghost predicate ValidConsent(env: Env, consent: seq<Consent>) {
    && |consent| <= MAX_HISTORY
    && (forall c :: c in consent ==> env.validId(c.organizationId) && c.effectiveAt != 0)
    && DistinctKeys(consent, ConsentKey)
  }

  predicate Relevant(r: Request, c: Consent) {
    c.organizationId == r.organizationId && c.effectiveAt <= r.asOf
  }

  /** The latest consent of the tenant at or before the as-of instant is an enabled one. */
  ghost predicate ConsentGiven(r: Request, consent: seq<Consent>) {
    exists c :: c in consent && Relevant(r, c) && c.enabled
                && forall d :: d in consent && Relevant(r, d) ==> d.effectiveAt <= c.effectiveAt
  }

  /** Newest registration first, ids descending among equals. */
  predicate Before(a: Candidate, b: Candidate) {
    a.registeredAt > b.registeredAt || (a.registeredAt == b.registeredAt && Less(b.id, a.id))
  }

  predicate Less(a: string, b: string) {
    b != [] && (a == [] || a[0] < b[0] || (a[0] == b[0] && Less(a[1..], b[1..])))
  }

  lemma {:induction false} LessTotal(a: string, b: string)
    ensures Less(a, b) ==> !Less(b, a)
    ensures a != b ==> Less(a, b) || Less(b, a)
    decreases |a|
  {
    if a != [] && b != [] {
      LessTotal(a[1..], b[1..]);
      assert a == [a[0]] + a[1..] && b == [b[0]] + b[1..];
    }
  }

  lemma {:induction false} LessTransitive(a: string, b: string, c: string)
    requires Less(a, b) && Less(b, c)
    ensures Less(a, c)
    decreases |a|
  {
    if a != [] && a[0] == b[0] == c[0] {
      LessTransitive(a[1..], b[1..], c[1..]);
    }
  }

  function Place(c: Candidate, cs: seq<Candidate>): seq<Candidate> {
    if cs == [] || Before(c, cs[0]) then [c] + cs else [cs[0]] + Place(c, cs[1..])
  }

  function Arrange(cs: seq<Candidate>): seq<Candidate> {
    if cs == [] then [] else Place(cs[|cs| - 1], Arrange(cs[..|cs| - 1]))
  }

  /** The image of the items that are kept, in order. */
  function MapFilter<T, U>(xs: seq<T>, keep: T -> bool, f: T -> U): seq<U> {
    if xs == [] then []
    else
      var rest := MapFilter(xs[..|xs| - 1], keep, f);
      if keep(xs[|xs| - 1]) then rest + [f(xs[|xs| - 1])] else rest
  }

  function Qualifies(env: Env, r: Request): Entry -> bool {
    e => Selected(env, r, e)
  }

  function Snapshot(r: Request): Entry -> Candidate {
    e => AsOf(e, r.asOf)
  }

  function SelectedCandidates(env: Env, r: Request, history: seq<Entry>): seq<Candidate> {
    MapFilter(history, Qualifies(env, r), Snapshot(r))
  }

  function Take(cs: seq<Candidate>): seq<Candidate> {
    if |cs| > MAX_CANDIDATES then cs[..MAX_CANDIDATES] else cs
  }

  /** The projected request, before its own validation. */
  ghost function Projected(env: Env, r: Request, history: seq<Entry>, consent: seq<Consent>): Request {
    var eligible := SelectedCandidates(env, r, history);
    r.(consent := ConsentGiven(r, consent), truncated := |eligible| > MAX_CANDIDATES, candidates := Take(Arrange(eligible)))
  }

  ghost predicate Projectable(env: Env, r: Request, history: seq<Entry>, consent: seq<Consent>) {
    && r.candidates == [] && !r.truncated && ValidRequest(env, r)
    && ValidHistory(env, r, history) && ValidConsent(env, consent)
    && ValidRequest(env, Projected(env, r, history, consent))
  }

  ghost predicate UsableConsent(env: Env, c: Consent) {
    env.validId(c.organizationId) && c.effectiveAt != 0
  }

  /** `latest` is the last relevant instant so far and `enabled` its verdict. */
  ghost predicate Tracks(r: Request, consent: seq<Consent>, latest: Option<int>, enabled: bool) {
    && (latest.None? ==> !enabled && forall d :: d in consent ==> !Relevant(r, d))
    && (latest.Some? ==> forall d :: d in consent && Relevant(r, d) ==> d.effectiveAt <= latest.value)
    && (latest.Some? ==> exists c :: c in consent && Relevant(r, c) && c.effectiveAt == latest.value && c.enabled == enabled)
  }

  lemma TracksStep(r: Request, consent: seq<Consent>, latest: Option<int>, enabled: bool, c: Consent)
    requires Tracks(r, consent, latest, enabled)
    ensures var newer := Relevant(r, c) && (latest.None? || c.effectiveAt > latest.value);
            Tracks(r, consent + [c], if newer then Some(c.effectiveAt) else latest, if newer then c.enabled else enabled)
  {
    var all := consent + [c];
    assert c in all && forall d :: d in consent ==> d in all;
  }

  lemma TracksDecides(r: Request, consent: seq<Consent>, latest: Option<int>, enabled: bool)
    requires Tracks(r, consent, latest, enabled) && DistinctKeys(consent, ConsentKey)
    ensures enabled <==> ConsentGiven(r, consent)
  {
    if ConsentGiven(r, consent) {
      var c :| c in consent && Relevant(r, c) && c.enabled
               && forall d :: d in consent && Relevant(r, d) ==> d.effectiveAt <= c.effectiveAt;
      var d :| d in consent && Relevant(r, d) && d.effectiveAt == latest.value && d.enabled == enabled;
      var i :| 0 <= i < |consent| && consent[i] == c;
      var j :| 0 <= j < |consent| && consent[j] == d;
      assert ConsentKey(c) == ConsentKey(d);
      assert i == j;
    }
  }

  method ScanConsent(env: Env, r: Request, consent: seq<Consent>) returns (valid: bool, enabled: bool)
    requires |consent| <= MAX_HISTORY
    ensures valid <==> ValidConsent(env, consent)
    ensures valid ==> (enabled <==> ConsentGiven(r, consent))
  {
    var latest: Option<int> := None;
    var seen: set<(string, int)> := {};
    enabled := false;
    for i := 0 to |consent|
      invariant seen == KeysOf(consent[..i], ConsentKey) && DistinctKeys(consent[..i], ConsentKey)
      invariant forall j :: 0 <= j < i ==> UsableConsent(env, consent[j])
      invariant Tracks(r, consent[..i], latest, enabled)
    {
      var event := consent[i];
      assert consent[..i + 1] == consent[..i] + [event];
      DistinctAppend(consent[..i], event, ConsentKey);
      if !env.validId(event.organizationId) || event.effectiveAt == 0 || ConsentKey(event) in seen {
        DistinctPrefix(consent, ConsentKey, i + 1);
        return false, false;
      }
      seen := seen + {ConsentKey(event)};
      TracksStep(r, consent[..i], latest, enabled, event);
      if event.organizationId == r.organizationId && event.effectiveAt <= r.asOf
         && (latest.None? || event.effectiveAt > latest.value) {
        latest, enabled := Some(event.effectiveAt), event.enabled;
      }
    }
    assert consent[..|consent|] == consent;
    TracksDecides(r, consent, latest, enabled);
    return true, enabled;
  }

  /** An invalid or repeated entry makes the history invalid. */
  lemma RefusedEntry(env: Env, r: Request, history: seq<Entry>, i: nat)
    requires i < |history|
    requires !ValidEntry(env, r, history[i]) || EntryId(history[i]) in KeysOf(history[..i], EntryId)
    ensures !ValidHistory(env, r, history)
  {
    assert history[i] in history;
    assert history[..i + 1] == history[..i] + [history[i]];
    DistinctAppend(history[..i], history[i], EntryId);
    DistinctPrefix(history, EntryId, i + 1);
  }

  /** The state of the scan after a prefix of valid entries. */
  ghost predicate Scanned(env: Env, r: Request, entries: seq<Entry>, seen: set<string>, eligible: seq<Candidate>) {
    && seen == KeysOf(entries, EntryId) && DistinctKeys(entries, EntryId)
    && (forall e :: e in entries ==> ValidEntry(env, r, e))
    && eligible == SelectedCandidates(env, r, entries)
  }

  lemma ScanStep(env: Env, r: Request, entries: seq<Entry>, seen: set<string>, eligible: seq<Candidate>, e: Entry)
    requires Scanned(env, r, entries, seen, eligible) && ValidEntry(env, r, e) && EntryId(e) !in seen
    ensures Scanned(env, r, entries + [e], seen + {EntryId(e)}, eligible + if Selected(env, r, e) then [AsOf(e, r.asOf)] else [])
  {
    DistinctAppend(entries, e, EntryId);
    assert (entries + [e])[..|entries|] == entries;
  }

  method ScanHistory(env: Env, r: Request, history: seq<Entry>) returns (valid: bool, eligible: seq<Candidate>)
    requires |history| <= MAX_HISTORY
    ensures valid <==> ValidHistory(env, r, history)
    ensures valid ==> eligible == SelectedCandidates(env, r, history)
  {
    var seen: set<string> := {};
    eligible := [];
    for i := 0 to |history|
      invariant Scanned(env, r, history[..i], seen, eligible)
    {
      var entry := history[i];
      var checked := ValidateRequest(env, r.(candidates := [entry.candidate]));
      if !checked || EntryId(entry) in seen || entry.candidate.deleted
         || (entry.deletedAt.Some? && entry.deletedAt.value == 0) {
        RefusedEntry(env, r, history, i);
        return false, [];
      }
      ScanStep(env, r, history[..i], seen, eligible, entry);
      assert history[..i + 1] == history[..i] + [entry];
      seen := seen + {EntryId(entry)};
      eligible := eligible + if Selected(env, r, entry) then [AsOf(entry, r.asOf)] else [];
    }
    assert history[..|history|] == history;
    return true, eligible;
  }

  method ProjectExperienceReplay(env: Env, r: Request, history: seq<Entry>, consent: seq<Consent>)
    returns (result: Option<Request>)
    ensures result.Some? <==> Projectable(env, r, history, consent)
    ensures result.Some? ==> result.value == Projected(env, r, history, consent)
  {
    var valid := ValidateRequest(env, r);
    if |r.candidates| > 0 || r.truncated || !valid || |history| > MAX_HISTORY || |consent| > MAX_HISTORY {
      return None;
    }
    var consentOk, enabled := ScanConsent(env, r, consent);
    if !consentOk {
      return None;
    }
    var historyOk, eligible := ScanHistory(env, r, history);
    if !historyOk {
      return None;
    }
    var projected := r.(consent := enabled, truncated := |eligible| > MAX_CANDIDATES, candidates := Take(Arrange(eligible)));
    valid := ValidateRequest(env, projected);
    if !valid {
      return None;
    }
    return Some(projected);
  }
}
