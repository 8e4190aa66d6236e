/** What the scheduler guarantees about a pass and about node order. */
module RunSafety {
  import opened WorkflowGraph
  import opened Options
  import opened Downstream

  lemma LegalPrefix(edges: seq<Edge>, eval: Evaluator, s: State, trace: seq<Step>, k: nat)
    requires Legal(edges, eval, s, trace) && k <= |trace|
    ensures Legal(edges, eval, s, trace[..k])
    decreases |trace|
  {
    if k < |trace| {
      var n := |trace| - 1;
      LegalPrefix(edges, eval, s, trace[..n], k);
      assert trace[..n][..k] == trace[..k];
    } else {
      assert trace[..k] == trace;
    }
  }

  lemma LegalAt(edges: seq<Edge>, eval: Evaluator, s: State, trace: seq<Step>, k: nat)
    requires Legal(edges, eval, s, trace) && k < |trace|
    ensures Legal(edges, eval, s, trace[..k]) && Verdict(edges, eval, Replay(s, trace[..k]), trace[k].id) == Some(trace[k].status)
  {
    LegalPrefix(edges, eval, s, trace, k + 1);
    assert trace[..k + 1][..k] == trace[..k];
  }

  /** A pass never touches a node that is not pending, and moves a pending one only to skipped or queued. */
  lemma {:induction false} TraceEffect(edges: seq<Edge>, eval: Evaluator, s: State, trace: seq<Step>, id: string)
    requires Legal(edges, eval, s, trace)
    ensures Replay(s, trace).statuses.Keys == s.statuses.Keys
    ensures var before, after := StatusOf(s.statuses, id), StatusOf(Replay(s, trace).statuses, id);
            && (before != Pending ==> after == before && forall t :: t in trace ==> t.id != id)
            && (before == Pending ==> after in {Pending, Queued, Skipped})
            && (before == Pending ==> (after == Pending <==> forall t :: t in trace ==> t.id != id))
            && (forall t :: t in trace && t.id == id ==> after == t.status)
    decreases |trace|
  {
    if trace != [] {
      var k := |trace| - 1;
      assert trace == trace[..k] + [trace[k]];
      TraceEffect(edges, eval, s, trace[..k], id);
      TraceEffect(edges, eval, s, trace[..k], trace[k].id);
    }
  }

  /** Each node moves at most once. */
  lemma {:induction false} MovesOnce(edges: seq<Edge>, eval: Evaluator, s: State, trace: seq<Step>)
    requires Legal(edges, eval, s, trace)
    ensures forall i, j :: 0 <= i < j < |trace| ==> trace[i].id != trace[j].id
    decreases |trace|
  {
    if trace != [] {
      var k := |trace| - 1;
      MovesOnce(edges, eval, s, trace[..k]);
      TraceEffect(edges, eval, s, trace[..k], trace[k].id);
      forall i | 0 <= i < k
        ensures trace[i].id != trace[k].id
      {
        assert trace[i] in trace[..k];
      }
    }
  }

  /** Once an edge is decided it stays decided. */
  lemma EdgeStable(edges: seq<Edge>, eval: Evaluator, s: State, trace: seq<Step>, e: Edge)
    requires Legal(edges, eval, s, trace)
    ensures EdgeSatisfied(e, s.statuses) ==> EdgeSatisfied(e, Replay(s, trace).statuses)
    ensures EdgeDoomed(e, s.statuses) ==> EdgeDoomed(e, Replay(s, trace).statuses)
  {
    TraceEffect(edges, eval, s, trace, e.source);
  }

  lemma {:induction false} ReplayConcat(s: State, a: seq<Step>, b: seq<Step>)
    ensures Replay(s, a + b) == Replay(Replay(s, a), b)
    decreases |b|
  {
    if b == [] {
      assert a + b == a;
    } else {
      assert (a + b)[..|a + b| - 1] == a + b[..|b| - 1];
      ReplayConcat(s, a, b[..|b| - 1]);
    }
  }

  /** What follows a legal beginning is legal from the state the beginning leads to. */
  lemma {:induction false} LegalConcat(edges: seq<Edge>, eval: Evaluator, s: State, a: seq<Step>, b: seq<Step>)
    requires Legal(edges, eval, s, a + b)
    ensures Legal(edges, eval, Replay(s, a), b)
    decreases |b|
  {
    if b != [] {
      var rest := b[..|b| - 1];
      assert (a + b)[..|a + b| - 1] == a + rest;
      LegalConcat(edges, eval, s, a, rest);
      ReplayConcat(s, a, rest);
    }
  }

  lemma LegalSuffix(edges: seq<Edge>, eval: Evaluator, s: State, trace: seq<Step>, k: nat)
    requires Legal(edges, eval, s, trace) && k <= |trace|
    ensures Legal(edges, eval, Replay(s, trace[..k]), trace[k..])
    ensures Replay(Replay(s, trace[..k]), trace[k..]) == Replay(s, trace)
  {
    assert trace == trace[..k] + trace[k..];
    LegalConcat(edges, eval, s, trace[..k], trace[k..]);
    ReplayConcat(s, trace[..k], trace[k..]);
  }

  /** Whatever a pass queues has all its dependencies settled, then and at the end of the pass. */
  lemma QueuedIsReady(edges: seq<Edge>, eval: Evaluator, s: State, trace: seq<Step>, k: nat)
    requires Legal(edges, eval, s, trace) && k < |trace|
    ensures trace[k].status == Queued ==> DepsSatisfied(edges, trace[k].id, Replay(s, trace).statuses)
    ensures trace[k].status == Skipped && (forall e :: e in edges ==> e.condition == "") ==>
              DepsDoomed(edges, trace[k].id, Replay(s, trace[..k]).statuses)
              && DepsDoomed(edges, trace[k].id, Replay(s, trace).statuses)
  {
    LegalPrefix(edges, eval, s, trace, k + 1);
    assert trace[..k + 1][..k] == trace[..k];
    LegalSuffix(edges, eval, s, trace, k);
    var mid := Replay(s, trace[..k]);
    forall e | e in edges && e.target == trace[k].id
      ensures EdgeSatisfied(e, mid.statuses) ==> EdgeSatisfied(e, Replay(s, trace).statuses)
      ensures EdgeDoomed(e, mid.statuses) ==> EdgeDoomed(e, Replay(s, trace).statuses)
    {
      EdgeStable(edges, eval, mid, trace[k..], e);
    }
  }

  lemma NotBothVerdicts(edges: seq<Edge>, id: string, statuses: Statuses)
    ensures !(DepsSatisfied(edges, id, statuses) && DepsDoomed(edges, id, statuses))
  {
  }

  lemma {:induction false} ClaimsOf(nodes: seq<Node>, edges: seq<Edge>, eval: Evaluator, s: State)
    ensures Claims(nodes, edges, eval, s) == 0 <==> forall n :: n in nodes ==> Verdict(edges, eval, s, n.id) != Some(Queued)
    decreases |nodes|
  {
    if nodes != [] {
      var rest, last := nodes[..|nodes| - 1], nodes[|nodes| - 1];
      assert nodes == rest + [last];
      ClaimsOf(rest, edges, eval, s);
    }
  }

  lemma {:induction false} OwnClaim(nodes: seq<Node>, edges: seq<Edge>, eval: Evaluator, s: State, i: nat)
    requires i < |nodes| && Verdict(edges, eval, s, nodes[i].id) == Some(Queued)
    ensures Claims(nodes[..i], edges, eval, s) < Claims(nodes, edges, eval, s)
    decreases |nodes|
  {
    var rest := nodes[..|nodes| - 1];
    if i < |rest| {
      OwnClaim(rest, edges, eval, s, i);
      assert rest[..i] == nodes[..i];
    }
  }

  /** After the loop, a node still pending is blocked, or the store refused its own queue claim in the last pass. */
  lemma StillPendingIsBlocked(wf: Workflow, eval: Evaluator, s: State, claim: nat -> bool, first: nat, attempts: nat, i: nat)
    requires Idle(wf.nodes, wf.edges, eval, s, claim, first, attempts)
    requires i < |wf.nodes| && StatusOf(s.statuses, wf.nodes[i].id) == Pending
    ensures !DepsDoomed(wf.edges, wf.nodes[i].id, s.statuses)
    ensures DepsSatisfied(wf.edges, wf.nodes[i].id, s.statuses) ==>
              var own := first + Claims(wf.nodes[..i], wf.edges, eval, s);
              EdgeAllowsRun(wf.edges, wf.nodes[i].id, eval, s.context) && own < attempts && !claim(own)
  {
    assert wf.nodes[i] in wf.nodes;
    if Verdict(wf.edges, eval, s, wf.nodes[i].id) == Some(Queued) {
      OwnClaim(wf.nodes, wf.edges, eval, s, i);
    }
  }

  // ----- the outcome of a pass does not depend on the order of nodes

  ghost predicate Unconditional(edges: seq<Edge>) {
    forall e :: e in edges ==> e.condition == ""
  }

  ghost predicate SameGraph(a: Workflow, b: Workflow) {
    Ids(a.nodes) == Ids(b.nodes) && forall e :: e in a.edges <==> e in b.edges
  }

  /** Where the loop ends when the store grants every claim: no node is left with a verdict. */
  ghost predicate CompletePass(wf: Workflow, eval: Evaluator, start: State, trace: seq<Step>) {
    && Explains(wf, eval, start, trace, Replay(start, trace), CountQueued(trace))
    && forall n :: n in wf.nodes ==> Verdict(wf.edges, eval, Replay(start, trace), n.id) == None
  }

  lemma GrantedClaimsComplete(wf: Workflow, eval: Evaluator, start: State, trace: seq<Step>, queued: nat,
                              claim: nat -> bool, first: nat, attempts: nat)
    requires Explains(wf, eval, start, trace, Replay(start, trace), queued)
    requires Idle(wf.nodes, wf.edges, eval, Replay(start, trace), claim, first, attempts)
    requires forall k :: claim(k)
    ensures CompletePass(wf, eval, start, trace)
  {
    assert first < attempts ==> !claim(first);
    ClaimsOf(wf.nodes, wf.edges, eval, Replay(start, trace));
    var s := Replay(start, trace);
    assert forall id :: Verdict(wf.edges, eval, s, id) in {None, Some(Queued), Some(Skipped)};
  }

  lemma VerdictOfNode(wf: Workflow, eval: Evaluator, start: State, trace: seq<Step>, id: string)
    requires CompletePass(wf, eval, start, trace) && id in Ids(wf.nodes)
    ensures Verdict(wf.edges, eval, Replay(start, trace), id) == None
  {
    var n :| n in wf.nodes && n.id == id;
  }

  ghost predicate SameEntry(a: Statuses, b: Statuses, id: string) {
    (id in a <==> id in b) && (id in a ==> a[id] == b[id])
  }

  /** What a condition on an edge into `id` may read: nodes no pass will move, and the predecessors of `id`. */
  ghost predicate Readable(edges: seq<Edge>, start: State, id: string, x: string) {
    StatusOf(start.statuses, x) != Pending || (x, id) in ArcsOf(edges)
  }

  ghost predicate ReadsAlike(edges: seq<Edge>, start: State, id: string, a: Statuses, b: Statuses) {
    forall x :: Readable(edges, start, id, x) ==> SameEntry(a, b, x)
  }

  /** Every condition depends only on what it may read. */
  ghost predicate LocalConditions(edges: seq<Edge>, eval: Evaluator, start: State) {
    forall e, a, b :: e in edges && e.condition != "" && ReadsAlike(edges, start, e.target, a, b)
                      ==> eval(e.condition, a) == eval(e.condition, b)
  }

  /** A context entry changes only by a skip. */
  lemma {:induction false} ContextEffect(edges: seq<Edge>, eval: Evaluator, s: State, trace: seq<Step>, id: string)
    requires Legal(edges, eval, s, trace)
    ensures if Step(id, Skipped) in trace
            then id in Replay(s, trace).context && Replay(s, trace).context[id] == Skipped
            else SameEntry(Replay(s, trace).context, s.context, id)
    decreases |trace|
  {
    if trace != [] {
      var k := |trace| - 1;
      ContextEffect(edges, eval, s, trace[..k], id);
      assert trace == trace[..k] + [trace[k]];
      assert trace[k] == Step(trace[k].id, trace[k].status);
    }
  }

  /** What a condition sees of a settled predecessor, or of a node that never was pending, is fixed by the start. */
  lemma SettledEntry(edges: seq<Edge>, eval: Evaluator, s: State, trace: seq<Step>, x: string)
    requires Legal(edges, eval, s, trace)
    requires StatusOf(s.statuses, x) != Pending || StatusOf(Replay(s, trace).statuses, x) in {Succeeded, Failed, Skipped}
    ensures if StatusOf(s.statuses, x) != Pending then SameEntry(Replay(s, trace).context, s.context, x)
            else x in Replay(s, trace).context && Replay(s, trace).context[x] == Skipped
  {
    ContextEffect(edges, eval, s, trace, x);
    TraceEffect(edges, eval, s, trace, x);
    if StatusOf(s.statuses, x) == Pending {
      var t :| t in trace && t.id == x;
      assert t == Step(x, Skipped);
    }
  }

  /** At a ready node, two legal traces from one start show its conditions the same entries. */
  lemma ContextsAlike(a: Workflow, b: Workflow, eval: Evaluator, start: State, ta: seq<Step>, tb: seq<Step>, id: string)
    requires SameGraph(a, b)
    requires Legal(a.edges, eval, start, ta) && Legal(b.edges, eval, start, tb)
    ensures DepsSatisfied(a.edges, id, Replay(start, ta).statuses) && DepsSatisfied(b.edges, id, Replay(start, tb).statuses)
            ==> ReadsAlike(a.edges, start, id, Replay(start, ta).context, Replay(start, tb).context)
  {
    forall x | Readable(a.edges, start, id, x)
               && DepsSatisfied(a.edges, id, Replay(start, ta).statuses) && DepsSatisfied(b.edges, id, Replay(start, tb).statuses)
      ensures SameEntry(Replay(start, ta).context, Replay(start, tb).context, x)
    {
      if StatusOf(start.statuses, x) == Pending {
        var e :| e in a.edges && e.source == x && e.target == id;
        assert EdgeSatisfied(e, Replay(start, ta).statuses) && EdgeSatisfied(e, Replay(start, tb).statuses);
      }
      SettledEntry(a.edges, eval, start, ta, x);
      SettledEntry(b.edges, eval, start, tb, x);
    }
  }

  lemma AllowsAlike(edges: seq<Edge>, eval: Evaluator, start: State, id: string, a: Statuses, b: Statuses)
    requires LocalConditions(edges, eval, start) && ReadsAlike(edges, start, id, a, b)
    ensures EdgeAllowsRun(edges, id, eval, a) == EdgeAllowsRun(edges, id, eval, b)
  {
    assert forall e :: e in edges && e.target == id && e.condition != "" ==> eval(e.condition, a) == eval(e.condition, b);
  }

  /** Where a trace moves a node, and what the verdict rested on. */
  lemma MoveOf(edges: seq<Edge>, eval: Evaluator, s: State, trace: seq<Step>, id: string) returns (k: nat)
    requires Legal(edges, eval, s, trace) && StatusOf(s.statuses, id) == Pending
    requires StatusOf(Replay(s, trace).statuses, id) != Pending
    ensures k < |trace| && trace[k] == Step(id, StatusOf(Replay(s, trace).statuses, id))
    ensures Legal(edges, eval, s, trace[..k]) && Verdict(edges, eval, Replay(s, trace[..k]), id) == Some(trace[k].status)
  {
    TraceEffect(edges, eval, s, trace, id);
    var t :| t in trace && t.id == id;
    k :| 0 <= k < |trace| && trace[k] == t;
    LegalAt(edges, eval, s, trace, k);
  }

  /** An edge decided when one order visits a node is decided the same way where the other order ends. */
  lemma EdgeAgrees(a: Workflow, b: Workflow, eval: Evaluator, start: State, ta: seq<Step>, tb: seq<Step>, k: nat, e: Edge)
    requires SameGraph(a, b) && LocalConditions(a.edges, eval, start)
    requires CompletePass(a, eval, start, ta) && CompletePass(b, eval, start, tb)
    requires k < |ta|
    ensures EdgeSatisfied(e, Replay(start, ta[..k]).statuses) ==> EdgeSatisfied(e, Replay(start, tb).statuses)
    ensures EdgeDoomed(e, Replay(start, ta[..k]).statuses) ==> EdgeDoomed(e, Replay(start, tb).statuses)
    decreases k, 0
  {
    LegalPrefix(a.edges, eval, start, ta, k);
    TraceEffect(a.edges, eval, start, ta[..k], e.source);
    TraceEffect(b.edges, eval, start, tb, e.source);
    if StatusOf(start.statuses, e.source) == Pending && StatusOf(Replay(start, ta[..k]).statuses, e.source) == Skipped {
      var j := MoveOf(a.edges, eval, start, ta[..k], e.source);
      StepAgrees(a, b, eval, start, ta, tb, j);
    }
  }

  /** Whatever one order does to a node, the other order does as well. */
  lemma {:induction false} StepAgrees(a: Workflow, b: Workflow, eval: Evaluator, start: State,
                                      ta: seq<Step>, tb: seq<Step>, k: nat)
    requires SameGraph(a, b) && LocalConditions(a.edges, eval, start)
    requires CompletePass(a, eval, start, ta) && CompletePass(b, eval, start, tb)
    requires k < |ta|
    ensures StatusOf(Replay(start, tb).statuses, ta[k].id) == ta[k].status
    decreases k, 1
  {
    var id, mid, sb := ta[k].id, Replay(start, ta[..k]), Replay(start, tb);
    LegalAt(a.edges, eval, start, ta, k);
    forall e | e in a.edges && e.target == id
      ensures EdgeSatisfied(e, mid.statuses) ==> EdgeSatisfied(e, sb.statuses)
      ensures EdgeDoomed(e, mid.statuses) ==> EdgeDoomed(e, sb.statuses)
    {
      EdgeAgrees(a, b, eval, start, ta, tb, k, e);
    }
    TraceEffect(a.edges, eval, start, ta[..k], id);
    assert ta[k] in ta;
    VerdictOfNode(b, eval, start, tb, id);
    assert StatusOf(start.statuses, id) == Pending;
    assert StatusOf(sb.statuses, id) != Pending;
    SameMove(a, b, eval, start, ta[..k], tb, id);
  }

  /** A verdict on a node whose edges are decided where the other trace ends is the verdict of that trace. */
  lemma SameMove(a: Workflow, b: Workflow, eval: Evaluator, start: State, ta: seq<Step>, tb: seq<Step>, id: string)
    requires SameGraph(a, b) && LocalConditions(a.edges, eval, start)
    requires Legal(a.edges, eval, start, ta) && Legal(b.edges, eval, start, tb)
    requires StatusOf(start.statuses, id) == Pending && StatusOf(Replay(start, tb).statuses, id) != Pending
    requires Verdict(a.edges, eval, Replay(start, ta), id).Some?
    requires DepsDoomed(a.edges, id, Replay(start, ta).statuses) ==> DepsDoomed(b.edges, id, Replay(start, tb).statuses)
    requires DepsSatisfied(a.edges, id, Replay(start, ta).statuses) ==> DepsSatisfied(b.edges, id, Replay(start, tb).statuses)
    ensures Verdict(a.edges, eval, Replay(start, ta), id) == Some(StatusOf(Replay(start, tb).statuses, id))
  {
    var j := MoveOf(b.edges, eval, start, tb, id);
    QueuedIsReady(b.edges, eval, start, tb, j);
    NotBothVerdicts(b.edges, id, Replay(start, tb).statuses);
    DecisionLasts(b.edges, eval, start, tb, j, id);
    if DepsSatisfied(a.edges, id, Replay(start, ta).statuses) {
      NotBothVerdicts(a.edges, id, Replay(start, ta).statuses);
      ContextsAlike(a, b, eval, start, ta, tb[..j], id);
      AllowsAlike(a.edges, eval, start, id, Replay(start, ta).context, Replay(start, tb[..j]).context);
    }
  }

  lemma DecisionLasts(edges: seq<Edge>, eval: Evaluator, s: State, trace: seq<Step>, k: nat, id: string)
    requires Legal(edges, eval, s, trace) && k <= |trace|
    ensures DepsDoomed(edges, id, Replay(s, trace[..k]).statuses) ==> DepsDoomed(edges, id, Replay(s, trace).statuses)
    ensures DepsSatisfied(edges, id, Replay(s, trace[..k]).statuses) ==> DepsSatisfied(edges, id, Replay(s, trace).statuses)
  {
    LegalSuffix(edges, eval, s, trace, k);
    forall e | e in edges && e.target == id
      ensures EdgeSatisfied(e, Replay(s, trace[..k]).statuses) ==> EdgeSatisfied(e, Replay(s, trace).statuses)
      ensures EdgeDoomed(e, Replay(s, trace[..k]).statuses) ==> EdgeDoomed(e, Replay(s, trace).statuses)
    {
      EdgeStable(edges, eval, Replay(s, trace[..k]), trace[k..], e);
    }
  }

  /** When conditions read only what they may, any two orders of the same graph leave the same statuses. */
  lemma OrderIrrelevant(a: Workflow, b: Workflow, eval: Evaluator, start: State, ta: seq<Step>, tb: seq<Step>)
    requires SameGraph(a, b) && LocalConditions(a.edges, eval, start)
    requires CompletePass(a, eval, start, ta) && CompletePass(b, eval, start, tb)
    ensures Replay(start, ta).statuses == Replay(start, tb).statuses
  {
    var sa, sb := Replay(start, ta).statuses, Replay(start, tb).statuses;
    TraceEffect(a.edges, eval, start, ta, "");
    TraceEffect(b.edges, eval, start, tb, "");
    SameArcs(a, b, eval, start);
    forall id | id in sa
      ensures sa[id] == sb[id]
    {
      TraceEffect(a.edges, eval, start, ta, id);
      TraceEffect(b.edges, eval, start, tb, id);
      if StatusOf(start.statuses, id) == Pending && sa[id] != Pending {
        var k := MoveOf(a.edges, eval, start, ta, id);
        StepAgrees(a, b, eval, start, ta, tb, k);
      } else if StatusOf(start.statuses, id) == Pending && sb[id] != Pending {
        var k := MoveOf(b.edges, eval, start, tb, id);
        StepAgrees(b, a, eval, start, tb, ta, k);
      }
    }
  }

  lemma SameArcs(a: Workflow, b: Workflow, eval: Evaluator, start: State)
    requires SameGraph(a, b) && LocalConditions(a.edges, eval, start)
    ensures LocalConditions(b.edges, eval, start)
  {
    assert ArcsOf(a.edges) == ArcsOf(b.edges);
    forall e, x, y | e in b.edges && e.condition != "" && ReadsAlike(b.edges, start, e.target, x, y)
      ensures eval(e.condition, x) == eval(e.condition, y)
    {
      assert ReadsAlike(a.edges, start, e.target, x, y) by {
        forall z | Readable(a.edges, start, e.target, z)
          ensures SameEntry(x, y, z)
        {
          assert Readable(b.edges, start, e.target, z);
        }
      }
    }
  }

  /** In particular without conditions. */
  lemma UnconditionalIsLocal(edges: seq<Edge>, eval: Evaluator, start: State)
    requires Unconditional(edges)
    ensures LocalConditions(edges, eval, start)
  {
  }

  /** So for two runs of the loop on reordered workflows, when the store grants every claim. */
  lemma FinalStatusesAgree(a: Workflow, b: Workflow, eval: Evaluator, start: State, claim: nat -> bool,
                           sa: State, qa: nat, fa: nat, na: nat, sb: State, qb: nat, fb: nat, nb: nat)
    requires SameGraph(a, b) && LocalConditions(a.edges, eval, start) && forall k :: claim(k)
    requires Reached(a, eval, start, sa, qa) && Idle(a.nodes, a.edges, eval, sa, claim, fa, na)
    requires Reached(b, eval, start, sb, qb) && Idle(b.nodes, b.edges, eval, sb, claim, fb, nb)
    ensures sa.statuses == sb.statuses
  {
    var ta :| Explains(a, eval, start, ta, sa, qa);
    var tb :| Explains(b, eval, start, tb, sb, qb);
    GrantedClaimsComplete(a, eval, start, ta, qa, claim, fa, na);
    GrantedClaimsComplete(b, eval, start, tb, qb, claim, fb, nb);
    OrderIrrelevant(a, b, eval, start, ta, tb);
  }

  /**
   * A condition that reads an unrelated node can see the order: `x` is skipped by this pass and the condition on
   * the edge into `y` asks whether it was. Visited after `x`, `y` is queued; visited before, it is skipped.
   */
  lemma UnrelatedReadSeesOrder(a: Workflow, b: Workflow, r: string, x: string, y: string)
    returns (eval: Evaluator, start: State, ta: seq<Step>, tb: seq<Step>)
    requires r != x && r != y && x != y && Ids(a.nodes) == Ids(b.nodes) == {r, x, y}
    requires a.edges == b.edges == [Edge("", r, x, "", true), Edge("", r, y, "c", false)]
    ensures CompletePass(a, eval, start, ta) && CompletePass(b, eval, start, tb)
    ensures StatusOf(Replay(start, ta).statuses, y) == Queued && StatusOf(Replay(start, tb).statuses, y) == Skipped
  {
    eval := (_, context) => x in context && context[x] == Skipped;
    start := State(map[r := Succeeded][x := Pending][y := Pending], map[]);
    ta, tb := [Step(x, Skipped), Step(y, Queued)], [Step(y, Skipped), Step(x, Skipped)];
    VisitInTurn(a, eval, start, r, x, y, x, y);
    VisitInTurn(b, eval, start, r, x, y, y, x);
  }

  /** The pass that visits `first` before `second`. */
  lemma VisitInTurn(wf: Workflow, eval: Evaluator, start: State, r: string, x: string, y: string, first: string, second: string)
    requires r != x && r != y && x != y && {first, second} == {x, y} && Ids(wf.nodes) == {r, x, y}
    requires wf.edges == [Edge("", r, x, "", true), Edge("", r, y, "c", false)]
    requires forall context :: eval("c", context) == (x in context && context[x] == Skipped)
    requires start == State(map[r := Succeeded][x := Pending][y := Pending], map[])
    ensures var ask := Step(y, if first == x then Queued else Skipped);
            var t := if first == x then [Step(x, Skipped), ask] else [ask, Step(x, Skipped)];
            CompletePass(wf, eval, start, t) && StatusOf(Replay(start, t).statuses, y) == ask.status
  {
    var ask := Step(y, if first == x then Queued else Skipped);
    var one, two := if first == x then Step(x, Skipped) else ask, if first == x then ask else Step(x, Skipped);
    OrderVerdicts(wf.edges, eval, start, r, x, y);
    OrderVerdicts(wf.edges, eval, Apply(start, one), r, x, y);
    OrderVerdicts(wf.edges, eval, Apply(Apply(start, one), two), r, x, y);
    TwoSteps(wf, eval, start, one, two);
  }

  lemma OrderVerdicts(edges: seq<Edge>, eval: Evaluator, s: State, r: string, x: string, y: string)
    requires r != x && r != y && x != y
    requires edges == [Edge("", r, x, "", true), Edge("", r, y, "c", false)]
    requires StatusOf(s.statuses, r) == Succeeded && eval("c", s.context) == (x in s.context && s.context[x] == Skipped)
    ensures Verdict(edges, eval, s, r) == None
    ensures Verdict(edges, eval, s, x) == if StatusOf(s.statuses, x) == Pending then Some(Skipped) else None
    ensures Verdict(edges, eval, s, y) ==
            if StatusOf(s.statuses, y) != Pending then None
            else if x in s.context && s.context[x] == Skipped then Some(Queued) else Some(Skipped)
  {
    assert forall e :: e in edges <==> e == edges[0] || e == edges[1];
  }

  /**
   * Reading an ancestor further up does not help: when `f` has failed, `w`, `u` between `w` and `v`, and with them
   * the condition into `v` are settled in one pass, and the condition can be asked before `w` is visited.
   */
  lemma AncestorReadSeesOrder(a: Workflow, b: Workflow, f: string, w: string, u: string, v: string)
    returns (eval: Evaluator, start: State, ta: seq<Step>, tb: seq<Step>)
    requires f != w && f != u && f != v && w != u && w != v && u != v
    requires Ids(a.nodes) == Ids(b.nodes) == {f, w, u, v}
    requires a.edges == b.edges == AncestorEdges(f, w, u, v)
    ensures CompletePass(a, eval, start, ta) && CompletePass(b, eval, start, tb)
    ensures StatusOf(Replay(start, ta).statuses, v) == Queued && StatusOf(Replay(start, tb).statuses, v) == Skipped
  {
    eval := (_, context) => w in context && context[w] == Skipped;
    start := State(map[f := Failed][w := Pending][u := Pending][v := Pending], map[]);
    ta, tb := [Step(w, Skipped), Step(u, Skipped), Step(v, Queued)], [Step(u, Skipped), Step(v, Skipped), Step(w, Skipped)];
    AncestorFirst(a, eval, start, f, w, u, v);
    AncestorLast(b, eval, start, f, w, u, v);
  }

  function AncestorEdges(f: string, w: string, u: string, v: string): seq<Edge> {
    [Edge("", f, w, "", false), Edge("", f, u, "", false), Edge("", w, u, "", false), Edge("", u, v, "c", false)]
  }

  lemma AncestorVerdicts(eval: Evaluator, s: State, f: string, w: string, u: string, v: string)
    requires f != w && f != u && f != v && w != u && w != v && u != v
    requires StatusOf(s.statuses, f) == Failed && eval("c", s.context) == (w in s.context && s.context[w] == Skipped)
    ensures var edges := AncestorEdges(f, w, u, v);
            && Verdict(edges, eval, s, f) == None
            && Verdict(edges, eval, s, w) == (if StatusOf(s.statuses, w) == Pending then Some(Skipped) else None)
            && Verdict(edges, eval, s, u) == (if StatusOf(s.statuses, u) == Pending then Some(Skipped) else None)
            && (StatusOf(s.statuses, v) != Pending ==> Verdict(edges, eval, s, v) == None)
            && (StatusOf(s.statuses, v) == Pending && StatusOf(s.statuses, u) == Skipped ==>
                  Verdict(edges, eval, s, v) == Some(if w in s.context && s.context[w] == Skipped then Queued else Skipped))
  {
    var edges := AncestorEdges(f, w, u, v);
    assert forall e :: e in edges <==> e == edges[0] || e == edges[1] || e == edges[2] || e == edges[3];
  }

  lemma AncestorFirst(wf: Workflow, eval: Evaluator, start: State, f: string, w: string, u: string, v: string)
    requires f != w && f != u && f != v && w != u && w != v && u != v
    requires Ids(wf.nodes) == {f, w, u, v} && wf.edges == AncestorEdges(f, w, u, v)
    requires forall context :: eval("c", context) == (w in context && context[w] == Skipped)
    requires StatusOf(start.statuses, f) == Failed && StatusOf(start.statuses, w) == Pending && w !in start.context
    requires StatusOf(start.statuses, u) == Pending && StatusOf(start.statuses, v) == Pending
    ensures var t := [Step(w, Skipped), Step(u, Skipped), Step(v, Queued)];
            CompletePass(wf, eval, start, t) && StatusOf(Replay(start, t).statuses, v) == Queued
  {
    var one, two, three := Step(w, Skipped), Step(u, Skipped), Step(v, Queued);
    var s1 := Apply(start, one);
    var s2 := Apply(s1, two);
    AncestorVerdicts(eval, start, f, w, u, v);
    AncestorVerdicts(eval, s1, f, w, u, v);
    AncestorVerdicts(eval, s2, f, w, u, v);
    AncestorVerdicts(eval, Apply(s2, three), f, w, u, v);
    ThreeSteps(wf, eval, start, one, two, three);
  }

  lemma AncestorLast(wf: Workflow, eval: Evaluator, start: State, f: string, w: string, u: string, v: string)
    requires f != w && f != u && f != v && w != u && w != v && u != v
    requires Ids(wf.nodes) == {f, w, u, v} && wf.edges == AncestorEdges(f, w, u, v)
    requires forall context :: eval("c", context) == (w in context && context[w] == Skipped)
    requires StatusOf(start.statuses, f) == Failed && StatusOf(start.statuses, w) == Pending && w !in start.context
    requires StatusOf(start.statuses, u) == Pending && StatusOf(start.statuses, v) == Pending
    ensures var t := [Step(u, Skipped), Step(v, Skipped), Step(w, Skipped)];
            CompletePass(wf, eval, start, t) && StatusOf(Replay(start, t).statuses, v) == Skipped
  {
    var one, two, three := Step(u, Skipped), Step(v, Skipped), Step(w, Skipped);
    var s1 := Apply(start, one);
    var s2 := Apply(s1, two);
    AncestorVerdicts(eval, start, f, w, u, v);
    AncestorVerdicts(eval, s1, f, w, u, v);
    AncestorVerdicts(eval, s2, f, w, u, v);
    AncestorVerdicts(eval, Apply(s2, three), f, w, u, v);
    ThreeSteps(wf, eval, start, one, two, three);
  }

  lemma ThreeSteps(wf: Workflow, eval: Evaluator, s: State, first: Step, second: Step, third: Step)
    requires first.id in Ids(wf.nodes) && Verdict(wf.edges, eval, s, first.id) == Some(first.status)
    requires second.id in Ids(wf.nodes) && Verdict(wf.edges, eval, Apply(s, first), second.id) == Some(second.status)
    requires third.id in Ids(wf.nodes)
    requires Verdict(wf.edges, eval, Apply(Apply(s, first), second), third.id) == Some(third.status)
    requires forall id :: id in Ids(wf.nodes) ==> Verdict(wf.edges, eval, Apply(Apply(Apply(s, first), second), third), id) == None
    ensures CompletePass(wf, eval, s, [first, second, third])
    ensures Replay(s, [first, second, third]) == Apply(Apply(Apply(s, first), second), third)
  {
    assert Legal(wf.edges, eval, s, []) && Replay(s, []) == s;
    LegalExtends(wf.edges, eval, s, [], first);
    LegalExtends(wf.edges, eval, s, [] + [first], second);
    LegalExtends(wf.edges, eval, s, [] + [first] + [second], third);
    assert [] + [first] + [second] + [third] == [first, second, third];
    assert forall n :: n in wf.nodes ==> n.id in Ids(wf.nodes);
    assert forall t :: t in [first, second, third] ==> t == first || t == second || t == third;
  }

  lemma TwoSteps(wf: Workflow, eval: Evaluator, s: State, first: Step, second: Step)
    requires first.id in Ids(wf.nodes) && Verdict(wf.edges, eval, s, first.id) == Some(first.status)
    requires second.id in Ids(wf.nodes) && Verdict(wf.edges, eval, Apply(s, first), second.id) == Some(second.status)
    requires forall id :: id in Ids(wf.nodes) ==> Verdict(wf.edges, eval, Apply(Apply(s, first), second), id) == None
    ensures CompletePass(wf, eval, s, [first, second])
    ensures Replay(s, [first, second]) == Apply(Apply(s, first), second)
  {
    assert [first, second][..1] == [first] && [first][..0] == [];
    assert Legal(wf.edges, eval, s, []) && Replay(s, [first]) == Apply(s, first);
    assert forall n :: n in wf.nodes ==> n.id in Ids(wf.nodes);
    assert Legal(wf.edges, eval, s, [first, second]);
    assert forall t :: t in [first, second] ==> t == first || t == second;
  }

  // ----- a pass cannot leave a run stuck

  lemma {:induction false} Pigeonhole(p: seq<string>, s: set<string>) returns (i: nat, j: nat)
    requires (forall k :: 0 <= k < |p| ==> p[k] in s) && |p| > |s|
    ensures i < j < |p| && p[i] == p[j]
    decreases |p|
  {
    if k :| 1 <= k < |p| && p[k] == p[0] {
      i, j := 0, k;
    } else {
      var rest, fewer := p[1..], s - {p[0]};
      assert |fewer| == |s| - 1;
      i, j := Pigeonhole(rest, fewer);
      i, j := i + 1, j + 1;
    }
  }

  ghost predicate PredecessorWithin(arcs: Arcs, s: set<string>, v: string) {
    exists u :: u in s && (u, v) in arcs
  }

  lemma {:induction false} BackwardWalk(arcs: Arcs, s: set<string>, v: string, n: nat) returns (p: seq<string>)
    requires v in s && forall x :: x in s ==> PredecessorWithin(arcs, s, x)
    ensures IsPath(arcs, p) && |p| == n + 1 && forall k :: 0 <= k < |p| ==> p[k] in s
    decreases n
  {
    if n == 0 {
      p := [v];
    } else {
      var q := BackwardWalk(arcs, s, v, n - 1);
      assert PredecessorWithin(arcs, s, q[0]);
      var u :| u in s && (u, q[0]) in arcs;
      p := [u] + q;
    }
  }

  /** A non-empty set in which every node has a predecessor contains a cycle. */
  lemma PredecessorClosedIsCyclic(arcs: Arcs, s: set<string>, v: string) returns (c: seq<string>)
    requires v in s && forall x :: x in s ==> PredecessorWithin(arcs, s, x)
    ensures IsCycle(arcs, c) && forall k :: 0 <= k < |c| ==> c[k] in s
  {
    var p := BackwardWalk(arcs, s, v, |s|);
    var i, j := Pigeonhole(p, s);
    c := p[i..j + 1];
  }

  lemma PendingHasPendingPredecessor(wf: Workflow, eval: Evaluator, statuses: Statuses, context: Statuses, id: string)
    requires EndpointsDeclared(wf) && statuses.Keys == Ids(wf.nodes)
    requires forall x :: x in statuses ==> statuses[x] in {Pending, Succeeded, Failed, Skipped}
    requires StatusOf(statuses, id) == Pending && Verdict(wf.edges, eval, State(statuses, context), id) == None
    ensures exists u :: StatusOf(statuses, u) == Pending && (u, id) in ArcsOf(wf.edges)
  {
    var e :| e in wf.edges && e.target == id && !EdgeSatisfied(e, statuses);
    assert !EdgeDoomed(e, statuses);
    assert StatusOf(statuses, e.source) == Pending;
    assert (e.source, id) in ArcsOf(wf.edges);
  }

  /**
   * On an acyclic workflow a complete pass never leaves a run stuck: a node can only stay open while
   * some node is queued, running or waiting.
   */
  lemma NoDeadlock(wf: Workflow, eval: Evaluator, start: State, trace: seq<Step>)
    requires !Cyclic(ArcsOf(wf.edges)) && EndpointsDeclared(wf) && CompletePass(wf, eval, start, trace)
    requires start.statuses.Keys == Ids(wf.nodes)
    requires forall x :: x in start.statuses ==> !start.statuses[x].Other?
    ensures var statuses := Replay(start, trace).statuses;
            AnyOpen(statuses) ==> exists id :: id in statuses && statuses[id] in {Queued, Running, Waiting}
  {
    var s := Replay(start, trace);
    TraceEffect(wf.edges, eval, start, trace, "");
    forall x | x in s.statuses
      ensures !s.statuses[x].Other?
    {
      TraceEffect(wf.edges, eval, start, trace, x);
    }
    if AnyOpen(s.statuses) && forall id :: id in s.statuses ==> s.statuses[id] !in {Queued, Running, Waiting} {
      var pending := set x | x in s.statuses && s.statuses[x] == Pending;
      var v :| v in s.statuses && IsOpen(s.statuses[v]);
      forall x | x in pending
        ensures PredecessorWithin(ArcsOf(wf.edges), pending, x)
      {
        VerdictOfNode(wf, eval, start, trace, x);
        PendingHasPendingPredecessor(wf, eval, s.statuses, s.context, x);
        var u :| StatusOf(s.statuses, u) == Pending && (u, x) in ArcsOf(wf.edges);
        assert u in pending;
      }
      var c := PredecessorClosedIsCyclic(ArcsOf(wf.edges), pending, v);
      CycleWitness(ArcsOf(wf.edges), c);
    }
  }
}
