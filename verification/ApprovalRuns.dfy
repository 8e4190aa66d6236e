/** What a static approval guard means while a run executes, and what an inserted approval does there. */
module ApprovalRuns {
  import opened WorkflowGraph
  import opened Options
  import opened ApprovalGuard
  import opened TechnicalRepair
  import opened RepairSafety
  import opened Downstream
  import opened RunSafety
  import opened RunLifecycle

  // ----- a guarded node only moves behind a settled approval

  predicate Settled(s: Status) {
    s in {Succeeded, Failed, Skipped}
  }

  predicate Moved(s: Status) {
    Started(s) || s == Skipped
  }

  /** At some time in the run the node was settled. */
  ghost predicate EverSettled(wf: Workflow, start: Run, events: seq<Event>, id: string) {
    || Settled(StatusOf(RunAfter(wf, start, events).nodes, id))
    || (events != [] && EverSettled(wf, start, events[..|events| - 1], id))
  }

  /** At some time in the run the node was started or skipped. */
  ghost predicate EverMoved(wf: Workflow, start: Run, events: seq<Event>, id: string) {
    || Moved(StatusOf(RunAfter(wf, start, events).nodes, id))
    || (events != [] && EverMoved(wf, start, events[..|events| - 1], id))
  }

  lemma {:induction false} SettledHasMoved(wf: Workflow, start: Run, events: seq<Event>, id: string)
    requires EverSettled(wf, start, events, id)
    ensures EverMoved(wf, start, events, id)
    decreases |events|
  {
    if !Settled(StatusOf(RunAfter(wf, start, events).nodes, id)) {
      SettledHasMoved(wf, start, events[..|events| - 1], id);
    }
  }

  lemma StepKeepsKeys(wf: Workflow, r: Run, ev: Event)
    requires Enabled(wf, r, ev)
    ensures After(wf, r, ev).nodes.Keys == r.nodes.Keys
  {
    if ev.Scheduled? {
      TraceEffect(wf.edges, ev.eval, State(r.nodes, r.nodes), ev.trace, "");
    }
  }

  lemma {:induction false} MovedIsKnown(wf: Workflow, start: Run, events: seq<Event>, id: string)
    requires Happens(wf, start, events)
    ensures RunAfter(wf, start, events).nodes.Keys == start.nodes.Keys
    ensures EverMoved(wf, start, events, id) ==> id in start.nodes
    decreases |events|
  {
    if events != [] {
      var k := |events| - 1;
      MovedIsKnown(wf, start, events[..k], id);
      StepKeepsKeys(wf, RunAfter(wf, start, events[..k]), events[k]);
    }
  }

  ghost predicate SettledPredecessor(wf: Workflow, nodes: Statuses, id: string) {
    exists e :: e in wf.edges && e.target == id && Settled(StatusOf(nodes, e.source))
  }

  /** What moves a node has seen one of its predecessors settled, unless the node is a root. */
  lemma MoveFollowsSettled(wf: Workflow, r: Run, ev: Event, id: string)
    requires Enabled(wf, r, ev) && !IsRoot(ArcsOf(wf.edges), id)
    requires !Moved(StatusOf(r.nodes, id)) && Moved(StatusOf(After(wf, r, ev).nodes, id))
    ensures SettledPredecessor(wf, After(wf, r, ev).nodes, id)
  {
    NewlyMoved(wf, r, ev, id);
    if ev.RouterSkipped? {
      var e :| e in wf.edges && (e.source, e.target) == (ev.router, id);
    } else {
      PassMoveFollowsSettled(wf, r, ev, id);
    }
  }

  lemma PassMoveFollowsSettled(wf: Workflow, r: Run, ev: Event, id: string)
    requires Enabled(wf, r, ev) && ev.Scheduled? && !IsRoot(ArcsOf(wf.edges), id)
    requires StatusOf(r.nodes, id) == Pending && StatusOf(After(wf, r, ev).nodes, id) != Pending
    ensures SettledPredecessor(wf, After(wf, r, ev).nodes, id)
  {
    var s := State(r.nodes, r.nodes);
    var k := MoveOf(wf.edges, ev.eval, s, ev.trace, id);
    DecisionLasts(wf.edges, ev.eval, s, ev.trace, k, id);
    var u :| (u, id) in ArcsOf(wf.edges);
    var e :| e in wf.edges && (e.source, e.target) == (u, id);
    var after := Replay(s, ev.trace).statuses;
    if DepsDoomed(wf.edges, id, Replay(s, ev.trace[..k]).statuses) {
      var d :| d in wf.edges && d.target == id && EdgeDoomed(d, after);
    } else {
      assert EdgeSatisfied(e, after);
    }
  }

  lemma {:induction false} EverMovedFollows(wf: Workflow, start: Run, events: seq<Event>, id: string) returns (u: string)
    requires Starts(wf, start) && Happens(wf, start, events)
    requires EverMoved(wf, start, events, id) && !IsRoot(ArcsOf(wf.edges), id)
    ensures (u, id) in ArcsOf(wf.edges) && EverSettled(wf, start, events, u)
    decreases |events|
  {
    var k := |events| - 1;
    if events != [] && EverMoved(wf, start, events[..k], id) {
      u := EverMovedFollows(wf, start, events[..k], id);
    } else {
      assert events != [];
      assert !Moved(StatusOf(RunAfter(wf, start, events[..k]).nodes, id));
      MoveFollowsSettled(wf, RunAfter(wf, start, events[..k]), events[k], id);
      var e :| e in wf.edges && e.target == id && Settled(StatusOf(RunAfter(wf, start, events).nodes, e.source));
      u := e.source;
    }
  }

  /** The arcs that do not leave an approval. */
  ghost function OpenArcs(wf: Workflow): Arcs {
    set e | e in wf.edges && !IsApproval(wf, e.source) :: (e.source, e.target)
  }

  /** The guarded nodes that moved although no approval before them was ever settled. */
  ghost function Unaccounted(wf: Workflow, start: Run, events: seq<Event>): set<string> {
    set x | x in start.nodes.Keys
            && EverMoved(wf, start, events, x) && !Exposed(wf, x) && !ApprovedBefore(wf, start, events, x)
  }

  /** An approval from which the node is reached was settled at some time. */
  ghost predicate ApprovedBefore(wf: Workflow, start: Run, events: seq<Event>, id: string) {
    exists a :: IsApproval(wf, a) && Reaches(ArcsOf(wf.edges), a, id) && EverSettled(wf, start, events, a)
  }

  lemma OneArcReaches(arcs: Arcs, u: string, v: string)
    requires (u, v) in arcs
    ensures Reaches(arcs, u, v)
    ensures forall a :: Reaches(arcs, a, u) ==> Reaches(arcs, a, v)
  {
    assert PathBetween(arcs, u, v, [u, v]);
    forall a, p | PathBetween(arcs, a, u, p)
      ensures Reaches(arcs, a, v)
    {
      PathAppend(arcs, p, v);
      assert PathBetween(arcs, a, v, p + [v]);
    }
  }

  lemma UnaccountedPredecessor(wf: Workflow, start: Run, events: seq<Event>, id: string)
    requires Starts(wf, start) && Happens(wf, start, events) && id in Unaccounted(wf, start, events)
    ensures PredecessorWithin(OpenArcs(wf), Unaccounted(wf, start, events), id)
  {
    if IsRoot(ArcsOf(wf.edges), id) {
      RootExposed(wf, id);
    }
    var u := EverMovedFollows(wf, start, events, id);
    OneArcReaches(ArcsOf(wf.edges), u, id);
    assert !IsApproval(wf, u);
    if Exposed(wf, u) {
      ExposedForward(wf, u, id);
    }
    SettledHasMoved(wf, start, events, u);
    MovedIsKnown(wf, start, events, u);
    assert u in Unaccounted(wf, start, events);
    assert (u, id) in OpenArcs(wf);
  }

  lemma OpenCycleExposes(wf: Workflow, c: seq<string>)
    requires IsCycle(OpenArcs(wf), c)
    ensures Exposed(wf, c[0])
  {
    forall i | 0 <= i < |c| - 1
      ensures (c[i], c[i + 1]) in ArcsOf(wf.edges) && !IsApproval(wf, c[i])
    {
      assert (c[i], c[i + 1]) in OpenArcs(wf);
    }
    assert IsCycle(ArcsOf(wf.edges), c) && Unapproved(wf, c);
    assert UnapprovedLoop(wf, c[0]);
    assert Exposes(wf, [c[0]], c[0]);
  }

  /** In every run of every workflow, a guarded node moves only after an approval before it was settled. */
  lemma GuardedMovesAfterApproval(wf: Workflow, start: Run, events: seq<Event>, id: string)
    requires Starts(wf, start) && Happens(wf, start, events)
    requires !Exposed(wf, id) && EverMoved(wf, start, events, id)
    ensures ApprovedBefore(wf, start, events, id)
  {
    if !ApprovedBefore(wf, start, events, id) {
      MovedIsKnown(wf, start, events, id);
      var unaccounted := Unaccounted(wf, start, events);
      forall x | x in unaccounted
        ensures PredecessorWithin(OpenArcs(wf), unaccounted, x)
      {
        UnaccountedPredecessor(wf, start, events, x);
      }
      var c := PredecessorClosedIsCyclic(OpenArcs(wf), unaccounted, id);
      assert c[0] in unaccounted;
      OpenCycleExposes(wf, c);
    }
  }

  // ----- what an inserted approval does at run time

  function Rerouted(e: Edge, f: string, a: string): Edge {
    if e.target == f then e.(target := a) else e
  }

  lemma {:induction false} RedirectedEdges(edges: seq<Edge>, f: string, a: string, e': Edge)
    ensures e' in Redirected(edges, f, a) <==> exists e :: e in edges && e' == Rerouted(e, f, a)
    decreases |edges|
  {
    if edges != [] {
      var rest, last := edges[..|edges| - 1], edges[|edges| - 1];
      RedirectedEdges(rest, f, a, e');
      assert edges == rest + [last];
      assert Redirected(edges, f, a) == Redirected(rest, f, a) + [Rerouted(last, f, a)];
      assert forall e :: e in edges <==> e in rest || e == last;
    }
  }

  function Link(f: string, a: string): Edge {
    Edge("", a, f, "", false)
  }

  /** The candidate holds the rerouted edges and the link. */
  lemma CandidateEdges(original: Workflow, candidate: Workflow, f: string, a: string, e': Edge)
    requires Inserts(original, candidate, f, a)
    ensures e' in candidate.edges <==> e' == Link(f, a) || exists e :: e in original.edges && e' == Rerouted(e, f, a)
  {
    RedirectedEdges(original.edges, f, a, e');
    var expected := ExpectedEdges(original.edges, f, a);
    assert e' in expected <==> e' in multiset(expected);
    assert e' in candidate.edges <==> e' in multiset(candidate.edges);
  }

  /** The approval waits for what the failing node waited for, and the failing node waits for the approval alone. */
  lemma EdgesIntoPatch(original: Workflow, candidate: Workflow, f: string, a: string, e': Edge)
    requires Inserts(original, candidate, f, a) && EndpointsDeclared(original)
    ensures e' in candidate.edges && e'.target == f <==> e' == Link(f, a)
    ensures e' in candidate.edges && e'.target == a <==> e'.target == a && e'.(target := f) in original.edges
  {
    InsertedIsNew(original, candidate, f, a);
    InsertionSplices(original, candidate, f, a);
    CandidateEdges(original, candidate, f, a, e');
    if e'.target == a && e'.(target := f) in original.edges {
      assert Rerouted(e'.(target := f), f, a) == e';
    }
  }

  /** The edges into `x` on the left are the edges into `y` on the right, retargeted. */
  ghost predicate Mirrors(left: seq<Edge>, x: string, right: seq<Edge>, y: string) {
    && (forall e :: e in left && e.target == x ==> e.(target := y) in right)
    && (forall e :: e in right && e.target == y ==> e.(target := x) in left)
  }

  lemma MirrorsDoomed(left: seq<Edge>, x: string, right: seq<Edge>, y: string, statuses: Statuses)
    requires Mirrors(left, x, right, y) && DepsDoomed(left, x, statuses)
    ensures DepsDoomed(right, y, statuses)
  {
    var e :| e in left && e.target == x && EdgeDoomed(e, statuses);
    assert EdgeDoomed(e.(target := y), statuses);
  }

  lemma MirrorsSatisfied(left: seq<Edge>, x: string, right: seq<Edge>, y: string, statuses: Statuses)
    requires Mirrors(left, x, right, y) && DepsSatisfied(right, y, statuses)
    ensures DepsSatisfied(left, x, statuses)
  {
    forall e | e in left && e.target == x
      ensures EdgeSatisfied(e, statuses)
    {
      assert EdgeSatisfied(e.(target := y), statuses);
    }
  }

  lemma MirrorsAllows(left: seq<Edge>, x: string, right: seq<Edge>, y: string, eval: Evaluator, context: Statuses)
    requires Mirrors(left, x, right, y) && EdgeAllowsRun(left, x, eval, context)
    ensures EdgeAllowsRun(right, y, eval, context)
  {
    if e :| e in left && e.target == x && (e.condition == "" || eval(e.condition, context)) {
      assert e.(target := y).condition == e.condition;
    } else {
      forall e | e in right
        ensures e.target != y
      {
        assert e.target == y ==> e.(target := x) in left;
      }
    }
  }

  lemma PatchMirrors(original: Workflow, candidate: Workflow, f: string, a: string)
    requires Inserts(original, candidate, f, a) && EndpointsDeclared(original)
    ensures Mirrors(candidate.edges, a, original.edges, f) && Mirrors(original.edges, f, candidate.edges, a)
  {
    forall e | e in original.edges && e.target == f
      ensures e.(target := a) in candidate.edges
    {
      EdgesIntoPatch(original, candidate, f, a, e.(target := a));
      assert e.(target := a).(target := f) == e;
    }
    forall e | e in candidate.edges && e.target == a
      ensures e.(target := f) in original.edges
    {
      EdgesIntoPatch(original, candidate, f, a, e);
    }
  }

  lemma ApprovalInherits(original: Workflow, candidate: Workflow, f: string, a: string, eval: Evaluator,
                         statuses: Statuses, context: Statuses)
    requires Inserts(original, candidate, f, a) && EndpointsDeclared(original)
    ensures DepsDoomed(candidate.edges, a, statuses) == DepsDoomed(original.edges, f, statuses)
    ensures DepsSatisfied(candidate.edges, a, statuses) == DepsSatisfied(original.edges, f, statuses)
    ensures EdgeAllowsRun(candidate.edges, a, eval, context) == EdgeAllowsRun(original.edges, f, eval, context)
  {
    PatchMirrors(original, candidate, f, a);
    Alike(candidate.edges, a, original.edges, f, eval, statuses, context);
    Alike(original.edges, f, candidate.edges, a, eval, statuses, context);
  }

  lemma Alike(left: seq<Edge>, x: string, right: seq<Edge>, y: string, eval: Evaluator, statuses: Statuses, context: Statuses)
    requires Mirrors(left, x, right, y)
    ensures DepsDoomed(left, x, statuses) ==> DepsDoomed(right, y, statuses)
    ensures DepsSatisfied(right, y, statuses) ==> DepsSatisfied(left, x, statuses)
    ensures EdgeAllowsRun(left, x, eval, context) ==> EdgeAllowsRun(right, y, eval, context)
  {
    if DepsDoomed(left, x, statuses) {
      MirrorsDoomed(left, x, right, y, statuses);
    }
    if DepsSatisfied(right, y, statuses) {
      MirrorsSatisfied(left, x, right, y, statuses);
    }
    if EdgeAllowsRun(left, x, eval, context) {
      MirrorsAllows(left, x, right, y, eval, context);
    }
  }

  lemma LinkDecides(original: Workflow, candidate: Workflow, f: string, a: string, eval: Evaluator, s: State)
    requires Inserts(original, candidate, f, a) && EndpointsDeclared(original) && StatusOf(s.statuses, f) == Pending
    ensures Verdict(candidate.edges, eval, s, f) ==
            match StatusOf(s.statuses, a)
            case Failed => Some(Skipped)
            case Succeeded => Some(Queued)
            case Skipped => Some(Queued)
            case _ => None
  {
    forall e | e in candidate.edges && e.target == f
      ensures e == Link(f, a)
    {
      EdgesIntoPatch(original, candidate, f, a, e);
    }
    EdgesIntoPatch(original, candidate, f, a, Link(f, a));
    assert Link(f, a) in candidate.edges && Link(f, a).condition == "";
  }

  /**
   * The approval gets the verdict the failing node would have had; where that is a skip, the same pass goes on to
   * queue the failing node, which then runs although nobody approved it.
   */
  lemma SkippedApprovalReleases(original: Workflow, candidate: Workflow, f: string, a: string, eval: Evaluator, s: State)
    requires Inserts(original, candidate, f, a) && EndpointsDeclared(original)
    requires StatusOf(s.statuses, a) == Pending && StatusOf(s.statuses, f) == Pending
    ensures Verdict(candidate.edges, eval, s, a) == Verdict(original.edges, eval, s, f)
    ensures Verdict(original.edges, eval, s, f) == Some(Skipped) ==>
              Legal(candidate.edges, eval, s, [Step(a, Skipped), Step(f, Queued)])
  {
    ApprovalInherits(original, candidate, f, a, eval, s.statuses, s.context);
    if Verdict(original.edges, eval, s, f) == Some(Skipped) {
      InsertionSplices(original, candidate, f, a);
      var skip, queue := Step(a, Skipped), Step(f, Queued);
      LinkDecides(original, candidate, f, a, eval, Apply(s, skip));
      assert [skip, queue][..1] == [skip] && [skip][..0] == [];
      assert Legal(candidate.edges, eval, s, []) && Replay(s, [skip]) == Apply(s, skip);
    }
  }

  /** The input: one conditional edge into the failing node, whose condition is false once its source has succeeded. */
  lemma FalseConditionReleases(original: Workflow, candidate: Workflow, f: string, a: string, x: string, s: State)
    requires Inserts(original, candidate, f, a) && EndpointsDeclared(original)
    requires original.edges == [Edge("", x, f, "c", false)] && StatusOf(s.statuses, x) == Succeeded
    requires StatusOf(s.statuses, a) == Pending && StatusOf(s.statuses, f) == Pending
    ensures var never: Evaluator := (_, _) => false;
            Verdict(original.edges, never, s, f) == Some(Skipped)
            && Legal(candidate.edges, never, s, [Step(a, Skipped), Step(f, Queued)])
  {
    var never: Evaluator := (_, _) => false;
    assert original.edges[0] in original.edges;
    SkippedApprovalReleases(original, candidate, f, a, never, s);
  }

  /** In every run of the patched workflow the failing node starts only behind its approval, granted or skipped. */
  lemma PatchedStartsAfterApproval(original: Workflow, candidate: Workflow, f: string, a: string,
                                   start: Run, events: seq<Event>)
    requires Inserts(original, candidate, f, a) && EndpointsDeclared(original)
    requires Starts(candidate, start) && Happens(candidate, start, events)
    requires Started(StatusOf(RunAfter(candidate, start, events).nodes, f))
    ensures StatusOf(RunAfter(candidate, start, events).nodes, a) in {Succeeded, Skipped}
  {
    EdgesIntoPatch(original, candidate, f, a, Link(f, a));
    DependencyExactly(candidate, start, events, Link(f, a));
  }

  /** In a state of a pass, the original loop would have skipped the failing node. */
  ghost predicate OriginalSkips(original: Workflow, f: string, eval: Evaluator, s: State) {
    || DepsDoomed(original.edges, f, s.statuses)
    || (DepsSatisfied(original.edges, f, s.statuses) && !EdgeAllowsRun(original.edges, f, eval, s.context))
  }

  /** The event skips the approval: a router chose otherwise, or a pass met a state where the original skips. */
  ghost predicate SkipsApproval(original: Workflow, f: string, a: string, r: Run, ev: Event) {
    || (ev.RouterSkipped? && ev.id == a)
    || (ev.Scheduled? && exists j :: 0 <= j < |ev.trace| && ev.trace[j] == Step(a, Skipped)
                                     && OriginalSkips(original, f, ev.eval, Replay(State(r.nodes, r.nodes), ev.trace[..j])))
  }

  lemma SkipExplained(original: Workflow, candidate: Workflow, f: string, a: string, r: Run, ev: Event)
    requires Inserts(original, candidate, f, a) && EndpointsDeclared(original) && Enabled(candidate, r, ev)
    requires StatusOf(r.nodes, a) != Skipped && StatusOf(After(candidate, r, ev).nodes, a) == Skipped
    ensures SkipsApproval(original, f, a, r, ev)
  {
    NewlyMoved(candidate, r, ev, a);
    if ev.Scheduled? {
      var s := State(r.nodes, r.nodes);
      var j := MoveOf(candidate.edges, ev.eval, s, ev.trace, a);
      var mid := Replay(s, ev.trace[..j]);
      ApprovalInherits(original, candidate, f, a, ev.eval, mid.statuses, mid.context);
    }
  }

  /** Whenever the approval stands skipped, one event of the run skipped it for such a reason. */
  lemma {:induction false} SkippedApprovalExplained(original: Workflow, candidate: Workflow, f: string, a: string,
                                                    start: Run, events: seq<Event>) returns (k: nat)
    requires Inserts(original, candidate, f, a) && EndpointsDeclared(original)
    requires Starts(candidate, start) && Happens(candidate, start, events)
    requires StatusOf(RunAfter(candidate, start, events).nodes, a) == Skipped
    ensures k < |events| && SkipsApproval(original, f, a, RunAfter(candidate, start, events[..k]), events[k])
    decreases |events|
  {
    assert events != [];
    var n := |events| - 1;
    if StatusOf(RunAfter(candidate, start, events[..n]).nodes, a) == Skipped {
      k := SkippedApprovalExplained(original, candidate, f, a, start, events[..n]);
      assert events[..n][..k] == events[..k];
    } else {
      k := n;
      SkipExplained(original, candidate, f, a, RunAfter(candidate, start, events[..n]), events[n]);
    }
  }

  /**
   * Where nothing skips the approval, no run starts the failing node before the approval has succeeded. A skip
   * needs a state in which the original would have skipped the failing node, or a router that chose otherwise.
   */
  lemma PatchedStartsApproved(original: Workflow, candidate: Workflow, f: string, a: string, start: Run, events: seq<Event>)
    requires Inserts(original, candidate, f, a) && EndpointsDeclared(original)
    requires Starts(candidate, start) && Happens(candidate, start, events)
    requires Started(StatusOf(RunAfter(candidate, start, events).nodes, f))
    requires forall k :: 0 <= k < |events| ==> !SkipsApproval(original, f, a, RunAfter(candidate, start, events[..k]), events[k])
    ensures StatusOf(RunAfter(candidate, start, events).nodes, a) == Succeeded
  {
    PatchedStartsAfterApproval(original, candidate, f, a, start, events);
    if StatusOf(RunAfter(candidate, start, events).nodes, a) == Skipped {
      var k := SkippedApprovalExplained(original, candidate, f, a, start, events);
    }
  }
}
