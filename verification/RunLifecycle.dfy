/**
 * Whole runs: claims, completions, retries, scheduling passes, settlements, cancellation and redrives,
 * one event for each guarded update of the store.
 */
module RunLifecycle {
  import opened WorkflowGraph
  import opened Options
  import opened Downstream
  import opened RunSafety

  datatype RunStatus = Active | RunHasFailed | RunHasSucceeded | RunCancelled

  datatype Run = Run(status: RunStatus, nodes: Statuses)

  /**
   * Every node update is conditional on the node's status, as the store's statements are. `FailsRun` and
   * `SucceedsRun` are the settlement of a scheduling pass; a failure that nothing handles, and the failure of a
   * waiting node, settle the run as failed in the same transaction.
   */
  datatype Event =
    | Claimed(id: string)
    | Finished(id: string, ok: bool)
    | Retried(id: string)
    | Parked(id: string)
    | Woken(id: string, to: Status)
    | WokenFailed(id: string)
    | RouterSkipped(router: string, id: string)
    | Scheduled(eval: Evaluator, trace: seq<Step>)
    | FailsRun
    | SucceedsRun
    | CancelsRun
    | Redriven(id: string)

  const CANCELLED := Other("cancelled")

  ghost predicate Enabled(wf: Workflow, r: Run, ev: Event) {
    match ev
    case Claimed(id) => r.status == Active && StatusOf(r.nodes, id) == Queued
    case Finished(id, ok) => StatusOf(r.nodes, id) == Running && (ok || r.status in {Active, RunHasFailed})
    case Retried(id) => StatusOf(r.nodes, id) == Running
    case Parked(id) => StatusOf(r.nodes, id) == Running
    case Woken(id, to) => StatusOf(r.nodes, id) == Waiting && to in {Succeeded, Queued}
    case WokenFailed(id) => StatusOf(r.nodes, id) == Waiting
    case RouterSkipped(router, id) =>
      StatusOf(r.nodes, router) == Succeeded && StatusOf(r.nodes, id) == Pending && (router, id) in ArcsOf(wf.edges)
    case Scheduled(eval, trace) => r.status == Active && Legal(wf.edges, eval, State(r.nodes, r.nodes), trace)
    case FailsRun => r.status == Active && UnhandledFailure(wf.edges, r.nodes)
    case SucceedsRun => r.status == Active && !AnyOpen(r.nodes) && !UnhandledFailure(wf.edges, r.nodes)
    case CancelsRun => r.status == Active
    case Redriven(id) => StatusOf(r.nodes, id) == Failed
  }

  /** A failed run gives its queued nodes back: no claim could reach them any more. */
  function Demoted(nodes: Statuses): Statuses {
    map id | id in nodes :: if nodes[id] == Queued then Pending else nodes[id]
  }

  /** Cancellation lets running nodes finish. */
  function Stopped(nodes: Statuses): Statuses {
    map id | id in nodes :: if nodes[id] in {Pending, Queued, Waiting} then CANCELLED else nodes[id]
  }

  /** The settlement of an active run as failed; other runs keep their status and their nodes. */
  function Failing(r: Run): Run {
    if r.status == Active then Run(RunHasFailed, Demoted(r.nodes)) else r
  }

  function After(wf: Workflow, r: Run, ev: Event): Run {
    match ev
    case Claimed(id) => r.(nodes := r.nodes[id := Running])
    case Finished(id, ok) =>
      if ok then r.(nodes := r.nodes[id := Succeeded])
      else if NodeFailureHandled(wf.edges, id) then r.(nodes := r.nodes[id := Failed])
      else Failing(r.(nodes := r.nodes[id := Failed]))
    case Retried(id) => r.(nodes := r.nodes[id := Queued])
    case Parked(id) => r.(nodes := r.nodes[id := Waiting])
    case Woken(id, to) => r.(nodes := r.nodes[id := to])
    case WokenFailed(id) => Failing(r.(nodes := r.nodes[id := Failed]))
    case RouterSkipped(_, id) => r.(nodes := r.nodes[id := Skipped])
    case Scheduled(_, trace) => r.(nodes := Replay(State(r.nodes, r.nodes), trace).statuses)
    case FailsRun => Failing(r)
    case SucceedsRun => r.(status := RunHasSucceeded)
    case CancelsRun => Run(RunCancelled, Stopped(r.nodes))
    case Redriven(id) => Run(if r.status == RunHasFailed then Active else r.status, r.nodes[id := Queued])
  }

  function RunAfter(wf: Workflow, start: Run, events: seq<Event>): Run {
    if events == [] then start else After(wf, RunAfter(wf, start, events[..|events| - 1]), events[|events| - 1])
  }

  /** At the start the roots are queued and everything else is pending. */
  ghost predicate Starts(wf: Workflow, start: Run) {
    && start.status == Active
    && forall id :: id in start.nodes ==>
         start.nodes[id] == Pending || (start.nodes[id] == Queued && IsRoot(ArcsOf(wf.edges), id))
  }

  ghost predicate Happens(wf: Workflow, start: Run, events: seq<Event>) {
    events == [] ||
    var k := |events| - 1;
    Happens(wf, start, events[..k]) && Enabled(wf, RunAfter(wf, start, events[..k]), events[k])
  }

  function At(wf: Workflow, start: Run, events: seq<Event>, k: nat, id: string): Status
    requires k <= |events|
  {
    StatusOf(RunAfter(wf, start, events[..k]).nodes, id)
  }

  lemma {:induction false} HappensBefore(wf: Workflow, start: Run, events: seq<Event>, k: nat)
    requires Happens(wf, start, events) && k <= |events|
    ensures Happens(wf, start, events[..k])
    ensures k < |events| ==>
              Enabled(wf, RunAfter(wf, start, events[..k]), events[k])
              && RunAfter(wf, start, events[..k + 1]) == After(wf, RunAfter(wf, start, events[..k]), events[k])
    decreases |events|
  {
    if k == |events| {
      assert events[..k] == events;
    } else {
      var n := |events| - 1;
      assert events[..n][..k] == events[..k];
      if k < n {
        HappensBefore(wf, start, events[..n], k);
        assert events[..n][..k + 1] == events[..k + 1];
      } else {
        assert events[..k + 1] == events;
      }
    }
  }

  // ----- returning to pending

  /** The event settles an active run as failed. */
  ghost predicate FailsTheRun(wf: Workflow, r: Run, ev: Event) {
    r.status == Active && After(wf, r, ev).status == RunHasFailed
  }

  /** What settles a run: an unhandled failure, then or in an earlier transaction, or the failure of a waiting node. */
  lemma FailureCauses(wf: Workflow, r: Run, ev: Event)
    requires Enabled(wf, r, ev)
    ensures FailsTheRun(wf, r, ev) <==>
              r.status == Active
              && (ev.FailsRun? || ev.WokenFailed? || (ev.Finished? && !ev.ok && !NodeFailureHandled(wf.edges, ev.id)))
    ensures FailsTheRun(wf, r, ev) && !ev.WokenFailed? ==> UnhandledFailure(wf.edges, After(wf, r, ev).nodes)
  {
    if ev.Finished? && FailsTheRun(wf, r, ev) {
      assert ev.id in After(wf, r, ev).nodes && After(wf, r, ev).nodes[ev.id] == Failed;
    } else if ev.FailsRun? {
      var id :| id in r.nodes && r.nodes[id] == Failed && !NodeFailureHandled(wf.edges, id);
      assert id in After(wf, r, ev).nodes && After(wf, r, ev).nodes[id] == Failed;
    }
  }

  /** How the run's own status moves: success and cancellation are final, and only a redrive takes a failure back. */
  lemma RunStatusExactly(wf: Workflow, r: Run, ev: Event)
    requires Enabled(wf, r, ev)
    ensures var after := After(wf, r, ev).status;
            match r.status
            case Active => && (after == RunHasFailed <==> FailsTheRun(wf, r, ev))
                           && (after == RunHasSucceeded <==> ev == SucceedsRun) && (after == RunCancelled <==> ev == CancelsRun)
            case RunHasFailed => after == if ev.Redriven? then Active else RunHasFailed
            case RunHasSucceeded => after == RunHasSucceeded
            case RunCancelled => after == RunCancelled
  {
  }

  ghost predicate AllDone(wf: Workflow, nodes: Statuses) {
    forall id :: id in nodes ==>
      && nodes[id] !in {Pending, Queued, Running, Waiting}
      && (nodes[id] == Failed ==> exists e :: e in wf.edges && e.source == id && e.onError)
  }

  lemma NothingButRedrives(wf: Workflow, r: Run, ev: Event)
    requires r.status == RunHasSucceeded && AllDone(wf, r.nodes) && Enabled(wf, r, ev)
    ensures ev.Redriven?
  {
  }

  lemma SettledIsDone(wf: Workflow, nodes: Statuses)
    requires !AnyOpen(nodes) && !UnhandledFailure(wf.edges, nodes)
    ensures AllDone(wf, nodes)
  {
    forall id | id in nodes
      ensures nodes[id] !in {Pending, Queued, Running, Waiting}
      ensures nodes[id] == Failed ==> exists e :: e in wf.edges && e.source == id && e.onError
    {
      assert !IsOpen(nodes[id]);
      assert nodes[id] == Failed ==> NodeFailureHandled(wf.edges, id);
    }
  }

  /** In a run that has succeeded every node is done and every failure handled, and nothing but a redrive can happen. */
  lemma {:induction false} SuccessIsFinal(wf: Workflow, start: Run, events: seq<Event>, ev: Event)
    requires Starts(wf, start) && Happens(wf, start, events) && (forall e :: e in events ==> !e.Redriven?)
    requires RunAfter(wf, start, events).status == RunHasSucceeded
    ensures AllDone(wf, RunAfter(wf, start, events).nodes)
    ensures Enabled(wf, RunAfter(wf, start, events), ev) ==> ev.Redriven?
    decreases |events|
  {
    var k := |events| - 1;
    var before := RunAfter(wf, start, events[..k]);
    assert events[k] in events;
    if before.status == RunHasSucceeded {
      SuccessIsFinal(wf, start, events[..k], events[k]);
      assert false;
    }
    RunStatusExactly(wf, before, events[k]);
    SettledIsDone(wf, before.nodes);
    if Enabled(wf, RunAfter(wf, start, events), ev) {
      NothingButRedrives(wf, RunAfter(wf, start, events), ev);
    }
  }

  /** A node returns to pending exactly when the run settles as failed while the node is queued. */
  lemma PendingAgainExactly(wf: Workflow, r: Run, ev: Event, id: string)
    requires Enabled(wf, r, ev) && StatusOf(r.nodes, id) != Pending
    ensures StatusOf(After(wf, r, ev).nodes, id) == Pending <==> FailsTheRun(wf, r, ev) && StatusOf(r.nodes, id) == Queued
  {
    if ev.Scheduled? {
      TraceEffect(wf.edges, ev.eval, State(r.nodes, r.nodes), ev.trace, id);
    }
  }

  /** Over whole runs: between leaving pending and being pending again lies such a settlement. */
  lemma {:induction false} ReturnsByDemotion(wf: Workflow, start: Run, events: seq<Event>, i: nat, j: nat, id: string)
    returns (k: nat)
    requires Happens(wf, start, events) && i <= j <= |events|
    requires At(wf, start, events, i, id) != Pending && At(wf, start, events, j, id) == Pending
    ensures i <= k < j && FailsTheRun(wf, RunAfter(wf, start, events[..k]), events[k])
    ensures At(wf, start, events, k, id) == Queued
    decreases j - i
  {
    HappensBefore(wf, start, events, j - 1);
    if At(wf, start, events, j - 1, id) == Pending {
      k := ReturnsByDemotion(wf, start, events, i, j - 1, id);
    } else {
      k := j - 1;
      PendingAgainExactly(wf, RunAfter(wf, start, events[..k]), events[k], id);
    }
  }

  /** So a node leaves pending once for as long as the run does not settle as failed. */
  lemma ScheduledOnce(wf: Workflow, start: Run, events: seq<Event>, i: nat, j: nat, id: string)
    requires Happens(wf, start, events) && i <= j <= |events| && At(wf, start, events, i, id) != Pending
    requires forall k :: i <= k < j ==> !FailsTheRun(wf, RunAfter(wf, start, events[..k]), events[k])
    ensures At(wf, start, events, j, id) != Pending
  {
    if At(wf, start, events, j, id) == Pending {
      var k := ReturnsByDemotion(wf, start, events, i, j, id);
    }
  }

  lemma FailedRunStep(wf: Workflow, r: Run, ev: Event, id: string)
    requires Enabled(wf, r, ev) && r.status == RunHasFailed && !ev.Redriven? && StatusOf(r.nodes, id) in {Pending, Skipped}
    ensures After(wf, r, ev).status == RunHasFailed && StatusOf(After(wf, r, ev).nodes, id) in {Pending, Skipped}
  {
  }

  /** In a failed run nothing pending starts before a redrive; a router that was still running may skip it. */
  lemma {:induction false} FailedRunStartsNothing(wf: Workflow, start: Run, events: seq<Event>, i: nat, j: nat, id: string)
    requires Happens(wf, start, events) && i <= j <= |events|
    requires RunAfter(wf, start, events[..i]).status == RunHasFailed && At(wf, start, events, i, id) == Pending
    requires forall k :: i <= k < j ==> !events[k].Redriven?
    ensures RunAfter(wf, start, events[..j]).status == RunHasFailed && At(wf, start, events, j, id) in {Pending, Skipped}
    decreases j - i
  {
    if i < j {
      FailedRunStartsNothing(wf, start, events, i, j - 1, id);
      HappensBefore(wf, start, events, j - 1);
      FailedRunStep(wf, RunAfter(wf, start, events[..j - 1]), events[j - 1], id);
    }
  }

  ghost predicate CanReach(wf: Workflow, start: Run, r: Run) {
    exists events :: Happens(wf, start, events) && RunAfter(wf, start, events) == r
  }

  lemma ReachedAtStart(wf: Workflow, start: Run)
    ensures CanReach(wf, start, start)
  {
    assert Happens(wf, start, []) && RunAfter(wf, start, []) == start;
  }

  lemma ReachedNext(wf: Workflow, start: Run, r: Run, ev: Event)
    requires CanReach(wf, start, r) && Enabled(wf, r, ev)
    ensures CanReach(wf, start, After(wf, r, ev))
  {
    var events :| Happens(wf, start, events) && RunAfter(wf, start, events) == r;
    var longer := events + [ev];
    assert longer[..|longer| - 1] == events && longer[|longer| - 1] == ev;
    assert Happens(wf, start, longer) && RunAfter(wf, start, longer) == After(wf, r, ev);
  }

  /** Of two roots, the first can fail unhandled while the second is queued, and then the second is pending again. */
  lemma QueuedSiblingDemoted(wf: Workflow, start: Run, a: string, b: string) returns (end: Run)
    requires Starts(wf, start) && a != b && StatusOf(start.nodes, a) == Queued && StatusOf(start.nodes, b) == Queued
    requires !NodeFailureHandled(wf.edges, a)
    ensures CanReach(wf, start, end) && StatusOf(end.nodes, b) == Pending
  {
    ReachedAtStart(wf, start);
    ReachedNext(wf, start, start, Claimed(a));
    var running := After(wf, start, Claimed(a));
    ReachedNext(wf, start, running, Finished(a, false));
    end := After(wf, running, Finished(a, false));
  }

  // ----- dependencies

  predicate Started(s: Status) {
    s in {Queued, Running, Waiting, Succeeded, Failed}
  }

  /** The node was redriven and has not failed again since. */
  ghost predicate Reopened(wf: Workflow, start: Run, events: seq<Event>, id: string) {
    events != [] &&
    var k := |events| - 1;
    && StatusOf(RunAfter(wf, start, events).nodes, id) != Failed
    && (events[k] == Redriven(id) || Reopened(wf, start, events[..k], id))
  }

  ghost predicate RouterChoseOther(events: seq<Event>, id: string) {
    exists ev :: ev in events && ev.RouterSkipped? && ev.id == id
  }

  /** A decided edge is reopened by a redrive of its source and by nothing else, so only a failure can be taken back. */
  lemma EdgeReopensExactly(wf: Workflow, r: Run, ev: Event, e: Edge)
    requires Enabled(wf, r, ev)
    ensures EdgeSatisfied(e, r.nodes) ==>
              (!EdgeSatisfied(e, After(wf, r, ev).nodes) <==> ev.Redriven? && ev.id == e.source)
              && (ev.Redriven? && ev.id == e.source ==> e.onError)
    ensures EdgeDoomed(e, r.nodes) ==>
              (!EdgeDoomed(e, After(wf, r, ev).nodes) <==> ev.Redriven? && ev.id == e.source)
              && (ev.Redriven? && ev.id == e.source ==> !e.onError)
  {
    if ev.Scheduled? {
      EdgeStable(wf.edges, ev.eval, State(r.nodes, r.nodes), ev.trace, e);
    }
  }

  /**
   * Towards a started node an edge is settled its way, or it is an on-error edge whose source was redriven and has
   * not failed again. Without conditions a skipped node sits behind a dead edge, behind an ordinary edge whose
   * failed source was redriven, or beside a router's choice.
   */
  ghost predicate DependencySafe(wf: Workflow, start: Run, events: seq<Event>, id: string) {
    var nodes := RunAfter(wf, start, events).nodes;
    && (Started(StatusOf(nodes, id)) ==>
          forall e :: e in wf.edges && e.target == id ==>
            EdgeSatisfied(e, nodes) || (e.onError && Reopened(wf, start, events, e.source)))
    && (StatusOf(nodes, id) == Skipped && Unconditional(wf.edges) ==>
          RouterChoseOther(events, id) || exists e :: e in wf.edges && e.target == id && DeadOrReopened(wf, start, events, e))
  }

  ghost predicate DeadOrReopened(wf: Workflow, start: Run, events: seq<Event>, e: Edge) {
    EdgeDoomed(e, RunAfter(wf, start, events).nodes) || (!e.onError && Reopened(wf, start, events, e.source))
  }

  lemma RouterHistory(events: seq<Event>, ev: Event, id: string)
    ensures RouterChoseOther(events + [ev], id) <==> RouterChoseOther(events, id) || (ev.RouterSkipped? && ev.id == id)
  {
    assert forall x :: x in events + [ev] <==> x in events || x == ev;
  }

  /** One event keeps an edge settled or dead, or reopens it and leaves it reopened until its source fails again. */
  lemma EdgeHistory(wf: Workflow, start: Run, events: seq<Event>, ev: Event, e: Edge)
    requires Enabled(wf, RunAfter(wf, start, events), ev)
    ensures EdgeSatisfied(e, RunAfter(wf, start, events).nodes) || (e.onError && Reopened(wf, start, events, e.source)) ==>
              EdgeSatisfied(e, RunAfter(wf, start, events + [ev]).nodes)
              || (e.onError && Reopened(wf, start, events + [ev], e.source))
    ensures DeadOrReopened(wf, start, events, e) ==> DeadOrReopened(wf, start, events + [ev], e)
  {
    assert (events + [ev])[..|events|] == events;
    EdgeReopensExactly(wf, RunAfter(wf, start, events), ev, e);
  }

  /** What a pass starts has its dependencies settled, and what it skips without conditions sits behind a dead edge. */
  lemma PassSettlesFirst(wf: Workflow, r: Run, ev: Event, id: string)
    requires Enabled(wf, r, ev) && ev.Scheduled? && StatusOf(r.nodes, id) == Pending
    ensures Started(StatusOf(After(wf, r, ev).nodes, id)) ==> DepsSatisfied(wf.edges, id, After(wf, r, ev).nodes)
    ensures StatusOf(After(wf, r, ev).nodes, id) == Skipped && Unconditional(wf.edges) ==> DepsDoomed(wf.edges, id, After(wf, r, ev).nodes)
  {
    var s := State(r.nodes, r.nodes);
    TraceEffect(wf.edges, ev.eval, s, ev.trace, id);
    if t :| t in ev.trace && t.id == id {
      var k :| 0 <= k < |ev.trace| && ev.trace[k] == t;
      QueuedIsReady(wf.edges, ev.eval, s, ev.trace, k);
    }
  }

  /** Whether a step starts or skips a node that was not started or skipped before. */
  lemma NewlyMoved(wf: Workflow, r: Run, ev: Event, id: string)
    requires Enabled(wf, r, ev)
    ensures var before, after := StatusOf(r.nodes, id), StatusOf(After(wf, r, ev).nodes, id);
            && (Started(after) && !Started(before) ==> ev.Scheduled? && before == Pending)
            && (after == Skipped && before != Skipped ==>
                  before == Pending && (ev.Scheduled? || (ev.RouterSkipped? && ev.id == id)))
  {
    if ev.Scheduled? {
      TraceEffect(wf.edges, ev.eval, State(r.nodes, r.nodes), ev.trace, id);
    }
  }

  lemma StepKeepsSafety(wf: Workflow, start: Run, events: seq<Event>, ev: Event, id: string)
    requires Enabled(wf, RunAfter(wf, start, events), ev) && DependencySafe(wf, start, events, id)
    ensures DependencySafe(wf, start, events + [ev], id)
  {
    var r := RunAfter(wf, start, events);
    assert (events + [ev])[..|events|] == events;
    NewlyMoved(wf, r, ev, id);
    RouterHistory(events, ev, id);
    forall e | e in wf.edges && e.target == id
      ensures EdgeSatisfied(e, r.nodes) || (e.onError && Reopened(wf, start, events, e.source)) ==>
                EdgeSatisfied(e, After(wf, r, ev).nodes) || (e.onError && Reopened(wf, start, events + [ev], e.source))
      ensures DeadOrReopened(wf, start, events, e) ==> DeadOrReopened(wf, start, events + [ev], e)
    {
      EdgeHistory(wf, start, events, ev, e);
    }
    if ev.Scheduled? && StatusOf(r.nodes, id) == Pending {
      PassSettlesFirst(wf, r, ev, id);
    }
  }

  /** In every state of every run, through failures, cancellation and redrives. */
  lemma {:induction false} RunsRespectDependencies(wf: Workflow, start: Run, events: seq<Event>, id: string)
    requires Starts(wf, start) && Happens(wf, start, events)
    ensures DependencySafe(wf, start, events, id)
    decreases |events|
  {
    if events == [] {
      assert forall e :: e in wf.edges ==> (e.source, e.target) in ArcsOf(wf.edges);
    } else {
      var k := |events| - 1;
      RunsRespectDependencies(wf, start, events[..k], id);
      StepKeepsSafety(wf, start, events[..k], events[k], id);
      assert events == events[..k] + [events[k]];
    }
  }

  /** A dependency of a started node is settled exactly unless it waits for a failure that was taken back. */
  lemma DependencyExactly(wf: Workflow, start: Run, events: seq<Event>, e: Edge)
    requires Starts(wf, start) && Happens(wf, start, events) && e in wf.edges
    requires Started(StatusOf(RunAfter(wf, start, events).nodes, e.target))
    ensures EdgeSatisfied(e, RunAfter(wf, start, events).nodes) <==> !(e.onError && Reopened(wf, start, events, e.source))
  {
    RunsRespectDependencies(wf, start, events, e.target);
  }

  /** A pass can queue a pending node whose only incoming edge waits for a failure that has happened. */
  lemma ErrorBranchQueued(wf: Workflow, r: Run, e: Edge) returns (ev: Event)
    requires r.status == Active && e in wf.edges && e.onError && e.condition == ""
    requires forall other :: other in wf.edges && other.target == e.target ==> other == e
    requires StatusOf(r.nodes, e.source) == Failed && StatusOf(r.nodes, e.target) == Pending
    ensures Enabled(wf, r, ev) && After(wf, r, ev) == r.(nodes := r.nodes[e.target := Queued])
  {
    var never: Evaluator := (_, _) => false;
    var s, step := State(r.nodes, r.nodes), Step(e.target, Queued);
    assert Verdict(wf.edges, never, s, e.target) == Some(Queued);
    assert Legal(wf.edges, never, s, []) && Replay(s, []) == s;
    LegalExtends(wf.edges, never, s, [], step);
    assert [] + [step] == [step];
    ev := Scheduled(never, [step]);
  }

  /**
   * The exception is real: a failure whose on-error branch is already running can be redriven, and then both the
   * node and its error branch are under way.
   */
  lemma RedriveReopensDependency(wf: Workflow, start: Run, e: Edge) returns (end: Run)
    requires Starts(wf, start) && e in wf.edges && e.onError && e.condition == "" && e.source != e.target
    requires forall x :: x in wf.edges && x.target == e.target ==> x == e
    requires StatusOf(start.nodes, e.source) == Queued && StatusOf(start.nodes, e.target) == Pending
    ensures CanReach(wf, start, end) && StatusOf(end.nodes, e.target) == Running && !EdgeSatisfied(e, end.nodes)
  {
    ReachedAtStart(wf, start);
    var failed := HandledFailure(wf, start, start, e.source);
    var pass := ErrorBranchQueued(wf, failed, e);
    ReachedNext(wf, start, failed, pass);
    var queued := After(wf, failed, pass);
    ReachedNext(wf, start, queued, Claimed(e.target));
    var running := After(wf, queued, Claimed(e.target));
    ReachedNext(wf, start, running, Redriven(e.source));
    end := After(wf, running, Redriven(e.source));
  }

  lemma HandledFailure(wf: Workflow, start: Run, r: Run, id: string) returns (end: Run)
    requires CanReach(wf, start, r) && r.status == Active && StatusOf(r.nodes, id) == Queued
    requires NodeFailureHandled(wf.edges, id)
    ensures CanReach(wf, start, end) && end == r.(nodes := r.nodes[id := Failed])
  {
    ReachedNext(wf, start, r, Claimed(id));
    var running := After(wf, r, Claimed(id));
    ReachedNext(wf, start, running, Finished(id, false));
    end := After(wf, running, Finished(id, false));
  }
}
