/** Readiness and downstream scheduling of a run: the fixed-point loop and the settle decision. */
module Downstream {
  import opened WorkflowGraph
  import opened Options

  datatype Status = Pending | Queued | Running | Waiting | Succeeded | Failed | Skipped | Other(name: string)

  type Statuses = map<string, Status>

  /** What the loop mutates: node statuses, and the node statuses visible to edge conditions. */
  datatype State = State(statuses: Statuses, context: Statuses)

  /** Evaluates a condition against the run context; an evaluation error counts as false. */
  type Evaluator = (string, Statuses) -> bool

  datatype Step = Step(id: string, status: Status)

  datatype Outcome =
    | Woken(ready: nat)
    | RunFailed(failedNodes: nat)
    | RunSucceeded(nodes: nat, handledFailures: nat)
    | StillOpen

  function StatusOf(statuses: Statuses, id: string): Status {
    if id in statuses then statuses[id] else Other("")
  }

  predicate EdgeSatisfied(e: Edge, statuses: Statuses) {
    var source := StatusOf(statuses, e.source);
    if e.onError then source == Failed else source == Succeeded || source == Skipped
  }

  predicate EdgeDoomed(e: Edge, statuses: Statuses) {
    var source := StatusOf(statuses, e.source);
    if e.onError then source == Succeeded || source == Skipped else source == Failed
  }

  predicate DepsSatisfied(edges: seq<Edge>, id: string, statuses: Statuses) {
    forall e :: e in edges && e.target == id ==> EdgeSatisfied(e, statuses)
  }

  predicate DepsDoomed(edges: seq<Edge>, id: string, statuses: Statuses) {
    exists e :: e in edges && e.target == id && EdgeDoomed(e, statuses)
  }

  predicate NodeFailureHandled(edges: seq<Edge>, id: string) {
    exists e :: e in edges && e.onError && e.source == id
  }

  predicate IsOpen(s: Status) {
    s in {Pending, Queued, Running, Waiting}
  }

  /** Roots run; otherwise some incoming edge must be unconditional or have a true condition. */
  predicate EdgeAllowsRun(edges: seq<Edge>, id: string, eval: Evaluator, context: Statuses) {
    || (exists e :: e in edges && e.target == id && (e.condition == "" || eval(e.condition, context)))
    || (forall e :: e in edges ==> e.target != id)
  }

  /** The verdict of one visit to a node: skip it, try to queue it, or leave it alone. */
  function Verdict(edges: seq<Edge>, eval: Evaluator, s: State, id: string): Option<Status> {
    if StatusOf(s.statuses, id) != Pending then None
    else if DepsDoomed(edges, id, s.statuses) then Some(Skipped)
    else if !DepsSatisfied(edges, id, s.statuses) then None
    else if EdgeAllowsRun(edges, id, eval, s.context) then Some(Queued)
    else Some(Skipped)
  }

  /** A skip is visible to later conditions at once; a queue claim is not. */
  function Apply(s: State, step: Step): State {
    State(s.statuses[step.id := step.status],
          if step.status == Skipped then s.context[step.id := Skipped] else s.context)
  }

  function Replay(s: State, trace: seq<Step>): State {
    if trace == [] then s else Apply(Replay(s, trace[..|trace| - 1]), trace[|trace| - 1])
  }

  /** Every step of the trace carries out the verdict of the state it is taken in. */
  ghost predicate Legal(edges: seq<Edge>, eval: Evaluator, s: State, trace: seq<Step>) {
    trace != [] ==>
      var k := |trace| - 1;
      && Legal(edges, eval, s, trace[..k])
      && Verdict(edges, eval, Replay(s, trace[..k]), trace[k].id) == Some(trace[k].status)
  }

  function CountQueued(trace: seq<Step>): nat {
    if trace == [] then 0
    else CountQueued(trace[..|trace| - 1]) + if trace[|trace| - 1].status == Queued then 1 else 0
  }

  ghost function PendingIds(nodes: seq<Node>, statuses: Statuses): set<string> {
    set n | n in nodes && StatusOf(statuses, n.id) == Pending :: n.id
  }

  lemma StepShrinksPending(wf: Workflow, eval: Evaluator, s: State, n: Node, status: Status)
    requires n in wf.nodes && Verdict(wf.edges, eval, s, n.id) == Some(status)
    ensures PendingIds(wf.nodes, Apply(s, Step(n.id, status)).statuses) < PendingIds(wf.nodes, s.statuses)
  {
    var after := PendingIds(wf.nodes, Apply(s, Step(n.id, status)).statuses);
    assert n.id in PendingIds(wf.nodes, s.statuses) && n.id !in after;
  }

  lemma LegalExtends(edges: seq<Edge>, eval: Evaluator, s: State, trace: seq<Step>, step: Step)
    requires Legal(edges, eval, s, trace)
    requires Verdict(edges, eval, Replay(s, trace), step.id) == Some(step.status)
    ensures Legal(edges, eval, s, trace + [step])
    ensures Replay(s, trace + [step]) == Apply(Replay(s, trace), step)
    ensures CountQueued(trace + [step]) == CountQueued(trace) + if step.status == Queued then 1 else 0
  {
    assert (trace + [step])[..|trace|] == trace;
  }

  /** How many visits of a pass over `nodes` would try to queue a node. */
  ghost function Claims(nodes: seq<Node>, edges: seq<Edge>, eval: Evaluator, s: State): nat {
    if nodes == [] then 0
    else
      Claims(nodes[..|nodes| - 1], edges, eval, s)
      + if Verdict(edges, eval, s, nodes[|nodes| - 1].id) == Some(Queued) then 1 else 0
  }

  /** How many of the first `attempts` queue claims the store granted. */
  ghost function Granted(claim: nat -> bool, attempts: nat): nat {
    if attempts == 0 then 0 else Granted(claim, attempts - 1) + if claim(attempts - 1) then 1 else 0
  }

  /** A pass over `nodes` changes nothing: it skips none, and the store refuses each of its claims, counted from `first`. */
  ghost predicate Idle(nodes: seq<Node>, edges: seq<Edge>, eval: Evaluator, s: State, claim: nat -> bool,
                       first: nat, attempts: nat) {
    && (forall n :: n in nodes ==> Verdict(edges, eval, s, n.id) != Some(Skipped))
    && attempts == first + Claims(nodes, edges, eval, s)
    && forall k :: first <= k < attempts ==> !claim(k)
  }

  lemma IdleStep(nodes: seq<Node>, n: Node, edges: seq<Edge>, eval: Evaluator, s: State, claim: nat -> bool,
                 first: nat, attempts: nat)
    requires Idle(nodes, edges, eval, s, claim, first, attempts)
    ensures Verdict(edges, eval, s, n.id) == None ==> Idle(nodes + [n], edges, eval, s, claim, first, attempts)
    ensures Verdict(edges, eval, s, n.id) == Some(Queued) && !claim(attempts) ==>
              Idle(nodes + [n], edges, eval, s, claim, first, attempts + 1)
  {
    assert (nodes + [n])[..|nodes|] == nodes;
  }

  /** The trace explains how `s` and the queue count came about. */
  ghost predicate Explains(wf: Workflow, eval: Evaluator, start: State, trace: seq<Step>, s: State, queued: nat) {
    && Legal(wf.edges, eval, start, trace) && s == Replay(start, trace) && queued == CountQueued(trace)
    && forall step :: step in trace ==> step.id in Ids(wf.nodes)
  }

  /** Legal moves lead from `start` to `s` and queue `queued` nodes on the way. */
  ghost predicate Reached(wf: Workflow, eval: Evaluator, start: State, s: State, queued: nat) {
    exists trace :: Explains(wf, eval, start, trace, s, queued)
  }

  lemma ReachStep(wf: Workflow, eval: Evaluator, start: State, s: State, queued: nat, n: Node, status: Status)
    requires Reached(wf, eval, start, s, queued) && n in wf.nodes && Verdict(wf.edges, eval, s, n.id) == Some(status)
    ensures Reached(wf, eval, start, Apply(s, Step(n.id, status)), queued + if status == Queued then 1 else 0)
  {
    var trace :| Explains(wf, eval, start, trace, s, queued);
    ExplainsStep(wf, eval, start, trace, s, queued, n, Step(n.id, status));
  }

  lemma ExplainsStep(wf: Workflow, eval: Evaluator, start: State, trace: seq<Step>, s: State, queued: nat, n: Node, step: Step)
    requires Explains(wf, eval, start, trace, s, queued) && n in wf.nodes && step.id == n.id
    requires Verdict(wf.edges, eval, s, step.id) == Some(step.status)
    ensures Explains(wf, eval, start, trace + [step], Apply(s, step), queued + if step.status == Queued then 1 else 0)
  {
    LegalExtends(wf.edges, eval, start, trace, step);
  }

  /** Within a pass, after the first `i` nodes. */
  ghost predicate Midway(wf: Workflow, eval: Evaluator, start: State, before: State, claim: nat -> bool, tried: nat, i: nat,
                         s: State, queued: nat, changed: bool, attempts: nat)
    requires i <= |wf.nodes|
  {
    && Reached(wf, eval, start, s, queued) && queued == Granted(claim, attempts)
    && if changed then PendingIds(wf.nodes, s.statuses) < PendingIds(wf.nodes, before.statuses)
       else s == before && Idle(wf.nodes[..i], wf.edges, eval, s, claim, tried, attempts)
  }

  lemma LeaveNode(wf: Workflow, eval: Evaluator, start: State, before: State, claim: nat -> bool, tried: nat, i: nat,
                  s: State, queued: nat, changed: bool, attempts: nat)
    requires i < |wf.nodes| && Midway(wf, eval, start, before, claim, tried, i, s, queued, changed, attempts)
    ensures Verdict(wf.edges, eval, s, wf.nodes[i].id) == None ==>
              Midway(wf, eval, start, before, claim, tried, i + 1, s, queued, changed, attempts)
    ensures Verdict(wf.edges, eval, s, wf.nodes[i].id) == Some(Queued) && !claim(attempts) ==>
              Midway(wf, eval, start, before, claim, tried, i + 1, s, queued, changed, attempts + 1)
  {
    assert wf.nodes[..i + 1] == wf.nodes[..i] + [wf.nodes[i]];
    if !changed {
      IdleStep(wf.nodes[..i], wf.nodes[i], wf.edges, eval, s, claim, tried, attempts);
    }
  }

  lemma MoveNode(wf: Workflow, eval: Evaluator, start: State, before: State, claim: nat -> bool, tried: nat, i: nat,
                 s: State, queued: nat, changed: bool, attempts: nat, status: Status)
    requires i < |wf.nodes| && Midway(wf, eval, start, before, claim, tried, i, s, queued, changed, attempts)
    requires Verdict(wf.edges, eval, s, wf.nodes[i].id) == Some(status)
    requires status == Queued ==> claim(attempts)
    ensures var won := if status == Queued then 1 else 0;
            Midway(wf, eval, start, before, claim, tried, i + 1, Apply(s, Step(wf.nodes[i].id, status)), queued + won,
                   true, attempts + won)
  {
    StepShrinksPending(wf, eval, s, wf.nodes[i], status);
    ReachStep(wf, eval, start, s, queued, wf.nodes[i], status);
  }

  /**
   * The verdict, in the order the loop asks: a pending node is skipped as soon as one source ended the wrong way,
   * and waits for the others. Once all have ended the right way one open edge is enough to queue it.
   */
  method Visit(edges: seq<Edge>, eval: Evaluator, s: State, id: string) returns (verdict: Option<Status>)
    ensures verdict == Verdict(edges, eval, s, id)
    ensures verdict in {None, Some(Skipped), Some(Queued)}
    ensures var statuses := s.statuses;
            verdict == Some(Queued) <==>
              && id in statuses && statuses[id] == Pending
              && (forall e :: e in edges && e.target == id ==>
                    e.source in statuses
                    && (if e.onError then statuses[e.source] == Failed else statuses[e.source] in {Succeeded, Skipped}))
              && ((forall e :: e in edges ==> e.target != id)
                  || exists e :: e in edges && e.target == id && (e.condition == "" || eval(e.condition, s.context)))
    ensures var statuses := s.statuses;
            verdict == Some(Skipped) <==>
              && id in statuses && statuses[id] == Pending
              && ((exists e :: e in edges && e.target == id && e.source in statuses
                               && (if e.onError then statuses[e.source] in {Succeeded, Skipped}
                                   else statuses[e.source] == Failed))
                  || ((exists e :: e in edges && e.target == id)
                      && forall e :: e in edges && e.target == id ==>
                           && e.source in statuses
                           && (if e.onError then statuses[e.source] == Failed else statuses[e.source] in {Succeeded, Skipped})
                           && e.condition != "" && !eval(e.condition, s.context)))
  {
    if StatusOf(s.statuses, id) != Pending {
      return None;
    }
    var doomed := DepsDoomed(edges, id, s.statuses);
    if !doomed && !DepsSatisfied(edges, id, s.statuses) {
      return None;
    }
    if doomed || !EdgeAllowsRun(edges, id, eval, s.context) {
      return Some(Skipped);
    }
    return Some(Queued);
  }

  /** One pass over the nodes. `claim(i)` is the store's answer to the i-th queue claim. */
  method Pass(wf: Workflow, eval: Evaluator, ghost start: State, before: State, ready: nat, claim: nat -> bool, tried: nat)
    returns (s: State, queued: nat, changed: bool, attempts: nat)
    requires Reached(wf, eval, start, before, ready) && ready == Granted(claim, tried)
    ensures Reached(wf, eval, start, s, queued) && queued == Granted(claim, attempts)
    ensures !changed ==> s == before && Idle(wf.nodes, wf.edges, eval, s, claim, tried, attempts)
    ensures changed ==> PendingIds(wf.nodes, s.statuses) < PendingIds(wf.nodes, before.statuses)
  {
    s, queued, changed, attempts := before, ready, false, tried;
    for i := 0 to |wf.nodes|
      invariant Midway(wf, eval, start, before, claim, tried, i, s, queued, changed, attempts)
    {
      var id := wf.nodes[i].id;
      var verdict := Visit(wf.edges, eval, s, id);
      if verdict == None {
        LeaveNode(wf, eval, start, before, claim, tried, i, s, queued, changed, attempts);
      } else if verdict == Some(Skipped) {
        MoveNode(wf, eval, start, before, claim, tried, i, s, queued, changed, attempts, Skipped);
        s, changed := Apply(s, Step(id, Skipped)), true;
      } else if claim(attempts) {
        MoveNode(wf, eval, start, before, claim, tried, i, s, queued, changed, attempts, Queued);
        s, queued, changed, attempts := Apply(s, Step(id, Queued)), queued + 1, true, attempts + 1;
      } else {
        LeaveNode(wf, eval, start, before, claim, tried, i, s, queued, changed, attempts);
        attempts := attempts + 1;
      }
    }
    assert wf.nodes[..|wf.nodes|] == wf.nodes;
  }

  /**
   * The readiness loop: passes until one changes nothing. Legal moves lead to the final state, as many nodes
   * are queued as claims were granted, and the last pass is idle.
   */
  method ScheduleReady(wf: Workflow, eval: Evaluator, start: State, claim: nat -> bool)
    returns (s: State, queued: nat, attempts: nat)
    ensures Reached(wf, eval, start, s, queued) && queued == Granted(claim, attempts)
    ensures exists first :: Idle(wf.nodes, wf.edges, eval, s, claim, first, attempts)
  {
    assert Explains(wf, eval, start, [], start, 0);
    s, queued, attempts := start, 0, 0;
    ghost var first := 0;
    var changed := true;
    while changed
      invariant Reached(wf, eval, start, s, queued) && queued == Granted(claim, attempts)
      invariant !changed ==> Idle(wf.nodes, wf.edges, eval, s, claim, first, attempts)
      decreases PendingIds(wf.nodes, s.statuses), changed
    {
      first := attempts;
      s, queued, changed, attempts := Pass(wf, eval, start, s, queued, claim, attempts);
    }
  }

  ghost predicate UnhandledFailure(edges: seq<Edge>, statuses: Statuses) {
    exists id :: id in statuses && statuses[id] == Failed && !NodeFailureHandled(edges, id)
  }

  ghost predicate AnyOpen(statuses: Statuses) {
    exists id :: id in statuses && IsOpen(statuses[id])
  }

  ghost function FailedAmong(statuses: Statuses, ids: set<string>): set<string>
    requires ids <= statuses.Keys
  {
    set id | id in ids && statuses[id] == Failed
  }

  ghost predicate UnhandledAmong(edges: seq<Edge>, statuses: Statuses, ids: set<string>)
    requires ids <= statuses.Keys
  {
    exists id :: id in ids && statuses[id] == Failed && !NodeFailureHandled(edges, id)
  }

  ghost predicate OpenAmong(statuses: Statuses, ids: set<string>)
    requires ids <= statuses.Keys
  {
    exists id :: id in ids && IsOpen(statuses[id])
  }

  lemma AmongOneMore(edges: seq<Edge>, statuses: Statuses, ids: set<string>, id: string)
    requires ids <= statuses.Keys && id in statuses && id !in ids
    ensures |FailedAmong(statuses, ids + {id})| == |FailedAmong(statuses, ids)| + if statuses[id] == Failed then 1 else 0
    ensures UnhandledAmong(edges, statuses, ids + {id}) <==>
              UnhandledAmong(edges, statuses, ids) || (statuses[id] == Failed && !NodeFailureHandled(edges, id))
    ensures OpenAmong(statuses, ids + {id}) <==> OpenAmong(statuses, ids) || IsOpen(statuses[id])
  {
    assert FailedAmong(statuses, ids + {id}) == FailedAmong(statuses, ids) + if statuses[id] == Failed then {id} else {};
    assert forall x :: x in ids ==> x in ids + {id};
    assert id in ids + {id};
  }

  /** The counters are right for the nodes in `ids`. */
  ghost predicate Counted(edges: seq<Edge>, statuses: Statuses, ids: set<string>,
                          failedNodes: nat, handledFailures: nat, anyUnhandledFailed: bool, anyOpen: bool) {
    && ids <= statuses.Keys && failedNodes == |FailedAmong(statuses, ids)|
    && (anyUnhandledFailed <==> UnhandledAmong(edges, statuses, ids))
    && (anyOpen <==> OpenAmong(statuses, ids))
    && (!anyUnhandledFailed ==> handledFailures == failedNodes)
  }

  lemma CountOneMore(edges: seq<Edge>, statuses: Statuses, ids: set<string>, id: string,
                     failedNodes: nat, handledFailures: nat, anyUnhandledFailed: bool, anyOpen: bool)
    requires Counted(edges, statuses, ids, failedNodes, handledFailures, anyUnhandledFailed, anyOpen)
    requires id in statuses && id !in ids
    ensures var failed, handled := statuses[id] == Failed, NodeFailureHandled(edges, id);
            Counted(edges, statuses, ids + {id}, failedNodes + (if failed then 1 else 0),
                    handledFailures + (if failed && handled then 1 else 0),
                    anyUnhandledFailed || (failed && !handled), anyOpen || IsOpen(statuses[id]))
  {
    AmongOneMore(edges, statuses, ids, id);
  }

  /** `rest` is what is left of `all` after `seen`. */
  ghost predicate Splits(all: set<string>, seen: set<string>, rest: set<string>) {
    seen !! rest && seen + rest == all
  }

  lemma TakeOne(all: set<string>, seen: set<string>, rest: set<string>, id: string)
    requires Splits(all, seen, rest) && id in rest
    ensures Splits(all, seen + {id}, rest - {id}) && id in all && id !in seen && |seen + {id}| == |seen| + 1
  {
  }

  /** Counts the statuses the settle decision looks at. */
  method Tally(edges: seq<Edge>, statuses: Statuses)
    returns (total: nat, failedNodes: nat, handledFailures: nat, anyUnhandledFailed: bool, anyOpen: bool)
    ensures total == |statuses.Keys|
    ensures Counted(edges, statuses, statuses.Keys, failedNodes, handledFailures, anyUnhandledFailed, anyOpen)
  {
    anyUnhandledFailed, anyOpen := false, false;
    total, failedNodes, handledFailures := 0, 0, 0;
    var rest := statuses.Keys;
    ghost var seen := {};
    while rest != {}
      invariant Splits(statuses.Keys, seen, rest) && total == |seen|
      invariant Counted(edges, statuses, seen, failedNodes, handledFailures, anyUnhandledFailed, anyOpen)
      decreases |rest|
    {
      var id :| id in rest;
      TakeOne(statuses.Keys, seen, rest, id);
      CountOneMore(edges, statuses, seen, id, failedNodes, handledFailures, anyUnhandledFailed, anyOpen);
      seen := seen + {id};
      rest, total := rest - {id}, total + 1;
      var failed, handled := statuses[id] == Failed, NodeFailureHandled(edges, id);
      failedNodes := failedNodes + if failed then 1 else 0;
      handledFailures := handledFailures + if failed && handled then 1 else 0;
      anyUnhandledFailed := anyUnhandledFailed || (failed && !handled);
      anyOpen := anyOpen || IsOpen(statuses[id]);
    }
    assert seen == statuses.Keys;
  }

  /** What the run does after a pass that queued `queued` nodes and left these statuses. */
  method Settle(edges: seq<Edge>, statuses: Statuses, queued: nat) returns (outcome: Outcome)
    ensures outcome.RunFailed? <==>
              && queued == 0
              && exists id :: id in statuses && statuses[id] == Failed
                              && forall e :: e in edges && e.source == id ==> !e.onError
    ensures outcome.RunSucceeded? ==>
              forall id :: id in statuses ==> statuses[id] !in {Pending, Queued, Running, Waiting}
    ensures queued > 0 ==> outcome == Woken(queued)
    ensures queued == 0 ==> !outcome.Woken?
    ensures outcome.RunFailed? <==> queued == 0 && UnhandledFailure(edges, statuses)
    ensures outcome.RunFailed? ==> outcome.failedNodes == |FailedAmong(statuses, statuses.Keys)|
    ensures outcome.RunSucceeded? <==>
              queued == 0 && !UnhandledFailure(edges, statuses) && statuses != map[] && !AnyOpen(statuses)
    ensures outcome.RunSucceeded? ==>
              outcome.nodes == |statuses| && outcome.handledFailures == |FailedAmong(statuses, statuses.Keys)|
  {
    if queued > 0 {
      return Woken(queued);
    }
    var total, failedNodes, handledFailures, anyUnhandledFailed, anyOpen := Tally(edges, statuses);
    assert |statuses| == |statuses.Keys|;
    if anyUnhandledFailed {
      return RunFailed(failedNodes);
    }
    if total > 0 && !anyOpen {
      return RunSucceeded(total, handledFailures);
    }
    return StillOpen;
  }
}
