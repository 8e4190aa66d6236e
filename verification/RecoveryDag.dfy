/** Which nodes survive the removal of a detector: forward search from the original roots. */
module RecoveryDag {
  import opened WorkflowGraph
  import ApprovalGuard

  /** A path from a declared node nothing enters to `id` that never visits `excluded`. */
  ghost predicate BypassPath(wf: Workflow, excluded: string, id: string, p: seq<string>) {
    && IsPath(ArcsOf(wf.edges), p) && p[|p| - 1] == id
    && p[0] in Ids(wf.nodes) && IsRoot(ArcsOf(wf.edges), p[0])
    && excluded !in p
  }

  ghost predicate Bypassed(wf: Workflow, excluded: string, id: string) {
    exists p :: BypassPath(wf, excluded, id, p)
  }

  /** Every path from a declared root to `id` visits `source` strictly before it ends. */
  ghost predicate RunsBefore(wf: Workflow, source: string, id: string) {
    forall p :: IsPath(ArcsOf(wf.edges), p) && p[|p| - 1] == id && p[0] in Ids(wf.nodes) && IsRoot(ArcsOf(wf.edges), p[0])
                ==> source in p[..|p| - 1]
  }

  /** The edges left when `excluded` is removed, grouped by source. */
  ghost predicate KeptEdges(edges: seq<Edge>, excluded: string, outgoing: map<string, seq<string>>) {
    forall u, v :: u in outgoing && v in outgoing[u]
                   <==> (u, v) in ArcsOf(edges) && u != excluded && v != excluded
  }

  function Next(outgoing: map<string, seq<string>>, id: string): seq<string> {
    if id in outgoing then outgoing[id] else []
  }

  /** What the search knows of one node: seen nodes are bypassed; roots and successors of visited nodes are seen. */
  ghost predicate FrontierAt(wf: Workflow, excluded: string, outgoing: map<string, seq<string>>,
                             visited: set<string>, queue: seq<string>, id: string) {
    && (id in visited || id in queue ==> Bypassed(wf, excluded, id))
    && (id in Ids(wf.nodes) && IsRoot(ArcsOf(wf.edges), id) && id != excluded ==> id in visited || id in queue)
    && (id in visited ==> forall v :: v in Next(outgoing, id) ==> v in visited || v in queue)
  }

  ghost predicate Frontier(wf: Workflow, excluded: string, outgoing: map<string, seq<string>>,
                           visited: set<string>, queue: seq<string>) {
    forall id {:trigger FrontierAt(wf, excluded, outgoing, visited, queue, id)} ::
      FrontierAt(wf, excluded, outgoing, visited, queue, id)
  }

  ghost function Universe(wf: Workflow): set<string> {
    Ids(wf.nodes) + set e | e in wf.edges :: e.target
  }

  lemma BypassExtends(wf: Workflow, excluded: string, u: string, v: string)
    requires Bypassed(wf, excluded, u) && (u, v) in ArcsOf(wf.edges) && v != excluded
    ensures Bypassed(wf, excluded, v)
  {
    var p :| BypassPath(wf, excluded, u, p);
    PathAppend(ArcsOf(wf.edges), p, v);
    assert BypassPath(wf, excluded, v, p + [v]);
  }

  lemma BypassInUniverse(wf: Workflow, excluded: string, id: string)
    requires Bypassed(wf, excluded, id)
    ensures id in Universe(wf)
  {
    var p :| BypassPath(wf, excluded, id, p);
    if |p| > 1 {
      assert (p[|p| - 2], p[|p| - 1]) in ArcsOf(wf.edges);
    }
  }

  /** With nothing left to expand, a bypassing path never leaves the visited set. */
  lemma FrontierClosed(wf: Workflow, excluded: string, outgoing: map<string, seq<string>>, visited: set<string>,
                       p: seq<string>, k: nat)
    requires Frontier(wf, excluded, outgoing, visited, []) && KeptEdges(wf.edges, excluded, outgoing)
    requires |p| > 0 && BypassPath(wf, excluded, p[|p| - 1], p) && k < |p|
    ensures p[k] in visited
  {
    assert FrontierAt(wf, excluded, outgoing, visited, [], p[0]);
    if k > 0 {
      FrontierClosed(wf, excluded, outgoing, visited, p, k - 1);
      assert FrontierAt(wf, excluded, outgoing, visited, [], p[k - 1]);
      assert (p[k - 1], p[k]) in ArcsOf(wf.edges);
      assert p[k - 1] in outgoing && p[k] in outgoing[p[k - 1]];
    } else {
      assert p[0] in p;
    }
  }

  method BuildOutgoing(edges: seq<Edge>, excluded: string) returns (outgoing: map<string, seq<string>>)
    ensures KeptEdges(edges, excluded, outgoing)
  {
    outgoing := map[];
    for i := 0 to |edges|
      invariant KeptEdges(edges[..i], excluded, outgoing)
    {
      var e := edges[i];
      assert edges[..i + 1] == edges[..i] + [e];
      assert ArcsOf(edges[..i + 1]) == ArcsOf(edges[..i]) + {(e.source, e.target)};
      if e.source == excluded || e.target == excluded {
        continue;
      }
      var known := if e.source in outgoing then outgoing[e.source] else [];
      outgoing := outgoing[e.source := known + [e.target]];
    }
    assert edges[..|edges|] == edges;
  }

  method InitialQueue(wf: Workflow, excluded: string) returns (queue: seq<string>)
    ensures forall id :: id in queue <==> id in Ids(wf.nodes) && IsRoot(ArcsOf(wf.edges), id) && id != excluded
  {
    var incoming: set<string> := {};
    for i := 0 to |wf.edges|
      invariant incoming == set e | e in wf.edges[..i] :: e.target
    {
      assert wf.edges[..i + 1] == wf.edges[..i] + [wf.edges[i]];
      incoming := incoming + {wf.edges[i].target};
    }
    assert wf.edges[..|wf.edges|] == wf.edges;
    forall id
      ensures id in incoming <==> !IsRoot(ArcsOf(wf.edges), id)
    {
      if id in incoming {
        var e :| e in wf.edges && e.target == id;
        assert (e.source, id) in ArcsOf(wf.edges);
      }
    }
    queue := [];
    for i := 0 to |wf.nodes|
      invariant forall id :: id in queue <==> id in Ids(wf.nodes[..i]) && id !in incoming && id != excluded
    {
      var id := wf.nodes[i].id;
      assert wf.nodes[..i + 1] == wf.nodes[..i] + [wf.nodes[i]];
      if id !in incoming && id != excluded {
        queue := queue + [id];
      }
    }
    assert wf.nodes[..|wf.nodes|] == wf.nodes;
  }

  lemma FrontierStart(wf: Workflow, excluded: string, outgoing: map<string, seq<string>>, queue: seq<string>)
    requires forall id :: id in queue <==> id in Ids(wf.nodes) && IsRoot(ArcsOf(wf.edges), id) && id != excluded
    ensures Frontier(wf, excluded, outgoing, {}, queue)
  {
    forall id
      ensures FrontierAt(wf, excluded, outgoing, {}, queue, id)
    {
      assert id in queue ==> BypassPath(wf, excluded, id, [id]);
    }
  }

  lemma FrontierStep(wf: Workflow, excluded: string, outgoing: map<string, seq<string>>,
                     visited: set<string>, id: string, queue: seq<string>)
    requires Frontier(wf, excluded, outgoing, visited, [id] + queue) && KeptEdges(wf.edges, excluded, outgoing)
    ensures id in Universe(wf)
    ensures id in visited ==> Frontier(wf, excluded, outgoing, visited, queue)
    ensures id !in visited ==> Frontier(wf, excluded, outgoing, visited + {id}, queue + Next(outgoing, id))
  {
    assert FrontierAt(wf, excluded, outgoing, visited, [id] + queue, id);
    BypassInUniverse(wf, excluded, id);
    forall u
      ensures id in visited ==> FrontierAt(wf, excluded, outgoing, visited, queue, u)
      ensures id !in visited ==> FrontierAt(wf, excluded, outgoing, visited + {id}, queue + Next(outgoing, id), u)
    {
      assert FrontierAt(wf, excluded, outgoing, visited, [id] + queue, u);
      if u in Next(outgoing, id) {
        BypassExtends(wf, excluded, id, u);
      }
    }
  }

  method ReachableNodesWithout(wf: Workflow, excluded: string) returns (visited: set<string>)
    ensures forall id :: id in visited <==> Bypassed(wf, excluded, id)
  {
    var outgoing := BuildOutgoing(wf.edges, excluded);
    var queue := InitialQueue(wf, excluded);
    visited := {};
    FrontierStart(wf, excluded, outgoing, queue);
    while |queue| > 0
      invariant Frontier(wf, excluded, outgoing, visited, queue)
      decreases Universe(wf) - visited, |queue|
    {
      var nodeId := queue[0];
      assert queue == [nodeId] + queue[1..];
      FrontierStep(wf, excluded, outgoing, visited, nodeId, queue[1..]);
      queue := queue[1..];
      if nodeId in visited {
        continue;
      }
      visited := visited + {nodeId};
      queue := queue + Next(outgoing, nodeId);
    }
    forall id
      ensures id in visited <==> Bypassed(wf, excluded, id)
    {
      assert FrontierAt(wf, excluded, outgoing, visited, queue, id);
      if Bypassed(wf, excluded, id) {
        var p :| BypassPath(wf, excluded, id, p);
        FrontierClosed(wf, excluded, outgoing, visited, p, |p| - 1);
      }
    }
  }

  /** A detector passes the save gate for an effect exactly when it runs on every root path before the effect. */
  lemma DetectorGuardsEffect(wf: Workflow, source: string, effect: string)
    requires source != effect
    ensures !Bypassed(wf, source, effect) <==> RunsBefore(wf, source, effect)
  {
    if !Bypassed(wf, source, effect) {
      forall p | IsPath(ArcsOf(wf.edges), p) && p[|p| - 1] == effect && p[0] in Ids(wf.nodes) && IsRoot(ArcsOf(wf.edges), p[0])
        ensures source in p[..|p| - 1]
      {
        assert !BypassPath(wf, source, effect, p);
        var i :| 0 <= i < |p| && p[i] == source;
        assert p[..|p| - 1][i] == source;
      }
    }
    forall p | BypassPath(wf, source, effect, p)
      ensures !RunsBefore(wf, source, effect)
    {
      assert source !in p[..|p| - 1];
    }
  }

  /** The effects the detector is or does not run before, in declaration order. */
  ghost function NotRunBefore(wf: Workflow, source: string, effects: seq<string>): seq<string> {
    if effects == [] then []
    else
      var last := effects[|effects| - 1];
      NotRunBefore(wf, source, effects[..|effects| - 1])
      + if last == source || !RunsBefore(wf, source, last) then [last] else []
  }

  /** The save gate for one quarantine detector: reports every effect the detector does not run before. */
  method UnguardedEffects(wf: Workflow, source: string, effects: seq<string>) returns (issues: seq<string>)
    ensures issues == NotRunBefore(wf, source, effects)
  {
    var reachable := ReachableNodesWithout(wf, source);
    issues := [];
    for i := 0 to |effects|
      invariant issues == NotRunBefore(wf, source, effects[..i])
    {
      assert effects[..i + 1][..i] == effects[..i];
      if effects[i] != source {
        DetectorGuardsEffect(wf, source, effects[i]);
      }
      if effects[i] == source || effects[i] in reachable {
        issues := issues + [effects[i]];
      }
    }
    assert effects[..|effects|] == effects;
  }

  /** Backward and forward search agree: a guarded node is one the approval's removal cuts off. */
  lemma GuardedNotBypassed(wf: Workflow, approval: string, id: string)
    requires forall n :: ApprovalGuard.IsApproval(wf, n) ==> n == approval
    requires !ApprovalGuard.Exposed(wf, id)
    ensures !Bypassed(wf, approval, id)
  {
    forall p | BypassPath(wf, approval, id, p)
      ensures false
    {
      forall i | 0 <= i < |p| - 1
        ensures !ApprovalGuard.IsApproval(wf, p[i])
      {
        assert p[i] in p;
      }
      assert ApprovalGuard.Exposes(wf, p, id);
    }
  }

  lemma GuardedIffNotBypassed(wf: Workflow, approval: string, id: string)
    requires !Cyclic(ArcsOf(wf.edges)) && EndpointsDeclared(wf)
    requires forall n :: ApprovalGuard.IsApproval(wf, n) <==> n == approval
    requires id in Ids(wf.nodes) && id != approval
    ensures !ApprovalGuard.Exposed(wf, id) <==> !Bypassed(wf, approval, id)
  {
    if !ApprovalGuard.Exposed(wf, id) {
      GuardedNotBypassed(wf, approval, id);
    } else {
      ApprovalGuard.GuardedIffDominated(wf, id);
      var arcs := ArcsOf(wf.edges);
      var p :| IsPath(arcs, p) && IsRoot(arcs, p[0]) && p[|p| - 1] == id && ApprovalGuard.Unapproved(wf, p);
      if |p| > 1 {
        assert (p[0], p[1]) in arcs;
      }
      assert BypassPath(wf, approval, id, p);
    }
  }
}
