/** Does a human approval dominate every way into a node? Memoised backward search over predecessors. */
module ApprovalGuard {
  import opened WorkflowGraph

  ghost predicate IsApproval(wf: Workflow, id: string) {
    KindOf(wf.nodes, id) == "approval"
  }

  /** No approval stands on the path strictly before its end. */
  ghost predicate Unapproved(wf: Workflow, p: seq<string>) {
    forall i :: 0 <= i < |p| - 1 ==> !IsApproval(wf, p[i])
  }

  /** A cycle through `id` that no approval interrupts. */
  ghost predicate UnapprovedLoop(wf: Workflow, id: string) {
    exists c :: IsCycle(ArcsOf(wf.edges), c) && c[0] == id && Unapproved(wf, c)
  }

  /** `p` enters `id` without an approval, from a root or from a loop nothing approves. */
  ghost predicate Exposes(wf: Workflow, p: seq<string>, id: string) {
    && IsPath(ArcsOf(wf.edges), p) && p[|p| - 1] == id && Unapproved(wf, p)
    && (IsRoot(ArcsOf(wf.edges), p[0]) || UnapprovedLoop(wf, p[0]))
  }

  ghost predicate Exposed(wf: Workflow, id: string) {
    exists p :: Exposes(wf, p, id)
  }

  /** Every path from a root to `id` passes an approval strictly before `id`. */
  ghost predicate ApprovalDominates(wf: Workflow, id: string) {
    forall p :: IsPath(ArcsOf(wf.edges), p) && IsRoot(ArcsOf(wf.edges), p[0]) && p[|p| - 1] == id
                ==> !Unapproved(wf, p)
  }

  lemma RootExposed(wf: Workflow, id: string)
    requires IsRoot(ArcsOf(wf.edges), id)
    ensures Exposed(wf, id)
  {
    assert Exposes(wf, [id], id);
  }

  lemma ExposedForward(wf: Workflow, u: string, v: string)
    requires (u, v) in ArcsOf(wf.edges) && !IsApproval(wf, u) && Exposed(wf, u)
    ensures Exposed(wf, v)
  {
    var p :| Exposes(wf, p, u);
    PathAppend(ArcsOf(wf.edges), p, v);
    assert Exposes(wf, p + [v], v);
  }

  lemma ExposedBackward(wf: Workflow, v: string) returns (u: string)
    requires Exposed(wf, v) && !IsRoot(ArcsOf(wf.edges), v)
    ensures (u, v) in ArcsOf(wf.edges) && !IsApproval(wf, u) && Exposed(wf, u)
  {
    var p :| Exposes(wf, p, v);
    if |p| == 1 {
      var c :| IsCycle(ArcsOf(wf.edges), c) && c[0] == v && Unapproved(wf, c);
      p := c;
    }
    var q := p[..|p| - 1];
    u := q[|q| - 1];
    assert (p[|p| - 2], p[|p| - 1]) in ArcsOf(wf.edges);
    assert Exposes(wf, q, u);
  }

  lemma ChainExtends(wf: Workflow, u: string, chain: seq<string>)
    requires IsPath(ArcsOf(wf.edges), chain) && Unapproved(wf, chain)
    requires (u, chain[0]) in ArcsOf(wf.edges) && !IsApproval(wf, u)
    ensures IsPath(ArcsOf(wf.edges), [u] + chain) && Unapproved(wf, [u] + chain)
  {
  }

  /** Re-entering a node that is still being visited closes a loop no approval interrupts. */
  lemma RevisitExposed(wf: Workflow, id: string, chain: seq<string>)
    requires IsPath(ArcsOf(wf.edges), [id] + chain) && Unapproved(wf, [id] + chain) && id in chain
    ensures Exposed(wf, id)
  {
    var j :| 0 <= j < |chain| && chain[j] == id;
    var p := [id] + chain;
    var c := p[..j + 2];
    assert IsCycle(ArcsOf(wf.edges), c) && c[0] == id && Unapproved(wf, c);
    assert Exposes(wf, [id], id);
  }

  /** An unapproved loop leads to `id` without an approval in between. */
  ghost predicate FedByLoop(wf: Workflow, id: string) {
    exists p :: IsPath(ArcsOf(wf.edges), p) && p[|p| - 1] == id && Unapproved(wf, p) && UnapprovedLoop(wf, p[0])
  }

  /** On every graph: a node is guarded exactly when approvals dominate it and no unapproved loop feeds it. */
  lemma GuardedExactly(wf: Workflow, id: string)
    ensures !Exposed(wf, id) <==> ApprovalDominates(wf, id) && !FedByLoop(wf, id)
  {
    if !ApprovalDominates(wf, id) {
      var p :| IsPath(ArcsOf(wf.edges), p) && IsRoot(ArcsOf(wf.edges), p[0]) && p[|p| - 1] == id && Unapproved(wf, p);
      assert Exposes(wf, p, id);
    }
    if FedByLoop(wf, id) {
      var p :| IsPath(ArcsOf(wf.edges), p) && p[|p| - 1] == id && Unapproved(wf, p) && UnapprovedLoop(wf, p[0]);
      assert Exposes(wf, p, id);
    }
  }

  /** Without cycles the answer is exactly dominance by approvals. */
  lemma GuardedIffDominated(wf: Workflow, id: string)
    requires !Cyclic(ArcsOf(wf.edges))
    ensures !Exposed(wf, id) <==> ApprovalDominates(wf, id)
  {
    GuardedExactly(wf, id);
  }

  /** With cycles the answer may refuse a dominated node: a self-feeding node no root reaches. */
  lemma CyclicDominanceRefused()
    ensures exists wf, id :: EndpointsDeclared(wf) && id in Ids(wf.nodes) && ApprovalDominates(wf, id) && Exposed(wf, id)
  {
    var wf := Workflow([Node("a", "http", "", map[])], [Edge("", "a", "a", "", false)]);
    assert wf.nodes[0] in wf.nodes;
    assert KindOf(wf.nodes, "a") == "http";
    var arcs := ArcsOf(wf.edges);
    assert wf.edges[0] in wf.edges;
    assert ("a", "a") in arcs;
    assert IsCycle(arcs, ["a", "a"]) && Unapproved(wf, ["a", "a"]);
    assert Exposes(wf, ["a"], "a");
    forall p | IsPath(arcs, p) && p[|p| - 1] == "a"
      ensures !IsRoot(arcs, p[0])
    {
      assert |p| > 1 ==> (p[0], p[1]) in arcs;
    }
    assert ApprovalDominates(wf, "a");
  }

  ghost predicate CacheOk(wf: Workflow, cache: map<string, bool>) {
    forall id :: id in cache ==> (cache[id] <==> !Exposed(wf, id))
  }

  ghost function Endpoints(wf: Workflow): set<string> {
    (set e | e in wf.edges :: e.source) + (set e | e in wf.edges :: e.target)
  }

  method BuildKinds(nodes: seq<Node>) returns (kinds: map<string, string>)
    ensures forall id :: KindOf(nodes, id) == if id in kinds then kinds[id] else ""
  {
    kinds := map[];
    for i := 0 to |nodes|
      invariant forall id :: KindOf(nodes[..i], id) == if id in kinds then kinds[id] else ""
    {
      assert nodes[..i + 1][..i] == nodes[..i];
      kinds := kinds[nodes[i].id := nodes[i].kind];
    }
    assert nodes[..|nodes|] == nodes;
  }

  method BuildPredecessors(edges: seq<Edge>) returns (predecessors: map<string, seq<string>>)
    ensures forall u, v :: (u, v) in ArcsOf(edges) <==> v in predecessors && u in predecessors[v]
    ensures forall v :: v in predecessors ==> predecessors[v] != []
  {
    predecessors := map[];
    for i := 0 to |edges|
      invariant forall u, v :: (u, v) in ArcsOf(edges[..i]) <==> v in predecessors && u in predecessors[v]
      invariant forall v :: v in predecessors ==> predecessors[v] != []
    {
      var e := edges[i];
      assert edges[..i + 1] == edges[..i] + [e];
      assert ArcsOf(edges[..i + 1]) == ArcsOf(edges[..i]) + {(e.source, e.target)};
      var known := if e.target in predecessors then predecessors[e.target] else [];
      predecessors := predecessors[e.target := known + [e.source]];
    }
    assert edges[..|edges|] == edges;
  }

  /** The memo table that queries on one workflow share. */
  class ApprovalCache {
    var entries: map<string, bool>

    constructor ()
      ensures entries == map[]
    {
      entries := map[];
    }

    method HasApprovalAncestor(wf: Workflow, nodeId: string) returns (guarded: bool)
      requires CacheOk(wf, entries)
      modifies this
      ensures CacheOk(wf, entries)
      ensures guarded <==> !Exposed(wf, nodeId)
    {
      var kinds := BuildKinds(wf.nodes);
      var predecessors := BuildPredecessors(wf.edges);
      guarded := Guarded(wf, kinds, predecessors, nodeId, {}, []);
    }

    /** `visiting` holds the nodes of `chain`, the unapproved path from the current node to the query. */
    method Guarded(ghost wf: Workflow, kinds: map<string, string>, predecessors: map<string, seq<string>>,
                   current: string, visiting: set<string>, ghost chain: seq<string>)
      returns (guarded: bool)
      requires forall id :: KindOf(wf.nodes, id) == if id in kinds then kinds[id] else ""
      requires forall u, v :: (u, v) in ArcsOf(wf.edges) <==> v in predecessors && u in predecessors[v]
      requires forall v :: v in predecessors ==> predecessors[v] != []
      requires IsPath(ArcsOf(wf.edges), [current] + chain) && Unapproved(wf, [current] + chain)
      requires forall id :: id in visiting <==> id in chain
      requires CacheOk(wf, entries)
      modifies this
      ensures CacheOk(wf, entries)
      ensures guarded <==> !Exposed(wf, current)
      decreases Endpoints(wf) + {current} + visiting - visiting
    {
      if current in entries {
        return entries[current];
      }
      if current in visiting {
        RevisitExposed(wf, current, chain);
        entries := entries[current := false];
        return false;
      }
      var incoming := if current in predecessors then predecessors[current] else [];
      if |incoming| == 0 {
        RootExposed(wf, current);
        entries := entries[current := false];
        return false;
      }
      for i := 0 to |incoming|
        invariant CacheOk(wf, entries)
        invariant forall j :: 0 <= j < i ==> IsApproval(wf, incoming[j]) || !Exposed(wf, incoming[j])
      {
        var predecessor := incoming[i];
        assert (predecessor, current) in ArcsOf(wf.edges);
        if predecessor in kinds && kinds[predecessor] == "approval" {
          continue;
        }
        ChainExtends(wf, predecessor, [current] + chain);
        var ok := Guarded(wf, kinds, predecessors, predecessor, visiting + {current}, [current] + chain);
        if !ok {
          ExposedForward(wf, predecessor, current);
          entries := entries[current := false];
          return false;
        }
      }
      assert (incoming[0], current) in ArcsOf(wf.edges);
      if Exposed(wf, current) {
        ghost var u := ExposedBackward(wf, current);
        assert false;
      }
      entries := entries[current := true];
      return true;
    }
  }

  /** The sensitive nodes nothing guards, in declaration order. */
  ghost function ExposedNodes(wf: Workflow, nodes: seq<Node>, isSensitive: Node -> bool): seq<string> {
    if nodes == [] then []
    else
      var last := nodes[|nodes| - 1];
      ExposedNodes(wf, nodes[..|nodes| - 1], isSensitive) + if isSensitive(last) && Exposed(wf, last.id) then [last.id] else []
  }

  /** The readiness pass: one cache serves every write-side node, and flags exactly the exposed ones. */
  method UnguardedSensitiveNodes(wf: Workflow, isSensitive: Node -> bool) returns (flagged: seq<string>)
    ensures flagged == ExposedNodes(wf, wf.nodes, isSensitive)
  {
    var cache := new ApprovalCache();
    flagged := [];
    for i := 0 to |wf.nodes|
      invariant CacheOk(wf, cache.entries)
      invariant flagged == ExposedNodes(wf, wf.nodes[..i], isSensitive)
    {
      var node := wf.nodes[i];
      assert wf.nodes[..i + 1][..i] == wf.nodes[..i];
      if isSensitive(node) {
        var guarded := cache.HasApprovalAncestor(wf, node.id);
        if !guarded {
          flagged := flagged + [node.id];
        }
      }
    }
    assert wf.nodes[..|wf.nodes|] == wf.nodes;
  }
}
