/** Safety of a classified repair: what each class promises about the candidate's graph. */
module RepairSafety {
  import opened WorkflowGraph
  import opened ApprovalGuard
  import opened ApprovalSplice
  import opened TechnicalRepair

  lemma {:induction false} NodeMapKind(nodes: seq<Node>, id: string)
    ensures KindOf(nodes, id) == if id in NodeMap(nodes) then NodeMap(nodes)[id].kind else ""
    ensures id in NodeMap(nodes) <==> id in Ids(nodes)
    ensures id in NodeMap(nodes) ==> NodeMap(nodes)[id] in nodes && NodeMap(nodes)[id].id == id
    decreases |nodes|
  {
    if nodes != [] {
      var rest := nodes[..|nodes| - 1];
      NodeMapKind(rest, id);
      assert nodes == rest + [nodes[|nodes| - 1]];
    }
  }

  lemma {:induction false} RedirectedArcs(edges: seq<Edge>, f: string, a: string, u: string, v: string)
    requires a != f
    ensures (u, v) in ArcsOf(Redirected(edges, f, a)) <==>
            || (v != f && (u, v) in ArcsOf(edges))
            || (v == a && (u, f) in ArcsOf(edges))
    decreases |edges|
  {
    if edges != [] {
      var rest := edges[..|edges| - 1];
      var e := edges[|edges| - 1];
      var e' := if e.target == f then e.(target := a) else e;
      RedirectedArcs(rest, f, a, u, v);
      assert edges == rest + [e];
      ArcsOfAppend(rest, e);
      ArcsOfAppend(Redirected(rest, f, a), e');
    }
  }

  lemma ArcsOfAppend(edges: seq<Edge>, e: Edge)
    ensures ArcsOf(edges + [e]) == ArcsOf(edges) + {(e.source, e.target)}
  {
  }

  lemma ArcsOfPermutation(left: seq<Edge>, right: seq<Edge>)
    requires multiset(left) == multiset(right)
    ensures ArcsOf(left) == ArcsOf(right)
  {
    assert forall e :: e in left <==> e in multiset(left);
    assert forall e :: e in right <==> e in multiset(right);
  }

  lemma InsertionSplices(original: Workflow, candidate: Workflow, f: string, a: string)
    requires Inserts(original, candidate, f, a) && EndpointsDeclared(original)
    ensures Spliced(ArcsOf(original.edges), a, f, ArcsOf(candidate.edges))
    ensures Fresh(ArcsOf(original.edges), a) && a != f
    ensures IsApproval(candidate, a)
    ensures forall id :: id != a ==> KindOf(candidate.nodes, id) == KindOf(original.nodes, id)
  {
    var before, after := NodeMap(original.nodes), NodeMap(candidate.nodes);
    assert a in Added(before, after);
    forall id
      ensures id in before <==> id in Ids(original.nodes)
      ensures id != a ==> KindOf(candidate.nodes, id) == KindOf(original.nodes, id)
    {
      NodeMapKind(original.nodes, id);
      NodeMapKind(candidate.nodes, id);
      assert id in Added(before, after) <==> id == a;
      assert id !in Changed(before, after);
    }
    NodeMapKind(candidate.nodes, a);
    var redirected := Redirected(original.edges, f, a);
    ArcsOfPermutation(ExpectedEdges(original.edges, f, a), candidate.edges);
    ArcsOfAppend(redirected, Edge("", a, f, "", false));
    forall u, v
      ensures (u, v) in ArcsOf(candidate.edges) <==>
              || (v != f && (u, v) in ArcsOf(original.edges))
              || (v == a && (u, f) in ArcsOf(original.edges))
              || (u == a && v == f)
    {
      RedirectedArcs(original.edges, f, a, u, v);
    }
  }

  /** An exact insertion keeps the graph's shape: cyclicity and reachability between the old nodes. */
  lemma StructuralPatchKeepsShape(original: TechnicalWorkflow, candidate: TechnicalWorkflow, failing: string)
    requires Classify(original, candidate, failing) == StructuralPatch && EndpointsDeclared(original.graph)
    ensures Cyclic(ArcsOf(candidate.graph.edges)) <==> Cyclic(ArcsOf(original.graph.edges))
    ensures forall u, v :: u in Ids(original.graph.nodes) && v in Ids(original.graph.nodes) ==>
              (Reaches(ArcsOf(candidate.graph.edges), u, v) <==> Reaches(ArcsOf(original.graph.edges), u, v))
  {
    var a :| Inserts(original.graph, candidate.graph, failing, a);
    InsertionSplices(original.graph, candidate.graph, failing, a);
    var arcs, result := ArcsOf(original.graph.edges), ArcsOf(candidate.graph.edges);
    SpliceKeepsAcyclicity(arcs, a, failing, result);
    forall u, v | u in Ids(original.graph.nodes) && v in Ids(original.graph.nodes)
      ensures Reaches(result, u, v) <==> Reaches(arcs, u, v)
    {
      InsertedIsNew(original.graph, candidate.graph, failing, a);
      SpliceKeepsReachability(arcs, a, failing, result, u, v);
    }
  }

  lemma InsertedIsNew(original: Workflow, candidate: Workflow, f: string, a: string)
    requires Inserts(original, candidate, f, a)
    ensures a !in Ids(original.nodes)
  {
    assert a in Added(NodeMap(original.nodes), NodeMap(candidate.nodes));
    NodeMapKind(original.nodes, a);
  }

  /** An exact insertion creates the guard the readiness check looks for, on any graph. */
  lemma StructuralPatchGuards(original: TechnicalWorkflow, candidate: TechnicalWorkflow, failing: string)
    requires Classify(original, candidate, failing) == StructuralPatch && EndpointsDeclared(original.graph)
    ensures !Exposed(candidate.graph, failing)
  {
    var a :| Inserts(original.graph, candidate.graph, failing, a);
    InsertionSplices(original.graph, candidate.graph, failing, a);
    var result := ArcsOf(candidate.graph.edges);
    assert (a, failing) in result;
    assert forall u :: (u, failing) in result ==> u == a;
    if Exposed(candidate.graph, failing) {
      var u := ExposedBackward(candidate.graph, failing);
      assert false;
    }
  }

  /** No node that was guarded loses its guard. */
  lemma StructuralPatchKeepsGuards(original: TechnicalWorkflow, candidate: TechnicalWorkflow, failing: string, id: string)
    requires Classify(original, candidate, failing) == StructuralPatch && EndpointsDeclared(original.graph)
    requires id in Ids(original.graph.nodes)
    ensures Exposed(candidate.graph, id) ==> Exposed(original.graph, id)
  {
    var a :| Inserts(original.graph, candidate.graph, failing, a);
    InsertionSplices(original.graph, candidate.graph, failing, a);
    InsertedIsNew(original.graph, candidate.graph, failing, a);
    var arcs, result := ArcsOf(original.graph.edges), ArcsOf(candidate.graph.edges);
    if Exposed(candidate.graph, id) {
      var p :| Exposes(candidate.graph, p, id);
      UnapprovedIsOld(original.graph, candidate.graph, failing, a, p);
      if IsRoot(result, p[0]) {
        assert (a, failing) in result;
        assert IsRoot(arcs, p[0]);
      } else {
        var c :| IsCycle(result, c) && c[0] == p[0] && Unapproved(candidate.graph, c);
        UnapprovedIsOld(original.graph, candidate.graph, failing, a, c);
        assert IsCycle(arcs, c) && Unapproved(original.graph, c);
        assert UnapprovedLoop(original.graph, p[0]);
      }
      assert Exposes(original.graph, p, id);
    }
  }

  lemma UnapprovedIsOld(original: Workflow, candidate: Workflow, f: string, a: string, p: seq<string>)
    requires Inserts(original, candidate, f, a) && EndpointsDeclared(original)
    requires IsPath(ArcsOf(candidate.edges), p) && Unapproved(candidate, p) && p[|p| - 1] != a
    ensures IsPath(ArcsOf(original.edges), p) && Unapproved(original, p) && a !in p
  {
    InsertionSplices(original, candidate, f, a);
    forall i | 0 <= i < |p|
      ensures p[i] != a
    {
    }
    AvoidingPathIsOld(ArcsOf(original.edges), a, f, ArcsOf(candidate.edges), p);
  }

  /** The two in-place classes leave every graph question unchanged. */
  lemma InPlaceRepairKeepsGraph(original: TechnicalWorkflow, candidate: TechnicalWorkflow, failing: string)
    requires Classify(original, candidate, failing) in {Retry, ConfigPatch}
    ensures ArcsOf(candidate.graph.edges) == ArcsOf(original.graph.edges)
    ensures forall id :: KindOf(candidate.graph.nodes, id) == KindOf(original.graph.nodes, id)
    ensures forall id :: id in Ids(candidate.graph.nodes) <==> id in Ids(original.graph.nodes)
  {
    ArcsOfPermutation(original.graph.edges, candidate.graph.edges);
    forall id
      ensures KindOf(candidate.graph.nodes, id) == KindOf(original.graph.nodes, id)
      ensures id in Ids(candidate.graph.nodes) <==> id in Ids(original.graph.nodes)
    {
      NodeMapKind(original.graph.nodes, id);
      NodeMapKind(candidate.graph.nodes, id);
      assert id in Changed(NodeMap(original.graph.nodes), NodeMap(candidate.graph.nodes)) <==> id == failing;
    }
  }

  lemma NodeMapOfUnique(nodes: seq<Node>, n: Node)
    requires UniqueIds(nodes) && n in nodes
    ensures n.id in NodeMap(nodes) && NodeMap(nodes)[n.id] == n
  {
    NodeMapKind(nodes, n.id);
  }

  lemma NodeMapPermutation(left: seq<Node>, right: seq<Node>)
    requires UniqueIds(left) && UniqueIds(right) && multiset(left) == multiset(right)
    ensures NodeMap(left) == NodeMap(right)
  {
    assert forall n :: n in left <==> n in multiset(left);
    assert forall n :: n in right <==> n in multiset(right);
    forall id
      ensures id in NodeMap(left) <==> id in NodeMap(right)
      ensures id in NodeMap(left) ==> NodeMap(left)[id] == NodeMap(right)[id]
    {
      NodeMapKind(left, id);
      NodeMapKind(right, id);
      if id in NodeMap(left) {
        NodeMapOfUnique(right, NodeMap(left)[id]);
      }
    }
  }

  lemma RedirectedPermutation(left: seq<Edge>, right: seq<Edge>, f: string, a: string)
    requires multiset(left) == multiset(right)
    ensures multiset(ExpectedEdges(left, f, a)) == multiset(ExpectedEdges(right, f, a))
  {
    forall e
      ensures multiset(Redirected(left, f, a))[e] == multiset(Redirected(right, f, a))[e]
    {
      RedirectedCount(left, f, a, e);
      RedirectedCount(right, f, a, e);
    }
    assert multiset(Redirected(left, f, a)) == multiset(Redirected(right, f, a));
  }

  lemma {:induction false} RedirectedCount(edges: seq<Edge>, f: string, a: string, e: Edge)
    ensures multiset(Redirected(edges, f, a))[e] ==
            (if e.target == f && a != f then 0 else multiset(edges)[e])
            + (if e.target == a && a != f then multiset(edges)[e.(target := f)] else 0)
    decreases |edges|
  {
    if edges != [] {
      var rest := edges[..|edges| - 1];
      assert edges == rest + [edges[|edges| - 1]];
      RedirectedCount(rest, f, a, e);
    }
  }

  /** Reordering nodes or edges on either side never changes the class. */
  lemma ClassIgnoresOrder(original: TechnicalWorkflow, candidate: TechnicalWorkflow,
                          original': TechnicalWorkflow, candidate': TechnicalWorkflow, failing: string)
    requires UniqueIds(original.graph.nodes) && UniqueIds(candidate.graph.nodes)
    requires UniqueIds(original'.graph.nodes) && UniqueIds(candidate'.graph.nodes)
    requires original.scope == original'.scope && candidate.scope == candidate'.scope
    requires multiset(original.graph.nodes) == multiset(original'.graph.nodes)
    requires multiset(candidate.graph.nodes) == multiset(candidate'.graph.nodes)
    requires multiset(original.graph.edges) == multiset(original'.graph.edges)
    requires multiset(candidate.graph.edges) == multiset(candidate'.graph.edges)
    ensures Classify(original, candidate, failing) == Classify(original', candidate', failing)
  {
    NodeMapPermutation(original.graph.nodes, original'.graph.nodes);
    NodeMapPermutation(candidate.graph.nodes, candidate'.graph.nodes);
    forall a
      ensures Inserts(original.graph, candidate.graph, failing, a) <==> Inserts(original'.graph, candidate'.graph, failing, a)
    {
      RedirectedPermutation(original.graph.edges, original'.graph.edges, failing, a);
    }
  }
}
