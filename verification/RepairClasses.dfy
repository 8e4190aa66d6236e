/** The three repair classes spelled out on nodes, configuration keys and edge counts. */
module RepairClasses {
  import opened WorkflowGraph
  import opened TechnicalRepair
  import opened RepairSafety
  import Json
  import Text

  predicate AgreeAt<V(==)>(before: map<string, V>, after: map<string, V>, key: string) {
    (key in before <==> key in after) && (key in before ==> before[key] == after[key])
  }

  ghost predicate AgreeBut<V>(before: map<string, V>, after: map<string, V>, key: string) {
    forall k :: k != key ==> AgreeAt(before, after, k)
  }

  /** Both workflows have the same nodes under every other id. */
  ghost predicate SameNodesBut(original: Workflow, candidate: Workflow, id: string) {
    forall n: Node :: n.id != id ==> (n in original.nodes <==> n in candidate.nodes)
  }

  ghost predicate SameEdges(left: seq<Edge>, right: seq<Edge>) {
    forall e :: multiset(left)[e] == multiset(right)[e]
  }

  /** Nothing but the configuration of the failing node may have changed, from that of `n` to that of `n'`. */
  ghost predicate Reconfigures(original: TechnicalWorkflow, candidate: TechnicalWorkflow, failing: string, n: Node, n': Node) {
    && original.scope == candidate.scope && SameEdges(original.graph.edges, candidate.graph.edges)
    && n in original.graph.nodes && n' in candidate.graph.nodes && n.id == failing && n'.id == failing
    && n.kind == n'.kind && n.title == n'.title
    && SameNodesBut(original.graph, candidate.graph, failing)
  }

  lemma Without<V>(before: map<string, V>, after: map<string, V>, key: string)
    ensures AgreeBut(before, after, key) <==> before - {key} == after - {key}
    ensures before == after <==> AgreeBut(before, after, key) && AgreeAt(before, after, key)
  {
    var b, a := before - {key}, after - {key};
    if AgreeBut(before, after, key) {
      forall k | k != key
        ensures (k in b <==> k in a) && (k in b ==> b[k] == a[k])
      {
        assert AgreeAt(before, after, k);
      }
      assert b == a;
    }
    if b == a {
      forall k | k != key
        ensures AgreeAt(before, after, k)
      {
        assert (k in b <==> k in before) && (k in a <==> k in after);
      }
    }
    if AgreeBut(before, after, key) && AgreeAt(before, after, key) {
      forall k
        ensures (k in before <==> k in after) && (k in before ==> before[k] == after[k])
      {
        assert k != key ==> AgreeAt(before, after, k);
      }
      assert before == after;
    }
  }

  lemma NodeIsEntry(nodes: seq<Node>, n: Node)
    requires UniqueIds(nodes)
    ensures n in nodes <==> n.id in NodeMap(nodes) && NodeMap(nodes)[n.id] == n
  {
    NodeMapKind(nodes, n.id);
    if n in nodes {
      NodeMapOfUnique(nodes, n);
    }
  }

  lemma SameNodesMeans(original: Workflow, candidate: Workflow, id: string)
    requires UniqueIds(original.nodes) && UniqueIds(candidate.nodes)
    ensures SameNodesBut(original, candidate, id) <==> AgreeBut(NodeMap(original.nodes), NodeMap(candidate.nodes), id)
  {
    var before, after := NodeMap(original.nodes), NodeMap(candidate.nodes);
    if SameNodesBut(original, candidate, id) {
      forall k | k != id
        ensures AgreeAt(before, after, k)
      {
        NodeMapKind(original.nodes, k);
        NodeMapKind(candidate.nodes, k);
        if k in before {
          NodeIsEntry(candidate.nodes, before[k]);
        }
      }
    }
    if AgreeBut(before, after, id) {
      forall n: Node | n.id != id
        ensures n in original.nodes <==> n in candidate.nodes
      {
        NodeIsEntry(original.nodes, n);
        NodeIsEntry(candidate.nodes, n);
        assert AgreeAt(before, after, n.id);
      }
    }
  }

  lemma ChangedAlone(before: map<string, Node>, after: map<string, Node>, id: string)
    requires id in before && id in after
    ensures AgreeBut(before, after, id) <==> before.Keys == after.Keys && Changed(before, after) <= {id}
  {
    if AgreeBut(before, after, id) {
      forall k
        ensures (k in before <==> k in after) && (k in Changed(before, after) ==> k == id)
      {
        assert k != id ==> AgreeAt(before, after, k);
      }
    }
    if before.Keys == after.Keys && Changed(before, after) <= {id} {
      forall k | k != id
        ensures AgreeAt(before, after, k)
      {
        assert (k in before <==> k in before.Keys) && (k in after <==> k in after.Keys);
        assert k !in Changed(before, after);
      }
    }
  }

  lemma AddedAlone(before: map<string, Node>, after: map<string, Node>, id: string)
    requires id !in before && id in after
    ensures AgreeBut(before, after, id) <==>
              before.Keys <= after.Keys && Changed(before, after) == {} && Added(before, after) == {id}
  {
    if AgreeBut(before, after, id) {
      forall k
        ensures (k in before ==> k in after) && k !in Changed(before, after) && (k in Added(before, after) <==> k == id)
      {
        assert k != id ==> AgreeAt(before, after, k);
      }
    }
    if before.Keys <= after.Keys && Changed(before, after) == {} && Added(before, after) == {id} {
      forall k | k != id
        ensures AgreeAt(before, after, k)
      {
        assert (k in before <==> k in before.Keys) && (k in after <==> k in after.Keys);
        assert k !in Changed(before, after) && k !in Added(before, after);
      }
    }
  }

  lemma CountsDecide(left: seq<Edge>, right: seq<Edge>)
    ensures SameEdges(left, right) <==> multiset(left) == multiset(right)
  {
  }

  /** The class of a pair that differs in configuration alone. */
  lemma InPlaceClass(original: TechnicalWorkflow, candidate: TechnicalWorkflow, failing: string, n: Node, n': Node, retry: string)
    requires UniqueIds(original.graph.nodes) && UniqueIds(candidate.graph.nodes) && retry == "retry"
    requires Reconfigures(original, candidate, failing, n, n')
    ensures Classify(original, candidate, failing) ==
            if !AgreeBut(n.config, n'.config, retry) then ConfigPatch
            else if AgreeAt(n.config, n'.config, retry) then Unclassified else Retry
  {
    var before, after := NodeMap(original.graph.nodes), NodeMap(candidate.graph.nodes);
    NodeIsEntry(original.graph.nodes, n);
    NodeIsEntry(candidate.graph.nodes, n');
    SameNodesMeans(original.graph, candidate.graph, failing);
    ChangedAlone(before, after, failing);
    CountsDecide(original.graph.edges, candidate.graph.edges);
    Without(n.config, n'.config, retry);
    assert failing in Changed(before, after) <==> n != n';
    assert n != n' <==> n.config != n'.config;
  }

  /** Only such a pair is put in one of the two classes. */
  lemma InPlaceReconfigures(original: TechnicalWorkflow, candidate: TechnicalWorkflow, failing: string) returns (n: Node, n': Node)
    requires UniqueIds(original.graph.nodes) && UniqueIds(candidate.graph.nodes)
    requires Classify(original, candidate, failing) in {Retry, ConfigPatch}
    ensures Reconfigures(original, candidate, failing, n, n')
  {
    var before, after := NodeMap(original.graph.nodes), NodeMap(candidate.graph.nodes);
    assert failing in Changed(before, after);
    n, n' := before[failing], after[failing];
    NodeMapKind(original.graph.nodes, failing);
    NodeMapKind(candidate.graph.nodes, failing);
    SameNodesMeans(original.graph, candidate.graph, failing);
    ChangedAlone(before, after, failing);
    CountsDecide(original.graph.edges, candidate.graph.edges);
  }

  /** Only the failing node's configuration changed: a retry if the change is confined to its retry key. */
  lemma InPlaceClassesExactly(original: TechnicalWorkflow, candidate: TechnicalWorkflow, failing: string)
    requires UniqueIds(original.graph.nodes) && UniqueIds(candidate.graph.nodes)
    ensures Classify(original, candidate, failing) == Retry <==>
              exists n, n' :: Reconfigures(original, candidate, failing, n, n')
                && !AgreeAt(n.config, n'.config, "retry") && AgreeBut(n.config, n'.config, "retry")
    ensures Classify(original, candidate, failing) == ConfigPatch <==>
              exists n, n' :: Reconfigures(original, candidate, failing, n, n') && !AgreeBut(n.config, n'.config, "retry")
  {
    if Classify(original, candidate, failing) in {Retry, ConfigPatch} {
      var n, n' := InPlaceReconfigures(original, candidate, failing);
      InPlaceClass(original, candidate, failing, n, n', "retry");
    }
    forall n, n' | Reconfigures(original, candidate, failing, n, n')
      ensures Classify(original, candidate, failing) ==
              if !AgreeBut(n.config, n'.config, "retry") then ConfigPatch
              else if AgreeAt(n.config, n'.config, "retry") then Unclassified else Retry
    {
      InPlaceClass(original, candidate, failing, n, n', "retry");
    }
  }

  /** The node added is an approval with a message that is not blank, and nothing else. */
  ghost predicate AddsApproval(original: Workflow, candidate: Workflow, failing: string, a: Node) {
    && a in candidate.nodes && a.id !in Ids(original.nodes) && failing in Ids(original.nodes)
    && SameNodesBut(original, candidate, a.id)
    && a.kind == "approval" && OnlyMessage(a.config)
  }

  ghost predicate OnlyMessage(config: map<string, Json.Value>) {
    exists text :: config == map["message" := Json.Str(text)] && Text.TrimSpace(text) != ""
  }

  /** What enters the failing node enters the approval instead, whose one edge leads to the failing node. */
  ghost predicate Detours(original: Workflow, candidate: Workflow, failing: string, approval: string) {
    forall e :: multiset(candidate.edges)[e] == Detoured(original.edges, failing, approval, e)
  }

  ghost function Detoured(edges: seq<Edge>, failing: string, approval: string, e: Edge): nat {
    (if e == Edge("", approval, failing, "", false) then 1 else 0)
    + (if e.target == failing then 0 else multiset(edges)[e])
    + (if e.target == approval then multiset(edges)[e.(target := failing)] else 0)
  }

  lemma DetoursMeans(original: Workflow, candidate: Workflow, failing: string, approval: string)
    requires approval != failing
    ensures Detours(original, candidate, failing, approval) <==>
              multiset(ExpectedEdges(original.edges, failing, approval)) == multiset(candidate.edges)
  {
    var expected := ExpectedEdges(original.edges, failing, approval);
    forall e
      ensures multiset(expected)[e] == Detoured(original.edges, failing, approval, e)
    {
      RedirectedCount(original.edges, failing, approval, e);
    }
    CountsDecide(expected, candidate.edges);
  }

  lemma MessageAlone(config: map<string, Json.Value>, key: string)
    requires key == "message"
    ensures OnlyMessage(config) <==>
              |config| == 1 && key in config && config[key].Str? && Text.TrimSpace(config[key].text) != ""
  {
    if |config| == 1 && key in config {
      assert |config.Keys| == 1;
      Singleton(config.Keys, key);
      assert config == map[key := config[key]];
    }
    if text :| config == map[key := Json.Str(text)] {
      assert config.Keys == {key};
      assert |config| == |config.Keys|;
    }
  }

  lemma AddsApprovalMeans(original: Workflow, candidate: Workflow, failing: string, a: Node)
    requires UniqueIds(original.nodes) && UniqueIds(candidate.nodes)
    ensures AddsApproval(original, candidate, failing, a) && Detours(original, candidate, failing, a.id) <==>
            a in candidate.nodes && Inserts(original, candidate, failing, a.id)
  {
    var before, after := NodeMap(original.nodes), NodeMap(candidate.nodes);
    NodeMapKind(original.nodes, a.id);
    NodeMapKind(original.nodes, failing);
    assert Inserts(original, candidate, failing, a.id) ==> a.id in Added(before, after);
    if a in candidate.nodes && a.id !in before && failing in before {
      NodeIsEntry(candidate.nodes, a);
      SameNodesMeans(original, candidate, a.id);
      AddedAlone(before, after, a.id);
      MessageAlone(a.config, "message");
      DetoursMeans(original, candidate, failing, a.id);
    }
  }

  lemma InsertedNode(original: Workflow, candidate: Workflow, failing: string, approval: string)
    requires Inserts(original, candidate, failing, approval)
    ensures NodeMap(original.nodes).Keys != NodeMap(candidate.nodes).Keys && approval in NodeMap(candidate.nodes)
    ensures NodeMap(candidate.nodes)[approval] in candidate.nodes && NodeMap(candidate.nodes)[approval].id == approval
  {
    assert approval in Added(NodeMap(original.nodes), NodeMap(candidate.nodes));
    NodeMapKind(candidate.nodes, approval);
  }

  /** A structural patch adds one bare approval in front of the failing node, and every way in leads through it. */
  lemma StructuralClassExactly(original: TechnicalWorkflow, candidate: TechnicalWorkflow, failing: string)
    requires UniqueIds(original.graph.nodes) && UniqueIds(candidate.graph.nodes)
    ensures Classify(original, candidate, failing) == StructuralPatch <==>
              original.scope == candidate.scope
              && exists a :: AddsApproval(original.graph, candidate.graph, failing, a)
                             && Detours(original.graph, candidate.graph, failing, a.id)
  {
    if Classify(original, candidate, failing) == StructuralPatch {
      var approval :| Inserts(original.graph, candidate.graph, failing, approval);
      InsertedNode(original.graph, candidate.graph, failing, approval);
      AddsApprovalMeans(original.graph, candidate.graph, failing, NodeMap(candidate.graph.nodes)[approval]);
    }
    if a :| AddsApproval(original.graph, candidate.graph, failing, a) && Detours(original.graph, candidate.graph, failing, a.id) {
      AddsApprovalMeans(original.graph, candidate.graph, failing, a);
      InsertedNode(original.graph, candidate.graph, failing, a.id);
      assert ApprovalInsertion(original.graph, candidate.graph, failing);
    }
  }
}
