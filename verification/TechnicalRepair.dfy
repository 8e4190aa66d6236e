/** Classification of a before/after workflow pair, and what an approval insertion does to the graph. */
module TechnicalRepair {
  import opened WorkflowGraph
  import opened Options
  import Json
  import Text

  /** A parsed workflow with the normalised workflow-level fields outside nodes and edges. */
  datatype TechnicalWorkflow = TechnicalWorkflow(graph: Workflow, scope: map<string, Json.Value>)

  datatype RepairClass = Unclassified | Retry | ConfigPatch | StructuralPatch

  function NodeMap(nodes: seq<Node>): map<string, Node> {
    if nodes == [] then map[]
    else NodeMap(nodes[..|nodes| - 1])[nodes[|nodes| - 1].id := nodes[|nodes| - 1]]
  }

  function Added(before: map<string, Node>, after: map<string, Node>): set<string> {
    after.Keys - before.Keys
  }

  function Changed(before: map<string, Node>, after: map<string, Node>): set<string> {
    set id | id in after && id in before && before[id] != after[id]
  }

  /** The comparison the code makes: equal sizes without `key`, and every other entry found again. */
  predicate SameExcept<V(==)>(before: map<string, V>, after: map<string, V>, key: string) {
    && |before| - (if key in before then 1 else 0) == |after| - (if key in after then 1 else 0)
    && forall k :: k in before && k != key ==> k in after && before[k] == after[k]
  }

  /** Redirects every edge into `failing` to `approval`, then links `approval` to `failing`. */
  function Redirected(edges: seq<Edge>, failing: string, approval: string): seq<Edge> {
    if edges == [] then []
    else
      var e := edges[|edges| - 1];
      Redirected(edges[..|edges| - 1], failing, approval) +
      [if e.target == failing then e.(target := approval) else e]
  }

  function ExpectedEdges(edges: seq<Edge>, failing: string, approval: string): seq<Edge> {
    Redirected(edges, failing, approval) + [Edge("", approval, failing, "", false)]
  }

  predicate IsBareApproval(node: Node) {
    && node.kind == "approval" && |node.config| == 1
    && "message" in node.config && node.config["message"].Str?
    && Text.TrimSpace(node.config["message"].text) != ""
  }

  /** The candidate adds the single node `approval`, a bare approval, and splices it in front of `failing`. */
  ghost predicate Inserts(original: Workflow, candidate: Workflow, failing: string, approval: string) {
    var before, after := NodeMap(original.nodes), NodeMap(candidate.nodes);
    && before.Keys <= after.Keys && Changed(before, after) == {} && failing in before
    && Added(before, after) == {approval} && IsBareApproval(after[approval])
    && multiset(ExpectedEdges(original.edges, failing, approval)) == multiset(candidate.edges)
  }

  ghost predicate ApprovalInsertion(original: Workflow, candidate: Workflow, failing: string) {
    exists approval :: Inserts(original, candidate, failing, approval)
  }

  /** What the class means: node maps compared by id, edges compared as multisets. */
  ghost function Classify(original: TechnicalWorkflow, candidate: TechnicalWorkflow, failing: string): RepairClass {
    var before, after := NodeMap(original.graph.nodes), NodeMap(candidate.graph.nodes);
    if original.scope != candidate.scope then Unclassified
    else if before.Keys != after.Keys || multiset(original.graph.edges) != multiset(candidate.graph.edges) then
      if ApprovalInsertion(original.graph, candidate.graph, failing) then StructuralPatch else Unclassified
    else if Changed(before, after) != {failing} then Unclassified
    else if before[failing].kind != after[failing].kind || before[failing].title != after[failing].title
            || before[failing].config == after[failing].config then Unclassified
    else if before[failing].config - {"retry"} == after[failing].config - {"retry"} then Retry
    else ConfigPatch
  }

  method BuildNodeMap(nodes: seq<Node>) returns (result: map<string, Node>)
    ensures result == NodeMap(nodes)
  {
    result := map[];
    for i := 0 to |nodes|
      invariant result == NodeMap(nodes[..i])
    {
      assert nodes[..i + 1][..i] == nodes[..i];
      result := result[nodes[i].id := nodes[i]];
    }
    assert nodes[..|nodes|] == nodes;
  }

  method EqualEdgeSets(left: seq<Edge>, right: seq<Edge>) returns (equal: bool)
    ensures equal <==> multiset(left) == multiset(right)
  {
    if |left| != |right| {
      assert |multiset(left)| == |left| && |multiset(right)| == |right|;
      return false;
    }
    var counts: map<Edge, nat> := map[];
    for i := 0 to |left|
      invariant forall e :: multiset(left[..i])[e] == if e in counts then counts[e] else 0
    {
      assert left[..i + 1] == left[..i] + [left[i]];
      counts := counts[left[i] := (if left[i] in counts then counts[left[i]] else 0) + 1];
    }
    assert left[..|left|] == left;
    for i := 0 to |right|
      invariant forall e :: multiset(left)[e] == multiset(right[..i])[e] + if e in counts then counts[e] else 0
    {
      assert right[..i + 1] == right[..i] + [right[i]];
      if right[i] !in counts || counts[right[i]] == 0 {
        assert right == right[..i + 1] + right[i + 1..];
        assert multiset(right)[right[i]] >= multiset(right[..i + 1])[right[i]];
        return false;
      }
      counts := counts[right[i] := counts[right[i]] - 1];
    }
    assert right[..|right|] == right;
    EqualWhenContained(right, left);
    return true;
  }

  lemma EqualWhenContained(a: seq<Edge>, b: seq<Edge>)
    requires |a| == |b| && forall e :: multiset(a)[e] <= multiset(b)[e]
    ensures multiset(a) == multiset(b)
  {
    assert multiset(a) <= multiset(b);
    assert |multiset(b) - multiset(a)| == 0;
  }

  lemma SubsetOfSameSize<T>(a: set<T>, b: set<T>)
    requires a <= b && |a| == |b|
    ensures a == b
  {
    assert |b - a| == |b| - |a|;
  }

  lemma SizeWithout<V>(m: map<string, V>, k: string)
    ensures |m - {k}| == |m| - (if k in m then 1 else 0)
  {
    assert (m - {k}).Keys == m.Keys - {k};
    assert |m - {k}| == |(m - {k}).Keys| && |m| == |m.Keys|;
  }

  lemma SubmapOfSameSize<V>(a: map<string, V>, b: map<string, V>)
    requires |a| == |b| && forall k :: k in a ==> k in b && a[k] == b[k]
    ensures a == b
  {
    assert a.Keys <= b.Keys && |a| == |a.Keys| && |b| == |b.Keys|;
    SubsetOfSameSize(a.Keys, b.Keys);
  }

  lemma ConfigComparison<V>(before: map<string, V>, after: map<string, V>, key: string)
    ensures SameExcept(before, after, key) <==> before - {key} == after - {key}
  {
    var b, a := before - {key}, after - {key};
    SizeWithout(before, key);
    SizeWithout(after, key);
    if SameExcept(before, after, key) {
      SubmapOfSameSize(b, a);
    } else if b == a {
      forall k | k in before && k != key
        ensures k in after && before[k] == after[k]
      {
        assert k in b && b[k] == a[k];
      }
    }
  }

  method BuildExpectedEdges(edges: seq<Edge>, failing: string, approval: string) returns (expected: seq<Edge>)
    ensures expected == ExpectedEdges(edges, failing, approval)
  {
    expected := [];
    for i := 0 to |edges|
      invariant expected == Redirected(edges[..i], failing, approval)
    {
      assert edges[..i + 1][..i] == edges[..i];
      var e := edges[i];
      expected := expected + [if e.target == failing then e.(target := approval) else e];
    }
    assert edges[..|edges|] == edges;
    expected := expected + [Edge("", approval, failing, "", false)];
  }

  method ExactApprovalInsertion(original: Workflow, candidate: Workflow, failing: string)
    returns (exact: bool)
    ensures exact <==> ApprovalInsertion(original, candidate, failing)
  {
    var before := BuildNodeMap(original.nodes);
    var after := BuildNodeMap(candidate.nodes);
    var added, removed := Added(before, after), Added(after, before);
    if |added| != 1 || removed != {} || Changed(before, after) != {} || failing !in before {
      return false;
    }
    var approval :| approval in added;
    Singleton(added, approval);
    assert forall a :: added == {a} ==> a in added;
    if !IsBareApproval(after[approval]) {
      return false;
    }
    var expected := BuildExpectedEdges(original.edges, failing, approval);
    exact := EqualEdgeSets(expected, candidate.edges);
    assert exact <==> Inserts(original, candidate, failing, approval);
  }

  lemma Singleton<T>(s: set<T>, x: T)
    requires x in s && |s| == 1
    ensures s == {x}
  {
    SubsetOfSameSize({x}, s);
  }

  method ClassifyRepair(original: Option<TechnicalWorkflow>, candidate: Option<TechnicalWorkflow>, failing: string)
    returns (class_: RepairClass)
    ensures original.None? || candidate.None? ==> class_ == Unclassified
    ensures original.Some? && candidate.Some? ==> class_ == Classify(original.value, candidate.value, failing)
  {
    if original.None? || candidate.None? || original.value.scope != candidate.value.scope {
      return Unclassified;
    }
    var before := BuildNodeMap(original.value.graph.nodes);
    var after := BuildNodeMap(candidate.value.graph.nodes);
    var edgesEqual := EqualEdgeSets(original.value.graph.edges, candidate.value.graph.edges);
    if Added(before, after) != {} || Added(after, before) != {} || !edgesEqual {
      var exact := ExactApprovalInsertion(original.value.graph, candidate.value.graph, failing);
      return if exact then StructuralPatch else Unclassified;
    }
    assert before.Keys == after.Keys;
    var changed := Changed(before, after);
    if |changed| != 1 || failing !in changed {
      return Unclassified;
    }
    Singleton(changed, failing);
    if before[failing].kind != after[failing].kind || before[failing].title != after[failing].title
       || before[failing].config == after[failing].config {
      return Unclassified;
    }
    ConfigComparison(before[failing].config, after[failing].config, "retry");
    return if SameExcept(before[failing].config, after[failing].config, "retry") then Retry else ConfigPatch;
  }
}
