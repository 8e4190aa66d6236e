/** Cycle detection: a three-colour depth-first search over an explicit stack of frames. */
module CycleCheck {
  import opened WorkflowGraph

  datatype Mark = Visiting | Visited

  datatype Frame = Frame(id: string, next: nat)

  type Graph = map<string, seq<string>>

  /** The edges the search follows: those that leave a declared node. */
  function DeclaredArcs(nodes: seq<Node>, edges: seq<Edge>): Arcs {
    set e | e in edges && e.source in Ids(nodes) :: (e.source, e.target)
  }

  function Successors(graph: Graph, id: string): seq<string> {
    if id in graph then graph[id] else []
  }

  function GraphArcs(graph: Graph): Arcs {
    set u, v | u in graph && v in graph[u] :: (u, v)
  }

  function Vertices(graph: Graph): set<string> {
    graph.Keys + set u, v | u in graph && v in graph[u] :: v
  }

  ghost predicate LeadsBack(graph: Graph, order: seq<string>, k: nat)
    requires k < |order|
  {
    && order[k] !in order[..k]
    && forall v :: v in Successors(graph, order[k]) ==> v in order[..k]
  }

  /** Every node is listed once, and only leads to nodes listed before it. */
  ghost predicate Finished(graph: Graph, order: seq<string>) {
    forall k {:trigger LeadsBack(graph, order, k)} :: 0 <= k < |order| ==> LeadsBack(graph, order, k)
  }

  lemma PathDescends(graph: Graph, order: seq<string>, k: nat, p: seq<string>)
    requires Finished(graph, order) && k < |order|
    requires IsPath(GraphArcs(graph), p) && |p| > 1 && p[0] == order[k]
    ensures p[|p| - 1] in order[..k]
  {
    assert (p[0], p[1]) in GraphArcs(graph);
    assert LeadsBack(graph, order, k);
    assert p[1] in Successors(graph, order[k]);
    if |p| > 2 {
      var j :| 0 <= j < k && order[j] == p[1];
      assert IsPath(GraphArcs(graph), p[1..]) by {
        forall i | 0 <= i < |p[1..]| - 1
          ensures (p[1..][i], p[1..][i + 1]) in GraphArcs(graph)
        {
          assert (p[i + 1], p[i + 2]) in GraphArcs(graph);
        }
      }
      PathDescends(graph, order, j, p[1..]);
    }
  }

  /** A finishing order that lists every source of an arc leaves no room for a cycle. */
  lemma NoCycleFrom(graph: Graph, order: seq<string>, k: nat, p: seq<string>)
    requires Finished(graph, order) && k < |order|
    requires IsCycle(GraphArcs(graph), p) && p[0] == order[k]
    ensures false
    decreases k
  {
    PathDescends(graph, order, k, p);
    var j :| 0 <= j < k && order[j] == p[0];
    NoCycleFrom(graph, order, j, p);
  }

  lemma FinishedIsAcyclic(graph: Graph, order: seq<string>)
    requires Finished(graph, order)
    requires forall u :: u in graph ==> u in order
    ensures !Cyclic(GraphArcs(graph))
  {
    forall p | IsCycle(GraphArcs(graph), p)
      ensures false
    {
      assert (p[0], p[1]) in GraphArcs(graph);
      var k :| 0 <= k < |order| && order[k] == p[0];
      NoCycleFrom(graph, order, k, p);
    }
  }

  method BuildGraph(nodes: seq<Node>, edges: seq<Edge>) returns (graph: Graph)
    ensures graph.Keys == Ids(nodes)
    ensures GraphArcs(graph) == DeclaredArcs(nodes, edges)
  {
    graph := map[];
    for i := 0 to |nodes|
      invariant graph.Keys == Ids(nodes[..i])
      invariant forall u :: u in graph ==> graph[u] == []
    {
      assert nodes[..i + 1] == nodes[..i] + [nodes[i]];
      graph := graph[nodes[i].id := []];
    }
    assert nodes[..|nodes|] == nodes;
    for k := 0 to |edges|
      invariant graph.Keys == Ids(nodes)
      invariant GraphArcs(graph) == DeclaredArcs(nodes, edges[..k])
    {
      var e := edges[k];
      assert edges[..k + 1] == edges[..k] + [e];
      if e.source in graph {
        ghost var before := graph;
        graph := graph[e.source := graph[e.source] + [e.target]];
        forall u, v
          ensures (u, v) in GraphArcs(graph) <==> (u, v) in GraphArcs(before) || (u, v) == (e.source, e.target)
        {
        }
        assert DeclaredArcs(nodes, edges[..k + 1]) == DeclaredArcs(nodes, edges[..k]) + {(e.source, e.target)};
      } else {
        assert DeclaredArcs(nodes, edges[..k + 1]) == DeclaredArcs(nodes, edges[..k]);
      }
    }
    assert edges[..|edges|] == edges;
  }

  ghost predicate Black(state: map<string, Mark>, id: string) {
    id in state && state[id] == Visited
  }

  /**
   * Frame `j` is grey, is not below itself, and has finished every successor before its cursor,
   * except that a buried frame's last followed successor is the frame above it.
   */
  ghost predicate FrameOk(graph: Graph, state: map<string, Mark>, stack: seq<Frame>, j: nat)
    requires j < |stack|
  {
    var successors := Successors(graph, stack[j].id);
    && stack[j].id in state && state[stack[j].id] == Visiting
    && (forall i :: 0 <= i < j ==> stack[i].id != stack[j].id)
    && stack[j].next <= |successors|
    && if j == |stack| - 1 then
         forall k :: 0 <= k < stack[j].next ==> Black(state, successors[k])
       else
         && 0 < stack[j].next && successors[stack[j].next - 1] == stack[j + 1].id
         && forall k :: 0 <= k < stack[j].next - 1 ==> Black(state, successors[k])
  }

  ghost predicate StackOk(graph: Graph, state: map<string, Mark>, stack: seq<Frame>) {
    forall j {:trigger FrameOk(graph, state, stack, j)} :: 0 <= j < |stack| ==> FrameOk(graph, state, stack, j)
  }

  ghost predicate OnStack(stack: seq<Frame>, id: string) {
    exists j :: 0 <= j < |stack| && stack[j].id == id
  }

  /** A grey node is on the stack, a black node is in the finishing order. */
  ghost predicate MarkOk(state: map<string, Mark>, stack: seq<Frame>, order: seq<string>, u: string) {
    && (u in state && state[u] == Visiting ==> OnStack(stack, u))
    && (u in order <==> Black(state, u))
  }

  ghost predicate SearchOk(graph: Graph, state: map<string, Mark>, stack: seq<Frame>, order: seq<string>) {
    && StackOk(graph, state, stack)
    && (forall u {:trigger MarkOk(state, stack, order, u)} :: MarkOk(state, stack, order, u))
    && Finished(graph, order)
    && state.Keys <= Vertices(graph)
  }

  /** Following an edge back into a grey node closes a cycle along the stack. */
  lemma StackCycle(graph: Graph, state: map<string, Mark>, stack: seq<Frame>, j: nat)
    requires StackOk(graph, state, stack) && j < |stack|
    requires CursorAt(graph, stack, stack[j].id)
    ensures Cyclic(GraphArcs(graph))
  {
    var p := seq(|stack| - j, i requires 0 <= i < |stack| - j => stack[j + i].id) + [stack[j].id];
    forall i | 0 <= i < |p| - 1
      ensures (p[i], p[i + 1]) in GraphArcs(graph)
    {
      assert FrameOk(graph, state, stack, j + i);
      assert p[i + 1] in Successors(graph, stack[j + i].id);
    }
    CycleWitness(GraphArcs(graph), p);
  }

  /** The top frame is about to follow its edge to `v`. */
  ghost predicate CursorAt(graph: Graph, stack: seq<Frame>, v: string) {
    |stack| > 0 &&
    var f := stack[|stack| - 1];
    f.next < |Successors(graph, f.id)| && Successors(graph, f.id)[f.next] == v
  }

  function Advance(stack: seq<Frame>): seq<Frame>
    requires |stack| > 0
  {
    var top := |stack| - 1;
    stack[top := stack[top].(next := stack[top].next + 1)]
  }

  lemma StartSearch(graph: Graph, state: map<string, Mark>, order: seq<string>, id: string)
    requires SearchOk(graph, state, [], order) && id in graph && id !in state
    ensures SearchOk(graph, state[id := Visiting], [Frame(id, 0)], order)
  {
    var state', stack := state[id := Visiting], [Frame(id, 0)];
    assert stack[0].id == id;
    forall u
      ensures MarkOk(state', stack, order, u)
    {
      assert MarkOk(state, [], order, u);
    }
  }

  lemma FinishFrame(graph: Graph, state: map<string, Mark>, stack: seq<Frame>, order: seq<string>)
    requires SearchOk(graph, state, stack, order) && |stack| > 0
    requires var f := stack[|stack| - 1]; f.next >= |Successors(graph, f.id)|
    ensures var f := stack[|stack| - 1];
            SearchOk(graph, state[f.id := Visited], stack[..|stack| - 1], order + [f.id])
  {
    var f := stack[|stack| - 1];
    var state', stack', order' := state[f.id := Visited], stack[..|stack| - 1], order + [f.id];
    assert FrameOk(graph, state, stack, |stack| - 1);
    assert MarkOk(state, stack, order, f.id);
    forall j | 0 <= j < |stack'|
      ensures FrameOk(graph, state', stack', j)
    {
      assert FrameOk(graph, state, stack, j);
    }
    forall k | 0 <= k < |order'|
      ensures LeadsBack(graph, order', k)
    {
      if k < |order| {
        assert LeadsBack(graph, order, k);
        assert order'[..k] == order[..k];
      } else {
        assert order'[..k] == order;
        forall v | v in Successors(graph, f.id)
          ensures v in order
        {
          assert MarkOk(state, stack, order, v);
        }
      }
    }
    forall u
      ensures MarkOk(state', stack', order', u)
    {
      assert MarkOk(state, stack, order, u);
      if u != f.id && OnStack(stack, u) {
        var j :| 0 <= j < |stack| && stack[j].id == u;
        assert stack'[j].id == u;
      }
    }
  }

  lemma SkipFinished(graph: Graph, state: map<string, Mark>, stack: seq<Frame>, order: seq<string>, v: string)
    requires SearchOk(graph, state, stack, order) && CursorAt(graph, stack, v) && Black(state, v)
    ensures SearchOk(graph, state, Advance(stack), order)
  {
    var stack' := Advance(stack);
    forall j | 0 <= j < |stack'|
      ensures FrameOk(graph, state, stack', j)
    {
      assert FrameOk(graph, state, stack, j);
    }
    forall u
      ensures MarkOk(state, stack', order, u)
    {
      assert MarkOk(state, stack, order, u);
      if OnStack(stack, u) {
        var j :| 0 <= j < |stack| && stack[j].id == u;
        assert stack'[j].id == u;
      }
    }
  }

  lemma EnterNode(graph: Graph, state: map<string, Mark>, stack: seq<Frame>, order: seq<string>, v: string)
    requires SearchOk(graph, state, stack, order) && CursorAt(graph, stack, v) && v !in state
    ensures v in Vertices(graph)
    ensures SearchOk(graph, state[v := Visiting], Advance(stack) + [Frame(v, 0)], order)
  {
    var state', stack' := state[v := Visiting], Advance(stack) + [Frame(v, 0)];
    assert v in Successors(graph, stack[|stack| - 1].id);
    assert stack'[|stack|].id == v;
    forall j | 0 <= j < |stack'|
      ensures FrameOk(graph, state', stack', j)
    {
      if j < |stack| {
        assert FrameOk(graph, state, stack, j);
      } else {
        forall i | 0 <= i < j
          ensures stack'[i].id != v
        {
          assert FrameOk(graph, state, stack, i);
        }
      }
    }
    forall u
      ensures MarkOk(state', stack', order, u)
    {
      assert MarkOk(state, stack, order, u);
      if OnStack(stack, u) {
        var j :| 0 <= j < |stack| && stack[j].id == u;
        assert stack'[j].id == u;
      }
    }
  }

  lemma SearchComplete(graph: Graph, state: map<string, Mark>, order: seq<string>)
    requires SearchOk(graph, state, [], order) && forall u :: u in graph ==> u in state
    ensures !Cyclic(GraphArcs(graph))
  {
    forall u | u in graph
      ensures u in order
    {
      assert MarkOk(state, [], order, u);
    }
    FinishedIsAcyclic(graph, order);
  }

  /** One outer iteration: explores everything reachable from an unvisited node. */
  method Search(graph: Graph, root: string, start: map<string, Mark>, ghost before: seq<string>)
    returns (cyclic: bool, state: map<string, Mark>, ghost order: seq<string>)
    requires SearchOk(graph, start, [], before) && root in graph && root !in start
    ensures cyclic ==> Cyclic(GraphArcs(graph))
    ensures !cyclic ==> SearchOk(graph, state, [], order) && root in state && forall u :: u in start ==> u in state
  {
    StartSearch(graph, start, before, root);
    order := before;
    state := start[root := Visiting];
    var stack := [Frame(root, 0)];
    while |stack| > 0
      invariant SearchOk(graph, state, stack, order)
      invariant root in state && forall u :: u in start ==> u in state
      decreases Vertices(graph) - state.Keys, |stack|,
                if |stack| > 0 then |Successors(graph, stack[|stack| - 1].id)| - stack[|stack| - 1].next else 0
    {
      ghost var unseen := Vertices(graph) - state.Keys;
      var current := stack[|stack| - 1];
      var successors := Successors(graph, current.id);
      assert FrameOk(graph, state, stack, |stack| - 1);
      if current.next >= |successors| {
        FinishFrame(graph, state, stack, order);
        state := state[current.id := Visited];
        order := order + [current.id];
        stack := stack[..|stack| - 1];
        assert Vertices(graph) - state.Keys == unseen;
        continue;
      }
      var nextId := successors[current.next];
      if nextId !in state {
        EnterNode(graph, state, stack, order, nextId);
        state := state[nextId := Visiting];
        stack := Advance(stack) + [Frame(nextId, 0)];
        assert Vertices(graph) - state.Keys == unseen - {nextId};
      } else if state[nextId] == Visiting {
        assert MarkOk(state, stack, order, nextId);
        ghost var j :| 0 <= j < |stack| && stack[j].id == nextId;
        StackCycle(graph, state, stack, j);
        return true, state, order;
      } else {
        SkipFinished(graph, state, stack, order, nextId);
        stack := Advance(stack);
      }
    }
    return false, state, order;
  }

  method HasCycle(nodes: seq<Node>, edges: seq<Edge>) returns (cyclic: bool)
    ensures cyclic <==> Cyclic(DeclaredArcs(nodes, edges))
  {
    var graph := BuildGraph(nodes, edges);
    var state: map<string, Mark> := map[];
    ghost var order: seq<string> := [];
    for i := 0 to |nodes|
      invariant SearchOk(graph, state, [], order)
      invariant forall j :: 0 <= j < i ==> nodes[j].id in state
    {
      if nodes[i].id !in state {
        cyclic, state, order := Search(graph, nodes[i].id, state, order);
        if cyclic {
          return true;
        }
      }
    }
    SearchComplete(graph, state, order);
    return false;
  }

  /** A cycle the search finds is a cycle of edges through declared nodes, and the other way round. */
  lemma DeclaredCycles(nodes: seq<Node>, edges: seq<Edge>)
    ensures Cyclic(DeclaredArcs(nodes, edges)) <==>
              exists p :: IsCycle(ArcsOf(edges), p) && forall i :: 0 <= i < |p| ==> p[i] in Ids(nodes)
  {
    var arcs := DeclaredArcs(nodes, edges);
    forall u, v
      ensures (u, v) in arcs <==> (u, v) in ArcsOf(edges) && u in Ids(nodes)
    {
    }
    if p :| IsCycle(arcs, p) {
      assert forall i :: 0 <= i < |p| - 1 ==> (p[i], p[i + 1]) in arcs;
      assert IsCycle(ArcsOf(edges), p);
      forall i | 0 <= i < |p|
        ensures p[i] in Ids(nodes)
      {
        var j := if i < |p| - 1 then i else 0;
        assert (p[j], p[j + 1]) in arcs;
      }
    }
    if p :| IsCycle(ArcsOf(edges), p) && forall i :: 0 <= i < |p| ==> p[i] in Ids(nodes) {
      assert forall i :: 0 <= i < |p| - 1 ==> (p[i], p[i + 1]) in ArcsOf(edges);
      assert IsCycle(arcs, p);
    }
  }

  /** In a workflow whose edges join declared nodes, the search sees every edge. */
  lemma DeclaredArcsAreAll(wf: Workflow)
    requires EndpointsDeclared(wf)
    ensures DeclaredArcs(wf.nodes, wf.edges) == ArcsOf(wf.edges)
  {
  }
}
