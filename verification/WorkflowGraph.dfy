/** Workflow nodes and edges, and the path vocabulary every graph algorithm is specified with. */
module WorkflowGraph {
  import Json

  datatype Node = Node(id: string, kind: string, title: string, config: map<string, Json.Value>)

  datatype Edge = Edge(id: string, source: string, target: string, condition: string, onError: bool)

  datatype Workflow = Workflow(nodes: seq<Node>, edges: seq<Edge>)

  type Arcs = set<(string, string)>

  function Ids(nodes: seq<Node>): set<string> {
    set n | n in nodes :: n.id
  }

  function ArcsOf(edges: seq<Edge>): Arcs {
    set e | e in edges :: (e.source, e.target)
  }

  /** A path is a non-empty walk; a single vertex is a path. */
  ghost predicate IsPath(arcs: Arcs, p: seq<string>) {
    |p| > 0 && forall i :: 0 <= i < |p| - 1 ==> (p[i], p[i + 1]) in arcs
  }

  ghost predicate PathBetween(arcs: Arcs, u: string, v: string, p: seq<string>) {
    IsPath(arcs, p) && p[0] == u && p[|p| - 1] == v
  }

  ghost predicate Reaches(arcs: Arcs, u: string, v: string) {
    exists p :: PathBetween(arcs, u, v, p)
  }

  ghost predicate IsCycle(arcs: Arcs, p: seq<string>) {
    IsPath(arcs, p) && |p| > 1 && p[0] == p[|p| - 1]
  }

  ghost predicate Cyclic(arcs: Arcs) {
    exists p :: IsCycle(arcs, p)
  }

  /** No edge of the workflow enters `id`. */
  ghost predicate IsRoot(arcs: Arcs, id: string) {
    forall u :: (u, id) !in arcs
  }

  ghost predicate UniqueIds(nodes: seq<Node>) {
    forall i, j :: 0 <= i < j < |nodes| ==> nodes[i].id != nodes[j].id
  }

  ghost predicate EndpointsDeclared(wf: Workflow) {
    forall e :: e in wf.edges ==> e.source in Ids(wf.nodes) && e.target in Ids(wf.nodes)
  }

  /** The type a node id resolves to: the last declaration wins, an undeclared id has none. */
  function KindOf(nodes: seq<Node>, id: string): string {
    if nodes == [] then ""
    else if nodes[|nodes| - 1].id == id then nodes[|nodes| - 1].kind
    else KindOf(nodes[..|nodes| - 1], id)
  }

  lemma CycleWitness(arcs: Arcs, p: seq<string>)
    requires IsCycle(arcs, p)
    ensures Cyclic(arcs)
  {
  }

  lemma PathAppend(arcs: Arcs, p: seq<string>, v: string)
    requires IsPath(arcs, p) && (p[|p| - 1], v) in arcs
    ensures IsPath(arcs, p + [v])
  {
  }
}
