/** The capability prompt: a projection of the tenant catalog trimmed until its rendering fits the budget. */
module CapabilityPrompt {
  import opened Options

  const MAX_PROMPT_BYTES := 32 * 1024
  const MAX_MCP_TOOLS := 60
  const MAX_NAMED := 80

  datatype McpTool = McpTool(alias: string, tool: string)

  datatype Catalog = Catalog(builtin: nat, mcpTools: seq<McpTool>, credentials: seq<string>, subworkflows: seq<string>)

  datatype Omitted = Omitted(fields: bool, mcpTools: nat, credentials: nat, subworkflows: nat)

  datatype Projection = Projection(builtin: nat, mcpTools: seq<McpTool>, credentials: seq<string>,
                                   subworkflows: seq<string>, omitted: Omitted)

  /** A row that only marks an earlier truncation. */
  predicate Synthetic(t: McpTool) {
    t.alias == "_truncated" || t.tool == "_truncated"
  }

  function Callable(tools: seq<McpTool>): seq<McpTool> {
    if tools == [] then []
    else
      var rest := Callable(tools[..|tools| - 1]);
      if Synthetic(tools[|tools| - 1]) then rest else rest + [tools[|tools| - 1]]
  }

  function AtMost<T>(xs: seq<T>, limit: nat): seq<T> {
    if |xs| > limit then xs[..limit] else xs
  }

  /** Callable tools are those that are no truncation marker, one by one and in order. */
  lemma {:induction false} CallableExactly(a: seq<McpTool>, b: seq<McpTool>, t: McpTool)
    ensures Callable(a + b) == Callable(a) + Callable(b)
    ensures Callable([t]) == if t.alias != "_truncated" && t.tool != "_truncated" then [t] else []
    decreases |b|
  {
    assert [t][..0] == [];
    if b == [] {
      assert a + b == a;
    } else {
      CallableExactly(a, b[..|b| - 1], t);
      assert (a + b)[..|a + b| - 1] == a + b[..|b| - 1];
    }
  }

  /** Every list is a prefix of what the catalog offers, and what is missing is counted. */
  ghost predicate Accounted(c: Catalog, p: Projection) {
    && p.builtin == c.builtin
    && p.mcpTools <= Callable(c.mcpTools) && p.credentials <= c.credentials && p.subworkflows <= c.subworkflows
    && |p.mcpTools| + p.omitted.mcpTools == |c.mcpTools|
    && |p.credentials| + p.omitted.credentials == |c.credentials|
    && |p.subworkflows| + p.omitted.subworkflows == |c.subworkflows|
  }

  /** A category the loop has shortened is at most one entry shorter than any other. */
  ghost predicate Balanced(start: Projection, p: Projection) {
    var m, c, s := |p.mcpTools|, |p.credentials|, |p.subworkflows|;
    && m <= |start.mcpTools| && c <= |start.credentials| && s <= |start.subworkflows|
    && (m < |start.mcpTools| ==> c <= m + 1 && s <= m + 1)
    && (c < |start.credentials| ==> m <= c + 1 && s <= c + 1)
    && (s < |start.subworkflows| ==> m <= s + 1 && c <= s + 1)
  }

  /** Tool field detail goes before any entry does. */
  ghost predicate FieldsFirst(start: Projection, p: Projection) {
    (p.mcpTools != start.mcpTools || p.credentials != start.credentials || p.subworkflows != start.subworkflows)
      ==> p.omitted.fields || p.builtin == 0
  }

  /** The projection before any trimming: every category cut to its limit, all field detail kept. */
  ghost predicate Initial(c: Catalog, p: Projection) {
    && Accounted(c, p) && !p.omitted.fields
    && p.mcpTools == AtMost(Callable(c.mcpTools), MAX_MCP_TOOLS)
    && p.credentials == AtMost(c.credentials, MAX_NAMED) && p.subworkflows == AtMost(c.subworkflows, MAX_NAMED)
  }

  /** It offers the first 60 callable tools and the first 80 of each other list. */
  lemma InitialLimits(c: Catalog, p: Projection)
    requires Initial(c, p)
    ensures |p.mcpTools| == 60 || (|p.mcpTools| < 60 && p.mcpTools == Callable(c.mcpTools))
    ensures |p.credentials| == 80 || (|p.credentials| < 80 && p.credentials == c.credentials)
    ensures |p.subworkflows| == 80 || (|p.subworkflows| < 80 && p.subworkflows == c.subworkflows)
  {
  }

  /** What trimming keeps. */
  ghost predicate Fair(c: Catalog, start: Projection, p: Projection) {
    Accounted(c, p) && Balanced(start, p) && FieldsFirst(start, p)
  }

  method Project(c: Catalog) returns (p: Projection)
    ensures Initial(c, p)
  {
    var callable, dropped := [], 0;
    for i := 0 to |c.mcpTools|
      invariant callable == Callable(c.mcpTools[..i]) && |callable| + dropped == i
    {
      assert c.mcpTools[..i + 1][..i] == c.mcpTools[..i];
      if Synthetic(c.mcpTools[i]) {
        dropped := dropped + 1;
      } else {
        callable := callable + [c.mcpTools[i]];
      }
    }
    assert c.mcpTools[..|c.mcpTools|] == c.mcpTools;
    var mcp := AtMost(callable, MAX_MCP_TOOLS);
    var credentials, subworkflows := AtMost(c.credentials, MAX_NAMED), AtMost(c.subworkflows, MAX_NAMED);
    p := Projection(c.builtin, mcp, credentials, subworkflows,
                    Omitted(false, dropped + |callable| - |mcp|, |c.credentials| - |credentials|,
                            |c.subworkflows| - |subworkflows|));
  }

  /** One trimming step, or none when there is nothing left to trim. */
  function Trim(p: Projection): Option<Projection> {
    var m, c, s, o := |p.mcpTools|, |p.credentials|, |p.subworkflows|, p.omitted;
    if !o.fields && p.builtin > 0 then Some(p.(omitted := o.(fields := true)))
    else if s >= c && s >= m && s > 0 then
      Some(p.(subworkflows := p.subworkflows[..s - 1], omitted := o.(subworkflows := o.subworkflows + 1)))
    else if c >= m && c > 0 then
      Some(p.(credentials := p.credentials[..c - 1], omitted := o.(credentials := o.credentials + 1)))
    else if m > 0 then
      Some(p.(mcpTools := p.mcpTools[..m - 1], omitted := o.(mcpTools := o.mcpTools + 1)))
    else None
  }

  function Measure(p: Projection): nat {
    |p.mcpTools| + |p.credentials| + |p.subworkflows| + if p.omitted.fields then 0 else 1
  }

  /** A step shortens a longest category, so it keeps the account and the balance. */
  lemma TrimStep(c: Catalog, start: Projection, p: Projection)
    requires Fair(c, start, p) && Trim(p).Some?
    ensures Fair(c, start, Trim(p).value) && Measure(Trim(p).value) < Measure(p)
  {
    var q := Trim(p).value;
    assert Accounted(c, q) by {
      assert q.mcpTools <= p.mcpTools && q.credentials <= p.credentials && q.subworkflows <= p.subworkflows;
    }
  }

  /** The projection after a number of steps. */
  ghost function Trimmed(p: Projection, steps: nat): Projection {
    if steps == 0 then p
    else
      var q := Trimmed(p, steps - 1);
      if Trim(q).Some? then Trim(q).value else q
  }

  ghost predicate Overflows(size: Projection -> nat, p: Projection, steps: nat) {
    size(Trimmed(p, steps)) > MAX_PROMPT_BYTES
  }

  /** The block is the first projection in trimming order that fits, or nothing when even the last does not. */
  ghost predicate FirstFit(c: Catalog, size: Projection -> nat, block: Option<Projection>, start: Projection, steps: nat) {
    && Initial(c, start) && Fair(c, start, Trimmed(start, steps))
    && (forall j: nat :: j < steps ==> Overflows(size, start, j))
    && if block.Some? then block.value == Trimmed(start, steps) && !Overflows(size, start, steps)
       else Overflows(size, start, steps) && Trim(Trimmed(start, steps)).None?
  }

  /** Trims until the rendering fits; None stands for the notice that replaces the catalog. */
  method CapabilityPromptBlock(c: Catalog, size: Projection -> nat) returns (block: Option<Projection>)
    ensures exists start, steps :: FirstFit(c, size, block, start, steps)
    ensures block.Some? ==> size(block.value) <= 32_768
  {
    var p := Project(c);
    ghost var start, steps: nat := p, 0;
    while size(p) > MAX_PROMPT_BYTES
      invariant Initial(c, start) && p == Trimmed(start, steps) && Fair(c, start, p)
      invariant forall j: nat :: j < steps ==> Overflows(size, start, j)
      decreases Measure(p)
    {
      var next := Trim(p);
      if next.None? {
        assert FirstFit(c, size, None, start, steps);
        return None;
      }
      TrimStep(c, start, p);
      p, steps := next.value, steps + 1;
    }
    assert FirstFit(c, size, Some(p), start, steps);
    return Some(p);
  }

  /** Trimming stops only once every tenant entry and all field detail is gone. */
  lemma NothingLeftToTrim(p: Projection)
    ensures Trim(p).None? <==>
              && p.mcpTools == [] && p.credentials == [] && p.subworkflows == []
              && (p.omitted.fields || p.builtin == 0)
  {
  }
}
