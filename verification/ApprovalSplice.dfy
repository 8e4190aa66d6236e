/** Splicing a fresh node in front of another: what happens to paths, cycles and roots. */
module ApprovalSplice {
  import opened WorkflowGraph

  /** Every arc into `f` now enters `a`, and `a` leads only to `f`. */
  ghost predicate Spliced(arcs: Arcs, a: string, f: string, result: Arcs) {
    forall u, v :: (u, v) in result <==>
      || (v != f && (u, v) in arcs)
      || (v == a && (u, f) in arcs)
      || (u == a && v == f)
  }

  ghost predicate Fresh(arcs: Arcs, a: string) {
    forall u, v :: (u, v) in arcs ==> u != a && v != a
  }

  /** Drops the visits to `a`. */
  ghost function Contract(p: seq<string>, a: string): seq<string> {
    if p == [] then []
    else Contract(p[..|p| - 1], a) + if p[|p| - 1] == a then [] else [p[|p| - 1]]
  }

  /** Inserts `a` before every later visit to `f`. */
  ghost function Expand(p: seq<string>, a: string, f: string): seq<string>
    requires |p| > 0
  {
    if |p| == 1 then p
    else Expand(p[..|p| - 1], a, f) + if p[|p| - 1] == f then [a, f] else [p[|p| - 1]]
  }

  lemma {:induction false} ContractIsPath(arcs: Arcs, a: string, f: string, result: Arcs, p: seq<string>)
    requires Spliced(arcs, a, f, result) && Fresh(arcs, a) && a != f
    requires IsPath(result, p) && p[0] != a && p[|p| - 1] != a
    ensures PathBetween(arcs, p[0], p[|p| - 1], Contract(p, a))
    ensures |p| > 1 ==> |Contract(p, a)| > 1
    decreases |p|
  {
    var n := |p|;
    if n == 1 {
      assert Contract(p[..0], a) == [];
      assert Contract(p, a) == p;
    } else {
      var k := if p[n - 2] == a then n - 2 else n - 1;
      assert (p[n - 2], p[n - 1]) in result;
      if p[n - 2] == a {
        assert (p[n - 3], p[n - 2]) in result;
        assert p[..n - 1][..n - 2] == p[..n - 2];
      }
      var q := p[..k];
      ContractIsPath(arcs, a, f, result, q);
      assert Contract(p, a) == Contract(q, a) + [p[n - 1]];
      PathAppend(arcs, Contract(q, a), p[n - 1]);
    }
  }

  lemma {:induction false} ExpandIsPath(arcs: Arcs, a: string, f: string, result: Arcs, p: seq<string>)
    requires Spliced(arcs, a, f, result)
    requires IsPath(arcs, p)
    ensures PathBetween(result, p[0], p[|p| - 1], Expand(p, a, f))
    decreases |p|
  {
    var n := |p|;
    if n > 1 {
      var q := p[..n - 1];
      ExpandIsPath(arcs, a, f, result, q);
      var e := Expand(q, a, f);
      assert (p[n - 2], p[n - 1]) in arcs;
      if p[n - 1] == f {
        PathAppend(result, e, a);
        PathAppend(result, e + [a], f);
        assert e + [a] + [f] == e + [a, f];
      } else {
        PathAppend(result, e, p[n - 1]);
      }
    }
  }

  /** Reachability between the old nodes is unchanged. */
  lemma SpliceKeepsReachability(arcs: Arcs, a: string, f: string, result: Arcs, u: string, v: string)
    requires Spliced(arcs, a, f, result) && Fresh(arcs, a) && a != f && u != a && v != a
    ensures Reaches(result, u, v) <==> Reaches(arcs, u, v)
  {
    forall p | PathBetween(result, u, v, p)
      ensures Reaches(arcs, u, v)
    {
      ContractIsPath(arcs, a, f, result, p);
    }
    forall p | PathBetween(arcs, u, v, p)
      ensures Reaches(result, u, v)
    {
      ExpandIsPath(arcs, a, f, result, p);
    }
  }

  /** A cycle through the spliced node also runs through the node it guards. */
  lemma CycleAvoidingStart(arcs: Arcs, a: string, f: string, result: Arcs, c: seq<string>) returns (d: seq<string>)
    requires Spliced(arcs, a, f, result) && Fresh(arcs, a) && a != f && IsCycle(result, c)
    ensures IsCycle(result, d) && d[0] != a
  {
    if c[0] != a {
      d := c;
    } else {
      assert (c[0], c[1]) in result;
      assert c[1] == f;
      assert IsPath(result, c[1..]) by {
        forall i | 0 <= i < |c[1..]| - 1
          ensures (c[1..][i], c[1..][i + 1]) in result
        {
          assert (c[i + 1], c[i + 2]) in result;
        }
      }
      PathAppend(result, c[1..], f);
      d := c[1..] + [f];
    }
  }

  lemma SpliceKeepsAcyclicity(arcs: Arcs, a: string, f: string, result: Arcs)
    requires Spliced(arcs, a, f, result) && Fresh(arcs, a) && a != f
    ensures Cyclic(result) <==> Cyclic(arcs)
  {
    forall c | IsCycle(result, c)
      ensures Cyclic(arcs)
    {
      var d := CycleAvoidingStart(arcs, a, f, result, c);
      ContractIsPath(arcs, a, f, result, d);
      CycleWitness(arcs, Contract(d, a));
    }
    forall c | IsCycle(arcs, c)
      ensures Cyclic(result)
    {
      ExpandIsPath(arcs, a, f, result, c);
      ExpandLonger(c, a, f);
      CycleWitness(result, Expand(c, a, f));
    }
  }

  lemma ExpandLonger(p: seq<string>, a: string, f: string)
    requires |p| > 0
    ensures |Expand(p, a, f)| >= |p|
  {
  }

  /** A path that avoids `a` before its end never entered `f`, so it was there before the splice. */
  lemma AvoidingPathIsOld(arcs: Arcs, a: string, f: string, result: Arcs, p: seq<string>)
    requires Spliced(arcs, a, f, result) && IsPath(result, p) && a !in p
    ensures IsPath(arcs, p)
  {
    forall i | 0 <= i < |p| - 1
      ensures (p[i], p[i + 1]) in arcs
    {
      assert (p[i], p[i + 1]) in result;
      assert p[i] in p && p[i + 1] in p;
    }
  }
}
