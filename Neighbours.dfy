/** `getPrerequisites` and `getDependents` (lib/graph-utils.ts:306-335):
    one-hop lookups of the nodes at the other end of a node's incoming or
    outgoing edges. */
module Neighbours {
  import opened SeqUtil
  import opened GraphModel

  /** Which edges a lookup follows: those pointing into the node
      (prerequisites) or those leaving it (dependents). */
  datatype Direction = Into | OutOf

  /** The end of `e` that must equal the node asked about. */
  function Near(e: Edge, d: Direction): string
  {
    match d
    case Into => e.target
    case OutOf => e.source
  }

  /** The end of `e` whose node is reported. */
  function Far(e: Edge, d: Direction): string
  {
    match d
    case Into => e.source
    case OutOf => e.target
  }

  /** Whether the scan reports a node for `e` (lines 315 and 329). */
  predicate Follows(e: Edge, m: map<string, Node>, id: string, d: Direction)
  {
    Near(e, d) == id && Far(e, d) in m
  }

  /** The nodes reported after scanning `es` front to back. */
  function Hop(es: seq<Edge>, m: map<string, Node>, id: string, d: Direction): seq<Node>
  {
    if es == [] then []
    else
      var e := es[|es| - 1];
      Hop(es[..|es| - 1], m, id, d) + (if Follows(e, m, id, d) then [m[Far(e, d)]] else [])
  }

  /** What `getPrerequisites(nodeId, graph)` returns. */
  function Prerequisites(nodeId: string, g: Graph): seq<Node>
  {
    Hop(g.edges, NodeMap(g.nodes), nodeId, Into)
  }

  /** What `getDependents(nodeId, graph)` returns. */
  function Dependents(nodeId: string, g: Graph): seq<Node>
  {
    Hop(g.edges, NodeMap(g.nodes), nodeId, OutOf)
  }

  /** Lines 307-321. */
  method GetPrerequisites(nodeId: string, g: Graph) returns (prerequisites: seq<Node>)
    ensures prerequisites == Prerequisites(nodeId, g)
  {
    prerequisites := [];
    var nodeMap := NodeMap(g.nodes);
    for i := 0 to |g.edges|
      invariant prerequisites == Hop(g.edges[..i], nodeMap, nodeId, Into)
    {
      var edge := g.edges[i];
      assert g.edges[..i + 1][..i] == g.edges[..i];
      if edge.target == nodeId && edge.source in nodeMap {
        prerequisites := prerequisites + [nodeMap[edge.source]];
      }
    }
    assert g.edges[..|g.edges|] == g.edges;
  }

  /** Lines 324-335. */
  method GetDependents(nodeId: string, g: Graph) returns (dependents: seq<Node>)
    ensures dependents == Dependents(nodeId, g)
  {
    dependents := [];
    var nodeMap := NodeMap(g.nodes);
    for i := 0 to |g.edges|
      invariant dependents == Hop(g.edges[..i], nodeMap, nodeId, OutOf)
    {
      var edge := g.edges[i];
      assert g.edges[..i + 1][..i] == g.edges[..i];
      if edge.source == nodeId && edge.target in nodeMap {
        dependents := dependents + [nodeMap[edge.target]];
      }
    }
    assert g.edges[..|g.edges|] == g.edges;
  }

  // ---------------------------------------------------------------------------
  // Properties
  // ---------------------------------------------------------------------------

  /** One edge reports at most its far node. */
  lemma HopSingle(e: Edge, m: map<string, Node>, id: string, d: Direction)
    ensures Hop([e], m, id, d) == if Follows(e, m, id, d) then [m[Far(e, d)]] else []
  {
    assert [e][..0] == [];
  }

  /** The lookup follows edge order: scanning two edge lists one after the
      other reports the two results one after the other. With `HopSingle`
      this fixes the result completely; in particular an edge listed twice
      reports its node twice. */
  lemma {:induction false} HopAppend(es1: seq<Edge>, es2: seq<Edge>, m: map<string, Node>, id: string, d: Direction)
    ensures Hop(es1 + es2, m, id, d) == Hop(es1, m, id, d) + Hop(es2, m, id, d)
    decreases |es2|
  {
    if es2 == [] {
      assert es1 + es2 == es1;
    } else {
      var front := es2[..|es2| - 1];
      HopAppend(es1, front, m, id, d);
      AppendFront(es1, es2);
    }
  }

  /** A node is reported exactly when some edge joins the node asked about
      directly to an id the map knows, and the map sends that id to it. */
  lemma {:induction false} HopMembers(es: seq<Edge>, m: map<string, Node>, id: string, d: Direction, n: Node)
    ensures n in Hop(es, m, id, d) <==> exists e :: e in es && Follows(e, m, id, d) && m[Far(e, d)] == n
    decreases |es|
  {
    if es != [] {
      var front := es[..|es| - 1];
      var e := es[|es| - 1];
      HopMembers(front, m, id, d, n);
      SplitLast(es);
      if n in Hop(front, m, id, d) {
        var e' :| e' in front && Follows(e', m, id, d) && m[Far(e', d)] == n;
        assert e' in es;
      }
    }
  }

  /** Every prerequisite is a node of the graph joined to `nodeId` by an
      edge into it. */
  lemma PrerequisitesMembers(nodeId: string, g: Graph, n: Node)
    ensures n in Prerequisites(nodeId, g) <==>
      exists e :: e in g.edges && e.target == nodeId && e.source in Ids(g.nodes) && NodeMap(g.nodes)[e.source] == n
    ensures n in Prerequisites(nodeId, g) ==> n in g.nodes
  {
    HopMembers(g.edges, NodeMap(g.nodes), nodeId, Into, n);
  }

  /** Every dependent is a node of the graph joined to `nodeId` by an edge
      out of it. */
  lemma DependentsMembers(nodeId: string, g: Graph, n: Node)
    ensures n in Dependents(nodeId, g) <==>
      exists e :: e in g.edges && e.source == nodeId && e.target in Ids(g.nodes) && NodeMap(g.nodes)[e.target] == n
    ensures n in Dependents(nodeId, g) ==> n in g.nodes
  {
    HopMembers(g.edges, NodeMap(g.nodes), nodeId, OutOf, n);
  }

  /** With unique ids, `a` is a prerequisite of `b` exactly when `b` is a
      dependent of `a`: both say there is an edge from `a` to `b`. */
  lemma PrerequisiteDependentDual(g: Graph, a: Node, b: Node)
    requires Distinct(Ids(g.nodes))
    requires a in g.nodes && b in g.nodes
    ensures a in Prerequisites(b.id, g) <==> b in Dependents(a.id, g)
    ensures a in Prerequisites(b.id, g) <==> exists e :: e in g.edges && e.source == a.id && e.target == b.id
  {
    var m := NodeMap(g.nodes);
    NodeMapDistinct(g.nodes);
    var i :| 0 <= i < |g.nodes| && g.nodes[i] == a;
    var j :| 0 <= j < |g.nodes| && g.nodes[j] == b;
    assert m[a.id] == a && m[b.id] == b;
    assert Ids(g.nodes)[i] == a.id && Ids(g.nodes)[j] == b.id;
    PrerequisitesMembers(b.id, g, a);
    DependentsMembers(a.id, g, b);
  }
}
