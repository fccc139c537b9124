/** `pruneGraph` (lib/graph-utils.ts:111-169): per-node caps, re-adding
    required nodes, removing excluded ids, and keeping the induced edges. */
module Pruning {
  import opened Wrappers
  import opened SeqUtil
  import opened GraphModel

  /** One per-node cap, as the source applies it. */
  datatype Cap = MaxDifficulty(limit: real) | MaxCost(budget: real) | MaxHours(hours: real)

  /** A missing or `0` value always passes; otherwise the value must not exceed
      the limit, half the cost budget, or 30% of the time budget in minutes. */
  predicate Within(n: Node, cap: Cap)
  {
    match cap
    case MaxDifficulty(limit) => !Truthy(n.difficulty) || n.difficulty.value as real <= limit
    case MaxCost(budget) => !Truthy(n.costAmount) || n.costAmount.value as real <= budget * 0.5
    case MaxHours(hours) => !Truthy(n.durationMin) || n.durationMin.value as real <= hours * 60.0 * 0.3
  }

  /** The caps in force: one per constraint that is not `undefined`, in the
      order difficulty, cost, duration. A cap of `0` is in force. */
  function Caps(c: Constraints): seq<Cap>
  {
    (if c.maxDifficulty.Some? then [MaxDifficulty(c.maxDifficulty.value)] else [])
    + (if c.maxCostAmount.Some? then [MaxCost(c.maxCostAmount.value)] else [])
    + (if c.maxDurationHours.Some? then [MaxHours(c.maxDurationHours.value)] else [])
  }

  predicate PassesAll(n: Node, caps: seq<Cap>)
  {
    forall cap :: cap in caps ==> Within(n, cap)
  }

  /** Whether a node passes every cap that `c` sets. */
  predicate PassesCaps(n: Node, c: Constraints)
  {
    && (c.maxDifficulty.Some? ==> Within(n, MaxDifficulty(c.maxDifficulty.value)))
    && (c.maxCostAmount.Some? ==> Within(n, MaxCost(c.maxCostAmount.value)))
    && (c.maxDurationHours.Some? ==> Within(n, MaxHours(c.maxDurationHours.value)))
  }

  lemma CapsMeaning(n: Node, c: Constraints)
    ensures PassesAll(n, Caps(c)) <==> PassesCaps(n, c)
  {
  }

  /** The nodes of `ns` within every cap of `caps`, in their order. */
  function Keep(ns: seq<Node>, caps: seq<Cap>): (r: seq<Node>)
    ensures forall n :: n in r <==> n in ns && PassesAll(n, caps)
    ensures |r| <= |ns|
  {
    if ns == [] then []
    else
      var last := ns[|ns| - 1];
      SplitLast(ns);
      Keep(ns[..|ns| - 1], caps) + (if PassesAll(last, caps) then [last] else [])
  }

  /** Filtering by one more cap is filtering by the longer list (one
      `filter` call after another, lines 120-141). */
  lemma {:induction false} KeepMore(ns: seq<Node>, caps: seq<Cap>, cap: Cap)
    ensures Keep(Keep(ns, caps), [cap]) == Keep(ns, caps + [cap])
    decreases |ns|
  {
    if ns != [] {
      var front := ns[..|ns| - 1];
      var last := ns[|ns| - 1];
      KeepMore(front, caps, cap);
      var k := Keep(ns, caps);
      if PassesAll(last, caps) {
        assert k[..|k| - 1] == Keep(front, caps);
      } else {
        assert k == Keep(front, caps);
      }
    }
  }

  lemma {:induction false} KeepInOrder(ns: seq<Node>, caps: seq<Cap>)
    ensures IsSubsequence(Keep(ns, caps), ns)
    decreases |ns|
  {
    if ns == [] {
      SubsequenceRefl(ns);
    } else {
      var front := ns[..|ns| - 1];
      var last := ns[|ns| - 1];
      KeepInOrder(front, caps);
      SplitLast(ns);
      if PassesAll(last, caps) {
        SubsequenceAppend(Keep(front, caps), front, last);
      } else {
        assert Keep(ns, caps) == Keep(front, caps);
        SubsequenceExtend(Keep(front, caps), ns);
      }
    }
  }

  /** `nodes.find(n => n.id === id)`. */
  function Find(ns: seq<Node>, id: string): (r: Option<Node>)
    ensures r.None? <==> id !in Ids(ns)
    ensures r.Some? ==> r.value in ns && r.value.id == id
  {
    if ns == [] then None
    else
      assert Ids(ns) == [ns[0].id] + Ids(ns[1..]);
      if ns[0].id == id then Some(ns[0]) else Find(ns[1..], id)
  }

  /** `find` returns the first node carrying the id. */
  lemma {:induction false} FindFirst(ns: seq<Node>, id: string) returns (i: nat)
    requires id in Ids(ns)
    ensures i < |ns| && Find(ns, id) == Some(ns[i])
    ensures forall j :: 0 <= j < i ==> ns[j].id != id
  {
    var k :| 0 <= k < |ns| && Ids(ns)[k] == id;
    if ns[0].id == id {
      i := 0;
    } else {
      assert id in Ids(ns[1..]) by {
        assert k > 0 && Ids(ns[1..])[k - 1] == id;
      }
      var i' := FindFirst(ns[1..], id);
      i := i' + 1;
      assert Find(ns, id) == Find(ns[1..], id);
      forall j | 0 <= j < i ensures ns[j].id != id {
        if j > 0 {
          assert ns[j] == ns[1..][j - 1];
        }
      }
    }
  }

  /** One iteration of the required-node loop (lines 146-151): push the first
      original node carrying `id` unless a node with that id is already kept. */
  function RestoreOne(kept: seq<Node>, id: string, original: seq<Node>): seq<Node>
  {
    if id in Ids(kept) then kept
    else match Find(original, id)
      case None => kept
      case Some(n) => kept + [n]
  }

  /** The required-node loop over `required`, in order. */
  function Restore(kept: seq<Node>, required: seq<string>, original: seq<Node>): seq<Node>
    decreases |required|
  {
    if required == [] then kept
    else RestoreOne(Restore(kept, required[..|required| - 1], original), required[|required| - 1], original)
  }

  /** The loop only appends: each appended node is the first original node
      of a required id that no capped-in node carries. */
  lemma {:induction false} RestoreAppends(kept: seq<Node>, required: seq<string>, original: seq<Node>)
    ensures var r := Restore(kept, required, original);
      && |kept| <= |r| && r[..|kept|] == kept
      && forall i :: |kept| <= i < |r| ==>
           r[i].id in required && r[i].id !in Ids(kept) && Find(original, r[i].id) == Some(r[i])
    decreases |required|
  {
    if required != [] {
      var front := required[..|required| - 1];
      var id := required[|required| - 1];
      RestoreAppends(kept, front, original);
      var r' := Restore(kept, front, original);
      var r := Restore(kept, required, original);
      if r != r' {
        assert r == r' + [Find(original, id).value];
        assert r[..|kept|] == r'[..|kept|];
        assert id !in Ids(kept) by {
          IdsPrefix(r', |kept|);
        }
      }
    }
  }

  /** The loop keeps the capped-in nodes as a prefix. */
  lemma RestorePrefix(kept: seq<Node>, required: seq<string>, original: seq<Node>)
    ensures var r := Restore(kept, required, original);
      |kept| <= |r| && r[..|kept|] == kept
  {
    RestoreAppends(kept, required, original);
  }

  /** The appended ids are pairwise distinct and in `required` order. */
  lemma {:induction false} RestoreOnce(kept: seq<Node>, required: seq<string>, original: seq<Node>)
    ensures var r := Restore(kept, required, original);
      |kept| <= |r| && Distinct(Ids(r)[|kept|..]) && IsSubsequence(Ids(r)[|kept|..], required)
    decreases |required|
  {
    RestorePrefix(kept, required, original);
    var r := Restore(kept, required, original);
    if required == [] {
      assert Ids(r)[|kept|..] == [];
      SubsequenceNil(required);
    } else {
      var front := required[..|required| - 1];
      var id := required[|required| - 1];
      RestoreOnce(kept, front, original);
      var r' := Restore(kept, front, original);
      RestorePrefix(kept, front, original);
      SplitLast(required);
      if r == r' {
        SubsequenceExtend(Ids(r')[|kept|..], required);
      } else {
        var n := Find(original, id).value;
        assert r == r' + [n] && id !in Ids(r');
        IdsAppend(r', [n]);
        assert Ids(r)[|kept|..] == Ids(r')[|kept|..] + [id];
        DistinctAppend(Ids(r')[|kept|..], [id]);
        SubsequenceAppend(Ids(r')[|kept|..], front, id);
      }
    }
  }

  /** A required id that no capped-in node carries gets its first original
      node, when there is one. */
  lemma {:induction false} RestoreCovers(kept: seq<Node>, required: seq<string>, original: seq<Node>)
    ensures forall id :: id in required && id !in Ids(kept) && id in Ids(original) ==>
      Find(original, id).value in Restore(kept, required, original)
    decreases |required|
  {
    if required != [] {
      var front := required[..|required| - 1];
      var last := required[|required| - 1];
      RestoreCovers(kept, front, original);
      var r' := Restore(kept, front, original);
      var r := Restore(kept, required, original);
      assert forall x :: x in r' ==> x in r;
      forall id | id in required && id !in Ids(kept) && id in Ids(original)
        ensures Find(original, id).value in r
      {
        if id !in front {
          SplitLast(required);
          RestoreCoversLast(kept, required, original);
        }
      }
    }
  }

  /** The last required id is covered once its iteration has run. */
  lemma RestoreCoversLast(kept: seq<Node>, required: seq<string>, original: seq<Node>)
    requires required != []
    requires required[|required| - 1] !in Ids(kept) && required[|required| - 1] in Ids(original)
    ensures Find(original, required[|required| - 1]).value in Restore(kept, required, original)
  {
    var front := required[..|required| - 1];
    var id := required[|required| - 1];
    var r' := Restore(kept, front, original);
    RestoreAppends(kept, front, original);
    if id in Ids(r') {
      var i :| 0 <= i < |r'| && Ids(r')[i] == id;
      if i < |kept| {
        PrefixIds(r', kept, i);
        assert false;
      }
      assert Find(original, id) == Some(r'[i]);
    }
  }

  /** An id at a position of a prefix is an id of that prefix. */
  lemma PrefixIds(r: seq<Node>, kept: seq<Node>, i: nat)
    requires |kept| <= |r| && r[..|kept|] == kept && i < |kept|
    ensures Ids(r)[i] in Ids(kept)
  {
    assert r[i] == kept[i];
    assert Ids(kept)[i] == kept[i].id;
  }

  /** `filter((node) => !excludedSet.has(node.id))`. */
  function DropExcluded(ns: seq<Node>, excluded: seq<string>): seq<Node>
  {
    if ns == [] then []
    else
      var last := ns[|ns| - 1];
      DropExcluded(ns[..|ns| - 1], excluded) + (if last.id in excluded then [] else [last])
  }

  lemma {:induction false} DropExcludedMembers(ns: seq<Node>, excluded: seq<string>)
    ensures forall n :: n in DropExcluded(ns, excluded) <==> n in ns && n.id !in excluded
    decreases |ns|
  {
    if ns != [] {
      DropExcludedMembers(ns[..|ns| - 1], excluded);
      SplitLast(ns);
    }
  }

  lemma {:induction false} DropExcludedInOrder(ns: seq<Node>, excluded: seq<string>)
    ensures IsSubsequence(DropExcluded(ns, excluded), ns)
    decreases |ns|
  {
    if ns == [] {
      SubsequenceRefl(ns);
    } else {
      var front := ns[..|ns| - 1];
      var last := ns[|ns| - 1];
      DropExcludedInOrder(front, excluded);
      SplitLast(ns);
      if last.id in excluded {
        assert DropExcluded(ns, excluded) == DropExcluded(front, excluded);
        SubsequenceExtend(DropExcluded(front, excluded), ns);
      } else {
        SubsequenceAppend(DropExcluded(front, excluded), front, last);
      }
    }
  }

  /** The edges whose two endpoints are in `ids` (lines 160-163). */
  function InducedEdges(es: seq<Edge>, ids: seq<string>): (r: seq<Edge>)
    ensures forall e :: e in r <==> e in es && e.source in ids && e.target in ids
  {
    if es == [] then []
    else
      var last := es[|es| - 1];
      SplitLast(es);
      InducedEdges(es[..|es| - 1], ids) + (if last.source in ids && last.target in ids then [last] else [])
  }

  lemma {:induction false} InducedEdgesInOrder(es: seq<Edge>, ids: seq<string>)
    ensures IsSubsequence(InducedEdges(es, ids), es)
    decreases |es|
  {
    if es == [] {
      SubsequenceRefl(es);
    } else {
      var front := es[..|es| - 1];
      var last := es[|es| - 1];
      var sub := InducedEdges(front, ids);
      InducedEdgesInOrder(front, ids);
      if last.source in ids && last.target in ids {
        SubsequenceAppend(sub, front, last);
        assert InducedEdges(es, ids) == sub + [last];
        SplitLast(es);
      } else {
        assert InducedEdges(es, ids) == sub;
        SubsequenceExtend(sub, es);
      }
    }
  }

  /** The nodes left by the three cap filters. */
  function Kept(g: Graph, c: Constraints): seq<Node>
  {
    Keep(g.nodes, Caps(c))
  }

  /** `pruneGraph` as a function of the graph and the constraints. */
  function Prune(g: Graph, c: Constraints): Graph
  {
    var restored := Restore(Kept(g, c), c.requiredNodes, g.nodes);
    var nodes := DropExcluded(restored, c.excludedNodes);
    Graph(nodes, InducedEdges(g.edges, Ids(nodes)))
  }

  /** `pruneGraph` (lines 111-169). */
  method PruneGraph(g: Graph, c: Constraints) returns (r: Graph)
    ensures r == Prune(g, c)
  {
    var nodes, edges := g.nodes, g.edges;
    var filteredNodes := nodes;
    KeepAll(nodes, []);
    ghost var caps: seq<Cap> := if c.maxDifficulty.Some? then [MaxDifficulty(c.maxDifficulty.value)] else [];
    if c.maxDifficulty.Some? {
      filteredNodes := Keep(filteredNodes, [MaxDifficulty(c.maxDifficulty.value)]);
    }
    ghost var more: seq<Cap> := if c.maxCostAmount.Some? then [MaxCost(c.maxCostAmount.value)] else [];
    if c.maxCostAmount.Some? {
      KeepMore(nodes, caps, MaxCost(c.maxCostAmount.value));
      filteredNodes := Keep(filteredNodes, [MaxCost(c.maxCostAmount.value)]);
    } else {
      assert caps + more == caps;
    }
    caps := caps + more;
    more := if c.maxDurationHours.Some? then [MaxHours(c.maxDurationHours.value)] else [];
    if c.maxDurationHours.Some? {
      KeepMore(nodes, caps, MaxHours(c.maxDurationHours.value));
      filteredNodes := Keep(filteredNodes, [MaxHours(c.maxDurationHours.value)]);
    } else {
      assert caps + more == caps;
    }
    caps := caps + more;
    assert filteredNodes == Keep(nodes, Caps(c));
    ghost var kept := filteredNodes;

    if |c.requiredNodes| > 0 {
      filteredNodes := RestoreRequired(filteredNodes, c.requiredNodes, nodes);
    }

    if |c.excludedNodes| > 0 {
      filteredNodes := DropExcluded(filteredNodes, c.excludedNodes);
    } else {
      DropNothing(filteredNodes, c.excludedNodes);
    }

    var nodeIds := Ids(filteredNodes);
    r := Graph(filteredNodes, InducedEdges(edges, nodeIds));
  }

  /** Lines 144-152: push each missing required node, in `required` order. */
  method RestoreRequired(kept: seq<Node>, required: seq<string>, nodes: seq<Node>) returns (filteredNodes: seq<Node>)
    ensures filteredNodes == Restore(kept, required, nodes)
  {
    filteredNodes := kept;
    var i := 0;
    while i < |required|
      invariant 0 <= i <= |required|
      invariant filteredNodes == Restore(kept, required[..i], nodes)
    {
      var requiredId := required[i];
      assert required[..i + 1][..i] == required[..i];
      assert Restore(kept, required[..i + 1], nodes) == RestoreOne(filteredNodes, requiredId, nodes);
      if requiredId !in Ids(filteredNodes) {
        var originalNode := Find(nodes, requiredId);
        if originalNode.Some? {
          filteredNodes := filteredNodes + [originalNode.value];
        }
      }
      i := i + 1;
    }
    assert required[..|required|] == required;
  }

  lemma {:induction false} KeepAll(ns: seq<Node>, caps: seq<Cap>)
    requires caps == []
    ensures Keep(ns, caps) == ns
    decreases |ns|
  {
    if ns != [] {
      KeepAll(ns[..|ns| - 1], caps);
      SplitLast(ns);
    }
  }

  lemma {:induction false} DropNothing(ns: seq<Node>, excluded: seq<string>)
    requires excluded == []
    ensures DropExcluded(ns, excluded) == ns
    decreases |ns|
  {
    if ns != [] {
      DropNothing(ns[..|ns| - 1], excluded);
      SplitLast(ns);
    }
  }

  // ---------------------------------------------------------------------------
  // What pruning guarantees
  // ---------------------------------------------------------------------------

  /** A node is in the pruned graph exactly when its id is not excluded and it
      either passes every cap in force, or it is the first original node of a
      required id that no capped-in node carries. */
  lemma PruneNodesIff(g: Graph, c: Constraints, n: Node)
    ensures n in Prune(g, c).nodes <==>
      && n.id !in c.excludedNodes
      && ((n in g.nodes && PassesCaps(n, c))
          || (n.id in c.requiredNodes && n.id !in Ids(Kept(g, c)) && Find(g.nodes, n.id) == Some(n)))
  {
    var kept := Kept(g, c);
    var restored := Restore(kept, c.requiredNodes, g.nodes);
    RestoreAppends(kept, c.requiredNodes, g.nodes);
    RestoreCovers(kept, c.requiredNodes, g.nodes);
    DropExcludedMembers(restored, c.excludedNodes);
    CapsMeaning(n, c);
    if n in restored {
      var i :| 0 <= i < |restored| && restored[i] == n;
      if i < |kept| {
        assert restored[..|kept|][i] == n;
      }
    }
    if n in kept {
      assert restored[..|kept|] == kept;
      var i :| 0 <= i < |kept| && kept[i] == n;
      assert restored[i] == n;
    }
  }

  /** Exclusion beats requirement and every cap. */
  lemma ExcludedNeverSurvive(g: Graph, c: Constraints)
    ensures forall n :: n in Prune(g, c).nodes ==> n.id !in c.excludedNodes
  {
    DropExcludedMembers(Restore(Kept(g, c), c.requiredNodes, g.nodes), c.excludedNodes);
  }

  /** The output lists the capped-in nodes in input order, then the re-added
      required nodes in `requiredNodes` order, one per id, with excluded ids
      removed from both. */
  lemma PruneNodesOrder(g: Graph, c: Constraints)
    ensures var kept := Kept(g, c);
      var restored := Restore(kept, c.requiredNodes, g.nodes);
      && IsSubsequence(kept, g.nodes)
      && |kept| <= |restored| && restored[..|kept|] == kept
      && Distinct(Ids(restored)[|kept|..])
      && IsSubsequence(Ids(restored)[|kept|..], c.requiredNodes)
      && Prune(g, c).nodes == DropExcluded(kept, c.excludedNodes) + DropExcluded(restored[|kept|..], c.excludedNodes)
  {
    var kept := Kept(g, c);
    var restored := Restore(kept, c.requiredNodes, g.nodes);
    KeepInOrder(g.nodes, Caps(c));
    RestorePrefix(kept, c.requiredNodes, g.nodes);
    RestoreOnce(kept, c.requiredNodes, g.nodes);
    DropExcludedSplit(kept, restored, c.excludedNodes);
  }

  lemma DropExcludedSplit(kept: seq<Node>, restored: seq<Node>, excluded: seq<string>)
    requires |kept| <= |restored| && restored[..|kept|] == kept
    ensures DropExcluded(restored, excluded) == DropExcluded(kept, excluded) + DropExcluded(restored[|kept|..], excluded)
  {
    assert restored == kept + restored[|kept|..];
    DropExcludedAppend(kept, restored[|kept|..], excluded);
  }

  lemma {:induction false} DropExcludedAppend(a: seq<Node>, b: seq<Node>, excluded: seq<string>)
    ensures DropExcluded(a + b, excluded) == DropExcluded(a, excluded) + DropExcluded(b, excluded)
    decreases |b|
  {
    if b == [] {
      assert a + b == a;
    } else {
      var front := b[..|b| - 1];
      var last := b[|b| - 1];
      DropExcludedAppend(a, front, excluded);
      var tail := if last.id in excluded then [] else [last];
      AppendFront(a, b);
      assert DropExcluded(a + b, excluded) == DropExcluded(a + front, excluded) + tail;
      assert DropExcluded(b, excluded) == DropExcluded(front, excluded) + tail;
    }
  }

  /** The pruned edges are the input edges, in input order, whose two
      endpoints are ids of surviving nodes. */
  lemma PruneEdges(g: Graph, c: Constraints)
    ensures var p := Prune(g, c);
      && IsSubsequence(p.edges, g.edges)
      && forall e :: e in p.edges <==> e in g.edges && e.source in Ids(p.nodes) && e.target in Ids(p.nodes)
  {
    InducedEdgesInOrder(g.edges, Ids(Prune(g, c).nodes));
  }

  // ---------------------------------------------------------------------------
  // Idempotence
  // ---------------------------------------------------------------------------

  /** An id occurs in `Ids(s)` exactly when some node of `s` carries it. */
  lemma InIds(s: seq<Node>, id: string)
    ensures id in Ids(s) <==> exists n :: n in s && n.id == id
  {
    if id in Ids(s) {
      var i :| 0 <= i < |s| && Ids(s)[i] == id;
      assert s[i] in s && s[i].id == id;
    }
    if exists n :: n in s && n.id == id {
      var n :| n in s && n.id == id;
      var i :| 0 <= i < |s| && s[i] == n;
      assert Ids(s)[i] == id;
    }
  }

  /** Exclusion removes exactly the excluded ids. */
  lemma IdsDropExcluded(s: seq<Node>, excluded: seq<string>, id: string)
    ensures id in Ids(DropExcluded(s, excluded)) <==> id in Ids(s) && id !in excluded
  {
    DropExcludedMembers(s, excluded);
    InIds(s, id);
    InIds(DropExcluded(s, excluded), id);
  }

  /** Exclusion changes nothing when no node carries an excluded id. */
  lemma {:induction false} DropExcludedNone(s: seq<Node>, excluded: seq<string>)
    requires forall n :: n in s ==> n.id !in excluded
    ensures DropExcluded(s, excluded) == s
    decreases |s|
  {
    if s != [] {
      DropExcludedNone(s[..|s| - 1], excluded);
      SplitLast(s);
    }
  }

  lemma {:induction false} KeepAppend(a: seq<Node>, b: seq<Node>, caps: seq<Cap>)
    ensures Keep(a + b, caps) == Keep(a, caps) + Keep(b, caps)
    decreases |b|
  {
    if b == [] {
      assert a + b == a;
    } else {
      var front := b[..|b| - 1];
      var last := b[|b| - 1];
      var tail := if PassesAll(last, caps) then [last] else [];
      KeepAppend(a, front, caps);
      AppendFront(a, b);
      assert Keep(a + b, caps) == Keep(a + front, caps) + tail;
      assert Keep(b, caps) == Keep(front, caps) + tail;
    }
  }

  /** Filtering changes nothing when every node passes. */
  lemma {:induction false} KeepAllPass(s: seq<Node>, caps: seq<Cap>)
    requires forall n :: n in s ==> PassesAll(n, caps)
    ensures Keep(s, caps) == s
    decreases |s|
  {
    if s != [] {
      KeepAllPass(s[..|s| - 1], caps);
      SplitLast(s);
    }
  }

  /** Filtering keeps nothing when no node passes. */
  lemma {:induction false} KeepNonePass(s: seq<Node>, caps: seq<Cap>)
    requires forall n :: n in s ==> !PassesAll(n, caps)
    ensures Keep(s, caps) == []
    decreases |s|
  {
    if s != [] {
      KeepNonePass(s[..|s| - 1], caps);
    }
  }

  /** The edges kept when every edge already joins two of `ids`. */
  lemma {:induction false} InducedEdgesAll(es: seq<Edge>, ids: seq<string>)
    requires forall e :: e in es ==> e.source in ids && e.target in ids
    ensures InducedEdges(es, ids) == es
    decreases |es|
  {
    if es != [] {
      InducedEdgesAll(es[..|es| - 1], ids);
      SplitLast(es);
    }
  }

  /** A restored node fails some cap: a node passing every cap would have
      been kept, and its id would not have been missing. */
  lemma RestoredFailCaps(g: Graph, c: Constraints)
    ensures var kept := Kept(g, c);
      var r := Restore(kept, c.requiredNodes, g.nodes);
      |kept| <= |r| && r[..|kept|] == kept
      && forall m :: m in r[|kept|..] ==> !PassesAll(m, Caps(c))
  {
    var kept := Kept(g, c);
    var r := Restore(kept, c.requiredNodes, g.nodes);
    RestoreAppends(kept, c.requiredNodes, g.nodes);
    forall m | m in r[|kept|..] ensures !PassesAll(m, Caps(c)) {
      var j :| 0 <= j < |r| - |kept| && r[|kept|..][j] == m;
      assert r[|kept| + j] == m;
      if PassesAll(m, Caps(c)) {
        InIds(kept, m.id);
        assert false;
      }
    }
  }

  /** Filtering the pruned nodes again keeps exactly the capped-in nodes that
      are not excluded. */
  lemma SecondKept(g: Graph, c: Constraints)
    ensures Kept(Prune(g, c), c) == DropExcluded(Kept(g, c), c.excludedNodes)
  {
    var kept := Kept(g, c);
    var x := c.excludedNodes;
    var r := Restore(kept, c.requiredNodes, g.nodes);
    RestoredFailCaps(g, c);
    var added := r[|kept|..];
    DropExcludedSplit(kept, r, x);
    var dk, da := DropExcluded(kept, x), DropExcluded(added, x);
    assert Prune(g, c).nodes == dk + da;
    KeepAppend(dk, da, Caps(c));
    DropExcludedMembers(kept, x);
    KeepAllPass(dk, Caps(c));
    DropExcludedMembers(added, x);
    KeepNonePass(da, Caps(c));
  }

  /** The ids of a prefix are ids of the whole. */
  lemma PrefixKeepsIds(kept: seq<Node>, l: seq<Node>, id: string)
    requires |kept| <= |l| && l[..|kept|] == kept
    requires id in Ids(kept)
    ensures id in Ids(l)
  {
    var i :| 0 <= i < |kept| && Ids(kept)[i] == id;
    assert l[i] == kept[i];
    assert Ids(l)[i] == id;
  }

  /** A required id that no capped-in node carries and that is not excluded
      is found among the pruned nodes as its first original node. */
  lemma FindRestored(g: Graph, c: Constraints, id: string, n: Node)
    requires id in c.requiredNodes && id !in c.excludedNodes
    requires id !in Ids(Kept(g, c)) && Find(g.nodes, id) == Some(n)
    ensures Find(Prune(g, c).nodes, id) == Some(n)
  {
    var pruned := Prune(g, c).nodes;
    PruneNodesIff(g, c, n);
    InIds(pruned, id);
    var m := Find(pruned, id).value;
    PruneNodesIff(g, c, m);
    if m != n {
      PruneKeptMembers(g, c, m);
      InIds(Kept(g, c), id);
      assert false;
    }
  }

  /** One iteration of the required-node loop commutes with exclusion, once
      the second pass looks the id up among the pruned nodes. */
  lemma DropRestoreOne(g: Graph, c: Constraints, l: seq<Node>, id: string)
    requires id in c.requiredNodes
    requires |Kept(g, c)| <= |l| && l[..|Kept(g, c)|] == Kept(g, c)
    ensures DropExcluded(RestoreOne(l, id, g.nodes), c.excludedNodes)
      == RestoreOne(DropExcluded(l, c.excludedNodes), id, Prune(g, c).nodes)
  {
    IdsDropExcluded(l, c.excludedNodes, id);
    if id in c.excludedNodes {
      ExcludedIdNotFound(g, c, id);
      if id !in Ids(l) && Find(g.nodes, id).Some? {
        assert (l + [Find(g.nodes, id).value])[..|l|] == l;
      }
    } else if id !in Ids(l) {
      match Find(g.nodes, id)
      case None =>
        MissingIdNotFound(g, c, id);
      case Some(n) =>
        assert (l + [n])[..|l|] == l;
        if id in Ids(Kept(g, c)) {
          PrefixKeepsIds(Kept(g, c), l, id);
        }
        FindRestored(g, c, id, n);
    }
  }

  /** The pruned nodes carry no excluded id. */
  lemma ExcludedIdNotFound(g: Graph, c: Constraints, id: string)
    requires id in c.excludedNodes
    ensures Find(Prune(g, c).nodes, id) == None
  {
    ExcludedNeverSurvive(g, c);
    InIds(Prune(g, c).nodes, id);
  }

  /** The pruned nodes carry only ids of the original nodes. */
  lemma MissingIdNotFound(g: Graph, c: Constraints, id: string)
    requires Find(g.nodes, id) == None
    ensures Find(Prune(g, c).nodes, id) == None
  {
    var pruned := Prune(g, c).nodes;
    InIds(pruned, id);
    if id in Ids(pruned) {
      var m :| m in pruned && m.id == id;
      PruneNodesIff(g, c, m);
      InIds(g.nodes, id);
      assert false;
    }
  }

  /** Over the first `k` required ids, restoring and then excluding is
      restoring the non-excluded capped-in nodes from the pruned nodes. */
  lemma {:induction false} DropRestorePrefix(g: Graph, c: Constraints, k: nat)
    requires k <= |c.requiredNodes|
    ensures DropExcluded(Restore(Kept(g, c), c.requiredNodes[..k], g.nodes), c.excludedNodes)
      == Restore(DropExcluded(Kept(g, c), c.excludedNodes), c.requiredNodes[..k], Prune(g, c).nodes)
    decreases k
  {
    var kept := Kept(g, c);
    var required := c.requiredNodes[..k];
    if k == 0 {
      assert required == [];
    } else {
      var front := c.requiredNodes[..k - 1];
      var id := c.requiredNodes[k - 1];
      var x := c.excludedNodes;
      DropRestorePrefix(g, c, k - 1);
      assert required[..k - 1] == front && required[k - 1] == id;
      var l := Restore(kept, front, g.nodes);
      var dl := Restore(DropExcluded(kept, x), front, Prune(g, c).nodes);
      assert DropExcluded(l, x) == dl;
      assert Restore(kept, required, g.nodes) == RestoreOne(l, id, g.nodes);
      assert Restore(DropExcluded(kept, x), required, Prune(g, c).nodes) == RestoreOne(dl, id, Prune(g, c).nodes);
      RestorePrefix(kept, front, g.nodes);
      DropRestoreOne(g, c, l, id);
    }
  }

  /** Pruning a pruned graph again with the same constraints changes nothing. */
  lemma PruneIdempotent(g: Graph, c: Constraints)
    ensures Prune(Prune(g, c), c) == Prune(g, c)
  {
    var p := Prune(g, c);
    SecondKept(g, c);
    DropRestorePrefix(g, c, |c.requiredNodes|);
    assert c.requiredNodes[..|c.requiredNodes|] == c.requiredNodes;
    ExcludedNeverSurvive(g, c);
    DropExcludedNone(p.nodes, c.excludedNodes);
    InducedEdgesAll(p.edges, Ids(p.nodes));
  }

  lemma PruneKeptMembers(g: Graph, c: Constraints, n: Node)
    ensures n in Kept(g, c) <==> n in g.nodes && PassesCaps(n, c)
  {
    CapsMeaning(n, c);
  }
}
