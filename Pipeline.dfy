/** `findLearningPaths` and `optimizeLearningPath`
    (lib/graph-utils.ts:171-183 and 243-261): prune, sort in dependency
    order, optionally select greedily, and assemble the path. The only
    failure is the cycle error of the sort, returned as `Failure`. */
module Pipeline {
  import opened Wrappers
  import opened SeqUtil
  import opened GraphModel
  import opened TopologicalSort
  import opened Pruning
  import opened PathAssembly
  import K = Knapsack

  /** `findLearningPaths` (lines 172-183): a single candidate path. It
      throws exactly when `hasCycles` holds for the pruned graph, and
      otherwise its one path lists the pruned nodes in dependency order. */
  function FindLearningPaths(g: Graph, c: Constraints): (r: Result<seq<LearningPath>, SortError>)
    ensures r.Failure? <==> HasCycles(Prune(g, c))
    ensures r.Success? ==> |r.value| == 1 && IsTopologicalOrder(r.value[0].nodes, Prune(g, c))
  {
    var p := Prune(g, c);
    TopoSortFailsIff(p);
    match TopoSort(p)
    case Failure(e) => Failure(e)
    case Success(sortedNodes) =>
      TopoSortSound(p);
      Success([PathOf(sortedNodes, c)])
  }

  /** Line 256: the selector runs only under a truthy time or cost limit,
      that is, exactly when one of its two budgets is finite. */
  predicate Optimizes(c: Constraints): (b: bool)
    ensures b <==> K.MaxMinutes(c).Some? || K.MaxCost(c).Some?
  {
    TruthyReal(c.maxDurationHours) || TruthyReal(c.maxCostAmount)
  }

  /** `optimizeLearningPath` (lines 248-261). It throws exactly when
      `hasCycles` holds for the pruned graph; otherwise its path draws only
      on the pruned nodes, and without a budget it is the dependency order. */
  function OptimizeLearningPath(g: Graph, c: Constraints): (r: Result<LearningPath, SortError>)
    ensures r.Failure? <==> HasCycles(Prune(g, c))
    ensures r.Success? ==> multiset(r.value.nodes) <= multiset(Prune(g, c).nodes)
    ensures r.Success? && !Optimizes(c) ==> IsTopologicalOrder(r.value.nodes, Prune(g, c))
  {
    var p := Prune(g, c);
    TopoSortFailsIff(p);
    match TopoSort(p)
    case Failure(e) => Failure(e)
    case Success(sortedNodes) =>
      TopoSortSound(p);
      if Optimizes(c) then
        K.KnapsackDrawsFromInput(sortedNodes, c);
        Success(PathOf(K.Knapsack(sortedNodes, c), c))
      else Success(PathOf(sortedNodes, c))
  }

  // ---------------------------------------------------------------------------
  // Failure
  // ---------------------------------------------------------------------------

  /** Both functions fail exactly when the pruned graph repeats an id or its
      edges contain a cycle, and then they fail together. */
  lemma FailsIff(g: Graph, c: Constraints)
    ensures FindLearningPaths(g, c).Failure? <==>
      !Distinct(Ids(Prune(g, c).nodes)) || Cyclic(Prune(g, c))
    ensures OptimizeLearningPath(g, c).Failure? <==> FindLearningPaths(g, c).Failure?
  {
    TopoSortFailsIff(Prune(g, c));
  }

  // ---------------------------------------------------------------------------
  // findLearningPaths
  // ---------------------------------------------------------------------------

  /** On success the single path lists the pruned nodes, each once, every
      surviving edge pointing forward; it is valid exactly when each truthy
      limit is met. */
  lemma FindSound(g: Graph, c: Constraints)
    requires FindLearningPaths(g, c).Success?
    ensures |FindLearningPaths(g, c).value| == 1
    ensures var p := FindLearningPaths(g, c).value[0];
      && IsTopologicalOrder(p.nodes, Prune(g, c))
      && (p.isValid <==>
        && (TruthyReal(c.maxDurationHours) ==> p.totalDuration as real / 60.0 <= c.maxDurationHours.value)
        && (TruthyReal(c.maxCostAmount) ==> p.totalCost as real <= c.maxCostAmount.value)
        && (TruthyReal(c.maxDifficulty) ==> p.averageDifficulty <= c.maxDifficulty.value))
  {
    var pruned := Prune(g, c);
    TopoSortSound(pruned);
    PathValidIff(TopoSort(pruned).value, c);
  }

  /** Exclusion wins: no path of either function holds an excluded id. */
  lemma NoExcludedNodes(g: Graph, c: Constraints)
    ensures FindLearningPaths(g, c).Success? ==>
      forall n :: n in FindLearningPaths(g, c).value[0].nodes ==> n.id !in c.excludedNodes
    ensures OptimizeLearningPath(g, c).Success? ==>
      forall n :: n in OptimizeLearningPath(g, c).value.nodes ==> n.id !in c.excludedNodes
  {
    var pruned := Prune(g, c);
    ExcludedNeverSurvive(g, c);
    if TopoSort(pruned).Success? {
      var sorted := TopoSort(pruned).value;
      TopoSortSound(pruned);
      assert forall n :: n in sorted ==> n in pruned.nodes by {
        forall n | n in sorted ensures n in pruned.nodes {
          assert n in multiset(sorted);
        }
      }
      if Optimizes(c) {
        K.KnapsackDrawsFromInput(sorted, c);
        forall n | n in K.Knapsack(sorted, c) ensures n in sorted {
          assert n in multiset(K.Knapsack(sorted, c));
        }
      }
    }
  }

  // ---------------------------------------------------------------------------
  // optimizeLearningPath
  // ---------------------------------------------------------------------------

  /** Without a truthy time or cost limit the optimised path is the path
      `findLearningPaths` returns. */
  lemma OptimizeWithoutBudget(g: Graph, c: Constraints)
    requires !Optimizes(c)
    ensures FindLearningPaths(g, c).Success? <==> OptimizeLearningPath(g, c).Success?
    ensures FindLearningPaths(g, c).Success? ==>
      OptimizeLearningPath(g, c).value == FindLearningPaths(g, c).value[0]
  {
  }

  lemma {:induction false} SumMonotone(ns: seq<Node>)
    ensures Sum(ns, DurationOrZero) <= Sum(ns, K.KnapsackMinutes)
    decreases |ns|
  {
    if ns != [] {
      SumMonotone(ns[..|ns| - 1]);
    }
  }

  /** Under a truthy time or cost limit, a non-empty optimised path never
      reports a time or cost violation: the selector charges an unset
      duration as an hour, more than the path's total counts for it. */
  lemma OptimizeKeepsBudgets(g: Graph, c: Constraints)
    requires Optimizes(c)
    requires OptimizeLearningPath(g, c).Success?
    ensures var p := OptimizeLearningPath(g, c).value;
      p.nodes != [] ==> TimeExceeded !in p.violatedConstraints && CostExceeded !in p.violatedConstraints
  {
    var sorted := TopoSort(Prune(g, c)).value;
    var r := K.Knapsack(sorted, c);
    K.KnapsackWithinBudget(sorted, c);
    SumMonotone(r);
    if r != [] && TruthyReal(c.maxDurationHours) {
      assert Sum(r, DurationOrZero) as real <= c.maxDurationHours.value * 60.0;
      DivideBySixty(Sum(r, DurationOrZero), c.maxDurationHours.value);
    }
  }

  lemma DivideBySixty(minutes: int, hours: real)
    requires minutes as real <= hours * 60.0
    ensures minutes as real / 60.0 <= hours
  {
  }

  /** Every node of the optimised path that was not required passes every
      per-node cap of the pruning step. */
  lemma OptimizeKeepsCaps(g: Graph, c: Constraints)
    requires OptimizeLearningPath(g, c).Success?
    ensures forall n :: n in OptimizeLearningPath(g, c).value.nodes && n.id !in c.requiredNodes ==>
      PassesCaps(n, c)
  {
    var pruned := Prune(g, c);
    var sorted := TopoSort(pruned).value;
    TopoSortSound(pruned);
    forall n | n in OptimizeLearningPath(g, c).value.nodes && n.id !in c.requiredNodes
      ensures PassesCaps(n, c)
    {
      if Optimizes(c) {
        K.KnapsackDrawsFromInput(sorted, c);
        assert n in multiset(K.Knapsack(sorted, c));
      }
      assert n in multiset(sorted);
      PruneNodesIff(g, c, n);
    }
  }

  // ---------------------------------------------------------------------------
  // Worked examples
  // ---------------------------------------------------------------------------

  const NodeA := Node("A", "A", Some(1), Some(60), Some(0), None)
  const NodeB := Node("B", "B", Some(2), Some(120), Some(0), None)
  const TwoHours := Constraints(Some(2.0), None, None, [], [])

  /** A two-hour limit caps each node at 36 minutes, so both a one-hour and
      a two-hour node are pruned and the optimised path is empty and valid. */
  lemma TwoHourLimitPrunesBoth()
    ensures OptimizeLearningPath(Graph([NodeA, NodeB], [Edge("A", "B", None)]), TwoHours)
      == Success(LearningPath([], 0, 0, 0.0, true, []))
  {
    var g := Graph([NodeA, NodeB], [Edge("A", "B", None)]);
    var c := TwoHours;
    assert !PassesCaps(NodeA, c) && !PassesCaps(NodeB, c);
    assert Kept(g, c) == [] by {
      assert forall n :: n in Kept(g, c) ==> n in g.nodes && PassesCaps(n, c) by {
        forall n | n in Kept(g, c) ensures n in g.nodes && PassesCaps(n, c) {
          PruneKeptMembers(g, c, n);
        }
      }
      if Kept(g, c) != [] {
        var n := Kept(g, c)[0];
        PruneKeptMembers(g, c, n);
        assert false;
      }
    }
    assert Prune(g, c).nodes == [];
    assert Prune(g, c).edges == [];
    NoEdgesKeepsOrder([]);
    assert TopoSort(Prune(g, c)) == Success([]);
    assert K.Knapsack([], c) == [];
  }

  /** An empty graph gives an empty, valid path with zero totals, provided
      no limit is negative (a negative limit is truthy and fails even zero). */
  lemma EmptyGraphPath(c: Constraints)
    requires c.maxDurationHours.Some? ==> c.maxDurationHours.value >= 0.0
    requires c.maxCostAmount.Some? ==> c.maxCostAmount.value >= 0.0
    requires c.maxDifficulty.Some? ==> c.maxDifficulty.value >= 0.0
    ensures FindLearningPaths(Graph([], []), c) == Success([LearningPath([], 0, 0, 0.0, true, [])])
    ensures OptimizeLearningPath(Graph([], []), c) == Success(LearningPath([], 0, 0, 0.0, true, []))
  {
    var g := Graph([], []);
    var p := Prune(g, c);
    if p.nodes != [] {
      PruneNodesIff(g, c, p.nodes[0]);
      assert false;
    }
    assert p.edges == [];
    NoEdgesKeepsOrder([]);
    assert TopoSort(p) == Success([]);
    assert K.Knapsack([], c) == [];
  }

  const HardNode := Node("A", "A", Some(5), Some(60), Some(0), None)
  const EasyNode := Node("B", "B", Some(1), Some(60), Some(0), None)
  const TenHours := Constraints(Some(10.0), None, None, [], [])

  const WitnessGraph := Graph([HardNode, EasyNode], [Edge("A", "B", None)])

  /** The optimised path need not respect the edges: a hard one-hour node
      that an easy one-hour node depends on comes second, because the easy
      node has the better ratio and both fit a ten-hour budget. */
  lemma OptimizedPathBreaksEdge()
    ensures var r := OptimizeLearningPath(WitnessGraph, TenHours);
      r.Success? && r.value.nodes == [EasyNode, HardNode]
  {
    WitnessPruned();
    WitnessSorted();
    WitnessSelection(TopoSort(WitnessGraph).value);
  }

  /** Both nodes are within the 180-minute cap, so pruning keeps the graph. */
  lemma WitnessPruned()
    ensures Prune(WitnessGraph, TenHours) == WitnessGraph
  {
    var g, c := WitnessGraph, TenHours;
    CapsMeaning(HardNode, c);
    CapsMeaning(EasyNode, c);
    KeepAllPass(g.nodes, Caps(c));
    DropNothing(g.nodes, c.excludedNodes);
    assert Ids(g.nodes) == ["A", "B"];
    InducedEdgesAll(g.edges, Ids(g.nodes));
  }

  lemma WitnessSorted()
    ensures TopoSort(WitnessGraph).Success?
    ensures multiset(TopoSort(WitnessGraph).value) == multiset{HardNode, EasyNode}
  {
    var g := WitnessGraph;
    assert Ids(g.nodes) == ["A", "B"];
    OrderedAcyclic(g, ["A", "B"]);
    TopoSortFailsIff(g);
    TopoSortSound(g);
  }

  /** Either order of the two nodes is selected in full, easy node first. */
  lemma WitnessSelection(sorted: seq<Node>)
    requires multiset(sorted) == multiset{HardNode, EasyNode}
    ensures K.Knapsack(sorted, TenHours) == [EasyNode, HardNode]
  {
    WitnessTakesAll(sorted);
    K.KnapsackOrder(sorted, TenHours);
    WitnessRatios();
    PairByRatio(K.Knapsack(sorted, TenHours), TenHours);
  }

  /** Two hours of study fit a ten-hour budget, so both nodes are selected. */
  lemma WitnessTakesAll(sorted: seq<Node>)
    requires multiset(sorted) == multiset{HardNode, EasyNode}
    ensures multiset(K.Knapsack(sorted, TenHours)) == multiset{HardNode, EasyNode}
  {
    forall n | n in sorted ensures n == HardNode || n == EasyNode {
      assert n in multiset(sorted);
    }
    WitnessMinutes();
    SumPermutation(sorted, [HardNode, EasyNode], K.KnapsackMinutes);
    K.KnapsackTakesAll(sorted, TenHours);
  }

  lemma WitnessMinutes()
    ensures Sum([HardNode, EasyNode], K.KnapsackMinutes) == 120
  {
    var pair := [HardNode, EasyNode];
    assert pair[..1] == [HardNode];
    SumSingle(HardNode, K.KnapsackMinutes);
    assert K.KnapsackMinutes(HardNode) == 60 && K.KnapsackMinutes(EasyNode) == 60;
  }

  /** The easy node is worth 50 per hour, the hard one 10. */
  lemma WitnessRatios()
    ensures K.Score(EasyNode, TenHours).ratio > K.Score(HardNode, TenHours).ratio
  {
    assert K.Score(EasyNode, TenHours).ratio == 50.0 / 60.0;
    assert K.Score(HardNode, TenHours).ratio == 10.0 / 60.0;
    K.DivideStrict(10.0, 50.0, 60.0);
  }

  /** A two-node listing of the witness nodes ordered by ratio puts the easy
      node first. */
  lemma PairByRatio(r: seq<Node>, c: Constraints)
    requires multiset(r) == multiset{HardNode, EasyNode}
    requires K.Score(EasyNode, c).ratio > K.Score(HardNode, c).ratio
    requires forall i, j :: 0 <= i < j < |r| ==> K.Score(r[i], c).ratio >= K.Score(r[j], c).ratio
    ensures r == [EasyNode, HardNode]
  {
    assert |r| == 2;
    assert r == [r[0], r[1]];
    assert r[0] in multiset(r) && r[1] in multiset(r);
    if r[0] == HardNode {
      assert false;
    }
    assert multiset(r) == multiset{EasyNode, r[1]};
  }
}
