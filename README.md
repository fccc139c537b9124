# Learning-path engine, modelled in Dafny

This project models the learning-path engine of a study-planning web
service. The engine takes a graph of learning resources: nodes with an
optional difficulty, duration and cost, and dependency edges
`source -> target` meaning "learn `source` first". It then does four things:

- it prunes the graph against per-resource caps derived from the user's
  limits, puts back required resources and removes excluded ones
  (`pruneGraph`);
- it orders what is left with Kahn's algorithm and fails on a cycle
  (`topologicalSort`, `hasCycles`);
- when a time or cost limit is set, it selects resources greedily by value
  per weight (`knapsackOptimization`);
- it totals the chosen path and reports which limits it breaks
  (`createLearningPath`, `findLearningPaths`, `optimizeLearningPath`).

It also answers neighbour queries (`getPrerequisites`, `getDependents`).

Three pure pieces of the plan endpoint are modelled as well:

- the label it gives an average difficulty;
- the sample graphs it falls back to;
- the defaults it fills in when it turns database rows into nodes and edges.

Each module follows one part of the source:

| module | models |
|---|---|
| `Wrappers`, `SeqUtil` | `Option`/`Result` and generic sequence facts |
| `GraphModel` | the records, JavaScript truthiness (`undefined` and `0` are falsy), `x \|\| d`, and `new Map(...)` built from nodes |
| `TopologicalSort` | `topologicalSort` as a method over maps and a FIFO queue, proved equal to a functional mirror `TopoSort`; order, permutation and failure lemmas |
| `Pruning` | `pruneGraph` as a method, proved equal to `Prune` |
| `PathAssembly` | `createLearningPath` as a method, proved equal to `PathOf` |
| `Knapsack` | `knapsackOptimization`: scoring, an in-place stable sort on an array, the greedy pass |
| `Neighbours` | `getPrerequisites` and `getDependents` as methods, proved equal to one edge scan `Hop` |
| `Pipeline` | `findLearningPaths` and `optimizeLearningPath`, with end-to-end properties |
| `PlanRoute` | `getDifficultyLabel`, `getSampleGraphData` and the row mapping of the plan endpoint |

A thrown error becomes `Failure(CycleDetected)`. A JavaScript number
becomes an `int` or a `real`: durations, costs and difficulties are
integers, and limits and ratios are reals. `Infinity` is `None`.

## Where the documented behaviour and the code differ

The model follows the code in each case.

- Two-hour example: a 60-minute node A, a 120-minute node B, an edge
  `A -> B` and a two-hour limit.
  - The documented outcome is the path `[A, B]`, flagged as too long.
  - The code gives an empty, valid path. Pruning caps each node at 30% of
    120 minutes, which is 36 minutes, so both nodes go
    (`Pipeline.TwoHourLimitPrunesBoth`).
- The selection is not put back into dependency order.
  - The documentation says the optimiser re-threads the selected nodes
    through topological order.
  - The code returns them in descending ratio order
    (`Knapsack.KnapsackOrder`), so an optimised path need not respect the
    edges (`Pipeline.OptimizedPathBreaksEdge`). The source's own comment on
    `optimizeLearningPath` says the prerequisites must be checked separately.
- Duplicate ids count as a failure.
  - `topologicalSort` also throws when two nodes share an id, because the
    maps then hold fewer entries than there are nodes.
  - So `hasCycles` is true for such a graph even without a cycle
    (`TopologicalSort.TopoSortFailsIff`).
- The two budgets count an unset duration differently.
  - The selector charges it as 60 minutes.
  - The path totals count it as 0.
  - `Pipeline.OptimizeKeepsBudgets` shows that a non-empty optimised path
    therefore never reports a time or cost violation.

## Model

| member | source | states |
|---|---|---|
| `GraphModel.NodeMap` | lib/graph-utils.ts:312 | the map built from the nodes has exactly the node ids as keys, and sends each id to a node carrying it |
| `GraphModel.NodeMapDistinct` | lib/graph-utils.ts:55-62 | with unique ids, the map sends each node's id back to that very node |
| `TopologicalSort.Keys` | lib/graph-utils.ts:58-62 | the iteration order of a Map filled in node order holds every node id exactly once and is no longer than the node list |
| `TopologicalSort.KeysLength` | lib/graph-utils.ts:58-62 | the map has one entry per node exactly when the node ids are unique |
| `TopologicalSort.KeysOfDistinct` | lib/graph-utils.ts:58-62 | with unique ids the map's key order is the node order |
| `TopologicalSort.Succs` | lib/graph-utils.ts:65-71 | an adjacency list only ever holds node ids |
| `TopologicalSort.InCountSplit` | lib/graph-utils.ts:86-92 | emitting a node lowers another node's pending in-degree by the number of edges between them |
| `TopologicalSort.InCountZero` | lib/graph-utils.ts:73-79 | a pending in-degree of 0 means every valid edge into the node comes from an emitted node |
| `TopologicalSort.InCountPositive` | lib/graph-utils.ts:73-79 | a positive pending in-degree yields a valid edge into the node from a node not yet emitted |
| `TopologicalSort.ZeroDegree` | lib/graph-utils.ts:77-79 | the initial queue holds exactly the ids of degree 0, without repeats when the keys have none |
| `TopologicalSort.Relax` | lib/graph-utils.ts:88-92 | relaxing the neighbours keeps the key set of the in-degree map |
| `TopologicalSort.RelaxDegrees` | lib/graph-utils.ts:88-92 | each in-degree drops by the number of times its node occurs among the neighbours |
| `TopologicalSort.RelaxKeepsQueue` | lib/graph-utils.ts:88-92 | relaxing only appends to the queue |
| `TopologicalSort.RelaxEnqueues` | lib/graph-utils.ts:88-92 | relaxing enqueues, once each, exactly the neighbours whose degree reaches 0 |
| `TopologicalSort.InitInv` | lib/graph-utils.ts:52-79 | the state before the main loop satisfies the loop invariant: degrees count the pending valid edges, the queue holds the degree-0 ids once each, nothing has been emitted |
| `TopologicalSort.StepInv` | lib/graph-utils.ts:81-93 | one turn of the loop keeps that invariant, and emitted plus queued ids never outnumber the keys |
| `TopologicalSort.StepQueue` | lib/graph-utils.ts:81-93 | after one turn each id is emitted or queued at most once, exactly when its degree is 0 |
| `TopologicalSort.StepOrder` | lib/graph-utils.ts:81-93 | after one turn every emitted node still follows all of its emitted predecessors |
| `TopologicalSort.RunEnds` | lib/graph-utils.ts:81-93 | the loop ends with an empty queue and the invariant intact |
| `TopologicalSort.HasCycles` | lib/graph-utils.ts:102-109 | `hasCycles` is true exactly when the node ids repeat or the graph has a cycle |
| `TopologicalSort.OrderedAcyclic` | lib/graph-utils.ts:44-48 | a listing of all node ids in which every edge points forward rules out a cycle |
| `TopologicalSort.TopoSortSound` | lib/graph-utils.ts:95-98 | on success the output holds every input node exactly once with each edge's source first, and the ids were unique |
| `TopologicalSort.EmittedPermutation` | lib/graph-utils.ts:81-98 | emitting every id once as its map entry emits a permutation of the nodes |
| `TopologicalSort.SuccessAcyclic` | lib/graph-utils.ts:95-98 | a graph the sort succeeds on has no cycle |
| `TopologicalSort.SuccessEmitsAll` | lib/graph-utils.ts:95-98 | on success every id is unique and emitted exactly once, as its map entry, after its predecessors |
| `TopologicalSort.OrderForward` | lib/graph-utils.ts:81-93 | in the emitted order every edge between emitted ids points forward |
| `TopologicalSort.TopoSortFailsIff` | lib/graph-utils.ts:95-96 | the sort throws exactly when node ids repeat or the edges between present nodes form a cycle |
| `TopologicalSort.FailureCycle` | lib/graph-utils.ts:95-96 | a failed run with unique ids exhibits a cycle: a non-empty id set in which each member has an incoming edge from the set |
| `TopologicalSort.StuckIds` | lib/graph-utils.ts:81-96 | after a failed run some id was never emitted, and each such id still has a pending incoming edge |
| `TopologicalSort.NoEdgesKeepsOrder` | lib/graph-utils.ts:49-99 | without edges and with unique ids the sort returns the nodes in input order |
| `TopologicalSort.InitQueueInOrder` | lib/graph-utils.ts:77-79 | the initial queue lists the ids with no incoming valid edge, in the order the ids first occur |
| `TopologicalSort.TopoSortSameEffect` | lib/graph-utils.ts:65-93 | the sort sees edges only through the adjacency lists and in-degrees they produce |
| `TopologicalSort.IgnoresDanglingEdge` | lib/graph-utils.ts:66-70 | an edge with an endpoint that is not a node id changes nothing |
| `TopologicalSort.InitMaps` | lib/graph-utils.ts:58-62 | the initialisation loop gives every node id an empty adjacency list and degree 0, fills the node map, and records the order of the keys |
| `TopologicalSort.AddEdges` | lib/graph-utils.ts:65-71 | the edge loop yields the adjacency lists and the count of valid incoming edges per id |
| `TopologicalSort.ZeroDegreeIds` | lib/graph-utils.ts:77-79 | the queue is the degree-0 ids in key order |
| `TopologicalSort.RelaxNeighbors` | lib/graph-utils.ts:88-92 | the neighbour loop decrements and enqueues as `Relax` does |
| `TopologicalSort.Drain` | lib/graph-utils.ts:81-93 | the main loop emits what the functional run emits |
| `TopologicalSort.TopologicalSort` | lib/graph-utils.ts:49-99 | the method returns `TopoSort(g)`, whose properties are the lemmas above |
| `Pruning.CapsMeaning` | lib/graph-utils.ts:120-141 | passing the caps in force means: within the difficulty limit, within half the budget, within 30% of the time budget in minutes, each only when that limit is defined and the value is truthy |
| `Pruning.Keep` | lib/graph-utils.ts:120-141 | the filters keep exactly the nodes that pass every cap in force |
| `Pruning.KeepMore` | lib/graph-utils.ts:120-141 | filtering once more by one cap is filtering by the longer cap list |
| `Pruning.KeepInOrder` | lib/graph-utils.ts:120-141 | filtering keeps input order |
| `Pruning.Find` | lib/graph-utils.ts:147 | `find` fails exactly when no node carries the id, and otherwise returns a node carrying it |
| `Pruning.FindFirst` | lib/graph-utils.ts:147 | `find` returns the first node carrying the id |
| `Pruning.RestoreAppends` | lib/graph-utils.ts:144-151 | the required-node loop only appends, and each appended node is the first original node of a required id that no kept node carries |
| `Pruning.RestoreOnce` | lib/graph-utils.ts:144-151 | the appended ids are pairwise distinct and in `requiredNodes` order |
| `Pruning.RestoreCovers` | lib/graph-utils.ts:144-151 | every required id that no kept node carries and some original node does gets its first original node put back |
| `Pruning.DropExcludedMembers` | lib/graph-utils.ts:154-157 | exclusion keeps exactly the nodes whose id is not excluded |
| `Pruning.DropExcludedInOrder` | lib/graph-utils.ts:154-157 | exclusion keeps order |
| `Pruning.InducedEdges` | lib/graph-utils.ts:159-163 | the kept edges are exactly those with both endpoints among the surviving ids |
| `Pruning.InducedEdgesInOrder` | lib/graph-utils.ts:159-163 | the kept edges keep their order |
| `Pruning.PruneGraph` | lib/graph-utils.ts:112-169 | the method returns `Prune(g, c)` |
| `Pruning.RestoreRequired` | lib/graph-utils.ts:144-151 | the loop returns `Restore(kept, required, nodes)` |
| `Pruning.KeepAll` | lib/graph-utils.ts:120-141 | with no cap in force every node is kept |
| `Pruning.DropNothing` | lib/graph-utils.ts:154-157 | with nothing excluded every node is kept |
| `Pruning.PruneNodesIff` | lib/graph-utils.ts:112-157 | a node survives exactly when its id is not excluded and it either passes every cap or is the first original node of a required id no capped-in node carries |
| `Pruning.ExcludedNeverSurvive` | lib/graph-utils.ts:153-157 | no excluded id survives, whatever is required |
| `Pruning.PruneNodesOrder` | lib/graph-utils.ts:117-157 | the output lists the capped-in nodes in input order, then the restored required nodes in required order, one per id, with excluded ids removed from both |
| `Pruning.PruneEdges` | lib/graph-utils.ts:159-168 | the pruned edges are the input edges, in order, whose endpoints both survive |
| `Pruning.PruneIdempotent` | lib/graph-utils.ts:112-169 | pruning an already pruned graph with the same constraints returns it unchanged: restored nodes fail some cap, so the second pass keeps the same capped-in nodes and restores the same nodes in the same order |
| `Pruning.SecondKept` | lib/graph-utils.ts:120-151 | filtering the pruned nodes again by the caps keeps exactly the non-excluded capped-in nodes, because every restored node fails some cap |
| `Pruning.DropRestorePrefix` | lib/graph-utils.ts:144-157 | restoring the required ids and then excluding gives what the second pass restores from the pruned nodes |
| `PathAssembly.SumAppend` | lib/graph-utils.ts:196-204 | a total over a concatenation is the sum of the parts' totals |
| `PathAssembly.SumPermutation` | lib/graph-utils.ts:196-204 | a total does not depend on the node order |
| `PathAssembly.RatedCount` | lib/graph-utils.ts:200-203 | the count of rated nodes is at most the node count, and is 0 exactly when no node has a truthy difficulty |
| `PathAssembly.RatedCountIsSum` | lib/graph-utils.ts:200-203 | the rated count is the total of the per-node indicator |
| `PathAssembly.Violations` | lib/graph-utils.ts:210-231 | each violation is reported exactly when its limit is truthy and exceeded, in the order time, cost, difficulty |
| `PathAssembly.Accumulate` | lib/graph-utils.ts:190-204 | the loop yields the totals of duration and cost (unset counts 0), the sum of truthy difficulties and the number of rated nodes |
| `PathAssembly.CreateLearningPath` | lib/graph-utils.ts:186-241 | the method returns `PathOf(nodes, c)` |
| `PathAssembly.CheckConstraints` | lib/graph-utils.ts:208-231 | the checks return `Violations(...)` |
| `PathAssembly.PathValidIff` | lib/graph-utils.ts:233-240 | the path keeps its nodes, and is valid exactly when every truthy limit is met |
| `PathAssembly.PathTotalsAppend` | lib/graph-utils.ts:196-204 | the totals of a concatenated path are the sums of the parts' totals |
| `PathAssembly.PathPermutation` | lib/graph-utils.ts:196-231 | reordering the nodes changes neither totals, average nor violations |
| `PathAssembly.DifficultySumBounds` | lib/graph-utils.ts:200-203 | difficulties within `[lo, hi]` bound their sum by `lo` and `hi` times the rated count |
| `PathAssembly.AverageWithin` | lib/graph-utils.ts:206-207 | when some difficulty is truthy, the average lies within any bounds of the truthy difficulties (1 to 5 for difficulties rated 1 to 5) |
| `Knapsack.Scores` | lib/graph-utils.ts:271-282 | one score per node, in node order |
| `Knapsack.ScoresOfNodes` | lib/graph-utils.ts:271-282 | every score is the score of its own node, and the nodes read back in order |
| `Knapsack.EasierRanksHigher` | lib/graph-utils.ts:274-279 | at equal weight, the easier node gets the better ratio |
| `Knapsack.LighterRanksHigher` | lib/graph-utils.ts:276-279 | at equal positive value, the lighter node gets the better ratio |
| `Knapsack.InsertMultiset` | lib/graph-utils.ts:285 | inserting adds exactly the one item |
| `Knapsack.SortDesc` | lib/graph-utils.ts:285 | the sort permutes its input |
| `Knapsack.InsertSorted` | lib/graph-utils.ts:285 | inserting into a descending list keeps it descending |
| `Knapsack.SortDescSorted` | lib/graph-utils.ts:285 | the sort's output is in descending ratio order |
| `Knapsack.SortDescStable` | lib/graph-utils.ts:285 | items of equal ratio keep their input order (the sort is stable) |
| `Knapsack.SortedAgree` | lib/graph-utils.ts:285 | two descending orders that agree on every group of equal ratios are the same |
| `Knapsack.StableSortUnique` | lib/graph-utils.ts:285 | any descending order that keeps equal ratios in input order is the sort's output |
| `Knapsack.SortDescNodes` | lib/graph-utils.ts:285 | sorting only reorders the nodes |
| `Knapsack.SortByRatio` | lib/graph-utils.ts:285 | the in-place sort leaves the array holding the stable descending sort of its old contents |
| `Knapsack.InsertBack` | lib/graph-utils.ts:285 | one sort step inserts an item into the sorted run after it, leaving the prefix alone |
| `Knapsack.ShiftLarger` | lib/graph-utils.ts:285 | the shift moves exactly the leading items with a strictly larger ratio one place left |
| `Knapsack.InsertAfterLarger` | lib/graph-utils.ts:285 | insertion passes exactly the leading items with a strictly larger ratio |
| `Knapsack.GreedyInvariant` | lib/graph-utils.ts:287-301 | the running totals are the totals of the items taken, the items taken keep input order, and once one is taken both budgets hold |
| `Knapsack.GreedyTakesAll` | lib/graph-utils.ts:287-301 | when all items together fit both budgets (no negative duration or cost), the pass takes them all |
| `Knapsack.SelectGreedy` | lib/graph-utils.ts:287-303 | the loop over the sorted array returns the nodes the functional pass takes |
| `Knapsack.KnapsackOptimization` | lib/graph-utils.ts:264-304 | the method returns `Knapsack(nodes, c)` |
| `Knapsack.ChargedSums` | lib/graph-utils.ts:271-282 | the minutes and costs the pass charges are node totals, with an unset duration counted as 60 |
| `Knapsack.KnapsackDrawsFromInput` | lib/graph-utils.ts:264-304 | no node is selected more often than it occurs in the input |
| `Knapsack.KnapsackWithinBudget` | lib/graph-utils.ts:268-303 | a non-empty selection keeps within the hour limit in minutes (unset duration as 60) and within the budget |
| `Knapsack.KnapsackOrder` | lib/graph-utils.ts:284-303 | the selection is listed from the best ratio to the worst |
| `Knapsack.KnapsackStable` | lib/graph-utils.ts:284-303 | selected nodes of equal ratio keep their input order: for each ratio the selection is a subsequence of the input |
| `Knapsack.KnapsackTakesAll` | lib/graph-utils.ts:264-304 | when all nodes fit both budgets, every node is selected |
| `Neighbours.GetPrerequisites` | lib/graph-utils.ts:307-321 | the method returns the edge scan's prerequisites |
| `Neighbours.GetDependents` | lib/graph-utils.ts:324-335 | the method returns the edge scan's dependents |
| `Neighbours.HopSingle` | lib/graph-utils.ts:314-318 | one edge reports at most the node at its far end |
| `Neighbours.HopAppend` | lib/graph-utils.ts:314-318 | results follow edge order, and an edge listed twice reports its node twice |
| `Neighbours.HopMembers` | lib/graph-utils.ts:314-318 | a node is reported exactly when an edge joins the queried id to an id the map knows, and the map sends that id to it |
| `Neighbours.PrerequisitesMembers` | lib/graph-utils.ts:307-321 | the prerequisites are exactly the mapped sources of edges into the node, all nodes of the graph |
| `Neighbours.DependentsMembers` | lib/graph-utils.ts:324-335 | the dependents are exactly the mapped targets of edges out of the node, all nodes of the graph |
| `Neighbours.PrerequisiteDependentDual` | lib/graph-utils.ts:307-335 | with unique ids, `a` is a prerequisite of `b` exactly when `b` is a dependent of `a`, exactly when an edge `a -> b` exists |
| `Pipeline.FindLearningPaths` | lib/graph-utils.ts:172-183 | `findLearningPaths` throws exactly when `hasCycles` holds for the pruned graph, and otherwise returns one path listing the pruned nodes in dependency order |
| `Pipeline.Optimizes` | lib/graph-utils.ts:256 | the selector runs exactly when one of its two budgets (minutes, cost) is finite |
| `Pipeline.OptimizeLearningPath` | lib/graph-utils.ts:248-261 | `optimizeLearningPath` throws exactly when `hasCycles` holds for the pruned graph; otherwise its path draws only on the pruned nodes, and without a truthy time or cost limit it lists them in dependency order |
| `Pipeline.FailsIff` | lib/graph-utils.ts:172-183 | both entry points fail exactly when the pruned graph repeats an id or has a cycle, and they fail together |
| `Pipeline.FindSound` | lib/graph-utils.ts:172-183 | on success there is one path, in topological order of the pruned graph, valid exactly when every truthy limit is met |
| `Pipeline.NoExcludedNodes` | lib/graph-utils.ts:153-157 | no path of either entry point holds an excluded id |
| `Pipeline.OptimizeWithoutBudget` | lib/graph-utils.ts:255-260 | without a truthy time or cost limit the optimised path is the path `findLearningPaths` returns |
| `Pipeline.OptimizeKeepsBudgets` | lib/graph-utils.ts:255-258 | a non-empty optimised path under a time or cost limit never reports a time or cost violation |
| `Pipeline.OptimizeKeepsCaps` | lib/graph-utils.ts:248-261 | every node of the optimised path that was not required passes every per-node cap |
| `Pipeline.TwoHourLimitPrunesBoth` | lib/graph-utils.ts:135-141 | a two-hour limit prunes a one-hour and a two-hour node, leaving an empty, valid path |
| `Pipeline.OptimizedPathBreaksEdge` | lib/graph-utils.ts:243-261 | a hard node that an easy node depends on comes after it in the optimised path, both fitting a ten-hour budget: the prerequisite check has to happen elsewhere |
| `Pipeline.EmptyGraphPath` | lib/graph-utils.ts:248-261 | an empty graph gives an empty, valid path with zero totals and average 0 when no limit is negative |
| `Pruning.PruneKeptMembers` | lib/graph-utils.ts:120-141 | the capped-in nodes are exactly the input nodes that pass every cap |
| `PlanRoute.DifficultyLabel` | app/api/plan/route.ts:45-51 | the labels partition the line at 1.5, 2.5, 3.5 and 4.5, each interval closed above |
| `PlanRoute.DifficultyLabelMonotone` | app/api/plan/route.ts:45-51 | a harder average never gets an easier label |
| `PlanRoute.WholeDifficultyLevels` | app/api/plan/route.ts:45-51 | difficulty `d` from 1 to 5 gets the `d`-th label, and the five label texts differ |
| `PlanRoute.SampleGraph` | app/api/plan/route.ts:157-332 | the known topics get their own sample, and every other topic id gets `web-dev` |
| `PlanRoute.PlacedSorts` | app/api/plan/route.ts:157-332 | a graph with unique ids whose edges all run from an earlier to a later node sorts without error into a topological order |
| `PlanRoute.SampleGraphSorts` | app/api/plan/route.ts:157-332 | every sample graph has unique ids, edges between its own nodes, no cycle, and sorts successfully |
| `PlanRoute.NodeOfRow` | app/api/plan/route.ts:124-131 | a mapped node has every field defined, with difficulty 1, duration 60, cost 0, type `other` and title empty when the column is falsy |
| `PlanRoute.EdgeOfRow` | app/api/plan/route.ts:134-138 | a mapped edge keeps its endpoints and has a truthy weight, 1 when the column is falsy |
| `PlanRoute.NodesOfRows` | app/api/plan/route.ts:124-131 | rows map to nodes one for one, in order |
| `PlanRoute.EdgesOfRows` | app/api/plan/route.ts:134-138 | dependency rows map to edges one for one, in order |
| `PlanRoute.NodeOfRowIdempotent` | app/api/plan/route.ts:124-131 | filling the defaults again changes nothing |
| `PlanRoute.MappedNodesAgree` | app/api/plan/route.ts:124-131 | a mapped node is always rated, and the path totals and the selector agree on its duration |

## Left out

- Database queries, the HTTP handlers (POST and GET), the control flow of `fetchGraphData` and everything in app/api/graph/route.ts are left out. They are network I/O and request plumbing.
- The React and D3 components and the authentication code are left out. They are user interface and foreign calls.
- Violation messages are reduced to their kind (`TimeExceeded`, `CostExceeded`, `DifficultyTooHigh`). Their formatted text (`toFixed`, `toLocaleString`) is not modelled.
- IEEE floating point is not modelled. Limits, ratios and averages are exact reals. Durations, costs and difficulties are integers. `Infinity` is `None`. `NaN` cannot arise.
- `Array.prototype.sort` is modelled as a stable sort: an insertion sort in place on an array (`Knapsack.SortByRatio`). Any stable sort gives the same result (`Knapsack.StableSortUnique`). Its comparisons and running time are not modelled.
- The `weight` of an edge is carried but unused, as in the engine.
- `PlanRoute.SampleGraph`: a topic id naming an inherited property of a plain JavaScript object, such as `constructor` or `toString`, makes the source return that property instead of the `web-dev` sample. The model returns `web-dev` for it.
- `PlanRoute.NodeOfRow`: the `String(...)` conversions of non-string ids and titles are not modelled. Ids and titles are already text, and numeric columns are integers.
- The summary the endpoint sends (`Math.round` of the hours, the currency format) is left out. It is presentation.
