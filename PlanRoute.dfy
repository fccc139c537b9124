/** The pure parts of the plan endpoint (app/api/plan/route.ts): the label
    given to an average difficulty, the fallback sample graphs served when
    the database has nothing for a topic, and the mapping of database rows
    to graph nodes and edges with their defaults. */
module PlanRoute {
  import opened Wrappers
  import opened SeqUtil
  import opened GraphModel
  import opened TopologicalSort

  // ---------------------------------------------------------------------------
  // Difficulty label (lines 45-51)
  // ---------------------------------------------------------------------------

  /** The five levels the summary reports, from easiest to hardest. */
  datatype Level = Introductory | Beginner | Intermediate | Advanced | Expert

  function Rank(l: Level): nat
  {
    match l
    case Introductory => 0
    case Beginner => 1
    case Intermediate => 2
    case Advanced => 3
    case Expert => 4
  }

  /** The text the endpoint sends for each level. */
  function LabelText(l: Level): string
  {
    match l
    case Introductory => "入門レベル"
    case Beginner => "初級レベル"
    case Intermediate => "中級レベル"
    case Advanced => "上級レベル"
    case Expert => "専門レベル"
  }

  /** `getDifficultyLabel`: the thresholds 1.5, 2.5, 3.5 and 4.5 cut the
      line into five intervals, each closed at its upper end. */
  function DifficultyLabel(avg: real): (l: Level)
    ensures l == Introductory <==> avg <= 1.5
    ensures l == Beginner <==> 1.5 < avg <= 2.5
    ensures l == Intermediate <==> 2.5 < avg <= 3.5
    ensures l == Advanced <==> 3.5 < avg <= 4.5
    ensures l == Expert <==> 4.5 < avg
  {
    if avg <= 1.5 then Introductory
    else if avg <= 2.5 then Beginner
    else if avg <= 3.5 then Intermediate
    else if avg <= 4.5 then Advanced
    else Expert
  }

  /** A harder average never gets an easier label. */
  lemma DifficultyLabelMonotone(a: real, b: real)
    requires a <= b
    ensures Rank(DifficultyLabel(a)) <= Rank(DifficultyLabel(b))
  {
  }

  /** Each whole difficulty from 1 to 5 is named by its own level, and the
      five labels are pairwise different texts. */
  lemma WholeDifficultyLevels(d: int)
    requires 1 <= d <= 5
    ensures Rank(DifficultyLabel(d as real)) == d - 1
    ensures forall l, m :: LabelText(l) == LabelText(m) ==> l == m
  {
    forall l, m | LabelText(l) == LabelText(m) ensures l == m {
      LabelsDiffer(l, m);
    }
  }

  lemma LabelsDiffer(l: Level, m: Level)
    requires LabelText(l) == LabelText(m)
    ensures l == m
  {
  }

  // ---------------------------------------------------------------------------
  // Sample graphs (lines 157-332)
  // ---------------------------------------------------------------------------

  function Res(id: string, title: string, difficulty: int, durationMin: int, costAmount: int, kind: string): Node
  {
    Node(id, title, Some(difficulty), Some(durationMin), Some(costAmount), Some(kind))
  }

  function Dep(source: string, target: string): Edge
  {
    Edge(source, target, Some(1))
  }

  /** The `web-dev` sample (lines 159-219). */
  const WebDev := Graph(
    [ Res("1", "HTML基礎", 1, 180, 0, "tutorial"),
      Res("2", "CSS基礎", 2, 240, 0, "tutorial"),
      Res("3", "JavaScript基礎", 2, 360, 0, "course"),
      Res("4", "React入門", 3, 480, 2000, "course"),
      Res("5", "Node.js基礎", 3, 360, 1500, "course"),
      Res("6", "フルスタック開発", 4, 720, 5000, "project") ],
    [ Dep("1", "2"), Dep("1", "3"), Dep("2", "4"), Dep("3", "4"),
      Dep("3", "5"), Dep("4", "6"), Dep("5", "6") ])

  /** The `ai-ml` sample (lines 220-278). */
  const AiMl := Graph(
    [ Res("101", "Python基礎", 1, 300, 0, "tutorial"),
      Res("102", "数学基礎", 2, 480, 0, "course"),
      Res("103", "NumPy/Pandas", 2, 360, 1000, "course"),
      Res("104", "機械学習入門", 3, 600, 3000, "course"),
      Res("105", "ディープラーニング", 4, 720, 5000, "course"),
      Res("106", "AIプロジェクト", 5, 900, 8000, "project") ],
    [ Dep("101", "103"), Dep("102", "104"), Dep("103", "104"),
      Dep("104", "105"), Dep("105", "106") ])

  /** The `basic-math` sample (lines 279-328). */
  const BasicMath := Graph(
    [ Res("201", "基礎計算", 1, 240, 0, "tutorial"),
      Res("202", "線形代数", 3, 480, 2000, "course"),
      Res("203", "微積分", 3, 600, 2500, "course"),
      Res("204", "統計学", 2, 360, 1500, "course"),
      Res("205", "離散数学", 4, 540, 3000, "course") ],
    [ Dep("201", "202"), Dep("201", "203"), Dep("201", "204"), Dep("202", "205") ])

  /** `getSampleGraphData`: the sample of a known topic, and `web-dev` for any
      other topic id. */
  function SampleGraph(topicId: string): (g: Graph)
    ensures topicId == "ai-ml" ==> g == AiMl
    ensures topicId == "basic-math" ==> g == BasicMath
    ensures topicId != "ai-ml" && topicId != "basic-math" ==> g == WebDev
  {
    if topicId == "web-dev" then WebDev
    else if topicId == "ai-ml" then AiMl
    else if topicId == "basic-math" then BasicMath
    else WebDev
  }

  /** `at[k]` holds the positions in `ids` of the source and of the target
      of edge `k`, the source first. */
  predicate PlacedForward(ids: seq<string>, es: seq<Edge>, at: seq<(nat, nat)>)
  {
    && |at| == |es|
    && forall k :: 0 <= k < |es| ==>
         at[k].0 < at[k].1 < |ids| && ids[at[k].0] == es[k].source && ids[at[k].1] == es[k].target
  }

  /** With distinct ids, edges placed forward point forward wherever their
      ends are found. */
  lemma PlacedEdgesForward(ids: seq<string>, es: seq<Edge>, at: seq<(nat, nat)>)
    requires Distinct(ids) && PlacedForward(ids, es, at)
    ensures EdgesForward(ids, es)
  {
    forall e, i, j | e in es && 0 <= i < |ids| && 0 <= j < |ids| && ids[i] == e.source && ids[j] == e.target
      ensures i < j
    {
      var k :| 0 <= k < |es| && es[k] == e;
      assert ids[at[k].0] == ids[i] && ids[at[k].1] == ids[j];
    }
  }

  /** The ids are unique, every edge joins two nodes of the graph, there is
      no cycle, and the dependency sort succeeds with every node once and
      each prerequisite first. */
  ghost predicate SortsCleanly(g: Graph)
  {
    && Distinct(Ids(g.nodes))
    && (forall e :: e in g.edges ==> e.source in Ids(g.nodes) && e.target in Ids(g.nodes))
    && !Cyclic(g)
    && TopoSort(g).Success?
    && IsTopologicalOrder(TopoSort(g).value, g)
  }

  /** A graph with unique ids whose edges all go from an earlier node to a
      later one sorts cleanly. */
  lemma PlacedSorts(g: Graph, at: seq<(nat, nat)>)
    requires Distinct(Ids(g.nodes)) && PlacedForward(Ids(g.nodes), g.edges, at)
    ensures SortsCleanly(g)
  {
    var ids := Ids(g.nodes);
    forall e | e in g.edges ensures e.source in ids && e.target in ids {
      var k :| 0 <= k < |g.edges| && g.edges[k] == e;
      assert ids[at[k].0] == e.source && ids[at[k].1] == e.target;
    }
    PlacedEdgesForward(ids, g.edges, at);
    OrderedAcyclic(g, ids);
    TopoSortFailsIff(g);
    TopoSortSound(g);
  }

  const WebDevIds: seq<string> := ["1", "2", "3", "4", "5", "6"]
  const AiMlIds: seq<string> := ["101", "102", "103", "104", "105", "106"]
  const BasicMathIds: seq<string> := ["201", "202", "203", "204", "205"]

  lemma WebDevIdsListed()
    ensures Ids(WebDev.nodes) == WebDevIds
  {
  }

  lemma AiMlIdsListed()
    ensures Ids(AiMl.nodes) == AiMlIds
  {
  }

  lemma BasicMathIdsListed()
    ensures Ids(BasicMath.nodes) == BasicMathIds
  {
  }

  lemma WebDevSorts()
    ensures SortsCleanly(WebDev)
  {
    WebDevIdsListed();
    PlacedSorts(WebDev, [(0, 1), (0, 2), (1, 3), (2, 3), (2, 4), (3, 5), (4, 5)]);
  }

  lemma AiMlSorts()
    ensures SortsCleanly(AiMl)
  {
    AiMlIdsListed();
    PlacedSorts(AiMl, [(0, 2), (1, 3), (2, 3), (3, 4), (4, 5)]);
  }

  lemma BasicMathSorts()
    ensures SortsCleanly(BasicMath)
  {
    BasicMathIdsListed();
    PlacedSorts(BasicMath, [(0, 1), (0, 2), (0, 3), (1, 4)]);
  }

  /** Whatever the topic, the sample graph served for it sorts cleanly. */
  lemma SampleGraphSorts(topicId: string)
    ensures SortsCleanly(SampleGraph(topicId))
  {
    if topicId == "ai-ml" {
      AiMlSorts();
    } else if topicId == "basic-math" {
      BasicMathSorts();
    } else {
      WebDevSorts();
    }
  }

  // ---------------------------------------------------------------------------
  // Rows to graph records (lines 124-138)
  // ---------------------------------------------------------------------------

  /** A `resources` row; a column that is null is `None`. */
  datatype ResourceRow = ResourceRow(
    id: string,
    title: Option<string>,
    kind: Option<string>,
    difficulty: Option<int>,
    durationMin: Option<int>,
    costAmount: Option<int>)

  /** A dependency row of the `edges` table. */
  datatype DependencyRow = DependencyRow(fromId: string, toId: string, weight: Option<int>)

  /** `s || d` for a nullable text column: null and the empty text are falsy. */
  function TextOr(o: Option<string>, d: string): string
  {
    if o.Some? && o.value != "" then o.value else d
  }

  /** The node built from one row (lines 124-131). */
  function NodeOfRow(r: ResourceRow): (n: Node)
    ensures n.id == r.id
    ensures Truthy(n.difficulty) && Truthy(n.durationMin) && n.costAmount.Some? && n.resourceType.Some?
    ensures n.resourceType.value != ""
    ensures n.difficulty.value == (if Truthy(r.difficulty) then r.difficulty.value else 1)
    ensures n.durationMin.value == (if Truthy(r.durationMin) then r.durationMin.value else 60)
    ensures n.costAmount.value == (if Truthy(r.costAmount) then r.costAmount.value else 0)
    ensures n.resourceType.value == (if r.kind.Some? && r.kind.value != "" then r.kind.value else "other")
    ensures n.title == (if r.title.Some? then r.title.value else "")
  {
    Node(r.id, TextOr(r.title, ""), Some(OrElse(r.difficulty, 1)), Some(OrElse(r.durationMin, 60)),
         Some(OrElse(r.costAmount, 0)), Some(TextOr(r.kind, "other")))
  }

  /** The edge built from one dependency row (lines 134-138). */
  function EdgeOfRow(r: DependencyRow): (e: Edge)
    ensures e.source == r.fromId && e.target == r.toId
    ensures Truthy(e.weight)
    ensures Truthy(r.weight) ==> e.weight == r.weight
    ensures !Truthy(r.weight) ==> e.weight == Some(1)
  {
    Edge(r.fromId, r.toId, Some(OrElse(r.weight, 1)))
  }

  /** The `resources.map(...)` of lines 124-131, row by row. */
  function NodesOfRows(rows: seq<ResourceRow>): (ns: seq<Node>)
    ensures |ns| == |rows|
    ensures forall i :: 0 <= i < |rows| ==> ns[i] == NodeOfRow(rows[i])
  {
    seq(|rows|, i requires 0 <= i < |rows| => NodeOfRow(rows[i]))
  }

  /** The `(dependencies || []).map(...)` of lines 134-138, row by row. */
  function EdgesOfRows(rows: seq<DependencyRow>): (es: seq<Edge>)
    ensures |es| == |rows|
    ensures forall i :: 0 <= i < |rows| ==> es[i] == EdgeOfRow(rows[i])
  {
    seq(|rows|, i requires 0 <= i < |rows| => EdgeOfRow(rows[i]))
  }

  /** The row a node would be stored as. */
  function RowOfNode(n: Node): ResourceRow
  {
    ResourceRow(n.id, Some(n.title), n.resourceType, n.difficulty, n.durationMin, n.costAmount)
  }

  /** Filling the defaults is idempotent: storing a mapped node and mapping
      it again gives the same node. */
  lemma NodeOfRowIdempotent(r: ResourceRow)
    ensures NodeOfRow(RowOfNode(NodeOfRow(r))) == NodeOfRow(r)
  {
  }

  /** A mapped node has a defined duration, so the path totals (which count
      an unset duration as 0) and the knapsack (which charges it as 60)
      agree on its length, and it is always rated. */
  lemma MappedNodesAgree(rows: seq<ResourceRow>)
    ensures forall n :: n in NodesOfRows(rows) ==>
      OrElse(n.durationMin, 0) == OrElse(n.durationMin, 60) && Truthy(n.difficulty)
  {
    forall n | n in NodesOfRows(rows)
      ensures OrElse(n.durationMin, 0) == OrElse(n.durationMin, 60) && Truthy(n.difficulty)
    {
      var i :| 0 <= i < |rows| && NodesOfRows(rows)[i] == n;
      assert n == NodeOfRow(rows[i]);
    }
  }
}
