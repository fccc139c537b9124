/** The records of lib/graph-utils.ts: resource nodes, dependency edges,
    graphs, constraint sets and learning paths, together with the JavaScript
    truthiness tests the code applies to their optional fields. */
module GraphModel {
  import opened Wrappers
  import opened SeqUtil

  /** A learning resource (`GraphNode`). Optional properties are `None` when `undefined`. */
  datatype Node = Node(
    id: string,
    title: string,
    difficulty: Option<int>,
    durationMin: Option<int>,
    costAmount: Option<int>,
    resourceType: Option<string>)

  /** A dependency `source -> target`: the source must be learnt first (`GraphEdge`). */
  datatype Edge = Edge(source: string, target: string, weight: Option<int>)

  datatype Graph = Graph(nodes: seq<Node>, edges: seq<Edge>)

  /** `LearningConstraints`; an absent id list behaves as an empty one. */
  datatype Constraints = Constraints(
    maxDurationHours: Option<real>,
    maxCostAmount: Option<real>,
    maxDifficulty: Option<real>,
    requiredNodes: seq<string>,
    excludedNodes: seq<string>)

  /** The three checks of a learning path, in the order they are reported. */
  datatype Violation = TimeExceeded | CostExceeded | DifficultyTooHigh

  /** `LearningPath`: the violation messages are represented by their kind. */
  datatype LearningPath = LearningPath(
    nodes: seq<Node>,
    totalDuration: int,
    totalCost: int,
    averageDifficulty: real,
    isValid: bool,
    violatedConstraints: seq<Violation>)

  /** JavaScript truthiness of an optional number: `undefined` and `0` are falsy. */
  predicate Truthy(o: Option<int>) {
    o.Some? && o.value != 0
  }

  predicate TruthyReal(o: Option<real>) {
    o.Some? && o.value != 0.0
  }

  /** The expression `o || d`. */
  function OrElse(o: Option<int>, d: int): int {
    if Truthy(o) then o.value else d
  }

  /** The ids of `ns`, position by position. */
  function Ids(ns: seq<Node>): (r: seq<string>)
    ensures |r| == |ns|
    ensures forall i :: 0 <= i < |ns| ==> r[i] == ns[i].id
  {
    seq(|ns|, i requires 0 <= i < |ns| => ns[i].id)
  }

  lemma IdsAppend(a: seq<Node>, b: seq<Node>)
    ensures Ids(a + b) == Ids(a) + Ids(b)
  {
  }

  lemma IdsPrefix(ns: seq<Node>, k: nat)
    requires k <= |ns|
    ensures Ids(ns[..k]) == Ids(ns)[..k]
  {
  }

  /** `new Map(ns.map(n => [n.id, n]))`: every id maps to the LAST node carrying it. */
  function NodeMap(ns: seq<Node>): (m: map<string, Node>)
    ensures forall k :: k in m <==> k in Ids(ns)
    ensures forall k :: k in m ==> m[k].id == k && m[k] in ns
  {
    if ns == [] then map[]
    else
      var m := NodeMap(ns[..|ns| - 1]);
      assert Ids(ns) == Ids(ns[..|ns| - 1]) + [ns[|ns| - 1].id];
      assert forall n :: n in ns[..|ns| - 1] ==> n in ns;
      m[ns[|ns| - 1].id := ns[|ns| - 1]]
  }

  /** When ids are unique, the map sends each node's id back to that node. */
  lemma {:induction false} NodeMapDistinct(ns: seq<Node>)
    requires Distinct(Ids(ns))
    ensures forall i :: 0 <= i < |ns| ==> NodeMap(ns)[ns[i].id] == ns[i]
    decreases |ns|
  {
    if ns != [] {
      var ns' := ns[..|ns| - 1];
      assert Ids(ns') == Ids(ns)[..|ns| - 1];
      NodeMapDistinct(ns');
      forall i | 0 <= i < |ns| ensures NodeMap(ns)[ns[i].id] == ns[i] {
        if i < |ns| - 1 {
          assert ns[i].id != ns[|ns| - 1].id by { assert Ids(ns)[i] != Ids(ns)[|ns| - 1]; }
          assert ns'[i] == ns[i];
        }
      }
    }
  }
}
