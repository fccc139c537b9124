/** Kahn's algorithm as `topologicalSort` and `hasCycles` implement it
    (lib/graph-utils.ts:49-109).

    `TopoSort` is the algorithm written as functions over its state (the FIFO
    queue, the emitted nodes and the in-degree map); the method
    `TopologicalSort` runs the same loops with mutable maps and is proved equal
    to it. The lemmas at the end state what the algorithm guarantees: on
    success every node exactly once in dependency order, and failure exactly
    when ids repeat or the edges contain a cycle. */
module TopologicalSort {
  import opened Wrappers
  import opened SeqUtil
  import opened GraphModel

  /** The `Error('Graph contains cycles ...')` thrown at line 96. */
  datatype SortError = CycleDetected

  // ---------------------------------------------------------------------------
  // The maps built before the main loop
  // ---------------------------------------------------------------------------

  /** The iteration order of a JavaScript `Map` filled with `set(node.id, …)`
      in node order: each id once, where it first occurs. */
  function Keys(ns: seq<Node>): (ks: seq<string>)
    ensures forall k :: k in ks <==> k in Ids(ns)
    ensures Distinct(ks)
    ensures |ks| <= |ns|
  {
    if ns == [] then []
    else
      var ks := Keys(ns[..|ns| - 1]);
      assert Ids(ns) == Ids(ns[..|ns| - 1]) + [ns[|ns| - 1].id];
      if ns[|ns| - 1].id in ks then ks
      else
        DistinctAppend(ks, [ns[|ns| - 1].id]);
        ks + [ns[|ns| - 1].id]
  }

  /** The map has one key per node exactly when the node ids are unique. */
  lemma {:induction false} KeysLength(ns: seq<Node>)
    ensures |Keys(ns)| == |ns| <==> Distinct(Ids(ns))
    decreases |ns|
  {
    if Distinct(Ids(ns)) {
      KeysOfDistinct(ns);
    } else {
      var ids := Ids(ns);
      var i, j :| 0 <= i < j < |ids| && ids[i] == ids[j];
      var rest := RemoveAt(ids, j);
      assert rest[i] == ids[i];
      DistinctLength(Keys(ns), rest);
    }
  }

  lemma {:induction false} KeysOfDistinct(ns: seq<Node>)
    requires Distinct(Ids(ns))
    ensures Keys(ns) == Ids(ns)
    decreases |ns|
  {
    if ns != [] {
      var ns' := ns[..|ns| - 1];
      assert Ids(ns') == Ids(ns)[..|ns| - 1];
      KeysOfDistinct(ns');
      assert Ids(ns) == Ids(ns') + [ns[|ns| - 1].id];
    }
  }

  /** An edge counts only when both endpoints are node ids (line 67). */
  predicate Valid(e: Edge, ks: seq<string>) {
    e.source in ks && e.target in ks
  }

  /** `adjList.get(u)` after the edge loop: the targets of the valid edges
      leaving `u`, in edge order, repeated once per parallel edge. */
  function Succs(es: seq<Edge>, ks: seq<string>, u: string): (vs: seq<string>)
    ensures forall v :: v in vs ==> v in ks
  {
    if es == [] then []
    else
      var e := es[|es| - 1];
      Succs(es[..|es| - 1], ks, u) + (if e.source == u && Valid(e, ks) then [e.target] else [])
  }

  /** The number of valid edges into `v` whose source has not been emitted yet. */
  function InCount(es: seq<Edge>, ks: seq<string>, v: string, done: seq<string>): nat
  {
    if es == [] then 0
    else
      var e := es[|es| - 1];
      InCount(es[..|es| - 1], ks, v, done)
        + (if e.target == v && Valid(e, ks) && e.source !in done then 1 else 0)
  }

  /** Emitting `u` lowers the in-degree of `v` by the number of edges `u -> v`. */
  lemma {:induction false} InCountSplit(es: seq<Edge>, ks: seq<string>, u: string, v: string, done: seq<string>)
    requires u !in done
    ensures InCount(es, ks, v, done) == InCount(es, ks, v, done + [u]) + Count(Succs(es, ks, u), v)
    decreases |es|
  {
    if es != [] {
      var es' := es[..|es| - 1];
      var e := es[|es| - 1];
      InCountSplit(es', ks, u, v, done);
      CountAppend(Succs(es', ks, u), if e.source == u && Valid(e, ks) then [e.target] else [], v);
    }
  }

  lemma {:induction false} InCountZero(es: seq<Edge>, ks: seq<string>, v: string, done: seq<string>)
    requires InCount(es, ks, v, done) == 0
    ensures forall e :: e in es && e.target == v && Valid(e, ks) ==> e.source in done
    decreases |es|
  {
    if es != [] {
      InCountZero(es[..|es| - 1], ks, v, done);
      SplitLast(es);
    }
  }

  lemma {:induction false} InCountPositive(es: seq<Edge>, ks: seq<string>, v: string, done: seq<string>) returns (e: Edge)
    requires InCount(es, ks, v, done) > 0
    ensures e in es && e.target == v && Valid(e, ks) && e.source !in done
    decreases |es|
  {
    var last := es[|es| - 1];
    if last.target == v && Valid(last, ks) && last.source !in done {
      e := last;
    } else {
      e := InCountPositive(es[..|es| - 1], ks, v, done);
    }
  }

  lemma EdgePrefixStep(es: seq<Edge>, ks: seq<string>, i: nat)
    requires i < |es|
    ensures forall u :: (Succs(es[..i + 1], ks, u)
      == Succs(es[..i], ks, u) + (if es[i].source == u && Valid(es[i], ks) then [es[i].target] else []))
    ensures forall v :: (InCount(es[..i + 1], ks, v, [])
      == InCount(es[..i], ks, v, []) + (if es[i].target == v && Valid(es[i], ks) then 1 else 0))
  {
    assert es[..i + 1][..i] == es[..i];
  }

  /** The in-degree map of lines 58-71. */
  function InitDegrees(g: Graph): (deg: map<string, int>)
  {
    DegreeMap(g.edges, Ids(g.nodes))
  }

  /** The ids of `ks` whose degree is 0, in the order of `ks` (lines 77-79). */
  function ZeroDegree(ks: seq<string>, deg: map<string, int>): (q: seq<string>)
    requires forall k :: k in ks ==> k in deg
    ensures forall k :: k in q <==> k in ks && deg[k] == 0
    ensures Distinct(ks) ==> Distinct(q)
  {
    if ks == [] then []
    else
      var q := ZeroDegree(ks[..|ks| - 1], deg);
      var k := ks[|ks| - 1];
      SplitLast(ks);
      if deg[k] == 0 then q + [k] else q
  }

  function InitQueue(g: Graph): seq<string>
  {
    ZeroDegree(Keys(g.nodes), InitDegrees(g))
  }

  // ---------------------------------------------------------------------------
  // The main loop (lines 81-93)
  // ---------------------------------------------------------------------------

  /** The `neighbors.forEach` of lines 88-92: decrement each neighbour's
      in-degree and enqueue it when the degree reaches 0. */
  function Relax(vs: seq<string>, deg: map<string, int>, queue: seq<string>): (r: (map<string, int>, seq<string>))
    requires forall v :: v in vs ==> v in deg
    ensures r.0.Keys == deg.Keys
    decreases |vs|
  {
    if vs == [] then (deg, queue)
    else
      var d := deg[vs[0]] - 1;
      Relax(vs[1..], deg[vs[0] := d], if d == 0 then queue + [vs[0]] else queue)
  }

  /** Relaxing lowers every degree by the neighbour's multiplicity. */
  lemma {:induction false} RelaxDegrees(vs: seq<string>, deg: map<string, int>, queue: seq<string>)
    requires forall v :: v in vs ==> v in deg
    ensures Relax(vs, deg, queue).0.Keys == deg.Keys
    ensures forall k :: k in deg ==> Relax(vs, deg, queue).0[k] == deg[k] - Count(vs, k)
    decreases |vs|
  {
    if vs != [] {
      var d := deg[vs[0]] - 1;
      RelaxDegrees(vs[1..], deg[vs[0] := d], if d == 0 then queue + [vs[0]] else queue);
      forall k | k in deg ensures Relax(vs, deg, queue).0[k] == deg[k] - Count(vs, k) {
        CountFront(vs, k);
      }
    }
  }

  /** Relaxing only appends to the queue. */
  lemma {:induction false} RelaxKeepsQueue(vs: seq<string>, deg: map<string, int>, queue: seq<string>)
    requires forall v :: v in vs ==> v in deg
    ensures |queue| <= |Relax(vs, deg, queue).1|
    ensures Relax(vs, deg, queue).1[..|queue|] == queue
    decreases |vs|
  {
    if vs != [] {
      var d := deg[vs[0]] - 1;
      var queue1 := if d == 0 then queue + [vs[0]] else queue;
      RelaxKeepsQueue(vs[1..], deg[vs[0] := d], queue1);
      assert Relax(vs, deg, queue).1[..|queue|] == Relax(vs, deg, queue).1[..|queue1|][..|queue|];
    }
  }

  /** `fresh` holds, once each, exactly the neighbours whose degree is 0. */
  ghost predicate EnqueuedOnce(vs: seq<string>, enqueued: seq<string>, deg: map<string, int>)
  {
    Distinct(enqueued) && forall k :: k in enqueued <==> k in vs && k in deg && deg[k] == 0
  }

  /** Relaxing enqueues, once each, exactly the neighbours whose degree reaches 0,
      provided no degree is smaller than the neighbour's multiplicity. */
  lemma {:induction false} RelaxEnqueues(vs: seq<string>, deg: map<string, int>, queue: seq<string>)
    requires forall v :: v in vs ==> v in deg && deg[v] >= Count(vs, v)
    ensures |queue| <= |Relax(vs, deg, queue).1|
    ensures EnqueuedOnce(vs, Relax(vs, deg, queue).1[|queue|..], Relax(vs, deg, queue).0)
    decreases |vs|
  {
    RelaxKeepsQueue(vs, deg, queue);
    if vs != [] {
      var d := deg[vs[0]] - 1;
      RelaxRestAllowed(vs, deg);
      RelaxEnqueues(vs[1..], deg[vs[0] := d], if d == 0 then queue + [vs[0]] else queue);
      RelaxEnqueuesFront(vs, deg, queue);
    }
  }

  /** The step of `RelaxEnqueues` from the rest of the neighbours to all. */
  lemma RelaxEnqueuesFront(vs: seq<string>, deg: map<string, int>, queue: seq<string>)
    requires vs != []
    requires forall v :: v in vs ==> v in deg && deg[v] >= Count(vs, v)
    requires var d := deg[vs[0]] - 1; var queue1 := if d == 0 then queue + [vs[0]] else queue;
      var r := Relax(vs[1..], deg[vs[0] := d], queue1);
      |queue1| <= |r.1| && EnqueuedOnce(vs[1..], r.1[|queue1|..], r.0)
    ensures EnqueuedOnce(vs, Relax(vs, deg, queue).1[|queue|..], Relax(vs, deg, queue).0)
  {
    var v := vs[0];
    var d := deg[v] - 1;
    var deg1 := deg[v := d];
    var queue1 := if d == 0 then queue + [v] else queue;
    RelaxRestAllowed(vs, deg);
    RelaxDegreeOf(vs[1..], deg1, queue1, v);
    RelaxKeepsQueue(vs[1..], deg1, queue1);
    var r := Relax(vs[1..], deg1, queue1);
    assert r == Relax(vs, deg, queue);
    if d == 0 {
      assert r.1[|queue|] == r.1[..|queue1|][|queue|] == v;
    }
    EnqueuedCons(vs, d, |queue|, r.1, r.0);
  }

  lemma RelaxDegreeOf(vs: seq<string>, deg: map<string, int>, queue: seq<string>, k: string)
    requires forall v :: v in vs ==> v in deg
    requires k in deg
    ensures k in Relax(vs, deg, queue).0 && Relax(vs, deg, queue).0[k] == deg[k] - Count(vs, k)
  {
    RelaxDegrees(vs, deg, queue);
  }

  /** After the first decrement the rest of the neighbours still meet the
      precondition of `RelaxEnqueues`. */
  lemma RelaxRestAllowed(vs: seq<string>, deg: map<string, int>)
    requires vs != []
    requires forall v :: v in vs ==> v in deg && deg[v] >= Count(vs, v)
    ensures var deg1 := deg[vs[0] := deg[vs[0]] - 1];
      forall w :: w in vs[1..] ==> w in deg1 && deg1[w] >= Count(vs[1..], w)
  {
    forall w | w in vs[1..] ensures w in vs && deg[w] >= Count(vs[1..], w) + (if vs[0] == w then 1 else 0) {
      CountFront(vs, w);
    }
  }

  /** The step of `RelaxEnqueues`: the first neighbour joins the queue
      exactly when its degree `d` after one decrement is 0. */
  lemma EnqueuedCons(vs: seq<string>, d: int, n: nat, q: seq<string>, deg: map<string, int>)
    requires vs != []
    requires n + (if d == 0 then 1 else 0) <= |q|
    requires d == 0 ==> q[n] == vs[0]
    requires EnqueuedOnce(vs[1..], q[n + (if d == 0 then 1 else 0)..], deg)
    requires vs[0] in deg && deg[vs[0]] == d - Count(vs[1..], vs[0]) && d + 1 >= Count(vs, vs[0])
    ensures EnqueuedOnce(vs, q[n..], deg)
  {
    var v, rest := vs[0], vs[1..];
    CountFront(vs, v);
    assert vs == [v] + rest;
    var tail := q[n + (if d == 0 then 1 else 0)..];
    if d == 0 {
      assert v !in rest;
      assert q[n..] == [v] + tail;
      DistinctAppend([v], tail);
    } else {
      assert q[n..] == tail;
    }
  }

  /** The in-degree map counts, for every node id, the valid edges from nodes
      not emitted yet. */
  ghost predicate DegreeInv(g: Graph, result: seq<Node>, deg: map<string, int>)
  {
    && (forall k :: k in deg <==> k in Ids(g.nodes))
    && (forall k :: k in deg ==> deg[k] == InCount(g.edges, Ids(g.nodes), k, Ids(result)))
  }

  /** An emitted node is the node map's entry for its id. */
  ghost predicate EmittedInv(g: Graph, result: seq<Node>)
  {
    forall i :: 0 <= i < |result| ==> result[i].id in Ids(g.nodes) && result[i] == NodeMap(g.nodes)[result[i].id]
  }

  /** Each id is emitted or queued at most once, and exactly when its degree is 0. */
  ghost predicate QueueInv(g: Graph, queue: seq<string>, result: seq<Node>, deg: map<string, int>)
  {
    && Distinct(Ids(result) + queue)
    && (forall k :: k in queue ==> k in Ids(g.nodes))
    && (forall k :: k in deg ==> (k in queue || k in Ids(result) <==> deg[k] == 0))
  }

  /** Every emitted node comes after all of its predecessors. */
  ghost predicate OrderInv(g: Graph, result: seq<Node>)
  {
    forall i, e :: 0 <= i < |result| && e in g.edges && e.target == result[i].id && e.source in Ids(g.nodes)
      ==> e.source in Ids(result)[..i]
  }

  /** What holds of the state (queue, emitted nodes, in-degrees) between two
      iterations of the main loop. */
  ghost predicate Inv(g: Graph, queue: seq<string>, result: seq<Node>, deg: map<string, int>)
  {
    DegreeInv(g, result, deg) && EmittedInv(g, result) && QueueInv(g, queue, result, deg) && OrderInv(g, result)
  }

  lemma InvBound(g: Graph, queue: seq<string>, result: seq<Node>, deg: map<string, int>)
    requires EmittedInv(g, result) && QueueInv(g, queue, result, deg)
    ensures |result| + |queue| <= |Keys(g.nodes)|
  {
    var s := Ids(result) + queue;
    forall x | x in s ensures x in Keys(g.nodes) {
    }
    DistinctLength(s, Keys(g.nodes));
  }

  lemma InitInv(g: Graph)
    ensures Inv(g, InitQueue(g), [], InitDegrees(g))
  {
    assert Ids([]) == [];
  }

  /** The state after one iteration: `current` emitted, its neighbours relaxed. */
  function NextQueue(g: Graph, queue: seq<string>, deg: map<string, int>): seq<string>
    requires queue != [] && (forall k :: k in deg <==> k in Ids(g.nodes))
  {
    Relax(Succs(g.edges, Ids(g.nodes), queue[0]), deg, queue[1..]).1
  }

  function NextDegrees(g: Graph, queue: seq<string>, deg: map<string, int>): map<string, int>
    requires queue != [] && (forall k :: k in deg <==> k in Ids(g.nodes))
  {
    Relax(Succs(g.edges, Ids(g.nodes), queue[0]), deg, queue[1..]).0
  }

  function NextResult(g: Graph, queue: seq<string>, result: seq<Node>): seq<Node>
    requires queue != [] && queue[0] in Ids(g.nodes)
  {
    result + [NodeMap(g.nodes)[queue[0]]]
  }

  lemma StepIds(g: Graph, queue: seq<string>, result: seq<Node>, deg: map<string, int>)
    requires Inv(g, queue, result, deg) && queue != []
    ensures Ids(NextResult(g, queue, result)) == Ids(result) + [queue[0]]
    ensures queue[0] !in Ids(result)
  {
    DistinctConcat(Ids(result), queue);
    assert queue[0] in queue;
  }

  lemma StepDegrees(g: Graph, queue: seq<string>, result: seq<Node>, deg: map<string, int>)
    requires Inv(g, queue, result, deg) && queue != []
    ensures DegreeInv(g, NextResult(g, queue, result), NextDegrees(g, queue, deg))
    ensures forall k :: k in deg ==> deg[k] >= Count(Succs(g.edges, Ids(g.nodes), queue[0]), k)
  {
    var ks := Ids(g.nodes);
    var vs := Succs(g.edges, ks, queue[0]);
    StepIds(g, queue, result, deg);
    forall k | k in deg
      ensures deg[k] == InCount(g.edges, ks, k, Ids(NextResult(g, queue, result))) + Count(vs, k)
    {
      InCountSplit(g.edges, ks, queue[0], k, Ids(result));
    }
    RelaxDegrees(vs, deg, queue[1..]);
  }

  /** The queue bookkeeping of one iteration, stated over plain sequences and
      maps: `cur` leaves the queue for `done`, the neighbours `vs` are relaxed
      from `deg` to `deg'` and `enqueued` is appended to the queue. */
  lemma QueueStep(done: seq<string>, queue: seq<string>, vs: seq<string>, deg: map<string, int>,
                  deg': map<string, int>, enqueued: seq<string>)
    requires queue != [] && Distinct(done + queue)
    requires forall k :: k in deg ==> (k in queue || k in done <==> deg[k] == 0)
    requires deg'.Keys == deg.Keys
    requires forall k :: k in deg ==> deg[k] >= Count(vs, k) && deg'[k] == deg[k] - Count(vs, k)
    requires EnqueuedOnce(vs, enqueued, deg')
    ensures Distinct(done + [queue[0]] + (queue[1..] + enqueued))
    ensures forall k :: k in deg' ==> (k in queue[1..] + enqueued || k in done + [queue[0]] <==> deg'[k] == 0)
  {
    assert done + queue == done + [queue[0]] + queue[1..];
    forall k | k in enqueued ensures k !in done + [queue[0]] + queue[1..] {
      assert Count(vs, k) > 0;
    }
    DistinctAppend(done + [queue[0]] + queue[1..], enqueued);
    assert done + [queue[0]] + (queue[1..] + enqueued) == (done + [queue[0]] + queue[1..]) + enqueued;
    forall k | k in deg' ensures (k in queue[1..] + enqueued || k in done + [queue[0]] <==> deg'[k] == 0) {
      if k in vs {
        assert Count(vs, k) > 0;
        assert deg[k] != 0;
      } else {
        assert k !in enqueued;
        assert k in queue[1..] + enqueued || k in done + [queue[0]] <==> k in queue || k in done;
      }
    }
  }

  lemma StepQueue(g: Graph, queue: seq<string>, result: seq<Node>, deg: map<string, int>)
    requires Inv(g, queue, result, deg) && queue != []
    ensures QueueInv(g, NextQueue(g, queue, deg), NextResult(g, queue, result), NextDegrees(g, queue, deg))
  {
    var vs := Succs(g.edges, Ids(g.nodes), queue[0]);
    StepIds(g, queue, result, deg);
    StepDegrees(g, queue, result, deg);
    RelaxDegrees(vs, deg, queue[1..]);
    RelaxKeepsQueue(vs, deg, queue[1..]);
    RelaxEnqueues(vs, deg, queue[1..]);
    var queue' := NextQueue(g, queue, deg);
    var enqueued := queue'[|queue| - 1..];
    PrefixSplit(queue', queue[1..]);
    QueueStep(Ids(result), queue, vs, deg, NextDegrees(g, queue, deg), enqueued);
  }

  lemma StepOrder(g: Graph, queue: seq<string>, result: seq<Node>, deg: map<string, int>)
    requires Inv(g, queue, result, deg) && queue != []
    ensures OrderInv(g, NextResult(g, queue, result))
  {
    var ks := Ids(g.nodes);
    var done := Ids(result);
    var result' := NextResult(g, queue, result);
    var done' := Ids(result');
    StepIds(g, queue, result, deg);
    // the node just emitted has no pending predecessor
    InCountZero(g.edges, ks, queue[0], done);
    forall i, e | 0 <= i < |result'| && e in g.edges && e.target == result'[i].id && e.source in ks
      ensures e.source in done'[..i]
    {
      if i < |result| {
        assert done'[..i] == done[..i];
      } else {
        assert done'[..i] == done;
      }
    }
  }

  /** One iteration of the loop keeps the invariant. */
  lemma StepInv(g: Graph, queue: seq<string>, result: seq<Node>, deg: map<string, int>)
    requires Inv(g, queue, result, deg) && queue != []
    ensures Inv(g, NextQueue(g, queue, deg), NextResult(g, queue, result), NextDegrees(g, queue, deg))
    ensures |NextResult(g, queue, result)| + |NextQueue(g, queue, deg)| <= |Keys(g.nodes)|
  {
    StepDegrees(g, queue, result, deg);
    StepQueue(g, queue, result, deg);
    StepOrder(g, queue, result, deg);
    InvBound(g, NextQueue(g, queue, deg), NextResult(g, queue, result), NextDegrees(g, queue, deg));
  }

  /** The loop, run from a state to the end (the queue empty). */
  function Run(g: Graph, queue: seq<string>, result: seq<Node>, deg: map<string, int>): seq<Node>
    requires Inv(g, queue, result, deg)
    decreases |Keys(g.nodes)| - |result|
  {
    InvBound(g, queue, result, deg);
    if queue == [] then result
    else
      StepInv(g, queue, result, deg);
      Run(g, NextQueue(g, queue, deg), NextResult(g, queue, result), NextDegrees(g, queue, deg))
  }

  /** One turn of the loop. */
  lemma RunStep(g: Graph, queue: seq<string>, result: seq<Node>, deg: map<string, int>)
    requires Inv(g, queue, result, deg) && queue != []
    ensures Inv(g, NextQueue(g, queue, deg), NextResult(g, queue, result), NextDegrees(g, queue, deg))
    ensures Run(g, queue, result, deg)
      == Run(g, NextQueue(g, queue, deg), NextResult(g, queue, result), NextDegrees(g, queue, deg))
  {
    StepInv(g, queue, result, deg);
  }

  /** `topologicalSort`: the emitted nodes, or the cycle error when fewer nodes
      were emitted than given (lines 95-96). */
  function TopoSort(g: Graph): Result<seq<Node>, SortError>
  {
    var r := Emitted(g);
    if |r| != |g.nodes| then Failure(CycleDetected) else Success(r)
  }

  /** The nodes the main loop emits, starting from the initial queue and map. */
  function Emitted(g: Graph): seq<Node>
  {
    InitInv(g);
    Run(g, InitQueue(g), [], InitDegrees(g))
  }

  /** `hasCycles`: whether `topologicalSort` throws (lines 102-109). */
  function HasCycles(g: Graph): (b: bool)
    ensures b <==> !Distinct(Ids(g.nodes)) || Cyclic(g)
  {
    TopoSortFailsIff(g);
    TopoSort(g).Failure?
  }

  // ---------------------------------------------------------------------------
  // What the algorithm guarantees
  // ---------------------------------------------------------------------------

  /** Every edge between two listed ids goes from an earlier to a later position. */
  ghost predicate EdgesForward(ids: seq<string>, es: seq<Edge>)
  {
    forall e, i, j :: e in es && 0 <= i < |ids| && 0 <= j < |ids| && ids[i] == e.source && ids[j] == e.target ==> i < j
  }

  /** `r` holds every node of `g` exactly once, sources before targets. */
  ghost predicate IsTopologicalOrder(r: seq<Node>, g: Graph)
  {
    multiset(r) == multiset(g.nodes) && Distinct(Ids(r)) && EdgesForward(Ids(r), g.edges)
  }

  /** A non-empty set `s` of node ids and, for each member, an incoming edge
      whose source is again in `s`: following those edges backwards never
      leaves the finite set, so it must revisit an id. */
  ghost predicate CycleWitness(g: Graph, s: set<string>, pred: string -> Edge)
  {
    && s != {}
    && forall v {:trigger pred(v)} :: v in s ==>
         v in Ids(g.nodes) && pred(v) in g.edges && pred(v).target == v && pred(v).source in s
  }

  ghost predicate Cyclic(g: Graph)
  {
    exists s, pred :: CycleWitness(g, s, pred)
  }

  /** The state in which the loop stops. */
  lemma {:induction false} RunEnds(g: Graph, queue: seq<string>, result: seq<Node>, deg: map<string, int>)
    returns (deg': map<string, int>)
    requires Inv(g, queue, result, deg)
    ensures Inv(g, [], Run(g, queue, result, deg), deg')
    decreases |Keys(g.nodes)| - |result|
  {
    InvBound(g, queue, result, deg);
    if queue == [] {
      deg' := deg;
    } else {
      StepInv(g, queue, result, deg);
      deg' := RunEnds(g, NextQueue(g, queue, deg), NextResult(g, queue, result), NextDegrees(g, queue, deg));
    }
  }

  /** The final state of `TopoSort(g)`. */
  lemma FinalState(g: Graph) returns (deg: map<string, int>)
    ensures Inv(g, [], Emitted(g), deg)
  {
    InitInv(g);
    deg := RunEnds(g, InitQueue(g), [], InitDegrees(g));
  }

  lemma DistinctIdsDistinct(s: seq<Node>)
    requires Distinct(Ids(s))
    ensures Distinct(s)
  {
    forall i, j | 0 <= i < j < |s| ensures s[i] != s[j] {
      assert Ids(s)[i] != Ids(s)[j];
    }
  }

  /** The earliest position of `ids` that holds a member of `s`. */
  lemma {:induction false} FirstIn(ids: seq<string>, s: set<string>, x: string) returns (i: nat)
    requires x in s && x in ids
    ensures i < |ids| && ids[i] in s
    ensures forall j :: 0 <= j < i ==> ids[j] !in s
    decreases |ids|
  {
    if ids[0] in s {
      i := 0;
    } else {
      var i' := FirstIn(ids[1..], s, x);
      i := i' + 1;
      assert forall j :: 1 <= j < i ==> ids[j] == ids[1..][j - 1];
    }
  }

  /** A listing of all node ids in which every edge goes forward rules out a cycle. */
  lemma OrderedAcyclic(g: Graph, ids: seq<string>)
    requires forall k :: k in Ids(g.nodes) ==> k in ids
    requires EdgesForward(ids, g.edges)
    ensures !Cyclic(g)
  {
    if Cyclic(g) {
      var s: set<string>, pred: string -> Edge :| CycleWitness(g, s, pred);
      var x :| x in s;
      var first := pred(x);
      var i := FirstIn(ids, s, x);
      var e := pred(ids[i]);
      var before := pred(e.source);
      assert false;
    }
  }

  /** On success the output holds every input node exactly once, each edge's
      source before its target, and the node ids were unique. */
  lemma TopoSortSound(g: Graph)
    requires TopoSort(g).Success?
    ensures IsTopologicalOrder(TopoSort(g).value, g)
    ensures Distinct(Ids(g.nodes))
  {
    SuccessEmitsAll(g);
    EmittedIsTopological(g, TopoSort(g).value);
  }

  lemma EmittedIsTopological(g: Graph, r: seq<Node>)
    requires Distinct(Ids(g.nodes)) && Distinct(Ids(r))
    requires forall k :: k in Ids(g.nodes) <==> k in Ids(r)
    requires EmittedInv(g, r) && OrderInv(g, r)
    ensures IsTopologicalOrder(r, g)
  {
    EmittedPermutation(g, r);
    OrderForward(g, r);
  }

  /** Emitting every id once, each as its map entry, emits a permutation of
      the nodes when ids are unique. */
  lemma EmittedPermutation(g: Graph, r: seq<Node>)
    requires Distinct(Ids(g.nodes)) && Distinct(Ids(r))
    requires forall k :: k in Ids(g.nodes) <==> k in Ids(r)
    requires EmittedInv(g, r)
    ensures multiset(r) == multiset(g.nodes)
  {
    forall n | n in g.nodes ensures n in r {
      var i :| 0 <= i < |g.nodes| && g.nodes[i] == n;
      EmittedCovers(g, r, i);
    }
    DistinctIdsDistinct(r);
    DistinctIdsDistinct(g.nodes);
    DistinctSameMembers(r, g.nodes);
  }

  /** The node at position `i` is emitted: its id is, as its map entry. */
  lemma EmittedCovers(g: Graph, r: seq<Node>, i: nat)
    requires Distinct(Ids(g.nodes)) && i < |g.nodes|
    requires forall k :: k in Ids(g.nodes) <==> k in Ids(r)
    requires EmittedInv(g, r)
    ensures g.nodes[i] in r
  {
    NodeMapDistinct(g.nodes);
    assert Ids(g.nodes)[i] == g.nodes[i].id;
    var j :| 0 <= j < |r| && Ids(r)[j] == g.nodes[i].id;
    assert r[j] == NodeMap(g.nodes)[r[j].id];
  }

  lemma SuccessAcyclic(g: Graph)
    requires TopoSort(g).Success?
    ensures !Cyclic(g)
  {
    TopoSortSound(g);
    var r := TopoSort(g).value;
    PermutationIds(r, g.nodes);
    OrderedAcyclic(g, Ids(r));
  }

  /** A permutation of the nodes carries every node id. */
  lemma PermutationIds(r: seq<Node>, nodes: seq<Node>)
    requires multiset(r) == multiset(nodes)
    ensures forall k :: k in Ids(nodes) ==> k in Ids(r)
  {
    forall k | k in Ids(nodes) ensures k in Ids(r) {
      var i :| 0 <= i < |nodes| && nodes[i].id == k;
      assert nodes[i] in multiset(r);
      var j :| 0 <= j < |r| && r[j] == nodes[i];
      assert Ids(r)[j] == k;
    }
  }

  /** On success every node id was unique and is emitted exactly once. */
  lemma SuccessEmitsAll(g: Graph)
    requires TopoSort(g).Success?
    ensures var r := TopoSort(g).value;
      && Distinct(Ids(g.nodes)) && Distinct(Ids(r))
      && (forall k :: k in Ids(g.nodes) <==> k in Ids(r))
      && EmittedInv(g, r) && OrderInv(g, r)
  {
    var deg := FinalState(g);
    var r := TopoSort(g).value;
    var ks := Ids(g.nodes);
    var done := Ids(r);
    assert done + [] == done;
    InvBound(g, [], r, deg);
    KeysLength(g.nodes);
    KeysOfDistinct(g.nodes);
    DistinctCovers(done, ks);
  }

  /** Positions in an emitted order respect every edge between emitted ids. */
  lemma OrderForward(g: Graph, r: seq<Node>)
    requires OrderInv(g, r) && Distinct(Ids(r))
    requires forall k :: k in Ids(r) ==> k in Ids(g.nodes)
    ensures EdgesForward(Ids(r), g.edges)
  {
    var done := Ids(r);
    forall e, i, j | e in g.edges && 0 <= i < |done| && 0 <= j < |done| && done[i] == e.source && done[j] == e.target
      ensures i < j
    {
      assert e.source in done[..j];
      var i' :| 0 <= i' < j && done[..j][i'] == e.source;
      assert done[i'] == done[i];
    }
  }

  /** `topologicalSort` throws exactly when node ids repeat or the edges
      between present nodes contain a cycle. */
  lemma TopoSortFailsIff(g: Graph)
    ensures TopoSort(g).Failure? <==> !Distinct(Ids(g.nodes)) || Cyclic(g)
  {
    if TopoSort(g).Success? {
      SuccessAcyclic(g);
      TopoSortSound(g);
    } else if Distinct(Ids(g.nodes)) {
      var s, pred := FailureCycle(g);
      assert Cyclic(g);
    }
  }

  /** A failed run with unique ids leaves a set of ids each of which has an
      incoming edge from the set: a cycle. */
  lemma FailureCycle(g: Graph) returns (s: set<string>, pred: string -> Edge)
    requires TopoSort(g).Failure? && Distinct(Ids(g.nodes))
    ensures CycleWitness(g, s, pred)
  {
    var ks := Ids(g.nodes);
    var done, x := StuckIds(g);
    s := set k | k in ks && k !in done;
    forall v | v in s
      ensures exists e :: e in g.edges && e.target == v && e.source in ks && e.source !in done
    {
      var e := InCountPositive(g.edges, ks, v, done);
    }
    pred := (v: string) =>
      if v in s then var e :| e in g.edges && e.target == v && e.source in ks && e.source !in done; e
      else Edge("", "", None);
    assert x in s;
  }

  /** After a failed run with unique ids, some id was never emitted, and every
      id never emitted still has an incoming edge from another such id. */
  lemma StuckIds(g: Graph) returns (done: seq<string>, x: string)
    requires TopoSort(g).Failure? && Distinct(Ids(g.nodes))
    ensures x in Ids(g.nodes) && x !in done
    ensures forall v :: v in Ids(g.nodes) && v !in done ==> InCount(g.edges, Ids(g.nodes), v, done) > 0
  {
    var deg := FinalState(g);
    var r := Emitted(g);
    var ks := Ids(g.nodes);
    done := Ids(r);
    assert done + [] == done;
    InvBound(g, [], r, deg);
    KeysLength(g.nodes);
    KeysOfDistinct(g.nodes);
    x :| x in ks && x !in done by {
      if forall k :: k in ks ==> k in done {
        DistinctLength(ks, done);
        assert false;
      }
    }
  }

  lemma NoEdgesKeepsOrder(nodes: seq<Node>)
    requires Distinct(Ids(nodes))
    ensures TopoSort(Graph(nodes, [])) == Success(nodes)
  {
    var g := Graph(nodes, []);
    NoEdgesQueue(nodes);
    NoEdgesRun(g);
    NodeMapMembers(nodes);
    LookupIds(NodeMap(nodes), nodes);
  }

  /** With unique ids the node map sends each node's id back to that node. */
  lemma NodeMapMembers(ns: seq<Node>)
    requires Distinct(Ids(ns))
    ensures forall n :: n in ns ==> n.id in NodeMap(ns) && NodeMap(ns)[n.id] == n
  {
    NodeMapDistinct(ns);
    forall n | n in ns ensures n.id in NodeMap(ns) && NodeMap(ns)[n.id] == n {
      var i :| 0 <= i < |ns| && ns[i] == n;
      assert Ids(ns)[i] == n.id;
    }
  }

  lemma NoEdgesQueue(nodes: seq<Node>)
    requires Distinct(Ids(nodes))
    ensures InitQueue(Graph(nodes, [])) == Ids(nodes)
  {
    var g := Graph(nodes, []);
    KeysOfDistinct(nodes);
    ZeroDegreeAll(Keys(nodes), InitDegrees(g));
  }

  lemma NoEdgesRun(g: Graph)
    requires g.edges == []
    ensures forall k :: k in InitQueue(g) ==> k in NodeMap(g.nodes)
    ensures TopoSort(g) == if |InitQueue(g)| == |g.nodes| then Success(Lookup(NodeMap(g.nodes), InitQueue(g))) else Failure(CycleDetected)
  {
    InitInv(g);
    RunWithoutEdges(g, InitQueue(g), [], InitDegrees(g));
    assert [] + Lookup(NodeMap(g.nodes), InitQueue(g)) == Lookup(NodeMap(g.nodes), InitQueue(g));
  }

  lemma {:induction false} ZeroDegreeAll(ks: seq<string>, deg: map<string, int>)
    requires forall k :: k in ks ==> k in deg && deg[k] == 0
    ensures ZeroDegree(ks, deg) == ks
    decreases |ks|
  {
    if ks != [] {
      ZeroDegreeAll(ks[..|ks| - 1], deg);
      SplitLast(ks);
    }
  }

  /** The nodes a map gives for a list of ids, in the list's order. */
  function Lookup(m: map<string, Node>, ks: seq<string>): (r: seq<Node>)
    requires forall k :: k in ks ==> k in m
    ensures |r| == |ks|
    ensures forall i :: 0 <= i < |ks| ==> r[i] == m[ks[i]]
  {
    if ks == [] then [] else [m[ks[0]]] + Lookup(m, ks[1..])
  }

  lemma {:induction false} LookupIds(m: map<string, Node>, ns: seq<Node>)
    requires forall n :: n in ns ==> n.id in m && m[n.id] == n
    ensures Lookup(m, Ids(ns)) == ns
  {
    var r := Lookup(m, Ids(ns));
    assert forall i :: 0 <= i < |ns| ==> r[i] == m[ns[i].id] == ns[i];
  }

  /** Without edges a turn only moves the head of the queue to the output. */
  lemma NoEdgesStep(g: Graph, queue: seq<string>, result: seq<Node>, deg: map<string, int>) returns (deg': map<string, int>)
    requires g.edges == [] && Inv(g, queue, result, deg) && queue != []
    ensures queue[0] in NodeMap(g.nodes)
    ensures Inv(g, queue[1..], result + [NodeMap(g.nodes)[queue[0]]], deg')
    ensures Run(g, queue, result, deg) == Run(g, queue[1..], result + [NodeMap(g.nodes)[queue[0]]], deg')
  {
    RunStep(g, queue, result, deg);
    assert Succs(g.edges, Ids(g.nodes), queue[0]) == [];
    deg' := NextDegrees(g, queue, deg);
  }

  lemma LookupCons(m: map<string, Node>, ks: seq<string>, r: seq<Node>)
    requires ks != [] && forall k :: k in ks ==> k in m
    ensures (r + [m[ks[0]]]) + Lookup(m, ks[1..]) == r + Lookup(m, ks)
  {
  }

  lemma {:induction false} RunWithoutEdges(g: Graph, queue: seq<string>, result: seq<Node>, deg: map<string, int>)
    requires g.edges == [] && Inv(g, queue, result, deg)
    ensures Run(g, queue, result, deg) == result + Lookup(NodeMap(g.nodes), queue)
    decreases |queue|
  {
    if queue != [] {
      var m := NodeMap(g.nodes);
      var deg' := NoEdgesStep(g, queue, result, deg);
      RunWithoutEdges(g, queue[1..], result + [m[queue[0]]], deg');
      LookupCons(m, queue, result);
    }
  }

  lemma {:induction false} ZeroDegreeInOrder(ks: seq<string>, deg: map<string, int>)
    requires forall k :: k in ks ==> k in deg
    ensures IsSubsequence(ZeroDegree(ks, deg), ks)
    decreases |ks|
  {
    if ks == [] {
      SubsequenceRefl(ks);
    } else {
      var front := ks[..|ks| - 1];
      var k := ks[|ks| - 1];
      ZeroDegreeInOrder(front, deg);
      SplitLast(ks);
      if deg[k] == 0 {
        SubsequenceAppend(ZeroDegree(front, deg), front, k);
      } else {
        SubsequenceExtend(ZeroDegree(front, deg), ks);
      }
    }
  }

  /** The queue starts with the ids that have no incoming edge from a present
      node, in the order the ids first occur among the nodes (lines 77-79). */
  lemma InitQueueInOrder(g: Graph)
    ensures IsSubsequence(InitQueue(g), Keys(g.nodes))
    ensures forall k :: k in InitQueue(g) <==> k in Ids(g.nodes) && InCount(g.edges, Ids(g.nodes), k, []) == 0
  {
    ZeroDegreeInOrder(Keys(g.nodes), InitDegrees(g));
  }

  /** Two graphs on the same nodes whose edges give the same successor lists and
      the same in-degree counts. */
  ghost predicate SameEffect(g1: Graph, g2: Graph)
  {
    && g1.nodes == g2.nodes
    && (forall u :: Succs(g1.edges, Ids(g1.nodes), u) == Succs(g2.edges, Ids(g2.nodes), u))
    && (forall v, done :: InCount(g1.edges, Ids(g1.nodes), v, done) == InCount(g2.edges, Ids(g2.nodes), v, done))
  }

  lemma {:induction false} RunSameEffect(g1: Graph, g2: Graph, queue: seq<string>, result: seq<Node>, deg: map<string, int>)
    requires SameEffect(g1, g2) && Inv(g1, queue, result, deg) && Inv(g2, queue, result, deg)
    ensures Run(g1, queue, result, deg) == Run(g2, queue, result, deg)
    decreases |Keys(g1.nodes)| - |result|
  {
    if queue != [] {
      RunStep(g1, queue, result, deg);
      RunStep(g2, queue, result, deg);
      InvBound(g1, queue, result, deg);
      assert NextQueue(g1, queue, deg) == NextQueue(g2, queue, deg);
      assert NextDegrees(g1, queue, deg) == NextDegrees(g2, queue, deg);
      RunSameEffect(g1, g2, NextQueue(g1, queue, deg), NextResult(g1, queue, result), NextDegrees(g1, queue, deg));
    }
  }

  /** The sort sees edges only through successor lists and in-degrees. */
  lemma TopoSortSameEffect(g1: Graph, g2: Graph)
    requires SameEffect(g1, g2)
    ensures TopoSort(g1) == TopoSort(g2)
  {
    assert InitDegrees(g1) == InitDegrees(g2);
    InitInv(g1);
    InitInv(g2);
    RunSameEffect(g1, g2, InitQueue(g1), [], InitDegrees(g1));
  }

  lemma {:induction false} SuccsSkipsInvalid(es1: seq<Edge>, e: Edge, es2: seq<Edge>, ks: seq<string>, u: string)
    requires !Valid(e, ks)
    ensures Succs(es1 + [e] + es2, ks, u) == Succs(es1 + es2, ks, u)
    decreases |es2|
  {
    if es2 == [] {
      assert (es1 + [e] + es2)[..|es1|] == es1;
      assert es1 + es2 == es1;
    } else {
      var front := es2[..|es2| - 1];
      SuccsSkipsInvalid(es1, e, front, ks, u);
      AppendFront(es1 + [e], es2);
      AppendFront(es1, es2);
    }
  }

  lemma {:induction false} InCountSkipsInvalid(es1: seq<Edge>, e: Edge, es2: seq<Edge>, ks: seq<string>, v: string, done: seq<string>)
    requires !Valid(e, ks)
    ensures InCount(es1 + [e] + es2, ks, v, done) == InCount(es1 + es2, ks, v, done)
    decreases |es2|
  {
    if es2 == [] {
      assert (es1 + [e] + es2)[..|es1|] == es1;
      assert es1 + es2 == es1;
    } else {
      var front := es2[..|es2| - 1];
      InCountSkipsInvalid(es1, e, front, ks, v, done);
      AppendFront(es1 + [e], es2);
      AppendFront(es1, es2);
    }
  }

  /** An edge with an endpoint that is not a node id changes nothing (lines 66-69). */
  lemma IgnoresDanglingEdge(nodes: seq<Node>, es1: seq<Edge>, e: Edge, es2: seq<Edge>)
    requires e.source !in Ids(nodes) || e.target !in Ids(nodes)
    ensures TopoSort(Graph(nodes, es1 + [e] + es2)) == TopoSort(Graph(nodes, es1 + es2))
  {
    forall u ensures Succs(es1 + [e] + es2, Ids(nodes), u) == Succs(es1 + es2, Ids(nodes), u) {
      SuccsSkipsInvalid(es1, e, es2, Ids(nodes), u);
    }
    forall v, done ensures InCount(es1 + [e] + es2, Ids(nodes), v, done) == InCount(es1 + es2, Ids(nodes), v, done) {
      InCountSkipsInvalid(es1, e, es2, Ids(nodes), v, done);
    }
    TopoSortSameEffect(Graph(nodes, es1 + [e] + es2), Graph(nodes, es1 + es2));
  }

  // ---------------------------------------------------------------------------
  // The algorithm with mutable maps and a FIFO queue
  // ---------------------------------------------------------------------------

  /** `adjList` after the edges `es` have been recorded over the ids `ks`. */
  function SuccMap(es: seq<Edge>, ks: seq<string>): map<string, seq<string>>
  {
    map k | k in ks :: Succs(es, ks, k)
  }

  /** `inDegree` after the edges `es` have been recorded over the ids `ks`. */
  function DegreeMap(es: seq<Edge>, ks: seq<string>): map<string, int>
  {
    map k | k in ks :: InCount(es, ks, k, [])
  }

  /** Reading one more node adds (or resets) its entry in each map. */
  lemma NodePrefixStep(nodes: seq<Node>, i: nat)
    requires i < |nodes|
    ensures Ids(nodes[..i + 1]) == Ids(nodes[..i]) + [nodes[i].id]
    ensures SuccMap([], Ids(nodes[..i + 1])) == SuccMap([], Ids(nodes[..i]))[nodes[i].id := []]
    ensures DegreeMap([], Ids(nodes[..i + 1])) == DegreeMap([], Ids(nodes[..i]))[nodes[i].id := 0]
    ensures NodeMap(nodes[..i + 1]) == NodeMap(nodes[..i])[nodes[i].id := nodes[i]]
    ensures Keys(nodes[..i + 1]) ==
      if nodes[i].id in Ids(nodes[..i]) then Keys(nodes[..i]) else Keys(nodes[..i]) + [nodes[i].id]
  {
    assert nodes[..i + 1][..i] == nodes[..i];
    IdsAppend(nodes[..i], [nodes[i]]);
    assert nodes[..i] + [nodes[i]] == nodes[..i + 1];
  }

  /** Recording one more edge extends one adjacency list and raises one
      in-degree, when both its endpoints are ids. */
  lemma EdgeMapsStep(es: seq<Edge>, ks: seq<string>, i: nat)
    requires i < |es|
    ensures var e := es[i]; var adj := SuccMap(es[..i], ks);
      SuccMap(es[..i + 1], ks) == if Valid(e, ks) then adj[e.source := adj[e.source] + [e.target]] else adj
    ensures var e := es[i]; var deg := DegreeMap(es[..i], ks);
      DegreeMap(es[..i + 1], ks) == if Valid(e, ks) then deg[e.target := deg[e.target] + 1] else deg
  {
    EdgePrefixStep(es, ks, i);
    SuccMapStep(es, ks, i);
    DegreeMapStep(es, ks, i);
  }

  lemma SuccMapStep(es: seq<Edge>, ks: seq<string>, i: nat)
    requires i < |es|
    requires forall u :: (Succs(es[..i + 1], ks, u)
      == Succs(es[..i], ks, u) + (if es[i].source == u && Valid(es[i], ks) then [es[i].target] else []))
    ensures var e := es[i]; var adj := SuccMap(es[..i], ks);
      SuccMap(es[..i + 1], ks) == if Valid(e, ks) then adj[e.source := adj[e.source] + [e.target]] else adj
  {
    var e := es[i];
    var adj, adj' := SuccMap(es[..i], ks), SuccMap(es[..i + 1], ks);
    if Valid(e, ks) {
      var upd := adj[e.source := adj[e.source] + [e.target]];
      assert adj'.Keys == upd.Keys;
      forall k | k in adj' ensures adj'[k] == upd[k] {
      }
    } else {
      forall k | k in adj' ensures adj'[k] == adj[k] {
      }
    }
  }

  lemma DegreeMapStep(es: seq<Edge>, ks: seq<string>, i: nat)
    requires i < |es|
    requires forall v :: (InCount(es[..i + 1], ks, v, [])
      == InCount(es[..i], ks, v, []) + (if es[i].target == v && Valid(es[i], ks) then 1 else 0))
    ensures var e := es[i]; var deg := DegreeMap(es[..i], ks);
      DegreeMap(es[..i + 1], ks) == if Valid(e, ks) then deg[e.target := deg[e.target] + 1] else deg
  {
    var e := es[i];
    var deg, deg' := DegreeMap(es[..i], ks), DegreeMap(es[..i + 1], ks);
    if Valid(e, ks) {
      var upd := deg[e.target := deg[e.target] + 1];
      assert deg'.Keys == upd.Keys;
      forall k | k in deg' ensures deg'[k] == upd[k] {
      }
    } else {
      forall k | k in deg' ensures deg'[k] == deg[k] {
      }
    }
  }

  /** Lines 58-62: one entry per node id in `adjList`, `inDegree` and `nodeMap`;
      `keyOrder` is the order in which `inDegree` iterates over its keys. */
  method InitMaps(nodes: seq<Node>)
    returns (adjList: map<string, seq<string>>, inDegree: map<string, int>, nodeMap: map<string, Node>, keyOrder: seq<string>)
    ensures adjList == SuccMap([], Ids(nodes))
    ensures inDegree == DegreeMap([], Ids(nodes))
    ensures nodeMap == NodeMap(nodes)
    ensures keyOrder == Keys(nodes)
  {
    adjList, inDegree, nodeMap, keyOrder := map[], map[], map[], [];
    for i := 0 to |nodes|
      invariant adjList == SuccMap([], Ids(nodes[..i]))
      invariant inDegree == DegreeMap([], Ids(nodes[..i]))
      invariant nodeMap == NodeMap(nodes[..i])
      invariant keyOrder == Keys(nodes[..i])
    {
      var node := nodes[i];
      NodePrefixStep(nodes, i);
      if node.id !in inDegree {
        keyOrder := keyOrder + [node.id];
      }
      adjList := adjList[node.id := []];
      inDegree := inDegree[node.id := 0];
      nodeMap := nodeMap[node.id := node];
    }
    assert nodes[..|nodes|] == nodes;
  }

  /** Lines 65-71: record every edge whose two endpoints are node ids. */
  method AddEdges(g: Graph, adj0: map<string, seq<string>>, degree0: map<string, int>)
    returns (adjList: map<string, seq<string>>, inDegree: map<string, int>)
    requires adj0 == SuccMap([], Ids(g.nodes))
    requires degree0 == DegreeMap([], Ids(g.nodes))
    ensures adjList == SuccMap(g.edges, Ids(g.nodes))
    ensures inDegree == InitDegrees(g)
  {
    var edges := g.edges;
    ghost var ks := Ids(g.nodes);
    adjList, inDegree := adj0, degree0;
    assert edges[..0] == [];
    for i := 0 to |edges|
      invariant adjList == SuccMap(edges[..i], ks)
      invariant inDegree == DegreeMap(edges[..i], ks)
    {
      var edge := edges[i];
      EdgeMapsStep(edges, ks, i);
      if edge.source in adjList && edge.target in inDegree {
        adjList := adjList[edge.source := adjList[edge.source] + [edge.target]];
        inDegree := inDegree[edge.target := inDegree[edge.target] + 1];
      }
    }
    assert edges[..|edges|] == edges;
  }

  /** Lines 77-79: the ids of in-degree 0, in key order. */
  method ZeroDegreeIds(keyOrder: seq<string>, inDegree: map<string, int>) returns (queue: seq<string>)
    requires forall k :: k in keyOrder ==> k in inDegree
    ensures queue == ZeroDegree(keyOrder, inDegree)
  {
    queue := [];
    for i := 0 to |keyOrder|
      invariant queue == ZeroDegree(keyOrder[..i], inDegree)
    {
      assert keyOrder[..i + 1][..i] == keyOrder[..i];
      if inDegree[keyOrder[i]] == 0 {
        queue := queue + [keyOrder[i]];
      }
    }
    assert keyOrder[..|keyOrder|] == keyOrder;
  }

  /** Lines 88-92: lower each neighbour's in-degree, enqueueing it at 0. */
  method RelaxNeighbors(neighbors: seq<string>, degree0: map<string, int>, queue0: seq<string>)
    returns (inDegree: map<string, int>, queue: seq<string>)
    requires forall v :: v in neighbors ==> v in degree0
    ensures (inDegree, queue) == Relax(neighbors, degree0, queue0)
  {
    inDegree, queue := degree0, queue0;
    for j := 0 to |neighbors|
      invariant inDegree.Keys == degree0.Keys
      invariant Relax(neighbors[j..], inDegree, queue) == Relax(neighbors, degree0, queue0)
    {
      var neighbor := neighbors[j];
      var newDegree := inDegree[neighbor] - 1;
      inDegree := inDegree[neighbor := newDegree];
      if newDegree == 0 {
        queue := queue + [neighbor];
      }
    }
  }

  /** Lines 81-93: the main loop, from the initial queue until it is empty. */
  method Drain(g: Graph, adjList: map<string, seq<string>>, nodeMap: map<string, Node>,
               degree0: map<string, int>, queue0: seq<string>)
    returns (result: seq<Node>)
    requires adjList == SuccMap(g.edges, Ids(g.nodes))
    requires nodeMap == NodeMap(g.nodes)
    requires Inv(g, queue0, [], degree0)
    ensures result == Run(g, queue0, [], degree0)
  {
    var queue, inDegree := queue0, degree0;
    result := [];
    while |queue| > 0
      invariant Inv(g, queue, result, inDegree)
      invariant Run(g, queue, result, inDegree) == Run(g, queue0, [], degree0)
      decreases |Keys(g.nodes)| - |result|
    {
      InvBound(g, queue, result, inDegree);
      StepInv(g, queue, result, inDegree);
      ghost var next := (NextQueue(g, queue, inDegree), NextResult(g, queue, result), NextDegrees(g, queue, inDegree));
      var current := queue[0];
      queue := queue[1..];
      var currentNode := nodeMap[current];
      result := result + [currentNode];
      var neighbors := adjList[current];
      inDegree, queue := RelaxNeighbors(neighbors, inDegree, queue);
      assert (queue, result, inDegree) == next;
    }
  }

  method TopologicalSort(g: Graph) returns (r: Result<seq<Node>, SortError>)
    ensures r == TopoSort(g)
  {
    var adjList, inDegree, nodeMap, keyOrder := InitMaps(g.nodes);
    adjList, inDegree := AddEdges(g, adjList, inDegree);
    var queue := ZeroDegreeIds(keyOrder, inDegree);
    InitInv(g);
    var result := Drain(g, adjList, nodeMap, inDegree, queue);
    if |result| != |g.nodes| {
      r := Failure(CycleDetected);
    } else {
      r := Success(result);
    }
  }
}
