/** `knapsackOptimization` (lib/graph-utils.ts:263-304): score every node by
    value per weight, order the scores from best to worst with a stable
    sort, then take nodes greedily while the time and cost budgets hold. */
module Knapsack {
  import opened Wrappers
  import opened SeqUtil
  import opened GraphModel
  import opened PathAssembly

  // ---------------------------------------------------------------------------
  // Budgets and scores (lines 268-282)
  // ---------------------------------------------------------------------------

  /** Line 268: the time budget in minutes; `None` stands for `Infinity`,
      used when the hour limit is `undefined` or `0`. */
  function MaxMinutes(c: Constraints): Option<real>
  {
    if TruthyReal(c.maxDurationHours) then Some(c.maxDurationHours.value * 60.0) else None
  }

  /** Line 269: the cost budget, `None` for `Infinity`. */
  function MaxCost(c: Constraints): Option<real>
  {
    if TruthyReal(c.maxCostAmount) then Some(c.maxCostAmount.value) else None
  }

  /** `x <= limit`, where every number is below `Infinity`. */
  predicate Below(x: int, limit: Option<real>)
  {
    limit.None? || x as real <= limit.value
  }

  /** Line 272: a node without a (truthy) duration counts as an hour. */
  function KnapsackMinutes(n: Node): int { OrElse(n.durationMin, 60) }

  /** Line 274: a node without a (truthy) difficulty counts as medium. */
  function KnapsackDifficulty(n: Node): int { OrElse(n.difficulty, 3) }

  /** The record built at line 281. */
  datatype Scored = Scored(node: Node, value: int, weight: real, ratio: real, duration: int, cost: int)

  /** Lines 271-282: easier nodes are worth more; the weight is the duration
      plus the cost as a share of the budget scaled to an hour. */
  function Score(n: Node, c: Constraints): Scored
  {
    var duration := KnapsackMinutes(n);
    var cost := CostOrZero(n);
    var value := (6 - KnapsackDifficulty(n)) * 10;
    var maxCost := MaxCost(c);
    var normalizedCost := if maxCost.None? then 0.0 else (cost as real / maxCost.value) * 60.0;
    var weight := duration as real + normalizedCost;
    var ratio := if weight > 0.0 then value as real / weight else value as real;
    Scored(n, value, weight, ratio, duration, cost)
  }

  /** `nodes.map(...)` at line 271. */
  function Scores(ns: seq<Node>, c: Constraints): (r: seq<Scored>)
    ensures |r| == |ns|
    ensures forall i :: 0 <= i < |ns| ==> r[i] == Score(ns[i], c)
  {
    seq(|ns|, i requires 0 <= i < |ns| => Score(ns[i], c))
  }

  /** The nodes of scored items, position by position. */
  function NodesOf(s: seq<Scored>): (r: seq<Node>)
    ensures |r| == |s|
    ensures forall i :: 0 <= i < |s| ==> r[i] == s[i].node
  {
    seq(|s|, i requires 0 <= i < |s| => s[i].node)
  }

  /** Every item is the score of its own node. */
  ghost predicate ScoredFrom(s: seq<Scored>, c: Constraints)
  {
    forall x :: x in s ==> x == Score(x.node, c)
  }

  lemma ScoresOfNodes(ns: seq<Node>, c: Constraints)
    ensures ScoredFrom(Scores(ns, c), c)
    ensures NodesOf(Scores(ns, c)) == ns
  {
  }

  /** Of two nodes with the same positive weight, the easier one has the
      better ratio. */
  lemma EasierRanksHigher(a: Node, b: Node, c: Constraints)
    requires Score(a, c).weight == Score(b, c).weight
    requires KnapsackDifficulty(a) < KnapsackDifficulty(b)
    ensures Score(a, c).ratio > Score(b, c).ratio
  {
    var w := Score(a, c).weight;
    var va := Score(a, c).value as real;
    var vb := Score(b, c).value as real;
    assert va > vb;
    if w > 0.0 {
      DivideStrict(vb, va, w);
    }
  }

  /** Of two nodes with the same positive value, the lighter one (positive
      weight) has the better ratio. */
  lemma LighterRanksHigher(a: Node, b: Node, c: Constraints)
    requires Score(a, c).value == Score(b, c).value > 0
    requires 0.0 < Score(a, c).weight < Score(b, c).weight
    ensures Score(a, c).ratio > Score(b, c).ratio
  {
    var sa := Score(a, c);
    var sb := Score(b, c);
    DivideByLarger(sa.value as real, sa.weight, sb.weight);
  }

  lemma DivideByLarger(v: real, wa: real, wb: real)
    requires v > 0.0 && 0.0 < wa < wb
    ensures v / wa > v / wb
  {
    var qa := v / wa;
    var qb := v / wb;
    assert qa * wa == v;
    assert qb * wb == v;
    assert qb > 0.0;
    assert qb * wa < qb * wb;
    assert (qa - qb) * wa > 0.0;
  }

  lemma DivideStrict(x: real, y: real, w: real)
    requires x < y && w > 0.0
    ensures x / w < y / w
  {
    assert (y / w - x / w) * w == y - x;
  }

  // ---------------------------------------------------------------------------
  // The stable sort of line 285
  // ---------------------------------------------------------------------------

  /** Ratios never increase along `s`. */
  ghost predicate SortedDesc(s: seq<Scored>)
  {
    forall i, j :: 0 <= i < j < |s| ==> s[i].ratio >= s[j].ratio
  }

  /** Puts `x` in front of the first item whose ratio is not larger. */
  function Insert(x: Scored, s: seq<Scored>): seq<Scored>
  {
    if s == [] || x.ratio >= s[0].ratio then [x] + s
    else [s[0]] + Insert(x, s[1..])
  }

  lemma {:induction false} InsertMembers(x: Scored, s: seq<Scored>, y: Scored)
    ensures y in Insert(x, s) <==> y == x || y in s
    decreases |s|
  {
    if s != [] && x.ratio < s[0].ratio {
      InsertMembers(x, s[1..], y);
      assert s == [s[0]] + s[1..];
    }
  }

  lemma {:induction false} InsertMultiset(x: Scored, s: seq<Scored>)
    ensures multiset(Insert(x, s)) == multiset(s) + multiset{x}
    decreases |s|
  {
    if s != [] && x.ratio < s[0].ratio {
      InsertMultiset(x, s[1..]);
      assert s == [s[0]] + s[1..];
    }
  }

  /** A stable sort by descending ratio: an insertion sort that inserts each
      item in front of its equals, which all come later in the input. */
  function SortDesc(s: seq<Scored>): (r: seq<Scored>)
    ensures multiset(r) == multiset(s)
  {
    if s == [] then []
    else
      assert s == [s[0]] + s[1..];
      InsertMultiset(s[0], SortDesc(s[1..]));
      Insert(s[0], SortDesc(s[1..]))
  }

  lemma {:induction false} InsertSorted(x: Scored, s: seq<Scored>)
    requires SortedDesc(s)
    ensures SortedDesc(Insert(x, s))
    decreases |s|
  {
    if s != [] && x.ratio < s[0].ratio {
      var tail := Insert(x, s[1..]);
      InsertSorted(x, s[1..]);
      forall y | y in tail ensures y.ratio <= s[0].ratio {
        InsertMembers(x, s[1..], y);
        if y != x {
          assert y in s[1..];
        }
      }
      var r := [s[0]] + tail;
      forall i, j | 0 <= i < j < |r| ensures r[i].ratio >= r[j].ratio {
        if i == 0 {
          assert r[j] in tail;
        } else {
          assert r[i] == tail[i - 1] && r[j] == tail[j - 1];
        }
      }
    }
  }

  /** The sort's output is ordered by descending ratio. */
  lemma {:induction false} SortDescSorted(s: seq<Scored>)
    ensures SortedDesc(SortDesc(s))
    decreases |s|
  {
    if s != [] {
      SortDescSorted(s[1..]);
      InsertSorted(s[0], SortDesc(s[1..]));
    }
  }

  /** The items of `s` whose ratio is `q`, in their order in `s`. */
  function WithRatio(s: seq<Scored>, q: real): seq<Scored>
  {
    if s == [] then []
    else (if s[0].ratio == q then [s[0]] else []) + WithRatio(s[1..], q)
  }

  lemma {:induction false} WithRatioMembers(s: seq<Scored>, q: real, x: Scored)
    ensures x in WithRatio(s, q) <==> x in s && x.ratio == q
    decreases |s|
  {
    if s != [] {
      WithRatioMembers(s[1..], q, x);
      assert s == [s[0]] + s[1..];
    }
  }

  lemma {:induction false} InsertWithRatio(x: Scored, s: seq<Scored>, q: real)
    ensures WithRatio(Insert(x, s), q) == (if x.ratio == q then [x] else []) + WithRatio(s, q)
    decreases |s|
  {
    if s == [] || x.ratio >= s[0].ratio {
      WithRatioFront([x] + s, q);
      assert ([x] + s)[1..] == s;
    } else {
      var rest := Insert(x, s[1..]);
      InsertWithRatio(x, s[1..], q);
      WithRatioFront([s[0]] + rest, q);
      assert ([s[0]] + rest)[1..] == rest;
      WithRatioFront(s, q);
      var mine := if x.ratio == q then [x] else [];
      var first := if s[0].ratio == q then [s[0]] else [];
      EmptySwap(first, mine, WithRatio(s[1..], q));
    }
  }

  /** When one of two prefixes is empty, their order does not matter. */
  lemma EmptySwap(a: seq<Scored>, b: seq<Scored>, c: seq<Scored>)
    requires a == [] || b == []
    ensures a + (b + c) == b + (a + c)
  {
    if a == [] {
      assert a + (b + c) == b + c == b + (a + c);
    } else {
      assert a + (b + c) == a + c == b + (a + c);
    }
  }

  /** Stability: items with equal ratios keep their relative order. */
  lemma {:induction false} SortDescStable(s: seq<Scored>, q: real)
    ensures WithRatio(SortDesc(s), q) == WithRatio(s, q)
    decreases |s|
  {
    if s != [] {
      SortDescStable(s[1..], q);
      InsertWithRatio(s[0], SortDesc(s[1..]), q);
    }
  }

  lemma WithRatioFront(s: seq<Scored>, q: real)
    requires s != []
    ensures WithRatio(s, q) == (if s[0].ratio == q then [s[0]] else []) + WithRatio(s[1..], q)
  {
  }

  /** Two descending orders that agree on every group of equal ratios start
      with the same item. */
  lemma SameHead(r: seq<Scored>, t: seq<Scored>)
    requires SortedDesc(r) && SortedDesc(t) && r != [] && t != []
    requires forall q :: WithRatio(r, q) == WithRatio(t, q)
    ensures r[0] == t[0]
  {
    var m := r[0].ratio;
    var n := t[0].ratio;
    WithRatioFront(r, m);
    WithRatioFront(t, n);
    assert r[0] in WithRatio(t, m);
    WithRatioMembers(t, m, r[0]);
    assert t[0] in WithRatio(r, n);
    WithRatioMembers(r, n, t[0]);
    assert m == n;
    WithRatioFront(t, m);
    assert WithRatio(r, m)[0] == r[0];
  }

  lemma TailsAgree(r: seq<Scored>, t: seq<Scored>, q: real)
    requires r != [] && t != [] && r[0] == t[0]
    requires WithRatio(r, q) == WithRatio(t, q)
    ensures WithRatio(r[1..], q) == WithRatio(t[1..], q)
  {
    WithRatioFront(r, q);
    WithRatioFront(t, q);
    var a := WithRatio(r[1..], q);
    var b := WithRatio(t[1..], q);
    if r[0].ratio == q {
      assert ([r[0]] + a)[1..] == a;
      assert ([t[0]] + b)[1..] == b;
    } else {
      assert [] + a == a;
      assert [] + b == b;
    }
  }

  /** Two descending orders of the same items that agree on the order of
      every group of equal ratios are the same sequence. */
  lemma {:induction false} SortedAgree(r: seq<Scored>, t: seq<Scored>)
    requires SortedDesc(r) && SortedDesc(t)
    requires forall q :: WithRatio(r, q) == WithRatio(t, q)
    ensures r == t
    decreases |r| + |t|
  {
    if r == [] && t != [] {
      WithRatioFront(t, t[0].ratio);
      assert false;
    } else if r != [] && t == [] {
      WithRatioFront(r, r[0].ratio);
      assert false;
    } else if r != [] {
      SameHead(r, t);
      forall q ensures WithRatio(r[1..], q) == WithRatio(t[1..], q) {
        TailsAgree(r, t, q);
      }
      assert SortedDesc(r[1..]) && SortedDesc(t[1..]);
      SortedAgree(r[1..], t[1..]);
      assert r == [r[0]] + r[1..];
      assert t == [t[0]] + t[1..];
    }
  }

  /** `SortDesc` is the only stable sort by descending ratio: any ordering
      that is descending and keeps equal ratios in input order equals it. */
  lemma StableSortUnique(s: seq<Scored>, r: seq<Scored>)
    requires SortedDesc(r)
    requires forall q :: WithRatio(r, q) == WithRatio(s, q)
    ensures r == SortDesc(s)
  {
    SortDescSorted(s);
    forall q ensures WithRatio(r, q) == WithRatio(SortDesc(s), q) {
      SortDescStable(s, q);
    }
    SortedAgree(r, SortDesc(s));
  }

  lemma NodesOfCons(x: Scored, s: seq<Scored>)
    ensures NodesOf([x] + s) == [x.node] + NodesOf(s)
  {
  }

  lemma {:induction false} InsertNodes(x: Scored, s: seq<Scored>)
    ensures multiset(NodesOf(Insert(x, s))) == multiset(NodesOf(s)) + multiset{x.node}
    decreases |s|
  {
    if s == [] || x.ratio >= s[0].ratio {
      NodesOfCons(x, s);
    } else {
      InsertNodes(x, s[1..]);
      NodesOfCons(s[0], Insert(x, s[1..]));
      NodesOfCons(s[0], s[1..]);
      assert [s[0]] + s[1..] == s;
    }
  }

  /** Sorting only reorders the nodes. */
  lemma {:induction false} SortDescNodes(s: seq<Scored>)
    ensures multiset(NodesOf(SortDesc(s))) == multiset(NodesOf(s))
    decreases |s|
  {
    if s != [] {
      SortDescNodes(s[1..]);
      InsertNodes(s[0], SortDesc(s[1..]));
      NodesOfCons(s[0], s[1..]);
      assert [s[0]] + s[1..] == s;
    }
  }

  // ---------------------------------------------------------------------------
  // The greedy pass (lines 287-301)
  // ---------------------------------------------------------------------------

  /** The items taken so far and the running totals of their durations and costs. */
  datatype Pick = Pick(selected: seq<Scored>, duration: int, cost: int)

  /** Whether `item` still fits next to what `p` holds (lines 293-296). */
  predicate Fits(p: Pick, item: Scored, c: Constraints)
  {
    Below(p.duration + item.duration, MaxMinutes(c)) && Below(p.cost + item.cost, MaxCost(c))
  }

  /** The state of the greedy pass after visiting `items` in order. */
  function Greedy(items: seq<Scored>, c: Constraints): Pick
    decreases |items|
  {
    if items == [] then Pick([], 0, 0)
    else
      var p := Greedy(items[..|items| - 1], c);
      var item := items[|items| - 1];
      if Fits(p, item, c) then Pick(p.selected + [item], p.duration + item.duration, p.cost + item.cost)
      else p
  }

  /** Sums of the durations and costs the pass charges for `s`. */
  function Minutes(s: seq<Scored>): int
  {
    if s == [] then 0 else Minutes(s[..|s| - 1]) + s[|s| - 1].duration
  }

  function Costs(s: seq<Scored>): int
  {
    if s == [] then 0 else Costs(s[..|s| - 1]) + s[|s| - 1].cost
  }

  /** The running totals are the totals of the items taken; the items taken
      keep their order in the input; and once anything is taken both
      budgets hold. */
  lemma {:induction false} GreedyInvariant(items: seq<Scored>, c: Constraints)
    ensures Greedy(items, c).duration == Minutes(Greedy(items, c).selected)
    ensures Greedy(items, c).cost == Costs(Greedy(items, c).selected)
    ensures IsSubsequence(Greedy(items, c).selected, items)
    ensures Greedy(items, c).selected != [] ==>
      Below(Greedy(items, c).duration, MaxMinutes(c)) && Below(Greedy(items, c).cost, MaxCost(c))
    decreases |items|
  {
    if items != [] {
      var front := items[..|items| - 1];
      var item := items[|items| - 1];
      GreedyInvariant(front, c);
      var p := Greedy(front, c);
      SplitLast(items);
      SubsequenceAppend(p.selected, front, item);
      if Fits(p, item, c) {
        var sel := p.selected + [item];
        assert sel[..|sel| - 1] == p.selected;
      }
    }
  }

  /** When every duration and cost is non-negative and all items together
      fit both budgets, the pass takes every item. */
  lemma {:induction false} GreedyTakesAll(items: seq<Scored>, c: Constraints)
    requires forall x :: x in items ==> x.duration >= 0 && x.cost >= 0
    requires Below(Minutes(items), MaxMinutes(c)) && Below(Costs(items), MaxCost(c))
    ensures Greedy(items, c).selected == items
    decreases |items|
  {
    if items != [] {
      var front := items[..|items| - 1];
      TakesAllFront(items, c);
      GreedyTakesAll(front, c);
      GreedyInvariant(front, c);
      TakesAllLast(items, c);
      SplitLast(items);
    }
  }

  /** The precondition of `GreedyTakesAll` carries over to all but the last item. */
  lemma TakesAllFront(items: seq<Scored>, c: Constraints)
    requires items != []
    requires forall x :: x in items ==> x.duration >= 0 && x.cost >= 0
    requires Below(Minutes(items), MaxMinutes(c)) && Below(Costs(items), MaxCost(c))
    ensures var front := items[..|items| - 1];
      && (forall x :: x in front ==> x.duration >= 0 && x.cost >= 0)
      && Below(Minutes(front), MaxMinutes(c)) && Below(Costs(front), MaxCost(c))
  {
    var front := items[..|items| - 1];
    var item := items[|items| - 1];
    assert item in items;
    assert forall x :: x in front ==> x in items;
    BelowSmaller(Minutes(front), Minutes(items), MaxMinutes(c));
    BelowSmaller(Costs(front), Costs(items), MaxCost(c));
  }

  /** Having taken all but the last item, the pass has room for the last. */
  lemma TakesAllLast(items: seq<Scored>, c: Constraints)
    requires items != []
    requires Below(Minutes(items), MaxMinutes(c)) && Below(Costs(items), MaxCost(c))
    requires var p := Greedy(items[..|items| - 1], c);
      p.duration == Minutes(items[..|items| - 1]) && p.cost == Costs(items[..|items| - 1])
    ensures Fits(Greedy(items[..|items| - 1], c), items[|items| - 1], c)
  {
  }

  lemma BelowSmaller(x: int, y: int, limit: Option<real>)
    requires x <= y && Below(y, limit)
    ensures Below(x, limit)
  {
  }

  // ---------------------------------------------------------------------------
  // The whole function
  // ---------------------------------------------------------------------------

  /** What `knapsackOptimization` returns. */
  function Knapsack(nodes: seq<Node>, c: Constraints): seq<Node>
  {
    NodesOf(Greedy(SortDesc(Scores(nodes, c)), c).selected)
  }

  /** Lines 264-304: score, sort, then one pass that takes every item that
      still fits. */
  method KnapsackOptimization(nodes: seq<Node>, c: Constraints) returns (selectedNodes: seq<Node>)
    ensures selectedNodes == Knapsack(nodes, c)
  {
    var scores := Scores(nodes, c);
    var scoredNodes := new Scored[|scores|](i requires 0 <= i < |scores| => scores[i]);
    assert scoredNodes[..] == scores;
    SortByRatio(scoredNodes);
    selectedNodes := SelectGreedy(scoredNodes, c);
  }

  /** Lines 288-303: one pass over the sorted items with running totals. */
  method SelectGreedy(scoredNodes: array<Scored>, c: Constraints) returns (selectedNodes: seq<Node>)
    ensures selectedNodes == NodesOf(Greedy(scoredNodes[..], c).selected)
  {
    var maxDurationMin := MaxMinutes(c);
    var maxCost := MaxCost(c);
    ghost var sorted := scoredNodes[..];
    selectedNodes := [];
    var totalDuration := 0;
    var totalCost := 0;
    ghost var picked: seq<Scored> := [];
    for i := 0 to scoredNodes.Length
      invariant Greedy(sorted[..i], c) == Pick(picked, totalDuration, totalCost)
      invariant selectedNodes == NodesOf(picked)
    {
      var item := scoredNodes[i];
      assert sorted[..i + 1][..i] == sorted[..i];
      if Below(totalDuration + item.duration, maxDurationMin) && Below(totalCost + item.cost, maxCost) {
        selectedNodes := selectedNodes + [item.node];
        totalDuration := totalDuration + item.duration;
        totalCost := totalCost + item.cost;
        picked := picked + [item];
      }
    }
    assert sorted[..|sorted|] == sorted;
    assert Greedy(sorted, c).selected == picked;
  }

  /** `scoredNodes.sort((a, b) => b.ratio - a.ratio)` (line 285), in place:
      an insertion sort from the back that moves each item right past the
      items with a strictly larger ratio, which keeps equal ratios in input
      order. */
  method SortByRatio(a: array<Scored>)
    modifies a
    ensures a[..] == SortDesc(old(a[..]))
  {
    ghost var s := a[..];
    var i := a.Length;
    while i > 0
      invariant 0 <= i <= a.Length
      invariant a[..i] == s[..i]
      invariant a[i..] == SortDesc(s[i..])
    {
      i := i - 1;
      SortDescSuffix(s, i);
      PrefixShorter(a[..], s, i);
      InsertBack(a, i);
    }
    assert a[..] == a[0..];
  }

  /** Sorting a suffix inserts its first item into the sorted rest. */
  lemma SortDescSuffix(s: seq<Scored>, i: nat)
    requires i < |s|
    ensures SortDesc(s[i..]) == Insert(s[i], SortDesc(s[i + 1..]))
  {
    assert s[i..][1..] == s[i + 1..];
  }

  /** Two sequences that agree up to `i + 1` agree up to `i` and at `i`. */
  lemma PrefixShorter(b: seq<Scored>, s: seq<Scored>, i: nat)
    requires i < |b| && i < |s| && b[..i + 1] == s[..i + 1]
    ensures b[..i] == s[..i] && b[i] == s[i]
  {
    assert b[..i] == b[..i + 1][..i];
    assert b[i] == b[..i + 1][i];
  }

  /** One step of the sort: moves `a[i]` right into the sorted run `a[i + 1..]`. */
  method InsertBack(a: array<Scored>, i: nat)
    requires i < a.Length
    modifies a
    ensures a[..i] == old(a[..i])
    ensures a[i..] == Insert(old(a[i]), old(a[i + 1..]))
  {
    var x := a[i];
    ghost var t := a[i + 1..];
    var j := ShiftLarger(a, i, x, t);
    a[j] := x;
    InsertAfterLarger(x, t, j - i);
    Reassemble(a[..], i, j, t);
  }

  /** The loop of `InsertBack`: move one place left each item after `i`
      whose ratio is larger than `x`'s, stopping at the first that is not. */
  method ShiftLarger(a: array<Scored>, i: nat, x: Scored, ghost t: seq<Scored>) returns (j: nat)
    requires i < a.Length && t == a[i + 1..]
    modifies a
    ensures i <= j < a.Length
    ensures forall k :: 0 <= k < i ==> a[k] == old(a[k])
    ensures forall k :: i <= k < j ==> a[k] == t[k - i]
    ensures forall k :: j < k < a.Length ==> a[k] == t[k - i - 1]
    ensures forall k :: 0 <= k < j - i ==> t[k].ratio > x.ratio
    ensures j - i == |t| || t[j - i].ratio <= x.ratio
  {
    j := i;
    while j + 1 < a.Length && a[j + 1].ratio > x.ratio
      invariant i <= j < a.Length
      invariant forall k :: 0 <= k < i ==> a[k] == old(a[k])
      invariant forall k :: i <= k < j ==> a[k] == t[k - i]
      invariant forall k :: j < k < a.Length ==> a[k] == t[k - i - 1]
      invariant forall k :: 0 <= k < j - i ==> t[k].ratio > x.ratio
    {
      a[j] := a[j + 1];
      j := j + 1;
    }
  }

  lemma Reassemble(b: seq<Scored>, i: nat, j: nat, t: seq<Scored>)
    requires i <= j < |b| && |t| == |b| - i - 1
    requires forall k :: i <= k < j ==> b[k] == t[k - i]
    requires forall k :: j < k < |b| ==> b[k] == t[k - i - 1]
    ensures b[i..] == t[..j - i] + ([b[j]] + t[j - i..])
  {
  }

  /** `Insert` passes exactly the leading items with a strictly larger ratio. */
  lemma {:induction false} InsertAfterLarger(x: Scored, t: seq<Scored>, k: nat)
    requires k <= |t|
    requires forall m :: 0 <= m < k ==> t[m].ratio > x.ratio
    requires k == |t| || t[k].ratio <= x.ratio
    ensures Insert(x, t) == t[..k] + ([x] + t[k..])
    decreases k
  {
    if k > 0 {
      InsertAfterLarger(x, t[1..], k - 1);
      assert t[..k] == [t[0]] + t[1..][..k - 1];
      assert t[k..] == t[1..][k - 1..];
    }
  }

  lemma {:induction false} NodesOfSubsequence(a: seq<Scored>, b: seq<Scored>)
    requires IsSubsequence(a, b)
    ensures IsSubsequence(NodesOf(a), NodesOf(b))
    decreases |b|
  {
    if a != [] {
      var a' := a[..|a| - 1];
      var b' := b[..|b| - 1];
      assert NodesOf(a') == NodesOf(a)[..|a| - 1];
      assert NodesOf(b') == NodesOf(b)[..|b| - 1];
      if a[|a| - 1] == b[|b| - 1] {
        NodesOfSubsequence(a', b');
      } else {
        NodesOfSubsequence(a, b');
        if NodesOf(a)[|a| - 1] == NodesOf(b)[|b| - 1] {
          SubsequenceDropLast(NodesOf(a), NodesOf(b'));
        }
      }
    }
  }

  lemma {:induction false} ChargedSums(s: seq<Scored>, c: Constraints)
    requires ScoredFrom(s, c)
    ensures Minutes(s) == Sum(NodesOf(s), KnapsackMinutes)
    ensures Costs(s) == Sum(NodesOf(s), CostOrZero)
    decreases |s|
  {
    if s != [] {
      var front := s[..|s| - 1];
      assert forall x :: x in front ==> x in s;
      assert s[|s| - 1] in s;
      ChargedSums(front, c);
      assert NodesOf(front) == NodesOf(s)[..|s| - 1];
    }
  }

  /** The selection is drawn from the input: no node appears more often
      than it does there. */
  lemma KnapsackDrawsFromInput(nodes: seq<Node>, c: Constraints)
    ensures multiset(Knapsack(nodes, c)) <= multiset(nodes)
  {
    var sorted := SortDesc(Scores(nodes, c));
    var sel := Greedy(sorted, c).selected;
    GreedyInvariant(sorted, c);
    NodesOfSubsequence(sel, sorted);
    SubsequenceMultiset(NodesOf(sel), NodesOf(sorted));
    SortDescNodes(Scores(nodes, c));
    ScoresOfNodes(nodes, c);
  }

  /** Unless nothing is selected, the selection keeps within the hour limit
      (counting an unset duration as an hour) and within the budget. */
  lemma KnapsackWithinBudget(nodes: seq<Node>, c: Constraints)
    ensures var r := Knapsack(nodes, c);
      r != [] ==>
        && (TruthyReal(c.maxDurationHours) ==> Sum(r, KnapsackMinutes) as real <= c.maxDurationHours.value * 60.0)
        && (TruthyReal(c.maxCostAmount) ==> Sum(r, CostOrZero) as real <= c.maxCostAmount.value)
  {
    var sorted := SortDesc(Scores(nodes, c));
    var sel := Greedy(sorted, c).selected;
    GreedyInvariant(sorted, c);
    SortedScored(nodes, c);
    SubsequenceMembers(sel, sorted);
    assert ScoredFrom(sel, c);
    ChargedSums(sel, c);
  }

  /** Sorting keeps every item the score of its node. */
  lemma SortedScored(nodes: seq<Node>, c: Constraints)
    ensures ScoredFrom(SortDesc(Scores(nodes, c)), c)
  {
    var scores := Scores(nodes, c);
    ScoresOfNodes(nodes, c);
    forall x | x in SortDesc(scores) ensures x == Score(x.node, c) {
      assert x in multiset(SortDesc(scores));
      assert x in scores;
    }
  }

  /** The selection is listed from the best ratio to the worst. */
  lemma KnapsackOrder(nodes: seq<Node>, c: Constraints)
    ensures var r := Knapsack(nodes, c);
      forall i, j :: 0 <= i < j < |r| ==> Score(r[i], c).ratio >= Score(r[j], c).ratio
  {
    var sorted := SortDesc(Scores(nodes, c));
    var sel := Greedy(sorted, c).selected;
    GreedyInvariant(sorted, c);
    SortedScored(nodes, c);
    SortDescSorted(Scores(nodes, c));
    SubsequenceSorted(sel, sorted);
    SubsequenceMembers(sel, sorted);
    forall i, j | 0 <= i < j < |sel| ensures Score(sel[i].node, c).ratio >= Score(sel[j].node, c).ratio {
      assert sel[i] in sel && sel[j] in sel;
    }
  }

  /** Selected nodes of equal ratio keep their input order: within each
      ratio, the selection is a subsequence of the input. */
  lemma KnapsackStable(nodes: seq<Node>, c: Constraints)
    ensures var r := Knapsack(nodes, c);
      forall q :: IsSubsequence(WithRatio(Scores(r, c), q), WithRatio(Scores(nodes, c), q))
  {
    var s := Scores(nodes, c);
    var sorted := SortDesc(s);
    var sel := Greedy(sorted, c).selected;
    GreedyInvariant(sorted, c);
    SortedScored(nodes, c);
    SubsequenceMembers(sel, sorted);
    ScoresOfScored(sel, c);
    forall q ensures IsSubsequence(WithRatio(sel, q), WithRatio(s, q)) {
      WithRatioSubsequence(sel, sorted, q);
      SortDescStable(s, q);
    }
  }

  /** Scoring the nodes of scored items gives the items back. */
  lemma ScoresOfScored(s: seq<Scored>, c: Constraints)
    requires ScoredFrom(s, c)
    ensures Scores(NodesOf(s), c) == s
  {
    forall i | 0 <= i < |s| ensures Scores(NodesOf(s), c)[i] == s[i] {
      assert s[i] in s;
    }
  }

  lemma {:induction false} WithRatioAppend(a: seq<Scored>, b: seq<Scored>, q: real)
    ensures WithRatio(a + b, q) == WithRatio(a, q) + WithRatio(b, q)
    decreases |a|
  {
    if a == [] {
      assert a + b == b;
    } else {
      var head := if a[0].ratio == q then [a[0]] else [];
      WithRatioAppend(a[1..], b, q);
      assert (a + b)[0] == a[0] && (a + b)[1..] == a[1..] + b;
      assert WithRatio(a + b, q) == head + WithRatio(a[1..] + b, q);
      assert WithRatio(a, q) == head + WithRatio(a[1..], q);
    }
  }

  /** Keeping one ratio preserves the subsequence relation. */
  lemma {:induction false} WithRatioSubsequence(a: seq<Scored>, b: seq<Scored>, q: real)
    requires IsSubsequence(a, b)
    ensures IsSubsequence(WithRatio(a, q), WithRatio(b, q))
    decreases |b|
  {
    if a == [] {
      SubsequenceNil(WithRatio(b, q));
    } else {
      var b' := b[..|b| - 1];
      var y := b[|b| - 1];
      SplitLast(b);
      WithRatioAppend(b', [y], q);
      var wy := WithRatio([y], q);
      assert wy == if y.ratio == q then [y] else [];
      if a[|a| - 1] == y {
        var a' := a[..|a| - 1];
        SplitLast(a);
        WithRatioSubsequence(a', b', q);
        WithRatioAppend(a', [y], q);
        if y.ratio == q {
          SubsequenceAppend(WithRatio(a', q), WithRatio(b', q), y);
        } else {
          assert WithRatio(a, q) == WithRatio(a', q);
          assert WithRatio(b, q) == WithRatio(b', q);
        }
      } else {
        WithRatioSubsequence(a, b', q);
        if y.ratio == q {
          SubsequenceAppend(WithRatio(a, q), WithRatio(b', q), y);
        } else {
          assert WithRatio(b, q) == WithRatio(b', q);
        }
      }
    }
  }

  lemma {:induction false} SubsequenceSorted(a: seq<Scored>, b: seq<Scored>)
    requires IsSubsequence(a, b) && SortedDesc(b)
    ensures SortedDesc(a)
    decreases |b|
  {
    if a != [] {
      var a' := a[..|a| - 1];
      var b' := b[..|b| - 1];
      assert SortedDesc(b');
      if a[|a| - 1] == b[|b| - 1] {
        SubsequenceSorted(a', b');
        SubsequenceMembers(a', b');
        forall i | 0 <= i < |a'| ensures a[i].ratio >= a[|a| - 1].ratio {
          assert a[i] == a'[i] && a'[i] in b';
        }
      } else {
        SubsequenceSorted(a, b');
      }
    }
  }

  /** When all nodes together fit both budgets (and no duration or cost is
      negative), the selection is every node, reordered by ratio. */
  lemma KnapsackTakesAll(nodes: seq<Node>, c: Constraints)
    requires forall n :: n in nodes ==> KnapsackMinutes(n) >= 0 && CostOrZero(n) >= 0
    requires TruthyReal(c.maxDurationHours) ==> Sum(nodes, KnapsackMinutes) as real <= c.maxDurationHours.value * 60.0
    requires TruthyReal(c.maxCostAmount) ==> Sum(nodes, CostOrZero) as real <= c.maxCostAmount.value
    ensures multiset(Knapsack(nodes, c)) == multiset(nodes)
  {
    var scores := Scores(nodes, c);
    var sorted := SortDesc(scores);
    ScoresOfNodes(nodes, c);
    SortDescNodes(scores);
    assert forall x :: x in sorted ==> x in multiset(scores);
    assert ScoredFrom(sorted, c);
    ChargedSums(sorted, c);
    SumPermutation(NodesOf(sorted), nodes, KnapsackMinutes);
    SumPermutation(NodesOf(sorted), nodes, CostOrZero);
    forall x | x in sorted ensures x.duration >= 0 && x.cost >= 0 {
      assert x in multiset(scores);
      var i :| 0 <= i < |scores| && scores[i] == x;
      assert nodes[i] in nodes;
    }
    GreedyTakesAll(sorted, c);
  }
}
