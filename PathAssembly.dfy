/** `createLearningPath` (lib/graph-utils.ts:186-241): totals, average
    difficulty and the ordered list of violated constraints of a node list. */
module PathAssembly {
  import opened Wrappers
  import opened SeqUtil
  import opened GraphModel

  /** What one node adds to a total. */
  function DurationOrZero(n: Node): int { OrElse(n.durationMin, 0) }
  function CostOrZero(n: Node): int { OrElse(n.costAmount, 0) }
  function DifficultyOrZero(n: Node): int { if Truthy(n.difficulty) then n.difficulty.value else 0 }
  function RatedOne(n: Node): int { if Truthy(n.difficulty) then 1 else 0 }

  /** The sum of `f` over `ns`, added up front to back. */
  function Sum(ns: seq<Node>, f: Node -> int): int
  {
    if ns == [] then 0 else Sum(ns[..|ns| - 1], f) + f(ns[|ns| - 1])
  }

  lemma {:induction false} SumAppend(a: seq<Node>, b: seq<Node>, f: Node -> int)
    ensures Sum(a + b, f) == Sum(a, f) + Sum(b, f)
    decreases |b|
  {
    if b == [] {
      assert a + b == a;
    } else {
      SumAppend(a, b[..|b| - 1], f);
      AppendFront(a, b);
    }
  }

  /** A sum does not depend on the order of the nodes. */
  lemma {:induction false} SumPermutation(a: seq<Node>, b: seq<Node>, f: Node -> int)
    requires multiset(a) == multiset(b)
    ensures Sum(a, f) == Sum(b, f)
    decreases |a|
  {
    if a == [] {
      assert |b| == |multiset(b)| == 0;
    } else {
      var i := MatchLast(a, b);
      SumPermutation(a[..|a| - 1], b[..i] + b[i + 1..], f);
      SumRemove(b, i, f);
    }
  }

  /** The last element of `a` sits somewhere in its permutation `b`; what
      remains on both sides is again a permutation. */
  lemma MatchLast(a: seq<Node>, b: seq<Node>) returns (i: nat)
    requires a != [] && multiset(a) == multiset(b)
    ensures i < |b| && b[i] == a[|a| - 1]
    ensures multiset(a[..|a| - 1]) == multiset(b[..i] + b[i + 1..])
  {
    var front := a[..|a| - 1];
    var x := a[|a| - 1];
    SplitLast(a);
    assert x in multiset(b);
    i :| 0 <= i < |b| && b[i] == x;
    var rest := b[..i] + b[i + 1..];
    SplitAt(b, i);
    assert multiset(b) == multiset(b[..i]) + (multiset([x]) + multiset(b[i + 1..]));
    assert multiset(rest) == multiset(b[..i]) + multiset(b[i + 1..]);
    assert multiset(a) == multiset(front) + multiset([x]);
    assert multiset(front) == multiset(a) - multiset([x]);
  }

  /** Removing one element removes its share of the sum. */
  lemma SumRemove(b: seq<Node>, i: nat, f: Node -> int)
    requires i < |b|
    ensures Sum(b, f) == Sum(b[..i] + b[i + 1..], f) + f(b[i])
  {
    var x, before, after := b[i], b[..i], b[i + 1..];
    SplitAt(b, i);
    SumAppend(before, [x] + after, f);
    SumAppend([x], after, f);
    SumAppend(before, after, f);
    SumSingle(x, f);
  }

  lemma SplitAt(b: seq<Node>, i: nat)
    requires i < |b|
    ensures b == b[..i] + ([b[i]] + b[i + 1..])
  {
  }

  lemma SumSingle(x: Node, f: Node -> int)
    ensures Sum([x], f) == f(x)
  {
    assert [x][..0] == [];
  }

  /** The number of nodes with a truthy difficulty. */
  function RatedCount(ns: seq<Node>): (k: nat)
    ensures k <= |ns|
    ensures k == 0 <==> forall n :: n in ns ==> !Truthy(n.difficulty)
  {
    if ns == [] then 0
    else
      var front := ns[..|ns| - 1];
      SplitLast(ns);
      RatedCount(front) + RatedOne(ns[|ns| - 1])
  }

  lemma {:induction false} RatedCountIsSum(ns: seq<Node>)
    ensures RatedCount(ns) == Sum(ns, RatedOne)
    decreases |ns|
  {
    if ns != [] {
      RatedCountIsSum(ns[..|ns| - 1]);
    }
  }

  /** The mean of the truthy difficulties, `0` when there are none. */
  function AverageDifficulty(ns: seq<Node>): real
  {
    var k := RatedCount(ns);
    if k > 0 then Sum(ns, DifficultyOrZero) as real / k as real else 0.0
  }

  /** The checks of lines 211-232; a limit of `undefined` or `0` is not checked. */
  function Violations(totalDuration: int, totalCost: int, averageDifficulty: real, c: Constraints): (v: seq<Violation>)
    ensures TimeExceeded in v <==> TruthyReal(c.maxDurationHours) && totalDuration as real / 60.0 > c.maxDurationHours.value
    ensures CostExceeded in v <==> TruthyReal(c.maxCostAmount) && totalCost as real > c.maxCostAmount.value
    ensures DifficultyTooHigh in v <==> TruthyReal(c.maxDifficulty) && averageDifficulty > c.maxDifficulty.value
    ensures forall i, j :: 0 <= i < j < |v| ==> Rank(v[i]) < Rank(v[j])
  {
    (if TruthyReal(c.maxDurationHours) && totalDuration as real / 60.0 > c.maxDurationHours.value then [TimeExceeded] else [])
    + (if TruthyReal(c.maxCostAmount) && totalCost as real > c.maxCostAmount.value then [CostExceeded] else [])
    + (if TruthyReal(c.maxDifficulty) && averageDifficulty > c.maxDifficulty.value then [DifficultyTooHigh] else [])
  }

  /** The order in which the checks are made. */
  function Rank(v: Violation): nat
  {
    match v
    case TimeExceeded => 0
    case CostExceeded => 1
    case DifficultyTooHigh => 2
  }

  /** The learning path of `ns`, as a function. */
  function PathOf(ns: seq<Node>, c: Constraints): LearningPath
  {
    var totalDuration := Sum(ns, DurationOrZero);
    var totalCost := Sum(ns, CostOrZero);
    var average := AverageDifficulty(ns);
    var v := Violations(totalDuration, totalCost, average, c);
    LearningPath(ns, totalDuration, totalCost, average, |v| == 0, v)
  }

  /** Each accumulator of the loop grows by the next node's share. */
  lemma PrefixTotals(nodes: seq<Node>, i: nat)
    requires i < |nodes|
    ensures Sum(nodes[..i + 1], DurationOrZero) == Sum(nodes[..i], DurationOrZero) + DurationOrZero(nodes[i])
    ensures Sum(nodes[..i + 1], CostOrZero) == Sum(nodes[..i], CostOrZero) + CostOrZero(nodes[i])
    ensures Sum(nodes[..i + 1], DifficultyOrZero) == Sum(nodes[..i], DifficultyOrZero) + DifficultyOrZero(nodes[i])
    ensures RatedCount(nodes[..i + 1]) == RatedCount(nodes[..i]) + RatedOne(nodes[i])
  {
    assert nodes[..i + 1][..i] == nodes[..i];
  }

  /** The accumulation loop of lines 190-204: running totals of duration, cost
      and rated difficulty, and the number of rated nodes. */
  method Accumulate(nodes: seq<Node>)
    returns (totalDuration: int, totalCost: int, totalDifficulty: int, difficultyCount: nat)
    ensures totalDuration == Sum(nodes, DurationOrZero)
    ensures totalCost == Sum(nodes, CostOrZero)
    ensures totalDifficulty == Sum(nodes, DifficultyOrZero)
    ensures difficultyCount == RatedCount(nodes)
  {
    totalDuration, totalCost, totalDifficulty, difficultyCount := 0, 0, 0, 0;
    var i := 0;
    while i < |nodes|
      invariant 0 <= i <= |nodes|
      invariant totalDuration == Sum(nodes[..i], DurationOrZero)
      invariant totalCost == Sum(nodes[..i], CostOrZero)
      invariant totalDifficulty == Sum(nodes[..i], DifficultyOrZero)
      invariant difficultyCount == RatedCount(nodes[..i])
    {
      var node := nodes[i];
      PrefixTotals(nodes, i);
      totalDuration := totalDuration + OrElse(node.durationMin, 0);
      totalCost := totalCost + OrElse(node.costAmount, 0);
      if Truthy(node.difficulty) {
        totalDifficulty := totalDifficulty + node.difficulty.value;
        difficultyCount := difficultyCount + 1;
      }
      i := i + 1;
    }
    assert nodes[..|nodes|] == nodes;
  }

  /** `createLearningPath` (lines 186-241): one pass with four accumulators,
      then the three checks in order. */
  method CreateLearningPath(nodes: seq<Node>, c: Constraints) returns (p: LearningPath)
    ensures p == PathOf(nodes, c)
  {
    var totalDuration, totalCost, totalDifficulty, difficultyCount := Accumulate(nodes);
    var averageDifficulty := if difficultyCount > 0 then totalDifficulty as real / difficultyCount as real else 0.0;
    var violatedConstraints := CheckConstraints(totalDuration, totalCost, averageDifficulty, c);
    p := LearningPath(nodes, totalDuration, totalCost, averageDifficulty,
                      |violatedConstraints| == 0, violatedConstraints);
  }

  /** Lines 208-232: push one tag per failed check, in order. */
  method CheckConstraints(totalDuration: int, totalCost: int, averageDifficulty: real, c: Constraints)
    returns (violatedConstraints: seq<Violation>)
    ensures violatedConstraints == Violations(totalDuration, totalCost, averageDifficulty, c)
  {
    var totalDurationHours := totalDuration as real / 60.0;
    violatedConstraints := [];
    if TruthyReal(c.maxDurationHours) && totalDurationHours > c.maxDurationHours.value {
      violatedConstraints := violatedConstraints + [TimeExceeded];
    }
    if TruthyReal(c.maxCostAmount) && totalCost as real > c.maxCostAmount.value {
      violatedConstraints := violatedConstraints + [CostExceeded];
    }
    if TruthyReal(c.maxDifficulty) && averageDifficulty > c.maxDifficulty.value {
      violatedConstraints := violatedConstraints + [DifficultyTooHigh];
    }
  }

  // ---------------------------------------------------------------------------
  // What the path reports
  // ---------------------------------------------------------------------------

  /** The path keeps the given nodes and is valid exactly when every truthy
      limit is met: hours within the time limit, cost within the budget, and
      average difficulty within the cap. */
  lemma PathValidIff(ns: seq<Node>, c: Constraints)
    ensures PathOf(ns, c).nodes == ns
    ensures PathOf(ns, c).isValid <==>
      && (TruthyReal(c.maxDurationHours) ==> Sum(ns, DurationOrZero) as real / 60.0 <= c.maxDurationHours.value)
      && (TruthyReal(c.maxCostAmount) ==> Sum(ns, CostOrZero) as real <= c.maxCostAmount.value)
      && (TruthyReal(c.maxDifficulty) ==> AverageDifficulty(ns) <= c.maxDifficulty.value)
  {
    var p := PathOf(ns, c);
    if !p.isValid {
      var v := p.violatedConstraints;
      assert v[0] in v;
    }
  }

  /** Totals of a concatenation are the sums of the parts' totals. */
  lemma PathTotalsAppend(a: seq<Node>, b: seq<Node>, c: Constraints)
    ensures PathOf(a + b, c).totalDuration == PathOf(a, c).totalDuration + PathOf(b, c).totalDuration
    ensures PathOf(a + b, c).totalCost == PathOf(a, c).totalCost + PathOf(b, c).totalCost
  {
    SumAppend(a, b, DurationOrZero);
    SumAppend(a, b, CostOrZero);
  }

  /** Reordering the nodes changes neither the totals, the average, nor the
      violations. */
  lemma PathPermutation(a: seq<Node>, b: seq<Node>, c: Constraints)
    requires multiset(a) == multiset(b)
    ensures PathOf(a, c).totalDuration == PathOf(b, c).totalDuration
    ensures PathOf(a, c).totalCost == PathOf(b, c).totalCost
    ensures PathOf(a, c).averageDifficulty == PathOf(b, c).averageDifficulty
    ensures PathOf(a, c).violatedConstraints == PathOf(b, c).violatedConstraints
  {
    SumPermutation(a, b, DurationOrZero);
    SumPermutation(a, b, CostOrZero);
    SumPermutation(a, b, DifficultyOrZero);
    SumPermutation(a, b, RatedOne);
    RatedCountIsSum(a);
    RatedCountIsSum(b);
  }

  lemma {:induction false} DifficultySumBounds(ns: seq<Node>, lo: int, hi: int)
    requires forall n :: n in ns && Truthy(n.difficulty) ==> lo <= n.difficulty.value <= hi
    ensures lo * RatedCount(ns) <= Sum(ns, DifficultyOrZero) <= hi * RatedCount(ns)
    decreases |ns|
  {
    if ns != [] {
      var front := ns[..|ns| - 1];
      var last := ns[|ns| - 1];
      assert forall n :: n in front ==> n in ns;
      DifficultySumBounds(front, lo, hi);
      assert RatedCount(ns) == RatedCount(front) + RatedOne(last);
      assert Sum(ns, DifficultyOrZero) == Sum(front, DifficultyOrZero) + DifficultyOrZero(last);
      assert last in ns;
      AddBounds(lo, hi, RatedCount(front), Sum(front, DifficultyOrZero), DifficultyOrZero(last), RatedOne(last));
    }
  }

  lemma AddBounds(lo: int, hi: int, k: int, s: int, d: int, r: int)
    requires lo * k <= s <= hi * k
    requires (r == 1 && lo <= d <= hi) || (r == 0 && d == 0)
    ensures lo * (k + r) <= s + d <= hi * (k + r)
  {
    assert lo * (k + r) == lo * k + lo * r;
    assert hi * (k + r) == hi * k + hi * r;
  }

  /** Dividing bounds `lo * k <= s <= hi * k` by a positive count. */
  lemma DivideBounds(lo: int, hi: int, k: int, s: int)
    requires k > 0 && lo * k <= s <= hi * k
    ensures lo as real <= s as real / k as real <= hi as real
  {
    var q := s as real / k as real;
    assert q * k as real == s as real;
    assert (lo * k) as real == lo as real * k as real;
    assert (hi * k) as real == hi as real * k as real;
    assert (q - lo as real) * k as real >= 0.0;
    assert (hi as real - q) * k as real >= 0.0;
  }

  /** The average lies between the least and the greatest truthy difficulty
      (for difficulties rated 1 to 5 it is within 1 to 5). */
  lemma AverageWithin(ns: seq<Node>, lo: int, hi: int)
    requires forall n :: n in ns && Truthy(n.difficulty) ==> lo <= n.difficulty.value <= hi
    requires RatedCount(ns) > 0
    ensures lo as real <= AverageDifficulty(ns) <= hi as real
  {
    DifficultySumBounds(ns, lo, hi);
    DivideBounds(lo, hi, RatedCount(ns), Sum(ns, DifficultyOrZero));
  }
}
