/** Facts about sequences that the graph algorithms rely on: distinctness,
    occurrence counts, subsequences and the pigeonhole bound. */
module SeqUtil {

  /** No element occurs twice. */
  predicate Distinct<T(==)>(s: seq<T>) {
    forall i, j :: 0 <= i < j < |s| ==> s[i] != s[j]
  }

  /** Number of occurrences of `x` in `s`. */
  function Count<T(==)>(s: seq<T>, x: T): (n: nat)
    ensures n <= |s|
    ensures n == 0 <==> x !in s
  {
    if s == [] then 0 else Count(s[..|s| - 1], x) + (if s[|s| - 1] == x then 1 else 0)
  }

  lemma {:induction false} CountAppend<T>(a: seq<T>, b: seq<T>, x: T)
    ensures Count(a + b, x) == Count(a, x) + Count(b, x)
    decreases |b|
  {
    if b == [] {
      assert a + b == a;
    } else {
      assert (a + b)[..|a + b| - 1] == a + b[..|b| - 1];
      CountAppend(a, b[..|b| - 1], x);
    }
  }

  lemma CountFront<T>(s: seq<T>, x: T)
    requires s != []
    ensures Count(s, x) == (if s[0] == x then 1 else 0) + Count(s[1..], x)
  {
    assert s == [s[0]] + s[1..];
    CountAppend([s[0]], s[1..], x);
    assert [s[0]][..0] == [];
  }

  /** `a` is obtained from `b` by deleting elements: it keeps their relative order. */
  predicate IsSubsequence<T(==)>(a: seq<T>, b: seq<T>)
    decreases |b|
  {
    if a == [] then true
    else if b == [] then false
    else if a[|a| - 1] == b[|b| - 1] then IsSubsequence(a[..|a| - 1], b[..|b| - 1])
    else IsSubsequence(a, b[..|b| - 1])
  }

  /** Dropping the last element of `a + b` drops the last element of `b`. */
  lemma AppendFront<T>(a: seq<T>, b: seq<T>)
    requires b != []
    ensures (a + b)[..|a + b| - 1] == a + b[..|b| - 1]
    ensures (a + b)[|a + b| - 1] == b[|b| - 1]
  {
  }

  /** A sequence that starts with `p` is `p` followed by the rest. */
  lemma PrefixSplit<T>(s: seq<T>, p: seq<T>)
    requires |p| <= |s| && s[..|p|] == p
    ensures s == p + s[|p|..]
  {
  }

  /** A non-empty sequence is its front followed by its last element. */
  lemma SplitLast<T>(s: seq<T>)
    requires s != []
    ensures s[..|s| - 1] + [s[|s| - 1]] == s
  {
  }

  lemma {:induction false} SubsequenceAppend<T>(a: seq<T>, b: seq<T>, x: T)
    requires IsSubsequence(a, b)
    ensures IsSubsequence(a, b + [x]) && IsSubsequence(a + [x], b + [x])
  {
    assert (b + [x])[..|b|] == b;
    assert (a + [x])[..|a|] == a;
    SubsequenceExtend(a, b + [x]);
  }

  /** A subsequence of `b` without its last element is a subsequence of `b`. */
  lemma {:induction false} SubsequenceExtend<T>(a: seq<T>, b: seq<T>)
    requires b != [] && IsSubsequence(a, b[..|b| - 1])
    ensures IsSubsequence(a, b)
    decreases |b|, 0
  {
    if a != [] && a[|a| - 1] == b[|b| - 1] {
      SubsequenceDropLast(a, b[..|b| - 1]);
    }
  }

  lemma {:induction false} SubsequenceDropLast<T>(a: seq<T>, b: seq<T>)
    requires a != [] && IsSubsequence(a, b)
    ensures IsSubsequence(a[..|a| - 1], b)
    decreases |b|, 1
  {
    var a' := a[..|a| - 1];
    if a[|a| - 1] == b[|b| - 1] {
      SubsequenceExtend(a', b);
    } else {
      SubsequenceDropLast(a, b[..|b| - 1]);
      SubsequenceExtend(a', b);
    }
  }

  /** The empty sequence is a subsequence of anything. */
  lemma SubsequenceNil<T>(b: seq<T>)
    ensures IsSubsequence([], b)
  {
    if b != [] {
      SubsequenceNil(b[..|b| - 1]);
      SubsequenceExtend([], b);
    }
  }

  lemma {:induction false} SubsequenceRefl<T>(a: seq<T>)
    ensures IsSubsequence(a, a)
    decreases |a|
  {
    if a != [] {
      SubsequenceRefl(a[..|a| - 1]);
    }
  }

  lemma {:induction false} SubsequenceMembers<T>(a: seq<T>, b: seq<T>)
    requires IsSubsequence(a, b)
    ensures forall x :: x in a ==> x in b
    ensures |a| <= |b|
    decreases |b|
  {
    if a != [] {
      if a[|a| - 1] == b[|b| - 1] {
        SubsequenceMembers(a[..|a| - 1], b[..|b| - 1]);
        SplitLast(a);
      } else {
        SubsequenceMembers(a, b[..|b| - 1]);
      }
    }
  }

  /** A subsequence draws each element from `b` at most as often as it occurs there. */
  lemma {:induction false} SubsequenceMultiset<T>(a: seq<T>, b: seq<T>)
    requires IsSubsequence(a, b)
    ensures multiset(a) <= multiset(b)
    decreases |b|
  {
    if a != [] {
      var b' := b[..|b| - 1];
      assert b == b' + [b[|b| - 1]];
      if a[|a| - 1] == b[|b| - 1] {
        var a' := a[..|a| - 1];
        assert a == a' + [a[|a| - 1]];
        SubsequenceMultiset(a', b');
      } else {
        SubsequenceMultiset(a, b');
      }
    }
  }

  /** `b` with its element at `i` taken out. */
  function RemoveAt<T>(b: seq<T>, i: nat): (r: seq<T>)
    requires i < |b|
    ensures |r| == |b| - 1
    ensures forall x :: x in b && x != b[i] ==> x in r
  {
    b[..i] + b[i + 1..]
  }

  /** Pigeonhole: a sequence without repetitions whose elements all occur in `b` is no longer than `b`. */
  lemma {:induction false} DistinctLength<T>(a: seq<T>, b: seq<T>)
    requires Distinct(a)
    requires forall x :: x in a ==> x in b
    ensures |a| <= |b|
    decreases |a|
  {
    if a != [] {
      var x := a[0];
      assert x in a;
      var i :| 0 <= i < |b| && b[i] == x;
      var b' := RemoveAt(b, i);
      forall y | y in a[1..] ensures y in b' {
        var k :| 1 <= k < |a| && a[k] == y;
      }
      DistinctLength(a[1..], b');
    }
  }

  /** A repetition-free sequence that is as long as `b` and drawn from `b` holds every element of `b`. */
  lemma DistinctCovers<T>(a: seq<T>, b: seq<T>)
    requires Distinct(a) && Distinct(b)
    requires forall x :: x in a ==> x in b
    requires |a| == |b|
    ensures forall x :: x in b ==> x in a
  {
    forall x | x in b ensures x in a {
      if x !in a {
        var i :| 0 <= i < |b| && b[i] == x;
        DistinctLength(a, RemoveAt(b, i));
      }
    }
  }

  lemma DistinctAppend<T>(a: seq<T>, b: seq<T>)
    requires Distinct(a) && Distinct(b)
    requires forall x :: x in a ==> x !in b
    ensures Distinct(a + b)
  {
    var c := a + b;
    forall i, j | 0 <= i < j < |c| ensures c[i] != c[j] {
      if j < |a| {
      } else if i >= |a| {
        assert c[i] == b[i - |a|] && c[j] == b[j - |a|];
      } else {
        assert c[i] in a && c[j] == b[j - |a|];
      }
    }
  }

  lemma DistinctConcat<T>(a: seq<T>, b: seq<T>)
    requires Distinct(a + b)
    ensures Distinct(a) && Distinct(b)
    ensures forall x :: x in a ==> x !in b
  {
    forall x | x in a ensures x !in b {
      var i :| 0 <= i < |a| && a[i] == x;
      forall j | 0 <= j < |b| ensures b[j] != x {
        assert (a + b)[i] == a[i] && (a + b)[|a| + j] == b[j];
      }
    }
    forall i, j | 0 <= i < j < |b| ensures b[i] != b[j] {
      assert (a + b)[|a| + i] == b[i] && (a + b)[|a| + j] == b[j];
    }
    forall i, j | 0 <= i < j < |a| ensures a[i] != a[j] {
      assert (a + b)[i] == a[i] && (a + b)[j] == a[j];
    }
  }

  /** In a repetition-free sequence every member occurs exactly once. */
  lemma {:induction false} DistinctMultiset<T>(s: seq<T>, x: T)
    requires Distinct(s)
    ensures multiset(s)[x] == if x in s then 1 else 0
    decreases |s|
  {
    if s != [] {
      var s' := s[..|s| - 1];
      assert s == s' + [s[|s| - 1]];
      DistinctMultiset(s', x);
    }
  }

  /** Two repetition-free sequences with the same members are permutations of each other. */
  lemma DistinctSameMembers<T>(a: seq<T>, b: seq<T>)
    requires Distinct(a) && Distinct(b)
    requires forall x :: x in a <==> x in b
    ensures multiset(a) == multiset(b)
  {
    forall x ensures multiset(a)[x] == multiset(b)[x] {
      DistinctMultiset(a, x);
      DistinctMultiset(b, x);
    }
  }
}
