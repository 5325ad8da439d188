/**
 * The `all_pairs_sorted` shape shared by days 8 and 9: two nested loops
 * list every index pair `(i, j)` with `i < j` together with a measure of
 * the two points, and a stable sort then orders the list by a key on that
 * measure. The measure and the key are parameters here.
 */
module Pairs {
  import opened Sorting

  /** Two point indices `(i, j)` with the measure of the two points. */
  type Pair = ((nat, nat), int)

  function PairOf<T>(points: seq<T>, f: (T, T) -> int, i: nat, j: nat): Pair
    requires i < |points| && j < |points|
  {
    ((i, j), f(points[i], points[j]))
  }

  /** The pairs `(i, i + 1)`, ..., `(i, j - 1)`, as the inner loop produces them. */
  function Row<T>(points: seq<T>, f: (T, T) -> int, i: nat, j: nat): seq<Pair>
    requires i < |points| && j <= |points|
    decreases j
  {
    if j <= i + 1 then []
    else Row(points, f, i, j - 1) + [PairOf(points, f, i, j - 1)]
  }

  /** The pairs the loops produce before the outer index reaches `i`. */
  function Generated<T>(points: seq<T>, f: (T, T) -> int, i: nat): seq<Pair>
    requires i <= |points|
  {
    if i == 0 then [] else Generated(points, f, i - 1) + Row(points, f, i - 1, |points|)
  }

  /** The generated pairs after the stable sort by `key`. */
  function SortedPairs<T>(points: seq<T>, f: (T, T) -> int, key: Pair -> int): (pairs: seq<Pair>)
    ensures Indices(pairs, |points|)
  {
    var g := Generated(points, f, |points|);
    var sorted := SortBy(g, key);
    assert forall k | 0 <= k < |sorted| :: sorted[k] in multiset(g);
    GeneratedIndices(points, f, |points|);
    sorted
  }

  /** Every pair names two points of a list of `n`. */
  predicate Indices(pairs: seq<Pair>, n: nat) {
    forall k | 0 <= k < |pairs| :: pairs[k].0.0 < n && pairs[k].0.1 < n
  }

  /** `p` is a pair `i < j` of points with its measure. */
  predicate Proper<T>(points: seq<T>, f: (T, T) -> int, p: Pair) {
    p.0.0 < p.0.1 < |points| && p == PairOf(points, f, p.0.0, p.0.1)
  }

  /** Index pairs in lexicographic order. */
  predicate Before(p: Pair, q: Pair) {
    p.0.0 < q.0.0 || (p.0.0 == q.0.0 && p.0.1 < q.0.1)
  }

  predicate Increasing(s: seq<Pair>) {
    forall a, b | 0 <= a < b < |s| :: Before(s[a], s[b])
  }

  lemma {:induction false} RowMembers<T>(points: seq<T>, f: (T, T) -> int, i: nat, j: nat, p: Pair)
    requires i < |points| && j <= |points|
    ensures p in Row(points, f, i, j) <==> p.0.0 == i && p.0.1 < j && Proper(points, f, p)
    decreases j
  {
    if j > i + 1 {
      RowMembers(points, f, i, j - 1, p);
    }
  }

  lemma {:induction false} RowIncreasing<T>(points: seq<T>, f: (T, T) -> int, i: nat, j: nat)
    requires i < |points| && j <= |points|
    ensures Increasing(Row(points, f, i, j))
    ensures forall k | 0 <= k < |Row(points, f, i, j)| :: Row(points, f, i, j)[k].0.0 == i
    ensures |Row(points, f, i, j)| == if j <= i + 1 then 0 else j - i - 1
    decreases j
  {
    if j > i + 1 {
      RowIncreasing(points, f, i, j - 1);
      var front := Row(points, f, i, j - 1);
      forall k | 0 <= k < |front| ensures front[k].0.1 < j - 1 {
        RowMembers(points, f, i, j - 1, front[k]);
        assert front[k] in front;
      }
    }
  }

  /** The loops produce exactly the pairs `i < j < n` with their measures ... */
  lemma {:induction false} GeneratedMembers<T>(points: seq<T>, f: (T, T) -> int, i: nat, p: Pair)
    requires i <= |points|
    ensures p in Generated(points, f, i) <==> p.0.0 < i && Proper(points, f, p)
    decreases i
  {
    if i > 0 {
      var front, row := Generated(points, f, i - 1), Row(points, f, i - 1, |points|);
      assert p in Generated(points, f, i) <==> p in front || p in row by {
        InAppend(p, front, row, Generated(points, f, i));
      }
      assert p in front <==> p.0.0 < i - 1 && Proper(points, f, p) by {
        GeneratedMembers(points, f, i - 1, p);
      }
      assert p in row <==> p.0.0 == i - 1 && Proper(points, f, p) by {
        RowMembers(points, f, i - 1, |points|, p);
      }
    }
  }

  lemma InAppend(p: Pair, front: seq<Pair>, back: seq<Pair>, all: seq<Pair>)
    requires all == front + back
    ensures p in all <==> p in front || p in back
  {
    if p in all {
      var k :| 0 <= k < |all| && all[k] == p;
      if k >= |front| {
        assert back[k - |front|] == p;
      }
    }
  }

  lemma GeneratedIndices<T>(points: seq<T>, f: (T, T) -> int, i: nat)
    requires i <= |points|
    ensures forall p | p in multiset(Generated(points, f, i)) :: p.0.0 < p.0.1 < |points|
  {
    forall p | p in multiset(Generated(points, f, i)) ensures p.0.0 < p.0.1 < |points| {
      GeneratedMembers(points, f, i, p);
    }
  }

  /** ... each exactly once, in lexicographic order of the indices ... */
  lemma {:induction false} GeneratedIncreasing<T>(points: seq<T>, f: (T, T) -> int, i: nat)
    requires i <= |points|
    ensures Increasing(Generated(points, f, i))
    decreases i
  {
    if i > 0 {
      GeneratedIncreasing(points, f, i - 1);
      RowIncreasing(points, f, i - 1, |points|);
      var front := Generated(points, f, i - 1);
      forall a | 0 <= a < |front| ensures front[a].0.0 < i - 1 {
        GeneratedMembers(points, f, i - 1, front[a]);
        assert front[a] in front;
      }
    }
  }

  lemma PairsStep(n: int, i: int)
    requires 0 <= i < n
    ensures i * (2 * n - i - 1) + 2 * (n - i - 1) == (i + 1) * (2 * n - (i + 1) - 1)
  {
  }

  /** ... and n(n-1)/2 of them in all. */
  lemma {:induction false} GeneratedCount<T>(points: seq<T>, f: (T, T) -> int, i: nat)
    requires i <= |points|
    ensures 2 * |Generated(points, f, i)| == i * (2 * |points| - i - 1)
    decreases i
  {
    if i > 0 {
      GeneratedCount(points, f, i - 1);
      RowIncreasing(points, f, i - 1, |points|);
      var front, row := Generated(points, f, i - 1), Row(points, f, i - 1, |points|);
      assert |Generated(points, f, i)| == |front| + |row|;
      assert |row| == |points| - i;
      PairsStep(|points|, i - 1);
    }
  }

  /** The sorted list holds exactly the pairs `i < j < n` with their measures ... */
  lemma SortedPairsMembers<T>(points: seq<T>, f: (T, T) -> int, key: Pair -> int, p: Pair)
    ensures p in SortedPairs(points, f, key) <==> Proper(points, f, p)
  {
    GeneratedMembers(points, f, |points|, p);
    assert p in SortedPairs(points, f, key) <==> p in multiset(SortedPairs(points, f, key));
  }

  /** ... n(n-1)/2 of them, each once, ordered by the key. */
  lemma SortedPairsSpec<T>(points: seq<T>, f: (T, T) -> int, key: Pair -> int)
    ensures 2 * |SortedPairs(points, f, key)| == |points| * (|points| - 1)
    ensures multiset(SortedPairs(points, f, key)) == multiset(Generated(points, f, |points|))
    ensures SortedBy(SortedPairs(points, f, key), key)
  {
    GeneratedCount(points, f, |points|);
  }

  lemma {:induction false} WithKeyMembers(s: seq<Pair>, key: Pair -> int, d: int, p: Pair)
    ensures p in WithKey(s, key, d) ==> p in s
    decreases |s|
  {
    if s != [] {
      WithKeyMembers(s[1..], key, d, p);
    }
  }

  lemma {:induction false} WithKeyIncreasing(s: seq<Pair>, key: Pair -> int, d: int)
    requires Increasing(s)
    ensures Increasing(WithKey(s, key, d))
    decreases |s|
  {
    if s != [] {
      WithKeyIncreasing(s[1..], key, d);
      var rest := WithKey(s[1..], key, d);
      forall b | 0 <= b < |rest| ensures Before(s[0], rest[b]) {
        WithKeyMembers(s[1..], key, d, rest[b]);
        assert rest[b] in rest;
        var k :| 0 <= k < |s[1..]| && s[1..][k] == rest[b];
        assert s[k + 1] == rest[b];
      }
    }
  }

  /** The sort is stable: pairs with equal keys keep index order. */
  lemma SortedPairsTiesInOrder<T>(points: seq<T>, f: (T, T) -> int, key: Pair -> int, d: int)
    ensures Increasing(WithKey(SortedPairs(points, f, key), key, d))
  {
    var g := Generated(points, f, |points|);
    SortByStable(g, key, d);
    GeneratedIncreasing(points, f, |points|);
    WithKeyIncreasing(g, key, d);
  }
}
