/**
 * Day 11, all_paths_dag: every start -> goal path, built by a memo of suffix
 * paths filled in reverse topological order. Generic over the label type.
 */
module Day11Paths {
  import opened Day11Graph

  /** `graph.get(n).cloned().unwrap_or_default()`: a label that is not a key has no successors. */
  function Succ<T(==)>(graph: map<T, seq<T>>, u: T): seq<T> {
    if u in graph then graph[u] else []
  }

  ghost predicate IsEdgePath<T>(graph: map<T, seq<T>>, p: seq<T>) {
    |p| >= 1 && forall k | 0 <= k < |p| - 1 :: p[k + 1] in Succ(graph, p[k])
  }

  ghost predicate EdgeReachable<T(!new)>(graph: map<T, seq<T>>, s: T, v: T) {
    exists p :: IsEdgePath(graph, p) && p[0] == s && p[|p| - 1] == v
  }

  /**
   * What the library's topological sort from root `start` returns when it
   * succeeds: every node reachable from `start` exactly once, each edge
   * pointing forward. When the reachable part has a cycle the sort fails and
   * all_paths_dag aborts, so this is the precondition of all_paths_dag.
   */
  ghost predicate TopoOrderFrom<T(!new)>(graph: map<T, seq<T>>, start: T, order: seq<T>) {
    && Distinct(order)
    && (forall x :: x in order <==> EdgeReachable(graph, start, x))
    && (forall i, j | 0 <= i < |order| && 0 <= j < |order| && order[j] in Succ(graph, order[i]) :: i < j)
  }

  /** Position of the first occurrence of `x`. */
  function IndexOf<T(==)>(s: seq<T>, x: T): (i: nat)
    requires x in s
    ensures i < |s| && s[i] == x && x !in s[..i]
  {
    if s[0] == x then 0
    else
      var i' := IndexOf(s[1..], x);
      assert s[..i' + 1] == [s[0]] + s[1..][..i'];
      1 + i'
  }

  lemma IndexOfDistinct<T>(s: seq<T>, j: nat)
    requires Distinct(s) && j < |s|
    ensures IndexOf(s, s[j]) == j
  {
    var i := IndexOf(s, s[j]);
    assert s[i] == s[j];
  }

  /** Every path of `ps` with `x` put in front. */
  function Prepend<T(==)>(x: T, ps: seq<seq<T>>): (r: seq<seq<T>>)
    ensures |r| == |ps| && forall k | 0 <= k < |ps| :: r[k] == [x] + ps[k]
  {
    seq(|ps|, k requires 0 <= k < |ps| => [x] + ps[k])
  }

  // ---------------------------------------------------------------------
  // The memo, as a specification
  // ---------------------------------------------------------------------

  /**
   * `paths_from[order[i]]` as the loop leaves it: the goal gets `[[goal]]`;
   * any other node gathers, successor by successor, the suffix paths of those
   * successors already in the memo (those later in `order`).
   */
  function Suffixes<T(==)>(graph: map<T, seq<T>>, order: seq<T>, i: nat, goal: T): seq<seq<T>>
    requires Distinct(order) && i < |order|
    decreases |order| - i, 1, 0
  {
    if order[i] == goal then [[goal]]
    else Gather(graph, order, i, goal, Succ(graph, order[i]))
  }

  /** The accumulator `acc` after the successors `succs` of `order[i]`. */
  function Gather<T(==)>(graph: map<T, seq<T>>, order: seq<T>, i: nat, goal: T, succs: seq<T>): seq<seq<T>>
    requires Distinct(order) && i < |order|
    decreases |order| - i, 0, |succs|
  {
    if succs == [] then []
    else
      var s := succs[|succs| - 1];
      Gather(graph, order, i, goal, succs[..|succs| - 1]) + Memo(graph, order, i, goal, s)
  }

  /** What successor `s` of `order[i]` contributes: its suffixes behind `order[i]`, if it is memoised. */
  function Memo<T(==)>(graph: map<T, seq<T>>, order: seq<T>, i: nat, goal: T, s: T): seq<seq<T>>
    requires Distinct(order) && i < |order|
    decreases |order| - i, 0, 0
  {
    if s in order[i + 1..] then
      var j := IndexOf(order, s);
      var k :| i + 1 <= k < |order| && order[k] == s;
      IndexOfDistinct(order, k);
      Prepend(order[i], Suffixes(graph, order, j, goal))
    else []
  }

  // ---------------------------------------------------------------------
  // all_paths_dag
  // ---------------------------------------------------------------------

  /**
   * all_paths_dag (src/bin/11.rs:7-41). The topological order is a parameter:
   * it is what the library sort returns, and a cycle, on which the sort fails
   * and `expect` aborts, is excluded by the precondition.
   */
  method AllPathsDag<T(==,!new)>(graph: map<T, seq<T>>, order: seq<T>, start: T, goal: T) returns (paths: seq<seq<T>>)
    requires TopoOrderFrom(graph, start, order)
    ensures start in order && paths == Suffixes(graph, order, IndexOf(order, start), goal)
    ensures forall p | p in paths :: IsEdgePath(graph, p) && p[0] == start && p[|p| - 1] == goal
    ensures forall p | IsEdgePath(graph, p) && p[0] == start && p[|p| - 1] == goal :: p in paths
    ensures start == goal ==> paths == [[goal]]
    ensures !EdgeReachable(graph, start, goal) ==> paths == []
  {
    var pathsFrom: map<T, seq<seq<T>>> := map[];
    var i := |order|;
    while i > 0
      invariant 0 <= i <= |order|
      invariant forall x :: x in pathsFrom <==> x in order[i..]
      invariant forall j | i <= j < |order| :: pathsFrom[order[j]] == Suffixes(graph, order, j, goal)
    {
      i := i - 1;
      var node := order[i];
      if node == goal {
        pathsFrom := pathsFrom[node := [[goal]]];
        continue;
      }
      var acc: seq<seq<T>> := [];
      if node in graph {
        acc := CollectSuffixes(graph, order, i, goal, pathsFrom);
      }
      pathsFrom := pathsFrom[node := acc];
    }
    ReachableSelfEdge(graph, start);
    paths := if start in pathsFrom then pathsFrom[start] else [];
    AllPathsDagMeaning(graph, order, start, goal);
  }

  /** The loop over the successors of `order[i]`, reading the memo of the later nodes. */
  method CollectSuffixes<T(==)>(graph: map<T, seq<T>>, order: seq<T>, i: nat, goal: T, pathsFrom: map<T, seq<seq<T>>>)
    returns (acc: seq<seq<T>>)
    requires Distinct(order) && i < |order|
    requires forall x :: x in pathsFrom <==> x in order[i + 1..]
    requires forall j | i < j < |order| :: pathsFrom[order[j]] == Suffixes(graph, order, j, goal)
    ensures acc == Gather(graph, order, i, goal, Succ(graph, order[i]))
  {
    var succs := Succ(graph, order[i]);
    acc := [];
    for k := 0 to |succs|
      invariant acc == Gather(graph, order, i, goal, succs[..k])
    {
      var s := succs[k];
      assert succs[..k + 1][..k] == succs[..k];
      if s in pathsFrom {
        var j :| i + 1 <= j < |order| && order[j] == s;
        IndexOfDistinct(order, j);
        acc := AppendPrepended(acc, order[i], pathsFrom[s]);
      }
    }
    assert succs[..|succs|] == succs;
  }

  /** The innermost loop: one copy of each suffix with `node` in front, appended to `acc`. */
  method AppendPrepended<T>(acc: seq<seq<T>>, node: T, suffixes: seq<seq<T>>) returns (acc': seq<seq<T>>)
    ensures acc' == acc + Prepend(node, suffixes)
  {
    acc' := acc;
    for t := 0 to |suffixes|
      invariant acc' == acc + Prepend(node, suffixes[..t])
    {
      var p := [node] + suffixes[t];
      assert suffixes[..t + 1] == suffixes[..t] + [suffixes[t]];
      acc' := acc' + [p];
    }
    assert suffixes[..|suffixes|] == suffixes;
  }

  /** The properties of the memo entry of the start node. */
  lemma AllPathsDagMeaning<T(!new)>(graph: map<T, seq<T>>, order: seq<T>, start: T, goal: T)
    requires TopoOrderFrom(graph, start, order) && start in order
    ensures var paths := Suffixes(graph, order, IndexOf(order, start), goal);
      && (forall p | p in paths :: IsEdgePath(graph, p) && p[0] == start && p[|p| - 1] == goal)
      && (forall p | IsEdgePath(graph, p) && p[0] == start && p[|p| - 1] == goal :: p in paths)
      && (start == goal ==> paths == [[goal]])
      && (!EdgeReachable(graph, start, goal) ==> paths == [])
  {
    var s := IndexOf(order, start);
    var paths := Suffixes(graph, order, s, goal);
    SuffixesValid(graph, order, s, goal);
    forall p | IsEdgePath(graph, p) && p[0] == start && p[|p| - 1] == goal ensures p in paths {
      SuffixesComplete(graph, start, order, goal, p);
    }
    if paths != [] {
      assert paths[0] in paths;
    }
  }

  lemma ReachableSelfEdge<T(!new)>(graph: map<T, seq<T>>, s: T)
    ensures EdgeReachable(graph, s, s)
  {
    assert IsEdgePath(graph, [s]);
  }

  // ---------------------------------------------------------------------
  // What the memo holds
  // ---------------------------------------------------------------------

  /** Soundness: each memoised path runs from its node to the goal along edges. */
  lemma {:induction false} SuffixesValid<T>(graph: map<T, seq<T>>, order: seq<T>, i: nat, goal: T)
    requires Distinct(order) && i < |order|
    ensures forall p | p in Suffixes(graph, order, i, goal) ::
      IsEdgePath(graph, p) && p[0] == order[i] && p[|p| - 1] == goal
    decreases |order| - i, 1, 0
  {
    if order[i] != goal {
      GatherValid(graph, order, i, goal, Succ(graph, order[i]));
    }
  }

  lemma {:induction false} GatherValid<T>(graph: map<T, seq<T>>, order: seq<T>, i: nat, goal: T, succs: seq<T>)
    requires Distinct(order) && i < |order|
    requires forall s | s in succs :: s in Succ(graph, order[i])
    ensures forall p | p in Gather(graph, order, i, goal, succs) ::
      IsEdgePath(graph, p) && p[0] == order[i] && p[|p| - 1] == goal
    decreases |order| - i, 0, |succs|
  {
    if succs != [] {
      var s := succs[|succs| - 1];
      GatherValid(graph, order, i, goal, succs[..|succs| - 1]);
      if s in order[i + 1..] {
        var k :| i + 1 <= k < |order| && order[k] == s;
        IndexOfDistinct(order, k);
        SuffixesValid(graph, order, k, goal);
        PrependValid(graph, order[i], Suffixes(graph, order, k, goal), goal);
      }
    }
  }

  /** A valid path from a successor of `x`, with `x` put in front, is a valid path from `x`. */
  lemma PrependValid<T>(graph: map<T, seq<T>>, x: T, ps: seq<seq<T>>, goal: T)
    requires forall q | q in ps :: IsEdgePath(graph, q) && q[0] in Succ(graph, x) && q[|q| - 1] == goal
    ensures forall p | p in Prepend(x, ps) :: IsEdgePath(graph, p) && p[0] == x && p[|p| - 1] == goal
  {
    forall p | p in Prepend(x, ps) ensures IsEdgePath(graph, p) && p[0] == x && p[|p| - 1] == goal {
      var t :| 0 <= t < |ps| && p == [x] + ps[t];
      assert ps[t] in ps;
      ConsPath(graph, x, ps[t]);
    }
  }

  lemma ConsPath<T>(graph: map<T, seq<T>>, x: T, q: seq<T>)
    requires IsEdgePath(graph, q) && q[0] in Succ(graph, x)
    ensures IsEdgePath(graph, [x] + q)
  {
    var p := [x] + q;
    forall m | 0 <= m < |p| - 1 ensures p[m + 1] in Succ(graph, p[m]) {
      if m > 0 {
        assert p[m] == q[m - 1] && p[m + 1] == q[m];
      }
    }
  }

  /** Along an edge path from the start, positions in a topological order strictly increase. */
  lemma {:induction false} PathClimbs<T(!new)>(graph: map<T, seq<T>>, start: T, order: seq<T>, p: seq<T>, k: nat)
    requires TopoOrderFrom(graph, start, order)
    requires IsEdgePath(graph, p) && EdgeReachable(graph, start, p[0]) && k < |p|
    ensures p[0] in order && p[k] in order && EdgeReachable(graph, start, p[k])
    ensures IndexOf(order, p[0]) + k <= IndexOf(order, p[k])
  {
    if k > 0 {
      PathClimbs(graph, start, order, p, k - 1);
      EdgeReachableStep(graph, start, p[k - 1], p[k]);
      var i, j := IndexOf(order, p[k - 1]), IndexOf(order, p[k]);
      assert order[j] in Succ(graph, order[i]);
    }
  }

  lemma EdgeReachableStep<T(!new)>(graph: map<T, seq<T>>, s: T, u: T, v: T)
    requires EdgeReachable(graph, s, u) && v in Succ(graph, u)
    ensures EdgeReachable(graph, s, v)
  {
    var p :| IsEdgePath(graph, p) && p[0] == s && p[|p| - 1] == u;
    var q := p + [v];
    assert q[|q| - 2] == u;
    assert IsEdgePath(graph, q);
  }

  /** Completeness: every edge path from the start to the goal is enumerated. */
  lemma SuffixesComplete<T(!new)>(graph: map<T, seq<T>>, start: T, order: seq<T>, goal: T, p: seq<T>)
    requires TopoOrderFrom(graph, start, order)
    requires IsEdgePath(graph, p) && p[0] == start && p[|p| - 1] == goal
    ensures start in order && p in Suffixes(graph, order, IndexOf(order, start), goal)
  {
    ReachableSelfEdge(graph, start);
    SuffixesCompleteFrom(graph, start, order, goal, p);
  }

  lemma {:induction false} SuffixesCompleteFrom<T(!new)>(graph: map<T, seq<T>>, start: T, order: seq<T>, goal: T, p: seq<T>)
    requires TopoOrderFrom(graph, start, order)
    requires IsEdgePath(graph, p) && EdgeReachable(graph, start, p[0]) && p[|p| - 1] == goal
    ensures p[0] in order && p in Suffixes(graph, order, IndexOf(order, p[0]), goal)
    decreases |p|
  {
    PathClimbs(graph, start, order, p, 0);
    var i := IndexOf(order, p[0]);
    if |p| == 1 {
      assert p == [goal];
    } else {
      PathClimbs(graph, start, order, p, |p| - 1);
      PathClimbs(graph, start, order, p, 1);
      if p[0] == goal {
        assert false;
      }
      var rest := p[1..];
      assert IsEdgePath(graph, rest) by {
        assert forall m | 0 <= m < |rest| :: rest[m] == p[m + 1];
      }
      SuffixesCompleteFrom(graph, start, order, goal, rest);
      var j := IndexOf(order, p[1]);
      assert p == [p[0]] + rest;
      GatherComplete(graph, order, i, goal, Succ(graph, p[0]), j, rest);
    }
  }

  lemma {:induction false} GatherComplete<T>(graph: map<T, seq<T>>, order: seq<T>, i: nat, goal: T, succs: seq<T>, j: nat, rest: seq<T>)
    requires Distinct(order) && i < j < |order| && order[j] in succs
    requires rest in Suffixes(graph, order, j, goal)
    ensures [order[i]] + rest in Gather(graph, order, i, goal, succs)
    decreases |succs|
  {
    var s := succs[|succs| - 1];
    if s == order[j] {
      assert order[j] in order[i + 1..];
      IndexOfDistinct(order, j);
      var t :| 0 <= t < |Suffixes(graph, order, j, goal)| && Suffixes(graph, order, j, goal)[t] == rest;
      assert Memo(graph, order, i, goal, s)[t] == [order[i]] + rest;
    } else {
      assert order[j] in succs[..|succs| - 1];
      GatherComplete(graph, order, i, goal, succs[..|succs| - 1], j, rest);
    }
  }

  // ---------------------------------------------------------------------
  // The result does not depend on which topological order the sort picks
  // ---------------------------------------------------------------------

  /**
   * The start -> goal suffix paths of `u` defined without any order: at most
   * `fuel` more edges, and the goal ends a path. Successors are visited in
   * list order, as the memo loop visits them.
   */
  ghost function Enum<T>(graph: map<T, seq<T>>, u: T, goal: T, fuel: nat): seq<seq<T>>
    decreases fuel, 1, 0
  {
    if u == goal then [[goal]] else EnumAll(graph, u, goal, fuel, Succ(graph, u))
  }

  ghost function EnumAll<T>(graph: map<T, seq<T>>, u: T, goal: T, fuel: nat, succs: seq<T>): seq<seq<T>>
    decreases fuel, 0, |succs|
  {
    if succs == [] || fuel == 0 then []
    else EnumAll(graph, u, goal, fuel, succs[..|succs| - 1]) + Prepend(u, Enum(graph, succs[|succs| - 1], goal, fuel - 1))
  }

  /** With a complete topological order, each memo entry is the order-free enumeration. */
  lemma {:induction false} SuffixesIsEnum<T(!new)>(graph: map<T, seq<T>>, start: T, order: seq<T>, i: nat, goal: T, fuel: nat)
    requires TopoOrderFrom(graph, start, order) && i < |order| && fuel >= |order| - i
    ensures Suffixes(graph, order, i, goal) == Enum(graph, order[i], goal, fuel)
    decreases |order| - i, 1, 0
  {
    if order[i] != goal {
      GatherIsEnumAll(graph, start, order, i, goal, fuel, Succ(graph, order[i]));
    }
  }

  lemma {:induction false} GatherIsEnumAll<T(!new)>(graph: map<T, seq<T>>, start: T, order: seq<T>, i: nat, goal: T, fuel: nat, succs: seq<T>)
    requires TopoOrderFrom(graph, start, order) && i < |order| && fuel >= |order| - i
    requires forall s | s in succs :: s in Succ(graph, order[i])
    ensures Gather(graph, order, i, goal, succs) == EnumAll(graph, order[i], goal, fuel, succs)
    decreases |order| - i, 0, |succs|
  {
    if succs != [] {
      var s := succs[|succs| - 1];
      GatherIsEnumAll(graph, start, order, i, goal, fuel, succs[..|succs| - 1]);
      MemoIsEnum(graph, start, order, i, goal, fuel, s);
    }
  }

  lemma {:induction false} MemoIsEnum<T(!new)>(graph: map<T, seq<T>>, start: T, order: seq<T>, i: nat, goal: T, fuel: nat, s: T)
    requires TopoOrderFrom(graph, start, order) && i < |order| && fuel >= |order| - i
    requires s in Succ(graph, order[i])
    ensures fuel > 0 && Memo(graph, order, i, goal, s) == Prepend(order[i], Enum(graph, s, goal, fuel - 1))
    decreases |order| - i, 0, 0
  {
    assert order[i] in order;
    EdgeReachableStep(graph, start, order[i], s);
    var k := IndexOf(order, s);
    assert order[k] in Succ(graph, order[i]);
    assert s in order[i + 1..];
    IndexOfDistinct(order, k);
    SuffixesIsEnum(graph, start, order, k, goal, fuel - 1);
  }

  /** Any two orders the sort may return give the same paths, in the same sequence. */
  lemma OrderIndependent<T(!new)>(graph: map<T, seq<T>>, start: T, goal: T, o1: seq<T>, o2: seq<T>)
    requires TopoOrderFrom(graph, start, o1) && TopoOrderFrom(graph, start, o2)
    ensures start in o1 && start in o2
    ensures Suffixes(graph, o1, IndexOf(o1, start), goal) == Suffixes(graph, o2, IndexOf(o2, start), goal)
  {
    ReachableSelfEdge(graph, start);
    var fuel := |o1| + |o2|;
    SuffixesIsEnum(graph, start, o1, IndexOf(o1, start), goal, fuel);
    SuffixesIsEnum(graph, start, o2, IndexOf(o2, start), goal, fuel);
  }
}
