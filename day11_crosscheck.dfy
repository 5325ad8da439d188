/**
 * Day 11, from ids back to labels: the table of count_paths_must_visit,
 * built on interned ids and topo_reachable's order, counts exactly the
 * label paths that all_paths_dag enumerates on any topological order of
 * the input map and that visit both waypoints.
 */
module Day11CrossCheck {
  import opened Day11Graph
  import opened Day11Topo
  import opened Day11Paths
  import opened Day11Ways

  /** What topo_reachable guarantees about its output. */
  ghost predicate KahnOrder(adj: Adjacency, s: nat, order: seq<nat>) {
    && (forall k | 0 <= k < |order| :: order[k] < |adj| && Reachable(adj, s, order[k]))
    && Distinct(order)
    && (forall i, j | 0 <= i < |order| && 0 <= j < |order| && order[j] in adj[order[i]] :: i < j)
    && ((forall v | 0 <= v < |adj| && Reachable(adj, s, v) :: v in order) <==> !HasCycleFrom(adj, s))
  }

  /** What all_paths_dag returns for a topological order of the reachable part. */
  ghost function DagPaths(graph: map<string, seq<string>>, order: seq<string>, start: string, goal: string): seq<seq<string>>
    requires TopoOrderFrom(graph, start, order)
  {
    ReachableSelfEdge(graph, start);
    Suffixes(graph, order, IndexOf(order, start), goal)
  }

  /** How many label paths of `ps` pass through both waypoints. */
  function CountVisiting(ps: seq<seq<string>>, a: string, b: string): nat {
    if ps == [] then 0
    else CountVisiting(ps[..|ps| - 1], a, b) + (if a in ps[|ps| - 1] && b in ps[|ps| - 1] then 1 else 0)
  }

  // ---------------------------------------------------------------------
  // Reachability on the table and on its map form
  // ---------------------------------------------------------------------

  lemma ReachableAsEdges(adj: Adjacency, s: nat, v: nat)
    requires WellFormed(adj) && s < |adj|
    ensures Reachable(adj, s, v) <==> EdgeReachable(AdjMap(adj), s, v)
  {
    if Reachable(adj, s, v) {
      var p :| IsPath(adj, p) && p[0] == s && p[|p| - 1] == v;
      assert IsEdgePath(AdjMap(adj), p);
    }
    if EdgeReachable(AdjMap(adj), s, v) {
      var p :| IsEdgePath(AdjMap(adj), p) && p[0] == s && p[|p| - 1] == v;
      PathInTable(adj, p);
      assert IsPath(adj, p);
    }
  }

  /** When no cycle is reachable, topo_reachable's output is a topological order in the sense of all_paths_dag. */
  lemma KahnOrderIsTopo(adj: Adjacency, s: nat, order: seq<nat>)
    requires WellFormed(adj) && s < |adj| && KahnOrder(adj, s, order) && !HasCycleFrom(adj, s)
    ensures TopoOrderFrom(AdjMap(adj), s, order)
  {
    forall x ensures x in order <==> EdgeReachable(AdjMap(adj), s, x) {
      ReachableAsEdges(adj, s, x);
      if EdgeReachable(AdjMap(adj), s, x) {
        var p :| IsEdgePath(AdjMap(adj), p) && p[0] == s && p[|p| - 1] == x;
        PathInTable(adj, p);
      }
    }
  }

  // ---------------------------------------------------------------------
  // Renaming ids to labels
  // ---------------------------------------------------------------------

  function Rename(names: seq<string>, p: seq<nat>): (r: seq<string>)
    requires forall k | 0 <= k < |p| :: p[k] < |names|
    ensures |r| == |p| && forall k | 0 <= k < |p| :: r[k] == names[p[k]]
  {
    seq(|p|, k requires 0 <= k < |p| => names[p[k]])
  }

  function RenameAll(names: seq<string>, ps: seq<seq<nat>>): (r: seq<seq<string>>)
    requires PathsBelow(ps, |names|)
    ensures |r| == |ps| && forall t | 0 <= t < |ps| :: r[t] == Rename(names, ps[t])
  {
    seq(|ps|, t requires 0 <= t < |ps| => Rename(names, ps[t]))
  }

  /** Each label's successor list is its row renamed. */
  lemma SuccRenamed(graph: map<string, seq<string>>, names: seq<string>, adj: Adjacency, idOf: map<string, nat>, u: nat)
    requires Interned(graph, names, adj, idOf) && WellFormed(adj) && u < |adj|
    ensures Succ(graph, names[u]) == Rename(names, adj[u])
  {
    var x := names[u];
    if x in graph {
      assert idOf[x] == u;
      assert RowMapped(graph, adj, idOf, x);
    }
  }

  /** A walk on the table is a walk on the labels. */
  lemma RenamePath(graph: map<string, seq<string>>, names: seq<string>, adj: Adjacency, idOf: map<string, nat>, p: seq<nat>)
    requires Interned(graph, names, adj, idOf) && WellFormed(adj) && IsPath(adj, p)
    ensures IsEdgePath(graph, Rename(names, p))
  {
    var r := Rename(names, p);
    forall k | 0 <= k < |p| - 1 ensures r[k + 1] in Succ(graph, r[k]) {
      SuccRenamed(graph, names, adj, idOf, p[k]);
      var t :| 0 <= t < |adj[p[k]]| && adj[p[k]][t] == p[k + 1];
      assert Rename(names, adj[p[k]])[t] == r[k + 1];
    }
  }

  /** Reachability on the table implies reachability of the labels. */
  lemma ReachableRenamed(graph: map<string, seq<string>>, names: seq<string>, adj: Adjacency, idOf: map<string, nat>, s: nat, v: nat)
    requires Interned(graph, names, adj, idOf) && WellFormed(adj) && Reachable(adj, s, v)
    ensures s < |adj| && v < |adj| && EdgeReachable(graph, names[s], names[v])
  {
    var p :| IsPath(adj, p) && p[0] == s && p[|p| - 1] == v;
    RenamePath(graph, names, adj, idOf, p);
  }

  /** An acyclic labelled graph gives an acyclic table. */
  lemma NoCycleOnIds(graph: map<string, seq<string>>, names: seq<string>, adj: Adjacency, idOf: map<string, nat>, start: string, lorder: seq<string>)
    requires Interned(graph, names, adj, idOf) && WellFormed(adj) && start in idOf
    requires TopoOrderFrom(graph, start, lorder)
    ensures !HasCycleFrom(adj, idOf[start])
  {
    var s := idOf[start];
    if HasCycleFrom(adj, s) {
      var p :| IsPath(adj, p) && |p| >= 2 && p[0] == p[|p| - 1] && Reachable(adj, s, p[0]);
      ReachableRenamed(graph, names, adj, idOf, s, p[0]);
      RenamePath(graph, names, adj, idOf, p);
      var c := Rename(names, p);
      PathClimbs(graph, start, lorder, c, |c| - 1);
      assert false;
    }
  }

  lemma RenamePrefix(names: seq<string>, p: seq<nat>, n: nat)
    requires n <= |p| && forall k | 0 <= k < |p| :: p[k] < |names|
    ensures Rename(names, p[..n]) == Rename(names, p)[..n]
  {
  }

  lemma RenameAllAppend(names: seq<string>, ps: seq<seq<nat>>, qs: seq<seq<nat>>)
    requires PathsBelow(ps, |names|) && PathsBelow(qs, |names|)
    ensures PathsBelow(ps + qs, |names|)
    ensures RenameAll(names, ps + qs) == RenameAll(names, ps) + RenameAll(names, qs)
  {
    assert forall t | 0 <= t < |ps + qs| :: (ps + qs)[t] == if t < |ps| then ps[t] else qs[t - |ps|];
  }

  lemma RenameAllPrepend(names: seq<string>, u: nat, ps: seq<seq<nat>>)
    requires u < |names| && PathsBelow(ps, |names|)
    ensures PathsBelow(Prepend(u, ps), |names|)
    ensures RenameAll(names, Prepend(u, ps)) == Prepend(names[u], RenameAll(names, ps))
  {
    forall t | 0 <= t < |ps| ensures Rename(names, [u] + ps[t]) == [names[u]] + Rename(names, ps[t]) {
    }
  }

  /** What renaming needs of intern_graph's result: distinct names, and every row renames to its label's successors. */
  ghost predicate RowsRenamed(graph: map<string, seq<string>>, names: seq<string>, ids: map<nat, seq<nat>>) {
    && Distinct(names)
    && forall u | 0 <= u < |names| ::
         && (forall k | 0 <= k < |Succ(ids, u)| :: Succ(ids, u)[k] < |names|)
         && Succ(graph, names[u]) == Rename(names, Succ(ids, u))
  }

  lemma InternedRowsRenamed(graph: map<string, seq<string>>, names: seq<string>, adj: Adjacency, idOf: map<string, nat>)
    requires Interned(graph, names, adj, idOf) && WellFormed(adj)
    ensures RowsRenamed(graph, names, AdjMap(adj))
  {
    forall u | 0 <= u < |names|
      ensures (forall k | 0 <= k < |adj[u]| :: adj[u][k] < |names|) && Succ(graph, names[u]) == Rename(names, adj[u])
    {
      SuccRenamed(graph, names, adj, idOf, u);
      forall k | 0 <= k < |adj[u]| ensures adj[u][k] < |names| {
        assert adj[u][k] in adj[u];
      }
    }
    forall i, j | 0 <= i < j < |names| ensures names[i] != names[j] {
      assert idOf[names[i]] == i && idOf[names[j]] == j;
    }
  }

  /**
   * The order-free enumeration from `names[x]` on the labels is the one from
   * `x` on the id graph, renamed.
   */
  lemma {:induction false} EnumRenamed(graph: map<string, seq<string>>, names: seq<string>, ids: map<nat, seq<nat>>, x: nat, g: nat, fuel: nat)
    requires RowsRenamed(graph, names, ids) && x < |names| && g < |names|
    ensures PathsBelow(Enum(ids, x, g, fuel), |names|)
    ensures Enum(graph, names[x], names[g], fuel) == RenameAll(names, Enum(ids, x, g, fuel))
    decreases fuel, 1, 0
  {
    if x == g {
      assert Rename(names, [g]) == [names[g]];
      assert RenameAll(names, [[g]])[0] == [names[g]];
    } else {
      assert names[x] != names[g] by {
        if x < g {
          assert names[x] != names[g];
        } else {
          assert names[g] != names[x];
        }
      }
      EnumAllRenamed(graph, names, ids, x, g, fuel, Succ(ids, x));
    }
  }

  lemma {:induction false} EnumAllRenamed(graph: map<string, seq<string>>, names: seq<string>, ids: map<nat, seq<nat>>, x: nat, g: nat, fuel: nat, succs: seq<nat>)
    requires RowsRenamed(graph, names, ids) && x < |names| && g < |names|
    requires forall k | 0 <= k < |succs| :: succs[k] < |names|
    ensures PathsBelow(EnumAll(ids, x, g, fuel, succs), |names|)
    ensures EnumAll(graph, names[x], names[g], fuel, Rename(names, succs))
         == RenameAll(names, EnumAll(ids, x, g, fuel, succs))
    decreases fuel, 0, |succs|
  {
    if succs != [] && fuel != 0 {
      var n := |succs|;
      EnumAllRenamed(graph, names, ids, x, g, fuel, succs[..n - 1]);
      var v, f := succs[n - 1], fuel - 1;
      EnumRenamed(graph, names, ids, v, g, f);
      RenamedStep(graph, names, ids, x, g, fuel, succs, v, f);
    }
  }

  /** The last successor's paths, prefixed, renamed: one step of EnumAllRenamed. */
  lemma RenamedStep(graph: map<string, seq<string>>, names: seq<string>, ids: map<nat, seq<nat>>, x: nat, g: nat, fuel: nat, succs: seq<nat>,
                    v: nat, f: nat)
    requires x < |names| && g < |names| && succs != [] && v == succs[|succs| - 1] && fuel == f + 1
    requires forall k | 0 <= k < |succs| :: succs[k] < |names|
    requires PathsBelow(EnumAll(ids, x, g, fuel, succs[..|succs| - 1]), |names|)
    requires PathsBelow(Enum(ids, v, g, f), |names|)
    requires EnumAll(graph, names[x], names[g], fuel, Rename(names, succs[..|succs| - 1]))
          == RenameAll(names, EnumAll(ids, x, g, fuel, succs[..|succs| - 1]))
    requires Enum(graph, names[v], names[g], f) == RenameAll(names, Enum(ids, v, g, f))
    ensures PathsBelow(EnumAll(ids, x, g, fuel, succs), |names|)
    ensures EnumAll(graph, names[x], names[g], fuel, Rename(names, succs))
         == RenameAll(names, EnumAll(ids, x, g, fuel, succs))
  {
    var n := |succs|;
    RenamePrefix(names, succs, n - 1);
    var front := EnumAll(ids, x, g, fuel, succs[..n - 1]);
    var tail := Enum(ids, v, g, f);
    RenameAllPrepend(names, x, tail);
    RenameAllAppend(names, front, Prepend(x, tail));
    var renamed := Rename(names, succs);
    assert renamed[..n - 1] == Rename(names, succs[..n - 1]) && renamed[n - 1] == names[v];
    assert EnumAll(graph, names[x], names[g], fuel, renamed)
        == RenameAll(names, front) + Prepend(names[x], Enum(graph, names[v], names[g], f));
  }

  // ---------------------------------------------------------------------
  // Counting bits is counting visits
  // ---------------------------------------------------------------------

  lemma {:induction false} BitsOfVisits(names: seq<string>, a: string, b: string, p: seq<nat>)
    requires forall k | 0 <= k < |p| :: p[k] < |names|
    ensures BitsOf(names, a, b, p) & !REQ == 0
    ensures (BitsOf(names, a, b, p) & 1 == 1) <==> a in Rename(names, p)
    ensures (BitsOf(names, a, b, p) & 2 == 2) <==> b in Rename(names, p)
    decreases |p|
  {
    if p != [] {
      BitsOfVisits(names, a, b, p[1..]);
      assert Rename(names, p) == [names[p[0]]] + Rename(names, p[1..]);
      var x := Bit(names[p[0]], a, b);
      var y := BitsOf(names, a, b, p[1..]);
      assert (x | y) & 1 == 1 <==> x & 1 == 1 || y & 1 == 1;
      assert (x | y) & 2 == 2 <==> x & 2 == 2 || y & 2 == 2;
    }
  }

  lemma ReqIsBoth(v: bv8)
    requires v & !REQ == 0
    ensures (0 | v == REQ) <==> (v & 1 == 1 && v & 2 == 2)
  {
  }

  lemma {:induction false} CountMaskIsVisiting(names: seq<string>, a: string, b: string, ps: seq<seq<nat>>)
    requires PathsBelow(ps, |names|)
    ensures CountMask(names, a, b, ps, 0) == CountVisiting(RenameAll(names, ps), a, b)
    decreases |ps|
  {
    if ps != [] {
      var n := |ps|;
      assert RenameAll(names, ps)[..n - 1] == RenameAll(names, ps[..n - 1]);
      CountMaskIsVisiting(names, a, b, ps[..n - 1]);
      BitsOfVisits(names, a, b, ps[n - 1]);
      ReqIsBoth(BitsOf(names, a, b, ps[n - 1]));
    }
  }

  // ---------------------------------------------------------------------
  // The cross-check
  // ---------------------------------------------------------------------

  /** Enumerations agree for any fuel at least as large as an order of the reachable part. */
  lemma DagPathsOnIds(graph: map<string, seq<string>>, names: seq<string>, adj: Adjacency, idOf: map<string, nat>,
                      start: string, goal: string, order: seq<nat>, lorder: seq<string>)
    requires Interned(graph, names, adj, idOf) && WellFormed(adj) && start in idOf && goal in idOf
    requires KahnOrder(adj, idOf[start], order) && TopoOrderFrom(graph, start, lorder)
    ensures idOf[start] in order
    ensures PathsBelow(Suffixes(AdjMap(adj), order, IndexOf(order, idOf[start]), idOf[goal]), |names|)
    ensures DagPaths(graph, lorder, start, goal)
         == RenameAll(names, Suffixes(AdjMap(adj), order, IndexOf(order, idOf[start]), idOf[goal]))
  {
    var s, g := idOf[start], idOf[goal];
    NoCycleOnIds(graph, names, adj, idOf, start, lorder);
    KahnOrderIsTopo(adj, s, order);
    ReachableSelfEdge(AdjMap(adj), s);
    var fuel := |order| + |lorder|;
    var i := IndexOf(order, s);
    SuffixesIsEnum(AdjMap(adj), s, order, i, g, fuel);
    ReachableSelfEdge(graph, start);
    SuffixesIsEnum(graph, start, lorder, IndexOf(lorder, start), goal, fuel);
    InternedRowsRenamed(graph, names, adj, idOf);
    EnumRenamed(graph, names, AdjMap(adj), s, g, fuel);
  }

  /** The value dp[u][m] holds once the table is filled: rows outside the order stay 0. */
  function DpEntry(adj: Adjacency, names: seq<string>, a: string, b: string, order: seq<nat>, g: nat, u: nat, m: bv8): nat
    requires DpInput(adj, names, order)
  {
    if u in order then Sat(Ways(adj, names, a, b, order, g, IndexOf(order, u), m)) else 0
  }

  /**
   * The answer of count_paths_must_visit, as its table gives it, is the
   * saturated number of all_paths_dag paths that visit both waypoints,
   * for every topological order all_paths_dag may use.
   */
  lemma CountMatchesDagPaths(graph: map<string, seq<string>>, names: seq<string>, adj: Adjacency, idOf: map<string, nat>,
                             start: string, goal: string, a: string, b: string, order: seq<nat>, lorder: seq<string>)
    requires Interned(graph, names, adj, idOf) && WellFormed(adj) && start in idOf && goal in idOf
    requires KahnOrder(adj, idOf[start], order) && TopoOrderFrom(graph, start, lorder)
    ensures DpInput(adj, names, order)
    ensures (if idOf[goal] in order then DpEntry(adj, names, a, b, order, idOf[goal], idOf[start], 0) else 0)
         == Sat(CountVisiting(DagPaths(graph, lorder, start, goal), a, b))
  {
    var s, g := idOf[start], idOf[goal];
    DagPathsOnIds(graph, names, adj, idOf, start, goal, order, lorder);
    var i := IndexOf(order, s);
    var ps := Suffixes(AdjMap(adj), order, i, g);
    CountMaskIsVisiting(names, a, b, ps);
    if g in order {
      WaysCountsPaths(adj, names, a, b, order, g, i, 0);
    } else {
      NoCycleOnIds(graph, names, adj, idOf, start, lorder);
      KahnOrderIsTopo(adj, s, order);
      AllPathsDagMeaning(AdjMap(adj), order, s, g);
    }
  }

  // ---------------------------------------------------------------------
  // The worked example
  // ---------------------------------------------------------------------

  const DIAMOND: map<string, seq<string>> := map["a" := ["b", "c"], "b" := ["d"], "c" := ["d"], "d" := []]

  /** The labels of the diamond differ in their one letter. */
  lemma DiamondDistinct()
    ensures Distinct(["a", "b", "c", "d"])
  {
    var order := ["a", "b", "c", "d"];
    forall i, j | 0 <= i < j < 4
      ensures order[i] != order[j]
    {
      assert order[i][0] != order[j][0];
    }
  }

  /** The contribution of a successor memoised at position `k` behind `i`: its suffixes with `order[i]` in front. */
  lemma MemoOfLater(graph: map<string, seq<string>>, order: seq<string>, i: nat, k: nat, goal: string)
    requires Distinct(order) && i < k < |order|
    ensures Memo(graph, order, i, goal, order[k]) == Prepend(order[i], Suffixes(graph, order, k, goal))
  {
    IndexOfDistinct(order, k);
    assert order[i + 1..][k - i - 1] == order[k];
  }

  /** A node of the diamond whose only successor is "d" gets the one path to "d". */
  lemma DiamondMemo(i: nat, c: string)
    requires 1 <= i <= 2 && ["a", "b", "c", "d"][i] == c
    ensures Memo(DIAMOND, ["a", "b", "c", "d"], i, "d", "d") == [[c, "d"]]
  {
    var order := ["a", "b", "c", "d"];
    DiamondDistinct();
    MemoOfLater(DIAMOND, order, i, 3, "d");
    assert Suffixes(DIAMOND, order, 3, "d") == [["d"]];
    assert [c] + ["d"] == [c, "d"];
    assert Prepend(c, [["d"]]) == [[c, "d"]];
  }

  /** "a" gets each path from its successor `s` with "a" in front. */
  lemma DiamondMemoFromA(j: nat, s: string)
    requires 1 <= j <= 2 && ["a", "b", "c", "d"][j] == s
    requires Suffixes(DIAMOND, ["a", "b", "c", "d"], j, "d") == [[s, "d"]]
    ensures Memo(DIAMOND, ["a", "b", "c", "d"], 0, "d", s) == [["a", s, "d"]]
  {
    var order := ["a", "b", "c", "d"];
    DiamondDistinct();
    MemoOfLater(DIAMOND, order, 0, j, "d");
    assert ["a"] + [s, "d"] == ["a", s, "d"];
    assert Prepend("a", [[s, "d"]]) == [["a", s, "d"]];
  }

  /** The memo for "b" (i = 1) or "c" (i = 2) holds the one path through "d". */
  lemma DiamondSuffix(i: nat, c: string)
    requires 1 <= i <= 2 && ["a", "b", "c", "d"][i] == c
    ensures Suffixes(DIAMOND, ["a", "b", "c", "d"], i, "d") == [[c, "d"]]
  {
    var order := ["a", "b", "c", "d"];
    DiamondDistinct();
    DiamondMemo(i, c);
    assert Succ(DIAMOND, c) == ["d"];
    assert Gather(DIAMOND, order, i, "d", ["d"]) == Gather(DIAMOND, order, i, "d", []) + Memo(DIAMOND, order, i, "d", "d");
  }

  /** The memo for "a" lists a-b-d, then a-c-d, in the order of a's successors. */
  lemma DiamondTop()
    ensures Suffixes(DIAMOND, ["a", "b", "c", "d"], 0, "d") == [["a", "b", "d"], ["a", "c", "d"]]
  {
    var order := ["a", "b", "c", "d"];
    DiamondDistinct();
    DiamondSuffix(1, "b");
    DiamondMemoFromA(1, "b");
    DiamondSuffix(2, "c");
    DiamondMemoFromA(2, "c");
    assert Succ(DIAMOND, "a") == ["b", "c"];
    assert ["b", "c"][..1] == ["b"];
    assert Gather(DIAMOND, order, 0, "d", ["b"]) == [["a", "b", "d"]];
    assert Gather(DIAMOND, order, 0, "d", ["b", "c"]) == Gather(DIAMOND, order, 0, "d", ["b"]) + Memo(DIAMOND, order, 0, "d", "c");
  }

  /**
   * On the graph a -> b, a -> c, b -> d, c -> d with the order a, b, c, d,
   * the memo for "a" lists the two paths a-b-d and a-c-d; no path visits
   * both b and c, and one visits both b and d.
   */
  lemma DiamondPaths()
    ensures Suffixes(DIAMOND, ["a", "b", "c", "d"], 0, "d") == [["a", "b", "d"], ["a", "c", "d"]]
    ensures CountVisiting(Suffixes(DIAMOND, ["a", "b", "c", "d"], 0, "d"), "b", "c") == 0
    ensures CountVisiting(Suffixes(DIAMOND, ["a", "b", "c", "d"], 0, "d"), "b", "d") == 1
  {
    DiamondTop();
    var ps: seq<seq<string>> := [["a", "b", "d"], ["a", "c", "d"]];
    assert ps[..1] == [["a", "b", "d"]];
    assert ps[..1][..0] == ps[..0];
    assert "c" !in ps[0] && "c" in ps[1] && "b" !in ps[1] && "b" in ps[0] && "d" in ps[0];
  }
}
