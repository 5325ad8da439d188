/**
 * Day 11, count_paths_must_visit: intern the map, order the part reachable
 * from the start with topo_reachable, and fill `dp[u][mask]` in reverse
 * order with saturating sums.
 */
module Day11Count {
  import opened Day11Graph
  import opened Day11Topo
  import opened Day11Paths
  import opened Day11Ways
  import opened Day11CrossCheck

  /** A mask below 4 joined with a node's bit stays below 4 and does not drop below the mask. */
  lemma JoinBounds(mask: nat, ub: bv8)
    requires mask < 4 && ub & !REQ == 0
    ensures mask <= ((mask as bv8) | ub) as int < 4
  {
    assert ub == 0 || ub == 1 || ub == 2 || ub == 3;
  }

  /** One step of the successor loop: the entry read for successor `v` is WaysVia's term. */
  lemma EntryOfSuccessor(dp: array2<nat>, adj: Adjacency, names: seq<string>, a: string, b: string, order: seq<nat>, g: nat,
                         i: nat, mask: nat, nm: bv8, v: nat)
    requires DpInput(adj, names, order) && i < |order| && dp.Length0 == |adj| && dp.Length1 == 4
    requires mask <= nm as int < 4 && v < |adj|
    requires forall j, m | i < j < |order| && 0 <= m < 4 :: dp[order[j], m] == Sat(Ways(adj, names, a, b, order, g, j, m as bv8))
    requires forall x, m | 0 <= x < |adj| && x !in order[i + 1..] && x != order[i] && 0 <= m < 4 :: dp[x, m] == 0
    requires forall m | mask <= m < 4 :: dp[order[i], m] == 0
    ensures dp[v, nm as int] == Sat(WaysVia(adj, names, a, b, order, g, i, nm, v))
  {
    if v in order[i + 1..] {
      var k :| i + 1 <= k < |order| && order[k] == v;
      IndexOfDistinct(order, k);
      assert dp[order[k], nm as int] == Sat(Ways(adj, names, a, b, order, g, k, (nm as int) as bv8));
    }
  }

  /** The inner `for &v in &adj[u]` loop: the saturating sum of the successors' entries. */
  method SumSuccessors(dp: array2<nat>, adj: Adjacency, names: seq<string>, a: string, b: string, order: seq<nat>, g: nat,
                       i: nat, mask: nat, nm: bv8) returns (sum: nat)
    requires DpInput(adj, names, order) && i < |order| && dp.Length0 == |adj| && dp.Length1 == 4
    requires mask <= nm as int < 4
    requires forall j, m | i < j < |order| && 0 <= m < 4 :: dp[order[j], m] == Sat(Ways(adj, names, a, b, order, g, j, m as bv8))
    requires forall x, m | 0 <= x < |adj| && x !in order[i + 1..] && x != order[i] && 0 <= m < 4 :: dp[x, m] == 0
    requires forall m | mask <= m < 4 :: dp[order[i], m] == 0
    ensures sum == Sat(WaysSum(adj, names, a, b, order, g, i, nm, adj[order[i]]))
  {
    var succs := adj[order[i]];
    sum := 0;
    var k := 0;
    while k < |succs|
      invariant 0 <= k <= |succs|
      invariant sum == Sat(WaysSum(adj, names, a, b, order, g, i, nm, succs[..k]))
    {
      var v := succs[k];
      assert v in adj[order[i]];
      EntryOfSuccessor(dp, adj, names, a, b, order, g, i, mask, nm, v);
      assert succs[..k + 1][..k] == succs[..k];
      SaturatingAddSat(WaysSum(adj, names, a, b, order, g, i, nm, succs[..k]), WaysVia(adj, names, a, b, order, g, i, nm, v));
      sum := SaturatingAdd(sum, dp[v, nm as int]);
      k := k + 1;
    }
    assert succs[..k] == succs;
  }

  /** One pass of the outer loop: all four masks of row `order[i]`. */
  method FillRow(dp: array2<nat>, adj: Adjacency, names: seq<string>, a: string, b: string, order: seq<nat>, g: nat, i: nat)
    requires DpInput(adj, names, order) && i < |order| && dp.Length0 == |adj| && dp.Length1 == 4
    requires forall j, m | i < j < |order| && 0 <= m < 4 :: dp[order[j], m] == Sat(Ways(adj, names, a, b, order, g, j, m as bv8))
    requires forall x, m | 0 <= x < |adj| && x !in order[i + 1..] && 0 <= m < 4 :: dp[x, m] == 0
    modifies dp
    ensures forall j, m | i <= j < |order| && 0 <= m < 4 :: dp[order[j], m] == Sat(Ways(adj, names, a, b, order, g, j, m as bv8))
    ensures forall x, m | 0 <= x < |adj| && x !in order[i..] && 0 <= m < 4 :: dp[x, m] == 0
  {
    var u := order[i];
    var ub := Bit(names[u], a, b);
    assert u !in order[i + 1..];
    var mask := 0;
    while mask < 4
      invariant 0 <= mask <= 4
      invariant forall j, m | i < j < |order| && 0 <= m < 4 :: dp[order[j], m] == Sat(Ways(adj, names, a, b, order, g, j, m as bv8))
      invariant forall x, m | 0 <= x < |adj| && x !in order[i + 1..] && x != u && 0 <= m < 4 :: dp[x, m] == 0
      invariant forall m | 0 <= m < mask :: dp[u, m] == Sat(Ways(adj, names, a, b, order, g, i, m as bv8))
      invariant forall m | mask <= m < 4 :: dp[u, m] == 0
    {
      JoinBounds(mask, ub);
      var newmask := (mask as bv8) | ub;
      if u == g {
        dp[u, mask] := if newmask == REQ then 1 else 0;
      } else {
        var sum := SumSuccessors(dp, adj, names, a, b, order, g, i, mask, newmask);
        dp[u, mask] := sum;
      }
      mask := mask + 1;
    }
  }

  /** The `for &u in order.iter().rev()` loop over a zeroed table. */
  method FillDp(adj: Adjacency, names: seq<string>, a: string, b: string, order: seq<nat>, g: nat) returns (dp: array2<nat>)
    requires DpInput(adj, names, order)
    ensures fresh(dp) && dp.Length0 == |adj| && dp.Length1 == 4
    ensures forall u, m | 0 <= u < |adj| && 0 <= m < 4 :: dp[u, m] == DpEntry(adj, names, a, b, order, g, u, m as bv8)
  {
    dp := new nat[|adj|, 4]((_, _) => 0);
    var i := |order|;
    while i > 0
      invariant 0 <= i <= |order|
      invariant forall j, m | i <= j < |order| && 0 <= m < 4 :: dp[order[j], m] == Sat(Ways(adj, names, a, b, order, g, j, m as bv8))
      invariant forall x, m | 0 <= x < |adj| && x !in order[i..] && 0 <= m < 4 :: dp[x, m] == 0
    {
      i := i - 1;
      FillRow(dp, adj, names, a, b, order, g, i);
    }
    assert order[0..] == order;
    forall u, m | 0 <= u < |adj| && 0 <= m < 4 ensures dp[u, m] == DpEntry(adj, names, a, b, order, g, u, m as bv8) {
      if u in order {
        var j := IndexOf(order, u);
        assert dp[order[j], m] == Sat(Ways(adj, names, a, b, order, g, j, m as bv8));
      }
    }
  }

  /** A label that occurs nowhere in the map is reachable from no other label. */
  lemma UnlabelledUnreachable(graph: map<string, seq<string>>, s: string, v: string)
    requires !Labelled(graph, v) && v != s
    ensures !EdgeReachable(graph, s, v)
  {
    forall p | IsEdgePath(graph, p) && p[0] == s ensures p[|p| - 1] != v {
      if |p| >= 2 {
        assert p[|p| - 1] in Succ(graph, p[|p| - 2]);
      }
    }
  }

  /**
   * count_paths_must_visit. `keys` is the iteration order of the map's
   * keys, which intern_graph uses to hand out ids; the ghost outputs are
   * intern_graph's and topo_reachable's results.
   */
  method CountPathsMustVisit(graph: map<string, seq<string>>, keys: seq<string>, start: string, goal: string, a: string, b: string)
    returns (r: nat, ghost names: seq<string>, ghost adj: Adjacency, ghost idOf: map<string, nat>, ghost order: seq<nat>)
    requires forall u :: u in graph <==> u in keys
    requires Distinct(keys)
    ensures Interned(graph, names, adj, idOf) && WellFormed(adj)
    ensures r <= U64_MAX
    ensures !Labelled(graph, start) || !Labelled(graph, goal) ==> r == 0
    ensures Labelled(graph, start) && Labelled(graph, goal) ==>
      && KahnOrder(adj, idOf[start], order) && DpInput(adj, names, order)
      && r == if idOf[goal] in order then DpEntry(adj, names, a, b, order, idOf[goal], idOf[start], 0) else 0
    ensures !EdgeReachable(graph, start, goal) ==> r == 0
    ensures Labelled(graph, start) ==> forall lorder | TopoOrderFrom(graph, start, lorder) ::
      r == Sat(CountVisiting(DagPaths(graph, lorder, start, goal), a, b))
  {
    var names', adj', idOf' := InternGraph(graph, keys);
    names, adj, idOf, order := names', adj', idOf', [];
    if start !in idOf' || goal !in idOf' {
      r := 0;
      if start in idOf {
        forall lorder | TopoOrderFrom(graph, start, lorder) ensures r == Sat(CountVisiting(DagPaths(graph, lorder, start, goal), a, b)) {
          UnlabelledUnreachable(graph, start, goal);
          ReachableSelfEdge(graph, start);
          AllPathsDagMeaning(graph, lorder, start, goal);
        }
      }
      return;
    }
    var s := idOf'[start];
    var g := idOf'[goal];
    var order' := TopoReachable(adj', s);
    order := order';
    assert KahnOrder(adj, s, order);
    if g !in order' {
      r := 0;
    } else {
      var dp := FillDp(adj', names', a, b, order', g);
      r := dp[s, 0];
      ReachableRenamed(graph, names, adj, idOf, s, order[IndexOf(order, g)]);
    }
    forall lorder | TopoOrderFrom(graph, start, lorder) ensures r == Sat(CountVisiting(DagPaths(graph, lorder, start, goal), a, b)) {
      CountMatchesDagPaths(graph, names, adj, idOf, start, goal, a, b, order, lorder);
    }
  }
}
