/**
 * Day 11, the specification of the `dp` table of count_paths_must_visit:
 * `Ways` is the exact (unbounded) number that `dp[u][mask]` saturates, and
 * it counts the memoised paths of all_paths_dag that complete the mask.
 */
module Day11Ways {
  import opened Day11Graph
  import opened Day11Paths

  const U64_MAX: nat := 0xFFFF_FFFF_FFFF_FFFF

  /** A count as a u64 that saturates instead of overflowing. */
  function Sat(x: nat): nat {
    if x <= U64_MAX then x else U64_MAX
  }

  /** u64::saturating_add. */
  function SaturatingAdd(x: nat, y: nat): nat
    requires x <= U64_MAX && y <= U64_MAX
  {
    if x + y <= U64_MAX then x + y else U64_MAX
  }

  /** Saturating the terms first does not change a saturated sum. */
  lemma SaturatingAddSat(x: nat, y: nat)
    ensures SaturatingAdd(Sat(x), Sat(y)) == Sat(x + y)
  {
  }

  /** What the table needs: successor ids and order entries name rows, each order entry once. */
  ghost predicate DpInput(adj: Adjacency, names: seq<string>, order: seq<nat>) {
    && WellFormed(adj) && |names| == |adj| && Distinct(order)
    && forall k | 0 <= k < |order| :: order[k] < |adj|
  }

  /**
   * `dp[order[i]][m]` without saturation: the goal row is 1 exactly where
   * `m | bit(goal)` is REQ; any other row sums, over the successors, the
   * entry of each successor already filled (later in `order`) at the mask
   * extended by the node's own bit. A successor not filled reads as 0.
   */
  function Ways(adj: Adjacency, names: seq<string>, a: string, b: string, order: seq<nat>, g: nat, i: nat, m: bv8): nat
    requires DpInput(adj, names, order) && i < |order|
    decreases |order| - i, 1, 0
  {
    var u := order[i];
    var nm := m | Bit(names[u], a, b);
    if u == g then (if nm == REQ then 1 else 0)
    else WaysSum(adj, names, a, b, order, g, i, nm, adj[u])
  }

  function WaysSum(adj: Adjacency, names: seq<string>, a: string, b: string, order: seq<nat>, g: nat, i: nat, nm: bv8, succs: seq<nat>): nat
    requires DpInput(adj, names, order) && i < |order|
    decreases |order| - i, 0, |succs|
  {
    if succs == [] then 0
    else WaysSum(adj, names, a, b, order, g, i, nm, succs[..|succs| - 1]) + WaysVia(adj, names, a, b, order, g, i, nm, succs[|succs| - 1])
  }

  function WaysVia(adj: Adjacency, names: seq<string>, a: string, b: string, order: seq<nat>, g: nat, i: nat, nm: bv8, v: nat): nat
    requires DpInput(adj, names, order) && i < |order|
    decreases |order| - i, 0, 0
  {
    if v in order[i + 1..] then
      var k :| i + 1 <= k < |order| && order[k] == v;
      IndexOfDistinct(order, k);
      Ways(adj, names, a, b, order, g, IndexOf(order, v), nm)
    else 0
  }

  // ---------------------------------------------------------------------
  // Exchanging the waypoints
  // ---------------------------------------------------------------------

  lemma SwapOr(m: bv8, n: bv8)
    ensures SwapBits(m | n) == SwapBits(m) | SwapBits(n)
  {
  }

  lemma SwapReq(m: bv8)
    ensures (SwapBits(m) == REQ) == (m == REQ)
  {
  }

  /** Exchanging `a` and `b` only exchanges the two mask bits, so REQ is reached on the same paths. */
  lemma {:induction false} WaysSwap(adj: Adjacency, names: seq<string>, a: string, b: string, order: seq<nat>, g: nat, i: nat, m: bv8)
    requires DpInput(adj, names, order) && i < |order|
    ensures Ways(adj, names, a, b, order, g, i, m) == Ways(adj, names, b, a, order, g, i, SwapBits(m))
    decreases |order| - i, 1, 0
  {
    var u := order[i];
    var nm := m | Bit(names[u], a, b);
    BitSwap(names[u], a, b);
    SwapOr(m, Bit(names[u], a, b));
    SwapReq(nm);
    if u != g {
      WaysSumSwap(adj, names, a, b, order, g, i, nm, adj[u]);
    }
  }

  lemma {:induction false} WaysSumSwap(adj: Adjacency, names: seq<string>, a: string, b: string, order: seq<nat>, g: nat, i: nat, nm: bv8, succs: seq<nat>)
    requires DpInput(adj, names, order) && i < |order|
    ensures WaysSum(adj, names, a, b, order, g, i, nm, succs) == WaysSum(adj, names, b, a, order, g, i, SwapBits(nm), succs)
    decreases |order| - i, 0, |succs|
  {
    if succs != [] {
      WaysSumSwap(adj, names, a, b, order, g, i, nm, succs[..|succs| - 1]);
      var v := succs[|succs| - 1];
      if v in order[i + 1..] {
        var k :| i + 1 <= k < |order| && order[k] == v;
        IndexOfDistinct(order, k);
        WaysSwap(adj, names, a, b, order, g, k, nm);
      }
    }
  }

  /** With the empty starting mask the count is symmetric in the two waypoints. */
  lemma WaysSymmetric(adj: Adjacency, names: seq<string>, a: string, b: string, order: seq<nat>, g: nat, i: nat)
    requires DpInput(adj, names, order) && i < |order|
    ensures Ways(adj, names, a, b, order, g, i, 0) == Ways(adj, names, b, a, order, g, i, 0)
  {
    WaysSwap(adj, names, a, b, order, g, i, 0);
  }

  // ---------------------------------------------------------------------
  // The table counts the enumerated paths
  // ---------------------------------------------------------------------

  /** The adjacency table as the map all_paths_dag works on. */
  function AdjMap(adj: Adjacency): (graph: map<nat, seq<nat>>)
    ensures forall u | 0 <= u < |adj| :: Succ(graph, u) == adj[u]
  {
    map u | 0 <= u < |adj| :: adj[u]
  }

  ghost predicate PathsBelow(ps: seq<seq<nat>>, n: nat) {
    forall t, k | 0 <= t < |ps| && 0 <= k < |ps[t]| :: ps[t][k] < n
  }

  /** The waypoint bits collected along a path of ids. */
  function BitsOf(names: seq<string>, a: string, b: string, p: seq<nat>): bv8
    requires forall k | 0 <= k < |p| :: p[k] < |names|
  {
    if p == [] then 0 else Bit(names[p[0]], a, b) | BitsOf(names, a, b, p[1..])
  }

  /** How many paths of `ps` take the mask `m` to REQ. */
  function CountMask(names: seq<string>, a: string, b: string, ps: seq<seq<nat>>, m: bv8): nat
    requires PathsBelow(ps, |names|)
  {
    if ps == [] then 0
    else CountMask(names, a, b, ps[..|ps| - 1], m) + (if m | BitsOf(names, a, b, ps[|ps| - 1]) == REQ then 1 else 0)
  }

  lemma {:induction false} CountMaskAppend(names: seq<string>, a: string, b: string, ps: seq<seq<nat>>, qs: seq<seq<nat>>, m: bv8)
    requires PathsBelow(ps, |names|) && PathsBelow(qs, |names|)
    ensures PathsBelow(ps + qs, |names|)
    ensures CountMask(names, a, b, ps + qs, m) == CountMask(names, a, b, ps, m) + CountMask(names, a, b, qs, m)
    decreases |qs|
  {
    if qs != [] {
      assert (ps + qs)[..|ps + qs| - 1] == ps + qs[..|qs| - 1];
      CountMaskAppend(names, a, b, ps, qs[..|qs| - 1], m);
    } else {
      assert ps + qs == ps;
    }
  }

  /** Putting `u` in front of every path moves its bit into the mask. */
  lemma {:induction false} CountMaskPrepend(names: seq<string>, a: string, b: string, u: nat, ps: seq<seq<nat>>, m: bv8)
    requires u < |names| && PathsBelow(ps, |names|)
    ensures PathsBelow(Prepend(u, ps), |names|)
    ensures CountMask(names, a, b, Prepend(u, ps), m) == CountMask(names, a, b, ps, m | Bit(names[u], a, b))
    decreases |ps|
  {
    if ps != [] {
      var last := ps[|ps| - 1];
      assert Prepend(u, ps)[..|ps| - 1] == Prepend(u, ps[..|ps| - 1]);
      CountMaskPrepend(names, a, b, u, ps[..|ps| - 1], m);
      assert ([u] + last)[1..] == last;
    }
  }

  /** An edge path of the table that starts at a row stays inside the table. */
  lemma PathInTable(adj: Adjacency, p: seq<nat>)
    requires WellFormed(adj) && IsEdgePath(AdjMap(adj), p) && p[0] < |adj|
    ensures forall k | 0 <= k < |p| :: p[k] < |adj|
  {
    var k := 0;
    while k < |p| - 1
      invariant 0 <= k < |p| && forall t | 0 <= t <= k :: p[t] < |adj|
    {
      assert p[k + 1] in adj[p[k]];
      k := k + 1;
    }
  }

  lemma SuffixesInTable(adj: Adjacency, order: seq<nat>, i: nat, g: nat)
    requires WellFormed(adj) && Distinct(order) && i < |order| && order[i] < |adj|
    ensures PathsBelow(Suffixes(AdjMap(adj), order, i, g), |adj|)
  {
    var ps := Suffixes(AdjMap(adj), order, i, g);
    SuffixesValid(AdjMap(adj), order, i, g);
    forall t | 0 <= t < |ps| ensures forall k | 0 <= k < |ps[t]| :: ps[t][k] < |adj| {
      assert ps[t] in ps;
      PathInTable(adj, ps[t]);
    }
  }

  /**
   * The cross-check at the level of ids: each entry of the table counts the
   * memoised paths of all_paths_dag (run on the same order) that take the
   * mask to REQ.
   */
  lemma {:induction false} WaysCountsPaths(adj: Adjacency, names: seq<string>, a: string, b: string, order: seq<nat>, g: nat, i: nat, m: bv8)
    requires DpInput(adj, names, order) && i < |order|
    ensures PathsBelow(Suffixes(AdjMap(adj), order, i, g), |names|)
    ensures Ways(adj, names, a, b, order, g, i, m) == CountMask(names, a, b, Suffixes(AdjMap(adj), order, i, g), m)
    decreases |order| - i, 1, 0
  {
    var u := order[i];
    SuffixesInTable(adj, order, i, g);
    if u == g {
      assert [g][1..] == [] && [[g]][..0] == [];
      assert BitsOf(names, a, b, [g]) == Bit(names[g], a, b) | 0;
    } else {
      GatherCountsPaths(adj, names, a, b, order, g, i, m, adj[u]);
    }
  }

  lemma {:induction false} GatherCountsPaths(adj: Adjacency, names: seq<string>, a: string, b: string, order: seq<nat>, g: nat, i: nat, m: bv8, succs: seq<nat>)
    requires DpInput(adj, names, order) && i < |order|
    ensures PathsBelow(Gather(AdjMap(adj), order, i, g, succs), |names|)
    ensures WaysSum(adj, names, a, b, order, g, i, m | Bit(names[order[i]], a, b), succs)
         == CountMask(names, a, b, Gather(AdjMap(adj), order, i, g, succs), m)
    decreases |order| - i, 0, |succs|
  {
    if succs != [] {
      var v := succs[|succs| - 1];
      var nm := m | Bit(names[order[i]], a, b);
      GatherCountsPaths(adj, names, a, b, order, g, i, m, succs[..|succs| - 1]);
      var front := Gather(AdjMap(adj), order, i, g, succs[..|succs| - 1]);
      var back := Memo(AdjMap(adj), order, i, g, v);
      MemoCountsPaths(adj, names, a, b, order, g, i, m, v);
      CountMaskAppend(names, a, b, front, back, m);
    }
  }

  lemma {:induction false} MemoCountsPaths(adj: Adjacency, names: seq<string>, a: string, b: string, order: seq<nat>, g: nat, i: nat, m: bv8, v: nat)
    requires DpInput(adj, names, order) && i < |order|
    ensures PathsBelow(Memo(AdjMap(adj), order, i, g, v), |names|)
    ensures WaysVia(adj, names, a, b, order, g, i, m | Bit(names[order[i]], a, b), v)
         == CountMask(names, a, b, Memo(AdjMap(adj), order, i, g, v), m)
    decreases |order| - i, 0, 0
  {
    if v in order[i + 1..] {
      var k :| i + 1 <= k < |order| && order[k] == v;
      IndexOfDistinct(order, k);
      WaysCountsPaths(adj, names, a, b, order, g, k, m | Bit(names[order[i]], a, b));
      CountMaskPrepend(names, a, b, order[i], Suffixes(AdjMap(adj), order, k, g), m);
    }
  }
}
