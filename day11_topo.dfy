/**
 * Day 11, topo_reachable: Kahn's algorithm restricted to the nodes reachable
 * from the start node. On a cycle it does not fail; it returns a shorter order.
 */
module Day11Topo {
  import opened Day11Graph

  // ---------------------------------------------------------------------
  // Counting edges into a node
  // ---------------------------------------------------------------------

  /** Number of edges into `v` listed in rows 0 .. m-1 of `rows`. */
  function InCount(rows: Adjacency, v: nat, m: nat): nat
    requires m <= |rows|
  {
    if m == 0 then 0 else InCount(rows, v, m - 1) + multiset(rows[m - 1])[v]
  }

  /** Replacing one row changes the count by the difference of that row's occurrences. */
  lemma {:induction false} InCountUpdate(rows: Adjacency, u: nat, row: seq<nat>, v: nat, m: nat)
    requires m <= |rows| && u < |rows|
    ensures InCount(rows[u := row], v, m) + (if u < m then multiset(rows[u])[v] else 0)
         == InCount(rows, v, m) + (if u < m then multiset(row)[v] else 0)
  {
    if m > 0 {
      InCountUpdate(rows, u, row, v, m - 1);
    }
  }

  lemma {:induction false} InCountAtLeast(rows: Adjacency, u: nat, v: nat, m: nat)
    requires u < m <= |rows|
    ensures InCount(rows, v, m) >= multiset(rows[u])[v]
  {
    if m - 1 != u {
      InCountAtLeast(rows, u, v, m - 1);
    }
  }

  lemma {:induction false} InCountWitness(rows: Adjacency, v: nat, m: nat) returns (u: nat)
    requires m <= |rows| && InCount(rows, v, m) > 0
    ensures u < m && v in rows[u]
  {
    if multiset(rows[m - 1])[v] > 0 {
      u := m - 1;
    } else {
      u := InCountWitness(rows, v, m - 1);
    }
  }

  /** The rows Kahn's algorithm counts: those of reachable sources. */
  function ReachableRows(adj: Adjacency, reach: seq<bool>): (rows: Adjacency)
    requires |reach| == |adj|
    ensures |rows| == |adj|
    ensures forall u | 0 <= u < |adj| :: rows[u] == if reach[u] then adj[u] else []
  {
    seq(|adj|, u requires 0 <= u < |adj| => if reach[u] then adj[u] else [])
  }

  /** Every reachable predecessor of an output node is output earlier. */
  ghost predicate PredClosed(adj: Adjacency, reach: seq<bool>, order: seq<nat>)
    requires |reach| == |adj|
  {
    forall j | 0 <= j < |order| ::
      forall u | 0 <= u < |adj| && reach[u] && order[j] in adj[u] :: u in order[..j]
  }

  // ---------------------------------------------------------------------
  // The three phases of topo_reachable
  // ---------------------------------------------------------------------

  /** The nodes not yet marked by the reachability search. */
  function Unmarked(reach: seq<bool>): (s: set<nat>)
    ensures forall v: nat :: v in s <==> v < |reach| && !reach[v]
  {
    set v: nat | v < |reach| && !reach[v]
  }

  /**
   * The invariant of the marking search: marked nodes are reachable, stacked
   * nodes are marked, and every marked node that is neither on the stack nor
   * `skip` has all its successors marked.
   */
  ghost predicate Marking(adj: Adjacency, start: nat, reach: seq<bool>, stack: seq<nat>, skip: int) {
    && WellFormed(adj) && |reach| == |adj| && start < |adj| && reach[start]
    && (forall k | 0 <= k < |stack| :: stack[k] < |adj| && reach[stack[k]])
    && (forall v | 0 <= v < |adj| && reach[v] :: Reachable(adj, start, v))
    && (forall x | 0 <= x < |adj| && reach[x] && x !in stack && x != skip :: forall w | w in adj[x] :: reach[w])
  }

  /** Phase 1 (src/bin/11.rs:92-103): mark the reachable nodes with a stack. */
  method MarkReachable(adj: Adjacency, start: nat) returns (reach: seq<bool>)
    requires WellFormed(adj) && start < |adj|
    ensures |reach| == |adj|
    ensures forall v | 0 <= v < |adj| :: reach[v] <==> Reachable(adj, start, v)
  {
    reach := seq(|adj|, _ => false)[start := true];
    var stack: seq<nat> := [start];
    ReachableSelf(adj, start);
    while stack != []
      invariant Marking(adj, start, reach, stack, -1)
      decreases Unmarked(reach), |stack|
    {
      var u := stack[|stack| - 1];
      stack := stack[..|stack| - 1];
      reach, stack := PushSuccessors(adj, start, u, reach, stack);
    }
    forall v | 0 <= v < |adj| && Reachable(adj, start, v) ensures reach[v] {
      ClosedContainsReachable(adj, start, reach, v);
    }
  }

  /** The inner loop of phase 1: mark and push every unmarked successor of `u`. */
  method PushSuccessors(adj: Adjacency, start: nat, u: nat, reach: seq<bool>, stack: seq<nat>)
    returns (reach': seq<bool>, stack': seq<nat>)
    requires u < |adj| && Marking(adj, start, reach, stack, u) && reach[u]
    ensures Marking(adj, start, reach', stack', -1)
    ensures Unmarked(reach') <= Unmarked(reach)
    ensures Unmarked(reach') == Unmarked(reach) ==> stack' == stack
  {
    reach', stack' := reach, stack;
    for k := 0 to |adj[u]|
      invariant Marking(adj, start, reach', stack', u) && reach'[u]
      invariant forall t | 0 <= t < k :: adj[u][t] in adj[u] && reach'[adj[u][t]]
      invariant Unmarked(reach') <= Unmarked(reach)
      invariant Unmarked(reach') == Unmarked(reach) ==> stack' == stack
    {
      var v := adj[u][k];
      assert v in adj[u];
      if !reach'[v] {
        ReachableStep(adj, start, u, v);
        assert v in Unmarked(reach') && v !in Unmarked(reach'[v := true]);
        reach' := reach'[v := true];
        stack' := stack' + [v];
      }
    }
  }

  /** A marking that contains the start and is closed under edges contains every reachable node. */
  lemma ClosedContainsReachable(adj: Adjacency, start: nat, reach: seq<bool>, v: nat)
    requires Marking(adj, start, reach, [], -1)
    requires Reachable(adj, start, v)
    ensures v < |adj| && reach[v]
  {
    var p :| IsPath(adj, p) && p[0] == start && p[|p| - 1] == v;
    var k := 0;
    while k < |p| - 1
      invariant 0 <= k < |p| && reach[p[k]]
    {
      assert p[k + 1] in adj[p[k]];
      k := k + 1;
    }
  }

  /** Phase 2 (src/bin/11.rs:105-116): in-degrees counted over edges whose source is reachable. */
  method InDegrees(adj: Adjacency, reach: seq<bool>) returns (indeg: seq<nat>)
    requires WellFormed(adj) && |reach| == |adj|
    ensures |indeg| == |adj|
    ensures forall v | 0 <= v < |adj| ::
      indeg[v] == if reach[v] then InCount(ReachableRows(adj, reach), v, |adj|) else 0
  {
    ghost var rows := ReachableRows(adj, reach);
    indeg := seq(|adj|, _ => 0);
    for u := 0 to |adj|
      invariant |indeg| == |adj|
      invariant forall v | 0 <= v < |adj| :: indeg[v] == if reach[v] then InCount(rows, v, u) else 0
    {
      if !reach[u] {
        continue;
      }
      indeg := CountRow(reach, adj[u], indeg);
    }
  }

  /** The inner loop of phase 2: one more in-edge for each reachable successor in `row`. */
  method CountRow(reach: seq<bool>, row: seq<nat>, indeg: seq<nat>) returns (indeg': seq<nat>)
    requires |indeg| == |reach| && forall v | v in row :: v < |reach|
    ensures |indeg'| == |indeg|
    ensures forall v | 0 <= v < |indeg| :: indeg'[v] == indeg[v] + if reach[v] then multiset(row)[v] else 0
  {
    indeg' := indeg;
    for k := 0 to |row|
      invariant |indeg'| == |indeg|
      invariant forall v | 0 <= v < |indeg| :: indeg'[v] == indeg[v] + if reach[v] then multiset(row[..k])[v] else 0
    {
      var v := row[k];
      assert row[..k + 1] == row[..k] + [v];
      assert v in row;
      if reach[v] {
        indeg' := indeg'[v := indeg'[v] + 1];
      }
    }
    assert row[..|row|] == row;
  }

  // ---------------------------------------------------------------------
  // Phase 3 (src/bin/11.rs:118-139): Kahn's queue
  // ---------------------------------------------------------------------

  /** The queue and the output: reachable, each node once, and predecessors output first. */
  ghost predicate QueueInv(adj: Adjacency, reach: seq<bool>, q: seq<nat>, order: seq<nat>)
    requires |reach| == |adj|
  {
    && (forall k | 0 <= k < |q| :: q[k] < |adj| && reach[q[k]])
    && (forall k | 0 <= k < |order| :: order[k] < |adj| && reach[order[k]])
    && Distinct(order) && Distinct(q)
    && (forall k | 0 <= k < |q| :: q[k] !in order)
    && PredClosed(adj, reach, order)
    && (forall k | 0 <= k < |q| :: forall w | 0 <= w < |adj| && reach[w] && q[k] in adj[w] :: w in order)
  }

  /**
   * `indeg` counts the edges still pending into each reachable node, and a
   * reachable node has been queued exactly when none is left.
   */
  ghost predicate CountInv(adj: Adjacency, reach: seq<bool>, indeg: seq<nat>, pending: Adjacency, q: seq<nat>, order: seq<nat>)
    requires |reach| == |adj|
  {
    && |indeg| == |adj| && |pending| == |adj|
    && (forall v | 0 <= v < |adj| && reach[v] :: indeg[v] == InCount(pending, v, |adj|))
    && (forall v | 0 <= v < |adj| && reach[v] :: (v in order || v in q) <==> indeg[v] == 0)
  }

  /** Every row of `pending` but `skip` holds the edges of a reachable node not yet output. */
  ghost predicate RowsInv(adj: Adjacency, reach: seq<bool>, pending: Adjacency, order: seq<nat>, skip: int)
    requires |reach| == |adj| && |pending| == |adj|
  {
    forall w | 0 <= w < |adj| && w != skip :: pending[w] == if reach[w] && w !in order then adj[w] else []
  }

  /**
   * Kahn's loop. `pending` is the ghost record of the edges not yet consumed,
   * the ones `indeg` counts.
   */
  method Kahn(adj: Adjacency, reach: seq<bool>, indeg0: seq<nat>) returns (order: seq<nat>)
    requires WellFormed(adj) && |reach| == |adj| && |indeg0| == |adj|
    requires forall v | 0 <= v < |adj| ::
      indeg0[v] == if reach[v] then InCount(ReachableRows(adj, reach), v, |adj|) else 0
    ensures forall k | 0 <= k < |order| :: order[k] < |adj| && reach[order[k]]
    ensures Distinct(order)
    ensures PredClosed(adj, reach, order)
    ensures forall v | 0 <= v < |adj| && reach[v] && v !in order ::
      exists u | 0 <= u < |adj| :: reach[u] && u !in order && v in adj[u]
  {
    var indeg := indeg0;
    ghost var pending := ReachableRows(adj, reach);
    var q := Sources(adj, reach, indeg, pending);
    order := [];
    while q != []
      invariant QueueInv(adj, reach, q, order)
      invariant CountInv(adj, reach, indeg, pending, q, order)
      invariant RowsInv(adj, reach, pending, order, -1)
      invariant |order| <= |adj|
      decreases |adj| - |order|
    {
      var u := q[0];
      PopFront(adj, reach, indeg, pending, q, order);
      q := q[1..];
      order := order + [u];
      DistinctBounded(order, |adj|);
      indeg, q, pending := Release(adj, reach, u, indeg, q, pending, order);
    }

    forall v | 0 <= v < |adj| && reach[v] && v !in order
      ensures exists u | 0 <= u < |adj| :: reach[u] && u !in order && v in adj[u]
    {
      var u := InCountWitness(pending, v, |adj|);
      assert reach[u] && u !in order && v in adj[u];
    }
  }

  /** The initial queue: the reachable nodes with no reachable predecessor, in increasing order. */
  method Sources(adj: Adjacency, reach: seq<bool>, indeg: seq<nat>, ghost pending: Adjacency) returns (q: seq<nat>)
    requires WellFormed(adj) && |reach| == |adj| && |indeg| == |adj| && |pending| == |adj|
    requires forall v | 0 <= v < |adj| && reach[v] :: indeg[v] == InCount(pending, v, |adj|)
    requires RowsInv(adj, reach, pending, [], -1)
    ensures QueueInv(adj, reach, q, [])
    ensures CountInv(adj, reach, indeg, pending, q, [])
  {
    q := [];
    for u := 0 to |adj|
      invariant forall k | 0 <= k < |q| :: q[k] < u && reach[q[k]] && indeg[q[k]] == 0
      invariant forall i, j | 0 <= i < j < |q| :: q[i] < q[j]
      invariant forall v | 0 <= v < u && reach[v] && indeg[v] == 0 :: v in q
    {
      if reach[u] && indeg[u] == 0 {
        q := q + [u];
      }
    }
    forall k, w | 0 <= k < |q| && 0 <= w < |adj| && reach[w] ensures q[k] !in adj[w] {
      InCountAtLeast(pending, w, q[k], |adj|);
    }
  }

  /** Taking the head of the queue and appending it to the output keeps the invariants. */
  lemma PopFront(adj: Adjacency, reach: seq<bool>, indeg: seq<nat>, pending: Adjacency, q: seq<nat>, order: seq<nat>)
    requires |reach| == |adj| && q != []
    requires QueueInv(adj, reach, q, order) && CountInv(adj, reach, indeg, pending, q, order)
    requires RowsInv(adj, reach, pending, order, -1)
    ensures QueueInv(adj, reach, q[1..], order + [q[0]])
    ensures CountInv(adj, reach, indeg, pending, q[1..], order + [q[0]])
    ensures RowsInv(adj, reach, pending, order + [q[0]], q[0]) && pending[q[0]] == adj[q[0]]
  {
    var u, q', order' := q[0], q[1..], order + [q[0]];
    assert q == [u] + q';
    forall j | 0 <= j < |order'|
      ensures forall w | 0 <= w < |adj| && reach[w] && order'[j] in adj[w] :: w in order'[..j]
    {
      if j == |order| {
        assert order'[..j] == order;
      } else {
        assert order'[..j] == order[..j];
      }
    }
  }

  /** The inner loop of phase 3: consume the edges out of `u`, queueing each node whose count drops to zero. */
  method Release(adj: Adjacency, reach: seq<bool>, u: nat, indeg: seq<nat>, q: seq<nat>, ghost pending: Adjacency, ghost order: seq<nat>)
    returns (indeg': seq<nat>, q': seq<nat>, ghost pending': Adjacency)
    requires WellFormed(adj) && |reach| == |adj|
    requires |order| > 0 && u == order[|order| - 1]
    requires QueueInv(adj, reach, q, order) && CountInv(adj, reach, indeg, pending, q, order)
    requires RowsInv(adj, reach, pending, order, u) && pending[u] == adj[u]
    ensures QueueInv(adj, reach, q', order) && CountInv(adj, reach, indeg', pending', q', order)
    ensures RowsInv(adj, reach, pending', order, -1)
  {
    indeg', q', pending' := indeg, q, pending;
    var n := |adj|;
    for k := 0 to |adj[u]|
      invariant QueueInv(adj, reach, q', order) && CountInv(adj, reach, indeg', pending', q', order)
      invariant RowsInv(adj, reach, pending', order, u) && pending'[u] == adj[u][k..]
    {
      var v := adj[u][k];
      assert v in adj[u] && adj[u][k..] == [v] + adj[u][k + 1..];
      ConsumeEdge(pending', u, v, adj[u][k + 1..]);
      pending' := pending'[u := adj[u][k + 1..]];
      if reach[v] {
        indeg' := indeg'[v := indeg'[v] - 1];
        if indeg'[v] == 0 {
          forall w | 0 <= w < n && reach[w] && v in adj[w] ensures w in order {
            if w != u && w !in order {
              InCountAtLeast(pending', w, v, n);
            }
          }
          Enqueue(adj, reach, q', order, v);
          q' := q' + [v];
        }
      }
    }
  }

  /** A reachable node all of whose reachable predecessors are output may join the queue. */
  lemma Enqueue(adj: Adjacency, reach: seq<bool>, q: seq<nat>, order: seq<nat>, v: nat)
    requires |reach| == |adj| && QueueInv(adj, reach, q, order)
    requires v < |adj| && reach[v] && v !in order && v !in q
    requires forall w | 0 <= w < |adj| && reach[w] && v in adj[w] :: w in order
    ensures QueueInv(adj, reach, q + [v], order)
  {
  }

  /** Dropping the first edge `u -> v` of row `u` lowers the count of `v` by one and no other. */
  lemma ConsumeEdge(pending: Adjacency, u: nat, v: nat, rest: seq<nat>)
    requires u < |pending| && pending[u] == [v] + rest
    ensures InCount(pending, v, |pending|) >= 1
    ensures forall x :: InCount(pending[u := rest], x, |pending|)
                     == InCount(pending, x, |pending|) - (if x == v then 1 else 0)
  {
    InCountAtLeast(pending, u, v, |pending|);
    forall x ensures InCount(pending[u := rest], x, |pending|)
                  == InCount(pending, x, |pending|) - (if x == v then 1 else 0)
    {
      InCountUpdate(pending, u, rest, x, |pending|);
    }
  }

  // ---------------------------------------------------------------------
  // topo_reachable
  // ---------------------------------------------------------------------

  /**
   * topo_reachable (src/bin/11.rs:88-140). The output holds reachable nodes
   * only, each once, every edge between two output nodes points forward, and
   * the output is complete exactly when no cycle is reachable from the start.
   */
  method TopoReachable(adj: Adjacency, start: nat) returns (order: seq<nat>)
    requires WellFormed(adj) && start < |adj|
    ensures forall k | 0 <= k < |order| :: order[k] < |adj| && Reachable(adj, start, order[k])
    ensures Distinct(order)
    ensures forall i, j | 0 <= i < |order| && 0 <= j < |order| && order[j] in adj[order[i]] :: i < j
    ensures forall j, u | 0 <= j < |order| && 0 <= u < |adj| && Reachable(adj, start, u) && order[j] in adj[u] ::
      u in order[..j]
    ensures (forall v | 0 <= v < |adj| && Reachable(adj, start, v) :: v in order) <==> !HasCycleFrom(adj, start)
  {
    var reach := MarkReachable(adj, start);
    var indeg := InDegrees(adj, reach);
    order := Kahn(adj, reach, indeg);

    forall i, j | 0 <= i < |order| && 0 <= j < |order| && order[j] in adj[order[i]] ensures i < j {
      assert order[i] in order[..j];
      var i' :| 0 <= i' < j && order[i'] == order[i];
    }
    if HasCycleFrom(adj, start) {
      CycleEscapesOrder(adj, start, order);
    } else {
      forall v | 0 <= v < |adj| && Reachable(adj, start, v) ensures v in order {
        if v !in order {
          BackClosedCycle(adj, start, reach, order, v);
        }
      }
    }
  }

  /** A reachable cycle cannot lie inside an order whose edges all point forward. */
  lemma CycleEscapesOrder(adj: Adjacency, start: nat, order: seq<nat>)
    requires WellFormed(adj) && HasCycleFrom(adj, start)
    requires forall k | 0 <= k < |order| :: order[k] < |adj|
    requires Distinct(order)
    requires forall i, j | 0 <= i < |order| && 0 <= j < |order| && order[j] in adj[order[i]] :: i < j
    ensures exists v | 0 <= v < |adj| && Reachable(adj, start, v) :: v !in order
  {
    var p :| IsPath(adj, p) && |p| >= 2 && p[0] == p[|p| - 1] && Reachable(adj, start, p[0]);
    if forall k | 0 <= k < |p| :: p[k] in order {
      var i0 :| 0 <= i0 < |order| && order[i0] == p[0];
      var k, i := 0, i0;
      while k < |p| - 1
        invariant 0 <= k < |p| && 0 <= i < |order| && order[i] == p[k]
        invariant k > 0 ==> i > i0
      {
        var i' :| 0 <= i' < |order| && order[i'] == p[k + 1];
        assert order[i'] in adj[order[i]];
        k, i := k + 1, i';
      }
      assert false;
    } else {
      var k :| 0 <= k < |p| && p[k] !in order;
      CycleNodesReachable(adj, start, p, k);
    }
  }

  lemma CycleNodesReachable(adj: Adjacency, start: nat, p: seq<nat>, k: nat)
    requires WellFormed(adj) && IsPath(adj, p) && Reachable(adj, start, p[0]) && k < |p|
    ensures Reachable(adj, start, p[k])
  {
    var t := 0;
    while t < k
      invariant 0 <= t <= k && Reachable(adj, start, p[t])
    {
      ReachableStep(adj, start, p[t], p[t + 1]);
      t := t + 1;
    }
  }

  /**
   * If every reachable node missing from the order has a reachable predecessor
   * that is missing too, then walking backwards must repeat a node: a cycle.
   */
  lemma BackClosedCycle(adj: Adjacency, start: nat, reach: seq<bool>, order: seq<nat>, v: nat)
    requires WellFormed(adj) && |reach| == |adj|
    requires forall x | 0 <= x < |adj| && reach[x] :: Reachable(adj, start, x)
    requires v < |adj| && reach[v] && v !in order
    requires forall x | 0 <= x < |adj| && reach[x] && x !in order ::
      exists u | 0 <= u < |adj| :: reach[u] && u !in order && x in adj[u]
    ensures HasCycleFrom(adj, start)
  {
    var stuck := set x: nat | x < |adj| && reach[x] && x !in order;
    var pred := map x | x in stuck :: var u :| 0 <= u < |adj| && reach[u] && u !in order && x in adj[u]; u;
    var p := CycleInBackClosed(adj, stuck, pred, v);
    assert p[0] in stuck;
  }

  /** A set of nodes each of which has a predecessor `pred[x]` inside the set contains a cycle. */
  lemma CycleInBackClosed(adj: Adjacency, s: set<nat>, pred: map<nat, nat>, v: nat) returns (p: seq<nat>)
    requires forall x | x in s :: x < |adj|
    requires forall x | x in s :: x in pred && pred[x] in s && x in adj[pred[x]]
    requires v in s
    ensures IsPath(adj, p) && |p| >= 2 && p[0] == p[|p| - 1] && p[0] in s
  {
    var w := BackWalk(adj, s, pred, v, |adj| + 1);
    var i, j := Pigeonhole(w, |adj|);
    p := seq(j - i + 1, t requires 0 <= t <= j - i => w[j - t]);
    forall t | 0 <= t < |p| - 1 ensures p[t + 1] in adj[p[t]] {
      assert w[j - t - 1] in adj[w[j - t]];
    }
  }

  /** A walk of `len` nodes backwards along `pred`, staying inside `s`. */
  lemma BackWalk(adj: Adjacency, s: set<nat>, pred: map<nat, nat>, v: nat, len: nat) returns (w: seq<nat>)
    requires forall x | x in s :: x < |adj|
    requires forall x | x in s :: x in pred && pred[x] in s && x in adj[pred[x]]
    requires v in s && len >= 1
    ensures |w| == len && w[0] == v
    ensures forall k | 0 <= k < |w| :: w[k] in s && w[k] < |adj|
    ensures forall k | 0 <= k < |w| - 1 :: w[k] in adj[w[k + 1]]
  {
    w := [v];
    while |w| < len
      invariant 1 <= |w| <= len && w[0] == v
      invariant forall k | 0 <= k < |w| :: w[k] in s && w[k] < |adj|
      invariant forall k | 0 <= k < |w| - 1 :: w[k] in adj[w[k + 1]]
    {
      w := w + [pred[w[|w| - 1]]];
    }
  }

  /** A duplicate-free sequence over [0, n) has at most n elements. */
  lemma DistinctBounded(s: seq<nat>, n: nat)
    requires Distinct(s) && forall k | 0 <= k < |s| :: s[k] < n
    ensures |s| <= n
  {
    if |s| > n {
      var i, j := Pigeonhole(s, n);
    }
  }

  /** n pigeons more than n holes: a sequence longer than n over [0, n) repeats a value. */
  lemma {:induction false} Pigeonhole(s: seq<nat>, n: nat) returns (i: nat, j: nat)
    requires |s| > n
    requires forall k | 0 <= k < |s| :: s[k] < n
    ensures i < j < |s| && s[i] == s[j]
    decreases |s|
  {
    var last := |s| - 1;
    var x := s[last];
    if k :| 0 <= k < last && s[k] == x {
      i, j := k, last;
    } else {
      var t := seq(last, k requires 0 <= k < last => if s[k] < x then s[k] else s[k] - 1);
      i, j := Pigeonhole(t, n - 1);
    }
  }
}
