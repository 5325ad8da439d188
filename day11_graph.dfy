/**
 * Day 11, graph builder: string labels interned to dense ids, the adjacency
 * table over those ids, paths and reachability, and the waypoint bits.
 */
module Day11Graph {

  /** Row `u` lists the successor ids of node `u`, in input order. */
  type Adjacency = seq<seq<nat>>

  /** Every successor id names a row of the table. */
  ghost predicate WellFormed(adj: Adjacency) {
    forall u | 0 <= u < |adj| :: forall v | v in adj[u] :: v < |adj|
  }

  predicate Distinct<T(==)>(s: seq<T>) {
    forall i, j | 0 <= i < j < |s| :: s[i] != s[j]
  }

  /** A walk along the edges of the table, given by its nodes. */
  ghost predicate IsPath(adj: Adjacency, p: seq<nat>) {
    && |p| >= 1
    && (forall k | 0 <= k < |p| :: p[k] < |adj|)
    && (forall k | 0 <= k < |p| - 1 :: p[k + 1] in adj[p[k]])
  }

  ghost predicate Reachable(adj: Adjacency, s: nat, v: nat) {
    exists p :: IsPath(adj, p) && p[0] == s && p[|p| - 1] == v
  }

  /** A cycle through a node reachable from `s`: the case in which Kahn's algorithm stops early. */
  ghost predicate HasCycleFrom(adj: Adjacency, s: nat) {
    exists p :: IsPath(adj, p) && |p| >= 2 && p[0] == p[|p| - 1] && Reachable(adj, s, p[0])
  }

  lemma ReachableSelf(adj: Adjacency, s: nat)
    requires s < |adj|
    ensures Reachable(adj, s, s)
  {
    assert IsPath(adj, [s]);
  }

  /** Reachability extends along one more edge. */
  lemma ReachableStep(adj: Adjacency, s: nat, u: nat, v: nat)
    requires WellFormed(adj)
    requires Reachable(adj, s, u) && u < |adj| && v in adj[u]
    ensures Reachable(adj, s, v)
  {
    var p :| IsPath(adj, p) && p[0] == s && p[|p| - 1] == u;
    var q := p + [v];
    assert q[|q| - 2] == u;
    assert IsPath(adj, q);
  }

  // ---------------------------------------------------------------------
  // Waypoint bits (src/bin/11.rs:44-48)
  // ---------------------------------------------------------------------

  /** The mask value at which both waypoints have been seen. */
  const REQ: bv8 := 0x3

  /** Bit 0 marks the first waypoint, bit 1 the second. */
  function Bit(node: string, a: string, b: string): (r: bv8)
    ensures (r & 1 == 1) <==> node == a
    ensures (r & 2 == 2) <==> node == b
    ensures r & !REQ == 0
  {
    (if node == a then 0x1 else 0x0) | (if node == b then 0x2 else 0x0)
  }

  /** Exchanging the two waypoints exchanges the two bits. */
  function SwapBits(m: bv8): (r: bv8)
    ensures r & REQ == REQ <==> m & REQ == REQ
  {
    ((m & 1) << 1) | ((m & 2) >> 1) | (m & !REQ)
  }

  lemma BitSwap(node: string, a: string, b: string)
    ensures Bit(node, b, a) == SwapBits(Bit(node, a, b))
  {
  }

  // ---------------------------------------------------------------------
  // Interning (src/bin/11.rs:50-86)
  // ---------------------------------------------------------------------

  /** `s` occurs in the input map, as a key or as a successor of some key. */
  ghost predicate Labelled(graph: map<string, seq<string>>, s: string) {
    s in graph || exists u | u in graph :: s in graph[u]
  }

  /** `names` and `idOf` are inverse: ids are dense in [0, |names|) and every label has one. */
  ghost predicate Bijective(names: seq<string>, idOf: map<string, nat>) {
    && (forall s | s in idOf :: idOf[s] < |names| && names[idOf[s]] == s)
    && (forall i | 0 <= i < |names| :: names[i] in idOf && idOf[names[i]] == i)
  }

  /** Row of `u` is `u`'s successor list mapped through `idOf`, in order. */
  ghost predicate RowMapped(graph: map<string, seq<string>>, adj: Adjacency, idOf: map<string, nat>, u: string)
    requires u in graph && u in idOf && idOf[u] < |adj|
    requires forall v | v in graph[u] :: v in idOf
  {
    && |adj[idOf[u]]| == |graph[u]|
    && forall k | 0 <= k < |graph[u]| :: adj[idOf[u]][k] == idOf[graph[u][k]]
  }

  /** What intern_graph returns: a bijection between labels and ids, and the adjacency table over ids. */
  ghost predicate Interned(graph: map<string, seq<string>>, names: seq<string>, adj: Adjacency, idOf: map<string, nat>) {
    && |adj| == |names|
    && Bijective(names, idOf)
    && (forall s :: s in idOf <==> Labelled(graph, s))
    && (forall u | u in graph :: u in idOf && (forall v | v in graph[u] :: v in idOf) && RowMapped(graph, adj, idOf, u))
    && (forall i | 0 <= i < |names| && names[i] !in graph :: adj[i] == [])
  }

  /** Labels met while visiting the first `i` keys of the iteration order. */
  ghost predicate SeenIn(graph: map<string, seq<string>>, keys: seq<string>, i: nat, s: string)
    requires i <= |keys|
  {
    exists j | 0 <= j < i :: keys[j] in graph && (s == keys[j] || s in graph[keys[j]])
  }

  /** The `get_id` closure: look a label up, or give it the next free id. */
  method GetId(s: string, names: seq<string>, idOf: map<string, nat>)
    returns (id: nat, names': seq<string>, idOf': map<string, nat>)
    requires Bijective(names, idOf)
    ensures Bijective(names', idOf')
    ensures idOf'.Keys == idOf.Keys + {s}
    ensures s in idOf' && id == idOf'[s]
    ensures s in idOf ==> names' == names && idOf' == idOf
    ensures s !in idOf ==> names' == names + [s] && id == |names|
  {
    if s in idOf {
      id, names', idOf' := idOf[s], names, idOf;
    } else {
      id := |names|;
      names' := names + [s];
      idOf' := idOf[s := id];
    }
  }

  /**
   * intern_graph. The iteration order of the Rust HashMap is unspecified, so it
   * is the parameter `keys`: each key of `graph` exactly once, in any order.
   */
  method InternGraph(graph: map<string, seq<string>>, keys: seq<string>)
    returns (names: seq<string>, adj: Adjacency, idOf: map<string, nat>)
    requires forall u :: u in graph <==> u in keys
    requires Distinct(keys)
    ensures Interned(graph, names, adj, idOf)
    ensures WellFormed(adj)
  {
    names, idOf := AssignIds(graph, keys);
    adj := BuildRows(graph, keys, names, idOf);
  }

  /** First pass of intern_graph: an id for every key and every successor label. */
  method AssignIds(graph: map<string, seq<string>>, keys: seq<string>)
    returns (names: seq<string>, idOf: map<string, nat>)
    requires forall u :: u in graph <==> u in keys
    ensures Bijective(names, idOf)
    ensures forall s :: s in idOf <==> Labelled(graph, s)
  {
    idOf := map[];
    names := [];
    for i := 0 to |keys|
      invariant Bijective(names, idOf)
      invariant forall s :: s in idOf <==> SeenIn(graph, keys, i, s)
    {
      var u := keys[i];
      var _, names1, idOf1 := GetId(u, names, idOf);
      names, idOf := names1, idOf1;
      var neigh := graph[u];
      for k := 0 to |neigh|
        invariant Bijective(names, idOf)
        invariant forall s :: s in idOf <==> SeenIn(graph, keys, i, s) || s == u || s in neigh[..k]
      {
        assert neigh[..k + 1] == neigh[..k] + [neigh[k]];
        var _, names2, idOf2 := GetId(neigh[k], names, idOf);
        names, idOf := names2, idOf2;
      }
      assert neigh[..|neigh|] == neigh;
      SeenInStep(graph, keys, i, idOf);
    }
    forall s ensures s in idOf <==> Labelled(graph, s) {
      if Labelled(graph, s) {
        if s in graph {
          assert s in keys;
          var j :| 0 <= j < |keys| && keys[j] == s;
          assert SeenIn(graph, keys, |keys|, s);
        } else {
          var u :| u in graph && s in graph[u];
          assert u in keys;
          var j :| 0 <= j < |keys| && keys[j] == u;
          assert SeenIn(graph, keys, |keys|, s);
        }
      }
    }
  }

  lemma SeenInStep(graph: map<string, seq<string>>, keys: seq<string>, i: nat, idOf: map<string, nat>)
    requires i < |keys| && keys[i] in graph
    requires forall s :: s in idOf <==> SeenIn(graph, keys, i, s) || s == keys[i] || s in graph[keys[i]]
    ensures forall s :: s in idOf <==> SeenIn(graph, keys, i + 1, s)
  {
    forall s ensures s in idOf <==> SeenIn(graph, keys, i + 1, s) {
      if SeenIn(graph, keys, i + 1, s) {
        var j :| 0 <= j < i + 1 && keys[j] in graph && (s == keys[j] || s in graph[keys[j]]);
        if j < i {
          assert SeenIn(graph, keys, i, s);
        }
      }
      if s in idOf {
        if !SeenIn(graph, keys, i, s) {
          assert keys[i] in graph && (s == keys[i] || s in graph[keys[i]]);
        }
      }
    }
  }

  /** Second pass of intern_graph: each key's row is its successor list mapped to ids. */
  method BuildRows(graph: map<string, seq<string>>, keys: seq<string>, names: seq<string>, idOf: map<string, nat>)
    returns (adj: Adjacency)
    requires forall u :: u in graph <==> u in keys
    requires Distinct(keys)
    requires Bijective(names, idOf)
    requires forall s :: s in idOf <==> Labelled(graph, s)
    ensures Interned(graph, names, adj, idOf)
    ensures WellFormed(adj)
  {
    adj := seq(|names|, _ => []);
    forall u, v | u in graph && v in graph[u] ensures v in idOf {
      assert Labelled(graph, v);
    }
    forall j | 0 <= j < |keys| ensures keys[j] in graph && keys[j] in idOf && idOf[keys[j]] < |names| {
      assert keys[j] in keys;
    }
    for i := 0 to |keys|
      invariant |adj| == |names|
      invariant forall j | 0 <= j < i :: RowMapped(graph, adj, idOf, keys[j])
      invariant forall t | 0 <= t < |names| && names[t] !in keys[..i] :: adj[t] == []
    {
      adj := SetRow(graph, keys, names, idOf, adj, i);
    }
    assert keys[..|keys|] == keys;
    RowsWellFormed(graph, keys, names, adj, idOf);
  }

  /** One step of the second pass: key `i`'s row is filled in, the other rows stay. */
  method SetRow(graph: map<string, seq<string>>, keys: seq<string>, names: seq<string>, idOf: map<string, nat>, adj: Adjacency, i: nat)
    returns (adj': Adjacency)
    requires forall u :: u in graph <==> u in keys
    requires Distinct(keys)
    requires Bijective(names, idOf)
    requires forall s :: s in idOf <==> Labelled(graph, s)
    requires forall u, v | u in graph && v in graph[u] :: v in idOf
    requires forall j | 0 <= j < |keys| :: keys[j] in graph && keys[j] in idOf && idOf[keys[j]] < |names|
    requires i < |keys| && |adj| == |names|
    requires forall j | 0 <= j < i :: RowMapped(graph, adj, idOf, keys[j])
    requires forall t | 0 <= t < |names| && names[t] !in keys[..i] :: adj[t] == []
    ensures |adj'| == |names|
    ensures forall j | 0 <= j < i + 1 :: RowMapped(graph, adj', idOf, keys[j])
    ensures forall t | 0 <= t < |names| && names[t] !in keys[..i + 1] :: adj'[t] == []
  {
    var u := keys[i];
    var uid := idOf[u];
    assert names[uid] == u && u !in keys[..i];
    var row := MapRow(graph[u], idOf);
    adj' := adj[uid := row];
    assert keys[..i + 1] == keys[..i] + [u];
    forall j | 0 <= j < i + 1 ensures RowMapped(graph, adj', idOf, keys[j]) {
      if j < i {
        assert keys[j] != u;
        assert idOf[keys[j]] != uid;
      }
    }
  }

  /** The inner loop of the second pass: a successor list mapped to ids. */
  method MapRow(neigh: seq<string>, idOf: map<string, nat>) returns (row: seq<nat>)
    requires forall s | s in neigh :: s in idOf
    ensures |row| == |neigh| && forall t | 0 <= t < |neigh| :: row[t] == idOf[neigh[t]]
  {
    row := [];
    for k := 0 to |neigh|
      invariant |row| == k
      invariant forall t | 0 <= t < k :: row[t] == idOf[neigh[t]]
    {
      row := row + [idOf[neigh[k]]];
    }
  }

  lemma RowsWellFormed(graph: map<string, seq<string>>, keys: seq<string>, names: seq<string>, adj: Adjacency, idOf: map<string, nat>)
    requires forall u :: u in graph <==> u in keys
    requires |adj| == |names| && Bijective(names, idOf)
    requires forall j | 0 <= j < |keys| :: keys[j] in idOf && idOf[keys[j]] < |adj| && (forall v | v in graph[keys[j]] :: v in idOf)
    requires forall j | 0 <= j < |keys| :: RowMapped(graph, adj, idOf, keys[j])
    requires forall t | 0 <= t < |names| && names[t] !in keys :: adj[t] == []
    ensures WellFormed(adj)
  {
    forall u | 0 <= u < |adj| ensures forall v | v in adj[u] :: v < |adj| {
      if names[u] in graph {
        var j :| 0 <= j < |keys| && keys[j] == names[u];
        assert RowMapped(graph, adj, idOf, keys[j]);
      }
    }
  }
}
