/**
 * Day 11, the two parts: the input lines become the server rack map
 * (device -> the devices its outputs feed), part one counts the paths
 * all_paths_dag enumerates from "you" to "out", and part two counts the
 * paths from "svr" to "out" through both "dac" and "fft".
 */
module Day11 {
  import opened Wrappers
  import opened Text
  import opened Day11Graph
  import opened Day11Paths
  import opened Day11Ways
  import opened Day11CrossCheck
  import opened Day11Count

  type Rack = map<string, seq<string>>

  /** One line `device: a b c`, None where `split_once(": ")` fails and `expect` panics. */
  function Entry(line: string): (r: Option<(string, seq<string>)>)
    ensures r.Some? <==> SplitOnce(line, ": ").Some?
    ensures r.Some? ==> |r.value.1| >= 1 && line == r.value.0 + ": " + Join(r.value.1, ' ')
  {
    match SplitOnce(line, ": ")
    case None => None
    case Some((device, connections)) =>
      SplitJoin(connections, ' ');
      Some((device, Split(connections, ' ')))
  }

  /** A line written from a device without ':' and outputs without spaces reads back as them. */
  lemma EntryRendered(device: string, outputs: seq<string>)
    requires ':' !in device
    requires |outputs| >= 1 && forall k | 0 <= k < |outputs| :: ' ' !in outputs[k]
    ensures Entry(device + ": " + Join(outputs, ' ')) == Some((device, outputs))
  {
    var line := device + ": " + Join(outputs, ' ');
    forall i: nat | i < |device| ensures !OccursAt(line, ": ", i) {
      assert line[i] == device[i];
    }
    SplitOnceAt(line, ": ", device, Join(outputs, ' '));
    JoinSplit(outputs, ' ');
  }

  /**
   * Collecting `(key, value)` pairs into a `HashMap`: a later pair for the
   * same key replaces an earlier one; None when some pair is missing.
   */
  function Collected<K, V>(es: seq<Option<(K, V)>>): Option<map<K, V>> {
    if es == [] then Some(map[])
    else
      match Collected(es[..|es| - 1])
      case None => None
      case Some(m) =>
        match es[|es| - 1]
        case None => None
        case Some(e) => Some(m[e.0 := e.1])
  }

  /** Pair `k` is the last one with its key. */
  predicate LastFor<K(==), V>(es: seq<Option<(K, V)>>, k: nat)
    requires k < |es| && es[k].Some?
  {
    forall j | k < j < |es| :: es[j].Some? ==> es[j].value.0 != es[k].value.0
  }

  /**
   * The map exists exactly when every pair does; its keys are the pairs'
   * keys, and each maps to the value of the last pair with that key.
   */
  lemma CollectedMeaning<K, V>(es: seq<Option<(K, V)>>)
    ensures Collected(es).Some? <==> forall k | 0 <= k < |es| :: es[k].Some?
    ensures Collected(es).Some? ==>
      forall d :: d in Collected(es).value <==> exists k | 0 <= k < |es| :: es[k].value.0 == d
    ensures Collected(es).Some? ==>
      forall k | 0 <= k < |es| && LastFor(es, k) :: Collected(es).value[es[k].value.0] == es[k].value.1
  {
    CollectedSome(es);
    if Collected(es).Some? {
      CollectedKeys(es);
      CollectedLast(es);
    }
  }

  lemma {:induction false} CollectedSome<K, V>(es: seq<Option<(K, V)>>)
    ensures Collected(es).Some? <==> forall k | 0 <= k < |es| :: es[k].Some?
    decreases |es|
  {
    if es != [] {
      var n := |es| - 1;
      var front := es[..n];
      CollectedSome(front);
      assert forall k | 0 <= k < n :: front[k] == es[k];
      assert Collected(es).Some? <==> Collected(front).Some? && es[n].Some?;
    }
  }

  lemma {:induction false} CollectedKeys<K, V>(es: seq<Option<(K, V)>>)
    requires forall k | 0 <= k < |es| :: es[k].Some?
    ensures Collected(es).Some?
    ensures forall d :: d in Collected(es).value <==> exists k | 0 <= k < |es| :: es[k].value.0 == d
    decreases |es|
  {
    if es != [] {
      var n := |es| - 1;
      var front := es[..n];
      assert forall k | 0 <= k < n :: front[k] == es[k];
      CollectedKeys(front);
      var m, e := Collected(front).value, es[n].value;
      var r := Collected(es).value;
      assert r == m[e.0 := e.1];
      forall d ensures d in r <==> exists k | 0 <= k < |es| :: es[k].value.0 == d {
        if d in m {
          var k :| 0 <= k < n && front[k].value.0 == d;
          assert es[k].value.0 == d;
        }
        if exists k | 0 <= k < |es| :: es[k].value.0 == d {
          var k :| 0 <= k < |es| && es[k].value.0 == d;
          if k < n {
            assert front[k].value.0 == d;
          }
        }
      }
    }
  }

  lemma {:induction false} CollectedLast<K, V>(es: seq<Option<(K, V)>>)
    requires forall k | 0 <= k < |es| :: es[k].Some?
    ensures Collected(es).Some? && forall k | 0 <= k < |es| :: es[k].value.0 in Collected(es).value
    ensures forall k | 0 <= k < |es| && LastFor(es, k) :: Collected(es).value[es[k].value.0] == es[k].value.1
    decreases |es|
  {
    CollectedKeys(es);
    if es != [] {
      var n := |es| - 1;
      var front := es[..n];
      assert forall k | 0 <= k < n :: front[k] == es[k];
      CollectedLast(front);
      var m, e := Collected(front).value, es[n].value;
      var r := Collected(es).value;
      assert r == m[e.0 := e.1];
      forall k | 0 <= k < |es| && LastFor(es, k) ensures r[es[k].value.0] == es[k].value.1 {
        if k < n {
          assert LastFor(front, k) && es[k].value.0 != e.0;
        }
      }
    }
  }

  /** The lines' entries, in order. */
  function Entries(lines: seq<string>): (es: seq<Option<(string, seq<string>)>>)
    ensures |es| == |lines| && forall k | 0 <= k < |lines| :: es[k] == Entry(lines[k])
  {
    seq(|lines|, k requires 0 <= k < |lines| => Entry(lines[k]))
  }

  /** The server rack map `part_one` and `part_two` collect. */
  function RackOf(lines: seq<string>): Option<Rack> {
    Collected(Entries(lines))
  }

  /** Collecting the map fails exactly when some line has no ": ". */
  lemma RackFails(lines: seq<string>)
    ensures RackOf(lines).None? <==> exists k | 0 <= k < |lines| :: Entry(lines[k]).None?
  {
    CollectedMeaning(Entries(lines));
  }

  /** `paths` holds exactly the paths from `start` to `goal`. */
  ghost predicate PathsBetween(rack: Rack, start: string, goal: string, paths: seq<seq<string>>) {
    && (forall p | p in paths :: IsEdgePath(rack, p) && p[0] == start && p[|p| - 1] == goal)
    && (forall p | IsEdgePath(rack, p) && p[0] == start && p[|p| - 1] == goal :: p in paths)
  }

  /**
   * `part_one`, with the topological order the library's sort returns from
   * "you" as a parameter: None where a line has no ": ", else the number of
   * paths all_paths_dag lists, which are exactly the "you" -> "out" paths.
   */
  method PartOne(lines: seq<string>, order: seq<string>) returns (r: Option<nat>)
    requires RackOf(lines).Some? ==> TopoOrderFrom(RackOf(lines).value, "you", order)
    ensures r.Some? <==> RackOf(lines).Some?
    ensures r.Some? ==> r.value == |DagPaths(RackOf(lines).value, order, "you", "out")|
    ensures r.Some? ==> PathsBetween(RackOf(lines).value, "you", "out", DagPaths(RackOf(lines).value, order, "you", "out"))
    ensures r.Some? && !EdgeReachable(RackOf(lines).value, "you", "out") ==> r.value == 0
  {
    var rack := RackOf(lines);
    if rack.None? {
      return None;
    }
    var paths := AllPathsDag(rack.value, order, "you", "out");
    r := Some(|paths|);
    assert PathsBetween(rack.value, "you", "out", paths);
  }

  /**
   * `part_two`, with the map's iteration order as the parameter `keys`:
   * None where a line has no ": ", else the (saturated) number of paths
   * all_paths_dag would list from "svr" to "out" that visit both "dac" and
   * "fft", whichever topological order it used.
   */
  method PartTwo(lines: seq<string>, keys: seq<string>) returns (r: Option<nat>)
    requires RackOf(lines).Some? ==> (forall u :: u in RackOf(lines).value <==> u in keys) && Distinct(keys)
    ensures r.Some? <==> RackOf(lines).Some?
    ensures r.Some? ==> r.value <= Text.U64_MAX
    ensures r.Some? && Labelled(RackOf(lines).value, "svr") ==> forall lorder | TopoOrderFrom(RackOf(lines).value, "svr", lorder) ::
      r.value == Sat(CountVisiting(DagPaths(RackOf(lines).value, lorder, "svr", "out"), "dac", "fft"))
    ensures r.Some? && !EdgeReachable(RackOf(lines).value, "svr", "out") ==> r.value == 0
  {
    var rack := RackOf(lines);
    if rack.None? {
      return None;
    }
    var count, names, adj, idOf, order := CountPathsMustVisit(rack.value, keys, "svr", "out", "dac", "fft");
    r := Some(count);
  }
}
