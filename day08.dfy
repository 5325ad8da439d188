/**
 * Day 8: junction boxes hang at integer points in space. The closest pairs
 * are wired together first, and wired boxes form circuits; the answer is
 * the product of the sizes of the three largest circuits after a fixed
 * number of wirings.
 */
module Day08 {
  import opened Wrappers
  import opened Text
  import opened Sorting
  import opened Pairs

  type Point = (int, int, int)


  // ---------------------------------------------------------------------
  // Reading the boxes
  // ---------------------------------------------------------------------

  /**
   * A line the reader accepts without panicking: at least three
   * comma-separated fields, of which the first three parse as `i32`
   * (later fields are never parsed).
   */
  predicate ValidBox(line: string) {
    var fields := Split(line, ',');
    |fields| >= 3 && forall k | 0 <= k < 3 :: ParseSigned(fields[k], I32_MIN, I32_MAX).Some?
  }

  predicate InI32(x: int) {
    I32_MIN <= x <= I32_MAX
  }

  function ParseBox(line: string): (p: Point)
    requires ValidBox(line)
    ensures InI32(p.0) && InI32(p.1) && InI32(p.2)
  {
    var fields := Split(line, ',');
    (ParseSigned(fields[0], I32_MIN, I32_MAX).value,
     ParseSigned(fields[1], I32_MIN, I32_MAX).value,
     ParseSigned(fields[2], I32_MIN, I32_MAX).value)
  }

  /** A box written out as "x,y,z", followed by further fields. */
  function BoxLine(p: Point, extra: seq<string>): string {
    Join([Signed(p.0), Signed(p.1), Signed(p.2)] + extra, ',')
  }

  /** Every box written out, with any further fields, reads back as itself. */
  lemma ParseBoxRendered(p: Point, extra: seq<string>)
    requires InI32(p.0) && InI32(p.1) && InI32(p.2)
    requires forall k | 0 <= k < |extra| :: ',' !in extra[k]
    ensures ValidBox(BoxLine(p, extra)) && ParseBox(BoxLine(p, extra)) == p
  {
    BoxLineFields(p, extra);
    ParseFields(BoxLine(p, extra), p);
  }

  lemma BoxLineFields(p: Point, extra: seq<string>)
    requires forall k | 0 <= k < |extra| :: ',' !in extra[k]
    ensures Split(BoxLine(p, extra), ',') == [Signed(p.0), Signed(p.1), Signed(p.2)] + extra
  {
    var first := [Signed(p.0), Signed(p.1), Signed(p.2)];
    NoSeparatorAppend(first, extra, ',');
    JoinSplit(first + extra, ',');
  }

  lemma ParseFields(line: string, p: Point)
    requires InI32(p.0) && InI32(p.1) && InI32(p.2)
    requires exists extra :: Split(line, ',') == [Signed(p.0), Signed(p.1), Signed(p.2)] + extra
    ensures ValidBox(line) && ParseBox(line) == p
  {
    var fields := Split(line, ',');
    var extra :| fields == [Signed(p.0), Signed(p.1), Signed(p.2)] + extra;
    assert fields[0] == Signed(p.0) && fields[1] == Signed(p.1) && fields[2] == Signed(p.2);
    SignedParses(p.0, I32_MIN, I32_MAX);
    SignedParses(p.1, I32_MIN, I32_MAX);
    SignedParses(p.2, I32_MIN, I32_MAX);
  }

  /** Every line becomes one box, in input order. */
  function Boxes(lines: seq<string>): (boxes: seq<Point>)
    requires forall k | 0 <= k < |lines| :: ValidBox(lines[k])
    ensures |boxes| == |lines|
    ensures forall k | 0 <= k < |lines| :: boxes[k] == ParseBox(lines[k])
  {
    if lines == [] then [] else Boxes(lines[..|lines| - 1]) + [ParseBox(lines[|lines| - 1])]
  }

  // ---------------------------------------------------------------------
  // Distances
  // ---------------------------------------------------------------------

  function Square(x: int): (s: nat) {
    x * x
  }

  /** The squared Euclidean distance between two boxes. */
  function Dist2(a: Point, b: Point): (d: int)
    ensures d >= 0
  {
    Square(a.0 - b.0) + Square(a.1 - b.1) + Square(a.2 - b.2)
  }

  lemma SquareNegate(x: int)
    ensures Square(-x) == Square(x)
  {
  }

  lemma SquareZero(x: int)
    ensures Square(x) == 0 <==> x == 0
  {
    if x > 0 {
      assert x * x >= x;
    } else if x < 0 {
      assert (-x) * (-x) >= -x;
    }
  }

  lemma Dist2Symmetric(a: Point, b: Point)
    ensures Dist2(a, b) == Dist2(b, a)
  {
    SquareNegate(a.0 - b.0);
    SquareNegate(a.1 - b.1);
    SquareNegate(a.2 - b.2);
    assert b.0 - a.0 == -(a.0 - b.0);
    assert b.1 - a.1 == -(a.1 - b.1);
    assert b.2 - a.2 == -(a.2 - b.2);
  }

  /** The distance is zero exactly between a box and itself. */
  lemma Dist2Zero(a: Point, b: Point)
    ensures Dist2(a, b) == 0 <==> a == b
  {
    SquareZero(a.0 - b.0);
    SquareZero(a.1 - b.1);
    SquareZero(a.2 - b.2);
  }

  // ---------------------------------------------------------------------
  // All pairs, closest first
  // ---------------------------------------------------------------------

  function Distance(p: Pair): int {
    p.1
  }

  /** What `all_pairs_sorted` returns: all pairs `i < j` with their squared distances, stably sorted, closest first. */
  function AllPairs(points: seq<Point>): (pairs: seq<Pair>)
    ensures Indices(pairs, |points|)
  {
    SortedPairs(points, Dist2, Distance)
  }

  method AllPairsSorted(points: seq<Point>) returns (pairs: seq<Pair>)
    ensures pairs == AllPairs(points)
  {
    var n := |points|;
    pairs := [];
    for i := 0 to n
      invariant pairs == Generated(points, Dist2, i)
    {
      for j := i + 1 to n
        invariant pairs == Generated(points, Dist2, i) + Row(points, Dist2, i, j)
      {
        var d2 := Dist2(points[i], points[j]);
        pairs := pairs + [((i, j), d2)];
        assert PairOf(points, Dist2, i, j) == ((i, j), d2);
      }
    }
    pairs := SortBy(pairs, Distance);
  }

  /** `all_pairs_sorted` lists exactly the pairs `i < j < n`, each with its squared distance ... */
  lemma AllPairsMembers(points: seq<Point>, p: Pair)
    ensures p in AllPairs(points) <==> p.0.0 < p.0.1 < |points| && p.1 == Dist2(points[p.0.0], points[p.0.1])
  {
    SortedPairsMembers(points, Dist2, Distance, p);
    if p.0.0 < p.0.1 < |points| {
      assert PairOf(points, Dist2, p.0.0, p.0.1) == ((p.0.0, p.0.1), Dist2(points[p.0.0], points[p.0.1]));
    }
  }

  /**
   * ... each once, n(n-1)/2 in all, closest first, with pairs at the same
   * distance in index order.
   */
  lemma AllPairsOrder(points: seq<Point>, d: int)
    ensures 2 * |AllPairs(points)| == |points| * (|points| - 1)
    ensures multiset(AllPairs(points)) == multiset(Generated(points, Dist2, |points|))
    ensures Increasing(Generated(points, Dist2, |points|))
    ensures SortedBy(AllPairs(points), Distance)
    ensures Increasing(WithKey(AllPairs(points), Distance, d))
  {
    SortedPairsSpec(points, Dist2, Distance);
    GeneratedIncreasing(points, Dist2, |points|);
    SortedPairsTiesInOrder(points, Dist2, Distance, d);
  }

  // ---------------------------------------------------------------------
  // Wiring boxes into circuits
  // ---------------------------------------------------------------------

  type Circuit = seq<Point>

  /** `circuits.iter().position(|c| c.contains(&p))`: the first circuit holding `p`. */
  function Position(cs: seq<Circuit>, p: Point): (r: Option<nat>)
    ensures r.Some? ==> r.value < |cs| && p in cs[r.value]
    ensures r.Some? ==> forall c | 0 <= c < r.value :: p !in cs[c]
    ensures r.None? <==> forall c | 0 <= c < |cs| :: p !in cs[c]
  {
    if cs == [] then None
    else if p in cs[0] then Some(0)
    else
      match Position(cs[1..], p)
      case None => None
      case Some(c) => Some(c + 1)
  }

  /** The boxes of the wired pairs, in wiring order. */
  function Linked(boxes: seq<Point>, pairs: seq<Pair>): (done: seq<(Point, Point)>)
    requires forall k | 0 <= k < |pairs| :: pairs[k].0.0 < |boxes| && pairs[k].0.1 < |boxes|
    ensures |done| == |pairs|
    ensures forall k | 0 <= k < |pairs| :: done[k] == (boxes[pairs[k].0.0], boxes[pairs[k].0.1])
  {
    if pairs == [] then []
    else
      var last := pairs[|pairs| - 1];
      Linked(boxes, pairs[..|pairs| - 1]) + [(boxes[last.0.0], boxes[last.0.1])]
  }

  /** Every circuit has at least two boxes. */
  predicate Sizable(cs: seq<Circuit>) {
    forall c | 0 <= c < |cs| :: |cs[c]| >= 2
  }

  /** No box is in two circuits. */
  predicate Disjoint(cs: seq<Circuit>) {
    forall c, d, p | 0 <= c < |cs| && 0 <= d < |cs| && c != d && p in cs[c] :: p !in cs[d]
  }

  /** No circuit lists a box twice. */
  predicate NoRepeats(cs: seq<Circuit>) {
    forall c, i, j | 0 <= c < |cs| && 0 <= i < j < |cs[c]| :: cs[c][i] != cs[c][j]
  }

  /** `p` is an end of some wired pair. */
  predicate Touched(done: seq<(Point, Point)>, p: Point) {
    exists e | 0 <= e < |done| :: done[e].0 == p || done[e].1 == p
  }

  predicate Together(cs: seq<Circuit>, a: Point, b: Point) {
    exists c | 0 <= c < |cs| :: a in cs[c] && b in cs[c]
  }

  /** No wired pair joins a box to itself. */
  predicate Separate(done: seq<(Point, Point)>) {
    forall e | 0 <= e < |done| :: done[e].0 != done[e].1
  }

  /** Some wired pair joins `p` and `q`, in either order. */
  predicate Edge(done: seq<(Point, Point)>, p: Point, q: Point) {
    exists e | 0 <= e < |done| :: (done[e].0 == p && done[e].1 == q) || (done[e].0 == q && done[e].1 == p)
  }

  /** A walk along wired pairs. */
  predicate Walk(done: seq<(Point, Point)>, w: seq<Point>) {
    |w| >= 1 && forall i | 0 <= i < |w| - 1 :: Edge(done, w[i], w[i + 1])
  }

  /** `q` can be reached from `p` along wired pairs. */
  ghost predicate Reaches(done: seq<(Point, Point)>, p: Point, q: Point) {
    exists w :: Walk(done, w) && w[0] == p && w[|w| - 1] == q
  }

  /** Any two boxes of one circuit are joined by a chain of wired pairs. */
  ghost predicate Connected(cs: seq<Circuit>, done: seq<(Point, Point)>) {
    forall c, p, q | 0 <= c < |cs| && p in cs[c] && q in cs[c] :: Reaches(done, p, q)
  }

  /**
   * What the wiring loop keeps true: the circuits hold exactly the boxes
   * at the ends of the wired pairs, the two ends of every wired pair share
   * a circuit, any two boxes of a circuit are joined by a chain of wired
   * pairs, no box is in two circuits, every circuit has at least two
   * boxes, and (when no pair joins a box to an equal box) no circuit lists
   * a box twice. `CircuitsAreComponents` shows this makes the circuits the
   * connected components of the wired pairs.
   */
  ghost predicate Circuits(cs: seq<Circuit>, done: seq<(Point, Point)>) {
    && Sizable(cs)
    && Disjoint(cs)
    && (forall c, p | 0 <= c < |cs| && p in cs[c] :: Touched(done, p))
    && (forall e | 0 <= e < |done| :: Together(cs, done[e].0, done[e].1))
    && Connected(cs, done)
    && (Separate(done) ==> NoRepeats(cs))
  }

  lemma EdgeGrows(done: seq<(Point, Point)>, e: (Point, Point), p: Point, q: Point)
    requires Edge(done, p, q)
    ensures Edge(done + [e], p, q)
  {
    var k :| 0 <= k < |done| && ((done[k].0 == p && done[k].1 == q) || (done[k].0 == q && done[k].1 == p));
    assert (done + [e])[k] == done[k];
  }

  lemma EdgeNew(done: seq<(Point, Point)>, e: (Point, Point))
    ensures Edge(done + [e], e.0, e.1) && Edge(done + [e], e.1, e.0)
  {
    assert (done + [e])[|done|] == e;
  }

  lemma ReachesGrows(done: seq<(Point, Point)>, e: (Point, Point), p: Point, q: Point)
    requires Reaches(done, p, q)
    ensures Reaches(done + [e], p, q)
  {
    var w :| Walk(done, w) && w[0] == p && w[|w| - 1] == q;
    forall i | 0 <= i < |w| - 1 ensures Edge(done + [e], w[i], w[i + 1]) {
      EdgeGrows(done, e, w[i], w[i + 1]);
    }
    assert Walk(done + [e], w);
  }

  lemma ReachesSelf(done: seq<(Point, Point)>, p: Point)
    ensures Reaches(done, p, p)
  {
    assert Walk(done, [p]);
  }

  lemma ReachesEdge(done: seq<(Point, Point)>, p: Point, q: Point)
    requires Edge(done, p, q)
    ensures Reaches(done, p, q)
  {
    var w := [p, q];
    assert Walk(done, w);
  }

  /** Chains of wired pairs compose. */
  lemma ReachesTrans(done: seq<(Point, Point)>, p: Point, q: Point, r: Point)
    requires Reaches(done, p, q) && Reaches(done, q, r)
    ensures Reaches(done, p, r)
  {
    var w1 :| Walk(done, w1) && w1[0] == p && w1[|w1| - 1] == q;
    var w2 :| Walk(done, w2) && w2[0] == q && w2[|w2| - 1] == r;
    var w := w1 + w2[1..];
    forall i | 0 <= i < |w| - 1 ensures Edge(done, w[i], w[i + 1]) {
      if i < |w1| - 1 {
        assert w[i] == w1[i] && w[i + 1] == w1[i + 1];
      } else {
        var j := i - |w1| + 1;
        assert w[i] == w2[j] && w[i + 1] == w2[j + 1];
      }
    }
    assert w[|w| - 1] == r;
    assert Walk(done, w);
  }

  /** A further wired pair keeps every circuit connected. */
  lemma ConnectedGrows(cs: seq<Circuit>, done: seq<(Point, Point)>, e: (Point, Point))
    requires Connected(cs, done)
    ensures Connected(cs, done + [e])
  {
    forall c, p, q | 0 <= c < |cs| && p in cs[c] && q in cs[c] ensures Reaches(done + [e], p, q) {
      ReachesGrows(done, e, p, q);
    }
  }

  /** Two circuits joined by a new pair `(a, b)` are connected as one. */
  lemma ConnectedJoin(s: Circuit, t: Circuit, done: seq<(Point, Point)>, a: Point, b: Point, e: (Point, Point))
    requires a in s && b in t && (e == (a, b) || e == (b, a))
    requires forall p, q | p in s && q in s :: Reaches(done, p, q)
    requires forall p, q | p in t && q in t :: Reaches(done, p, q)
    ensures forall p, q | p in s + t && q in s + t :: Reaches(done + [e], p, q)
  {
    var all := done + [e];
    EdgeNew(done, e);
    ReachesEdge(all, a, b);
    ReachesEdge(all, b, a);
    forall p, q | p in s + t && q in s + t ensures Reaches(all, p, q) {
      if p in s && q in s {
        ReachesGrows(done, e, p, q);
      } else if p in t && q in t {
        ReachesGrows(done, e, p, q);
      } else if p in s {
        ReachesGrows(done, e, p, a);
        ReachesGrows(done, e, b, q);
        ReachesTrans(all, p, a, b);
        ReachesTrans(all, p, b, q);
      } else {
        ReachesGrows(done, e, p, b);
        ReachesGrows(done, e, a, q);
        ReachesTrans(all, p, b, a);
        ReachesTrans(all, p, a, q);
      }
    }
  }

  /** Boxes joined by a chain of wired pairs share a circuit. */
  lemma {:induction false} WalkTogether(cs: seq<Circuit>, done: seq<(Point, Point)>, w: seq<Point>, i: nat)
    requires Circuits(cs, done) && Walk(done, w) && 1 <= i < |w|
    ensures Together(cs, w[0], w[i])
    decreases i
  {
    var h := i - 1;
    assert Edge(done, w[h], w[h + 1]);
    var k :| 0 <= k < |done| && ((done[k].0 == w[i - 1] && done[k].1 == w[i]) || (done[k].0 == w[i] && done[k].1 == w[i - 1]));
    var d :| 0 <= d < |cs| && done[k].0 in cs[d] && done[k].1 in cs[d];
    if i > 1 {
      WalkTogether(cs, done, w, i - 1);
      var c :| 0 <= c < |cs| && w[0] in cs[c] && w[i - 1] in cs[c];
      assert c == d;
    }
  }

  /**
   * The circuits are the connected components of the wired pairs: two
   * different boxes share a circuit exactly when a chain of wired pairs
   * joins them.
   */
  lemma CircuitsAreComponents(cs: seq<Circuit>, done: seq<(Point, Point)>, p: Point, q: Point)
    requires Circuits(cs, done) && p != q
    ensures Together(cs, p, q) <==> Reaches(done, p, q)
  {
    if Reaches(done, p, q) {
      var w :| Walk(done, w) && w[0] == p && w[|w| - 1] == q;
      WalkTogether(cs, done, w, |w| - 1);
    }
  }

  lemma TouchedGrows(done: seq<(Point, Point)>, e: (Point, Point), p: Point)
    requires Touched(done, p) || p == e.0 || p == e.1
    ensures Touched(done + [e], p)
  {
    var all := done + [e];
    if p == e.0 || p == e.1 {
      assert all[|done|] == e;
    } else {
      var k :| 0 <= k < |done| && (done[k].0 == p || done[k].1 == p);
      assert all[k] == done[k];
    }
  }

  lemma SeparateShrinks(done: seq<(Point, Point)>, e: (Point, Point))
    requires Separate(done + [e])
    ensures Separate(done) && e.0 != e.1
  {
    var all := done + [e];
    assert all[|done|] == e;
    forall k | 0 <= k < |done| ensures done[k].0 != done[k].1 {
      assert all[k] == done[k];
    }
  }

  /** The ends of the old pairs, and of the new pair, share a circuit afterwards. */
  lemma JoinedGrows(cs: seq<Circuit>, done: seq<(Point, Point)>, e: (Point, Point))
    requires forall k | 0 <= k < |done| :: Together(cs, done[k].0, done[k].1)
    requires Together(cs, e.0, e.1)
    ensures forall k | 0 <= k < |done + [e]| :: Together(cs, (done + [e])[k].0, (done + [e])[k].1)
  {
    forall k | 0 <= k < |done + [e]| ensures Together(cs, (done + [e])[k].0, (done + [e])[k].1) {
      if k < |done| {
        assert (done + [e])[k] == done[k];
      }
    }
  }

  /** Both boxes already share a circuit: nothing changes. */
  lemma SameKeeps(cs: seq<Circuit>, done: seq<(Point, Point)>, a: Point, b: Point, c: nat)
    requires Circuits(cs, done)
    requires c < |cs| && a in cs[c] && b in cs[c]
    ensures Circuits(cs, done + [(a, b)])
  {
    var all := done + [(a, b)];
    forall d, p | 0 <= d < |cs| && p in cs[d] ensures Touched(all, p) {
      TouchedGrows(done, (a, b), p);
    }
    JoinedGrows(cs, done, (a, b));
    ConnectedGrows(cs, done, (a, b));
    if Separate(all) {
      SeparateShrinks(done, (a, b));
    }
  }

  /** Two different boxes outside every circuit start a new circuit. */
  lemma FreshKeeps(cs: seq<Circuit>, done: seq<(Point, Point)>, a: Point, b: Point)
    requires Circuits(cs, done)
    requires forall c | 0 <= c < |cs| :: a !in cs[c] && b !in cs[c]
    ensures Circuits(cs + [[a, b]], done + [(a, b)])
  {
    var all := done + [(a, b)];
    var next := cs + [[a, b]];
    forall c | 0 <= c < |cs| ensures next[c] == cs[c] { }
    forall c, p | 0 <= c < |next| && p in next[c] ensures Touched(all, p) {
      TouchedGrows(done, (a, b), p);
    }
    forall k | 0 <= k < |done| ensures Together(next, done[k].0, done[k].1) {
      var c :| 0 <= c < |cs| && done[k].0 in cs[c] && done[k].1 in cs[c];
      assert next[c] == cs[c];
    }
    assert next[|cs|] == [a, b];
    JoinedGrows(next, done, (a, b));
    forall c, p, q | 0 <= c < |next| && p in next[c] && q in next[c] ensures Reaches(all, p, q) {
      if c < |cs| {
        ReachesGrows(done, (a, b), p, q);
      } else {
        ReachesSelf(done, a);
        ReachesSelf(done, b);
        ConnectedJoin([a], [b], done, a, b, (a, b));
        assert p in [a] + [b] && q in [a] + [b];
      }
    }
    if Separate(all) {
      SeparateShrinks(done, (a, b));
    }
  }

  /** A box outside every circuit joins the circuit of its partner `p`. */
  lemma AttachKeeps(cs: seq<Circuit>, done: seq<(Point, Point)>, c: nat, p: Point, q: Point, e: (Point, Point))
    requires Circuits(cs, done)
    requires c < |cs| && p in cs[c]
    requires forall d | 0 <= d < |cs| :: q !in cs[d]
    requires e == (p, q) || e == (q, p)
    ensures Circuits(cs[c := cs[c] + [q]], done + [e])
  {
    var all := done + [e];
    var next := cs[c := cs[c] + [q]];
    forall d, x | 0 <= d < |next| && x in next[d] ensures Touched(all, x) {
      TouchedGrows(done, e, x);
    }
    forall k | 0 <= k < |done| ensures Together(next, done[k].0, done[k].1) {
      var d :| 0 <= d < |cs| && done[k].0 in cs[d] && done[k].1 in cs[d];
      assert done[k].0 in next[d] && done[k].1 in next[d];
    }
    assert p in next[c] && q in next[c];
    JoinedGrows(next, done, e);
    AttachConnected(cs, done, c, p, q, e);
    if Separate(all) {
      SeparateShrinks(done, e);
      AttachNoRepeats(cs, c, q);
    }
  }

  lemma AttachConnected(cs: seq<Circuit>, done: seq<(Point, Point)>, c: nat, p: Point, q: Point, e: (Point, Point))
    requires Connected(cs, done)
    requires c < |cs| && p in cs[c] && (e == (p, q) || e == (q, p))
    ensures Connected(cs[c := cs[c] + [q]], done + [e])
  {
    var next := cs[c := cs[c] + [q]];
    forall d, x, y | 0 <= d < |next| && x in next[d] && y in next[d] ensures Reaches(done + [e], x, y) {
      if d != c {
        ReachesGrows(done, e, x, y);
      } else {
        ReachesSelf(done, q);
        ConnectedJoin(cs[c], [q], done, p, q, e);
      }
    }
  }

  lemma AttachNoRepeats(cs: seq<Circuit>, c: nat, q: Point)
    requires NoRepeats(cs) && c < |cs| && q !in cs[c]
    ensures NoRepeats(cs[c := cs[c] + [q]])
  {
    var next := cs[c := cs[c] + [q]];
    forall d, i, j | 0 <= d < |next| && 0 <= i < j < |next[d]| ensures next[d][i] != next[d][j] {
      if d == c && j == |cs[c]| {
        assert next[d][i] in cs[c];
      }
    }
  }

  /** `Vec::remove(i)`: the list without its `i`-th element. */
  function Removed(cs: seq<Circuit>, i: nat): (r: seq<Circuit>)
    requires i < |cs|
    ensures |r| == |cs| - 1
    ensures forall k | 0 <= k < |r| :: r[k] == cs[if k < i then k else k + 1]
  {
    cs[..i] + cs[i + 1..]
  }

  /** The position of circuit `ai` once circuit `bi` has been removed. */
  function AfterRemove(cs: seq<Circuit>, ai: nat, bi: nat): (idx: nat)
    requires ai < |cs| && bi < |cs| && ai != bi
    ensures idx < |cs| - 1 && Removed(cs, bi)[idx] == cs[ai]
  {
    if bi < ai then ai - 1 else ai
  }

  /** Circuit `bi` removed and appended to circuit `ai`. */
  function Merged(cs: seq<Circuit>, ai: nat, bi: nat): (r: seq<Circuit>)
    requires ai < |cs| && bi < |cs| && ai != bi
    ensures |r| == |cs| - 1
  {
    var rest := Removed(cs, bi);
    var idx := AfterRemove(cs, ai, bi);
    rest[idx := rest[idx] + cs[bi]]
  }

  /** Each merged circuit is the joined pair, or an untouched circuit of the input. */
  lemma MergedAt(cs: seq<Circuit>, ai: nat, bi: nat, k: nat)
    requires ai < |cs| && bi < |cs| && ai != bi && k < |cs| - 1
    ensures var from := if k < bi then k else k + 1;
      && (k == AfterRemove(cs, ai, bi) ==> Merged(cs, ai, bi)[k] == cs[ai] + cs[bi])
      && (k != AfterRemove(cs, ai, bi) ==> from != ai && from != bi && Merged(cs, ai, bi)[k] == cs[from])
  {
  }

  /** Where circuit `c` of the input sits after the merge. */
  function Moved(cs: seq<Circuit>, ai: nat, bi: nat, c: nat): (k: nat)
    requires ai < |cs| && bi < |cs| && ai != bi && c < |cs|
    ensures k < |cs| - 1
    ensures c == ai || c == bi ==> k == AfterRemove(cs, ai, bi)
    ensures forall p | p in cs[c] :: p in Merged(cs, ai, bi)[k]
  {
    var idx := AfterRemove(cs, ai, bi);
    if c == ai || c == bi then
      MergedAt(cs, ai, bi, idx);
      idx
    else
      var k := if c < bi then c else c - 1;
      MergedAt(cs, ai, bi, k);
      k
  }

  lemma MergeDisjoint(cs: seq<Circuit>, ai: nat, bi: nat)
    requires ai < |cs| && bi < |cs| && ai != bi
    requires Disjoint(cs)
    ensures Disjoint(Merged(cs, ai, bi))
  {
    var next := Merged(cs, ai, bi);
    forall c, d, p | 0 <= c < |next| && 0 <= d < |next| && c != d && p in next[c] ensures p !in next[d] {
      MergedAt(cs, ai, bi, c);
      MergedAt(cs, ai, bi, d);
    }
  }

  lemma AppendNoRepeats(s: Circuit, t: Circuit)
    requires forall i, j | 0 <= i < j < |s| :: s[i] != s[j]
    requires forall i, j | 0 <= i < j < |t| :: t[i] != t[j]
    requires forall p | p in s :: p !in t
    ensures forall i, j | 0 <= i < j < |s + t| :: (s + t)[i] != (s + t)[j]
  {
    forall i, j | 0 <= i < j < |s + t| ensures (s + t)[i] != (s + t)[j] {
      if j >= |s| {
        if i < |s| {
          assert (s + t)[i] in s;
          assert (s + t)[j] in t;
        } else {
          assert (s + t)[i] == t[i - |s|] && (s + t)[j] == t[j - |s|];
        }
      }
    }
  }

  lemma MergeNoRepeats(cs: seq<Circuit>, ai: nat, bi: nat)
    requires ai < |cs| && bi < |cs| && ai != bi
    requires Disjoint(cs) && NoRepeats(cs)
    ensures NoRepeats(Merged(cs, ai, bi))
  {
    var next := Merged(cs, ai, bi);
    forall k | 0 <= k < |next| ensures forall i, j | 0 <= i < j < |next[k]| :: next[k][i] != next[k][j] {
      MergedAt(cs, ai, bi, k);
      if k == AfterRemove(cs, ai, bi) {
        AppendNoRepeats(cs[ai], cs[bi]);
      }
    }
  }

  /** Two different circuits holding the two boxes become one. */
  lemma MergeKeeps(cs: seq<Circuit>, done: seq<(Point, Point)>, a: Point, b: Point, ai: nat, bi: nat)
    requires Circuits(cs, done)
    requires ai < |cs| && bi < |cs| && ai != bi && a in cs[ai] && b in cs[bi]
    ensures Circuits(Merged(cs, ai, bi), done + [(a, b)])
  {
    var all := done + [(a, b)];
    var next := Merged(cs, ai, bi);
    forall k | 0 <= k < |next| ensures |next[k]| >= 2 {
      MergedAt(cs, ai, bi, k);
    }
    MergeDisjoint(cs, ai, bi);
    forall k, x | 0 <= k < |next| && x in next[k] ensures Touched(all, x) {
      MergedAt(cs, ai, bi, k);
      TouchedGrows(done, (a, b), x);
    }
    forall k | 0 <= k < |done| ensures Together(next, done[k].0, done[k].1) {
      var c :| 0 <= c < |cs| && done[k].0 in cs[c] && done[k].1 in cs[c];
      var m := Moved(cs, ai, bi, c);
    }
    var idx := Moved(cs, ai, bi, ai);
    assert Moved(cs, ai, bi, bi) == idx;
    assert a in next[idx] && b in next[idx];
    JoinedGrows(next, done, (a, b));
    forall k, x, y | 0 <= k < |next| && x in next[k] && y in next[k] ensures Reaches(all, x, y) {
      MergedAt(cs, ai, bi, k);
      if k == AfterRemove(cs, ai, bi) {
        ConnectedJoin(cs[ai], cs[bi], done, a, b, (a, b));
      } else {
        ReachesGrows(done, (a, b), x, y);
      }
    }
    if Separate(all) {
      SeparateShrinks(done, (a, b));
      MergeNoRepeats(cs, ai, bi);
    }
  }

  function Min(a: nat, b: nat): nat {
    if a < b then a else b
  }

  /** The wiring loop over the first `connections` pairs. */
  method Connect(boxes: seq<Point>, pairs: seq<Pair>, connections: nat) returns (circuits: seq<Circuit>)
    requires Indices(pairs, |boxes|)
    ensures Circuits(circuits, Linked(boxes, pairs[..Min(connections, |pairs|)]))
  {
    circuits := [];
    for k := 0 to Min(connections, |pairs|)
      invariant Circuits(circuits, Linked(boxes, pairs[..k]))
    {
      var a := boxes[pairs[k].0.0];
      var b := boxes[pairs[k].0.1];
      ghost var done := Linked(boxes, pairs[..k]);
      assert Linked(boxes, pairs[..k + 1]) == done + [(a, b)] by {
        assert pairs[..k + 1][..k] == pairs[..k];
      }
      circuits := Wire(circuits, a, b, done);
    }
  }

  /** One connection: the circuits of the boxes `a` and `b` are merged, extended or created. */
  method Wire(circuits: seq<Circuit>, a: Point, b: Point, ghost done: seq<(Point, Point)>) returns (next: seq<Circuit>)
    requires Circuits(circuits, done)
    ensures Circuits(next, done + [(a, b)])
  {
    var circuitA := Position(circuits, a);
    if circuitA.Some? {
      var circuitB := Position(circuits, b);
      if circuitB.Some? {
        if circuitA.value != circuitB.value {
          var ai, bi := circuitA.value, circuitB.value;
          var joined := circuits[bi];
          next := circuits[..bi] + circuits[bi + 1..];
          var idx := if bi < ai then ai - 1 else ai;
          next := next[idx := next[idx] + joined];
          assert next == Merged(circuits, ai, bi);
          MergeKeeps(circuits, done, a, b, ai, bi);
        } else {
          next := circuits;
          SameKeeps(circuits, done, a, b, circuitA.value);
        }
      } else {
        next := circuits[circuitA.value := circuits[circuitA.value] + [b]];
        AttachKeeps(circuits, done, circuitA.value, a, b, (a, b));
      }
    } else {
      var circuitB := Position(circuits, b);
      if circuitB.Some? {
        next := circuits[circuitB.value := circuits[circuitB.value] + [a]];
        AttachKeeps(circuits, done, circuitB.value, b, a, (a, b));
      } else {
        next := circuits + [[a, b]];
        FreshKeeps(circuits, done, a, b);
      }
    }
  }

  /** With no two boxes at the same point, no wired pair joins a box to an equal box. */
  lemma WiredSeparate(boxes: seq<Point>, m: nat)
    requires forall i, j | 0 <= i < j < |boxes| :: boxes[i] != boxes[j]
    requires m <= |AllPairs(boxes)|
    ensures Separate(Linked(boxes, AllPairs(boxes)[..m]))
  {
    var wired := AllPairs(boxes)[..m];
    forall k | 0 <= k < m ensures wired[k].0.0 < wired[k].0.1 {
      assert wired[k] in AllPairs(boxes);
      AllPairsMembers(boxes, wired[k]);
    }
  }

  // ---------------------------------------------------------------------
  // The three largest circuits
  // ---------------------------------------------------------------------

  /** `Reverse(len)`: longer circuits first. */
  function Longest(c: Circuit): int {
    -|c|
  }

  /** `top` lists three circuits of `cs`, largest first, and no other circuit is larger than the third. */
  predicate LargestThree(cs: seq<Circuit>, top: seq<Circuit>) {
    && |top| == 3
    && multiset(top) <= multiset(cs)
    && |top[0]| >= |top[1]| >= |top[2]|
    && forall c | c in multiset(cs) - multiset(top) :: |c| <= |top[2]|
  }

  /** The first `n` elements of a sorted permutation of `cs` are taken from `cs`, and no key among the rest is smaller. */
  lemma SortedPrefix<T>(sorted: seq<T>, cs: seq<T>, key: T -> int, n: nat)
    requires multiset(sorted) == multiset(cs) && SortedBy(sorted, key) && 0 < n <= |sorted|
    ensures multiset(sorted[..n]) <= multiset(cs)
    ensures forall c | c in multiset(cs) - multiset(sorted[..n]) :: key(sorted[n - 1]) <= key(c)
  {
    var top, rest := sorted[..n], sorted[n..];
    assert sorted == top + rest;
    assert multiset(cs) - multiset(top) == multiset(rest);
    forall c | c in multiset(rest) ensures key(sorted[n - 1]) <= key(c) {
      var k :| 0 <= k < |rest| && rest[k] == c;
      assert sorted[k + n] == c;
    }
  }

  function Product(x: nat, y: nat, z: nat): nat {
    x * y * z
  }

  lemma SortedTop(cs: seq<Circuit>)
    requires |cs| >= 3
    ensures LargestThree(cs, SortBy(cs, Longest)[..3])
  {
    var sorted := SortBy(cs, Longest);
    SortedPrefix(sorted, cs, Longest, 3);
    assert Longest(sorted[0]) <= Longest(sorted[1]) <= Longest(sorted[2]);
  }

  /**
   * Sort the circuits by size, largest first (a stable sort), and multiply
   * the sizes of the first three. With fewer than three circuits the
   * source indexes past the end and panics; that outcome is `None` here.
   */
  method LargestProduct(circuits: seq<Circuit>) returns (r: Option<nat>)
    ensures r.None? <==> |circuits| < 3
    ensures r.Some? ==> exists top :: LargestThree(circuits, top) && r.value == Product(|top[0]|, |top[1]|, |top[2]|)
  {
    var sorted := SortBy(circuits, Longest);
    if |sorted| < 3 {
      return None;
    }
    SortedTop(circuits);
    ghost var top := sorted[..3];
    assert LargestThree(circuits, top);
    r := Some(Product(|sorted[0]|, |sorted[1]|, |sorted[2]|));
    assert top[0] == sorted[0] && top[1] == sorted[1] && top[2] == sorted[2];
  }

  /**
   * `part_one`: wire the first `connections` closest pairs, sort the
   * circuits by size and multiply the three largest sizes. `circuits` is
   * the circuit list before the final sort.
   */
  method PartOne(lines: seq<string>, connections: nat) returns (r: Option<nat>, ghost circuits: seq<Circuit>)
    requires forall k | 0 <= k < |lines| :: ValidBox(lines[k])
    ensures var boxes := Boxes(lines);
      Circuits(circuits, Linked(boxes, AllPairs(boxes)[..Min(connections, |AllPairs(boxes)|)]))
    ensures r.None? <==> |circuits| < 3
    ensures r.Some? ==> exists top :: LargestThree(circuits, top) && r.value == Product(|top[0]|, |top[1]|, |top[2]|)
  {
    var boxes := Boxes(lines);
    var pairs := AllPairsSorted(boxes);
    var wired := Connect(boxes, pairs, connections);
    circuits := wired;
    r := LargestProduct(wired);
  }
}
