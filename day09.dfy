/**
 * Day 9: red tiles sit at integer positions on a floor. Part one picks
 * the pair of tiles spanning the largest rectangle; part two runs a
 * geometric shortcut over the tile list: two binary searches and two
 * scans around the middle of the list.
 */
module Day09 {
  import opened Wrappers
  import opened Text
  import opened Sorting
  import opened Pairs

  type Tile = (int, int)

  // ---------------------------------------------------------------------
  // Reading the tiles
  // ---------------------------------------------------------------------

  /**
   * A line both readers accept without panicking: at least two
   * comma-separated fields, of which the first two parse as `i32`.
   */
  predicate ValidTile(line: string) {
    var fields := Split(line, ',');
    |fields| >= 2 && forall k | 0 <= k < 2 :: ParseSigned(fields[k], I32_MIN, I32_MAX).Some?
  }

  function ParseTile(line: string): (t: Tile)
    requires ValidTile(line)
    ensures I32_MIN <= t.0 <= I32_MAX && I32_MIN <= t.1 <= I32_MAX
  {
    var fields := Split(line, ',');
    (ParseSigned(fields[0], I32_MIN, I32_MAX).value, ParseSigned(fields[1], I32_MIN, I32_MAX).value)
  }

  /** A tile written out as "x,y", followed by further fields. */
  function TileLine(t: Tile, extra: seq<string>): string {
    Join([Signed(t.0), Signed(t.1)] + extra, ',')
  }

  /** Every tile written out, with any further fields, reads back as itself. */
  lemma ParseTileRendered(t: Tile, extra: seq<string>)
    requires I32_MIN <= t.0 <= I32_MAX && I32_MIN <= t.1 <= I32_MAX
    requires forall k | 0 <= k < |extra| :: ',' !in extra[k]
    ensures ValidTile(TileLine(t, extra)) && ParseTile(TileLine(t, extra)) == t
  {
    TileLineFields(t, extra);
    var fields := Split(TileLine(t, extra), ',');
    assert fields[0] == Signed(t.0) && fields[1] == Signed(t.1);
    SignedParses(t.0, I32_MIN, I32_MAX);
    SignedParses(t.1, I32_MIN, I32_MAX);
  }

  lemma TileLineFields(t: Tile, extra: seq<string>)
    requires forall k | 0 <= k < |extra| :: ',' !in extra[k]
    ensures Split(TileLine(t, extra), ',') == [Signed(t.0), Signed(t.1)] + extra
  {
    var first := [Signed(t.0), Signed(t.1)];
    NoSeparatorAppend(first, extra, ',');
    JoinSplit(first + extra, ',');
  }

  function Tiles(lines: seq<string>): (tiles: seq<Tile>)
    requires forall k | 0 <= k < |lines| :: ValidTile(lines[k])
    ensures |tiles| == |lines|
    ensures forall k | 0 <= k < |lines| :: tiles[k] == ParseTile(lines[k])
  {
    if lines == [] then [] else Tiles(lines[..|lines| - 1]) + [ParseTile(lines[|lines| - 1])]
  }

  // ---------------------------------------------------------------------
  // Part one: the largest rectangle between two tiles
  // ---------------------------------------------------------------------

  function Abs(x: int): nat {
    if x < 0 then -x else x
  }

  /**
   * The area `all_pairs_sorted` computes for tiles `a` and `b`: the
   * absolute values of the coordinate differences plus one, multiplied.
   */
  function Area(a: Tile, b: Tile): int {
    Abs(a.0 - b.0 + 1) * Abs(a.1 - b.1 + 1)
  }

  /** The number of tiles in the rectangle with opposite corners `a` and `b`. */
  function TileArea(a: Tile, b: Tile): int {
    (Abs(a.0 - b.0) + 1) * (Abs(a.1 - b.1) + 1)
  }

  /** `Reverse(area)`: larger areas first. */
  function LargestFirst(p: Pair): int {
    -p.1
  }

  /** What `all_pairs_sorted` returns: all pairs `i < j` with their areas, stably sorted, largest first. */
  function AllAreas(tiles: seq<Tile>, f: (Tile, Tile) -> int): (pairs: seq<Pair>)
    ensures Indices(pairs, |tiles|)
  {
    SortedPairs(tiles, f, LargestFirst)
  }

  method AllPairsSorted(tiles: seq<Tile>) returns (pairs: seq<Pair>)
    ensures pairs == AllAreas(tiles, Area)
  {
    var n := |tiles|;
    pairs := [];
    for i := 0 to n
      invariant pairs == Generated(tiles, Area, i)
    {
      for j := i + 1 to n
        invariant pairs == Generated(tiles, Area, i) + Row(tiles, Area, i, j)
      {
        var width := Abs((tiles[i].0 - tiles[j].0) + 1);
        var height := Abs((tiles[i].1 - tiles[j].1) + 1);
        var area := width * height;
        pairs := pairs + [((i, j), area)];
        assert PairOf(tiles, Area, i, j) == ((i, j), area);
      }
    }
    pairs := SortBy(pairs, LargestFirst);
  }

  /** `all_pairs_sorted` lists exactly the pairs `i < j < n`, each with its area ... */
  lemma AllAreasMembers(tiles: seq<Tile>, f: (Tile, Tile) -> int, p: Pair)
    ensures p in AllAreas(tiles, f) <==> p.0.0 < p.0.1 < |tiles| && p.1 == f(tiles[p.0.0], tiles[p.0.1])
  {
    SortedPairsMembers(tiles, f, LargestFirst, p);
    if p.0.0 < p.0.1 < |tiles| {
      assert PairOf(tiles, f, p.0.0, p.0.1) == ((p.0.0, p.0.1), f(tiles[p.0.0], tiles[p.0.1]));
    }
  }

  /** ... each once, n(n-1)/2 in all, largest area first, equal areas in index order. */
  lemma AllAreasOrder(tiles: seq<Tile>, f: (Tile, Tile) -> int, d: int)
    ensures 2 * |AllAreas(tiles, f)| == |tiles| * (|tiles| - 1)
    ensures multiset(AllAreas(tiles, f)) == multiset(Generated(tiles, f, |tiles|))
    ensures Increasing(Generated(tiles, f, |tiles|))
    ensures forall a, b | 0 <= a < b < |AllAreas(tiles, f)| :: AllAreas(tiles, f)[a].1 >= AllAreas(tiles, f)[b].1
    ensures Increasing(WithKey(AllAreas(tiles, f), LargestFirst, d))
  {
    SortedPairsSpec(tiles, f, LargestFirst);
    GeneratedIncreasing(tiles, f, |tiles|);
    SortedPairsTiesInOrder(tiles, f, LargestFirst, d);
  }

  lemma NoPairs(n: nat)
    ensures n * (n - 1) == 0 <==> n < 2
  {
    if n >= 2 {
      assert n * (n - 1) >= n - 1;
    }
  }

  /**
   * The area of the first pair in the list sorted largest first, which is
   * the largest area of any two tiles; `None` (the `?` on `first()`) with
   * fewer than two tiles.
   */
  function LargestArea(tiles: seq<Tile>, f: (Tile, Tile) -> int): (r: Option<int>)
    ensures r.None? <==> |tiles| < 2
    ensures r.Some? ==> exists i, j | 0 <= i < j < |tiles| :: r.value == f(tiles[i], tiles[j])
    ensures r.Some? ==> forall i, j | 0 <= i < j < |tiles| :: f(tiles[i], tiles[j]) <= r.value
  {
    var areas := AllAreas(tiles, f);
    AllAreasOrder(tiles, f, 0);
    NoPairs(|tiles|);
    if |areas| == 0 then None
    else
      LargestAreaFirst(tiles, f);
      Some(areas[0].1)
  }

  /** `part_one`: the largest area, as the source computes it, between two of the tiles read. */
  function PartOne(lines: seq<string>): (r: Option<int>)
    requires forall k | 0 <= k < |lines| :: ValidTile(lines[k])
    ensures r.None? <==> |lines| < 2
    ensures r.Some? ==> exists i, j | 0 <= i < j < |lines| :: r.value == Area(Tiles(lines)[i], Tiles(lines)[j])
    ensures r.Some? ==> forall i, j | 0 <= i < j < |lines| :: Area(Tiles(lines)[i], Tiles(lines)[j]) <= r.value
  {
    LargestArea(Tiles(lines), Area)
  }

  /** `part_one` with the intended area: the most tiles a rectangle between two of the tiles read covers. */
  function PartOneCorrected(lines: seq<string>): (r: Option<int>)
    requires forall k | 0 <= k < |lines| :: ValidTile(lines[k])
    ensures r.None? <==> |lines| < 2
    ensures r.Some? ==> exists i, j | 0 <= i < j < |lines| :: r.value == TileArea(Tiles(lines)[i], Tiles(lines)[j])
    ensures r.Some? ==> forall i, j | 0 <= i < j < |lines| :: TileArea(Tiles(lines)[i], Tiles(lines)[j]) <= r.value
  {
    LargestArea(Tiles(lines), TileArea)
  }

  lemma LargestAreaFirst(tiles: seq<Tile>, f: (Tile, Tile) -> int)
    requires |AllAreas(tiles, f)| > 0
    ensures var first := AllAreas(tiles, f)[0];
      && first.0.0 < first.0.1 < |tiles| && first.1 == f(tiles[first.0.0], tiles[first.0.1])
      && forall i, j | 0 <= i < j < |tiles| :: f(tiles[i], tiles[j]) <= first.1
  {
    var areas := AllAreas(tiles, f);
    AllAreasMembers(tiles, f, areas[0]);
    assert forall a, b | 0 <= a < b < |areas| :: areas[a].1 >= areas[b].1 by {
      AllAreasOrder(tiles, f, 0);
    }
    forall i, j | 0 <= i < j < |tiles| ensures f(tiles[i], tiles[j]) <= areas[0].1 {
      var p := ((i, j), f(tiles[i], tiles[j]));
      assert p in areas by {
        AllAreasMembers(tiles, f, p);
      }
      var k :| 0 <= k < |areas| && areas[k] == p;
      if k > 0 {
        assert areas[0].1 >= areas[k].1;
      }
    }
  }

  /** The computed area is the tile count when the first tile is not left of or above the second ... */
  lemma AreaCountsTilesWhenOrdered(a: Tile, b: Tile)
    requires a.0 >= b.0 && a.1 >= b.1
    ensures Area(a, b) == TileArea(a, b)
  {
  }

  /** ... but falls short otherwise: tiles (0,0) and (2,0) span 3 tiles, the formula gives 1. */
  lemma AreaAsWrittenUndercounts()
    ensures Area((0, 0), (2, 0)) == 1 && TileArea((0, 0), (2, 0)) == 3
  {
  }

  /** The tile count is symmetric and covers both corners, as an area between two tiles should. */
  lemma TileAreaSymmetric(a: Tile, b: Tile)
    ensures TileArea(a, b) == TileArea(b, a)
    ensures TileArea(a, b) >= 1
    ensures a.1 == b.1 ==> TileArea(a, b) == Abs(a.0 - b.0) + 1
  {
    assert Abs(a.0 - b.0) == Abs(b.0 - a.0) && Abs(a.1 - b.1) == Abs(b.1 - a.1);
    assert (Abs(a.0 - b.0) + 1) * (Abs(a.1 - b.1) + 1) >= 1;
  }

  // ---------------------------------------------------------------------
  // Part two: `get_max_area`
  // ---------------------------------------------------------------------

  /**
   * The top binary search ends on a point where the x coordinates cross
   * `cx`: the point before it is not left of `cx`, and unless the search
   * ran to `hi0`, the point itself is.
   */
  predicate TopBoundary(points: seq<Tile>, cx: int, hi0: nat, lo: nat)
    requires hi0 < |points|
  {
    && lo <= hi0
    && (lo > 0 ==> points[lo - 1].0 >= cx)
    && (lo < hi0 ==> points[lo].0 < cx)
  }

  /** Where the top binary search over `[lo, hi]` ends. */
  function TopSearch(points: seq<Tile>, cx: int, lo: nat, hi: nat): nat
    requires lo <= hi < |points|
    decreases hi - lo
  {
    if lo < hi then
      var mid := (lo + hi) / 2;
      if points[mid].0 >= cx then TopSearch(points, cx, mid + 1, hi) else TopSearch(points, cx, lo, mid)
    else lo
  }

  /** One halving of the top search keeps its end point. */
  lemma TopSearchStep(points: seq<Tile>, cx: int, lo: nat, hi: nat, mid: nat)
    requires lo < hi < |points| && mid == (lo + hi) / 2
    ensures lo <= mid < hi
    ensures points[mid].0 >= cx ==> TopSearch(points, cx, mid + 1, hi) == TopSearch(points, cx, lo, hi)
    ensures points[mid].0 < cx ==> TopSearch(points, cx, lo, mid) == TopSearch(points, cx, lo, hi)
  {
  }

  /** The binary search over `[0, hi0]` in the top half. */
  method SearchTop(points: seq<Tile>, cx: int, hi0: nat) returns (lo: nat)
    requires hi0 < |points|
    ensures lo == TopSearch(points, cx, 0, hi0)
    ensures TopBoundary(points, cx, hi0, lo)
  {
    lo := 0;
    var hi := hi0;
    ghost var end := TopSearch(points, cx, 0, hi0);
    while lo < hi
      invariant 0 <= lo <= hi <= hi0
      invariant lo > 0 ==> points[lo - 1].0 >= cx
      invariant hi < hi0 ==> points[hi].0 < cx
      invariant TopSearch(points, cx, lo, hi) == end
    {
      lo, hi := TopHalve(points, cx, lo, hi);
    }
    TopSearchDone(points, cx, lo);
  }

  /** A search over a single index ends there. */
  lemma TopSearchDone(points: seq<Tile>, cx: int, lo: nat)
    requires lo < |points|
    ensures TopSearch(points, cx, lo, lo) == lo
  {
  }

  /** One step of the top search: drop the half of `[lo, hi]` that cannot hold its end. */
  method TopHalve(points: seq<Tile>, cx: int, lo: nat, hi: nat) returns (lo': nat, hi': nat)
    requires lo < hi < |points|
    ensures lo <= lo' <= hi' <= hi && hi' - lo' < hi - lo
    ensures TopSearch(points, cx, lo', hi') == TopSearch(points, cx, lo, hi)
    ensures lo' > lo ==> points[lo' - 1].0 >= cx
    ensures hi' < hi ==> points[hi'].0 < cx
  {
    var mid := (lo + hi) / 2;
    TopSearchStep(points, cx, lo, hi, mid);
    if points[mid].0 >= cx {
      lo', hi' := mid + 1, hi;
    } else {
      lo', hi' := lo, mid;
    }
  }

  /** On x coordinates that never increase, the top search finds the first point left of `cx`. */
  lemma {:induction false} TopSearchFindsFirst(points: seq<Tile>, cx: int, hi0: nat, lo: nat)
    requires hi0 < |points|
    requires forall a, b | 0 <= a < b <= hi0 :: points[a].0 >= points[b].0
    requires TopBoundary(points, cx, hi0, lo)
    ensures forall k | 0 <= k < lo :: points[k].0 >= cx
    ensures lo < hi0 ==> forall k | lo <= k <= hi0 :: points[k].0 < cx
  {
    forall k | 0 <= k < lo ensures points[k].0 >= cx {
      assert points[k].0 >= points[lo - 1].0;
    }
    if lo < hi0 {
      forall k | lo <= k <= hi0 ensures points[k].0 < cx {
        assert k == lo || points[lo].0 >= points[k].0;
      }
    }
  }

  /**
   * The bottom binary search over `[lo0, hi0]` ends on a point where the x
   * coordinates cross `cx` the other way: unless it ran to `hi0`, the next
   * point is not left of `cx`, and unless it stayed at `lo0`, the point
   * itself is.
   */
  predicate BottomBoundary(points: seq<Tile>, cx: int, lo0: nat, hi0: nat, lo: nat)
    requires hi0 < |points|
  {
    && lo0 <= lo <= hi0
    && (lo < hi0 ==> points[lo + 1].0 >= cx)
    && (lo > lo0 ==> points[lo].0 < cx)
  }

  /** Where the bottom binary search over `[lo, hi]` ends. */
  function BottomSearch(points: seq<Tile>, cx: int, lo: nat, hi: nat): nat
    requires lo <= hi < |points|
    decreases hi - lo
  {
    if lo < hi then
      var mid := (lo + hi + 1) / 2;
      if points[mid].0 >= cx then BottomSearch(points, cx, lo, mid - 1) else BottomSearch(points, cx, mid, hi)
    else lo
  }

  /** One halving of the bottom search keeps its end point. */
  lemma BottomSearchStep(points: seq<Tile>, cx: int, lo: nat, hi: nat, mid: nat)
    requires lo < hi < |points| && mid == (lo + hi + 1) / 2
    ensures lo < mid <= hi
    ensures points[mid].0 >= cx ==> BottomSearch(points, cx, lo, mid - 1) == BottomSearch(points, cx, lo, hi)
    ensures points[mid].0 < cx ==> BottomSearch(points, cx, mid, hi) == BottomSearch(points, cx, lo, hi)
  {
  }

  method SearchBottom(points: seq<Tile>, cx: int, lo0: nat, hi0: nat) returns (lo: nat)
    requires lo0 <= hi0 < |points|
    ensures lo == BottomSearch(points, cx, lo0, hi0)
    ensures BottomBoundary(points, cx, lo0, hi0, lo)
  {
    lo := lo0;
    var hi := hi0;
    ghost var end := BottomSearch(points, cx, lo0, hi0);
    while lo < hi
      invariant lo0 <= lo <= hi <= hi0
      invariant hi < hi0 ==> points[hi + 1].0 >= cx
      invariant lo > lo0 ==> points[lo].0 < cx
      invariant BottomSearch(points, cx, lo, hi) == end
    {
      lo, hi := BottomHalve(points, cx, lo, hi);
    }
  }

  /** One step of the bottom search: drop the half of `[lo, hi]` that cannot hold its end. */
  method BottomHalve(points: seq<Tile>, cx: int, lo: nat, hi: nat) returns (lo': nat, hi': nat)
    requires lo < hi < |points|
    ensures lo <= lo' <= hi' <= hi && hi' - lo' < hi - lo
    ensures BottomSearch(points, cx, lo', hi') == BottomSearch(points, cx, lo, hi)
    ensures hi' < hi ==> points[hi' + 1].0 >= cx
    ensures lo' > lo ==> points[lo'].0 < cx
  {
    var mid := (lo + hi + 1) / 2;
    BottomSearchStep(points, cx, lo, hi, mid);
    if points[mid].0 >= cx {
      lo', hi' := lo, mid - 1;
    } else {
      lo', hi' := mid, hi;
    }
  }

  /** On x coordinates that never decrease, the bottom search finds the last point left of `cx`. */
  lemma {:induction false} BottomSearchFindsLast(points: seq<Tile>, cx: int, lo0: nat, hi0: nat, lo: nat)
    requires lo0 <= hi0 < |points|
    requires forall a, b | lo0 <= a < b <= hi0 :: points[a].0 <= points[b].0
    requires BottomBoundary(points, cx, lo0, hi0, lo)
    ensures forall k | lo < k <= hi0 :: points[k].0 >= cx
    ensures lo > lo0 ==> forall k | lo0 <= k <= lo :: points[k].0 < cx
  {
    forall k | lo < k <= hi0 ensures points[k].0 >= cx {
      assert points[lo + 1].0 <= points[k].0 || k == lo + 1;
    }
    if lo > lo0 {
      forall k | lo0 <= k <= lo ensures points[k].0 < cx {
        assert k == lo || points[k].0 <= points[lo].0;
      }
    }
  }

  /** Which half a scan runs in; it decides which way the rectangle extends from the corner. */
  datatype Half = Top | Bottom

  /** The area the scan computes for the rectangle from `corner` to `p`. */
  function Candidate(half: Half, corner: Tile, p: Tile): int {
    match half
    case Top => (corner.0 - p.0 + 1) * (p.1 - corner.1 + 1)
    case Bottom => (corner.0 - p.0 + 1) * (corner.1 - p.1 + 1)
  }

  function Max(a: int, b: int): int {
    if a < b then b else a
  }

  /** `max_x` after scanning `visited`: it starts at 0 and takes each x that is not below it. */
  function MaxX(visited: seq<Tile>): int {
    if visited == [] then 0
    else
      var front := MaxX(visited[..|visited| - 1]);
      var p := visited[|visited| - 1];
      if p.0 >= front then p.0 else front
  }

  /** Point `k` of a scan is a record: its x is not below 0 nor below any x scanned before it. */
  predicate Record(visited: seq<Tile>, k: nat)
    requires k < |visited|
  {
    visited[k].0 >= MaxX(visited[..k])
  }

  /** `max_area` after scanning `visited`, starting from `init`: records raise it to their candidate area. */
  function Best(visited: seq<Tile>, half: Half, corner: Tile, init: int): int {
    if visited == [] then init
    else
      var front := visited[..|visited| - 1];
      var b := Best(front, half, corner, init);
      if Record(visited, |visited| - 1) then Max(b, Candidate(half, corner, visited[|visited| - 1])) else b
  }

  /** One more scanned point: `max_x` and `max_area` change exactly when it is a record. */
  lemma ScanStep(visited: seq<Tile>, half: Half, corner: Tile, init: int)
    requires |visited| >= 1
    ensures var front, last := visited[..|visited| - 1], visited[|visited| - 1];
      && MaxX(visited) == (if last.0 >= MaxX(front) then last.0 else MaxX(front))
      && Best(visited, half, corner, init)
         == (if last.0 >= MaxX(front) then Max(Best(front, half, corner, init), Candidate(half, corner, last)) else Best(front, half, corner, init))
  {
  }

  /** `ScanStep` for the top scan moving down from `j` to `j - 1`. */
  lemma DownStep(points: seq<Tile>, start: nat, j: nat, corner: Tile, init: int)
    requires j <= start < |points|
    ensures var before := Down(points, start, j);
      && MaxX(Down(points, start, j - 1)) == (if points[j].0 >= MaxX(before) then points[j].0 else MaxX(before))
      && Best(Down(points, start, j - 1), Top, corner, init)
         == (if points[j].0 >= MaxX(before) then Max(Best(before, Top, corner, init), Candidate(Top, corner, points[j])) else Best(before, Top, corner, init))
  {
    var visited := Down(points, start, j - 1);
    assert visited[..|visited| - 1] == Down(points, start, j) && visited[|visited| - 1] == points[j];
    ScanStep(visited, Top, corner, init);
  }

  /** `ScanStep` for the bottom scan moving up from `j` to `j + 1`. */
  lemma UpStep(points: seq<Tile>, start: nat, j: nat, corner: Tile, init: int)
    requires start <= j < |points|
    ensures var before := points[start..j];
      && MaxX(points[start..j + 1]) == (if points[j].0 >= MaxX(before) then points[j].0 else MaxX(before))
      && Best(points[start..j + 1], Bottom, corner, init)
         == (if points[j].0 >= MaxX(before) then Max(Best(before, Bottom, corner, init), Candidate(Bottom, corner, points[j])) else Best(before, Bottom, corner, init))
  {
    var visited := points[start..j + 1];
    assert visited[..j - start] == points[start..j] && visited[j - start] == points[j];
    ScanStep(visited, Bottom, corner, init);
  }

  /** `max_x` is 0 or the largest x scanned, whichever is larger. */
  lemma {:induction false} MaxXIsMaximum(visited: seq<Tile>)
    ensures MaxX(visited) >= 0
    ensures forall k | 0 <= k < |visited| :: visited[k].0 <= MaxX(visited)
    ensures MaxX(visited) == 0 || exists k | 0 <= k < |visited| :: visited[k].0 == MaxX(visited)
    decreases |visited|
  {
    if visited != [] {
      var front := visited[..|visited| - 1];
      MaxXIsMaximum(front);
      assert forall k | 0 <= k < |front| :: front[k] == visited[k];
    }
  }

  /**
   * `max_area` never decreases, and it ends as the largest of its start
   * value and the candidate areas of the record points.
   */
  lemma {:induction false} BestIsMaximum(visited: seq<Tile>, half: Half, corner: Tile, init: int)
    ensures Best(visited, half, corner, init) >= init
    ensures forall k | 0 <= k < |visited| && Record(visited, k) :: Candidate(half, corner, visited[k]) <= Best(visited, half, corner, init)
    ensures Best(visited, half, corner, init) == init
         || exists k | 0 <= k < |visited| && Record(visited, k) :: Candidate(half, corner, visited[k]) == Best(visited, half, corner, init)
    decreases |visited|
  {
    if visited != [] {
      var front := visited[..|visited| - 1];
      BestIsMaximum(front, half, corner, init);
      forall k | 0 <= k < |front| ensures front[k] == visited[k] && front[..k] == visited[..k] && (Record(front, k) <==> Record(visited, k)) {
        assert front[..k] == visited[..k];
      }
    }
  }

  /** A scan only ever raises the best area: scanning more gives at least as much. */
  lemma {:induction false} BestGrows(visited: seq<Tile>, n: nat, half: Half, corner: Tile, init: int)
    requires n <= |visited|
    ensures Best(visited[..n], half, corner, init) <= Best(visited, half, corner, init)
    decreases |visited|
  {
    if n < |visited| {
      var front := visited[..|visited| - 1];
      assert visited[..n] == front[..n];
      BestGrows(front, n, half, corner, init);
      assert Best(front, half, corner, init) <= Best(visited, half, corner, init);
    } else {
      assert visited[..n] == visited;
    }
  }

  /** The points the top scan has visited when it stands at `j`: `start`, `start - 1`, ..., `j + 1`. */
  function Down(points: seq<Tile>, start: int, j: int): (visited: seq<Tile>)
    requires -1 <= j <= start < |points|
    ensures |visited| == start - j
    decreases start - j
  {
    if j == start then [] else Down(points, start, j + 1) + [points[j + 1]]
  }

  /** The scan visits the points from `start` backwards: the `k`-th visited is `points[start - k]`. */
  lemma {:induction false} DownVisits(points: seq<Tile>, start: int, j: int)
    requires -1 <= j <= start < |points|
    ensures forall k | 0 <= k < start - j :: Down(points, start, j)[k] == points[start - k]
    decreases start - j
  {
    if j < start {
      DownVisits(points, start, j + 1);
    }
  }

  /** The body of the top scan at `j`: a record raises `max_x` and offers its candidate area. */
  method VisitDown(points: seq<Tile>, start: nat, j: nat, corner: Tile, init: int, maxX: int, maxArea: int) returns (x: int, area: int)
    requires j <= start < |points|
    requires maxX == MaxX(Down(points, start, j)) && maxArea == Best(Down(points, start, j), Top, corner, init)
    ensures x == MaxX(Down(points, start, j - 1)) && area == Best(Down(points, start, j - 1), Top, corner, init)
  {
    DownStep(points, start, j, corner, init);
    x, area := maxX, maxArea;
    if points[j].0 >= maxX {
      x := points[j].0;
      area := Max(maxArea, Candidate(Top, corner, points[j]));
    }
  }

  /** The top scan stops at `stop`: the first point at or below `start`, going down, above `yBound`. */
  predicate TopStop(points: seq<Tile>, start: nat, yBound: int, stop: int)
    requires start < |points|
  {
    0 <= stop <= start && points[stop].1 > yBound && forall k | stop < k <= start :: points[k].1 <= yBound
  }

  /**
   * The scan of the top half, from `start` down, while the points are not
   * above `yBound`. `None` when it runs past index 0 (where the source's
   * `j -= 1` underflows).
   */
  method ScanTop(points: seq<Tile>, corner: Tile, start: nat, yBound: int, init: int) returns (r: Option<int>, ghost stop: int)
    requires start < |points|
    ensures r.None? <==> forall k | 0 <= k <= start :: points[k].1 <= yBound
    ensures r.Some? ==> TopStop(points, start, yBound, stop) && r.value == Best(Down(points, start, stop), Top, corner, init)
  {
    var j: int := start;
    var maxX := 0;
    var maxArea := init;
    while j >= 0 && points[j].1 <= yBound
      invariant -1 <= j <= start
      invariant forall k | j < k <= start :: points[k].1 <= yBound
      invariant maxX == MaxX(Down(points, start, j))
      invariant maxArea == Best(Down(points, start, j), Top, corner, init)
      decreases j
    {
      maxX, maxArea := VisitDown(points, start, j, corner, init, maxX, maxArea);
      j := j - 1;
    }
    if j < 0 {
      return None, 0;
    }
    return Some(maxArea), j;
  }

  /** The bottom scan stops at `stop`: the first point from `start` on below `yBound`. */
  predicate BottomStop(points: seq<Tile>, start: nat, yBound: int, stop: int) {
    start <= stop < |points| && points[stop].1 < yBound && forall k | start <= k < stop :: points[k].1 >= yBound
  }

  /**
   * The scan of the bottom half, from `start` up, while the points are not
   * below `yBound`. `None` when it runs past the last point (where the
   * source indexes out of range).
   */
  method ScanBottom(points: seq<Tile>, corner: Tile, start: nat, yBound: int, init: int) returns (r: Option<int>, ghost stop: int)
    requires start <= |points|
    ensures r.None? <==> forall k | start <= k < |points| :: points[k].1 >= yBound
    ensures r.Some? ==> BottomStop(points, start, yBound, stop) && r.value == Best(points[start..stop], Bottom, corner, init)
  {
    var j := start;
    var maxX := 0;
    var maxArea := init;
    while j < |points| && points[j].1 >= yBound
      invariant start <= j <= |points|
      invariant forall k | start <= k < j :: points[k].1 >= yBound
      invariant maxX == MaxX(points[start..j])
      invariant maxArea == Best(points[start..j], Bottom, corner, init)
    {
      UpStep(points, start, j, corner, init);
      if points[j].0 >= maxX {
        maxX := points[j].0;
        maxArea := Max(maxArea, Candidate(Bottom, corner, points[j]));
      }
      j := j + 1;
    }
    if j == |points| {
      return None, 0;
    }
    return Some(maxArea), j;
  }

  /** The top half ran: its search ended at `lo` and its scan stopped at `stop`. */
  predicate TopRan(points: seq<Tile>, lo: nat, stop: int)
    requires |points| >= 2
  {
    var midTop := |points| / 2;
    TopBoundary(points, points[midTop].0, midTop / 2, lo) && TopStop(points, midTop - 1, points[lo].1, stop)
  }

  /** The bottom half ran: its search ended at `lo` and its scan stopped at `stop`. */
  predicate BottomRan(points: seq<Tile>, lo: nat, stop: int)
    requires |points| >= 3
  {
    var midBot := |points| / 2 + 1;
    BottomBoundary(points, points[midBot].0, (|points| + midBot) / 2, |points| - 1, lo)
      && BottomStop(points, midBot + 1, points[lo].1, stop)
  }

  /** What `get_max_area` returns once both halves ran. */
  function MaxArea(points: seq<Tile>, loTop: nat, stopTop: int, loBot: nat, stopBot: int): int
    requires |points| >= 3 && TopRan(points, loTop, stopTop) && BottomRan(points, loBot, stopBot)
  {
    var midTop := |points| / 2;
    var midBot := midTop + 1;
    var top := Best(Down(points, midTop - 1, stopTop), Top, points[midTop], 0);
    Best(points[midBot + 1..stopBot], Bottom, points[midBot], top)
  }

  /** The top half of `get_max_area`: the corner at `mid_top`, its search and its scan. */
  method TopHalf(points: seq<Tile>) returns (r: Option<int>, ghost lo: nat, ghost stop: int)
    requires |points| >= 2
    ensures lo == TopLo(points)
    ensures TopBoundary(points, points[|points| / 2].0, |points| / 4, lo)
    ensures r.None? <==> forall k | 0 <= k < |points| / 2 :: points[k].1 <= points[lo].1
    ensures r.Some? ==> TopRan(points, lo, stop) && r.value == Best(Down(points, |points| / 2 - 1, stop), Top, points[|points| / 2], 0)
  {
    var midTop := |points| / 2;
    var corner := points[midTop];
    var found := SearchTop(points, corner.0, midTop / 2);
    lo := found;
    var yBound := points[found].1;
    r, stop := ScanTop(points, corner, midTop - 1, yBound, 0);
  }

  /** The bottom half of `get_max_area`: the corner at `mid_bot`, its search and its scan, from the top half's best area. */
  method BottomHalf(points: seq<Tile>, init: int) returns (r: Option<int>, ghost lo: nat, ghost stop: int)
    requires |points| >= 3
    ensures lo == BottomLo(points)
    ensures BottomBoundary(points, points[|points| / 2 + 1].0, (|points| + |points| / 2 + 1) / 2, |points| - 1, lo)
    ensures r.None? <==> forall k | |points| / 2 + 2 <= k < |points| :: points[k].1 >= points[lo].1
    ensures r.Some? ==> BottomRan(points, lo, stop) && r.value == Best(points[|points| / 2 + 2..stop], Bottom, points[|points| / 2 + 1], init)
  {
    var length := |points|;
    var midBot := length / 2 + 1;
    var corner := points[midBot];
    var found := SearchBottom(points, corner.0, (length + midBot) / 2, length - 1);
    lo := found;
    var yBound := points[found].1;
    r, stop := ScanBottom(points, corner, midBot + 1, yBound, init);
  }

  /** The top search ends inside the range it searches. */
  lemma {:induction false} TopSearchBounds(points: seq<Tile>, cx: int, lo: nat, hi: nat)
    requires lo <= hi < |points|
    ensures lo <= TopSearch(points, cx, lo, hi) <= hi
    decreases hi - lo
  {
    if lo < hi {
      var mid := (lo + hi) / 2;
      if points[mid].0 >= cx {
        TopSearchBounds(points, cx, mid + 1, hi);
      } else {
        TopSearchBounds(points, cx, lo, mid);
      }
    }
  }

  /** The bottom search ends inside the range it searches. */
  lemma {:induction false} BottomSearchBounds(points: seq<Tile>, cx: int, lo: nat, hi: nat)
    requires lo <= hi < |points|
    ensures lo <= BottomSearch(points, cx, lo, hi) <= hi
    decreases hi - lo
  {
    if lo < hi {
      var mid := (lo + hi + 1) / 2;
      if points[mid].0 >= cx {
        BottomSearchBounds(points, cx, lo, mid - 1);
      } else {
        BottomSearchBounds(points, cx, mid, hi);
      }
    }
  }

  /** Where the top half's search ends. */
  function TopLo(points: seq<Tile>): (r: nat)
    requires |points| >= 2
    ensures r <= |points| / 2 / 2
  {
    TopSearchBounds(points, points[|points| / 2].0, 0, |points| / 2 / 2);
    TopSearch(points, points[|points| / 2].0, 0, |points| / 2 / 2)
  }

  /** Where the bottom half's search ends. */
  function BottomLo(points: seq<Tile>): (r: nat)
    requires |points| >= 3
    ensures (|points| + |points| / 2 + 1) / 2 <= r < |points|
  {
    BottomSearchBounds(points, points[|points| / 2 + 1].0, (|points| + |points| / 2 + 1) / 2, |points| - 1);
    BottomSearch(points, points[|points| / 2 + 1].0, (|points| + |points| / 2 + 1) / 2, |points| - 1)
  }

  /** The top scan finds no point above the searched point's row and runs past index 0. */
  predicate TopRunsOff(points: seq<Tile>)
    requires |points| >= 2
  {
    forall k | 0 <= k < |points| / 2 :: points[k].1 <= points[TopLo(points)].1
  }

  /** The bottom scan finds no point below the searched point's row and runs past the last point. */
  predicate BottomRunsOff(points: seq<Tile>)
    requires |points| >= 3
  {
    forall k | |points| / 2 + 2 <= k < |points| :: points[k].1 >= points[BottomLo(points)].1
  }

  /** Each scan stops at a single index, so the search results pin `MaxArea`'s arguments down. */
  lemma StopsUnique(points: seq<Tile>, start: nat, yBound: int, a: int, b: int)
    requires start < |points|
    ensures TopStop(points, start, yBound, a) && TopStop(points, start, yBound, b) ==> a == b
    ensures BottomStop(points, start, yBound, a) && BottomStop(points, start, yBound, b) ==> a == b
  {
  }

  /**
   * `get_max_area`. `None` stands for the source's panics: an empty list
   * (`points[mid_top]`), one point (`mid_top - 1` underflows), two points
   * (`points[mid_bot]`), or a scan that runs off either end of the list.
   * The ghost results name where the searches ended and the scans stopped.
   */
  method GetMaxArea(points: seq<Tile>) returns (r: Option<int>, ghost loTop: nat, ghost stopTop: int, ghost loBot: nat, ghost stopBot: int)
    ensures r.None? <==> |points| < 3 || TopRunsOff(points) || BottomRunsOff(points)
    ensures r.Some? ==> loTop == TopLo(points) && loBot == BottomLo(points)
    ensures r.Some? ==>
      && |points| >= 3 && TopRan(points, loTop, stopTop) && BottomRan(points, loBot, stopBot)
      && r.value == MaxArea(points, loTop, stopTop, loBot, stopBot)
    ensures r.None? ==>
      || |points| < 3
      || (&& TopBoundary(points, points[|points| / 2].0, |points| / 4, loTop)
          && forall k | 0 <= k < |points| / 2 :: points[k].1 <= points[loTop].1)
      || (&& TopRan(points, loTop, stopTop)
          && BottomBoundary(points, points[|points| / 2 + 1].0, (|points| + |points| / 2 + 1) / 2, |points| - 1, loBot)
          && forall k | |points| / 2 + 2 <= k < |points| :: points[k].1 >= points[loBot].1)
  {
    loTop, stopTop, loBot, stopBot := 0, 0, 0, 0;
    if |points| < 3 {
      return None, loTop, stopTop, loBot, stopBot;
    }
    var top;
    top, loTop, stopTop := TopHalf(points);
    if top.None? {
      return None, loTop, stopTop, loBot, stopBot;
    }
    r, loBot, stopBot := BottomHalf(points, top.value);
  }

  /**
   * The area `get_max_area` returns is at least 0, at least every record
   * candidate of either scan, and equal to 0 or to one of them.
   */
  lemma MaxAreaIsMaximum(points: seq<Tile>, loTop: nat, stopTop: int, loBot: nat, stopBot: int)
    requires |points| >= 3 && TopRan(points, loTop, stopTop) && BottomRan(points, loBot, stopBot)
    ensures var m := MaxArea(points, loTop, stopTop, loBot, stopBot);
      var up := Down(points, |points| / 2 - 1, stopTop);
      var down := points[|points| / 2 + 2..stopBot];
      && m >= 0
      && (forall k | 0 <= k < |up| && Record(up, k) :: Candidate(Top, points[|points| / 2], up[k]) <= m)
      && (forall k | 0 <= k < |down| && Record(down, k) :: Candidate(Bottom, points[|points| / 2 + 1], down[k]) <= m)
      && (|| m == 0
          || (exists k | 0 <= k < |up| && Record(up, k) :: Candidate(Top, points[|points| / 2], up[k]) == m)
          || (exists k | 0 <= k < |down| && Record(down, k) :: Candidate(Bottom, points[|points| / 2 + 1], down[k]) == m))
  {
    var up := Down(points, |points| / 2 - 1, stopTop);
    var down := points[|points| / 2 + 2..stopBot];
    var top := Best(up, Top, points[|points| / 2], 0);
    BestIsMaximum(up, Top, points[|points| / 2], 0);
    BestIsMaximum(down, Bottom, points[|points| / 2 + 1], top);
  }

  /** `part_two`: the tiles read from the lines, and `get_max_area` as an unsigned number. */
  method PartTwo(lines: seq<string>) returns (r: Option<nat>)
    requires forall k | 0 <= k < |lines| :: ValidTile(lines[k])
    ensures r.None? <==> |lines| < 3 || TopRunsOff(Tiles(lines)) || BottomRunsOff(Tiles(lines))
    ensures r.Some? ==> |lines| >= 3 && exists stopTop, stopBot ::
      var points := Tiles(lines);
      && TopRan(points, TopLo(points), stopTop) && BottomRan(points, BottomLo(points), stopBot)
      && r.value == MaxArea(points, TopLo(points), stopTop, BottomLo(points), stopBot)
  {
    var points := Tiles(lines);
    var area, loTop, stopTop, loBot, stopBot := GetMaxArea(points);
    if area.None? {
      return None;
    }
    MaxAreaIsMaximum(points, loTop, stopTop, loBot, stopBot);
    r := Some(area.value);
  }
}
