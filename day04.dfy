/**
 * Day 4: a grid of paper rolls ('@'). A roll is accessible when fewer than
 * four of its eight neighbours hold a roll. Part one counts the accessible
 * cells; part two keeps sweeping the grid row by row, removing every
 * accessible cell as it goes, until a sweep removes nothing.
 */
module Day04 {
  import opened Wrappers

  /** Rows of characters, as `lines().map(chars)` builds them. */
  type Grid = seq<seq<char>>

  predicate Shaped(g: Grid, w: nat) {
    forall y | 0 <= y < |g| :: |g[y]| == w
  }

  /** `map[0].len()`: the width the loops use. */
  function Width(g: Grid): nat {
    if g == [] then 0 else |g[0]|
  }

  predicate Rectangular(g: Grid) {
    Shaped(g, Width(g))
  }

  const NEIGHBORS: seq<(int, int)> := [(-1, -1), (-1, 0), (-1, 1), (0, -1), (0, 1), (1, -1), (1, 0), (1, 1)]

  /** A roll at column nx of row ny, inside the grid. */
  predicate RollAt(g: Grid, nx: int, ny: int) {
    0 <= ny < |g| && 0 <= nx < |g[ny]| && g[ny][nx] == '@'
  }

  /** The rolls among the first k offsets around column x of row y. */
  function CountPrefix(g: Grid, x: int, y: int, k: nat): (n: nat)
    requires k <= |NEIGHBORS|
    ensures n <= k
  {
    if k == 0 then 0
    else CountPrefix(g, x, y, k - 1) + (if RollAt(g, x + NEIGHBORS[k - 1].0, y + NEIGHBORS[k - 1].1) then 1 else 0)
  }

  function NeighbourCount(g: Grid, x: int, y: int): (n: nat)
    ensures n <= 8
  {
    CountPrefix(g, x, y, |NEIGHBORS|)
  }

  predicate Accessible(g: Grid, x: int, y: int) {
    NeighbourCount(g, x, y) < 4
  }

  // ---------------------------------------------------------------------
  // The bounds test as written
  // ---------------------------------------------------------------------

  /**
   * One offset of is_accessible as written: the column is checked against the
   * number of rows and the row against the length of the first row; None
   * where the index `map[ny][nx]` then falls outside the grid (a panic).
   */
  function OffsetAsWritten(g: Grid, nx: int, ny: int): Option<bool>
    requires |g| >= 1
  {
    if 0 <= nx && 0 <= ny && nx < |g| && ny < |g[0]| then
      if ny < |g| && nx < |g[ny]| then Some(g[ny][nx] == '@') else None
    else Some(false)
  }

  function CountAsWritten(g: Grid, x: int, y: int, k: nat): Option<nat>
    requires |g| >= 1 && k <= |NEIGHBORS|
  {
    if k == 0 then Some(0)
    else
      var n :- CountAsWritten(g, x, y, k - 1);
      var roll :- OffsetAsWritten(g, x + NEIGHBORS[k - 1].0, y + NEIGHBORS[k - 1].1);
      Some(n + if roll then 1 else 0)
  }

  /** On a square grid the transposed test is harmless: it counts what the corrected test counts. */
  lemma {:induction false} AsWrittenOnSquare(g: Grid, x: int, y: int, k: nat)
    requires |g| >= 1 && Shaped(g, |g|) && k <= |NEIGHBORS|
    ensures CountAsWritten(g, x, y, k) == Some(CountPrefix(g, x, y, k))
  {
    if k > 0 {
      AsWrittenOnSquare(g, x, y, k - 1);
    }
  }

  /** One row of two rolls: the as-written test indexes a second row that does not exist, while the cell has one neighbour and is accessible. */
  lemma AsWrittenPanicsOnWideGrid()
    ensures CountAsWritten(["@@"], 0, 0, |NEIGHBORS|) == None
    ensures NeighbourCount(["@@"], 0, 0) == 1 && Accessible(["@@"], 0, 0)
  {
    var g: Grid := ["@@"];
    assert OffsetAsWritten(g, 0, 1) == None;
    assert CountPrefix(g, 0, 0, 6) == 0;
    assert CountPrefix(g, 0, 0, 8) == 1;
  }

  // ---------------------------------------------------------------------
  // Removing rolls only lowers neighbour counts
  // ---------------------------------------------------------------------

  /** `a` is `b` with some cells turned into '.'. */
  predicate Below(a: Grid, b: Grid) {
    |a| == |b| && forall y | 0 <= y < |a| :: |a[y]| == |b[y]| && forall x | 0 <= x < |a[y]| :: a[y][x] == b[y][x] || a[y][x] == '.'
  }

  lemma BelowTrans(a: Grid, b: Grid, c: Grid)
    requires Below(a, b) && Below(b, c)
    ensures Below(a, c)
  {
  }

  lemma {:induction false} CountPrefixBelow(a: Grid, b: Grid, x: int, y: int, k: nat)
    requires Below(a, b) && k <= |NEIGHBORS|
    ensures CountPrefix(a, x, y, k) <= CountPrefix(b, x, y, k)
  {
    if k > 0 {
      CountPrefixBelow(a, b, x, y, k - 1);
    }
  }

  /** A cell that is accessible stays accessible while rolls are removed around it. */
  lemma AccessibleStays(a: Grid, b: Grid, x: int, y: int)
    requires Below(a, b) && Accessible(b, x, y)
    ensures Accessible(a, x, y)
  {
    CountPrefixBelow(a, b, x, y, |NEIGHBORS|);
  }

  // ---------------------------------------------------------------------
  // Counting cells
  // ---------------------------------------------------------------------

  /** The cells x < xEnd of row y that pass `f`. */
  function CountRow(f: (nat, nat) -> bool, y: nat, xEnd: nat): (n: nat)
    ensures n <= xEnd
  {
    if xEnd == 0 then 0 else CountRow(f, y, xEnd - 1) + (if f(y, xEnd - 1) then 1 else 0)
  }

  /** The cells of rows y < yEnd, each w wide, that pass `f`, in the order the loops visit them. */
  function CountCells(f: (nat, nat) -> bool, yEnd: nat, w: nat): nat {
    if yEnd == 0 then 0 else CountCells(f, yEnd - 1, w) + CountRow(f, yEnd - 1, w)
  }

  lemma {:induction false} CountRowMono(f: (nat, nat) -> bool, p: (nat, nat) -> bool, y: nat, xEnd: nat)
    requires forall x: nat | x < xEnd :: f(y, x) ==> p(y, x)
    ensures CountRow(f, y, xEnd) <= CountRow(p, y, xEnd)
  {
    if xEnd > 0 {
      CountRowMono(f, p, y, xEnd - 1);
    }
  }

  lemma {:induction false} CountCellsMono(f: (nat, nat) -> bool, p: (nat, nat) -> bool, yEnd: nat, w: nat)
    requires forall y: nat, x: nat | y < yEnd && x < w :: f(y, x) ==> p(y, x)
    ensures CountCells(f, yEnd, w) <= CountCells(p, yEnd, w)
  {
    if yEnd > 0 {
      CountCellsMono(f, p, yEnd - 1, w);
      CountRowMono(f, p, yEnd - 1, w);
    }
  }

  /** A test that is the disjoint union of two others counts their sum. */
  lemma {:induction false} CountRowSplit(f: (nat, nat) -> bool, p: (nat, nat) -> bool, q: (nat, nat) -> bool, y: nat, xEnd: nat)
    requires forall x: nat | x < xEnd :: f(y, x) == (p(y, x) || q(y, x)) && !(p(y, x) && q(y, x))
    ensures CountRow(f, y, xEnd) == CountRow(p, y, xEnd) + CountRow(q, y, xEnd)
  {
    if xEnd > 0 {
      CountRowSplit(f, p, q, y, xEnd - 1);
    }
  }

  lemma {:induction false} CountCellsSplit(f: (nat, nat) -> bool, p: (nat, nat) -> bool, q: (nat, nat) -> bool, yEnd: nat, w: nat)
    requires forall y: nat, x: nat | y < yEnd && x < w :: f(y, x) == (p(y, x) || q(y, x)) && !(p(y, x) && q(y, x))
    ensures CountCells(f, yEnd, w) == CountCells(p, yEnd, w) + CountCells(q, yEnd, w)
  {
    if yEnd > 0 {
      CountCellsSplit(f, p, q, yEnd - 1, w);
      CountRowSplit(f, p, q, yEnd - 1, w);
    }
  }

  /** Two tests that differ only at one visited cell, where the first holds. */
  lemma {:induction false} CountRowPoint(f: (nat, nat) -> bool, p: (nat, nat) -> bool, y: nat, x0: nat, xEnd: nat)
    requires x0 < xEnd && f(y, x0) && !p(y, x0)
    requires forall x: nat | x < xEnd && x != x0 :: f(y, x) == p(y, x)
    ensures CountRow(f, y, xEnd) == CountRow(p, y, xEnd) + 1
  {
    if xEnd - 1 == x0 {
      CountRowMono(f, p, y, x0);
      CountRowMono(p, f, y, x0);
    } else {
      CountRowPoint(f, p, y, x0, xEnd - 1);
    }
  }

  lemma {:induction false} CountCellsPoint(f: (nat, nat) -> bool, p: (nat, nat) -> bool, y0: nat, x0: nat, yEnd: nat, w: nat)
    requires y0 < yEnd && x0 < w && f(y0, x0) && !p(y0, x0)
    requires forall y: nat, x: nat | y < yEnd && x < w && (y, x) != (y0, x0) :: f(y, x) == p(y, x)
    ensures CountCells(f, yEnd, w) == CountCells(p, yEnd, w) + 1
  {
    if yEnd - 1 == y0 {
      CountCellsMono(f, p, y0, w);
      CountCellsMono(p, f, y0, w);
      CountRowPoint(f, p, y0, x0, w);
    } else {
      CountCellsPoint(f, p, y0, x0, yEnd - 1, w);
      CountRowMono(f, p, yEnd - 1, w);
      CountRowMono(p, f, yEnd - 1, w);
    }
  }

  // ---------------------------------------------------------------------
  // What the two parts count
  // ---------------------------------------------------------------------

  predicate InGrid(g: Grid, y: nat, x: nat) {
    y < |g| && x < |g[y]|
  }

  /** A cell holding something other than '.'. */
  function Occupied(g: Grid): (nat, nat) -> bool {
    (y: nat, x: nat) => InGrid(g, y, x) && g[y][x] != '.'
  }

  /** A cell part one counts and part two removes. */
  function Removable(g: Grid): (nat, nat) -> bool {
    (y: nat, x: nat) => InGrid(g, y, x) && g[y][x] != '.' && Accessible(g, x, y)
  }

  function OccupiedCount(g: Grid, w: nat): nat {
    CountCells(Occupied(g), |g|, w)
  }

  function AccessibleCount(g: Grid, w: nat): nat {
    CountCells(Removable(g), |g|, w)
  }

  /** Part one counts occupied cells only, each once. */
  lemma AccessibleAtMostOccupied(g: Grid, w: nat)
    ensures AccessibleCount(g, w) <= OccupiedCount(g, w)
  {
    CountCellsMono(Removable(g), Occupied(g), |g|, w);
  }

  function Clear(g: Grid, y: nat, x: nat): (r: Grid)
    requires InGrid(g, y, x)
    ensures Below(r, g)
  {
    g[y := g[y][x := '.']]
  }

  /**
   * One sweep of part two's `while changed` loop, from cell (y, x) on in
   * row-major order: every cell still occupied and accessible at its turn is
   * cleared and counted. Returns the grid it leaves and the cells it counted.
   */
  function Sweep(g: Grid, w: nat, y: nat, x: nat): (r: (Grid, nat))
    requires Shaped(g, w) && x <= w
    ensures Shaped(r.0, w) && Below(r.0, g)
    decreases |g| - y, w - x
  {
    if y >= |g| then (g, 0)
    else if x == w then Sweep(g, w, y + 1, 0)
    else if g[y][x] != '.' && Accessible(g, x, y) then
      var r := Sweep(Clear(g, y, x), w, y, x + 1);
      BelowTrans(r.0, Clear(g, y, x), g);
      (r.0, r.1 + 1)
    else Sweep(g, w, y, x + 1)
  }

  /** Every counted cell was an occupied cell that is now '.'. */
  lemma {:induction false} SweepRemoves(g: Grid, w: nat, y: nat, x: nat)
    requires Shaped(g, w) && x <= w
    ensures OccupiedCount(Sweep(g, w, y, x).0, w) + Sweep(g, w, y, x).1 == OccupiedCount(g, w)
    decreases |g| - y, w - x
  {
    if y >= |g| {
    } else if x == w {
      SweepRemoves(g, w, y + 1, 0);
    } else if g[y][x] != '.' && Accessible(g, x, y) {
      var c := Clear(g, y, x);
      SweepRemoves(c, w, y, x + 1);
      CountCellsPoint(Occupied(g), Occupied(c), y, x, |g|, w);
    } else {
      SweepRemoves(g, w, y, x + 1);
    }
  }

  /** A sweep that counts nothing leaves the grid as it was, and found no removable cell from (y, x) on. */
  lemma {:induction false} SweepFindsNothing(g: Grid, w: nat, y: nat, x: nat)
    requires Shaped(g, w) && x <= w && Sweep(g, w, y, x).1 == 0
    ensures Sweep(g, w, y, x).0 == g
    ensures forall yy: nat, xx: nat | (yy > y || (yy == y && xx >= x)) && xx < w :: !Removable(g)(yy, xx)
    decreases |g| - y, w - x
  {
    if y >= |g| {
    } else if x == w {
      SweepFindsNothing(g, w, y + 1, 0);
    } else {
      SweepFindsNothing(g, w, y, x + 1);
    }
  }

  /** Part two's answer: sweeps repeat until one counts nothing. Returns the final grid and the total count. */
  function Peel(g: Grid, w: nat): (r: (Grid, nat))
    requires Shaped(g, w)
    ensures Shaped(r.0, w) && |r.0| == |g|
    decreases OccupiedCount(g, w)
  {
    var s := Sweep(g, w, 0, 0);
    if s.1 == 0 then (s.0, 0)
    else
      SweepRemoves(g, w, 0, 0);
      var r := Peel(s.0, w);
      (r.0, s.1 + r.1)
  }

  /** The final grid is the start grid with cells cleared, and the count is the number cleared. */
  lemma {:induction false} PeelRemoves(g: Grid, w: nat)
    requires Shaped(g, w)
    ensures Below(Peel(g, w).0, g)
    ensures OccupiedCount(Peel(g, w).0, w) + Peel(g, w).1 == OccupiedCount(g, w)
    decreases OccupiedCount(g, w)
  {
    var s := Sweep(g, w, 0, 0);
    SweepRemoves(g, w, 0, 0);
    if s.1 != 0 {
      PeelRemoves(s.0, w);
      BelowTrans(Peel(s.0, w).0, s.0, g);
    }
  }

  /** When part two stops, no occupied cell is accessible. */
  lemma {:induction false} PeelStable(g: Grid, w: nat)
    requires Shaped(g, w)
    ensures forall y: nat, x: nat | x < w :: !Removable(Peel(g, w).0)(y, x)
    decreases OccupiedCount(g, w)
  {
    var s := Sweep(g, w, 0, 0);
    if s.1 == 0 {
      SweepFindsNothing(g, w, 0, 0);
    } else {
      SweepRemoves(g, w, 0, 0);
      PeelStable(s.0, w);
    }
  }

  /** Every cell accessible at the start is removed by part two. */
  lemma PeelClearsAccessible(g: Grid, w: nat, y: nat, x: nat)
    requires Shaped(g, w) && x < w && Removable(g)(y, x)
    ensures Peel(g, w).0[y][x] == '.'
  {
    var f := Peel(g, w).0;
    PeelRemoves(g, w);
    PeelStable(g, w);
    if f[y][x] != '.' {
      AccessibleStays(f, g, x, y);
      assert false;
    }
  }

  /** Part two counts at least what part one counts, and at most the occupied cells. */
  lemma PartTwoBounds(g: Grid, w: nat)
    requires Shaped(g, w)
    ensures AccessibleCount(g, w) <= Peel(g, w).1 <= OccupiedCount(g, w)
  {
    var f := Peel(g, w).0;
    PeelRemoves(g, w);
    var cleared := (y: nat, x: nat) => InGrid(g, y, x) && g[y][x] != '.' && f[y][x] == '.';
    var kept := (y: nat, x: nat) => InGrid(g, y, x) && g[y][x] != '.' && f[y][x] != '.';
    CountCellsSplit(Occupied(g), kept, cleared, |g|, w);
    CountCellsMono(kept, Occupied(f), |g|, w);
    CountCellsMono(Occupied(f), kept, |g|, w);
    forall y: nat, x: nat | y < |g| && x < w && Removable(g)(y, x)
      ensures cleared(y, x)
    {
      PeelClearsAccessible(g, w, y, x);
    }
    CountCellsMono(Removable(g), cleared, |g|, w);
  }

  // ---------------------------------------------------------------------
  // The grid in memory
  // ---------------------------------------------------------------------

  /** The cells of a two-dimensional array, row by row. */
  function Cells(grid: array2<char>): (g: Grid)
    reads grid
    ensures |g| == grid.Length0 && Shaped(g, grid.Length1)
    ensures forall y, x | 0 <= y < grid.Length0 && 0 <= x < grid.Length1 :: g[y][x] == grid[y, x]
  {
    seq(grid.Length0, y requires 0 <= y < grid.Length0 reads grid =>
      seq(grid.Length1, x requires 0 <= x < grid.Length1 reads grid => grid[y, x]))
  }

  lemma GridExt(a: Grid, b: Grid, w: nat)
    requires |a| == |b| && Shaped(a, w) && Shaped(b, w)
    requires forall y, x | 0 <= y < |a| && 0 <= x < w :: a[y][x] == b[y][x]
    ensures a == b
  {
    forall y | 0 <= y < |a|
      ensures a[y] == b[y]
    {
    }
  }

  /** `lines().grid(|line| line.chars().collect()).collect()`: one row per line, of equal length. */
  method ParseMap(lines: seq<string>) returns (grid: array2<char>)
    requires Rectangular(lines)
    ensures fresh(grid) && grid.Length0 == |lines| && grid.Length1 == Width(lines)
    ensures Cells(grid) == lines
  {
    var w := Width(lines);
    grid := new char[|lines|, w];
    for y := 0 to |lines|
      invariant forall yy, xx | 0 <= yy < y && 0 <= xx < w :: grid[yy, xx] == lines[yy][xx]
    {
      for x := 0 to w
        invariant forall yy, xx | 0 <= yy < y && 0 <= xx < w :: grid[yy, xx] == lines[yy][xx]
        invariant forall xx | 0 <= xx < x :: grid[y, xx] == lines[y][xx]
      {
        grid[y, x] := lines[y][x];
      }
    }
    GridExt(Cells(grid), lines, w);
  }

  /** is_accessible, with each neighbour checked against the grid's own bounds. */
  method IsAccessible(grid: array2<char>, x: nat, y: nat) returns (r: bool)
    ensures r == Accessible(Cells(grid), x, y)
  {
    var count := 0;
    for k := 0 to |NEIGHBORS|
      invariant count == CountPrefix(Cells(grid), x, y, k)
    {
      var (dx, dy) := NEIGHBORS[k];
      var nx, ny := x + dx, y + dy;
      if 0 <= nx && 0 <= ny && nx < grid.Length1 && ny < grid.Length0 && grid[ny, nx] == '@' {
        count := count + 1;
      }
    }
    r := count < 4;
  }

  /** part_one: the occupied cells that are accessible. */
  method PartOne(lines: seq<string>) returns (count: nat)
    requires Rectangular(lines)
    ensures count == AccessibleCount(lines, Width(lines))
  {
    var grid := ParseMap(lines);
    var w := Width(lines);
    count := 0;
    for y := 0 to grid.Length0
      invariant Cells(grid) == lines
      invariant count == CountCells(Removable(lines), y, w)
    {
      for x := 0 to grid.Length1
        invariant Cells(grid) == lines
        invariant count == CountCells(Removable(lines), y, w) + CountRow(Removable(lines), y, x)
      {
        if grid[y, x] != '.' {
          var accessible := IsAccessible(grid, x, y);
          if accessible {
            count := count + 1;
          }
        }
      }
    }
  }

  /** One pass of part two's `for y, for x` loops, clearing the cells it counts. */
  method RemovalPass(grid: array2<char>) returns (removed: nat)
    modifies grid
    ensures (Cells(grid), removed) == Sweep(old(Cells(grid)), grid.Length1, 0, 0)
  {
    var w := grid.Length1;
    ghost var target := Sweep(Cells(grid), w, 0, 0);
    removed := 0;
    for y := 0 to grid.Length0
      invariant Sweep(Cells(grid), w, y, 0).0 == target.0
      invariant removed + Sweep(Cells(grid), w, y, 0).1 == target.1
    {
      for x := 0 to w
        invariant Sweep(Cells(grid), w, y, x).0 == target.0
        invariant removed + Sweep(Cells(grid), w, y, x).1 == target.1
      {
        if grid[y, x] != '.' {
          var accessible := IsAccessible(grid, x, y);
          if accessible {
            ghost var before := Cells(grid);
            removed := removed + 1;
            grid[y, x] := '.';
            GridExt(Cells(grid), Clear(before, y, x), w);
          }
        }
      }
    }
  }

  /** part_two: sweep until a sweep removes nothing; the count of removed cells. */
  method PartTwo(lines: seq<string>) returns (count: nat)
    requires Rectangular(lines)
    ensures count == Peel(lines, Width(lines)).1
  {
    var grid := ParseMap(lines);
    var w := Width(lines);
    ghost var target := Peel(lines, w);
    count := 0;
    var changed := true;
    while changed
      invariant changed ==> Peel(Cells(grid), w).0 == target.0 && count + Peel(Cells(grid), w).1 == target.1
      invariant !changed ==> Cells(grid) == target.0 && count == target.1
      decreases OccupiedCount(Cells(grid), w) + if changed then 1 else 0
    {
      ghost var before := Cells(grid);
      SweepRemoves(before, w, 0, 0);
      var removed := RemovalPass(grid);
      count := count + removed;
      changed := removed > 0;
    }
  }
}
