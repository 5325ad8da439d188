/**
 * Day 7: a beam enters a diagram at 'S' and travels down; a splitter '^'
 * stops it and starts two beams in the columns either side. Part one traces
 * the beams, recording each beam's vertical segment and each splitter hit,
 * and counts the splitters hit. The quantum variant follows every timeline,
 * recursively or with an explicit stack, and counts the finished beams.
 */
module Day07 {
  import opened Wrappers

  /** An `IVec2`: (x, y), y growing downwards. */
  type Pos = (int, int)

  /** A recorded beam: its start cell and its last cell. */
  type Segment = (Pos, Pos)

  // ---------------------------------------------------------------------
  // fire_beam
  // ---------------------------------------------------------------------

  predicate IsSplitter(splitters: seq<Pos>, x: int, y: int) {
    (x, y) in splitters
  }

  /** No splitter in column x at rows lo..=hi. */
  predicate Clear(splitters: seq<Pos>, x: int, lo: int, hi: int) {
    forall y | lo <= y <= hi :: !IsSplitter(splitters, x, y)
  }

  /**
   * A recorded beam runs straight down from its start, passes no splitter,
   * and ends just above a splitter or on the last row.
   */
  predicate Stops(seg: Segment, splitters: seq<Pos>, maxHeight: int) {
    seg.1.0 == seg.0.0
    && Clear(splitters, seg.0.0, seg.0.1 + 1, seg.1.1)
    && (IsSplitter(splitters, seg.0.0, seg.1.1 + 1) || seg.1.1 == maxHeight - 1)
  }

  /** Every beam recorded from index `from` on stops as above. */
  predicate AllStop(beams: seq<Segment>, from: nat, splitters: seq<Pos>, maxHeight: int) {
    forall k | from <= k < |beams| :: Stops(beams[k], splitters, maxHeight)
  }

  /** The recorded beam passes through (x, y): same column, y between its start and end rows. */
  predicate Covers(seg: Segment, x: int, y: int) {
    seg.0.0 == x && seg.0.1 <= y <= seg.1.1
  }

  predicate Covered(beams: seq<Segment>, x: int, y: int) {
    exists j | 0 <= j < |beams| :: Covers(beams[j], x, y)
  }

  /** `beams.iter().filter(...).count()`: how many recorded beams pass through (x, y). */
  function CountCovering(beams: seq<Segment>, x: int, y: int): nat {
    if beams == [] then 0
    else CountCovering(beams[..|beams| - 1], x, y) + (if Covers(beams[|beams| - 1], x, y) then 1 else 0)
  }

  lemma {:induction false} CountCoveringZero(beams: seq<Segment>, x: int, y: int)
    ensures CountCovering(beams, x, y) == 0 <==> !Covered(beams, x, y)
    decreases |beams|
  {
    if beams != [] {
      var front := beams[..|beams| - 1];
      CountCoveringZero(front, x, y);
      assert forall j | 0 <= j < |front| :: front[j] == beams[j];
    }
  }

  /** Every beam recorded after index `from` starts in a cell no earlier beam passes through. */
  predicate Unshadowed(beams: seq<Segment>, from: nat) {
    forall k | from < k < |beams| :: !Covered(beams[..k], beams[k].0.0, beams[k].0.1)
  }

  /** The first splitter row of column x among rows y..=maxHeight, the rows fire_beam's loop visits. */
  function FirstSplitter(splitters: seq<Pos>, x: int, y: int, maxHeight: int): (r: Option<int>)
    ensures r.Some? ==> y <= r.value <= maxHeight && IsSplitter(splitters, x, r.value)
    decreases if y <= maxHeight then maxHeight + 1 - y else 0
  {
    if y > maxHeight then None
    else if IsSplitter(splitters, x, y) then Some(y)
    else FirstSplitter(splitters, x, y + 1, maxHeight)
  }

  /** The rows before the found splitter are clear, and no splitter at all means the whole column is clear. */
  lemma {:induction false} FirstSplitterMeaning(splitters: seq<Pos>, x: int, y: int, maxHeight: int)
    ensures FirstSplitter(splitters, x, y, maxHeight).None? <==> Clear(splitters, x, y, maxHeight)
    ensures FirstSplitter(splitters, x, y, maxHeight).Some? ==>
      Clear(splitters, x, y, FirstSplitter(splitters, x, y, maxHeight).value - 1)
    decreases if y <= maxHeight then maxHeight + 1 - y else 0
  {
    if y <= maxHeight && !IsSplitter(splitters, x, y) {
      FirstSplitterMeaning(splitters, x, y + 1, maxHeight);
    }
  }

  /**
   * The record after fire_beam from `start`: the beam runs down to its first
   * splitter, is recorded as ending a row above it, and a beam is fired left
   * and then right of the splitter unless a recorded beam already passes
   * there; with no splitter the beam ends on the last row.
   */
  function Fire(start: Pos, maxHeight: int, splitters: seq<Pos>, beams: seq<Segment>): seq<Segment>
    decreases if start.1 <= maxHeight then maxHeight + 1 - start.1 else 0, 0
  {
    var x := start.0;
    match FirstSplitter(splitters, x, start.1 + 1, maxHeight)
    case None => beams + [(start, (x, maxHeight - 1))]
    case Some(y) => Side(x + 1, y, maxHeight, splitters, Side(x - 1, y, maxHeight, splitters, beams + [(start, (x, y - 1))]))
  }

  /** One side of a splitter in row `y`: a beam is fired from (x, y) unless a recorded beam already passes there. */
  function Side(x: int, y: int, maxHeight: int, splitters: seq<Pos>, beams: seq<Segment>): seq<Segment>
    decreases if y <= maxHeight then maxHeight + 1 - y else 0, 1
  {
    if CountCovering(beams, x, y) == 0 then Fire((x, y), maxHeight, splitters, beams) else beams
  }

  /** A recorded beam that stopped at a splitter: it ends at or below its start, right above a splitter. */
  predicate Split(seg: Segment, splitters: seq<Pos>) {
    seg.0.1 <= seg.1.1 && IsSplitter(splitters, seg.0.0, seg.1.1 + 1)
  }

  /** The cell right below a recorded beam's end. */
  function Below(seg: Segment): Pos {
    (seg.0.0, seg.1.1 + 1)
  }

  /** The splitters hit by the beams recorded from index `from` on. */
  function SplitsHit(beams: seq<Segment>, from: nat, splitters: seq<Pos>): set<Pos> {
    set k | from <= k < |beams| && Split(beams[k], splitters) :: Below(beams[k])
  }

  /** The hits of a record that extends another are the earlier hits and those of the added beams. */
  lemma SplitsHitAppend(before: seq<Segment>, after: seq<Segment>, from: nat, splitters: seq<Pos>)
    requires from <= |before| <= |after| && after[..|before|] == before
    ensures SplitsHit(after, from, splitters) == SplitsHit(before, from, splitters) + SplitsHit(after, |before|, splitters)
  {
    forall p | p in SplitsHit(after, from, splitters)
      ensures p in SplitsHit(before, from, splitters) + SplitsHit(after, |before|, splitters)
    {
      var k :| from <= k < |after| && Split(after[k], splitters) && Below(after[k]) == p;
      if k < |before| {
        assert after[k] == before[k];
      }
    }
    forall p | p in SplitsHit(before, from, splitters) ensures p in SplitsHit(after, from, splitters) {
      var k :| from <= k < |before| && Split(before[k], splitters) && Below(before[k]) == p;
      assert after[k] == before[k];
    }
  }

  /** A nested call's hits join those recorded so far. */
  lemma SplitsGrow(before: seq<Segment>, after: seq<Segment>, from: nat, splitters: seq<Pos>,
                   splits: set<Pos>, prior: set<Pos>, splits': set<Pos>)
    requires from <= |before| <= |after| && after[..|before|] == before
    requires prior == splits + SplitsHit(before, from, splitters)
    requires splits' == prior + SplitsHit(after, |before|, splitters)
    ensures splits' == splits + SplitsHit(after, from, splitters)
  {
    SplitsHitAppend(before, after, from, splitters);
  }

  /** Every splitter hit is a splitter of the diagram. */
  lemma SplitsHitAreSplitters(beams: seq<Segment>, from: nat, splitters: seq<Pos>)
    ensures forall p | p in SplitsHit(beams, from, splitters) :: p in splitters
  {
    forall p | p in SplitsHit(beams, from, splitters) ensures p in splitters {
      var k :| from <= k < |beams| && Split(beams[k], splitters) && Below(beams[k]) == p;
    }
  }

  /**
   * fire_beam: trace a beam down from `start`. At the first splitter below it
   * the beam is recorded as ending one row above, the splitter is recorded,
   * and a beam is fired into each neighbouring column unless a recorded beam
   * already passes there. A beam that meets no splitter ends on the last row.
   * `splits` gains exactly the splitters right below the beams recorded.
   */
  method FireBeam(start: Pos, maxHeight: nat, splitters: seq<Pos>, beams: seq<Segment>, splits: set<Pos>)
    returns (beams': seq<Segment>, splits': set<Pos>)
    requires maxHeight >= 1
    ensures beams' == Fire(start, maxHeight, splitters, beams)
    ensures |beams'| > |beams| && beams'[..|beams|] == beams && beams'[|beams|].0 == start
    ensures AllStop(beams', |beams|, splitters, maxHeight)
    ensures Unshadowed(beams', |beams|)
    ensures splits' == splits + SplitsHit(beams', |beams|, splitters)
    decreases if start.1 <= maxHeight then maxHeight + 1 - start.1 else 0, 1
  {
    beams', splits' := beams, splits;
    var split := false;
    var y := start.1 + 1;
    while y < maxHeight + 1
      invariant start.1 + 1 <= y && (y <= maxHeight + 1 || y == start.1 + 1)
      invariant beams' == beams && splits' == splits
      invariant Clear(splitters, start.0, start.1 + 1, y - 1)
      invariant FirstSplitter(splitters, start.0, start.1 + 1, maxHeight) == FirstSplitter(splitters, start.0, y, maxHeight)
    {
      if (start.0, y) in splitters {
        beams', splits' := FireSplit(start, y, maxHeight, splitters, beams, splits);
        split := true;
      }

      if split {
        break;
      }
      y := y + 1;
    }

    if !split {
      var seg := (start, (start.0, maxHeight - 1));
      beams' := beams' + [seg];
      assert Stops(seg, splitters, maxHeight);
      assert !Split(seg, splitters);
      assert SplitsHit(beams', |beams|, splitters) == {} by {
        assert beams'[|beams|] == seg;
      }
    }
  }

  /**
   * The body of fire_beam's loop at the first splitter, row `y`: record the
   * beam and the splitter, then fire left and right where no recorded beam
   * passes.
   */
  method FireSplit(start: Pos, y: int, maxHeight: nat, splitters: seq<Pos>, beams: seq<Segment>, splits: set<Pos>)
    returns (beams': seq<Segment>, splits': set<Pos>)
    requires maxHeight >= 1 && start.1 < y <= maxHeight
    requires FirstSplitter(splitters, start.0, start.1 + 1, maxHeight) == Some(y)
    requires Clear(splitters, start.0, start.1 + 1, y - 1)
    ensures beams' == Fire(start, maxHeight, splitters, beams)
    ensures |beams'| > |beams| && beams'[..|beams|] == beams && beams'[|beams|].0 == start
    ensures AllStop(beams', |beams|, splitters, maxHeight)
    ensures Unshadowed(beams', |beams|)
    ensures splits' == splits + SplitsHit(beams', |beams|, splitters)
    decreases maxHeight + 1 - start.1, 0
  {
    var x := start.0;
    var hit := beams + [(start, (x, y - 1))];
    RecordSplit(start, y, maxHeight, splitters, beams);
    var left, splitsLeft := FireSide(x - 1, y, maxHeight, splitters, hit, splits + {(x, y)}, |beams|, splits);
    beams', splits' := FireSide(x + 1, y, maxHeight, splitters, left, splitsLeft, |beams|, splits);
    assert hit[..|beams|] == beams;
    FireAtSplitter(start, maxHeight, splitters, beams, y);
  }

  /** The beam recorded at a splitter stops there, and the splitter below it is the one hit. */
  lemma RecordSplit(start: Pos, y: int, maxHeight: int, splitters: seq<Pos>, beams: seq<Segment>)
    requires start.1 < y && IsSplitter(splitters, start.0, y) && Clear(splitters, start.0, start.1 + 1, y - 1)
    ensures var hit := beams + [(start, (start.0, y - 1))];
      && AllStop(hit, |beams|, splitters, maxHeight) && Unshadowed(hit, |beams|)
      && SplitsHit(hit, |beams|, splitters) == {(start.0, y)}
  {
    var seg := (start, (start.0, y - 1));
    var hit := beams + [seg];
    assert hit[|beams|] == seg && Stops(seg, splitters, maxHeight) && Split(seg, splitters);
  }

  /** One side of a splitter: fire a beam from (x, y) unless a recorded beam already passes there. */
  method FireSide(x: int, y: int, maxHeight: nat, splitters: seq<Pos>, beams: seq<Segment>, splits: set<Pos>,
                  ghost from: nat, ghost splits0: set<Pos>)
    returns (beams': seq<Segment>, splits': set<Pos>)
    requires maxHeight >= 1 && y <= maxHeight && from < |beams|
    requires AllStop(beams, from, splitters, maxHeight) && Unshadowed(beams, from)
    requires splits == splits0 + SplitsHit(beams, from, splitters)
    ensures beams' == Side(x, y, maxHeight, splitters, beams)
    ensures |beams'| >= |beams| && beams'[..|beams|] == beams
    ensures AllStop(beams', from, splitters, maxHeight) && Unshadowed(beams', from)
    ensures beams'[..from] == beams[..from] && beams'[from] == beams[from]
    ensures splits' == splits0 + SplitsHit(beams', from, splitters)
    decreases maxHeight + 1 - y, 2
  {
    beams', splits' := beams, splits;
    if CountCovering(beams, x, y) == 0 {
      CountCoveringZero(beams, x, y);
      beams', splits' := FireBeam((x, y), maxHeight, splitters, beams, splits);
      Extend(beams, beams', from, splitters, maxHeight);
      SplitsGrow(beams, beams', from, splitters, splits0, splits, splits');
    }
  }

  /** Fire unfolded at the first splitter, row `y`: the record after the left side, then the right side. */
  lemma FireAtSplitter(start: Pos, maxHeight: int, splitters: seq<Pos>, beams: seq<Segment>, y: int)
    requires FirstSplitter(splitters, start.0, start.1 + 1, maxHeight) == Some(y)
    ensures Fire(start, maxHeight, splitters, beams)
      == Side(start.0 + 1, y, maxHeight, splitters, Side(start.0 - 1, y, maxHeight, splitters, beams + [(start, (start.0, y - 1))]))
  {
  }

  /** A nested trace appended to the record keeps what the record already promised. */
  lemma Extend(before: seq<Segment>, after: seq<Segment>, from: nat, splitters: seq<Pos>, maxHeight: int)
    requires from < |before| < |after| && after[..|before|] == before
    requires AllStop(before, from, splitters, maxHeight) && AllStop(after, |before|, splitters, maxHeight)
    requires Unshadowed(before, from) && Unshadowed(after, |before|)
    requires !Covered(before, after[|before|].0.0, after[|before|].0.1)
    ensures AllStop(after, from, splitters, maxHeight) && Unshadowed(after, from)
    ensures after[..from] == before[..from] && after[from] == before[from]
  {
    forall k | from < k < |before|
      ensures !Covered(after[..k], after[k].0.0, after[k].0.1)
    {
      assert after[..k] == before[..k];
      assert after[k] == before[k];
    }
    assert after[..|before|] == before;
  }

  // ---------------------------------------------------------------------
  // Reading the diagram
  // ---------------------------------------------------------------------

  /** The '^' cells of one line, left to right. */
  function RowSplitters(line: string, y: int): seq<Pos> {
    if line == [] then []
    else RowSplitters(line[..|line| - 1], y) + (if line[|line| - 1] == '^' then [(|line| - 1, y)] else [])
  }

  /** The '^' cells of the diagram, row by row. */
  function SplittersOf(lines: seq<string>): seq<Pos> {
    if lines == [] then [] else SplittersOf(lines[..|lines| - 1]) + RowSplitters(lines[|lines| - 1], |lines| - 1)
  }

  /** The last 'S' of one line. */
  function RowStart(line: string, y: int): Option<Pos> {
    if line == [] then None
    else if line[|line| - 1] == 'S' then Some((|line| - 1, y))
    else RowStart(line[..|line| - 1], y)
  }

  /** The last 'S' of the diagram in reading order: each one found overwrites the one before. */
  function LastStart(lines: seq<string>): Option<Pos> {
    if lines == [] then None
    else
      match RowStart(lines[|lines| - 1], |lines| - 1)
      case Some(p) => Some(p)
      case None => LastStart(lines[..|lines| - 1])
  }

  function OrElse(o: Option<Pos>, default: Pos): Pos {
    if o.Some? then o.value else default
  }

  predicate IsCell(lines: seq<string>, x: int, y: int, c: char) {
    0 <= y < |lines| && 0 <= x < |lines[y]| && lines[y][x] == c
  }

  lemma {:induction false} RowSplittersMeaning(line: string, y: int)
    ensures forall p :: p in RowSplitters(line, y) <==> p.1 == y && 0 <= p.0 < |line| && line[p.0] == '^'
    decreases |line|
  {
    if line != [] {
      var front := line[..|line| - 1];
      RowSplittersMeaning(front, y);
      assert forall x | 0 <= x < |front| :: front[x] == line[x];
    }
  }

  /** The splitters listed are exactly the '^' cells. */
  lemma {:induction false} SplittersMeaning(lines: seq<string>)
    ensures forall p :: p in SplittersOf(lines) <==> IsCell(lines, p.0, p.1, '^')
    decreases |lines|
  {
    if lines != [] {
      var front := lines[..|lines| - 1];
      SplittersMeaning(front);
      RowSplittersMeaning(lines[|lines| - 1], |lines| - 1);
      assert forall y | 0 <= y < |front| :: front[y] == lines[y];
    }
  }

  lemma {:induction false} RowStartMeaning(line: string, y: int)
    ensures RowStart(line, y).Some? <==> 'S' in line
    ensures RowStart(line, y).Some? ==>
      var p := RowStart(line, y).value;
      p.1 == y && 0 <= p.0 < |line| && line[p.0] == 'S' && forall x | p.0 < x < |line| :: line[x] != 'S'
    decreases |line|
  {
    if line != [] {
      var front := line[..|line| - 1];
      RowStartMeaning(front, y);
      assert line == front + [line[|line| - 1]];
    }
  }

  /** `start` is an 'S' cell that no 'S' follows in reading order, or (0, 0) when there is none. */
  lemma {:induction false} LastStartMeaning(lines: seq<string>)
    ensures LastStart(lines).Some? <==> exists y | 0 <= y < |lines| :: 'S' in lines[y]
    ensures LastStart(lines).Some? ==>
      var p := LastStart(lines).value;
      IsCell(lines, p.0, p.1, 'S')
      && forall x, y | IsCell(lines, x, y, 'S') :: y < p.1 || (y == p.1 && x <= p.0)
    decreases |lines|
  {
    if lines != [] {
      var front := lines[..|lines| - 1];
      var last := lines[|lines| - 1];
      LastStartMeaning(front);
      RowStartMeaning(last, |lines| - 1);
      assert forall y | 0 <= y < |front| :: front[y] == lines[y];
      if 'S' !in last {
        forall x, y | IsCell(lines, x, y, 'S') ensures IsCell(front, x, y, 'S') {
        }
        if exists y | 0 <= y < |lines| :: 'S' in lines[y] {
          var y :| 0 <= y < |lines| && 'S' in lines[y];
          assert y < |front| && 'S' in front[y];
        }
      }
    }
  }

  /** The scan over the lines and their characters. */
  method ReadDiagram(lines: seq<string>) returns (start: Pos, splitters: seq<Pos>, maxY: nat)
    ensures start == OrElse(LastStart(lines), (0, 0))
    ensures splitters == SplittersOf(lines)
    ensures maxY == if |lines| == 0 then 0 else |lines| - 1
  {
    start, splitters, maxY := (0, 0), [], 0;
    for y := 0 to |lines|
      invariant start == OrElse(LastStart(lines[..y]), (0, 0))
      invariant splitters == SplittersOf(lines[..y])
      invariant maxY == if y == 0 then 0 else y - 1
    {
      var line := lines[y];
      var before := start;
      for x := 0 to |line|
        invariant start == OrElse(RowStart(line[..x], y), before)
        invariant splitters == SplittersOf(lines[..y]) + RowSplitters(line[..x], y)
      {
        assert line[..x + 1][..x] == line[..x];
        if line[x] == 'S' {
          start := (x, y);
        } else if line[x] == '^' {
          splitters := splitters + [(x, y)];
        }
      }
      assert line[..|line|] == line;
      assert lines[..y + 1][..y] == lines[..y];
      maxY := y;
    }
    assert lines[..|lines|] == lines;
  }

  /** The beams recorded by part one's trace over the diagram. */
  function Traced(lines: seq<string>): seq<Segment> {
    var maxY := if |lines| == 0 then 0 else |lines| - 1;
    Fire(OrElse(LastStart(lines), (0, 0)), maxY + 1, SplittersOf(lines), [])
  }

  /** part_one: the number of distinct splitters the traced beams hit; at most the number of splitters. */
  method PartOne(lines: seq<string>) returns (r: Option<nat>)
    ensures r == Some(|SplitsHit(Traced(lines), 0, SplittersOf(lines))|)
    ensures r.value <= |set p | p in SplittersOf(lines)|
  {
    var start, splitters, maxY := ReadDiagram(lines);
    var beams, splits := FireBeam(start, maxY + 1, splitters, [], {});
    SplitsHitAreSplitters(beams, 0, splitters);
    assert splits <= set p | p in SplittersOf(lines);
    SubsetCard(splits, set p | p in SplittersOf(lines));
    return Some(|splits|);
  }

  lemma {:induction false} SubsetCard<T>(a: set<T>, b: set<T>)
    requires a <= b
    ensures |a| <= |b|
    decreases |a|
  {
    if a != {} {
      var x :| x in a;
      SubsetCard(a - {x}, b - {x});
    }
  }

  // ---------------------------------------------------------------------
  // The quantum beam
  // ---------------------------------------------------------------------

  /**
   * The number of timelines of a beam that reaches row `row` of column `x`:
   * a splitter sends one timeline left and one right, and every timeline
   * ends at row `maxHeight`.
   */
  function Timelines(splitters: set<Pos>, maxHeight: int, x: int, row: int): (n: nat)
    ensures n >= 1
    decreases if row < maxHeight then maxHeight - row else 0
  {
    if row >= maxHeight then 1
    else if (x, row) in splitters then
      Timelines(splitters, maxHeight, x + 1, row + 1) + Timelines(splitters, maxHeight, x - 1, row + 1)
    else Timelines(splitters, maxHeight, x, row + 1)
  }

  /** The splitter hits of every timeline of that beam, counted once per timeline that hits. */
  function Hits(splitters: set<Pos>, maxHeight: int, x: int, row: int): nat
    decreases if row < maxHeight then maxHeight - row else 0
  {
    if row >= maxHeight then 0
    else if (x, row) in splitters then
      1 + Hits(splitters, maxHeight, x + 1, row + 1) + Hits(splitters, maxHeight, x - 1, row + 1)
    else Hits(splitters, maxHeight, x, row + 1)
  }

  /** Every hit adds exactly one beam to the one the count starts with. */
  lemma {:induction false} TimelinesAreHitsPlusOne(splitters: set<Pos>, maxHeight: int, x: int, row: int)
    ensures Timelines(splitters, maxHeight, x, row) == 1 + Hits(splitters, maxHeight, x, row)
    decreases if row < maxHeight then maxHeight - row else 0
  {
    if row < maxHeight {
      if (x, row) in splitters {
        TimelinesAreHitsPlusOne(splitters, maxHeight, x + 1, row + 1);
        TimelinesAreHitsPlusOne(splitters, maxHeight, x - 1, row + 1);
      } else {
        TimelinesAreHitsPlusOne(splitters, maxHeight, x, row + 1);
      }
    }
  }

  /** _fire_quantum_beam: recurse into the right branch at each splitter, deflect left, count the finished beam. */
  method FireQuantumBeam(beam: Pos, maxHeight: int, splitters: set<Pos>, beams: nat) returns (beams': nat)
    ensures beams' == beams + Timelines(splitters, maxHeight, beam.0, beam.1 + 1)
    decreases if beam.1 < maxHeight then maxHeight - beam.1 else 0
  {
    beams' := beams;
    var pos := beam;
    var y := pos.1 + 1;
    while y < maxHeight
      invariant beam.1 + 1 <= y && pos.1 == y - 1
      invariant beams' + Timelines(splitters, maxHeight, pos.0, y) == beams + Timelines(splitters, maxHeight, beam.0, beam.1 + 1)
      decreases maxHeight - y
    {
      pos := (pos.0, y);
      if pos in splitters {
        beams' := FireQuantumBeam((pos.0 + 1, pos.1), maxHeight, splitters, beams');
        pos := (pos.0 - 1, pos.1);
      }
      y := y + 1;
    }
    beams' := beams' + 1;
  }

  /** The timelines still owed by the beams waiting on the stack. */
  function Pending(splitters: set<Pos>, maxHeight: int, stack: seq<Pos>): nat {
    if stack == [] then 0
    else
      var p := stack[|stack| - 1];
      Pending(splitters, maxHeight, stack[..|stack| - 1]) + Timelines(splitters, maxHeight, p.0, p.1 + 1)
  }

  /** fire_quantum_beam_iterative: the same count, with the right branches kept on a stack. */
  method FireQuantumBeamIterative(start: Pos, maxHeight: int, splitters: set<Pos>) returns (beamCount: nat)
    ensures beamCount == Timelines(splitters, maxHeight, start.0, start.1 + 1)
  {
    ghost var total := Timelines(splitters, maxHeight, start.0, start.1 + 1);
    beamCount := 0;
    var stack: seq<Pos> := [start];
    assert stack[..0] == [];
    while |stack| > 0
      invariant beamCount + Pending(splitters, maxHeight, stack) == total
      decreases total - beamCount
    {
      var pos := stack[|stack| - 1];
      stack := stack[..|stack| - 1];
      var y := pos.1 + 1;
      while y < maxHeight
        invariant pos.1 == y - 1
        invariant beamCount + Pending(splitters, maxHeight, stack) + Timelines(splitters, maxHeight, pos.0, y) == total
        decreases maxHeight - y
      {
        pos := (pos.0, y);
        if pos in splitters {
          var right := (pos.0 + 1, pos.1);
          assert (stack + [right])[..|stack|] == stack;
          stack := stack + [right];
          pos := (pos.0 - 1, pos.1);
        }
        y := y + 1;
      }
      beamCount := beamCount + 1;
    }
  }
}
