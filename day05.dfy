/**
 * Day 5: an inventory lists inclusive id ranges "a-b" and single ids. Part
 * one counts the listed ids that fall in some range; part two sorts the
 * ranges by start, merges overlapping or adjacent ones, and counts every id
 * the ranges cover.
 */
module Day05 {
  import opened Wrappers
  import opened Text
  import opened Sorting

  /** An inclusive range (start, end). */
  type Range = (nat, nat)

  // ---------------------------------------------------------------------
  // Reading the inventory
  // ---------------------------------------------------------------------

  /** A line holding a '-': the trimmed text before and after the first '-' as u64s. */
  function ParseRangeLine(line: string): (r: Option<Range>)
    requires '-' in line
    ensures r.Some? ==> r.value.0 <= U64_MAX && r.value.1 <= U64_MAX
  {
    var parts := Split(line, '-');
    var start :- ParseUnsigned(Trim(parts[0]), U64_MAX);
    var end :- ParseUnsigned(Trim(parts[1]), U64_MAX);
    Some((start, end))
  }

  /** Part one's reading: the ranges and the ids in order, None at a line that does not parse. */
  function Inventory(lines: seq<string>): Option<(seq<Range>, seq<nat>)> {
    if lines == [] then Some(([], []))
    else
      var before :- Inventory(lines[..|lines| - 1]);
      var line := lines[|lines| - 1];
      if '-' in line then
        var r :- ParseRangeLine(line);
        Some((before.0 + [r], before.1))
      else if |line| > 0 then
        var id :- ParseUnsigned(Trim(line), U64_MAX);
        Some((before.0, before.1 + [id]))
      else Some(before)
  }

  /** Part two's reading: only the range lines matter. */
  function RangesOf(lines: seq<string>): Option<seq<Range>> {
    if lines == [] then Some([])
    else
      var before :- RangesOf(lines[..|lines| - 1]);
      var line := lines[|lines| - 1];
      if '-' in line then
        var r :- ParseRangeLine(line);
        Some(before + [r])
      else Some(before)
  }

  /** Part two reads the same ranges as part one whenever part one reads the inventory. */
  lemma {:induction false} SameRanges(lines: seq<string>)
    requires Inventory(lines).Some?
    ensures RangesOf(lines) == Some(Inventory(lines).value.0)
  {
    if lines != [] {
      SameRanges(lines[..|lines| - 1]);
    }
  }

  /** A range written "a-b" reads back as (a, b). */
  lemma RangeLineRendered(a: nat, b: nat)
    requires a <= U64_MAX && b <= U64_MAX
    ensures '-' in Decimal(a) + "-" + Decimal(b)
    ensures ParseRangeLine(Decimal(a) + "-" + Decimal(b)) == Some((a, b))
  {
    var line := Decimal(a) + "-" + Decimal(b);
    assert line[|Decimal(a)|] == '-';
    var parts := [Decimal(a), Decimal(b)];
    assert Join(parts, '-') == line;
    assert Join(parts[1..], '-') == Decimal(b);
    JoinSplit(parts, '-');
    TrimDecimal(a);
    TrimDecimal(b);
    ParseDecimal(a, U64_MAX);
    ParseDecimal(b, U64_MAX);
  }

  lemma TrimDecimal(n: nat)
    ensures Trim(Decimal(n)) == Decimal(n)
  {
    var s := Decimal(n);
    forall i | 0 <= i < |s| ensures !IsSpace(s[i]) {
      assert IsDigit(s[i]);
    }
    TrimBare(s);
  }

  // ---------------------------------------------------------------------
  // Coverage
  // ---------------------------------------------------------------------

  /** Some range contains x. */
  predicate Covers(rs: seq<Range>, x: int) {
    exists k | 0 <= k < |rs| :: rs[k].0 <= x <= rs[k].1
  }

  /** The ids s..=e. */
  function Interval(s: int, e: int): set<int>
    decreases e - s + 1
  {
    if s > e then {} else Interval(s, e - 1) + {e}
  }

  lemma {:induction false} IntervalMembers(s: int, e: int)
    ensures forall x :: x in Interval(s, e) <==> s <= x <= e
    ensures s <= e + 1 ==> |Interval(s, e)| == e - s + 1
    decreases e - s + 1
  {
    if s <= e {
      IntervalMembers(s, e - 1);
    }
  }

  function Span(r: Range): set<int> {
    Interval(r.0, r.1)
  }

  /** Every id some range contains. */
  function Points(rs: seq<Range>): set<int> {
    if rs == [] then {} else Points(rs[..|rs| - 1]) + Span(rs[|rs| - 1])
  }

  lemma {:induction false} PointsCovers(rs: seq<Range>, x: int)
    ensures x in Points(rs) <==> Covers(rs, x)
  {
    if rs != [] {
      var init := rs[..|rs| - 1];
      PointsCovers(init, x);
      IntervalMembers(rs[|rs| - 1].0, rs[|rs| - 1].1);
      if Covers(init, x) {
        var k :| 0 <= k < |init| && init[k].0 <= x <= init[k].1;
        assert rs[k] == init[k];
      }
      if Covers(rs, x) && !(x in Span(rs[|rs| - 1])) {
        var k :| 0 <= k < |rs| && rs[k].0 <= x <= rs[k].1;
        assert init[k] == rs[k];
      }
    }
  }

  /** The covered ids depend only on which ranges there are, not on their order. */
  lemma PointsPermutation(a: seq<Range>, b: seq<Range>)
    requires multiset(a) == multiset(b)
    ensures Points(a) == Points(b)
  {
    forall x: int | x in Points(a) ensures x in Points(b) {
      PointsCovers(a, x);
      var k :| 0 <= k < |a| && a[k].0 <= x <= a[k].1;
      assert a[k] in multiset(b);
      var j :| 0 <= j < |b| && b[j] == a[k];
      PointsCovers(b, x);
    }
    forall x: int | x in Points(b) ensures x in Points(a) {
      PointsCovers(b, x);
      var k :| 0 <= k < |b| && b[k].0 <= x <= b[k].1;
      assert b[k] in multiset(a);
      var j :| 0 <= j < |a| && a[j] == b[k];
      PointsCovers(a, x);
    }
  }

  // ---------------------------------------------------------------------
  // Part one
  // ---------------------------------------------------------------------

  /** `fresh_ids`: the listed ids some range contains, in order, repeats kept. */
  function FreshOf(rs: seq<Range>, ids: seq<nat>): seq<nat> {
    if ids == [] then []
    else FreshOf(rs, ids[..|ids| - 1]) + (if Covers(rs, ids[|ids| - 1]) then [ids[|ids| - 1]] else [])
  }

  /** An id is kept exactly when it is listed and some range contains it, and no listed id is kept twice. */
  lemma {:induction false} FreshMeaning(rs: seq<Range>, ids: seq<nat>)
    ensures forall x :: x in FreshOf(rs, ids) <==> x in ids && Covers(rs, x)
    ensures multiset(FreshOf(rs, ids)) <= multiset(ids)
  {
    if ids != [] {
      var init := ids[..|ids| - 1];
      FreshMeaning(rs, init);
      assert ids == init + [ids[|ids| - 1]];
    }
  }

  /** The inner loop: does some range contain the id? It stops at the first that does. */
  method InSomeRange(ranges: seq<Range>, id: nat) returns (found: bool)
    ensures found == Covers(ranges, id)
  {
    found := false;
    var k := 0;
    while k < |ranges|
      invariant 0 <= k <= |ranges|
      invariant forall j | 0 <= j < k :: !(ranges[j].0 <= id <= ranges[j].1)
    {
      var (start, end) := ranges[k];
      if id >= start && id <= end {
        found := true;
        return;
      }
      k := k + 1;
    }
  }

  /** The reading loop of part_one. */
  method ReadInventory(lines: seq<string>) returns (r: Option<(seq<Range>, seq<nat>)>)
    ensures r == Inventory(lines)
  {
    var ranges: seq<Range> := [];
    var ids: seq<nat> := [];
    for i := 0 to |lines|
      invariant Inventory(lines[..i]) == Some((ranges, ids))
    {
      var line := lines[i];
      assert lines[..i + 1][..i] == lines[..i];
      if '-' in line {
        var range := ParseRangeLine(line);
        if range.None? {
          InventoryFails(lines, i + 1);
          return None;
        }
        ranges := ranges + [range.value];
      } else if |line| > 0 {
        var id := ParseUnsigned(Trim(line), U64_MAX);
        if id.None? {
          InventoryFails(lines, i + 1);
          return None;
        }
        ids := ids + [id.value];
      }
    }
    assert lines[..|lines|] == lines;
    return Some((ranges, ids));
  }

  /** A line that fails spoils the whole inventory. */
  lemma {:induction false} InventoryFails(lines: seq<string>, n: nat)
    requires n <= |lines| && Inventory(lines[..n]).None?
    ensures Inventory(lines).None?
    decreases |lines|
  {
    if n < |lines| {
      assert lines[..|lines| - 1][..n] == lines[..n];
      InventoryFails(lines[..|lines| - 1], n);
    } else {
      assert lines[..n] == lines;
    }
  }

  /** part_one: how many listed ids are fresh. */
  method PartOne(lines: seq<string>) returns (r: Option<nat>)
    ensures r.None? <==> Inventory(lines).None?
    ensures r.Some? ==> r.value == |FreshOf(Inventory(lines).value.0, Inventory(lines).value.1)|
  {
    var inventory := ReadInventory(lines);
    if inventory.None? {
      return None;
    }
    var (ranges, ids) := inventory.value;
    var freshIds: seq<nat> := [];
    for i := 0 to |ids|
      invariant freshIds == FreshOf(ranges, ids[..i])
    {
      assert ids[..i + 1][..i] == ids[..i];
      var inRange := InSomeRange(ranges, ids[i]);
      if inRange {
        freshIds := freshIds + [ids[i]];
      }
    }
    assert ids[..|ids|] == ids;
    return Some(|freshIds|);
  }

  // ---------------------------------------------------------------------
  // Part two
  // ---------------------------------------------------------------------

  function ByStart(r: Range): int {
    r.0
  }

  /** Every range has start <= end (else `range.1 - range.0 + 1` underflows). */
  predicate Ordered(rs: seq<Range>) {
    forall k | 0 <= k < |rs| :: rs[k].0 <= rs[k].1
  }

  /** Each merged range ends more than one id before the next one starts. */
  predicate Gapped(ms: seq<Range>) {
    forall k | 0 <= k < |ms| - 1 :: ms[k].1 + 1 < ms[k + 1].0
  }

  lemma SpanJoin(a: Range, b: Range)
    requires a.0 <= b.0 <= a.1 + 1
    ensures Span((a.0, if a.1 >= b.1 then a.1 else b.1)) == Span(a) + Span(b)
  {
    var e := if a.1 >= b.1 then a.1 else b.1;
    IntervalMembers(a.0, a.1);
    IntervalMembers(b.0, b.1);
    IntervalMembers(a.0, e);
    forall x: int | x in Interval(a.0, a.1) + Interval(b.0, b.1) ensures x in Interval(a.0, e) {
    }
    forall x: int | x in Interval(a.0, e) ensures x in Interval(a.0, a.1) + Interval(b.0, b.1) {
    }
  }

  lemma PointsSnoc(rs: seq<Range>, r: Range)
    ensures Points(rs + [r]) == Points(rs) + Span(r)
  {
    assert (rs + [r])[..|rs|] == rs;
  }

  /** The merge loop: extend the last merged range while the next one starts at most one past its end. */
  method Merge(sorted: seq<Range>) returns (merged: seq<Range>)
    requires SortedBy(sorted, ByStart) && Ordered(sorted)
    ensures Ordered(merged) && Gapped(merged)
    ensures Points(merged) == Points(sorted)
    ensures SortedBy(merged, ByStart)
  {
    merged := [];
    for i := 0 to |sorted|
      invariant Ordered(merged) && Gapped(merged)
      invariant |merged| > 0 <==> i > 0
      invariant i > 0 ==> merged[|merged| - 1].0 <= sorted[i - 1].0
      invariant Points(merged) == Points(sorted[..i])
    {
      var range := sorted[i];
      assert sorted[..i + 1] == sorted[..i] + [range];
      PointsSnoc(sorted[..i], range);
      if |merged| > 0 && range.0 <= merged[|merged| - 1].1 + 1 {
        var last := merged[|merged| - 1];
        var init := merged[..|merged| - 1];
        assert merged == init + [last];
        merged := init + [(last.0, if last.1 >= range.1 then last.1 else range.1)];
        GrowLast(init, last, range);
      } else {
        PushRange(merged, range);
        merged := merged + [range];
      }
    }
    assert sorted[..|sorted|] == sorted;
    GappedSorted(merged);
  }

  /** `last.1 = last.1.max(range.1)`: the last range swallows the next one. */
  lemma GrowLast(init: seq<Range>, last: Range, range: Range)
    requires Ordered(init + [last]) && Gapped(init + [last])
    requires last.0 <= range.0 <= last.1 + 1 && range.0 <= range.1
    ensures var grown := (last.0, if last.1 >= range.1 then last.1 else range.1);
      Ordered(init + [grown]) && Gapped(init + [grown])
      && Points(init + [grown]) == Points(init + [last]) + Span(range)
  {
    var grown := (last.0, if last.1 >= range.1 then last.1 else range.1);
    PointsSnoc(init, last);
    PointsSnoc(init, grown);
    SpanJoin(last, range);
    assert forall k | 0 <= k < |init| :: (init + [grown])[k] == (init + [last])[k];
  }

  /** `merged_ranges.push(range)`: a range that starts past the gap opens a new merged range. */
  lemma PushRange(merged: seq<Range>, range: Range)
    requires Ordered(merged) && Gapped(merged) && range.0 <= range.1
    requires |merged| > 0 ==> merged[|merged| - 1].1 + 1 < range.0
    ensures Ordered(merged + [range]) && Gapped(merged + [range])
    ensures Points(merged + [range]) == Points(merged) + Span(range)
  {
    PointsSnoc(merged, range);
  }

  lemma GappedSorted(ms: seq<Range>)
    requires Ordered(ms) && Gapped(ms)
    ensures SortedBy(ms, ByStart)
    ensures forall i, j | 0 <= i < j < |ms| :: ms[i].1 + 1 < ms[j].0
  {
    forall i, j | 0 <= i < j < |ms| ensures ms[i].1 + 1 < ms[j].0 {
      GappedApart(ms, i, j);
    }
  }

  lemma {:induction false} GappedApart(ms: seq<Range>, i: nat, j: nat)
    requires Ordered(ms) && Gapped(ms) && i < j < |ms|
    ensures ms[i].1 + 1 < ms[j].0
    decreases j - i
  {
    if j > i + 1 {
      GappedApart(ms, i, j - 1);
    }
  }

  /** The number of ids in the merged ranges, range by range. */
  function Total(ms: seq<Range>): int {
    if ms == [] then 0 else Total(ms[..|ms| - 1]) + (ms[|ms| - 1].1 as int - ms[|ms| - 1].0 + 1)
  }

  /** Merged ranges are disjoint, so their sizes add up to the number of covered ids. */
  lemma {:induction false} TotalCounts(ms: seq<Range>)
    requires Ordered(ms) && Gapped(ms)
    ensures Total(ms) == |Points(ms)|
    ensures forall x | x in Points(ms) :: |ms| > 0 && x <= ms[|ms| - 1].1
  {
    if ms != [] {
      var init := ms[..|ms| - 1];
      var last := ms[|ms| - 1];
      assert Gapped(init);
      TotalCounts(init);
      IntervalMembers(last.0, last.1);
      if |init| > 0 {
        assert init[|init| - 1] == ms[|ms| - 2];
      }
      forall x: int | x in Points(init) ensures x !in Span(last) {
      }
    }
  }

  /** The sum loop of part_two. */
  method SumSizes(merged: seq<Range>) returns (count: nat)
    requires Ordered(merged)
    ensures count == Total(merged)
  {
    count := 0;
    for k := 0 to |merged|
      invariant count == Total(merged[..k])
    {
      assert merged[..k + 1][..k] == merged[..k];
      count := count + (merged[k].1 - merged[k].0 + 1);
    }
    assert merged[..|merged|] == merged;
  }

  /** The reading loop of part_two. */
  method ReadRanges(lines: seq<string>) returns (r: Option<seq<Range>>)
    ensures r == RangesOf(lines)
  {
    var ranges: seq<Range> := [];
    for i := 0 to |lines|
      invariant RangesOf(lines[..i]) == Some(ranges)
    {
      var line := lines[i];
      assert lines[..i + 1][..i] == lines[..i];
      if '-' in line {
        var range := ParseRangeLine(line);
        if range.None? {
          RangesFail(lines, i + 1);
          return None;
        }
        ranges := ranges + [range.value];
      }
    }
    assert lines[..|lines|] == lines;
    return Some(ranges);
  }

  lemma {:induction false} RangesFail(lines: seq<string>, n: nat)
    requires n <= |lines| && RangesOf(lines[..n]).None?
    ensures RangesOf(lines).None?
    decreases |lines|
  {
    if n < |lines| {
      assert lines[..|lines| - 1][..n] == lines[..n];
      RangesFail(lines[..|lines| - 1], n);
    } else {
      assert lines[..n] == lines;
    }
  }

  /** part_two: the number of distinct ids the ranges cover. */
  method PartTwo(lines: seq<string>) returns (r: Option<nat>)
    requires RangesOf(lines).Some? ==> Ordered(RangesOf(lines).value)
    ensures r.None? <==> RangesOf(lines).None?
    ensures r.Some? ==> r.value == |Points(RangesOf(lines).value)|
  {
    var ranges := ReadRanges(lines);
    if ranges.None? {
      return None;
    }
    var sorted := SortBy(ranges.value, ByStart);
    PointsPermutation(sorted, ranges.value);
    forall k | 0 <= k < |sorted| ensures sorted[k].0 <= sorted[k].1 {
      assert sorted[k] in multiset(ranges.value);
    }
    var merged := Merge(sorted);
    var count := SumSizes(merged);
    TotalCounts(merged);
    return Some(count);
  }
}
