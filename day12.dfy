/**
 * Day 12: every region line "WxH: c0 c1 ..." names a region size and the
 * number of presents of each shape. A region counts when eight cells per
 * present fall short of the region's area.
 */
module Day12 {
  import opened Wrappers
  import opened Text

  /** `filter_map(|n| n.parse::<u64>().ok())`: the values of the parts that parse, in order. */
  function ParsedParts(parts: seq<string>): (vs: seq<nat>)
    ensures |vs| <= |parts|
    ensures forall k | 0 <= k < |vs| :: vs[k] <= U64_MAX
  {
    if parts == [] then []
    else
      var rest := ParsedParts(parts[1..]);
      match ParseUnsigned(parts[0], U64_MAX)
      case Some(v) => [v] + rest
      case None => rest
  }

  function Product(vs: seq<nat>): nat {
    if vs == [] then 1 else vs[0] * Product(vs[1..])
  }

  function Sum(vs: seq<nat>): nat {
    if vs == [] then 0 else vs[0] + Sum(vs[1..])
  }

  /** The region's area: the product of the 'x'-separated numbers that parse, starting from 1. */
  function Area(size: string): nat {
    Product(ParsedParts(Split(size, 'x')))
  }

  /** Every ' '-separated count parses as a u64 (the `unwrap`). */
  predicate CountsParse(regions: string) {
    forall k | 0 <= k < |Split(regions, ' ')| :: ParseUnsigned(Split(regions, ' ')[k], U64_MAX).Some?
  }

  /** The space the presents take: eight cells each. */
  function Size(regions: string): nat
    requires CountsParse(regions)
  {
    8 * Sum(ParsedParts(Split(regions, ' ')))
  }

  /** A line the loop gets through without panicking. */
  predicate ValidLine(line: string) {
    'x' in line ==> SplitOnce(line, ": ").Some? && CountsParse(SplitOnce(line, ": ").value.1)
  }

  /** Whether a line with an 'x' is counted. */
  predicate Fits(line: string)
    requires ValidLine(line) && 'x' in line
  {
    var (size, regions) := SplitOnce(line, ": ").value;
    Size(regions) < Area(size)
  }

  function CountFits(lines: seq<string>): nat
    requires forall k | 0 <= k < |lines| :: ValidLine(lines[k])
  {
    if lines == [] then 0
    else CountFits(lines[..|lines| - 1]) + (if 'x' in lines[|lines| - 1] && Fits(lines[|lines| - 1]) then 1 else 0)
  }

  function CountWithX(lines: seq<string>): nat {
    if lines == [] then 0 else CountWithX(lines[..|lines| - 1]) + (if 'x' in lines[|lines| - 1] then 1 else 0)
  }

  /** part_one: lines without an 'x' are skipped; the others count when they fit. */
  method PartOne(lines: seq<string>) returns (count: nat)
    requires forall k | 0 <= k < |lines| :: ValidLine(lines[k])
    ensures count == CountFits(lines)
  {
    count := 0;
    var k := 0;
    while k < |lines|
      invariant 0 <= k <= |lines|
      invariant count == CountFits(lines[..k])
    {
      var line := lines[k];
      CountFitsStep(lines, k);
      if 'x' !in line {
        k := k + 1;
        continue;
      }
      var parts := SplitOnce(line, ": ").value;
      var area := Area(parts.0);
      var need := Size(parts.1);
      if need < area {
        count := count + 1;
      }
      k := k + 1;
    }
    assert lines[..k] == lines;
  }

  lemma CountFitsStep(lines: seq<string>, k: nat)
    requires forall j | 0 <= j < |lines| :: ValidLine(lines[j])
    requires k < |lines|
    ensures CountFits(lines[..k + 1]) == CountFits(lines[..k]) + (if 'x' in lines[k] && Fits(lines[k]) then 1 else 0)
  {
    assert lines[..k + 1][..k] == lines[..k];
  }

  /** Only lines with an 'x' are ever counted. */
  lemma {:induction false} CountFitsBound(lines: seq<string>)
    requires forall k | 0 <= k < |lines| :: ValidLine(lines[k])
    ensures CountFits(lines) <= CountWithX(lines)
    decreases |lines|
  {
    if lines != [] {
      CountFitsBound(lines[..|lines| - 1]);
    }
  }

  // ---------------------------------------------------------------------
  // Reading back rendered numbers
  // ---------------------------------------------------------------------

  lemma {:induction false} ParsedRendered(vs: seq<nat>)
    requires forall k | 0 <= k < |vs| :: vs[k] <= U64_MAX
    ensures ParsedParts(Render(vs)) == vs
    decreases |vs|
  {
    if vs != [] {
      ParseDecimal(vs[0], U64_MAX);
      assert Render(vs)[1..] == Render(vs[1..]);
      ParsedRendered(vs[1..]);
    }
  }

  lemma RenderedHasNo(vs: seq<nat>, sep: char)
    requires !IsDigit(sep)
    ensures forall k | 0 <= k < |Render(vs)| :: sep !in Render(vs)[k]
  {
  }

  /** The dimensions written as "d0xd1x..." give their product as the area. */
  lemma AreaOfRendered(dims: seq<nat>)
    requires |dims| >= 1 && forall k | 0 <= k < |dims| :: dims[k] <= U64_MAX
    ensures Area(Join(Render(dims), 'x')) == Product(dims)
  {
    RenderedHasNo(dims, 'x');
    JoinSplit(Render(dims), 'x');
    ParsedRendered(dims);
  }

  /** The counts written as "c0 c1 ..." parse, and take eight cells per present. */
  lemma SizeOfRendered(counts: seq<nat>)
    requires |counts| >= 1 && forall k | 0 <= k < |counts| :: counts[k] <= U64_MAX
    ensures CountsParse(Join(Render(counts), ' '))
    ensures Size(Join(Render(counts), ' ')) == 8 * Sum(counts)
  {
    RenderedHasNo(counts, ' ');
    JoinSplit(Render(counts), ' ');
    ParsedRendered(counts);
    forall k | 0 <= k < |counts| ensures ParseUnsigned(Render(counts)[k], U64_MAX).Some? {
      ParseDecimal(counts[k], U64_MAX);
    }
  }

  /** A size field in which nothing parses has area 1, the fold's start. */
  lemma AreaOfNoNumbers(size: string)
    requires forall k | 0 <= k < |Split(size, 'x')| :: ParseUnsigned(Split(size, 'x')[k], U64_MAX).None?
    ensures Area(size) == 1
  {
    NothingParses(Split(size, 'x'));
  }

  lemma {:induction false} NothingParses(parts: seq<string>)
    requires forall k | 0 <= k < |parts| :: ParseUnsigned(parts[k], U64_MAX).None?
    ensures ParsedParts(parts) == []
    decreases |parts|
  {
    if parts != [] {
      NothingParses(parts[1..]);
    }
  }

  lemma {:induction false} JoinedChars(vs: seq<nat>, sep: char)
    requires |vs| >= 1
    ensures forall i | 0 <= i < |Join(Render(vs), sep)| :: IsDigit(Join(Render(vs), sep)[i]) || Join(Render(vs), sep)[i] == sep
    decreases |vs|
  {
    if |vs| > 1 {
      JoinedChars(vs[1..], sep);
      assert Render(vs)[1..] == Render(vs[1..]);
    }
  }

  /** A line written out from its dimensions and counts is counted exactly when the presents take less than the area. */
  lemma FitsRendered(dims: seq<nat>, counts: seq<nat>)
    requires |dims| >= 2 && forall k | 0 <= k < |dims| :: dims[k] <= U64_MAX
    requires |counts| >= 1 && forall k | 0 <= k < |counts| :: counts[k] <= U64_MAX
    ensures var line := Join(Render(dims), 'x') + ": " + Join(Render(counts), ' ');
      ValidLine(line) && 'x' in line && (Fits(line) <==> 8 * Sum(counts) < Product(dims))
  {
    var size, regions := Join(Render(dims), 'x'), Join(Render(counts), ' ');
    var line := size + ": " + regions;
    assert size[|Decimal(dims[0])|] == 'x';
    assert line[|Decimal(dims[0])|] == 'x';
    JoinedChars(dims, 'x');
    assert line[|size|..|size| + 2] == ": ";
    assert OccursAt(line, ": ", |size|);
    var r := SplitOnce(line, ": ").value;
    assert |r.0| <= |size|;
    assert line[|r.0|] == ':';
    assert |r.0| == |size| by {
      assert forall i | 0 <= i < |size| :: line[i] == size[i];
    }
    assert r.0 == size && r.1 == regions by {
      assert line[..|size|] == size;
      assert line[|size| + 2..] == regions;
    }
    AreaOfRendered(dims);
    SizeOfRendered(counts);
  }
}
