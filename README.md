# Advent of Code 2025 solvers, modelled in Dafny

This project models the twelve day solvers of an Advent of Code 2025
repository written in Rust (`src/bin/01.rs` to `src/bin/12.rs`). Each
solver reads its puzzle input line by line and computes one number per part.
Every day becomes one Dafny module (`Day01` … `Day12`). Day 2 puts its digit
arithmetic in a second module, `Day02Digits`. Day 10 splits into
`Day10Combos`, `Day10Masks` and `Day10`. Day 11 splits into `Day11Graph`,
`Day11Topo`, `Day11Paths`, `Day11Ways`, `Day11CrossCheck`, `Day11Count` and `Day11`.
Four shared modules support them:

- `Wrappers` holds an `Option` type and `Collect`.
- `Text` holds Rust's string splitting, trimming and integer parsing over ASCII.
- `Sorting` holds a stable sort by key, as `sort_by_key` promises.
- `Pairs` holds the sorted all-pairs list that Days 8 and 9 share.

The input is taken as the list of its lines (`input.lines()`), or as the
whole string where the source splits it otherwise. A Rust panic is
modelled as `None` wherever the input can cause it: an `unwrap` on a failed
parse, a slice out of range, a shift too wide, an `expect`. The functions
say where each `None` comes from. Code that loops or changes state in place
is a `method` with loop invariants or an `array2` grid. Each method is
proved against a function that states what it computes. Code that only
computes a value is a `function`. Lemmas prove what the results mean:
round trips through parsing, maxima, permutations, counts and equivalences
between the parts.

## Model

| member | source | states |
|---|---|---|
| Day01.ParseLine | src/bin/01.rs:6-10 | 'L' n reads as -n, 'R' n as n, any other first byte as 0, always within i16 |
| Day01.Parse | src/bin/01.rs:3-12 | one rotation per line |
| Day01.ParseLineRendered | src/bin/01.rs:6-9 | "L" and "R" followed by a decimal n read back as -n and n |
| Day01.ParseElements | src/bin/01.rs:3-12 | rotation k is line k parsed |
| Day01.Turn | src/bin/01.rs:19 | `rem_euclid(100)` gives a dial in [0,100) congruent to dial + clicks |
| Day01.Dial | src/bin/01.rs:15-23 | the dial stays in [0,100) after every rotation |
| Day01.DialIsSum | src/bin/01.rs:15-23 | the dial is the start plus the total rotation, modulo 100 |
| Day01.TurnThenRotate | src/bin/01.rs:40 | turning by c with `rem_euclid(100)` and then by k lands where turning by c + k at once does |
| Day01.Landings | src/bin/01.rs:18-23 | part one's count is at most the number of rotations |
| Day01.LandingsSnoc | src/bin/01.rs:18-23 | each rotation adds 1 exactly when it leaves the dial at 0 |
| Day01.LandingsArePrefixZeros | src/bin/01.rs:14-26 | part one counts exactly the prefixes whose total rotation brings the dial to 0 |
| Day01.PartOne | src/bin/01.rs:14-26 | part one is at most the number of rotations and counts the prefixes whose total rotation brings the dial from 50 to 0 |
| Day01.DialSnoc | src/bin/01.rs:19 | a further rotation turns the dial from where it was |
| Day01.TruncRem | src/bin/01.rs:36-37 | Rust's `%` keeps the dividend's sign and has the Euclidean magnitude |
| Day01.ClickZerosForward | src/bin/01.rs:33-38 | turning right by n passes 0 exactly (dial + n) / 100 times |
| Day01.ClickZerosBackward | src/bin/01.rs:33-38 | turning left by n passes 0 the given number of times |
| Day01.ClickedZerosCountsClicks | src/bin/01.rs:33-38 | the corrected closed form counts exactly the clicks that land on 0 |
| Day01.ZerosCountClicks | src/bin/01.rs:28-47 | corrected part two counts every click that leaves the dial at 0 |
| Day01.PartTwo | src/bin/01.rs:28-47 | corrected part two is the number of clicks, over all rotations, that leave the dial at 0, and with no empty rotation it is at least part one |
| Day01.AsWrittenWithinOne | src/bin/01.rs:33-38 | per rotation the closure's count and the corrected count differ only in the final 0-or-1 term |
| Day01.PartTwoAsWritten | src/bin/01.rs:28-47 | the source's part two is within one per rotation of the true number of zero clicks |
| Day01.ClickedZerosAsWritten | src/bin/01.rs:33-38 | the closure's count as written, the as-written half of the first Findings row; Day01.AsWrittenWithinOne and Day01.AsWrittenMissesZeros state how it differs from the corrected count |
| Day01.ZerosAsWritten | src/bin/01.rs:28-47 | part two's sum as written; Day01.SampleZerosAsWritten gives 6 on the example, and Day01.AsWrittenMissesZeros exhibits inputs where it misses a zero |
| Day01.ClickedForward | src/bin/01.rs:33-38 | for a right turn by n the closure's corrected closed form is (dial + n) / 100 |
| Day01.ClickedBackward | src/bin/01.rs:33-38 | for a left turn by n the corrected closed form is the number of multiples of 100 passed going down |
| Day01.LandingsAtMostZeros | src/bin/01.rs:14-47 | part one's landings are among part two's zeros when no rotation is empty |
| Day01.LandingIsClickZero | src/bin/01.rs:19-21 | a non-empty rotation that lands on 0 shows at least one zero |
| Day01.AsWrittenMissesZeros | src/bin/01.rs:33-38 | as written, a final landing on 0 is missed and an empty rotation from 0 counts a zero |
| Day01.SampleLandings | src/bin/01.rs:56 | on the example rotations part one gives 3 |
| Day01.SampleZerosAsWritten | src/bin/01.rs:62 | on the example rotations part two as written gives 6 |
| Day01.SampleZeros | src/bin/01.rs:62 | the corrected part two also gives 6 there |
| Day02Digits.Pow10 | src/bin/02.rs:3-15 | powers of ten are positive |
| Day02Digits.Pow10Add | src/bin/02.rs:3-15 | 10^(a+b) = 10^a * 10^b |
| Day02Digits.Pow10Monotone | src/bin/02.rs:3-15 | powers of ten grow with the exponent |
| Day02Digits.NumDigits | src/bin/02.rs:17-19 | `ilog10(n) + 1` is the length whose power-of-ten bounds enclose n |
| Day02Digits.NumDigitsUnique | src/bin/02.rs:17-19 | only one length has those bounds |
| Day02Digits.DecimalLength | src/bin/02.rs:17-19 | the decimal rendering has NumDigits(n) characters |
| Day02Digits.DecimalCanonical | src/bin/02.rs:17-19 | decimal renderings of positive numbers have no leading zero |
| Day02Digits.DigitsValueBound | src/bin/02.rs:17-19 | a digit string of length l has value below 10^l, and at least 10^(l-1) without a leading zero |
| Day02Digits.CanonicalIsDecimal | src/bin/02.rs:17-19 | a canonical digit string is the rendering of its value |
| Day02Digits.DigitsValueAppend | src/bin/02.rs:31-32 | joining digit strings shifts the first by the length of the second |
| Day02Digits.Repeat | src/bin/02.rs:37-64 | a block written k times has k times its length |
| Day02Digits.RepeatValue | src/bin/02.rs:49-57 | a repeated block's value is the block's value times the multiplier |
| Day02Digits.ScaledRep | src/bin/02.rs:49-57 | a block's value times the multiplier for k copies is the first k - 1 copies shifted past one block, plus the block |
| Day02Digits.RepGeometric | src/bin/02.rs:51-53 | the geometric series times 10^s - 1 is 10^(s*k) - 1 |
| Day02Digits.MultiplierIsRep | src/bin/02.rs:53 | `(pow10_len - 1) / (pow10_sub - 1)` is the repeated-block multiplier |
| Day02.Pow10Table | src/bin/02.rs:3-15 | the table has 11 entries and entry i is 10^i |
| Day02.U64Digits | src/bin/02.rs:17-19 | a u64 has at most 20 digits |
| Day02.CheckedMul | src/bin/02.rs:56 | `checked_mul` gives the product exactly when it fits in u64 |
| Day02.HasRepeatingPattern | src/bin/02.rs:37-64 | the loop returns true exactly when some block length dividing the digit count passes the test |
| Day02.CheckMeaning | src/bin/02.rs:41-60 | a block length passes exactly when the digits are one block of that length written k times |
| Day02.RepeatedMeaning | src/bin/02.rs:37-64 | part two's test holds exactly when the digits are a block written two or more times |
| Day02.TwiceMeaning | src/bin/02.rs:21-35 | part one's test holds exactly when the digits are a block written twice |
| Day02.TwiceUnfold | src/bin/02.rs:28-34 | with an even digit count the test compares the high and low halves |
| Day02.HasPatternRepeatedTwice | src/bin/02.rs:21-35 | the test itself; what it means is stated by Day02.TwiceMeaning |
| Day02.Check | src/bin/02.rs:46-60 | one block length's test; what it means is stated by Day02.CheckIs and Day02.CheckMeaning |
| Day02.CheckIs | src/bin/02.rs:49-57 | a block length passes exactly when the leading block times the multiplier gives back n |
| Day02.TwiceIsRepeated | src/bin/02.rs:21-64 | every id invalid in part one is invalid in part two |
| Day02.ParseRange | src/bin/02.rs:66-71 | None unless the first two '-'-separated parts parse as u64 |
| Day02.ParseRangeRendered | src/bin/02.rs:66-71 | "a-b" reads back as (a, b) |
| Day02.TotalStep | src/bin/02.rs:76-84 | each parsed range adds the sum of its invalid ids |
| Day02.TotalSnoc | src/bin/02.rs:76-84 | the total over ranges is the total over all but the last plus the last range's invalid ids |
| Day02.ParsedPrefix | src/bin/02.rs:76-77 | one more range that parses keeps every range so far parsed |
| Day02.IsInvalid | src/bin/02.rs:79-98 | each part applies its own test |
| Day02.SumRange | src/bin/02.rs:79-83 | the inner loop sums the invalid ids of start..=end |
| Day02.AddIfInvalid | src/bin/02.rs:79-83 | one pass of the inner loop extends the sum over start..n to start..=n |
| Day02.SumInvalid | src/bin/02.rs:73-103 | None exactly when a range fails to parse, else the sum of all ranges' invalid ids |
| Day02.PartOne | src/bin/02.rs:73-87 | part one with the repeated-twice test |
| Day02.PartTwo | src/bin/02.rs:89-103 | part two with the repeated-block test |
| Day03.Digits | src/bin/03.rs:4 | each character becomes its digit value, below 10 |
| Day03.Max | src/bin/03.rs:7-12 | the maximum of a list, 0 when empty |
| Day03.FirstAt | src/bin/03.rs:17-21 | the first position holding a value |
| Day03.LargestButLast | src/bin/03.rs:6-12 | the first loop finds the largest digit but the last |
| Day03.SecondLargest | src/bin/03.rs:14-25 | the second loop finds the largest digit after the first occurrence of the largest |
| Day03.VisitSecond | src/bin/03.rs:14-25 | one pass of the second loop keeps the record of the largest digit after the first largest |
| Day03.MaxDigit | src/bin/03.rs:7-12 | the largest of some digits is itself a digit |
| Day03.FindLargestNumber | src/bin/03.rs:3-33 | the result is the two-digit joltage and is at most 99 |
| Day03.JoltageAtMost99 | src/bin/03.rs:32 | ten times a digit plus a digit is at most 99 |
| Day03.LargestFirstAt | src/bin/03.rs:6-21 | the largest digit's first occurrence lies before the last position |
| Day03.JoltageIsAPair | src/bin/03.rs:32 | the joltage is 10 * d[i] + d[j] for some i < j |
| Day03.JoltageIsBest | src/bin/03.rs:32 | no pair i < j forms a larger number |
| Day03.Joltage | src/bin/03.rs:32 | `largest * 10 + second_largest`; Day03.JoltageIsAPair and Day03.JoltageIsBest state that it is the largest two-digit number formed by a pair i < j |
| Day03.PartOne | src/bin/03.rs:35-39 | part one sums the lines' joltages, at most 99 per line |
| Day03.SumJoltageSnoc | src/bin/03.rs:35-39 | the sum over one more line adds that line's joltage |
| Day04.CountPrefix | src/bin/04.rs:17-29 | the rolls among the first k offsets are at most k |
| Day04.NeighbourCount | src/bin/04.rs:15-31 | at most 8 neighbouring rolls |
| Day04.AsWrittenOnSquare | src/bin/04.rs:21-25 | on a square grid the as-written bounds test counts what the corrected one counts |
| Day04.AsWrittenPanicsOnWideGrid | src/bin/04.rs:21-25 | on one row of two rolls the as-written test panics where the cell is accessible |
| Day04.CountPrefixBelow | src/bin/04.rs:15-31 | clearing cells never raises a neighbour count |
| Day04.AccessibleStays | src/bin/04.rs:65-67 | an accessible cell stays accessible as rolls are removed |
| Day04.AccessibleAtMostOccupied | src/bin/04.rs:41-47 | part one counts occupied cells only |
| Day04.Clear | src/bin/04.rs:67 | setting a cell to '.' only clears cells |
| Day04.Sweep | src/bin/04.rs:63-71 | a pass keeps the grid's shape and only clears cells |
| Day04.SweepRemoves | src/bin/04.rs:63-71 | a pass counts exactly the cells it clears |
| Day04.SweepFindsNothing | src/bin/04.rs:61-72 | a pass that counts nothing leaves the grid unchanged and found no removable cell |
| Day04.Peel | src/bin/04.rs:61-72 | the fixpoint keeps the grid's shape |
| Day04.PeelRemoves | src/bin/04.rs:61-72 | part two's total is the number of cells it cleared |
| Day04.PeelStable | src/bin/04.rs:61-72 | when part two stops no occupied cell is accessible |
| Day04.PeelClearsAccessible | src/bin/04.rs:65-68 | every cell accessible at the start is removed |
| Day04.PartTwoBounds | src/bin/04.rs:33-75 | part one's count ≤ part two's count ≤ the occupied cells |
| Day04.Cells | src/bin/04.rs:34-37 | the grid read row by row |
| Day04.ParseMap | src/bin/04.rs:34-37 | one row per line, holding the line's characters |
| Day04.IsAccessible | src/bin/04.rs:15-31 | fewer than 4 neighbouring rolls, each neighbour checked against the grid's own bounds |
| Day04.CountAsWritten | src/bin/04.rs:15-31 | the neighbour count with the source's bounds test; Day04.AsWrittenOnSquare and Day04.AsWrittenPanicsOnWideGrid state where it agrees and where it fails |
| Day04.OffsetAsWritten | src/bin/04.rs:21-25 | one offset of the bounds test as written, None where it indexes outside the grid; Day04.AsWrittenOnSquare (agreement on square grids) and Day04.AsWrittenPanicsOnWideGrid (the panic on `@@`) state its meaning |
| Day04.PartOne | src/bin/04.rs:33-50 | the occupied cells that are accessible |
| Day04.RemovalPass | src/bin/04.rs:63-71 | one in-place pass clears and counts what the row-major sweep does |
| Day04.PartTwo | src/bin/04.rs:52-75 | passes repeat until one removes nothing; the total removed |
| Day05.ParseRangeLine | src/bin/05.rs:9-11 | the trimmed parts before and after the first '-' as u64s |
| Day05.Inventory | src/bin/05.rs:7-17 | part one's reading of ranges and ids; Day05.SameRanges, Day05.InventoryFails and Day05.ReadInventory state it |
| Day05.RangesOf | src/bin/05.rs:36-43 | part two's reading of the range lines; Day05.SameRanges and Day05.RangesFail state it |
| Day05.SameRanges | src/bin/05.rs:7-43 | part two reads the same ranges as part one |
| Day05.RangeLineRendered | src/bin/05.rs:8-11 | "a-b" reads back as (a, b) |
| Day05.IntervalMembers | src/bin/05.rs:23 | s..=e holds exactly the ids between the bounds, e - s + 1 of them |
| Day05.PointsCovers | src/bin/05.rs:22-27 | an id is covered exactly when some range contains it |
| Day05.PointsPermutation | src/bin/05.rs:46 | sorting the ranges does not change the covered ids |
| Day05.FreshMeaning | src/bin/05.rs:21-28 | an id is kept exactly when listed and covered, and no listed id is kept twice |
| Day05.FreshOf | src/bin/05.rs:19-30 | the filtered ids; Day05.FreshMeaning states which ids it keeps |
| Day05.GappedApart | src/bin/05.rs:45-57 | in gapped ranges any later range starts more than one past an earlier one's end |
| Day05.InSomeRange | src/bin/05.rs:22-27 | the inner loop finds whether some range contains the id |
| Day05.ReadInventory | src/bin/05.rs:7-17 | the reading loop of part one |
| Day05.InventoryFails | src/bin/05.rs:10-14 | a line that fails to parse gives None |
| Day05.PartOne | src/bin/05.rs:3-31 | None on a parse failure, else the number of listed ids some range contains |
| Day05.SpanJoin | src/bin/05.rs:49-50 | widening the last range covers both ranges |
| Day05.PointsSnoc | src/bin/05.rs:52 | pushing a range adds its ids |
| Day05.Merge | src/bin/05.rs:45-57 | merged ranges are ordered, sorted by start, separated by gaps, and cover the same ids |
| Day05.GrowLast | src/bin/05.rs:49-50 | the last range swallows an overlapping or adjacent one |
| Day05.PushRange | src/bin/05.rs:51-52 | a range past the gap opens a new merged range |
| Day05.GappedSorted | src/bin/05.rs:45-57 | gapped ranges are sorted and every later one starts past an earlier one's end plus one |
| Day05.TotalCounts | src/bin/05.rs:59-62 | the sizes of gapped ranges add up to the number of covered ids |
| Day05.SumSizes | src/bin/05.rs:59-62 | the sum loop adds the merged ranges' sizes |
| Day05.ReadRanges | src/bin/05.rs:36-43 | the reading loop of part two |
| Day05.RangesFail | src/bin/05.rs:39-40 | a range line that fails to parse gives None |
| Day05.PartTwo | src/bin/05.rs:33-65 | None on a parse failure, else the number of distinct ids the ranges cover |
| Day06.ParseRowFails | src/bin/06.rs:7-12 | a number row fails exactly when one of its tokens is not a u64 |
| Day06.ParseRow | src/bin/06.rs:7-12 | one number row as u64s; Day06.ParseRowFails (None exactly when some token is not a u64) and Day06.RowRendered (rendered rows read back) state its meaning |
| Day06.Terms | src/bin/06.rs:4-13 | the number rows, every line before the last; Day06.ParseRowsFail states that it fails exactly when some row does |
| Day06.Operators | src/bin/06.rs:15-20 | the operator row, the last line split at whitespace; Day06.OperatorsTrimmed states that `trim` leaves its tokens unchanged |
| Day06.Answer | src/bin/06.rs:25-36 | one column's answer; Day06.AddColumn (a '+' column is the sum of its terms) and Day06.MultiplyColumn (a '*' column is their product) state its meaning |
| Day06.ParseRowsFail | src/bin/06.rs:4-13 | the rows fail exactly when some row holds such a token |
| Day06.RowRendered | src/bin/06.rs:7-12 | a row of numbers written with single spaces reads back as those numbers |
| Day06.OperatorsTrimmed | src/bin/06.rs:15-20 | `op.trim()` leaves the whitespace-split operator tokens unchanged |
| Day06.PartOne | src/bin/06.rs:3-42 | None exactly when a number row fails, else the sum over columns of each column's answer |
| Day06.Homework | src/bin/06.rs:22-41 | the sum of the first n column answers; Day06.AllPlusAddsEverything and Day06.RowTotalsStep state what it adds |
| Day06.RowTotalsZero | src/bin/06.rs:22-41 | no columns total 0 |
| Day06.AddColumn | src/bin/06.rs:26-30 | a '+' column is the sum of its terms |
| Day06.MultiplyColumn | src/bin/06.rs:31-36 | a '*' column is the product of its terms |
| Day06.RowTotalsStep | src/bin/06.rs:24-39 | adding a column adds its sum to the row totals |
| Day06.AllPlusAddsEverything | src/bin/06.rs:22-41 | when every operator is '+', part one adds every number on the sheet |
| Day06.Column | src/bin/06.rs:61-67 | a column's text has at most one character per row |
| Day06.Numbers | src/bin/06.rs:58-76 | entry c is column c's trimmed text read as a number |
| Day06.ColumnReadsDown | src/bin/06.rs:62-67 | with rows long enough, the column lists row r's byte at that position |
| Day06.ReadNumberPadded | src/bin/06.rs:69-74 | a number with blanks above and below reads back as itself |
| Day06.ReadNumberBlank | src/bin/06.rs:70-71 | a blank column gives no number |
| Day06.ReadNumber | src/bin/06.rs:69-74 | a column's trimmed text read as a number; Day06.ReadNumberPadded and Day06.ReadNumberBlank state it |
| Day06.ReadColumn | src/bin/06.rs:61-67 | the inner loop builds the column's text |
| Day06.NextOperator | src/bin/06.rs:84-103 | the first operator column at or after c, with none in between |
| Day06.Worksheet | src/bin/06.rs:84-103 | the answers of the problems from an operator column on; Day06.LeadingColumnsDropped, Day06.SingleProblem and Day06.NoMoreProblems state it |
| Day06.Evaluate | src/bin/06.rs:78-105 | the right-to-left scan adds up, per operator column, the sum or product of its problem's columns |
| Day06.PartTwo | src/bin/06.rs:44-106 | None exactly when there is no number row or the operator row is empty, else the scan's result |
| Day06.LeadingColumnsDropped | src/bin/06.rs:84-103 | columns left of the first operator are dropped |
| Day06.SingleProblem | src/bin/06.rs:84-103 | one operator in the first column makes one problem over every column |
| Day06.NoMoreProblems | src/bin/06.rs:84-103 | past the last operator nothing is added |
| Day07.CountCoveringZero | src/bin/07.rs:22-28 | the filter count is 0 exactly when no recorded beam passes through the cell |
| Day07.CountCovering | src/bin/07.rs:22-28 | the filter count over the recorded beams; Day07.CountCoveringZero states when it is 0 |
| Day07.FirstSplitter | src/bin/07.rs:15-16 | the first row of the column with a splitter among the rows the loop visits lies in that range and holds a splitter |
| Day07.FirstSplitterMeaning | src/bin/07.rs:15-16 | no splitter is found exactly when the column is clear, and the rows before a found one are clear |
| Day07.SplitsHitAppend | src/bin/07.rs:17 | the splitters hit by a longer record are those of the shorter record plus those of the added beams |
| Day07.SplitsGrow | src/bin/07.rs:30-53 | a nested call's recorded splitters join those recorded before it |
| Day07.SplitsHitAreSplitters | src/bin/07.rs:16-17 | every splitter hit is a splitter of the diagram |
| Day07.FireSplit | src/bin/07.rs:16-54 | at the first splitter the beam and the splitter are recorded and both sides fired, giving the same record as Fire |
| Day07.Side | src/bin/07.rs:22-54 | one side of a splitter fires a beam exactly when no recorded beam covers that cell; Day07.FireSide is proved against it |
| Day07.FireSide | src/bin/07.rs:22-37 | one side fires exactly when no recorded beam passes there, extending the record as Fire does |
| Day07.RecordSplit | src/bin/07.rs:16-20 | the beam recorded at the first splitter stops right above it and adds exactly that splitter to the hits |
| Day07.FireAtSplitter | src/bin/07.rs:16-54 | Fire at a splitter is the record after the left side, then the right side |
| Day07.Fire | src/bin/07.rs:7-65 | the record fire_beam leaves, as a function of its arguments; Day07.FireBeam is proved against it |
| Day07.SplitsHit | src/bin/07.rs:16-19 | the splitters right below the beams recorded at a splitter; Day07.SplitsHitAreSplitters states they are splitters |
| Day07.FireBeam | src/bin/07.rs:7-65 | the new record is Fire of the old one: it extends the old record, starts with this beam, every beam stops at a splitter (ending a row above) or at the bottom, every recursively fired beam starts in a cell no earlier beam covers, and `splits` gains exactly the splitters right below the recorded beams |
| Day07.Extend | src/bin/07.rs:30-53 | a nested call's record keeps what the record already promised |
| Day07.RowSplittersMeaning | src/bin/07.rs:127-133 | one line's splitters are exactly its '^' cells |
| Day07.SplittersMeaning | src/bin/07.rs:126-136 | the splitters are exactly the '^' cells of the diagram |
| Day07.RowStartMeaning | src/bin/07.rs:127-133 | a line has a start exactly when it holds an 'S', and it is the last one |
| Day07.LastStartMeaning | src/bin/07.rs:120-136 | the start is the last 'S' in reading order, or (0, 0) when there is none |
| Day07.ReadDiagram | src/bin/07.rs:119-136 | the scan yields that start, the splitters in reading order and the last row index |
| Day07.Traced | src/bin/07.rs:119-138 | the record of beams fired from the last 'S' with the last row index plus one as height |
| Day07.PartOne | src/bin/07.rs:119-143 | the result is the number of distinct splitters right below the beams Fire records from the diagram's start, and at most the number of splitters |
| Day07.Timelines | src/bin/07.rs:67-89 | every beam ends at least one timeline |
| Day07.TimelinesAreHitsPlusOne | src/bin/07.rs:96-116 | the number of finished beams is one plus the number of splitter hits |
| Day07.FireQuantumBeam | src/bin/07.rs:67-89 | the recursion adds the beam's timeline count to `beams` |
| Day07.FireQuantumBeamIterative | src/bin/07.rs:91-117 | the stack version returns the same count as the recursion |
| Day08.ParseBox | src/bin/08.rs:6-14 | the first three comma-separated fields read as i32 coordinates |
| Day08.ParseBoxRendered | src/bin/08.rs:6-14 | a box written as `x,y,z` (with any further fields) reads back as that box |
| Day08.BoxLineFields | src/bin/08.rs:7-9 | such a line splits into the three signed numerals and the extra fields |
| Day08.ParseFields | src/bin/08.rs:6-14 | a line whose first three fields are those numerals reads as that box |
| Day08.Boxes | src/bin/08.rs:49 | one box per line, each the parse of its line |
| Day08.Dist2 | src/bin/08.rs:16-21 | the squared distance is never negative |
| Day08.Dist2Symmetric | src/bin/08.rs:16-21 | the squared distance does not depend on the order of the boxes |
| Day08.Dist2Zero | src/bin/08.rs:16-21 | the squared distance is 0 exactly when the boxes are equal |
| Day08.AllPairs | src/bin/08.rs:24-38 | every listed pair has indices i < j below the number of boxes |
| Day08.AllPairsSorted | src/bin/08.rs:24-38 | the nested loops followed by the stable sort give the specified pair list |
| Day08.AllPairsMembers | src/bin/08.rs:28-33 | a pair is listed exactly when i < j < n and its distance is that of boxes i and j |
| Day08.AllPairsOrder | src/bin/08.rs:24-38 | n(n-1)/2 pairs, a permutation of the loops' output, sorted by distance, with ties in loop order |
| Day08.Position | src/bin/08.rs:65-67 | the index of the first circuit holding the box, or None exactly when no circuit holds it |
| Day08.Linked | src/bin/08.rs:60-61 | the connected pairs are looked up as pairs of boxes |
| Day08.TouchedGrows | src/bin/08.rs:54-116 | a box touched by the connections so far stays touched after one more |
| Day08.SeparateShrinks | src/bin/08.rs:54-116 | a prefix of connections between distinct boxes is itself between distinct boxes |
| Day08.JoinedGrows | src/bin/08.rs:54-116 | when both ends of a new connection share a circuit, every connection so far joins boxes of one circuit |
| Day08.SameKeeps | src/bin/08.rs:70 | two boxes already in one circuit: the circuits are unchanged and stay valid |
| Day08.FreshKeeps | src/bin/08.rs:104-106 | two boxes in no circuit: a new two-box circuit keeps the circuits valid |
| Day08.AttachKeeps | src/bin/08.rs:93 | pushing the box that has no circuit onto the other's circuit keeps the circuits valid |
| Day08.Removed | src/bin/08.rs:72 | `remove` shifts every later circuit down by one |
| Day08.AfterRemove | src/bin/08.rs:77-81 | the adjusted index still names circuit a after circuit b is removed |
| Day08.Merged | src/bin/08.rs:72-82 | merging removes circuit b and leaves one circuit fewer |
| Day08.MergedAt | src/bin/08.rs:72-82 | circuit a's slot holds a followed by b; every other circuit is moved unchanged |
| Day08.Moved | src/bin/08.rs:72-82 | every box of every circuit ends up in the merged circuit at the moved index |
| Day08.MergeDisjoint | src/bin/08.rs:72-82 | merging keeps circuits pairwise disjoint |
| Day08.MergeNoRepeats | src/bin/08.rs:72-82 | merging keeps every circuit free of repeated boxes |
| Day08.MergeKeeps | src/bin/08.rs:66-83 | merging two circuits on a new connection keeps the circuits valid |
| Day08.ReachesTrans | src/bin/08.rs:54-116 | chains of connected pairs compose |
| Day08.ConnectedJoin | src/bin/08.rs:72-106 | two circuits each internally joined by chains become one joined circuit once a connection links them |
| Day08.AttachConnected | src/bin/08.rs:84-101 | pushing the connection's other box onto a circuit keeps every circuit internally joined |
| Day08.AttachNoRepeats | src/bin/08.rs:84-101 | pushing a box not yet in the circuit keeps it free of repeated boxes |
| Day08.WalkTogether | src/bin/08.rs:54-116 | boxes joined by a chain of connections share a circuit |
| Day08.CircuitsAreComponents | src/bin/08.rs:54-116 | two different boxes share a circuit exactly when a chain of connections joins them: the circuits are the connected components |
| Day08.Connect | src/bin/08.rs:54-116 | after the first `connections` pairs the circuits are disjoint, repeat-free, at least two boxes each, hold exactly the touched boxes, each connection's ends share a circuit, and every circuit is joined by chains of connections, so the circuits are the connected components |
| Day08.Wire | src/bin/08.rs:60-107 | one connection merges, extends or creates a circuit so that the circuit invariant, connectivity included, holds for the connections made so far plus this one |
| Day08.WiredSeparate | src/bin/08.rs:52-54 | the sorted pairs connect distinct indices, hence distinct boxes when boxes are distinct |
| Day08.SortedPrefix | src/bin/08.rs:118 | the first n of a sorted list are drawn from it and no left-out element has a smaller key |
| Day08.SortedTop | src/bin/08.rs:118-124 | the first three after sorting by decreasing size are three largest circuits |
| Day08.LargestProduct | src/bin/08.rs:118-124 | None exactly when there are fewer than three circuits (the indexing panic), else the product of three largest circuits' sizes |
| Day08.PartOne | src/bin/08.rs:40-125 | the circuits are the connected components of the first `connections` closest pairs; the result is the product of the three largest sizes, None exactly when fewer than three circuits form |
| Pairs.SortedPairs | src/bin/08.rs:24-38 | the generic pair list has indices i < j < n |
| Pairs.RowMembers | src/bin/08.rs:29-32 | the inner loop lists exactly the pairs (i, j') with j' below its bound |
| Pairs.RowIncreasing | src/bin/08.rs:29-32 | the inner loop's pairs come in increasing order, all with first index i, and there are j - i - 1 of them |
| Pairs.GeneratedMembers | src/bin/08.rs:28-33 | the nested loops list exactly the proper pairs with first index below the outer bound |
| Pairs.GeneratedIncreasing | src/bin/08.rs:28-33 | the nested loops list pairs in increasing (i, j) order |
| Pairs.GeneratedCount | src/bin/08.rs:28-33 | after i outer rounds the loops have listed i(2n - i - 1)/2 pairs |
| Pairs.SortedPairsMembers | src/bin/08.rs:24-38 | a pair is in the sorted list exactly when it is proper |
| Pairs.SortedPairsSpec | src/bin/08.rs:24-38 | the sorted list has n(n-1)/2 pairs, is a permutation of the loops' output and is sorted by the key |
| Pairs.WithKeyIncreasing | src/bin/08.rs:36 | pairs of one key, taken from an increasing list, are increasing |
| Pairs.SortedPairsTiesInOrder | src/bin/08.rs:36 | the stable sort keeps pairs of equal key in loop order |
| Sorting.Insert | src/bin/08.rs:36 | inserting into a sorted list gives a sorted list with one more copy of the element |
| Sorting.SortBy | src/bin/08.rs:36 | `sort_by_key` gives a sorted permutation of its input |
| Sorting.WithKeyAppend | src/bin/08.rs:36 | filtering by key distributes over concatenation |
| Sorting.InsertStable | src/bin/08.rs:36 | insertion places the element before all elements of its key that follow it |
| Sorting.SortByStable | src/bin/08.rs:36 | the sort is stable: elements of one key keep their input order |
| Sorting.SortBySorted | src/bin/08.rs:36 | an already sorted list is left as it is |
| Day09.ParseTile | src/bin/09.rs:6-14 | the first two comma-separated fields read as i32 coordinates |
| Day09.ParseTileRendered | src/bin/09.rs:6-14 | a tile written as `x,y` (with any further fields) reads back as that tile |
| Day09.TileLineFields | src/bin/09.rs:7-9 | such a line splits into the two signed numerals and the extra fields |
| Day09.Tiles | src/bin/09.rs:37 | one tile per line, each the parse of its line |
| Day09.AllAreas | src/bin/09.rs:16-34 | every listed pair has indices i < j below the number of tiles |
| Day09.AllPairsSorted | src/bin/09.rs:16-34 | the nested loops followed by the stable sort by decreasing area give the specified list |
| Day09.AllAreasMembers | src/bin/09.rs:20-29 | a pair is listed exactly when i < j < n and its area is the given area function of tiles i and j |
| Day09.AllAreasOrder | src/bin/09.rs:16-34 | n(n-1)/2 pairs, a permutation of the loops' output, areas non-increasing, ties in loop order |
| Day09.NoPairs | src/bin/09.rs:40 | there are no pairs exactly when there are fewer than two tiles |
| Day09.LargestArea | src/bin/09.rs:36-43 | for any area function: None exactly when there are fewer than two tiles, else the largest area over all pairs, attained by some pair |
| Day09.PartOne | src/bin/09.rs:36-43 | None exactly when there are fewer than two tiles, else the largest as-written area over all pairs, attained by some pair |
| Day09.PartOneCorrected | src/bin/09.rs:36-43 | with the intended tile-count area: None exactly when there are fewer than two tiles, else the most tiles a rectangle between two tiles covers, attained by some pair |
| Day09.LargestAreaFirst | src/bin/09.rs:39-42 | the first pair of the sorted list has the largest area |
| Day09.AreaCountsTilesWhenOrdered | src/bin/09.rs:22-25 | when the first tile is at least the second in both coordinates, the as-written area counts the tiles of the rectangle |
| Day09.AreaAsWrittenUndercounts | src/bin/09.rs:22-25 | tiles (0,0) and (2,0): the as-written area is 1, the rectangle has 3 tiles |
| Day09.TileAreaSymmetric | src/bin/09.rs:22-25 | the tile count is symmetric, at least 1, and |dx| + 1 for tiles on one row |
| Day09.Area | src/bin/09.rs:22-25 | the area as written; Day09.AreaCountsTilesWhenOrdered and Day09.AreaAsWrittenUndercounts state where it counts tiles and where not |
| Day09.TileArea | src/bin/09.rs:22-25 | the intended tile count of the rectangle; Day09.TileAreaSymmetric and Day09.PartOneCorrected state it |
| Day09.SearchTop | src/bin/09.rs:67-76 | the loop ends where the functional search TopSearch ends, on a boundary within the searched range |
| Day09.TopHalve | src/bin/09.rs:70-75 | one halving shrinks the range, keeps where the search ends, and keeps the boundary facts |
| Day09.TopSearchFindsFirst | src/bin/09.rs:67-76 | on that boundary every earlier point is at or right of the corner and, when the range is not exhausted, the rest up to the bound are left of it |
| Day09.SearchBottom | src/bin/09.rs:100-109 | the loop ends where the functional search BottomSearch ends, on a boundary within its range |
| Day09.BottomHalve | src/bin/09.rs:103-108 | one halving shrinks the range, keeps where the search ends, and keeps the boundary facts |
| Day09.TopSearchBounds | src/bin/09.rs:67-76 | the top search ends inside the range it searches |
| Day09.BottomSearchBounds | src/bin/09.rs:100-109 | the bottom search ends inside the range it searches |
| Day09.TopLo | src/bin/09.rs:62-76 | the top search from `mid_top` ends at most at `mid_top / 2` |
| Day09.BottomLo | src/bin/09.rs:95-109 | the bottom search from `mid_bot` ends between `(n + mid_bot) / 2` and the last point |
| Day09.BottomSearchFindsLast | src/bin/09.rs:100-109 | on that boundary every later point is at or right of the corner and the earlier ones down to the start are left of it |
| Day09.MaxXIsMaximum | src/bin/09.rs:85-86 | `max_x` is the largest x seen so far, or 0 |
| Day09.BestIsMaximum | src/bin/09.rs:83-93 | the running maximum is at least its start and every record candidate, and equals the start or one of them |
| Day09.BestGrows | src/bin/09.rs:83-93 | the running maximum never decreases as the scan goes on |
| Day09.DownVisits | src/bin/09.rs:80-92 | the downward scan visits points from the start index backwards: the k-th visited point is points[start - k] |
| Day09.VisitDown | src/bin/09.rs:80-92 | one pass of the top scan extends `max_x` and the running maximum by the next point down |
| Day09.ScanTop | src/bin/09.rs:79-93 | None exactly when the scan would run off the front (a panic), else the running maximum over the points it visits |
| Day09.ScanBottom | src/bin/09.rs:112-125 | None exactly when the scan would run off the end (a panic), else the running maximum over the points it visits |
| Day09.TopHalf | src/bin/09.rs:62-93 | the top half's search ends at TopLo, and its scan gives None exactly when it runs off the front |
| Day09.BottomHalf | src/bin/09.rs:95-125 | the bottom half's search ends at BottomLo, and its scan gives None exactly when it runs off the end |
| Day09.GetMaxArea | src/bin/09.rs:57-127 | None exactly when there are fewer than three points or a scan from the searched point runs off the list, else the maximum over both scans from TopLo and BottomLo |
| Day09.StopsUnique | src/bin/09.rs:79-125 | each scan can stop at only one index, so the result is determined by the tiles |
| Day09.MaxAreaIsMaximum | src/bin/09.rs:57-127 | the result is at least 0 and every record candidate of either scan, and is 0 or one of them |
| Day09.MaxArea | src/bin/09.rs:57-127 | what get_max_area returns once both scans ran; Day09.MaxAreaIsMaximum states that it is at least 0, at least every candidate area, and attained |
| Day09.PartTwo | src/bin/09.rs:129-140 | None exactly when fewer than three tiles are read or a scan runs off the list; else the maximum over both scans, with the searches' results pinned to TopLo and BottomLo |
| Day10Combos.Pick | src/bin/10.rs:17-19 | picking by a list of indices gives one item per index |
| Day10Combos.PickAt | src/bin/10.rs:17-19 | entry t of the pick is the item at the t-th index |
| Day10Combos.PickAll | src/bin/10.rs:11-13 | one pushed combination per index list |
| Day10Combos.PickAllAt | src/bin/10.rs:11-13 | each pushed combination is the current prefix followed by the picked items |
| Day10Combos.Prepend | src/bin/10.rs:18-20 | choosing index i first puts i in front of every continuation |
| Day10Combos.Multichoose | src/bin/10.rs:4-22 | every index list `helper` follows stays below the number of items |
| Day10Combos.MultichooseUpTo | src/bin/10.rs:17-21 | the loop's index lists so far stay below the number of items |
| Day10Combos.Helper | src/bin/10.rs:4-22 | `helper` appends to `result` the combinations the index lists from `start` describe, after the current prefix |
| Day10Combos.Branch | src/bin/10.rs:17-21 | one pass of the loop: pushing item i and recursing from i extends the result by the combinations whose first index is i |
| Day10Combos.BranchStep | src/bin/10.rs:17-21 | what the recursive call appends is exactly the block of index lists that start with i |
| Day10Combos.PickAllDone | src/bin/10.rs:11-13 | a full current list is pushed as the one combination |
| Day10Combos.PickAllStep | src/bin/10.rs:17-21 | one round of the loop appends the combinations that start with item i |
| Day10Combos.HelperStep | src/bin/10.rs:17-21 | the calls for index i, with one item fewer left to choose, extend the result by the combinations whose first index is i |
| Day10Combos.CombinationsWithRepetition | src/bin/10.rs:3-28 | the result lists the items picked by each non-decreasing index list of length k, in `helper`'s order |
| Day10Combos.PrependMembers | src/bin/10.rs:17-19 | a list is a prepended continuation exactly when it starts with i and its tail is a continuation |
| Day10Combos.MultichooseMembers | src/bin/10.rs:4-22 | `helper` visits exactly the non-decreasing index lists of length r from `start` |
| Day10Combos.MultichooseUpToMembers | src/bin/10.rs:17-21 | the loop so far visits exactly those lists whose first index is below the bound |
| Day10Combos.MultichoiceTail | src/bin/10.rs:19 | the recursive call continues from the chosen index |
| Day10Combos.MultichoiceCons | src/bin/10.rs:17-19 | a chosen index followed by a continuation from it is a valid choice |
| Day10Combos.MultichooseDistinct | src/bin/10.rs:4-22 | `helper` never visits the same index list twice |
| Day10Combos.MultichooseUpToDistinct | src/bin/10.rs:17-21 | the loop's index lists so far are distinct |
| Day10Combos.CombinationsWithRepetitionSpec | src/bin/10.rs:3-28 | the combinations are exactly the multisets of k items (as sorted index lists), each once |
| Day10Combos.Append | src/bin/10.rs:170-174 | pushing t onto each combination keeps their number |
| Day10Combos.AppendAt | src/bin/10.rs:170-174 | each combination gains t at its end |
| Day10Combos.Range | src/bin/10.rs:164-166 | the positions lo..hi in order |
| Day10Combos.RangeSuffix | src/bin/10.rs:168 | the tail of the positions after m is the positions from lo + m |
| Day10Combos.ChoiceBound | src/bin/10.rs:164 | a chosen position leaves room for the positions chosen after it |
| Day10Combos.AppendMembers | src/bin/10.rs:170-174 | a list is in the pushed block exactly when it ends with t and its front was in the block |
| Day10Combos.ChoiceFront | src/bin/10.rs:168-173 | dropping the pushed last position leaves a choice from after it |
| Day10Combos.ChoiceSnoc | src/bin/10.rs:168-173 | a choice from after position t, followed by t, is a valid choice |
| Day10Combos.CombosMembers | src/bin/10.rs:160-179 | `get_combinations` on positions lists exactly the strictly decreasing position lists of length c |
| Day10Combos.Combos | src/bin/10.rs:160-179 | `get_combinations`; Day10Combos.CombosMembers (exactly the strictly decreasing position lists of length count), Day10Combos.CombosDistinct (each once) and Day10Combos.CombosCount (C(n, count) of them) state its meaning |
| Day10Combos.Choices | src/bin/10.rs:164-177 | the `flat_map` over the first m elements; Day10Combos.ChoicesMembers and Day10Combos.ChoicesCount state its members and its count |
| Day10Combos.ChoicesMembers | src/bin/10.rs:164-177 | its first m blocks list those whose last position is below lo + m |
| Day10Combos.BlockMembers | src/bin/10.rs:167-176 | block m lists those whose last position is lo + m - 1 |
| Day10Combos.CombosDistinct | src/bin/10.rs:160-179 | `get_combinations` lists no combination twice |
| Day10Combos.ChoicesDistinct | src/bin/10.rs:164-177 | its blocks so far list no combination twice |
| Day10Combos.AppendDistinct | src/bin/10.rs:170-174 | pushing the same position onto distinct lists keeps them distinct |
| Day10Combos.DistinctConcat | src/bin/10.rs:176-177 | blocks with no list in common join into a list without repeats |
| Day10Combos.PickAllConcat | src/bin/10.rs:176-177 | picking distributes over concatenated blocks |
| Day10Combos.PickAllPrepend | src/bin/10.rs:17-21 | picking lists that all start with position i gives the picks of their tails, each after item i |
| Day10Combos.PickAllAppend | src/bin/10.rs:170-174 | picking commutes with pushing a position |
| Day10Combos.CombosPositions | src/bin/10.rs:160-179 | every position list stays below the bound |
| Day10Combos.ChoicesPositions | src/bin/10.rs:164-177 | likewise for the blocks so far |
| Day10Combos.CombosPick | src/bin/10.rs:160-179 | `get_combinations` on items is the items picked by its run on positions |
| Day10Combos.ChoicesPick | src/bin/10.rs:164-177 | likewise block by block |
| Day10Combos.ChoicesStepShape | src/bin/10.rs:167-176 | the first m blocks are the first m - 1 blocks followed by block m, which pushes position lo + m - 1 onto the combinations of c - 1 after it |
| Day10Combos.ChoicesPickStep | src/bin/10.rs:167-176 | picking on positions matches the run on items for m blocks once it does for m - 1 blocks and for the tail |
| Day10Combos.Subsets | src/bin/10.rs:152-158 | `subsets` concatenates the combinations of every size 0..=n |
| Day10Combos.SubsetsWithin | src/bin/10.rs:152-158 | every element of every subset is one of the items |
| Day10Combos.SubsetsMembers | src/bin/10.rs:152-158 | on positions, the subsets are exactly the strictly decreasing position lists |
| Day10Combos.SubsetsDistinct | src/bin/10.rs:152-158 | no subset is listed twice |
| Day10Combos.BinomialBeyond | src/bin/10.rs:161-164 | there are no combinations of more items than there are |
| Day10Combos.CombosCount | src/bin/10.rs:160-179 | `get_combinations` lists C(n, c) combinations |
| Day10Combos.ChoicesCount | src/bin/10.rs:164-177 | its first m blocks list C(n, c) - C(n - m, c) |
| Day10Combos.BinomialSumStep | src/bin/10.rs:154-156 | Pascal's rule on partial sums of binomials |
| Day10Combos.BinomialSumAll | src/bin/10.rs:154-156 | the binomials of n add up to 2^n |
| Day10Combos.SubsetsUpToCount | src/bin/10.rs:154-156 | the subsets of sizes below c number the partial binomial sum |
| Day10Combos.SubsetsCount | src/bin/10.rs:152-158 | `subsets` lists 2^n subsets |
| Day10Masks.ButtonMask | src/bin/10.rs:90 | a button's mask exists exactly when all its indices are below 32 (no shift panic) |
| Day10Masks.ButtonMaskBits | src/bin/10.rs:90 | bit i of a button's mask is set exactly when the button lists i |
| Day10Masks.BinaryButtons | src/bin/10.rs:87-92 | one mask per button, present exactly when no button has an index of 32 or more |
| Day10Masks.Count | src/bin/10.rs:132 | the number of subset buttons meeting a mask is at most the subset's size |
| Day10Masks.CountAppend | src/bin/10.rs:132 | counting over concatenated lists adds the counts |
| Day10Masks.MeetsBit | src/bin/10.rs:132 | `b & (1 << i) != 0` exactly when bit i is in b |
| Day10Masks.XorParity | src/bin/10.rs:101 | bit i of the XOR of a list is set exactly when an odd number of its masks have bit i |
| Day10Masks.XorAll | src/bin/10.rs:101 | the `fold(0, ^)` of a subset; Day10Masks.XorParity states that bit i is set exactly when an odd number of the masks hold bit i |
| Day10Masks.Parity | src/bin/10.rs:138-144 | `get_binary_joltages`, defined for at most 32 non-negative joltages; Day10Masks.ParityBits states that bit i is set exactly when joltage i is odd |
| Day10Masks.ParityBits | src/bin/10.rs:138-144 | bit i of the binary joltages is set exactly when joltage i is odd |
| Day10Masks.ShiftBit | src/bin/10.rs:133 | `mask <<= 1` moves the mask of counter i to that of counter i + 1 |
| Day10Masks.Halved | src/bin/10.rs:132 | one halved joltage per joltage |
| Day10Masks.NewJoltages | src/bin/10.rs:128-136 | each new joltage is the old one less the subset buttons feeding it, halved toward zero |
| Day10Masks.TruncHalf | src/bin/10.rs:132 | `i32` division by 2, truncating toward zero; Day10Masks.NewJoltages and Day10Masks.HalvedExact state what it yields on the new joltages |
| Day10Masks.HalvedExact | src/bin/10.rs:113-118 | with matching parity and a non-negative result, each joltage is the subset's count on it plus twice the new joltage |
| Day10Masks.SumNonNegative | src/bin/10.rs:110 | non-negative joltages add up to at least 0, to 0 exactly when all are zero |
| Day10Masks.SumBelow | src/bin/10.rs:119 | pointwise smaller non-negative joltages, one strictly, have a smaller sum |
| Day10Masks.SumAtMost | src/bin/10.rs:119 | pointwise smaller or equal joltages have a sum at most as large |
| Day10Masks.HalvedSmaller | src/bin/10.rs:117-119 | the recursive call's joltages add up to less, so the recursion ends |
| Day10.CombineIgnoresNone | src/bin/10.rs:121 | `best.min(c).or(best).or(c)` ignores a missing side and takes the smaller of two present ones |
| Day10.Combine | src/bin/10.rs:121 | `best.min(press_count).or(best).or(press_count)`; Day10.CombineIgnoresNone states that it keeps the smaller count and ignores a missing one |
| Day10.Candidates | src/bin/10.rs:115-123 | entry j is what subset j offers |
| Day10.LeastStep | src/bin/10.rs:121 | folding one more offer in keeps `best` the least offer so far |
| Day10.Fewest | src/bin/10.rs:106-126 | the specified fewest count; Day10.FewestRecur, Day10.BestIsLeast and Day10.FewestSound state it |
| Day10.PressCount | src/bin/10.rs:116-121 | one pass of the subset loop gives that subset's offer: its press count when its XOR matches the parity and the halved joltages stay non-negative |
| Day10.BestIsLeast | src/bin/10.rs:114-125 | `best` is None exactly when no subset offers a count, else the least count offered, attained by some subset |
| Day10.FewestRecur | src/bin/10.rs:106-126 | the recursion returns the specified fewest count |
| Day10.FewestOf | src/bin/10.rs:97-104 | `fewest_joltage_presses`, None where the source panics; Day10.FewestPressesSound states that the count is the length of a press sequence that feeds each counter its joltage |
| Day10.AchievesDoubled | src/bin/10.rs:119-120 | the subset pressed once plus the halved solution pressed twice achieves the joltages |
| Day10.FewestSound | src/bin/10.rs:106-126 | a count the recursion returns is the length of a press sequence of the machine's buttons achieving the joltages |
| Day10.BestSound | src/bin/10.rs:114-125 | the same for the best count over the subsets so far |
| Day10.CandidateSound | src/bin/10.rs:116-121 | the same for one subset's count |
| Day10.AsI32s | src/bin/10.rs:200 | one i32 per parsed joltage |
| Day10.ParseLine | src/bin/10.rs:181-209 | the loop over the parts gives the specified machine, None where the source panics |
| Day10.MachineOf | src/bin/10.rs:181-209 | the machine parse_line returns; Day10.TakenParts states that it exists exactly when every part is accepted, with the buttons of the '(' parts in order |
| Day10.ParseNums | src/bin/10.rs:211-213 | `parse_nums`; Wrappers.CollectFails (None exactly when some comma-separated piece is not a u32) and Wrappers.CollectValues (the values in order) state its meaning |
| Day10.LightsOn | src/bin/10.rs:189-196 | the '[' arm of parse_line: the positions of the '#' lights, stored by Day10.Take when all of them are below 32 |
| Day10.TakenStaysNone | src/bin/10.rs:185-203 | once a part panics the parse stays failed |
| Day10.TakeStep | src/bin/10.rs:186-202 | one part is accepted exactly when it is well formed, and a '(' part pushes its numbers onto the buttons |
| Day10.Take | src/bin/10.rs:186-202 | one part taken into the machine; Day10.TakeStep states when it is accepted and what it adds |
| Day10.TakenStep | src/bin/10.rs:185-203 | the parse survives one more part exactly when the part is accepted, gaining its buttons |
| Day10.TakenParts | src/bin/10.rs:185-203 | the parse succeeds exactly when every part is accepted, and the buttons are the '(' parts' numbers in order |
| Day10.TakenAccepted | src/bin/10.rs:185-203 | the first k parts parse exactly when each of them is accepted on its own |
| Day10.TakenButtons | src/bin/10.rs:185-203 | when the first k parts parse, the machine's buttons are the number lists of their '(' parts, in order |
| Day10.AllAcceptedStep | src/bin/10.rs:185-203 | the first k parts are all accepted exactly when the first k - 1 are and part k - 1 is |
| Day10.SubsetXors | src/bin/10.rs:99-102 | one (subset, xor) pair per subset |
| Day10.FewestPresses | src/bin/10.rs:97-104 | `fewest_joltage_presses` returns the specified count, None where the source panics |
| Day10.Indices | src/bin/10.rs:97-104 | each pressed mask is the mask of some button, named by its index |
| Day10.FeedsCount | src/bin/10.rs:90 | presses by index feed counter i as often as their masks meet bit i |
| Day10.FewestPressesSound | src/bin/10.rs:97-104 | a machine's count is the length of a sequence of button presses after which every counter is fed exactly its joltage |
| Day10.MachineFewest | src/bin/10.rs:216-217 | parse one line and count its presses |
| Day10.LineFewest | src/bin/10.rs:216-217 | one line's count, None where the source panics; Day10.FewestPressesSound states what the count means |
| Day10.LineFewests | src/bin/10.rs:216 | one count per line |
| Day10.LineFewestsSnoc | src/bin/10.rs:216 | one more line appends its count |
| Day10.PartTwo | src/bin/10.rs:215-218 | the sum of the machines' counts, None exactly when some machine has none |
| Day10.Tally | src/bin/10.rs:217 | the sum is None exactly when some entry is None |
| Day10.TallySnoc | src/bin/10.rs:217 | adding an entry adds it to the sum |
| Day10.LightBitsAt | src/bin/10.rs:45-51 | bit p of the indicator is set exactly when the light p places from the right is not '.' |
| Day10.LightBits | src/bin/10.rs:44-51 | the '[' arm of part one; Day10.LightBitsAt states that bit p is set exactly when the light p places from the right is not '.' |
| Day10.ButtonBitsAt | src/bin/10.rs:54-56 | bit p of a schematic is set exactly when p ≤ length and the schematic lists light length - p |
| Day10.ReadLights | src/bin/10.rs:44-52 | the '[' segment's bits and length; Day10.LightBitsAt states which bits are set |
| Day10.ButtonBits | src/bin/10.rs:53-57 | the fold over a '(' segment; Day10.ButtonBitsAt states which bits are set |
| Day10.Absorb | src/bin/10.rs:42-62 | one segment taken into the diagram; Day10.AbsorbKeepsSchematics states what each kind changes |
| Day10.ReadDiagram | src/bin/10.rs:38-62 | the segment loop gives the specified diagram, None where the source panics |
| Day10.AbsorbKeepsSchematics | src/bin/10.rs:42-62 | only '(' segments add a schematic (exactly one) and only '[' segments change the indicator and length |
| Day10.ReachableMeans | src/bin/10.rs:64-75 | some listed combination of i presses reaches the indicator exactly when some multiset of i buttons XORs to it |
| Day10.PressesAt | src/bin/10.rs:65 | combination m presses the buttons of the m-th multichoice |
| Day10.FirstReachableLeast | src/bin/10.rs:64-81 | the count found is the least in 1..100 that reaches the indicator, 0 meaning none does |
| Day10.FirstReachable | src/bin/10.rs:64-81 | the press-count search; Day10.FirstReachableLeast states that it is the least count in 1..100 that reaches the indicator, and 0 when none does |
| Day10.AnyTogglesTo | src/bin/10.rs:67-75 | found exactly when some combination's XOR is the indicator |
| Day10.FewestLightPresses | src/bin/10.rs:64-81 | the search returns that least count |
| Day10.LinePressesAll | src/bin/10.rs:37 | one count per line |
| Day10.LinePressesSnoc | src/bin/10.rs:37 | one more line appends its count |
| Day10.LinePressesAt | src/bin/10.rs:37 | the k-th count is the count of line k |
| Day10.LineLightPresses | src/bin/10.rs:38-81 | read one line and search its presses |
| Day10.LinePresses | src/bin/10.rs:37-81 | one line of part one: None where the diagram panics, else the count the search pushes; stated by Day10.LineLightPresses with Day10.FirstReachableLeast |
| Day10.PartOne | src/bin/10.rs:30-85 | the sum of the lines' counts, None exactly when some line panics |
| Day11Graph.ReachableSelf | src/bin/11.rs:94-95 | the start is reachable from itself |
| Day11Graph.ReachableStep | src/bin/11.rs:96-102 | a successor of a reachable node is reachable |
| Day11Graph.Bit | src/bin/11.rs:46-48 | bit 0 is set exactly for the first waypoint, bit 1 exactly for the second, and no other bit |
| Day11Graph.SwapBits | src/bin/11.rs:44-48 | swapping the two bits keeps "both collected" |
| Day11Graph.BitSwap | src/bin/11.rs:46-48 | exchanging the waypoints swaps the node's bits |
| Day11Graph.GetId | src/bin/11.rs:56-65 | a known label keeps its id; a new one gets the next id and is pushed onto `names`; ids and names stay a bijection |
| Day11Graph.AssignIds | src/bin/11.rs:67-73 | after the first loop the labelled strings (keys and their neighbours) are exactly those with ids, bijectively |
| Day11Graph.SeenInStep | src/bin/11.rs:68-73 | one more key adds that key and its neighbours to the labelled strings |
| Day11Graph.BuildRows | src/bin/11.rs:75-83 | row `id_of[u]` lists the ids of u's neighbours in order; rows of non-keys stay empty |
| Day11Graph.MapRow | src/bin/11.rs:80-82 | a row is its neighbours' ids, in order |
| Day11Graph.SetRow | src/bin/11.rs:78-82 | filling key i's row maps its neighbours and leaves the rows of keys not yet visited empty |
| Day11Graph.RowsWellFormed | src/bin/11.rs:75-83 | every id in every row is below the number of names |
| Day11Graph.InternGraph | src/bin/11.rs:50-86 | the names, rows and id map describe the input map exactly |
| Day11Topo.InCountUpdate | src/bin/11.rs:105-116 | replacing a row changes each in-count by the difference of that row's occurrences |
| Day11Topo.InCountAtLeast | src/bin/11.rs:105-116 | an in-count is at least the occurrences in any one counted row |
| Day11Topo.InCountWitness | src/bin/11.rs:105-116 | a positive in-count has a row that lists the node |
| Day11Topo.ReachableRows | src/bin/11.rs:107-110 | unreachable nodes' rows are not counted |
| Day11Topo.Unmarked | src/bin/11.rs:93-103 | the unmarked nodes, the measure of the marking loop |
| Day11Topo.MarkReachable | src/bin/11.rs:92-103 | `reachable[v]` ends true exactly when v is reachable from the start |
| Day11Topo.PushSuccessors | src/bin/11.rs:97-102 | marking u's successors keeps the marking invariant and only unmarks fewer nodes |
| Day11Topo.ClosedContainsReachable | src/bin/11.rs:96-103 | once the stack is empty every reachable node is marked |
| Day11Topo.InDegrees | src/bin/11.rs:105-116 | each reachable node's in-degree is the number of edges into it from reachable nodes, and 0 otherwise |
| Day11Topo.CountRow | src/bin/11.rs:111-115 | one row adds its occurrences to each reachable node's in-degree |
| Day11Topo.Kahn | src/bin/11.rs:118-137 | the queue order lists distinct reachable nodes, each after all its reachable predecessors; a reachable node left out has a predecessor left out |
| Day11Topo.Sources | src/bin/11.rs:118-123 | the first queue holds the reachable nodes with no reachable predecessor |
| Day11Topo.PopFront | src/bin/11.rs:126-127 | taking the queue's head keeps the queue invariants |
| Day11Topo.Release | src/bin/11.rs:128-136 | decrementing the head's successors keeps the invariants, queueing those whose in-degree reaches 0 |
| Day11Topo.Enqueue | src/bin/11.rs:133-135 | a node all of whose reachable predecessors are ordered may be queued |
| Day11Topo.ConsumeEdge | src/bin/11.rs:132 | consuming an edge lowers exactly its target's pending in-count by one |
| Day11Topo.TopoReachable | src/bin/11.rs:89-140 | the order lists distinct reachable nodes with every edge pointing forward, each after its reachable predecessors, and covers every reachable node exactly when no cycle is reachable |
| Day11Topo.CycleEscapesOrder | src/bin/11.rs:125-139 | with a reachable cycle some reachable node is missing from any forward-edged order |
| Day11Topo.CycleNodesReachable | src/bin/11.rs:92-103 | every node on a path from a reachable node is reachable |
| Day11Topo.BackClosedCycle | src/bin/11.rs:125-139 | reachable nodes left out, each with a left-out predecessor, imply a reachable cycle |
| Day11Topo.CycleInBackClosed | src/bin/11.rs:125-139 | a predecessor-closed set of nodes contains a cycle |
| Day11Topo.BackWalk | src/bin/11.rs:125-139 | walking predecessors within such a set goes on for any length |
| Day11Topo.DistinctBounded | src/bin/11.rs:125-139 | distinct ids below n are at most n |
| Day11Topo.Pigeonhole | src/bin/11.rs:125-139 | a walk longer than n over ids below n repeats one |
| Day11Paths.IndexOf | src/bin/11.rs:19 | the position of the first occurrence |
| Day11Paths.IndexOfDistinct | src/bin/11.rs:19 | in a duplicate-free order, the position of entry j is j |
| Day11Paths.Prepend | src/bin/11.rs:29-34 | each suffix gains the node in front |
| Day11Paths.AllPathsDag | src/bin/11.rs:7-42 | the memo's entry for the start holds exactly the start -> goal paths; just [[goal]] when start is the goal; none when the goal is unreachable |
| Day11Paths.CollectSuffixes | src/bin/11.rs:25-37 | the inner loops gather the node prepended to every successor's memo entry |
| Day11Paths.AppendPrepended | src/bin/11.rs:29-34 | `p.push(node); p.extend_from_slice(suf)` for each suffix |
| Day11Paths.AllPathsDagMeaning | src/bin/11.rs:7-42 | the specified result is sound and complete for start -> goal paths |
| Day11Paths.ReachableSelfEdge | src/bin/11.rs:13 | the start is reachable from itself in the label map |
| Day11Paths.SuffixesValid | src/bin/11.rs:19-39 | every memo path is a path from its node to the goal |
| Day11Paths.Suffixes | src/bin/11.rs:19-39 | the memo `paths_from`; Day11Paths.SuffixesValid (only paths to the goal), Day11Paths.SuffixesComplete (every such path) and Day11Paths.SuffixesIsEnum (the order-free enumeration) state its meaning |
| Day11Paths.GatherValid | src/bin/11.rs:25-37 | every gathered path is a path from the node to the goal |
| Day11Paths.PrependValid | src/bin/11.rs:29-34 | prepending a node to paths from its successors gives paths from the node |
| Day11Paths.ConsPath | src/bin/11.rs:29-34 | a node followed by a path from one of its successors is a path |
| Day11Paths.PathClimbs | src/bin/11.rs:13 | along a path from a reachable node, positions in the topological order increase |
| Day11Paths.EdgeReachableStep | src/bin/11.rs:13 | a successor of a reachable label is reachable |
| Day11Paths.SuffixesComplete | src/bin/11.rs:7-42 | every start -> goal path is in the start's memo entry |
| Day11Paths.SuffixesCompleteFrom | src/bin/11.rs:19-39 | every path from a reachable node to the goal is in that node's memo entry |
| Day11Paths.GatherComplete | src/bin/11.rs:25-37 | the node followed by a successor's memo path is gathered |
| Day11Paths.SuffixesIsEnum | src/bin/11.rs:19-39 | the memo entry equals a plain recursive enumeration that does not depend on the order |
| Day11Paths.GatherIsEnumAll | src/bin/11.rs:25-37 | gathering equals that enumeration over the successors |
| Day11Paths.MemoIsEnum | src/bin/11.rs:28-35 | one successor's contribution equals the enumeration from it |
| Day11Paths.OrderIndependent | src/bin/11.rs:13-41 | all_paths_dag lists the same paths in the same order whichever topological order the sort returns |
| Day11Ways.SaturatingAddSat | src/bin/11.rs:182 | saturating addition of saturated values is the saturated sum |
| Day11Ways.SaturatingAdd | src/bin/11.rs:182 | `u64::saturating_add`; Day11Ways.SaturatingAddSat states that adding saturated terms gives the saturated sum |
| Day11Ways.SwapOr | src/bin/11.rs:172 | swapping bits distributes over OR |
| Day11Ways.SwapReq | src/bin/11.rs:175 | swapping bits keeps exactly REQ at REQ |
| Day11Ways.WaysSwap | src/bin/11.rs:168-186 | the count with the waypoints exchanged is the count with the mask's bits swapped |
| Day11Ways.WaysSumSwap | src/bin/11.rs:180-183 | the same for the sum over successors |
| Day11Ways.WaysSymmetric | src/bin/11.rs:143-189 | the count does not depend on the order of the two waypoints |
| Day11Ways.AdjMap | src/bin/11.rs:75-83 | the rows as a map from id to successors |
| Day11Ways.CountMaskAppend | src/bin/11.rs:180-183 | counting mask-completing paths distributes over concatenation |
| Day11Ways.CountMaskPrepend | src/bin/11.rs:172 | a node prepended to paths adds its bits to the mask |
| Day11Ways.PathInTable | src/bin/11.rs:97-102 | a path from a table node stays within the table |
| Day11Ways.SuffixesInTable | src/bin/11.rs:168-186 | the memo paths on ids stay within the table |
| Day11Ways.WaysCountsPaths | src/bin/11.rs:166-186 | `dp[u][mask]` counts the paths from u to the goal that complete both waypoints given the mask |
| Day11Ways.Ways | src/bin/11.rs:166-186 | the `dp` table without saturation; Day11Ways.WaysCountsPaths states that entry (u, m) counts the paths from u to the goal that complete the mask m to REQ |
| Day11Ways.GatherCountsPaths | src/bin/11.rs:179-184 | the sum over successors counts the gathered paths |
| Day11Ways.MemoCountsPaths | src/bin/11.rs:180-183 | one successor's entry counts its prepended paths |
| Day11CrossCheck.ReachableAsEdges | src/bin/11.rs:92-103 | reachability on the table and on its map form agree |
| Day11CrossCheck.KahnOrderIsTopo | src/bin/11.rs:89-140 | without a reachable cycle, topo_reachable's order is a topological order of the reachable part |
| Day11CrossCheck.Rename | src/bin/11.rs:50-86 | an id path read back as labels |
| Day11CrossCheck.RenameAll | src/bin/11.rs:50-86 | every id path read back as labels |
| Day11CrossCheck.SuccRenamed | src/bin/11.rs:75-83 | a row read back as labels is the label's successor list |
| Day11CrossCheck.RenamePath | src/bin/11.rs:75-83 | an id path reads back as a label path |
| Day11CrossCheck.ReachableRenamed | src/bin/11.rs:75-83 | reachability on ids implies reachability on labels |
| Day11CrossCheck.NoCycleOnIds | src/bin/11.rs:13-14 | when the labels have a topological order from the start, the ids have no reachable cycle |
| Day11CrossCheck.RenamePrefix | src/bin/11.rs:50-86 | renaming commutes with taking a prefix |
| Day11CrossCheck.RenameAllAppend | src/bin/11.rs:50-86 | renaming distributes over concatenation |
| Day11CrossCheck.RenameAllPrepend | src/bin/11.rs:29-34 | renaming commutes with prepending a node |
| Day11CrossCheck.InternedRowsRenamed | src/bin/11.rs:75-83 | every row reads back as its label's successors |
| Day11CrossCheck.EnumRenamed | src/bin/11.rs:19-39 | the enumeration on ids reads back as the enumeration on labels |
| Day11CrossCheck.EnumAllRenamed | src/bin/11.rs:25-37 | likewise over a successor list |
| Day11CrossCheck.RenamedStep | src/bin/11.rs:25-37 | one more successor keeps the two enumerations matched |
| Day11CrossCheck.BitsOfVisits | src/bin/11.rs:168-172 | the collected bits of a path record exactly which waypoints it visits |
| Day11CrossCheck.ReqIsBoth | src/bin/11.rs:175 | the mask equals REQ exactly when both bits are set |
| Day11CrossCheck.CountMaskIsVisiting | src/bin/11.rs:166-188 | counting REQ-completing id paths is counting label paths through both waypoints |
| Day11CrossCheck.DagPathsOnIds | src/bin/11.rs:13-41 | all_paths_dag's paths are the renamed memo paths on ids |
| Day11CrossCheck.CountMatchesDagPaths | src/bin/11.rs:143-189 | the table entry for the start is the saturated number of all_paths_dag paths visiting both waypoints |
| Day11CrossCheck.MemoOfLater | src/bin/11.rs:25-36 | a successor already in the memo contributes its suffix paths with the current node in front |
| Day11CrossCheck.DiamondSuffix | src/bin/11.rs:18-40 | on the diamond a -> b, c -> d, the memo for b (and for c) holds the one path to d |
| Day11CrossCheck.DiamondTop | src/bin/11.rs:18-40 | on the diamond the memo for a lists a-b-d, then a-c-d |
| Day11CrossCheck.DiamondPaths | src/bin/11.rs:7-42 | on the diamond all_paths_dag finds the two paths; none visits both b and c, one visits both b and d |
| Day11Count.JoinBounds | src/bin/11.rs:172 | OR-ing the node's bits into a mask below 4 gives a mask below 4, no smaller |
| Day11Count.EntryOfSuccessor | src/bin/11.rs:180-183 | a successor's table entry is its specified count |
| Day11Count.SumSuccessors | src/bin/11.rs:179-184 | the saturating sum over successors is the saturated specified sum |
| Day11Count.FillRow | src/bin/11.rs:168-186 | filling node u's four entries extends the filled part of the table by one node of the order |
| Day11Count.FillDp | src/bin/11.rs:166-186 | every table entry ends as its specified count, 0 for nodes outside the order |
| Day11Count.UnlabelledUnreachable | src/bin/11.rs:152-157 | a label that occurs nowhere is unreachable from any other |
| Day11Count.CountPathsMustVisit | src/bin/11.rs:143-189 | 0 when start or goal is unknown or the goal is unreachable; otherwise the saturated number of all_paths_dag paths through both waypoints, for every topological order |
| Day11.Entry | src/bin/11.rs:195-199 | a line splits exactly when it holds ": ", into the device and its outputs that make up the line again |
| Day11.EntryRendered | src/bin/11.rs:195-199 | a line written from a device and its outputs reads back as them |
| Day11.Collected | src/bin/11.rs:192-201 | the HashMap collect; Day11.CollectedMeaning states it |
| Day11.CollectedSome | src/bin/11.rs:195-197 | collecting succeeds exactly when every entry is present |
| Day11.CollectedKeys | src/bin/11.rs:192-201 | the collected keys are exactly the keys of the entries |
| Day11.CollectedLast | src/bin/11.rs:192-201 | each key maps to the value of the last entry with that key |
| Day11.CollectedMeaning | src/bin/11.rs:192-201 | the collected map exists exactly when every line splits; its keys are the devices named, each mapped to the outputs of the last line naming it |
| Day11.Entries | src/bin/11.rs:194-200 | one entry per line |
| Day11.RackFails | src/bin/11.rs:195-197 | collecting fails exactly when some line has no ": " |
| Day11.PartOne | src/bin/11.rs:191-206 | None exactly when collecting fails, else the number of paths all_paths_dag lists from "you" to "out", which are exactly the "you" -> "out" paths; 0 when "out" is unreachable |
| Day11.PartTwo | src/bin/11.rs:208-223 | None exactly when collecting fails, else at most u64::MAX, 0 when "out" is unreachable from "svr", and otherwise the saturated number of "svr" -> "out" paths through "dac" and "fft" |
| Day12.ParsedParts | src/bin/12.rs:13-14 | at most one value per part, each within u64 |
| Day12.Area | src/bin/12.rs:12-15 | the region's area; Day12.AreaOfRendered and Day12.AreaOfNoNumbers state it |
| Day12.Fits | src/bin/12.rs:10-24 | whether a line is counted; Day12.FitsRendered states it |
| Day12.CountFits | src/bin/12.rs:5-25 | the lines counted; Day12.CountFitsStep and Day12.CountFitsBound state it |
| Day12.PartOne | src/bin/12.rs:3-28 | the loop counts exactly the lines with an 'x' whose presents take less than the area |
| Day12.CountFitsStep | src/bin/12.rs:5-25 | one more line adds one exactly when it has an 'x' and fits |
| Day12.CountFitsBound | src/bin/12.rs:5-25 | the count is at most the number of lines with an 'x' |
| Day12.ParsedRendered | src/bin/12.rs:13-14 | numbers written in decimal parse back as themselves |
| Day12.RenderedHasNo | src/bin/12.rs:12-20 | decimal numerals contain no separator |
| Day12.AreaOfRendered | src/bin/12.rs:12-15 | the area of `WxH` written out is the product of the dimensions |
| Day12.SizeOfRendered | src/bin/12.rs:17-20 | counts written out parse, and take eight cells each |
| Day12.AreaOfNoNumbers | src/bin/12.rs:12-15 | a size with no number in it has area 1 (the fold's start) |
| Day12.NothingParses | src/bin/12.rs:14 | `filter_map` over parts that all fail to parse is empty |
| Day12.JoinedChars | src/bin/12.rs:12-20 | a written-out list holds only digits and separators |
| Day12.FitsRendered | src/bin/12.rs:10-24 | a line written out from dimensions and counts is counted exactly when 8 times the count total is below the product of the dimensions |
| Text.ParseUnsigned | src/bin/06.rs:10 | a parsed unsigned number is within the type's range and comes from a non-empty string |
| Text.ParseDecimal | src/bin/12.rs:14 | a decimal numeral parses back to its value exactly when it fits the type |
| Text.ParseRejectsEmpty | src/bin/06.rs:10 | an empty string or a lone sign is not a number |
| Text.ParseSigned | src/bin/08.rs:10 | a parsed signed number is within the type's range |
| Text.SignedParses | src/bin/08.rs:10 | a signed number written out parses back to itself |
| Text.Split | src/bin/10.rs:212 | `split` gives at least one piece and no piece holds the separator |
| Text.SplitJoin | src/bin/10.rs:212 | joining the pieces with the separator gives the string back |
| Text.JoinSplit | src/bin/10.rs:212 | separator-free pieces joined and split again come back unchanged |
| Text.SplitCount | src/bin/02.rs:76 | there is one piece more than there are separators |
| Text.Trim | src/bin/05.rs:10 | a trimmed string neither starts nor ends with whitespace |
| Text.TrimIsInfix | src/bin/05.rs:10 | trimming keeps a contiguous part of the string and drops only whitespace |
| Text.SplitWhitespace | src/bin/06.rs:9 | every token is non-empty and holds no whitespace |
| Text.SplitWhitespaceJoin | src/bin/10.rs:185 | words written with single spaces split back into the same words |
| Text.SplitWhitespaceKeepsText | src/bin/06.rs:9 | the tokens are the string's text with the whitespace squeezed out |
| Text.SplitOnce | src/bin/12.rs:10 | `split_once` finds the first occurrence, and the two halves with the pattern give the line back |
| Text.SplitOnceAt | src/bin/11.rs:195-196 | a line with no earlier occurrence of the pattern splits at the given one |
| Wrappers.Collect | src/bin/10.rs:212 | a successful collection has one value per element |
| Wrappers.CollectFails | src/bin/10.rs:212 | collecting fails exactly when some element fails |
| Wrappers.CollectValues | src/bin/10.rs:212 | a successful collection holds each element's value, in order |

## Left out

- Reading the input file, the `solution!` macro and the test harness are not modelled; the puzzle input is a parameter.
- `str::lines` is not modelled: the part functions take the list of lines (Day 2 takes the whole string, as its source splits on ',').
- Characters are ASCII: `trim`, `split_whitespace` and `to_digit` treat only ASCII whitespace and digits; Unicode whitespace is not modelled.
- Overflow of the `u64`, `usize`, `i32` and `i16` accumulators and products (in release builds they wrap, in debug builds they panic) is not modelled: sums and products are unbounded integers. Parse overflow, which turns into a `None` or a panic, is modelled.
- `println!` output (Day 8 and elsewhere) and commented-out code (Day 7 part two) are not modelled.
- Parts whose source returns a constant `None` (Day 3, Day 8 and Day 12 part two) are not modelled.
- Day01.PartOne: requires every line to be non-empty, and a line starting with 'L' or 'R' to go on with an i16 number (not i16::MIN after 'L'), because indexing an empty line, the `unwrap` and the negation panic otherwise. The same holds for Day01.PartTwo.
- Day02.PartOne: requires SafeRanges, meaning no range reached before a parse failure contains id 0, because `ilog10` panics on 0. The `None` for a parse failure is modelled.
- Day02.PartTwo: requires SafeRanges as part one does, and also that ids stay below 10^10, because the source's power-of-ten table then runs out.
- Day03.PartOne: requires every line to be non-empty digits, because `to_digit(10).unwrap()` panics on any other character and the slice `[..len - 1]` underflows on an empty line.
- Day04.PartOne: requires a rectangular grid, because the source indexes every row with the first row's length.
- Day04.PartTwo: requires a rectangular grid, for the same reason as part one.
- Day05.PartTwo: requires every range to have start <= end, because `end - start + 1` underflows otherwise. A reversed range that a merge swallows would not underflow in the source.
- Day06.PartOne: requires at least one line, because `count() - 1` underflows on empty input.
- Day06.PartOne: also requires that every column whose operator is "+" or "*" exists in every term row, because `term[i]` panics otherwise.
- Day08.PartOne: the number of connections (10 under `cfg!(test)`, 1000 otherwise) is a parameter.
- Day08.PartOne: requires every line to start with three comma-separated i32 numbers, because `unwrap` panics otherwise.
- Day09.PartOne: requires every line to start with two i32 fields, because `parse_tile_position` unwraps each parse and indexes two fields.
- Day09.PartTwo: requires the same two i32 fields, because `unwrap` panics otherwise.
- The tests at src/bin/09.rs:155 (part two, expects `None`) and src/bin/03.rs:58 (part two, expects a number where the code returns `None`) disagree with the code; the model follows the code.
- Day10Masks.ButtonMask: a button is the set of bit positions it toggles (the union); the source sums `1 << i`, which differs only for a button that lists an index twice.
- Day10.PartTwo: only soundness is proved. The presses found do reach the joltages, and the count is the least among the halving recursion's candidates. Optimality over all press sequences is not proved.
- Day10.LineFewest: gives `None` for a joltage above `i32::MAX`, where the source's `as i32` cast wraps it negative.
- Day10.PartOne: the search over press counts starts at 1 and stops below 100, as in the source. An all-off target therefore needs two presses of one button, and a machine with no solution below 100 presses adds 0.
- Day11.PartOne: `pathfinding::topological_sort` is replaced by the parameter `order`, required to be a topological order of the nodes reachable from "you". A cycle, where the source's `expect` panics, is excluded.
- Day11.PartTwo: the `HashMap` iteration order is the parameter `keys`. The count equation holds when "svr" appears in the map; an unknown "svr" gives 0 through the unreachable clause.
- Day12.PartOne: requires every line holding an 'x' to contain ": " and a list of u64 counts, because `expect` and `unwrap` panic otherwise. Lines without an 'x' are skipped as the source skips them.

## Findings

| source | as written | input that shows it | evidently intended | confidence | as-written member | corrected member |
|---|---|---|---|---|---|---|
| src/bin/01.rs:33-38 | a zero is counted when the dial starts at 0 or when `dial + clicks % 100` leaves 0..=100 | rotations [L50]: a final landing on 0 counts 0, intended 1; [L50, R0, R5] counts 2, intended 1 | count every click that leaves the dial at 0 | high, not executed | Day01.AsWrittenMissesZeros | Day01.ZerosCountClicks |
| src/bin/04.rs:21-25 | the column `nx` is checked against the number of rows and the row `ny` against the width of the first row | the one-row grid `@@`: the as-written test indexes row 1, which does not exist, and panics | check `nx` against the width and `ny` against the number of rows | high, not executed | Day04.AsWrittenPanicsOnWideGrid | Day04.PartOne |
| src/bin/09.rs:22-23 | the side is `abs(dx + 1)` | tiles (0,0) and (2,0): the as-written area is 1, the rectangle covers 3 tiles | the side is `abs(dx) + 1` | high, not executed | Day09.AreaAsWrittenUndercounts | Day09.PartOneCorrected |
