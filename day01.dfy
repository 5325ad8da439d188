/**
 * Day 1: a dial numbered 0..99 starts at 50 and is turned by a list of
 * rotations "L<n>" (towards lower numbers) and "R<n>". Part one counts the
 * rotations that leave the dial at 0; part two counts zeros passed during
 * the rotations.
 */
module Day01 {
  import opened Text

  /** A line `parse` accepts: not empty, and after 'L' or 'R' an i16 that can be negated. */
  predicate ValidLine(w: string) {
    && |w| > 0
    && (w[0] == 'L' || w[0] == 'R' ==> ParseSigned(w[1..], I16_MIN, I16_MAX).Some?)
    && (w[0] == 'L' ==> ParseSigned(w[1..], I16_MIN, I16_MAX).value != I16_MIN)
  }

  /** One rotation: 'L' n gives -n, 'R' n gives n, any other first character 0. */
  function ParseLine(w: string): (c: int)
    requires ValidLine(w)
    ensures I16_MIN <= c <= I16_MAX
    ensures w[0] != 'L' && w[0] != 'R' ==> c == 0
  {
    match w[0]
    case 'L' => -ParseSigned(w[1..], I16_MIN, I16_MAX).value
    case 'R' => ParseSigned(w[1..], I16_MIN, I16_MAX).value
    case _ => 0
  }

  function Parse(lines: seq<string>): (cs: seq<int>)
    requires forall k | 0 <= k < |lines| :: ValidLine(lines[k])
    ensures |cs| == |lines|
  {
    if lines == [] then [] else [ParseLine(lines[0])] + Parse(lines[1..])
  }

  /** A rotation written out in decimal is read back with its direction as the sign. */
  lemma ParseLineRendered(n: nat)
    requires n <= I16_MAX
    ensures ValidLine("L" + Decimal(n)) && ParseLine("L" + Decimal(n)) == -(n as int)
    ensures ValidLine("R" + Decimal(n)) && ParseLine("R" + Decimal(n)) == n
  {
    assert ("L" + Decimal(n))[1..] == Decimal(n);
    assert ("R" + Decimal(n))[1..] == Decimal(n);
    ParseSignedDecimal(n, I16_MIN, I16_MAX);
  }

  lemma {:induction false} ParseElements(lines: seq<string>, k: nat)
    requires forall j | 0 <= j < |lines| :: ValidLine(lines[j])
    requires k < |lines|
    ensures Parse(lines)[k] == ParseLine(lines[k])
  {
    if k > 0 {
      ParseElements(lines[1..], k - 1);
    }
  }

  // ---------------------------------------------------------------------
  // The dial
  // ---------------------------------------------------------------------

  const START: int := 50

  /** `(dial + clicks).rem_euclid(100)`. */
  function Turn(d: int, c: int): (d': int)
    ensures 0 <= d' < 100
    ensures (d + c - d') % 100 == 0
  {
    (d + c) % 100
  }

  /** The dial after all rotations. */
  function Dial(d: int, cs: seq<int>): (d': int)
    requires 0 <= d < 100
    ensures 0 <= d' < 100
    decreases |cs|
  {
    if cs == [] then d else Dial(Turn(d, cs[0]), cs[1..])
  }

  function Sum(cs: seq<int>): int {
    if cs == [] then 0 else Sum(cs[..|cs| - 1]) + cs[|cs| - 1]
  }

  lemma SumCons(c: int, cs: seq<int>)
    ensures Sum([c] + cs) == c + Sum(cs)
    decreases |cs|
  {
    if cs != [] {
      assert ([c] + cs)[..|cs|] == [c] + cs[..|cs| - 1];
      SumCons(c, cs[..|cs| - 1]);
    }
  }

  /** The dial only ever shows the starting point moved by the total rotation, modulo 100. */
  lemma {:induction false} DialIsSum(d: int, cs: seq<int>)
    requires 0 <= d < 100
    ensures Dial(d, cs) == (d + Sum(cs)) % 100
    decreases |cs|
  {
    if cs != [] {
      DialIsSum(Turn(d, cs[0]), cs[1..]);
      assert cs == [cs[0]] + cs[1..];
      SumCons(cs[0], cs[1..]);
      TurnThenRotate(d, cs[0], Sum(cs[1..]));
    }
  }

  /** Turning by `c` and then by `k` clicks in all lands where turning by `c + k` at once does. */
  lemma TurnThenRotate(d: int, c: int, k: int)
    ensures (Turn(d, c) + k) % 100 == (d + c + k) % 100
  {
    var q := (d + c) / 100;
    assert d + c + k == (Turn(d, c) + k) + 100 * q;
  }

  // ---------------------------------------------------------------------
  // Part one
  // ---------------------------------------------------------------------

  /** The `filter(...).count()`: rotations after which the dial is at 0. */
  function Landings(d: int, cs: seq<int>): (n: nat)
    requires 0 <= d < 100
    ensures n <= |cs|
    decreases |cs|
  {
    if cs == [] then 0
    else
      var d' := Turn(d, cs[0]);
      (if d' == 0 then 1 else 0) + Landings(d', cs[1..])
  }

  /** Part one: the rotations that leave the dial at 0, which are the prefixes whose total brings it there. */
  function PartOne(lines: seq<string>): (r: nat)
    requires forall k | 0 <= k < |lines| :: ValidLine(lines[k])
    ensures r <= |lines|
    ensures r == ZeroPrefixes(START, Parse(lines))
  {
    LandingsArePrefixZeros(START, Parse(lines));
    Landings(START, Parse(lines))
  }

  /** Counting from the front and checking every prefix sum agree. */
  function ZeroPrefixes(d: int, cs: seq<int>): nat {
    if cs == [] then 0
    else ZeroPrefixes(d, cs[..|cs| - 1]) + (if (d + Sum(cs)) % 100 == 0 then 1 else 0)
  }

  lemma {:induction false} LandingsSnoc(d: int, cs: seq<int>, c: int)
    requires 0 <= d < 100
    ensures Landings(d, cs + [c]) == Landings(d, cs) + (if Turn(Dial(d, cs), c) == 0 then 1 else 0)
    decreases |cs|
  {
    if cs != [] {
      assert (cs + [c])[1..] == cs[1..] + [c];
      LandingsSnoc(Turn(d, cs[0]), cs[1..], c);
    } else {
      assert [] + [c] == [c];
    }
  }

  /** Part one counts exactly the prefixes whose total rotation brings the dial to 0. */
  lemma {:induction false} LandingsArePrefixZeros(d: int, cs: seq<int>)
    requires 0 <= d < 100
    ensures Landings(d, cs) == ZeroPrefixes(d, cs)
    decreases |cs|
  {
    if cs != [] {
      var init, c := cs[..|cs| - 1], cs[|cs| - 1];
      assert cs == init + [c];
      LandingsArePrefixZeros(d, init);
      LandingsSnoc(d, init, c);
      DialIsSum(d, init);
      DialIsSum(d, cs);
      assert Turn(Dial(d, init), c) == Dial(d, cs) by {
        DialSnoc(d, init, c);
      }
    }
  }

  lemma {:induction false} DialSnoc(d: int, cs: seq<int>, c: int)
    requires 0 <= d < 100
    ensures Dial(d, cs + [c]) == Turn(Dial(d, cs), c)
    decreases |cs|
  {
    if cs != [] {
      assert (cs + [c])[1..] == cs[1..] + [c];
      DialSnoc(Turn(d, cs[0]), cs[1..], c);
    } else {
      assert [] + [c] == [c];
    }
  }

  // ---------------------------------------------------------------------
  // Part two
  // ---------------------------------------------------------------------

  function Abs(x: int): nat {
    if x < 0 then -x else x
  }

  /** Rust's `%` on signed integers: the remainder takes the sign of the dividend. */
  function TruncRem(x: int, m: nat): (r: int)
    requires m > 0
    ensures Abs(r) == Abs(x) % m && (x >= 0 ==> r >= 0) && (x <= 0 ==> r <= 0)
  {
    if x >= 0 then x % m else -((-x) % m)
  }

  /** The zeros the dial shows, click by click, while it is turned by `c` from `d`. */
  function ClickZeros(d: int, c: int): nat
    requires 0 <= d < 100
    decreases Abs(c)
  {
    if c == 0 then 0
    else
      var step := if c > 0 then 1 else -1;
      var d' := Turn(d, step);
      (if d' == 0 then 1 else 0) + ClickZeros(d', c - step)
  }

  /** `clicked_zeros` exactly as the closure computes it (see Findings). */
  function ClickedZerosAsWritten(d: int, c: int): nat {
    var r := TruncRem(c, 100);
    Abs(c) / 100 + (if d == 0 || d + r < 0 || d + r > 100 then 1 else 0)
  }

  /** `clicked_zeros` counting each zero in the rotation that reaches it. */
  function ClickedZeros(d: int, c: int): nat {
    var r := TruncRem(c, 100);
    Abs(c) / 100 + (if (r > 0 && d + r >= 100) || (r < 0 && d > 0 && d + r <= 0) then 1 else 0)
  }

  lemma {:induction false} ClickZerosForward(d: int, n: nat)
    requires 0 <= d < 100
    ensures ClickZeros(d, n) == (d + n) / 100
    decreases n
  {
    if n > 0 {
      ClickZerosForward(Turn(d, 1), n - 1);
    }
  }

  lemma {:induction false} ClickZerosBackward(d: int, n: nat)
    requires 0 <= d < 100
    ensures ClickZeros(d, -(n as int)) == (if d == 0 then -1 else 0) - (d - n - 1) / 100
    decreases n
  {
    if n > 0 {
      ClickZerosBackward(Turn(d, -1), n - 1);
    }
  }

  /** The closed form counts exactly the clicks that land on 0. */
  lemma ClickedZerosCountsClicks(d: int, c: int)
    requires 0 <= d < 100
    ensures ClickedZeros(d, c) == ClickZeros(d, c)
  {
    if c >= 0 {
      ClickZerosForward(d, c);
      ClickedForward(d, c);
    } else {
      ClickZerosBackward(d, -c);
      ClickedBackward(d, -c);
    }
  }

  /** The closed form for a clockwise rotation of `n` clicks. */
  lemma ClickedForward(d: int, n: nat)
    requires 0 <= d < 100
    ensures ClickedZeros(d, n) == (d + n) / 100
  {
    var q, r := n / 100, n % 100;
    assert TruncRem(n, 100) == r && Abs(n) == n;
    assert d + n == (d + r) + 100 * q;
    assert (d + n) / 100 == (d + r) / 100 + q;
  }

  /** The closed form for a counter-clockwise rotation of `n` clicks. */
  lemma ClickedBackward(d: int, n: nat)
    requires 0 <= d < 100 && n > 0
    ensures ClickedZeros(d, -(n as int)) == (if d == 0 then -1 else 0) - (d - n - 1) / 100
  {
    var q, r := n / 100, n % 100;
    assert TruncRem(-(n as int), 100) == -r && Abs(-(n as int)) == n;
    assert d - n - 1 == (d - r - 1) - 100 * q;
    assert (d - n - 1) / 100 == (d - r - 1) / 100 - q;
  }

  function ZerosAsWritten(d: int, cs: seq<int>): nat
    requires 0 <= d < 100
    decreases |cs|
  {
    if cs == [] then 0 else ClickedZerosAsWritten(d, cs[0]) + ZerosAsWritten(Turn(d, cs[0]), cs[1..])
  }

  /** The `map(...).sum()` of part two with the corrected per-rotation count. */
  function Zeros(d: int, cs: seq<int>): nat
    requires 0 <= d < 100
    decreases |cs|
  {
    if cs == [] then 0 else ClickedZeros(d, cs[0]) + Zeros(Turn(d, cs[0]), cs[1..])
  }

  /** The zeros shown click by click over the whole list. */
  function AllClickZeros(d: int, cs: seq<int>): nat
    requires 0 <= d < 100
    decreases |cs|
  {
    if cs == [] then 0 else ClickZeros(d, cs[0]) + AllClickZeros(Turn(d, cs[0]), cs[1..])
  }

  /** Part two, corrected, counts every click that leaves the dial at 0. */
  lemma {:induction false} ZerosCountClicks(d: int, cs: seq<int>)
    requires 0 <= d < 100
    ensures Zeros(d, cs) == AllClickZeros(d, cs)
    decreases |cs|
  {
    if cs != [] {
      ClickedZerosCountsClicks(d, cs[0]);
      ZerosCountClicks(Turn(d, cs[0]), cs[1..]);
    }
  }

  /** Every landing counted by part one is one of part two's zeros, when no rotation is empty. */
  lemma {:induction false} LandingsAtMostZeros(d: int, cs: seq<int>)
    requires 0 <= d < 100
    requires forall k | 0 <= k < |cs| :: cs[k] != 0
    ensures Landings(d, cs) <= AllClickZeros(d, cs)
    decreases |cs|
  {
    if cs != [] {
      LandingsAtMostZeros(Turn(d, cs[0]), cs[1..]);
      if Turn(d, cs[0]) == 0 {
        LandingIsClickZero(d, cs[0]);
      }
    }
  }

  lemma LandingIsClickZero(d: int, c: int)
    requires 0 <= d < 100 && c != 0 && Turn(d, c) == 0
    ensures ClickZeros(d, c) >= 1
  {
    if c > 0 {
      ClickZerosForward(d, c);
    } else {
      ClickZerosBackward(d, -c);
      assert d + c <= 0;
    }
  }

  /** The source's part two is off from the click count by at most one per rotation. */
  function PartTwoAsWritten(lines: seq<string>): (r: nat)
    requires forall k | 0 <= k < |lines| :: ValidLine(lines[k])
    ensures r <= AllClickZeros(START, Parse(lines)) + |lines|
    ensures AllClickZeros(START, Parse(lines)) <= r + |lines|
  {
    AsWrittenWithinOne(START, Parse(lines));
    ZerosCountClicks(START, Parse(lines));
    ZerosAsWritten(START, Parse(lines))
  }

  /** Part two, corrected: every click over all rotations that leaves the dial at 0. */
  function PartTwo(lines: seq<string>): (r: nat)
    requires forall k | 0 <= k < |lines| :: ValidLine(lines[k])
    ensures r == AllClickZeros(START, Parse(lines))
    ensures (forall k | 0 <= k < |lines| :: Parse(lines)[k] != 0) ==> PartOne(lines) <= r
  {
    ZerosCountClicks(START, Parse(lines));
    if forall k | 0 <= k < |lines| :: Parse(lines)[k] != 0 then
      LandingsAtMostZeros(START, Parse(lines));
      Zeros(START, Parse(lines))
    else
      Zeros(START, Parse(lines))
  }

  /** Per rotation, the closure's count and the corrected one differ only in the final 0-or-1 term. */
  lemma {:induction false} AsWrittenWithinOne(d: int, cs: seq<int>)
    requires 0 <= d < 100
    ensures ZerosAsWritten(d, cs) <= Zeros(d, cs) + |cs|
    ensures Zeros(d, cs) <= ZerosAsWritten(d, cs) + |cs|
    decreases |cs|
  {
    if cs != [] {
      AsWrittenWithinOne(Turn(d, cs[0]), cs[1..]);
    }
  }

  /** A final rotation that lands on 0 goes uncounted as written, and a rotation of zero clicks from 0 counts a zero. */
  lemma AsWrittenMissesZeros()
    ensures ZerosAsWritten(START, [-50]) == 0 && AllClickZeros(START, [-50]) == 1
    ensures ZerosAsWritten(START, [-50, 0, 5]) == 2 && AllClickZeros(START, [-50, 0, 5]) == 1
  {
    assert [-50, 0, 5][1..] == [0, 5];
    assert [0, 5][1..] == [5];
    assert ClickZeros(0, 5) == 0 by { ClickZerosForward(0, 5); }
    assert ClickZeros(START, -50) == 1 by { ClickZerosBackward(START, 50); }
  }

  const SAMPLE: seq<int> := [-68, -30, 48, -5, 60, -55, -1, -99, 14, -82]
  lemma SampleLandingsTail()
    ensures Landings(55, SAMPLE[5..]) == 2
  {
    assert Landings(14, SAMPLE[9..]) == 0;
    assert Landings(0, SAMPLE[8..]) == 0;
    assert Landings(99, SAMPLE[7..]) == 1;
    assert Landings(0, SAMPLE[6..]) == 1;
  }

  lemma SampleLandingsMiddle()
    ensures Landings(0, SAMPLE[3..]) == 2
  {
    SampleLandingsTail();
    assert Landings(95, SAMPLE[4..]) == 2;
  }

  /** On the rotations L68 L30 R48 L5 R60 L55 L1 L99 R14 L82 part one gives 3. */
  lemma SampleLandings()
    ensures Landings(START, SAMPLE) == 3
  {
    SampleLandingsMiddle();
    assert Landings(52, SAMPLE[2..]) == 3;
    assert Landings(82, SAMPLE[1..]) == 3;
  }

  lemma SampleZerosAsWrittenTail()
    ensures ZerosAsWritten(55, SAMPLE[5..]) == 3
  {
    assert ZerosAsWritten(14, SAMPLE[9..]) == 1;
    assert ZerosAsWritten(0, SAMPLE[8..]) == 2;
    assert ZerosAsWritten(99, SAMPLE[7..]) == 2;
    assert ZerosAsWritten(0, SAMPLE[6..]) == 3;
  }

  lemma SampleZerosAsWrittenMiddle()
    ensures ZerosAsWritten(0, SAMPLE[3..]) == 5
  {
    SampleZerosAsWrittenTail();
    assert ZerosAsWritten(95, SAMPLE[4..]) == 4;
  }

  /** On the same rotations part two gives 6 as written. */
  lemma SampleZerosAsWritten()
    ensures ZerosAsWritten(START, SAMPLE) == 6
  {
    SampleZerosAsWrittenMiddle();
    assert ZerosAsWritten(52, SAMPLE[2..]) == 5;
    assert ZerosAsWritten(82, SAMPLE[1..]) == 5;
  }

  lemma SampleZerosTail()
    ensures Zeros(55, SAMPLE[5..]) == 3
  {
    assert Zeros(14, SAMPLE[9..]) == 1;
    assert Zeros(0, SAMPLE[8..]) == 1;
    assert Zeros(99, SAMPLE[7..]) == 2;
    assert Zeros(0, SAMPLE[6..]) == 2;
  }

  lemma SampleZerosMiddle()
    ensures Zeros(0, SAMPLE[3..]) == 4
  {
    SampleZerosTail();
    assert Zeros(95, SAMPLE[4..]) == 4;
  }

  /** And 6 with each zero counted in its own rotation. */
  lemma SampleZeros()
    ensures Zeros(START, SAMPLE) == 6
  {
    SampleZerosMiddle();
    assert ClickedZeros(52, 48) == 1 && ClickedZeros(82, -30) == 0 && ClickedZeros(START, -68) == 1;
    assert Zeros(52, SAMPLE[2..]) == 5;
    assert Zeros(82, SAMPLE[1..]) == 5;
  }
}
