/**
 * Day 3: every line is a bank of single-digit batteries; its joltage is the
 * largest two-digit number formed by a digit and a later digit. The solver
 * picks the largest digit before the last position, then the largest digit
 * after that digit's first occurrence.
 */
module Day03 {
  import opened Text

  function Digits(s: string): (ds: seq<nat>)
    requires AllDigits(s)
    ensures |ds| == |s| && forall k | 0 <= k < |s| :: ds[k] == DigitValue(s[k]) && ds[k] < 10
  {
    if s == [] then [] else [DigitValue(s[0])] + Digits(s[1..])
  }

  /** The largest element, or 0 for the empty list (the loops start from 0). */
  function Max(s: seq<nat>): (m: nat)
    ensures forall k | 0 <= k < |s| :: s[k] <= m
    ensures s == [] ==> m == 0
    ensures s != [] ==> m in s
  {
    if s == [] then 0
    else
      var m := Max(s[..|s| - 1]);
      if s[|s| - 1] > m then s[|s| - 1] else m
  }

  /** Position of the first occurrence of `x`. */
  function FirstAt(s: seq<nat>, x: nat): (p: nat)
    requires x in s
    ensures p < |s| && s[p] == x && forall k | 0 <= k < p :: s[k] != x
  {
    if s[0] == x then 0 else 1 + FirstAt(s[1..], x)
  }

  /** The largest digit strictly after the first occurrence of `x`, 0 if there is none. */
  function After(s: seq<nat>, x: nat): nat {
    if x in s then Max(s[FirstAt(s, x) + 1..]) else 0
  }

  /** The number `find_largest_number` builds from a list of digits. */
  function Joltage(ds: seq<nat>): nat
    requires |ds| >= 1
  {
    var largest := Max(ds[..|ds| - 1]);
    largest * 10 + After(ds, largest)
  }

  /** The first loop: the largest digit but the last. */
  method LargestButLast(ds: seq<nat>) returns (largest: nat)
    requires |ds| >= 1
    ensures largest == Max(ds[..|ds| - 1])
  {
    largest := 0;
    var k := 0;
    while k < |ds| - 1
      invariant 0 <= k <= |ds| - 1
      invariant largest == Max(ds[..k])
    {
      assert ds[..k + 1][..k] == ds[..k];
      if ds[k] > largest {
        largest := ds[k];
      }
      k := k + 1;
    }
  }

  /** The second loop: skip to the first `largest`, then keep the maximum. */
  method SecondLargest(ds: seq<nat>, largest: nat) returns (second: nat)
    ensures second == After(ds, largest)
  {
    second := 0;
    var found := false;
    ghost var start := 0;
    var k := 0;
    while k < |ds|
      invariant 0 <= k <= |ds|
      invariant SecondSoFar(ds, largest, k, found, start, second)
    {
      found, start, second := VisitSecond(ds, largest, k, found, start, second);
      k := k + 1;
    }
    assert ds[..k] == ds;
  }

  /** What the second loop knows after `k` digits: whether `largest` was met, and the maximum since. */
  ghost predicate SecondSoFar(ds: seq<nat>, largest: nat, k: nat, found: bool, start: nat, second: nat)
    requires k <= |ds|
  {
    && (found <==> largest in ds[..k])
    && (!found ==> second == 0)
    && (found ==> start == FirstAt(ds, largest) + 1 <= k && second == Max(ds[start..k]))
  }

  /** The body of the second loop at digit `k`. */
  method VisitSecond(ds: seq<nat>, largest: nat, k: nat, found: bool, ghost start: nat, second: nat)
    returns (found': bool, ghost start': nat, second': nat)
    requires k < |ds| && SecondSoFar(ds, largest, k, found, start, second)
    ensures SecondSoFar(ds, largest, k + 1, found', start', second')
  {
    InPrefixStep(ds, largest, k);
    found', start', second' := found, start, second;
    if !found && ds[k] == largest {
      found' := true;
      FirstAtIs(ds, largest, k);
      start' := k + 1;
      assert ds[start'..k + 1] == [];
    } else if found {
      MaxStep(ds, start, k);
      if ds[k] > second {
        second' := ds[k];
      }
    }
  }

  lemma InPrefixStep(s: seq<nat>, x: nat, k: nat)
    requires k < |s|
    ensures x in s[..k + 1] <==> x in s[..k] || s[k] == x
  {
    assert s[..k + 1] == s[..k] + [s[k]];
  }

  /** Extending a slice by one element updates its maximum as the loop does. */
  lemma MaxStep(s: seq<nat>, p: nat, k: nat)
    requires p <= k < |s|
    ensures Max(s[p..k + 1]) == if s[k] > Max(s[p..k]) then s[k] else Max(s[p..k])
  {
    assert s[p..k + 1][..k - p] == s[p..k];
  }

  lemma FirstAtIs(s: seq<nat>, x: nat, k: nat)
    requires k < |s| && s[k] == x && x !in s[..k]
    ensures FirstAt(s, x) == k
  {
    assert forall q | 0 <= q < k :: s[q] == s[..k][q];
  }

  /** find_largest_number: every character must be a decimal digit (`to_digit(10).unwrap()`), and the line not empty. */
  method FindLargestNumber(numbers: string) returns (r: nat)
    requires |numbers| >= 1 && AllDigits(numbers)
    ensures r == Joltage(Digits(numbers))
    ensures r <= 99
  {
    var ds := Digits(numbers);
    var largest := LargestButLast(ds);
    var second := SecondLargest(ds, largest);
    r := largest * 10 + second;
    JoltageAtMost99(ds);
  }

  /** The largest of digits is a digit. */
  lemma {:induction false} MaxDigit(s: seq<nat>)
    requires forall k | 0 <= k < |s| :: s[k] < 10
    ensures Max(s) < 10
  {
    if s != [] {
      var k :| 0 <= k < |s| && s[k] == Max(s);
    }
  }

  /** A joltage is a two-digit number. */
  lemma JoltageAtMost99(ds: seq<nat>)
    requires |ds| >= 1 && forall k | 0 <= k < |ds| :: ds[k] < 10
    ensures Joltage(ds) <= 99
  {
    var largest := Max(ds[..|ds| - 1]);
    MaxDigit(ds[..|ds| - 1]);
    if largest in ds {
      MaxDigit(ds[FirstAt(ds, largest) + 1..]);
    }
  }

  /** The first occurrence of the largest digit but the last lies before the last position. */
  lemma LargestFirstAt(ds: seq<nat>) returns (p: nat)
    requires |ds| >= 2
    ensures Max(ds[..|ds| - 1]) in ds
    ensures p == FirstAt(ds, Max(ds[..|ds| - 1])) && p < |ds| - 1
  {
    var n := |ds|;
    var largest := Max(ds[..n - 1]);
    var q :| 0 <= q < n - 1 && ds[..n - 1][q] == largest;
    assert ds[q] == largest;
    p := FirstAt(ds, largest);
  }

  /** The joltage is formed by a digit and a later one. */
  lemma JoltageIsAPair(ds: seq<nat>)
    requires |ds| >= 2
    ensures exists i, j | 0 <= i < j < |ds| :: Joltage(ds) == 10 * ds[i] + ds[j]
  {
    var p := LargestFirstAt(ds);
    var tail := ds[p + 1..];
    var j :| 0 <= j < |tail| && tail[j] == Max(tail);
    assert Joltage(ds) == 10 * ds[p] + ds[p + 1 + j];
  }

  /** No digit followed by a later one forms a larger number than the joltage. */
  lemma JoltageIsBest(ds: seq<nat>)
    requires |ds| >= 2 && forall k | 0 <= k < |ds| :: ds[k] < 10
    ensures forall i, j | 0 <= i < j < |ds| :: 10 * ds[i] + ds[j] <= Joltage(ds)
  {
    var n := |ds|;
    var p := LargestFirstAt(ds);
    var largest := Max(ds[..n - 1]);
    var tail := ds[p + 1..];
    forall i, j | 0 <= i < j < n ensures 10 * ds[i] + ds[j] <= Joltage(ds) {
      assert ds[i] == ds[..n - 1][i];
      if ds[i] == largest {
        assert tail[j - p - 1] == ds[j];
      }
    }
  }

  /** part_one: the sum of the lines' joltages. */
  method PartOne(lines: seq<string>) returns (total: nat)
    requires forall k | 0 <= k < |lines| :: |lines[k]| >= 1 && AllDigits(lines[k])
    ensures total == SumJoltage(lines)
    ensures total <= 99 * |lines|
  {
    total := 0;
    var k := 0;
    while k < |lines|
      invariant 0 <= k <= |lines|
      invariant total == SumJoltage(lines[..k]) <= 99 * k
    {
      var j := FindLargestNumber(lines[k]);
      SumJoltageSnoc(lines, k);
      total := total + j;
      k := k + 1;
    }
    assert lines[..k] == lines;
  }

  function SumJoltage(lines: seq<string>): nat
    requires forall k | 0 <= k < |lines| :: |lines[k]| >= 1 && AllDigits(lines[k])
  {
    if lines == [] then 0
    else SumJoltage(lines[..|lines| - 1]) + Joltage(Digits(lines[|lines| - 1]))
  }

  lemma SumJoltageSnoc(lines: seq<string>, k: nat)
    requires k < |lines| && forall j | 0 <= j < |lines| :: |lines[j]| >= 1 && AllDigits(lines[j])
    ensures SumJoltage(lines[..k + 1]) == SumJoltage(lines[..k]) + Joltage(Digits(lines[k]))
  {
    assert lines[..k + 1][..k] == lines[..k];
  }
}
