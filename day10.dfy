/**
 * Day 10: machines with indicator lights, buttons and joltage counters.
 * Part one reads the lights and the buttons of each line as masks and
 * searches, for 1, 2, ... 99 presses, for a multiset of buttons whose XOR
 * is the light pattern. Part two finds the fewest presses that raise every
 * counter to its joltage by repeatedly pressing a set of buttons once each
 * so that the remaining joltages become even, halving and recursing.
 */
module Day10 {
  import opened Wrappers
  import opened Text
  import opened Day10Combos
  import opened Day10Masks

  // =====================================================================
  // Part two: fewest_joltage_presses_recur
  // =====================================================================

  /** A set of buttons, pressed once each, with the XOR of their masks. */
  type SubsetXor = (seq<Mask>, Mask)

  /** `a.min(b)` on `Option<usize>`, where None orders below every Some. */
  function OptionMin(a: Option<nat>, b: Option<nat>): Option<nat> {
    if a.None? || b.None? then None else Some(if a.value <= b.value then a.value else b.value)
  }

  /** `a.or(b)`. */
  function OptionOr(a: Option<nat>, b: Option<nat>): Option<nat> {
    if a.Some? then a else b
  }

  /** `best.min(press_count).or(best).or(press_count)`. */
  function Combine(best: Option<nat>, count: Option<nat>): Option<nat> {
    OptionOr(OptionOr(OptionMin(best, count), best), count)
  }

  /** The update keeps the smaller of two counts and ignores a missing one. */
  lemma CombineIgnoresNone(best: Option<nat>, count: Option<nat>)
    ensures best.None? ==> Combine(best, count) == count
    ensures count.None? ==> Combine(best, count) == best
    ensures best.Some? && count.Some? ==>
      Combine(best, count) == Some(if best.value <= count.value then best.value else count.value)
  {
  }

  /** The joltages after pressing a subset are in range for another round. */
  predicate Admissible(js: seq<int>) {
    NonNegative(js) && (|js| <= 32 || AllZero(js))
  }

  /**
   * `fewest_joltage_presses_recur`: Some(0) when every joltage is zero, and
   * otherwise the best over all subsets of the candidate count.
   */
  function Fewest(sx: seq<SubsetXor>, js: seq<int>): Option<nat>
    requires Admissible(js)
    decreases Sum(js), 2
  {
    SumNonNegative(js);
    if AllZero(js) then Some(0) else BestUpTo(sx, js, |sx|)
  }

  /** `best` after the loop has seen the first `k` subsets. */
  function BestUpTo(sx: seq<SubsetXor>, js: seq<int>, k: nat): Option<nat>
    requires NonNegative(js) && |js| <= 32 && !AllZero(js) && k <= |sx|
    decreases Sum(js), 1, k
  {
    SumNonNegative(js);
    if k == 0 then None else Combine(BestUpTo(sx, js, k - 1), Candidate(sx, js, k - 1))
  }

  /**
   * What subset `k` offers: when its XOR is the parity mask and the halved
   * joltages stay non-negative, its size plus twice the fewest presses for
   * the halved joltages; otherwise nothing.
   */
  function Candidate(sx: seq<SubsetXor>, js: seq<int>, k: nat): Option<nat>
    requires NonNegative(js) && |js| <= 32 && !AllZero(js) && k < |sx|
    decreases Sum(js), 0
  {
    var (subset, xor) := sx[k];
    var halved := Halved(js, subset);
    if xor == Parity(js) && NonNegative(halved) then
      SumNonNegative(js);
      HalvedSmaller(js, subset);
      match Fewest(sx, halved)
      case None => None
      case Some(c) => Some(|subset| + 2 * c)
    else None
  }

  /** What each of the first `k` subsets offers, in order. */
  function Candidates(sx: seq<SubsetXor>, js: seq<int>, k: nat): (cs: seq<Option<nat>>)
    requires NonNegative(js) && |js| <= 32 && !AllZero(js) && k <= |sx|
    ensures |cs| == k && forall j | 0 <= j < k :: cs[j] == Candidate(sx, js, j)
  {
    seq(k, j requires 0 <= j < k => Candidate(sx, js, j))
  }

  /** `best` is None exactly when every offer is None, else the least offer, made by some entry. */
  predicate Least(best: Option<nat>, cs: seq<Option<nat>>) {
    && (best.None? <==> forall j | 0 <= j < |cs| :: cs[j].None?)
    && (best.Some? ==>
      && (exists j | 0 <= j < |cs| :: cs[j] == best)
      && (forall j | 0 <= j < |cs| && cs[j].Some? :: best.value <= cs[j].value))
  }

  /** One more offer folded in with `Combine` keeps `best` the least offer. */
  lemma LeastStep(cs: seq<Option<nat>>, before: Option<nat>, best: Option<nat>)
    requires |cs| >= 1 && Least(before, cs[..|cs| - 1])
    requires best == Combine(before, cs[|cs| - 1])
    ensures Least(best, cs)
  {
    var n := |cs| - 1;
    var here := cs[n];
    CombineIgnoresNone(before, here);
    assert forall j | 0 <= j < n :: cs[..n][j] == cs[j];
    if before.Some? && (here.None? || before.value <= here.value) {
      assert best == before;
      var j :| 0 <= j < n && cs[..n][j] == before;
      assert cs[j] == best;
    } else if here.Some? {
      assert best == here;
    }
  }

  /**
   * The loop's result is the least count any subset offers, and None only
   * when no subset offers one.
   */
  lemma {:induction false} BestIsLeast(sx: seq<SubsetXor>, js: seq<int>, k: nat)
    requires NonNegative(js) && |js| <= 32 && !AllZero(js) && k <= |sx|
    ensures Least(BestUpTo(sx, js, k), Candidates(sx, js, k))
    decreases k
  {
    if k > 0 {
      var cs := Candidates(sx, js, k);
      assert Least(BestUpTo(sx, js, k - 1), cs[..k - 1]) by {
        BestIsLeast(sx, js, k - 1);
        assert cs[..k - 1] == Candidates(sx, js, k - 1);
      }
      assert BestUpTo(sx, js, k) == Combine(BestUpTo(sx, js, k - 1), cs[k - 1]);
      LeastStep(cs, BestUpTo(sx, js, k - 1), BestUpTo(sx, js, k));
    }
  }

  /** `fewest_joltage_presses_recur`, with its loop over the subsets. */
  method FewestRecur(sx: seq<SubsetXor>, js: seq<int>) returns (r: Option<nat>)
    requires Admissible(js)
    ensures r == Fewest(sx, js)
    decreases Sum(js), 1
  {
    SumNonNegative(js);
    if AllZero(js) {
      return Some(0);
    }
    var parity := Parity(js);
    var best: Option<nat> := None;
    for k := 0 to |sx|
      invariant best == BestUpTo(sx, js, k)
    {
      var count := PressCount(sx, js, k, parity);
      best := Combine(best, count);
    }
    return best;
  }

  /** The loop body for subset `k`: its press count when its XOR matches the parity and the halves stay non-negative. */
  method PressCount(sx: seq<SubsetXor>, js: seq<int>, k: nat, parity: Mask) returns (count: Option<nat>)
    requires Admissible(js) && !AllZero(js) && k < |sx| && parity == Parity(js)
    ensures count == Candidate(sx, js, k)
    decreases Sum(js), 0
  {
    var (subset, xor) := sx[k];
    count := None;
    if xor == parity {
      var halved := NewJoltages(js, subset);
      assert halved == Halved(js, subset);
      if NonNegative(halved) {
        HalvedSmaller(js, subset);
        SumNonNegative(js);
        SumNonNegative(halved);
        var fewest := FewestRecur(sx, halved);
        count := if fewest.Some? then Some(|subset| + 2 * fewest.value) else None;
      }
    }
  }

  // ---------------------------------------------------------------------
  // What a count means: a way of pressing buttons
  // ---------------------------------------------------------------------

  /** Every press is one of the buttons. */
  predicate DrawnFrom(presses: seq<Mask>, buttons: seq<Mask>) {
    forall t | 0 <= t < |presses| :: presses[t] in buttons
  }

  /** Every subset holds buttons only and is paired with its own XOR. */
  predicate SubsetsOf(sx: seq<SubsetXor>, buttons: seq<Mask>) {
    forall e | 0 <= e < |sx| :: DrawnFrom(sx[e].0, buttons) && sx[e].1 == XorAll(sx[e].0)
  }

  /** Pressing these buttons raises counter `i` to `js[i]`, for every `i`. */
  predicate Achieves(presses: seq<Mask>, js: seq<int>) {
    forall i | 0 <= i < |js| :: Count(presses, MaskAt(i)) == js[i]
  }

  lemma AchievesDoubled(subset: seq<Mask>, rest: seq<Mask>, js: seq<int>)
    requires |js| <= 32 && NonNegative(js)
    requires XorAll(subset) == Parity(js) && NonNegative(Halved(js, subset))
    requires Achieves(rest, Halved(js, subset))
    ensures Achieves(subset + rest + rest, js)
  {
    HalvedExact(js, subset);
    forall i | 0 <= i < |js| ensures Count(subset + rest + rest, MaskAt(i)) == js[i] {
      CountAppend(subset, rest, MaskAt(i));
      CountAppend(subset + rest, rest, MaskAt(i));
    }
  }

  lemma {:induction false} CountNone(s: seq<Mask>)
    ensures Count(s, {}) == 0
    decreases |s|
  {
    if s != [] {
      CountNone(s[..|s| - 1]);
    }
  }

  /**
   * A count the recursion returns is a real way of pressing the buttons:
   * that many presses, each of a button in some subset, reaching exactly
   * the joltages.
   */
  lemma {:induction false} FewestSound(sx: seq<SubsetXor>, js: seq<int>, buttons: seq<Mask>)
    requires Admissible(js) && SubsetsOf(sx, buttons) && Fewest(sx, js).Some?
    ensures exists presses ::
      |presses| == Fewest(sx, js).value && DrawnFrom(presses, buttons) && Achieves(presses, js)
    decreases Sum(js), 2
  {
    SumNonNegative(js);
    if AllZero(js) {
      forall i | 0 <= i < |js| ensures Count([], MaskAt(i)) == js[i] {
      }
      assert Achieves([], js);
    } else {
      BestSound(sx, js, |sx|, buttons);
    }
  }

  lemma {:induction false} BestSound(sx: seq<SubsetXor>, js: seq<int>, k: nat, buttons: seq<Mask>)
    requires NonNegative(js) && |js| <= 32 && !AllZero(js) && k <= |sx|
    requires SubsetsOf(sx, buttons) && BestUpTo(sx, js, k).Some?
    ensures exists presses ::
      |presses| == BestUpTo(sx, js, k).value && DrawnFrom(presses, buttons) && Achieves(presses, js)
    decreases Sum(js), 1, k
  {
    SumNonNegative(js);
    BestIsLeast(sx, js, k);
    var j :| 0 <= j < k && Candidates(sx, js, k)[j] == BestUpTo(sx, js, k);
    CandidateSound(sx, js, j, buttons);
  }

  lemma {:induction false} CandidateSound(sx: seq<SubsetXor>, js: seq<int>, k: nat, buttons: seq<Mask>)
    requires NonNegative(js) && |js| <= 32 && !AllZero(js) && k < |sx|
    requires SubsetsOf(sx, buttons) && Candidate(sx, js, k).Some?
    ensures exists presses ::
      |presses| == Candidate(sx, js, k).value && DrawnFrom(presses, buttons) && Achieves(presses, js)
    decreases Sum(js), 0
  {
    var subset := sx[k].0;
    var halved := Halved(js, subset);
    SumNonNegative(js);
    HalvedSmaller(js, subset);
    FewestSound(sx, halved, buttons);
    var rest :| |rest| == Fewest(sx, halved).value && DrawnFrom(rest, buttons) && Achieves(rest, halved);
    AchievesDoubled(subset, rest, js);
    var presses := subset + rest + rest;
    assert DrawnFrom(subset, buttons);
    assert DrawnFrom(presses, buttons);
  }

  // ---------------------------------------------------------------------
  // parse_line and parse_nums
  // ---------------------------------------------------------------------

  /** A machine as `parse_line` builds it; the lights are read but not used. */
  datatype Machine = Machine(lights: Mask, buttons: seq<seq<nat>>, joltages: seq<int>)

  function ParseNum(p: string): Option<nat> {
    ParseUnsigned(p, U32_MAX)
  }

  /** `parse_nums`: the comma-separated `u32`s, None when one fails to parse. */
  function ParseNums(s: string): Option<seq<nat>> {
    Collect(Split(s, ','), ParseNum)
  }

  /** `j as i32` on a `u32`: values above `i32::MAX` wrap to negative. */
  function AsI32(v: nat): int {
    if v > I32_MAX then v - 0x1_0000_0000 else v
  }

  function AsI32s(vs: seq<nat>): (r: seq<int>)
    ensures |r| == |vs|
  {
    seq(|vs|, i requires 0 <= i < |vs| => AsI32(vs[i]))
  }

  /** The positions of the '#' lights. */
  function LightsOn(middle: string): Mask {
    set i: nat | i < |middle| && middle[i] == '#'
  }

  /**
   * One whitespace-separated part. Slicing off the brackets panics on a
   * one-character part, `1 << i` on a '#' at position 32 or beyond, a
   * number that is not a `u32` on its `unwrap`, and any other first
   * character is `unreachable!`.
   */
  function Take(m: Machine, part: string): Option<Machine> {
    if |part| < 2 then None
    else
      var middle := part[1..|part| - 1];
      if part[0] == '[' then
        var on := LightsOn(middle);
        if forall i | i in on :: i < 32 then Some(m.(lights := on)) else None
      else if part[0] == '(' then
        match ParseNums(middle)
        case None => None
        case Some(b) => Some(m.(buttons := m.buttons + [b]))
      else if part[0] == '{' then
        match ParseNums(middle)
        case None => None
        case Some(js) => Some(m.(joltages := AsI32s(js)))
      else None
  }

  /** The machine after the first `k` parts. */
  function TakenUpTo(parts: seq<string>, k: nat): Option<Machine>
    requires k <= |parts|
  {
    if k == 0 then Some(Machine({}, [], []))
    else
      match TakenUpTo(parts, k - 1)
      case None => None
      case Some(m) => Take(m, parts[k - 1])
  }

  function MachineOf(line: string): Option<Machine> {
    var parts := SplitWhitespace(line);
    TakenUpTo(parts, |parts|)
  }

  /** `parse_line`. */
  method ParseLine(line: string) returns (r: Option<Machine>)
    ensures r == MachineOf(line)
  {
    var parts := SplitWhitespace(line);
    var m := Machine({}, [], []);
    for k := 0 to |parts|
      invariant TakenUpTo(parts, k) == Some(m)
    {
      var next := Take(m, parts[k]);
      if next.None? {
        assert TakenUpTo(parts, |parts|).None? by {
          TakenStaysNone(parts, k + 1, |parts|);
        }
        return None;
      }
      m := next.value;
    }
    return Some(m);
  }

  lemma {:induction false} TakenStaysNone(parts: seq<string>, k: nat, n: nat)
    requires k <= n <= |parts| && TakenUpTo(parts, k).None?
    ensures TakenUpTo(parts, n).None?
    decreases n - k
  {
    if k < n {
      TakenStaysNone(parts, k + 1, n);
    }
  }

  /** Whether a part is accepted does not depend on what came before it. */
  predicate Accepted(part: string) {
    Take(Machine({}, [], []), part).Some?
  }

  /** Each of the first `k` parts is accepted. */
  predicate AllAccepted(parts: seq<string>, k: nat)
    requires k <= |parts|
  {
    forall j | 0 <= j < k :: Accepted(parts[j])
  }

  /** The button list a '(' part adds; nothing for other parts. */
  function ButtonsOf(part: string): seq<seq<nat>> {
    if |part| >= 2 && part[0] == '(' && ParseNums(part[1..|part| - 1]).Some?
    then [ParseNums(part[1..|part| - 1]).value]
    else []
  }

  /** The buttons of the '(' parts, in order. */
  function ButtonLists(parts: seq<string>): seq<seq<nat>> {
    if parts == [] then [] else ButtonLists(parts[..|parts| - 1]) + ButtonsOf(parts[|parts| - 1])
  }

  lemma TakeStep(m: Machine, part: string)
    ensures Take(m, part).Some? <==> Accepted(part)
    ensures Take(m, part).Some? ==> Take(m, part).value.buttons == m.buttons + ButtonsOf(part)
  {
  }

  /**
   * A line parses exactly when every part is accepted on its own, and its
   * buttons are then the '(' parts' number lists, in the order written.
   */
  lemma TakenParts(parts: seq<string>, k: nat)
    requires k <= |parts|
    ensures TakenUpTo(parts, k).Some? <==> AllAccepted(parts, k)
    ensures TakenUpTo(parts, k).Some? ==> TakenUpTo(parts, k).value.buttons == ButtonLists(parts[..k])
  {
    TakenAccepted(parts, k);
    TakenButtons(parts, k);
  }

  /** A line's first `k` parts parse exactly when each is accepted. */
  lemma {:induction false} TakenAccepted(parts: seq<string>, k: nat)
    requires k <= |parts|
    ensures TakenUpTo(parts, k).Some? <==> AllAccepted(parts, k)
    decreases k
  {
    if k > 0 {
      TakenAccepted(parts, k - 1);
      TakenStep(parts, k);
      AllAcceptedStep(parts, k);
      AcceptedChain(TakenUpTo(parts, k - 1).Some?, TakenUpTo(parts, k).Some?,
                    AllAccepted(parts, k - 1), Accepted(parts[k - 1]), AllAccepted(parts, k));
    }
  }

  /** The first `k` parts are all accepted exactly when the first `k - 1` are and part `k - 1` is. */
  lemma AllAcceptedStep(parts: seq<string>, k: nat)
    requires 0 < k <= |parts|
    ensures AllAccepted(parts, k) <==> AllAccepted(parts, k - 1) && Accepted(parts[k - 1])
  {
  }

  /** The induction step of `TakenAccepted`, on truth values alone. */
  lemma AcceptedChain(before: bool, now: bool, earlier: bool, last: bool, all: bool)
    requires now <==> before && last
    requires before <==> earlier
    requires all <==> earlier && last
    ensures now <==> all
  {
  }

  /** When the first `k` parts parse, the machine's buttons are theirs, in order. */
  lemma {:induction false} TakenButtons(parts: seq<string>, k: nat)
    requires k <= |parts|
    ensures TakenUpTo(parts, k).Some? ==> TakenUpTo(parts, k).value.buttons == ButtonLists(parts[..k])
    decreases k
  {
    if k > 0 {
      TakenButtons(parts, k - 1);
      TakenStep(parts, k);
      ButtonListsStep(parts, k);
      ButtonsChain(TakenUpTo(parts, k - 1), TakenUpTo(parts, k),
                   ButtonLists(parts[..k - 1]), ButtonsOf(parts[k - 1]), ButtonLists(parts[..k]));
    }
  }

  /** The induction step of `TakenButtons`, on the two machines alone. */
  lemma ButtonsChain(before: Option<Machine>, now: Option<Machine>, earlier: seq<seq<nat>>, added: seq<seq<nat>>, all: seq<seq<nat>>)
    requires now.Some? ==> before.Some? && now.value.buttons == before.value.buttons + added
    requires before.Some? ==> before.value.buttons == earlier
    requires all == earlier + added
    ensures now.Some? ==> now.value.buttons == all
  {
  }

  /** One more part adds its own buttons behind those of the parts before it. */
  lemma ButtonListsStep(parts: seq<string>, k: nat)
    requires 0 < k <= |parts|
    ensures ButtonLists(parts[..k]) == ButtonLists(parts[..k - 1]) + ButtonsOf(parts[k - 1])
  {
    assert parts[..k][..k - 1] == parts[..k - 1];
  }

  /** One more part: the machine survives exactly when the part is accepted, gaining its buttons. */
  lemma TakenStep(parts: seq<string>, k: nat)
    requires 0 < k <= |parts|
    ensures TakenUpTo(parts, k).Some? <==> TakenUpTo(parts, k - 1).Some? && Accepted(parts[k - 1])
    ensures TakenUpTo(parts, k).Some? ==>
      TakenUpTo(parts, k).value.buttons == TakenUpTo(parts, k - 1).value.buttons + ButtonsOf(parts[k - 1])
  {
    var before := TakenUpTo(parts, k - 1);
    if before.Some? {
      assert TakenUpTo(parts, k) == Take(before.value, parts[k - 1]);
      TakeStep(before.value, parts[k - 1]);
    }
  }

  // ---------------------------------------------------------------------
  // fewest_joltage_presses and part_two
  // ---------------------------------------------------------------------

  /** Each subset beside the XOR of its buttons. */
  function SubsetXors(subsets: seq<seq<Mask>>): (sx: seq<SubsetXor>)
    ensures |sx| == |subsets|
  {
    seq(|subsets|, i requires 0 <= i < |subsets| => (subsets[i], XorAll(subsets[i])))
  }

  /**
   * `fewest_joltage_presses` on non-negative joltages: None where a button
   * shift panics, where more than 32 non-zero joltages make the parity
   * shift panic, or where the recursion finds nothing and `unwrap` panics.
   */
  function FewestOf(m: Machine): Option<nat>
    requires NonNegative(m.joltages)
  {
    match BinaryButtons(m.buttons)
    case None => None
    case Some(bb) =>
      if Admissible(m.joltages) then Fewest(SubsetXors(SubsetsUpTo(bb, |bb| + 1)), m.joltages) else None
  }

  /** `fewest_joltage_presses`. */
  method FewestPresses(m: Machine) returns (r: Option<nat>)
    requires NonNegative(m.joltages)
    ensures r == FewestOf(m)
  {
    var bb := BinaryButtons(m.buttons);
    if bb.None? || !Admissible(m.joltages) {
      return None;
    }
    var subsets := Subsets(bb.value);
    r := FewestRecur(SubsetXors(subsets), m.joltages);
  }

  /** How often the pressed buttons (indices into `buttons`) feed counter `i`. */
  function Feeds(presses: seq<nat>, buttons: seq<seq<nat>>, i: nat): nat
    requires forall t | 0 <= t < |presses| :: presses[t] < |buttons|
  {
    if presses == [] then 0
    else
      var n := |presses| - 1;
      Feeds(presses[..n], buttons, i) + (if i in buttons[presses[n]] then 1 else 0)
  }

  /** A button index for each pressed mask. */
  ghost function Indices(presses: seq<Mask>, bb: seq<Mask>): (r: seq<nat>)
    requires DrawnFrom(presses, bb)
    ensures |r| == |presses|
    ensures forall t | 0 <= t < |r| :: r[t] < |bb| && bb[r[t]] == presses[t]
  {
    if presses == [] then []
    else
      var n := |presses| - 1;
      assert DrawnFrom(presses[..n], bb);
      var j :| 0 <= j < |bb| && bb[j] == presses[n];
      Indices(presses[..n], bb) + [j]
  }

  lemma {:induction false} FeedsCount(presses: seq<Mask>, buttons: seq<seq<nat>>, bb: seq<Mask>, i: nat)
    requires BinaryButtons(buttons) == Some(bb) && DrawnFrom(presses, bb) && i < 32
    ensures Feeds(Indices(presses, bb), buttons, i) == Count(presses, MaskAt(i))
    decreases |presses|
  {
    if presses != [] {
      var n := |presses| - 1;
      assert DrawnFrom(presses[..n], bb);
      var idx := Indices(presses, bb);
      assert idx[..n] == Indices(presses[..n], bb);
      FeedsCount(presses[..n], buttons, bb, i);
      ButtonMaskBits(buttons[idx[n]], i);
      MeetsBit(presses[n], i);
    }
  }

  /**
   * The count `fewest_joltage_presses` returns is achievable: there is a
   * sequence of that many button presses after which every counter `i` has
   * been fed exactly `joltages[i]` times.
   */
  lemma FewestPressesSound(m: Machine)
    requires NonNegative(m.joltages) && FewestOf(m).Some?
    ensures exists presses: seq<nat> ::
      && |presses| == FewestOf(m).value
      && (forall t | 0 <= t < |presses| :: presses[t] < |m.buttons|)
      && (forall i | 0 <= i < |m.joltages| :: Feeds(presses, m.buttons, i) == m.joltages[i])
  {
    var bb := BinaryButtons(m.buttons).value;
    var subsets := SubsetsUpTo(bb, |bb| + 1);
    var sx := SubsetXors(subsets);
    SubsetsWithin(bb, |bb| + 1);
    assert SubsetsOf(sx, bb);
    FewestSound(sx, m.joltages, bb);
    var masks :| |masks| == Fewest(sx, m.joltages).value && DrawnFrom(masks, bb) && Achieves(masks, m.joltages);
    var presses := Indices(masks, bb);
    forall i | 0 <= i < |m.joltages| ensures Feeds(presses, m.buttons, i) == m.joltages[i] {
      if i < 32 {
        FeedsCount(masks, m.buttons, bb, i);
      } else {
        assert AllZero(m.joltages);
        SumNonNegative(m.joltages);
        assert Fewest(sx, m.joltages) == Some(0);
      }
    }
  }

  /** One machine of part two, None where the source panics or the joltages are out of the model. */
  function LineFewest(line: string): Option<nat> {
    match MachineOf(line)
    case None => None
    case Some(m) => if NonNegative(m.joltages) then FewestOf(m) else None
  }

  /** `fewest_joltage_presses` after `parse_line`, for one line. */
  method MachineFewest(line: string) returns (r: Option<nat>)
    ensures r == LineFewest(line)
  {
    var m := ParseLine(line);
    if m.None? || !NonNegative(m.value.joltages) {
      return None;
    }
    r := FewestPresses(m.value);
  }

  /** The answer for each machine, line by line. */
  function LineFewests(lines: seq<string>): (ns: seq<Option<nat>>)
    ensures |ns| == |lines|
  {
    if lines == [] then [] else LineFewests(lines[..|lines| - 1]) + [LineFewest(lines[|lines| - 1])]
  }

  lemma LineFewestsSnoc(lines: seq<string>, k: nat)
    requires k < |lines|
    ensures LineFewests(lines[..k + 1]) == LineFewests(lines[..k]) + [LineFewest(lines[k])]
  {
    assert lines[..k + 1][..k] == lines[..k];
  }

  /** `part_two`: a panic on any line is a panic of the whole. */
  method PartTwo(lines: seq<string>) returns (r: Option<nat>)
    ensures r == Tally(LineFewests(lines))
  {
    r := Some(0);
    for k := 0 to |lines|
      invariant r == Tally(LineFewests(lines[..k]))
    {
      var n := MachineFewest(lines[k]);
      LineFewestsSnoc(lines, k);
      TallySnoc(LineFewests(lines[..k]), n);
      r := if r.None? || n.None? then None else Some(r.value + n.value);
    }
    assert lines[..|lines|] == lines;
  }

  // ---------------------------------------------------------------------
  // Summing per-line answers
  // ---------------------------------------------------------------------

  /** The sum of the answers, None as soon as one line panics. */
  function Tally(ns: seq<Option<nat>>): (r: Option<nat>)
    ensures r.None? <==> exists k | 0 <= k < |ns| :: ns[k].None?
  {
    if ns == [] then Some(0)
    else
      var n := |ns| - 1;
      assert forall k | 0 <= k < n :: ns[..n][k] == ns[k];
      match Tally(ns[..n])
      case None => None
      case Some(total) => if ns[n].None? then None else Some(total + ns[n].value)
  }

  lemma TallySnoc(ns: seq<Option<nat>>, n: Option<nat>)
    ensures Tally(ns + [n]) == if Tally(ns).None? || n.None? then None else Some(Tally(ns).value + n.value)
  {
    var longer := ns + [n];
    assert longer[..|ns|] == ns && longer[|ns|] == n;
  }

  // =====================================================================
  // Part one
  // =====================================================================

  /**
   * What `part_one` keeps while reading a line: the indicator diagram, the
   * `length` it shifts button bits against, and the schematics read so far.
   */
  datatype Diagram = Diagram(indicator: Mask, length: nat, schematics: seq<Mask>)

  /**
   * The lights as a binary number, first light most significant: light `k`
   * of `L` is bit `L - 1 - k`, set unless the light is '.'.
   */
  function LightBits(middle: string): Mask {
    set k: nat | k < |middle| && middle[k] != '.' :: |middle| - 1 - k
  }

  lemma LightBitsAt(middle: string, p: nat)
    ensures p in LightBits(middle) <==> p < |middle| && middle[|middle| - 1 - p] != '.'
  {
    if p < |middle| && middle[|middle| - 1 - p] != '.' {
      var k: nat := |middle| - 1 - p;
      assert |middle| - 1 - k == p;
    }
  }

  /**
   * A '[' segment: its lights and `length`, which is one less than the
   * number of lights. A segment of one character panics on the slice, one
   * of two on the `u32` subtraction, and a light 32 or more places from
   * the right on `from_str_radix`.
   */
  function ReadLights(segment: string): Option<(Mask, nat)> {
    if |segment| < 3 then None
    else
      var bits := LightBits(segment[1..|segment| - 1]);
      if forall p | p in bits :: p < 32 then Some((bits, |segment| - 3)) else None
  }

  /**
   * The fold `acc | 1 << length - x` over a '(' segment's numbers: None
   * when a number is no `u32`, exceeds `length` or shifts by 32 or more.
   */
  function ButtonBits(parts: seq<string>, length: nat): Option<Mask> {
    if parts == [] then Some({})
    else
      match ParseNum(parts[0])
      case None => None
      case Some(x) =>
        if x > length || length - x >= 32 then None
        else
          match ButtonBits(parts[1..], length)
          case None => None
          case Some(rest) => Some({length - x} + rest)
  }

  /**
   * Button bit `p` is set exactly when the button lists light
   * `length - p`, the light whose own bit is `p`.
   */
  lemma {:induction false} ButtonBitsAt(parts: seq<string>, length: nat, p: nat)
    requires ButtonBits(parts, length).Some?
    ensures p in ButtonBits(parts, length).value <==>
      p <= length && exists k | 0 <= k < |parts| :: ParseNum(parts[k]) == Some(length - p)
    decreases |parts|
  {
    if parts != [] {
      ButtonBitsAt(parts[1..], length, p);
      if p <= length && exists k | 1 <= k < |parts| :: ParseNum(parts[k]) == Some(length - p) {
        var k :| 1 <= k < |parts| && ParseNum(parts[k]) == Some(length - p);
        assert parts[1..][k - 1] == parts[k];
      }
    }
  }

  /** One space-separated segment; '{' segments and the rest are skipped. */
  function Absorb(d: Diagram, segment: string): Option<Diagram> {
    if segment == [] then None
    else if segment[0] == '[' then
      match ReadLights(segment)
      case None => None
      case Some((bits, length)) => Some(Diagram(bits, length, d.schematics))
    else if segment[0] == '(' then
      if |segment| < 2 then None
      else
        match ButtonBits(Split(segment[1..|segment| - 1], ','), d.length)
        case None => None
        case Some(b) => Some(d.(schematics := d.schematics + [b]))
    else Some(d)
  }

  /** The diagram after the first `k` segments. */
  function AbsorbedUpTo(segments: seq<string>, k: nat): Option<Diagram>
    requires k <= |segments|
  {
    if k == 0 then Some(Diagram({}, 0, []))
    else
      match AbsorbedUpTo(segments, k - 1)
      case None => None
      case Some(d) => Absorb(d, segments[k - 1])
  }

  function DiagramOf(line: string): Option<Diagram> {
    var segments := Split(line, ' ');
    AbsorbedUpTo(segments, |segments|)
  }

  /** The reading loop of `part_one` for one line. */
  method ReadDiagram(line: string) returns (r: Option<Diagram>)
    ensures r == DiagramOf(line)
  {
    var segments := Split(line, ' ');
    r := Some(Diagram({}, 0, []));
    for k := 0 to |segments|
      invariant r == AbsorbedUpTo(segments, k)
    {
      if r.Some? {
        r := Absorb(r.value, segments[k]);
      }
    }
  }

  /** A segment's effect on the schematics does not depend on the lights seen. */
  lemma AbsorbKeepsSchematics(d: Diagram, segment: string)
    requires Absorb(d, segment).Some?
    ensures
      || Absorb(d, segment).value.schematics == d.schematics
      || (exists b :: Absorb(d, segment).value.schematics == d.schematics + [b])
    ensures |segment| >= 1 && segment[0] == '(' ==> |Absorb(d, segment).value.schematics| == |d.schematics| + 1
    ensures |segment| >= 1 && segment[0] != '(' ==> Absorb(d, segment).value.schematics == d.schematics
    ensures |segment| >= 1 && segment[0] != '[' ==>
      Absorb(d, segment).value.indicator == d.indicator && Absorb(d, segment).value.length == d.length
  {
  }

  // ---------------------------------------------------------------------
  // The search over press counts
  // ---------------------------------------------------------------------

  /** Every way of pressing `i` buttons, as `combinations_with_repetition` lists them. */
  function Presses(sch: seq<Mask>, i: nat): seq<seq<Mask>> {
    PickAll(sch, [], Multichoose(|sch|, i, 0))
  }

  /** Some way of pressing `i` buttons toggles exactly the indicator's lights. */
  predicate Reachable(indicator: Mask, sch: seq<Mask>, i: nat) {
    exists m | 0 <= m < |Presses(sch, i)| :: XorAll(Presses(sch, i)[m]) == indicator
  }

  /**
   * The pressed buttons are exactly a multiset of `i` buttons, chosen with
   * repetition and in no particular order.
   */
  lemma ReachableMeans(indicator: Mask, sch: seq<Mask>, i: nat)
    ensures Reachable(indicator, sch, i) <==>
      exists idx :: Multichoice(idx, i, 0, |sch|) && XorAll(Pick(sch, idx)) == indicator
  {
    if Reachable(indicator, sch, i) {
      var m :| 0 <= m < |Presses(sch, i)| && XorAll(Presses(sch, i)[m]) == indicator;
      PressesAt(sch, i, m);
    }
    if exists idx :: Multichoice(idx, i, 0, |sch|) && XorAll(Pick(sch, idx)) == indicator {
      var idx :| Multichoice(idx, i, 0, |sch|) && XorAll(Pick(sch, idx)) == indicator;
      MultichooseMembers(|sch|, i, 0, idx);
      var m :| 0 <= m < |Multichoose(|sch|, i, 0)| && Multichoose(|sch|, i, 0)[m] == idx;
      PressesAt(sch, i, m);
    }
  }

  /** Way `m` of pressing `i` buttons picks the buttons at the `m`-th multichoice. */
  lemma PressesAt(sch: seq<Mask>, i: nat, m: nat)
    requires m < |Multichoose(|sch|, i, 0)|
    ensures Multichoice(Multichoose(|sch|, i, 0)[m], i, 0, |sch|)
    ensures Presses(sch, i)[m] == Pick(sch, Multichoose(|sch|, i, 0)[m])
  {
    var ls := Multichoose(|sch|, i, 0);
    PickAllAt(sch, [], ls);
    MultichooseMembers(|sch|, i, 0, ls[m]);
    assert [] + Pick(sch, ls[m]) == Pick(sch, ls[m]);
  }

  /** The first count from `i` up to 99 that reaches the indicator, or 0 when none does. */
  function FirstReachable(indicator: Mask, sch: seq<Mask>, i: nat): nat
    decreases 100 - i
  {
    if i >= 100 then 0
    else if Reachable(indicator, sch, i) then i
    else FirstReachable(indicator, sch, i + 1)
  }

  /** The count found is the least that reaches, and 0 means none below 100 does. */
  lemma {:induction false} FirstReachableLeast(indicator: Mask, sch: seq<Mask>, i: nat)
    ensures FirstReachable(indicator, sch, i) != 0 ==>
      && i <= FirstReachable(indicator, sch, i) < 100
      && Reachable(indicator, sch, FirstReachable(indicator, sch, i))
      && forall j | i <= j < FirstReachable(indicator, sch, i) :: !Reachable(indicator, sch, j)
    ensures FirstReachable(indicator, sch, i) == 0 ==>
      i == 0 || forall j | i <= j < 100 :: !Reachable(indicator, sch, j)
    decreases 100 - i
  {
    if i < 100 && !Reachable(indicator, sch, i) {
      FirstReachableLeast(indicator, sch, i + 1);
    }
  }

  /** The inner loop of the search: whether some combination's XOR is the indicator. */
  method AnyTogglesTo(combos: seq<seq<Mask>>, indicator: Mask) returns (found: bool)
    ensures found <==> exists m | 0 <= m < |combos| :: XorAll(combos[m]) == indicator
  {
    var c := 0;
    while c < |combos|
      invariant c <= |combos|
      invariant forall m | 0 <= m < c :: XorAll(combos[m]) != indicator
    {
      var check := XorAll(combos[c]);
      if indicator == check {
        return true;
      }
      c := c + 1;
    }
    return false;
  }

  /** The `for i in 1..100` search of `part_one`, 0 standing for no push. */
  method FewestLightPresses(indicator: Mask, sch: seq<Mask>) returns (presses: nat)
    ensures presses == FirstReachable(indicator, sch, 1)
  {
    var i := 1;
    while i < 100
      invariant 1 <= i <= 100
      invariant FirstReachable(indicator, sch, i) == FirstReachable(indicator, sch, 1)
      decreases 100 - i
    {
      var combos := CombinationsWithRepetition(sch, i);
      assert combos == Presses(sch, i);
      var found := AnyTogglesTo(combos, indicator);
      if found {
        return i;
      }
      assert !Reachable(indicator, sch, i);
      i := i + 1;
    }
    return 0;
  }

  /** The answer for one line of part one: the count pushed, 0 when none. */
  function LinePresses(line: string): Option<nat> {
    match DiagramOf(line)
    case None => None
    case Some(d) => Some(FirstReachable(d.indicator, d.schematics, 1))
  }

  function LinePressesAll(lines: seq<string>): (ns: seq<Option<nat>>)
    ensures |ns| == |lines|
  {
    if lines == [] then [] else LinePressesAll(lines[..|lines| - 1]) + [LinePresses(lines[|lines| - 1])]
  }

  lemma LinePressesSnoc(lines: seq<string>, k: nat)
    requires k < |lines|
    ensures LinePressesAll(lines[..k + 1]) == LinePressesAll(lines[..k]) + [LinePresses(lines[k])]
  {
    assert lines[..k + 1][..k] == lines[..k];
  }

  /** Entry `k` of the counts is line `k`'s count. */
  lemma {:induction false} LinePressesAt(lines: seq<string>, k: nat)
    requires k < |lines|
    ensures LinePressesAll(lines)[k] == LinePresses(lines[k])
    decreases |lines|
  {
    if k < |lines| - 1 {
      LinePressesAt(lines[..|lines| - 1], k);
    }
  }

  /** `part_one` for one line. */
  method LineLightPresses(line: string) returns (r: Option<nat>)
    ensures r == LinePresses(line)
  {
    var d := ReadDiagram(line);
    if d.None? {
      return None;
    }
    var n := FewestLightPresses(d.value.indicator, d.value.schematics);
    return Some(n);
  }

  /** `part_one`: the sum of the counts pushed, a panic on any line a panic of the whole. */
  method PartOne(lines: seq<string>) returns (r: Option<nat>)
    ensures r == Tally(LinePressesAll(lines))
  {
    ghost var ps := LinePressesAll(lines);
    r := Some(0);
    for k := 0 to |lines|
      invariant r == Tally(ps[..k])
    {
      var n := LineLightPresses(lines[k]);
      LinePressesAt(lines, k);
      assert ps[..k + 1] == ps[..k] + [n];
      TallySnoc(ps[..k], n);
      r := if r.None? || n.None? then None else Some(r.value + n.value);
    }
    assert ps[..|lines|] == ps;
  }
}
