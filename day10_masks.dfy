/**
 * Day 10 bit masks. A `u32` mask is modelled by the set of its bit
 * positions: `1 << i` is `{i}`, OR is union and XOR symmetric difference.
 * A button becomes the mask of the counters it feeds, a list of joltages
 * the mask of its odd entries, and pressing a set of buttons once each the
 * XOR of their masks. A shift of 32 or more panics in the source; the
 * functions below say where.
 */
module Day10Masks {
  import opened Wrappers

  type Mask = set<nat>

  /** `1u32 << i`. */
  function Bit(i: nat): Mask
    requires i < 32
  {
    {i}
  }

  /** `a ^ b`. */
  function Xor(a: Mask, b: Mask): Mask {
    (a - b) + (b - a)
  }

  predicate AllBelow32(b: seq<nat>) {
    forall t | 0 <= t < |b| :: b[t] < 32
  }

  // ---------------------------------------------------------------------
  // get_binary_buttons
  // ---------------------------------------------------------------------

  /**
   * One button: the bits `1 << n` over its counter indices, None when an
   * index makes the shift panic.
   */
  function ButtonMask(b: seq<nat>): (r: Option<Mask>)
    ensures r.Some? <==> AllBelow32(b)
  {
    if b == [] then Some({})
    else if b[0] >= 32 then None
    else
      match ButtonMask(b[1..])
      case None => None
      case Some(rest) => Some(Bit(b[0]) + rest)
  }

  /** Bit `i` of a button's mask is set exactly when the button feeds counter `i`. */
  lemma {:induction false} ButtonMaskBits(b: seq<nat>, i: nat)
    requires AllBelow32(b)
    ensures i in ButtonMask(b).value <==> i in b
    decreases |b|
  {
    if b != [] {
      ButtonMaskBits(b[1..], i);
      assert b == [b[0]] + b[1..];
    }
  }

  /** `get_binary_buttons`: None when some button's shift panics. */
  function BinaryButtons(buttons: seq<seq<nat>>): (r: Option<seq<Mask>>)
    ensures r.Some? <==> forall k | 0 <= k < |buttons| :: AllBelow32(buttons[k])
    ensures r.Some? ==> |r.value| == |buttons|
    ensures r.Some? ==> forall k | 0 <= k < |buttons| :: Some(r.value[k]) == ButtonMask(buttons[k])
  {
    if buttons == [] then Some([])
    else
      match ButtonMask(buttons[0])
      case None => None
      case Some(m) =>
        match BinaryButtons(buttons[1..])
        case None => None
        case Some(rest) =>
          assert forall k | 1 <= k < |buttons| :: buttons[k] == buttons[1..][k - 1];
          Some([m] + rest)
  }

  // ---------------------------------------------------------------------
  // Pressing a set of buttons once each
  // ---------------------------------------------------------------------

  /** `subset.iter().fold(0, |a, &b| a ^ b)`. */
  function XorAll(s: seq<Mask>): Mask {
    if s == [] then {} else Xor(XorAll(s[..|s| - 1]), s[|s| - 1])
  }

  /** How many of the masks share a bit with `mask`: `b & mask != 0`. */
  function Count(s: seq<Mask>, mask: Mask): (n: nat)
    ensures n <= |s|
  {
    if s == [] then 0 else Count(s[..|s| - 1], mask) + (if s[|s| - 1] * mask != {} then 1 else 0)
  }

  lemma {:induction false} CountAppend(s: seq<Mask>, t: seq<Mask>, mask: Mask)
    ensures Count(s + t, mask) == Count(s, mask) + Count(t, mask)
    decreases |t|
  {
    if t != [] {
      assert (s + t)[..|s + t| - 1] == s + t[..|t| - 1];
      assert (s + t)[|s + t| - 1] == t[|t| - 1];
      CountAppend(s, t[..|t| - 1], mask);
    } else {
      assert s + t == s;
    }
  }

  lemma MeetsBit(m: Mask, i: nat)
    requires i < 32
    ensures m * Bit(i) != {} <==> i in m
  {
    if i in m {
      assert i in m * Bit(i);
    } else {
      assert m * Bit(i) == {};
    }
  }

  /** Bit `i` of the XOR is set exactly when an odd number of the masks have it. */
  lemma {:induction false} XorParity(s: seq<Mask>, i: nat)
    requires i < 32
    ensures i in XorAll(s) <==> Count(s, Bit(i)) % 2 == 1
    decreases |s|
  {
    if s != [] {
      XorParity(s[..|s| - 1], i);
      MeetsBit(s[|s| - 1], i);
    }
  }

  // ---------------------------------------------------------------------
  // get_binary_joltages
  // ---------------------------------------------------------------------

  predicate NonNegative(js: seq<int>) {
    forall i | 0 <= i < |js| :: js[i] >= 0
  }

  predicate AllZero(js: seq<int>) {
    forall i | 0 <= i < |js| :: js[i] == 0
  }

  /**
   * `get_binary_joltages` on non-negative joltages: the sum of
   * `(1 << i) * (j % 2)`, whose terms are distinct bits. A list longer than
   * 32 makes the shift panic.
   */
  function Parity(js: seq<int>): Mask
    requires |js| <= 32 && NonNegative(js)
  {
    if js == [] then {}
    else
      var n := |js| - 1;
      Parity(js[..n]) + (if js[n] % 2 == 1 then Bit(n) else {})
  }

  /** Bit `i` of the parity mask is set exactly when joltage `i` is odd. */
  lemma {:induction false} ParityBits(js: seq<int>, i: nat)
    requires |js| <= 32 && NonNegative(js)
    ensures i in Parity(js) <==> i < |js| && js[i] % 2 == 1
    decreases |js|
  {
    if js != [] {
      ParityBits(js[..|js| - 1], i);
    }
  }

  // ---------------------------------------------------------------------
  // get_new_joltages
  // ---------------------------------------------------------------------

  /** The mask for joltage `i`: `1 << i`, shifted out to 0 from `i == 32` on. */
  function MaskAt(i: nat): Mask {
    if i < 32 then Bit(i) else {}
  }

  /** `mask << 1` on a `u32`: every bit moves up one place and bit 31 drops out. */
  function ShiftLeft(mask: Mask): Mask {
    set t | t in mask && t < 31 :: t + 1
  }

  lemma ShiftBit(i: nat)
    ensures ShiftLeft(MaskAt(i)) == MaskAt(i + 1)
  {
    if i < 31 {
      assert i + 1 in ShiftLeft(MaskAt(i));
    }
  }

  /** Rust's `/ 2` on `i32`, which truncates toward zero. */
  function TruncHalf(x: int): int {
    if x >= 0 then x / 2 else -((-x) / 2)
  }

  /** Joltage `i` less the buttons of the subset that feed it, halved. */
  function Halved(js: seq<int>, subset: seq<Mask>): (r: seq<int>)
    ensures |r| == |js|
  {
    seq(|js|, i requires 0 <= i < |js| => TruncHalf(js[i] - Count(subset, MaskAt(i))))
  }

  /**
   * `get_new_joltages`: the list has one entry per joltage, each being the
   * joltage less the number of subset buttons feeding its counter, halved
   * toward zero.
   */
  method NewJoltages(js: seq<int>, subset: seq<Mask>) returns (nj: seq<int>)
    ensures |nj| == |js|
    ensures forall i | 0 <= i < |js| :: nj[i] == TruncHalf(js[i] - Count(subset, MaskAt(i)))
  {
    nj := [];
    var mask: Mask := {0};
    for i := 0 to |js|
      invariant mask == MaskAt(i)
      invariant nj == Halved(js[..i], subset)
    {
      nj := nj + [TruncHalf(js[i] - Count(subset, mask))];
      ShiftBit(i);
      mask := ShiftLeft(mask);
    }
    assert js[..|js|] == js;
  }

  /**
   * When the subset's XOR matches the parity mask and the halved joltages
   * are non-negative, the halving is exact: each joltage is the subset's
   * count on it plus twice the new joltage.
   */
  lemma HalvedExact(js: seq<int>, subset: seq<Mask>)
    requires |js| <= 32 && NonNegative(js)
    requires XorAll(subset) == Parity(js) && NonNegative(Halved(js, subset))
    ensures forall i | 0 <= i < |js| :: js[i] == Count(subset, Bit(i)) + 2 * Halved(js, subset)[i]
  {
    forall i | 0 <= i < |js| ensures js[i] == Count(subset, Bit(i)) + 2 * Halved(js, subset)[i] {
      var c := Count(subset, Bit(i));
      assert c % 2 == js[i] % 2 by {
        XorParity(subset, i);
        ParityBits(js, i);
      }
      HalfOfEven(js[i], c);
    }
  }

  /** Halving an even difference toward zero is exact. */
  lemma HalfOfEven(a: int, b: int)
    requires a % 2 == b % 2
    ensures a - b == 2 * TruncHalf(a - b)
  {
  }

  function Sum(js: seq<int>): int {
    if js == [] then 0 else Sum(js[..|js| - 1]) + js[|js| - 1]
  }

  lemma {:induction false} SumNonNegative(js: seq<int>)
    requires NonNegative(js)
    ensures Sum(js) >= 0
    ensures Sum(js) == 0 <==> AllZero(js)
    decreases |js|
  {
    if js != [] {
      SumNonNegative(js[..|js| - 1]);
    }
  }

  lemma {:induction false} SumBelow(small: seq<int>, large: seq<int>)
    requires |small| == |large| && NonNegative(large)
    requires forall i | 0 <= i < |large| :: small[i] <= large[i]
    requires exists i | 0 <= i < |large| :: small[i] < large[i]
    ensures Sum(small) < Sum(large)
    decreases |large|
  {
    var n := |large| - 1;
    var sf, lf := small[..n], large[..n];
    if small[n] < large[n] {
      SumAtMost(sf, lf);
    } else {
      SumBelow(sf, lf);
    }
  }

  lemma {:induction false} SumAtMost(small: seq<int>, large: seq<int>)
    requires |small| == |large|
    requires forall i | 0 <= i < |large| :: small[i] <= large[i]
    ensures Sum(small) <= Sum(large)
    decreases |large|
  {
    if large != [] {
      var n := |large| - 1;
      SumAtMost(small[..n], large[..n]);
    }
  }

  /** The recursion's measure: a step on non-zero joltages lowers their sum. */
  lemma HalvedSmaller(js: seq<int>, subset: seq<Mask>)
    requires NonNegative(js) && !AllZero(js)
    ensures Sum(Halved(js, subset)) < Sum(js)
  {
    var h := Halved(js, subset);
    var k :| 0 <= k < |js| && js[k] != 0;
    assert h[k] < js[k];
    SumBelow(h, js);
  }
}
