/**
 * Day 10 enumerations: `combinations_with_repetition` (a recursive helper
 * that pushes and pops a working list and appends to a result list; the
 * list is a value here, passed with the pushed item to each call),
 * `get_combinations` (pure recursion) and `subsets` (a loop extending a
 * list). Each is generic in the element type; applied to the list of
 * positions `0, 1, ..., n - 1` it lists position choices, and applied to
 * any list it picks the elements at those positions.
 */
module Day10Combos {

  /** Every entry of `idx` names a position of a list of `n`. */
  predicate Below(idx: seq<nat>, n: nat) {
    forall t | 0 <= t < |idx| :: idx[t] < n
  }

  /** Every list of `ls` holds positions of a list of `n`. */
  predicate Positions(ls: seq<seq<nat>>, n: nat) {
    forall m | 0 <= m < |ls| :: Below(ls[m], n)
  }

  /** The elements of `items` at positions `idx`. */
  function Pick<T>(items: seq<T>, idx: seq<nat>): (r: seq<T>)
    requires Below(idx, |items|)
    ensures |r| == |idx|
  {
    if idx == [] then [] else [items[idx[0]]] + Pick(items, idx[1..])
  }

  lemma {:induction false} PickAt<T>(items: seq<T>, idx: seq<nat>)
    requires Below(idx, |items|)
    ensures forall t | 0 <= t < |idx| :: Pick(items, idx)[t] == items[idx[t]]
    decreases |idx|
  {
    if idx != [] {
      PickAt(items, idx[1..]);
    }
  }

  /** `Pick` applied to each position list, each result after `prefix`. */
  function PickAll<T>(items: seq<T>, prefix: seq<T>, ls: seq<seq<nat>>): (r: seq<seq<T>>)
    requires Positions(ls, |items|)
    ensures |r| == |ls|
  {
    if ls == [] then [] else [prefix + Pick(items, ls[0])] + PickAll(items, prefix, ls[1..])
  }

  lemma {:induction false} PickAllAt<T>(items: seq<T>, prefix: seq<T>, ls: seq<seq<nat>>)
    requires Positions(ls, |items|)
    ensures forall m | 0 <= m < |ls| :: PickAll(items, prefix, ls)[m] == prefix + Pick(items, ls[m])
    decreases |ls|
  {
    if ls != [] {
      PickAllAt(items, prefix, ls[1..]);
    }
  }

  predicate Distinct<T(==)>(s: seq<T>) {
    forall a, b | 0 <= a < b < |s| :: s[a] != s[b]
  }

  // ---------------------------------------------------------------------
  // combinations_with_repetition
  // ---------------------------------------------------------------------

  predicate NonDecreasing(l: seq<nat>) {
    forall a, b | 0 <= a < b < |l| :: l[a] <= l[b]
  }

  /** A length-`r` non-decreasing list of positions in `[start, n)`. */
  predicate Multichoice(l: seq<nat>, r: nat, start: nat, n: nat) {
    |l| == r && NonDecreasing(l) && forall t | 0 <= t < |l| :: start <= l[t] < n
  }

  function Prepend(i: nat, ls: seq<seq<nat>>): (r: seq<seq<nat>>)
    ensures |r| == |ls| && forall m | 0 <= m < |ls| :: r[m] == [i] + ls[m]
  {
    if ls == [] then [] else [[i] + ls[0]] + Prepend(i, ls[1..])
  }

  /**
   * The position lists the helper produces when `r` more items are to be
   * chosen from position `start` on, in the order it produces them.
   */
  function Multichoose(n: nat, r: nat, start: nat): (ls: seq<seq<nat>>)
    requires start <= n
    ensures Positions(ls, n)
    decreases r, 1
  {
    if r == 0 then [[]] else MultichooseUpTo(n, r, start, n)
  }

  /** The lists whose first position lies in `[lo, hi)`. */
  function MultichooseUpTo(n: nat, r: nat, lo: nat, hi: nat): (ls: seq<seq<nat>>)
    requires 1 <= r && lo <= hi <= n
    ensures Positions(ls, n)
    decreases r, 0, hi - lo
  {
    if hi == lo then []
    else
      var front, tails := MultichooseUpTo(n, r, lo, hi - 1), Multichoose(n, r - 1, hi - 1);
      var block := Prepend(hi - 1, tails);
      assert forall m | 0 <= m < |block| :: block[m] == [hi - 1] + tails[m];
      front + block
  }

  /**
   * `helper`: with `current` already chosen, appends to `result` the
   * current list extended by every non-decreasing choice of further
   * positions from `start` on, until the list has `k` items.
   */
  method Helper<T>(items: seq<T>, k: nat, start: nat, current: seq<T>, result: seq<seq<T>>)
    returns (out: seq<seq<T>>)
    requires |current| <= k && start <= |items|
    ensures out == result + PickAll(items, current, Multichoose(|items|, k - |current|, start))
    decreases k - |current|, 1
  {
    if |current| == k {
      PickAllDone(items, current, start);
      return result + [current];
    }
    assert MultichooseUpTo(|items|, k - |current|, start, start) == [];
    out := result;
    for i := start to |items|
      invariant out == result + PickAll(items, current, MultichooseUpTo(|items|, k - |current|, start, i))
    {
      out := Branch(items, k, start, i, current, result, out);
    }
    assert Multichoose(|items|, k - |current|, start) == MultichooseUpTo(|items|, k - |current|, start, |items|);
  }

  /** A full list contributes itself alone. */
  lemma PickAllDone<T>(items: seq<T>, current: seq<T>, start: nat)
    requires start <= |items|
    ensures PickAll(items, current, Multichoose(|items|, 0, start)) == [current]
  {
    assert current + Pick(items, []) == current;
  }

  /**
   * The body of the loop in `Helper`: the recursive call on `current` with
   * `items[i]` pushed. The list is a value here, so the pop that follows the
   * call in the loop leaves nothing to model.
   */
  method Branch<T>(items: seq<T>, k: nat, start: nat, i: nat, current: seq<T>, result: seq<seq<T>>, out: seq<seq<T>>)
    returns (out': seq<seq<T>>)
    requires |current| < k && start <= i < |items|
    requires out == result + PickAll(items, current, MultichooseUpTo(|items|, k - |current|, start, i))
    ensures out' == result + PickAll(items, current, MultichooseUpTo(|items|, k - |current|, start, i + 1))
    decreases k - |current|, 0
  {
    out' := Helper(items, k, i, current + [items[i]], out);
    BranchStep(items, k, start, i, current, result, out, out');
  }

  /** What the recursive call in `Branch` returns is the next block of the result. */
  lemma BranchStep<T>(items: seq<T>, k: nat, start: nat, i: nat, current: seq<T>, result: seq<seq<T>>,
                      out: seq<seq<T>>, out': seq<seq<T>>)
    requires |current| < k && start <= i < |items|
    requires out == result + PickAll(items, current, MultichooseUpTo(|items|, k - |current|, start, i))
    requires out' == out + PickAll(items, current + [items[i]], Multichoose(|items|, k - |current + [items[i]]|, i))
    ensures out' == result + PickAll(items, current, MultichooseUpTo(|items|, k - |current|, start, i + 1))
  {
    HelperStep(items, current, k - |current|, k - |current + [items[i]]|, start, i, result, out, out');
  }

  /**
   * One pass of the loop in `Helper`: the calls for position `i`, with `r'`
   * (one fewer) items still to choose, extend the result by block `i`.
   */
  lemma HelperStep<T>(items: seq<T>, current: seq<T>, r: nat, r': nat, start: nat, i: nat, result: seq<seq<T>>,
                      out: seq<seq<T>>, out': seq<seq<T>>)
    requires r' + 1 == r && start <= i < |items|
    requires out == result + PickAll(items, current, MultichooseUpTo(|items|, r, start, i))
    requires out' == out + PickAll(items, current + [items[i]], Multichoose(|items|, r', i))
    ensures out' == result + PickAll(items, current, MultichooseUpTo(|items|, r, start, i + 1))
  {
    var done := PickAll(items, current, MultichooseUpTo(|items|, r, start, i));
    var block := PickAll(items, current + [items[i]], Multichoose(|items|, r', i));
    PickAllStep(items, current, r, start, i);
    Associative(result, done, block);
  }

  /** Appending in two steps, as `Helper`'s loop does, or in one, gives the same list. */
  lemma Associative<T>(a: seq<T>, b: seq<T>, c: seq<T>)
    ensures a + b + c == a + (b + c)
  {
  }

  lemma PickAllStep<T>(items: seq<T>, prefix: seq<T>, r: nat, lo: nat, i: nat)
    requires 1 <= r && lo <= i < |items|
    ensures PickAll(items, prefix, MultichooseUpTo(|items|, r, lo, i + 1))
         == PickAll(items, prefix, MultichooseUpTo(|items|, r, lo, i))
            + PickAll(items, prefix + [items[i]], Multichoose(|items|, r - 1, i))
  {
    var front, tails := MultichooseUpTo(|items|, r, lo, i), Multichoose(|items|, r - 1, i);
    assert MultichooseUpTo(|items|, r, lo, i + 1) == front + Prepend(i, tails);
    PickAllPrepend(items, prefix, i, tails);
    PickAllConcat(items, prefix, front, Prepend(i, tails));
  }

  /** `combinations_with_repetition(items, k)`. */
  method CombinationsWithRepetition<T>(items: seq<T>, k: nat) returns (result: seq<seq<T>>)
    ensures result == PickAll(items, [], Multichoose(|items|, k, 0))
  {
    result := Helper(items, k, 0, [], []);
  }

  lemma PrependMembers(i: nat, ls: seq<seq<nat>>, l: seq<nat>)
    ensures l in Prepend(i, ls) <==> |l| >= 1 && l[0] == i && l[1..] in ls
  {
    if |l| >= 1 && l[0] == i && l[1..] in ls {
      var m :| 0 <= m < |ls| && ls[m] == l[1..];
      assert Prepend(i, ls)[m] == l;
    }
  }

  /** The helper produces exactly the non-decreasing position lists ... */
  lemma {:induction false} MultichooseMembers(n: nat, r: nat, start: nat, l: seq<nat>)
    requires start <= n
    ensures l in Multichoose(n, r, start) <==> Multichoice(l, r, start, n)
    decreases r, 1
  {
    if r > 0 {
      MultichooseUpToMembers(n, r, start, n, l);
    }
  }

  lemma {:induction false} MultichooseUpToMembers(n: nat, r: nat, lo: nat, hi: nat, l: seq<nat>)
    requires 1 <= r && lo <= hi <= n
    ensures l in MultichooseUpTo(n, r, lo, hi) <==> Multichoice(l, r, lo, n) && l[0] < hi
    decreases r, 0, hi - lo
  {
    if hi > lo {
      var front, tails := MultichooseUpTo(n, r, lo, hi - 1), Multichoose(n, r - 1, hi - 1);
      assert MultichooseUpTo(n, r, lo, hi) == front + Prepend(hi - 1, tails);
      MultichooseUpToMembers(n, r, lo, hi - 1, l);
      PrependMembers(hi - 1, tails, l);
      if |l| >= 1 {
        MultichooseMembers(n, r - 1, hi - 1, l[1..]);
        if Multichoice(l, r, lo, n) && l[0] == hi - 1 {
          MultichoiceTail(l, r, lo, n);
        }
        if l[0] == hi - 1 && Multichoice(l[1..], r - 1, hi - 1, n) {
          MultichoiceCons(l, r, lo, n);
        }
      }
    }
  }

  lemma MultichoiceTail(l: seq<nat>, r: nat, lo: nat, n: nat)
    requires 1 <= r && Multichoice(l, r, lo, n)
    ensures Multichoice(l[1..], r - 1, l[0], n)
  {
    forall t | 0 <= t < |l[1..]| ensures l[0] <= l[1..][t] {
      assert l[0] <= l[t + 1];
    }
  }

  lemma MultichoiceCons(l: seq<nat>, r: nat, lo: nat, n: nat)
    requires 1 <= r && |l| >= 1 && lo <= l[0] < n && Multichoice(l[1..], r - 1, l[0], n)
    ensures Multichoice(l, r, lo, n)
  {
    forall a, b | 0 <= a < b < |l| ensures l[a] <= l[b] {
      assert l[b] == l[1..][b - 1];
      if a > 0 {
        assert l[a] == l[1..][a - 1];
      }
    }
    forall t | 0 <= t < |l| ensures lo <= l[t] < n {
      if t > 0 {
        assert l[t] == l[1..][t - 1];
      }
    }
  }

  /** ... each of them once. */
  lemma {:induction false} MultichooseDistinct(n: nat, r: nat, start: nat)
    requires start <= n
    ensures Distinct(Multichoose(n, r, start))
    decreases r, 1
  {
    if r > 0 {
      MultichooseUpToDistinct(n, r, start, n);
    }
  }

  lemma {:induction false} MultichooseUpToDistinct(n: nat, r: nat, lo: nat, hi: nat)
    requires 1 <= r && lo <= hi <= n
    ensures Distinct(MultichooseUpTo(n, r, lo, hi))
    decreases r, 0, hi - lo
  {
    if hi > lo {
      var front, tails := MultichooseUpTo(n, r, lo, hi - 1), Multichoose(n, r - 1, hi - 1);
      var block := Prepend(hi - 1, tails);
      assert MultichooseUpTo(n, r, lo, hi) == front + block;
      MultichooseUpToDistinct(n, r, lo, hi - 1);
      MultichooseDistinct(n, r - 1, hi - 1);
      var all := front + block;
      forall a, b | 0 <= a < b < |all| ensures all[a] != all[b] {
        if b >= |front| && a < |front| {
          MultichooseUpToMembers(n, r, lo, hi - 1, all[a]);
          assert all[a] in front;
          assert all[b][0] == hi - 1;
        } else if a >= |front| {
          assert all[a] == [hi - 1] + tails[a - |front|];
          assert all[b] == [hi - 1] + tails[b - |front|];
          assert all[a][1..] == tails[a - |front|];
          assert all[b][1..] == tails[b - |front|];
        }
      }
    }
  }

  /**
   * The method's result, stated on its own: it holds one list per
   * non-decreasing choice of `k` positions, the items at those positions,
   * and no choice is listed twice.
   */
  lemma CombinationsWithRepetitionSpec<T>(items: seq<T>, k: nat, idx: seq<nat>)
    ensures idx in Multichoose(|items|, k, 0) <==> Multichoice(idx, k, 0, |items|)
    ensures Distinct(Multichoose(|items|, k, 0))
    ensures |PickAll(items, [], Multichoose(|items|, k, 0))| == |Multichoose(|items|, k, 0)|
  {
    MultichooseMembers(|items|, k, 0, idx);
    MultichooseDistinct(|items|, k, 0);
  }

  // ---------------------------------------------------------------------
  // get_combinations and subsets
  // ---------------------------------------------------------------------

  /** Every list of `ls` with `t` pushed at its end. */
  function Append<T>(ls: seq<seq<T>>, t: T): (r: seq<seq<T>>)
    ensures |r| == |ls|
  {
    if ls == [] then [] else [ls[0] + [t]] + Append(ls[1..], t)
  }

  lemma {:induction false} AppendAt<T>(ls: seq<seq<T>>, t: T)
    ensures forall m | 0 <= m < |ls| :: Append(ls, t)[m] == ls[m] + [t]
    decreases |ls|
  {
    if ls != [] {
      AppendAt(ls[1..], t);
    }
  }

  /**
   * `get_combinations(elems, count)`: for each of the first
   * `|elems| - count + 1` elements, every combination of `count - 1` elements
   * taken after it, with that element pushed at the end. Rust's
   * `elems.len() - count` would underflow for `count > |elems|`.
   */
  function Combos<T>(elems: seq<T>, count: nat): seq<seq<T>>
    requires count <= |elems|
    decreases |elems|, 1
  {
    if count == 0 then [[]] else Choices(elems, count, |elems| - count + 1)
  }

  /** The `flat_map` over the first `m` of those elements. */
  function Choices<T>(elems: seq<T>, count: nat, m: nat): seq<seq<T>>
    requires 1 <= count <= |elems| && m <= |elems| - count + 1
    decreases |elems|, 0, m
  {
    if m == 0 then []
    else Choices(elems, count, m - 1) + Append(Combos(elems[m..], count - 1), elems[m - 1])
  }

  /** The positions `lo, lo + 1, ..., hi - 1`. */
  function Range(lo: nat, hi: nat): (r: seq<nat>)
    ensures |r| == if lo <= hi then hi - lo else 0
    ensures forall t | 0 <= t < |r| :: r[t] == lo + t
    decreases hi - lo
  {
    if hi <= lo then [] else [lo] + Range(lo + 1, hi)
  }

  lemma RangeSuffix(lo: nat, hi: nat, m: nat)
    requires lo + m <= hi
    ensures Range(lo, hi)[m..] == Range(lo + m, hi)
  {
  }

  predicate StrictlyDecreasing(l: seq<nat>) {
    forall a, b | 0 <= a < b < |l| :: l[a] > l[b]
  }

  /** A choice of `c` distinct positions in `[lo, hi)`, listed high to low. */
  predicate Choice(l: seq<nat>, c: nat, lo: nat, hi: nat) {
    |l| == c && StrictlyDecreasing(l) && forall t | 0 <= t < |l| :: lo <= l[t] < hi
  }

  lemma {:induction false} ChoiceBound(l: seq<nat>, hi: nat, t: nat)
    requires StrictlyDecreasing(l) && (forall u | 0 <= u < |l| :: l[u] < hi) && t < |l|
    ensures l[t] + t < hi
    decreases t
  {
    if t > 0 {
      ChoiceBound(l, hi, t - 1);
    }
  }

  lemma AppendMembers<T>(ls: seq<seq<T>>, t: T, l: seq<T>)
    ensures l in Append(ls, t) <==> |l| >= 1 && l[|l| - 1] == t && l[..|l| - 1] in ls
  {
    AppendAt(ls, t);
    if |l| >= 1 && l[|l| - 1] == t && l[..|l| - 1] in ls {
      var m :| 0 <= m < |ls| && ls[m] == l[..|l| - 1];
      assert Append(ls, t)[m] == l;
    }
    if l in Append(ls, t) {
      var m :| 0 <= m < |ls| && Append(ls, t)[m] == l;
      assert l[..|l| - 1] == ls[m];
    }
  }

  lemma ChoiceFront(l: seq<nat>, c: nat, lo: nat, hi: nat, front: seq<nat>, cTail: nat, loTail: nat)
    requires 1 <= c && Choice(l, c, lo, hi)
    requires front == l[..c - 1] && cTail == c - 1 && loTail == l[c - 1] + 1
    ensures Choice(front, cTail, loTail, hi)
  {
    forall t | 0 <= t < cTail ensures l[c - 1] < front[t] {
      assert l[t] > l[c - 1];
    }
  }

  lemma ChoiceSnoc(l: seq<nat>, c: nat, lo: nat, hi: nat, front: seq<nat>, cTail: nat, loTail: nat)
    requires 1 <= c && |l| == c && lo <= l[c - 1] < hi
    requires front == l[..c - 1] && cTail == c - 1 && loTail == l[c - 1] + 1
    requires Choice(front, cTail, loTail, hi)
    ensures Choice(l, c, lo, hi)
  {
    forall a, b | 0 <= a < b < |l| ensures l[a] > l[b] {
      assert l[a] == front[a];
      if b < c - 1 {
        assert l[b] == front[b];
      }
    }
    forall t | 0 <= t < |l| ensures lo <= l[t] < hi {
      if t < c - 1 {
        assert l[t] == front[t];
      }
    }
  }

  /** On positions, `get_combinations` lists exactly the choices of `c` positions ... */
  lemma {:induction false} CombosMembers(lo: nat, hi: nat, c: nat, l: seq<nat>)
    requires lo + c <= hi
    ensures l in Combos(Range(lo, hi), c) <==> Choice(l, c, lo, hi)
    decreases hi - lo, 1
  {
    if c > 0 {
      ChoicesMembers(lo, hi, c, hi - lo - c + 1, l);
      if Choice(l, c, lo, hi) {
        ChoiceBound(l, hi, c - 1);
      }
    }
  }

  lemma {:induction false} ChoicesMembers(lo: nat, hi: nat, c: nat, m: nat, l: seq<nat>)
    requires 1 <= c && lo + c <= hi && m <= hi - lo - c + 1
    ensures l in Choices(Range(lo, hi), c, m) <==> Choice(l, c, lo, hi) && l[c - 1] < lo + m
    decreases hi - lo, 0, m
  {
    if m > 0 {
      var elems := Range(lo, hi);
      var tails := Combos(elems[m..], c - 1);
      RangeSuffix(lo, hi, m);
      assert elems[m - 1] == lo + m - 1;
      assert tails == Combos(Range(lo + m, hi), c - 1);
      assert Choices(elems, c, m) == Choices(elems, c, m - 1) + Append(tails, elems[m - 1]);
      var front, block := Choices(elems, c, m - 1), Append(tails, elems[m - 1]);
      assert l in Choices(elems, c, m) <==> l in front || l in block;
      ChoicesMembers(lo, hi, c, m - 1, l);
      BlockMembers(lo, hi, c, m, l);
    } else if Choice(l, c, lo, hi) {
      assert lo <= l[c - 1];
    }
  }

  /** The lists `Choices` adds for the `m`-th element: those ending at it. */
  lemma {:induction false} BlockMembers(lo: nat, hi: nat, c: nat, m: nat, l: seq<nat>)
    requires 1 <= c && lo + c <= hi && 1 <= m <= hi - lo - c + 1
    ensures l in Append(Combos(Range(lo, hi)[m..], c - 1), Range(lo, hi)[m - 1])
        <==> Choice(l, c, lo, hi) && l[c - 1] == lo + m - 1
    decreases hi - lo, 0, m - 1
  {
    var elems := Range(lo, hi);
    var loTail, cTail, t: nat := lo + m, c - 1, lo + m - 1;
    var tails := Combos(Range(loTail, hi), cTail);
    assert elems[m..] == Range(loTail, hi) && elems[m - 1] == t by {
      RangeSuffix(lo, hi, m);
    }
    assert l in Append(tails, t) <==> |l| >= 1 && l[|l| - 1] == t && l[..|l| - 1] in tails by {
      AppendMembers(tails, t, l);
    }
    if |l| >= 1 {
      var front := l[..|l| - 1];
      assert front in tails <==> Choice(front, cTail, loTail, hi) by {
        CombosMembers(loTail, hi, cTail, front);
      }
      if Choice(l, c, lo, hi) && l[c - 1] == t {
        ChoiceFront(l, c, lo, hi, front, cTail, loTail);
      }
      if l[|l| - 1] == t && Choice(front, cTail, loTail, hi) {
        ChoiceSnoc(l, c, lo, hi, front, cTail, loTail);
      }
    }
  }

  /** ... each once. */
  lemma {:induction false} CombosDistinct(lo: nat, hi: nat, c: nat)
    requires lo + c <= hi
    ensures Distinct(Combos(Range(lo, hi), c))
    decreases hi - lo, 1
  {
    if c > 0 {
      ChoicesDistinct(lo, hi, c, hi - lo - c + 1);
    }
  }

  lemma {:induction false} ChoicesDistinct(lo: nat, hi: nat, c: nat, m: nat)
    requires 1 <= c && lo + c <= hi && m <= hi - lo - c + 1
    ensures Distinct(Choices(Range(lo, hi), c, m))
    decreases hi - lo, 0, m
  {
    if m > 0 {
      var elems := Range(lo, hi);
      var front, tails := Choices(elems, c, m - 1), Combos(elems[m..], c - 1);
      var block := Append(tails, elems[m - 1]);
      assert Choices(elems, c, m) == front + block;
      assert Distinct(front) by {
        ChoicesDistinct(lo, hi, c, m - 1);
      }
      assert Distinct(block) by {
        RangeSuffix(lo, hi, m);
        CombosDistinct(lo + m, hi, c - 1);
        AppendDistinct(tails, elems[m - 1]);
      }
      forall l | l in front ensures l !in block {
        ChoicesMembers(lo, hi, c, m - 1, l);
        BlockMembers(lo, hi, c, m, l);
      }
      DistinctConcat(front, block);
    }
  }

  /** Pushing the same element on distinct lists keeps them distinct. */
  lemma AppendDistinct<T>(ls: seq<seq<T>>, t: T)
    requires Distinct(ls)
    ensures Distinct(Append(ls, t))
  {
    var r := Append(ls, t);
    AppendAt(ls, t);
    forall a, b | 0 <= a < b < |r| ensures r[a] != r[b] {
      assert r[a][..|r[a]| - 1] == ls[a];
      assert r[b][..|r[b]| - 1] == ls[b];
    }
  }

  /** Two distinct lists with no common member join into a distinct list. */
  lemma DistinctConcat<T>(x: seq<T>, y: seq<T>)
    requires Distinct(x) && Distinct(y) && forall l | l in x :: l !in y
    ensures Distinct(x + y)
  {
    var all := x + y;
    forall a, b | 0 <= a < b < |all| ensures all[a] != all[b] {
      if a < |x| && b >= |x| {
        assert all[a] in x && all[b] == y[b - |x|];
      } else if a >= |x| {
        assert all[a] == y[a - |x|] && all[b] == y[b - |x|];
      }
    }
  }

  lemma PickAllConcat<T>(items: seq<T>, prefix: seq<T>, a: seq<seq<nat>>, b: seq<seq<nat>>)
    requires Positions(a, |items|) && Positions(b, |items|)
    ensures Positions(a + b, |items|)
    ensures PickAll(items, prefix, a + b) == PickAll(items, prefix, a) + PickAll(items, prefix, b)
  {
    PickAllAt(items, prefix, a);
    PickAllAt(items, prefix, b);
    PickAllAt(items, prefix, a + b);
  }

  /** Picking lists that all start with position `i` is picking the rest after `items[i]`. */
  lemma {:induction false} PickAllPrepend<T>(items: seq<T>, prefix: seq<T>, i: nat, ls: seq<seq<nat>>)
    requires Positions(ls, |items|) && i < |items|
    ensures Positions(Prepend(i, ls), |items|)
    ensures PickAll(items, prefix, Prepend(i, ls)) == PickAll(items, prefix + [items[i]], ls)
    decreases |ls|
  {
    if ls != [] {
      PickAllPrepend(items, prefix, i, ls[1..]);
      assert Prepend(i, ls)[1..] == Prepend(i, ls[1..]);
      var p := Prepend(i, ls);
      assert p[0] == [i] + ls[0];
      assert Pick(items, [i] + ls[0]) == [items[i]] + Pick(items, ls[0]) by {
        assert ([i] + ls[0])[1..] == ls[0];
      }
      assert prefix + ([items[i]] + Pick(items, ls[0])) == prefix + [items[i]] + Pick(items, ls[0]);
    }
  }

  lemma PickAllAppend<T>(items: seq<T>, ls: seq<seq<nat>>, t: nat)
    requires Positions(ls, |items|) && t < |items|
    ensures Positions(Append(ls, t), |items|)
    ensures PickAll(items, [], Append(ls, t)) == Append(PickAll(items, [], ls), items[t])
  {
    AppendAt(ls, t);
    var picked := PickAll(items, [], ls);
    AppendAt(picked, items[t]);
    PickAllAt(items, [], ls);
    PickAllAt(items, [], Append(ls, t));
    var appended := Append(ls, t);
    forall m, u | 0 <= m < |appended| && 0 <= u < |appended[m]| ensures appended[m][u] < |items| {
      assert appended[m] == ls[m] + [t];
      if u < |ls[m]| {
        assert appended[m][u] == ls[m][u];
      }
    }
    var lhs, rhs := PickAll(items, [], appended), Append(picked, items[t]);
    forall m | 0 <= m < |ls| ensures lhs[m] == rhs[m] {
      PickAt(items, ls[m] + [t]);
      PickAt(items, ls[m]);
      assert appended[m] == ls[m] + [t];
      assert lhs[m] == Pick(items, ls[m] + [t]) == Pick(items, ls[m]) + [items[t]];
      assert rhs[m] == picked[m] + [items[t]];
      assert picked[m] == Pick(items, ls[m]);
    }
  }

  lemma CombosPositions(lo: nat, hi: nat, c: nat)
    requires lo + c <= hi
    ensures Positions(Combos(Range(lo, hi), c), hi)
  {
    var ls := Combos(Range(lo, hi), c);
    forall m, t | 0 <= m < |ls| && 0 <= t < |ls[m]| ensures ls[m][t] < hi {
      assert ls[m] in ls;
      CombosMembers(lo, hi, c, ls[m]);
    }
  }

  lemma ChoicesPositions(lo: nat, hi: nat, c: nat, m: nat)
    requires 1 <= c && lo + c <= hi && m <= hi - lo - c + 1
    ensures Positions(Choices(Range(lo, hi), c, m), hi)
  {
    var ls := Choices(Range(lo, hi), c, m);
    forall a, t | 0 <= a < |ls| && 0 <= t < |ls[a]| ensures ls[a][t] < hi {
      assert ls[a] in ls;
      ChoicesMembers(lo, hi, c, m, ls[a]);
    }
  }

  /**
   * On any list, `get_combinations` picks the elements at the positions it
   * chooses on the list of positions: equal elements at different
   * positions make different combinations.
   */
  lemma {:induction false} CombosPick<T>(elems: seq<T>, lo: nat, c: nat)
    requires lo + c <= |elems|
    ensures Positions(Combos(Range(lo, |elems|), c), |elems|)
    ensures Combos(elems[lo..], c) == PickAll(elems, [], Combos(Range(lo, |elems|), c))
    decreases |elems| - lo, 1
  {
    CombosPositions(lo, |elems|, c);
    if c == 0 {
      NoChoicePick(elems);
    } else {
      ChoicesPick(elems, lo, c, |elems| - lo - c + 1);
    }
  }

  /** Choosing nothing picks the one empty combination. */
  lemma NoChoicePick<T>(elems: seq<T>)
    ensures PickAll(elems, [], [[]]) == [[]]
  {
    assert [] + Pick(elems, []) == [];
  }

  lemma {:induction false} ChoicesPick<T>(elems: seq<T>, lo: nat, c: nat, m: nat)
    requires 1 <= c && lo + c <= |elems| && m <= |elems| - lo - c + 1
    ensures Positions(Choices(Range(lo, |elems|), c, m), |elems|)
    ensures Choices(elems[lo..], c, m) == PickAll(elems, [], Choices(Range(lo, |elems|), c, m))
    decreases |elems| - lo, 0, m
  {
    if m > 0 {
      ChoicesPick(elems, lo, c, m - 1);
      var loTail, cTail := lo + m, c - 1;
      CombosPick(elems, loTail, cTail);
      ChoicesPickStep(elems, lo, c, m, loTail, cTail);
    }
  }

  /** The step of `ChoicesPick` from `m - 1` to `m`, given both recursive facts. */
  lemma ChoicesPickStep<T>(elems: seq<T>, lo: nat, c: nat, m: nat, loTail: nat, cTail: nat)
    requires 1 <= c && lo + c <= |elems| && 1 <= m <= |elems| - lo - c + 1 && loTail == lo + m && cTail == c - 1
    requires Positions(Choices(Range(lo, |elems|), c, m - 1), |elems|)
    requires Choices(elems[lo..], c, m - 1) == PickAll(elems, [], Choices(Range(lo, |elems|), c, m - 1))
    requires Positions(Combos(Range(loTail, |elems|), cTail), |elems|)
    requires Combos(elems[loTail..], cTail) == PickAll(elems, [], Combos(Range(loTail, |elems|), cTail))
    ensures Positions(Choices(Range(lo, |elems|), c, m), |elems|)
    ensures Choices(elems[lo..], c, m) == PickAll(elems, [], Choices(Range(lo, |elems|), c, m))
  {
    var range, t := Range(lo, |elems|), lo + m - 1;
    var tails := Combos(Range(loTail, |elems|), cTail);
    ChoicesStepShape(elems, lo, c, m, loTail, cTail, t);
    ChoicesPickJoin(elems, elems[lo..], elems[loTail..], c, m, Choices(range, c, m - 1), tails, t, Choices(range, c, m));
  }

  /** The shape of one step of `ChoicesPick`, on positions and on the elements they name. */
  lemma ChoicesStepShape<T>(elems: seq<T>, lo: nat, c: nat, m: nat, loTail: nat, cTail: nat, t: nat)
    requires 1 <= c && lo + c <= |elems| && 1 <= m <= |elems| - lo - c + 1
    requires loTail == lo + m && cTail == c - 1 && t == lo + m - 1
    ensures t < |elems| && elems[loTail..] == elems[lo..][m..] && elems[lo..][m - 1] == elems[t]
    ensures Choices(Range(lo, |elems|), c, m)
      == Choices(Range(lo, |elems|), c, m - 1) + Append(Combos(Range(loTail, |elems|), cTail), t)
  {
    var range, rangeTail := Range(lo, |elems|), Range(loTail, |elems|);
    RangeSuffix(lo, |elems|, m);
    assert range[m - 1] == t;
    ChoicesUnfold(range, c, m, rangeTail);
  }

  lemma ChoicesUnfold<T>(elems: seq<T>, c: nat, m: nat, tail: seq<T>)
    requires 1 <= c <= |elems| && 1 <= m <= |elems| - c + 1 && tail == elems[m..]
    ensures Choices(elems, c, m) == Choices(elems, c, m - 1) + Append(Combos(tail, c - 1), elems[m - 1])
  {
  }

  /** The step of `ChoicesPick`: the `m`-th block picked joins the earlier ones. */
  lemma ChoicesPickJoin<T>(elems: seq<T>, suffix: seq<T>, rest: seq<T>, c: nat, m: nat,
                           front: seq<seq<nat>>, tails: seq<seq<nat>>, t: nat, whole: seq<seq<nat>>)
    requires 1 <= c <= |suffix| && 1 <= m <= |suffix| - c + 1 && rest == suffix[m..]
    requires Positions(front, |elems|) && Positions(tails, |elems|) && t < |elems|
    requires Choices(suffix, c, m - 1) == PickAll(elems, [], front)
    requires Combos(rest, c - 1) == PickAll(elems, [], tails)
    requires suffix[m - 1] == elems[t] && whole == front + Append(tails, t)
    ensures Positions(whole, |elems|)
    ensures Choices(suffix, c, m) == PickAll(elems, [], whole)
  {
    PickAllAppend(elems, tails, t);
    PickAllConcat(elems, [], front, Append(tails, t));
  }

  /** The lists `subsets` has gathered before `count` reaches `c`. */
  function SubsetsUpTo<T>(elems: seq<T>, c: nat): seq<seq<T>>
    requires c <= |elems| + 1
  {
    if c == 0 then [] else SubsetsUpTo(elems, c - 1) + Combos(elems, c - 1)
  }

  /** `subsets(elems)`. */
  method Subsets<T>(elems: seq<T>) returns (subsets: seq<seq<T>>)
    ensures subsets == SubsetsUpTo(elems, |elems| + 1)
  {
    subsets := [];
    for count := 0 to |elems| + 1
      invariant subsets == SubsetsUpTo(elems, count)
    {
      subsets := subsets + Combos(elems, count);
    }
  }

  /** Every list `subsets` gathers holds elements of `elems` only. */
  lemma {:induction false} SubsetsWithin<T>(elems: seq<T>, c: nat)
    requires c <= |elems| + 1
    ensures forall m, t | 0 <= m < |SubsetsUpTo(elems, c)| && 0 <= t < |SubsetsUpTo(elems, c)[m]| ::
      SubsetsUpTo(elems, c)[m][t] in elems
    decreases c
  {
    if c > 0 {
      SubsetsWithin(elems, c - 1);
      var front, block := SubsetsUpTo(elems, c - 1), Combos(elems, c - 1);
      var idx := Combos(Range(0, |elems|), c - 1);
      CombosPick(elems, 0, c - 1);
      assert elems[0..] == elems;
      PickAllAt(elems, [], idx);
      forall m, t | 0 <= m < |front + block| && 0 <= t < |(front + block)[m]|
        ensures (front + block)[m][t] in elems
      {
        if m >= |front| {
          var k := m - |front|;
          PickAt(elems, idx[k]);
          assert block[k] == [] + Pick(elems, idx[k]);
        }
      }
    }
  }

  /** On positions, `subsets` lists every elems of positions, high to low ... */
  lemma {:induction false} SubsetsMembers(n: nat, c: nat, l: seq<nat>)
    requires c <= n + 1
    ensures l in SubsetsUpTo(Range(0, n), c) <==> |l| < c && Choice(l, |l|, 0, n)
    decreases c
  {
    if c > 0 {
      SubsetsMembers(n, c - 1, l);
      CombosMembers(0, n, c - 1, l);
    }
  }

  /** ... each once. */
  lemma {:induction false} SubsetsDistinct(n: nat, c: nat)
    requires c <= n + 1
    ensures Distinct(SubsetsUpTo(Range(0, n), c))
    decreases c
  {
    if c > 0 {
      var front, block := SubsetsUpTo(Range(0, n), c - 1), Combos(Range(0, n), c - 1);
      SubsetsDistinct(n, c - 1);
      CombosDistinct(0, n, c - 1);
      var all := front + block;
      forall a, b | 0 <= a < b < |all| ensures all[a] != all[b] {
        if a < |front| && b >= |front| {
          assert all[a] in front && all[b] in block;
          SubsetsMembers(n, c - 1, all[a]);
          CombosMembers(0, n, c - 1, all[b]);
        }
      }
    }
  }

  /** The number of ways to choose `c` of `n`, by Pascal's rule. */
  function Binomial(n: nat, c: nat): nat {
    if c == 0 then 1 else if n == 0 then 0 else Binomial(n - 1, c - 1) + Binomial(n - 1, c)
  }

  lemma {:induction false} BinomialBeyond(n: nat, c: nat)
    requires n < c
    ensures Binomial(n, c) == 0
    decreases n
  {
    if n > 0 {
      BinomialBeyond(n - 1, c - 1);
      BinomialBeyond(n - 1, c);
    }
  }

  /** `get_combinations` returns C(|elems|, count) lists. */
  lemma {:induction false} CombosCount<T>(elems: seq<T>, c: nat)
    requires c <= |elems|
    ensures |Combos(elems, c)| == Binomial(|elems|, c)
    decreases |elems|, 1
  {
    if c > 0 {
      ChoicesCount(elems, c, |elems| - c + 1);
      BinomialBeyond(c - 1, c);
    }
  }

  lemma {:induction false} ChoicesCount<T>(elems: seq<T>, c: nat, m: nat)
    requires 1 <= c <= |elems| && m <= |elems| - c + 1
    ensures |Choices(elems, c, m)| == Binomial(|elems|, c) - Binomial(|elems| - m, c)
    decreases |elems|, 0, m
  {
    if m > 0 {
      ChoicesCount(elems, c, m - 1);
      CombosCount(elems[m..], c - 1);
    }
  }

  function Power2(n: nat): nat {
    if n == 0 then 1 else 2 * Power2(n - 1)
  }

  /** `Binomial(n, 0) + ... + Binomial(n, k - 1)`. */
  function BinomialSum(n: nat, k: nat): nat {
    if k == 0 then 0 else BinomialSum(n, k - 1) + Binomial(n, k - 1)
  }

  lemma {:induction false} BinomialSumStep(n: nat, k: nat)
    ensures BinomialSum(n + 1, k + 1) == BinomialSum(n, k) + BinomialSum(n, k + 1)
    decreases k
  {
    if k > 0 {
      BinomialSumStep(n, k - 1);
    }
  }

  lemma {:induction false} BinomialSumAll(n: nat)
    ensures BinomialSum(n, n + 1) == Power2(n)
    decreases n
  {
    if n > 0 {
      BinomialSumAll(n - 1);
      BinomialSumStep(n - 1, n);
      BinomialBeyond(n - 1, n);
    }
  }

  lemma {:induction false} SubsetsUpToCount<T>(elems: seq<T>, c: nat)
    requires c <= |elems| + 1
    ensures |SubsetsUpTo(elems, c)| == BinomialSum(|elems|, c)
    decreases c
  {
    if c > 0 {
      SubsetsUpToCount(elems, c - 1);
      CombosCount(elems, c - 1);
    }
  }

  /** `subsets` returns 2^n lists. */
  lemma SubsetsCount<T>(elems: seq<T>)
    ensures |SubsetsUpTo(elems, |elems| + 1)| == Power2(|elems|)
  {
    SubsetsUpToCount(elems, |elems| + 1);
    BinomialSumAll(|elems|);
  }
}
