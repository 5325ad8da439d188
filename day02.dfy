/**
 * Day 2: product ids in comma-separated ranges "a-b"; an id is invalid when
 * its digits are one block written twice (part one) or written at least
 * twice (part two), and the answer is the sum of the invalid ids.
 */
module Day02 {
  import opened Wrappers
  import opened Text
  import opened Day02Digits

  const POW10: seq<nat> := [
    1, 10, 100, 1_000, 10_000, 100_000, 1_000_000, 10_000_000,
    100_000_000, 1_000_000_000, 10_000_000_000
  ]

  /** The table holds 10^0 through 10^10. */
  lemma Pow10Table()
    ensures |POW10| == 11
    ensures forall i | 0 <= i < 11 :: POW10[i] == Pow10(i)
  {
    assert Pow10(0) == 1;
    assert Pow10(1) == 10;
    assert Pow10(2) == 100;
    assert Pow10(3) == 1_000;
    assert Pow10(4) == 10_000;
    assert Pow10(5) == 100_000;
    assert Pow10(6) == 1_000_000;
    assert Pow10(7) == 10_000_000;
    assert Pow10(8) == 100_000_000;
    assert Pow10(9) == 1_000_000_000;
    assert Pow10(10) == 10_000_000_000;
  }

  /** One entry of the table. */
  lemma Pow10At(i: nat)
    requires i < 11
    ensures POW10[i] == Pow10(i)
  {
    Pow10Table();
  }

  /** A u64 has at most 20 digits, so half its digit count indexes the table. */
  lemma U64Digits(n: nat)
    requires 1 <= n <= U64_MAX
    ensures NumDigits(n) <= 20
  {
    Pow10At(10);
    Pow10Add(10, 10);
    if NumDigits(n) > 20 {
      Pow10Monotone(20, NumDigits(n) - 1);
      assert false;
    }
  }

  /** has_pattern_repeated_twice: an even digit count whose high half equals its low half. */
  function HasPatternRepeatedTwice(n: nat): bool
    requires 1 <= n <= U64_MAX
  {
    var len := NumDigits(n);
    if len % 2 != 0 then false
    else
      U64Digits(n);
      Pow10At(len / 2);
      var half := len / 2;
      var pow10Half := POW10[half];
      n / pow10Half == n % pow10Half
  }

  /** The test one candidate block length `sub` gets inside has_repeating_pattern. */
  function Check(n: nat, len: nat, sub: nat): bool
    requires 1 <= sub <= len <= 10
  {
    Pow10At(len - sub);
    Pow10At(len);
    Pow10At(sub);
    Pow10Monotone(1, sub);
    DivNonNeg(n, POW10[len - sub]);
    var pattern := n / POW10[len - sub];
    var top: int, base: int := POW10[len] - 1, POW10[sub] - 1;
    DivNonNeg(top, base);
    var multiplier := top / base;
    CheckedMul(pattern, multiplier) == Some(n)
  }

  lemma DivNonNeg(a: int, b: int)
    requires a >= 0 && b > 0
    ensures a / b >= 0
  {
  }

  /** `u64::checked_mul`: the product, or None when it exceeds the type. */
  function CheckedMul(a: nat, b: nat): (r: Option<nat>)
    ensures r.Some? <==> a * b <= U64_MAX
    ensures r.Some? ==> r.value == a * b
  {
    if a * b <= U64_MAX then Some(a * b) else None
  }

  /** Some block length dividing the digit count, at most half of it, passes the test. */
  predicate Repeated(n: nat)
    requires 1 <= n < Pow10(10)
  {
    var len := NumDigits(n);
    ShortDigits(n);
    exists sub | 1 <= sub <= len / 2 :: len % sub == 0 && Check(n, len, sub)
  }

  lemma ShortDigits(n: nat)
    requires 1 <= n < Pow10(10)
    ensures NumDigits(n) <= 10
  {
    if NumDigits(n) > 10 {
      Pow10Monotone(10, NumDigits(n) - 1);
      assert false;
    }
  }

  /** has_repeating_pattern: try every block length up to half the digits, returning at the first that fits. */
  method HasRepeatingPattern(n: nat) returns (r: bool)
    requires 1 <= n < Pow10(10)
    ensures r == Repeated(n)
  {
    ShortDigits(n);
    var len := NumDigits(n);
    var sub := 1;
    while sub <= len / 2
      invariant 1 <= sub <= len / 2 + 1
      invariant forall s | 1 <= s < sub :: !(len % s == 0 && Check(n, len, s))
    {
      if len % sub == 0 && Check(n, len, sub) {
        return true;
      }
      sub := sub + 1;
    }
    return false;
  }

  // ---------------------------------------------------------------------
  // What the two tests mean for the digits of n
  // ---------------------------------------------------------------------

  /** The decimal rendering of n: its length, its value, no leading zero. */
  lemma DecimalFacts(n: nat)
    requires n >= 1
    ensures |Decimal(n)| == NumDigits(n) && DigitsValue(Decimal(n)) == n
    ensures Canonical(Decimal(n)) && Decimal(n)[0] != '0'
  {
    DecimalLength(n);
    DecimalValue(n);
    DecimalCanonical(n);
  }

  /** A prefix of a digit string is a digit string. */
  lemma PrefixDigits(w: string, rest: string)
    requires AllDigits(w + rest)
    ensures AllDigits(w) && AllDigits(rest)
  {
    assert forall i | 0 <= i < |w| :: w[i] == (w + rest)[i];
    assert forall i | 0 <= i < |rest| :: rest[i] == (w + rest)[|w| + i];
  }

  /** The top `sub` digits of an n with `len` digits form a `sub`-digit number. */
  lemma TopDigits(n: nat, len: nat, sub: nat)
    requires n >= 1 && len == NumDigits(n) && 1 <= sub <= len
    ensures n / Pow10(len - sub) >= 1 && NumDigits(n / Pow10(len - sub)) == sub
  {
    var d := Pow10(len - sub);
    Pow10Add(sub, len - sub);
    Pow10Add(sub - 1, len - sub);
    DivBounds(n, d, Pow10(sub - 1), Pow10(sub));
    NumDigitsUnique(n / d, sub);
  }

  /** The test, with the table's entries read as powers of ten and the multiplier as `Rep`. */
  lemma CheckUnfold(n: nat, len: nat, sub: nat, k: nat)
    requires 1 <= sub && 1 <= k && len == sub * k && len <= 10 && n <= U64_MAX
    ensures Check(n, len, sub) <==> (n / Pow10(len - sub)) * Rep(sub, k) == n
  {
    var d := Pow10(len - sub);
    DivNonNeg(n, d);
    var pattern: nat := n / d;
    var m := Rep(sub, k);
    assert n / POW10[len - sub] == pattern by {
      Pow10At(len - sub);
    }
    assert (POW10[len] - 1) / (POW10[sub] - 1) == m by {
      Pow10At(len);
      Pow10At(sub);
      MultiplierIsRep(sub, k);
    }
    CheckIs(n, len, sub, pattern, m);
  }

  /** `Check` multiplies the given block by the given multiplier. */
  lemma CheckIs(n: nat, len: nat, sub: nat, pattern: nat, m: nat)
    requires 1 <= sub <= len <= 10 && n <= U64_MAX
    requires n / POW10[len - sub] == pattern && (POW10[len] - 1) / (POW10[sub] - 1) == m
    ensures Check(n, len, sub) <==> pattern * m == n
  {
    assert Check(n, len, sub) <==> CheckedMul(pattern, m) == Some(n);
  }

  /** A passing test hands back the block: the top `sub` digits. */
  lemma BlockFromFit(n: nat, len: nat, sub: nat, k: nat) returns (w: string)
    requires 1 <= n && 1 <= sub && 1 <= k && len == sub * k && NumDigits(n) == len
    requires (n / Pow10(len - sub)) * Rep(sub, k) == n
    ensures |w| == sub && Decimal(n) == Repeat(w, k)
  {
    var pattern := n / Pow10(len - sub);
    TopDigits(n, len, sub);
    w := Decimal(pattern);
    DecimalFacts(pattern);
    RepeatValue(w, k);
    RepeatDigits(w, k);
    CanonicalIsDecimal(Repeat(w, k));
  }

  /** Digits that repeat a block pass the test. */
  lemma FitFromBlock(n: nat, len: nat, sub: nat, k: nat, w: string)
    requires 1 <= n && 1 <= sub && 1 <= k && len == sub * k && NumDigits(n) == len
    requires |w| == sub && Decimal(n) == Repeat(w, k)
    ensures (n / Pow10(len - sub)) * Rep(sub, k) == n
  {
    DecimalFacts(n);
    RepeatFront(w, k);
    var tail := Repeat(w, k - 1);
    PrefixDigits(w, tail);
    DigitsValueAppend(w, tail);
    DigitsValueBound(tail);
    assert |tail| == len - sub by {
      assert sub * (k - 1) == sub * k - sub;
    }
    DivSplit(DigitsValue(w), Pow10(len - sub), DigitsValue(tail));
    RepeatValue(w, k);
  }

  /** When the digit count is `sub * k`, the test holds exactly when the digits are one `sub`-digit block written k times. */
  lemma CheckMeaning(n: nat, sub: nat, k: nat)
    requires 1 <= n < Pow10(10) && 1 <= sub && NumDigits(n) == sub * k
    ensures NumDigits(n) <= 10 && sub <= NumDigits(n)
    ensures Check(n, NumDigits(n), sub) <==> exists w: string | |w| == sub :: Decimal(n) == Repeat(w, k)
  {
    ShortDigits(n);
    MulLe(sub, 1, k);
    if Check(n, NumDigits(n), sub) {
      var w := CheckToBlock(n, sub, k);
    }
    if w: string :| |w| == sub && Decimal(n) == Repeat(w, k) {
      BlockToCheck(n, sub, k, w);
    }
  }

  lemma CheckToBlock(n: nat, sub: nat, k: nat) returns (w: string)
    requires 1 <= n < Pow10(10) && 1 <= sub <= NumDigits(n) <= 10 && NumDigits(n) == sub * k
    requires Check(n, NumDigits(n), sub)
    ensures |w| == sub && Decimal(n) == Repeat(w, k)
  {
    Pow10At(10);
    var len := NumDigits(n);
    CheckUnfold(n, len, sub, k);
    w := BlockFromFit(n, len, sub, k);
  }

  lemma BlockToCheck(n: nat, sub: nat, k: nat, w: string)
    requires 1 <= n < Pow10(10) && 1 <= sub <= NumDigits(n) <= 10 && NumDigits(n) == sub * k
    requires |w| == sub && Decimal(n) == Repeat(w, k)
    ensures Check(n, NumDigits(n), sub)
  {
    Pow10At(10);
    var len := NumDigits(n);
    CheckUnfold(n, len, sub, k);
    FitFromBlock(n, len, sub, k, w);
  }

  /** Part two's test: the digits of n are some block written two or more times. */
  lemma RepeatedMeaning(n: nat)
    requires 1 <= n < Pow10(10)
    ensures Repeated(n) <==> exists w: string, k: nat | k >= 2 :: Decimal(n) == Repeat(w, k)
  {
    if Repeated(n) {
      var w, k := RepeatedToBlock(n);
    }
    if w: string, k: nat :| k >= 2 && Decimal(n) == Repeat(w, k) {
      BlockToRepeated(n, w, k);
    }
  }

  lemma RepeatedToBlock(n: nat) returns (w: string, k: nat)
    requires 1 <= n < Pow10(10) && Repeated(n)
    ensures k >= 2 && Decimal(n) == Repeat(w, k)
  {
    var len := NumDigits(n);
    ShortDigits(n);
    var sub :| 1 <= sub <= len / 2 && len % sub == 0 && Check(n, len, sub);
    DivNonNeg(len, sub);
    DivMod(len, sub);
    k := len / sub;
    CheckMeaning(n, sub, k);
    w :| |w| == sub && Decimal(n) == Repeat(w, k);
    if k < 2 {
      MulLe(sub, k, 1);
      assert false;
    }
  }

  lemma BlockToRepeated(n: nat, w: string, k: nat)
    requires 1 <= n < Pow10(10) && k >= 2 && Decimal(n) == Repeat(w, k)
    ensures Repeated(n)
  {
    var len := NumDigits(n);
    DecimalFacts(n);
    var sub := |w|;
    assert len == sub * k;
    MulLe(sub, 2, k);
    DivUnique(len, sub, k, 0);
    CheckMeaning(n, sub, k);
    assert 1 <= sub <= len / 2 && len % sub == 0 && Check(n, len, sub);
  }

  /** Part one's test: the digits of n are some block written exactly twice. */
  lemma TwiceMeaning(n: nat)
    requires 1 <= n <= U64_MAX
    ensures HasPatternRepeatedTwice(n) <==> exists w: string :: Decimal(n) == w + w
  {
    if HasPatternRepeatedTwice(n) {
      var w := TwiceToBlock(n);
    }
    if w: string :| Decimal(n) == w + w {
      BlockToTwice(n, w);
    }
  }

  /** The test with an even digit count 2 * half, the table entry read as a power of ten. */
  lemma TwiceUnfold(n: nat, half: nat)
    requires 1 <= n <= U64_MAX && NumDigits(n) == 2 * half
    ensures HasPatternRepeatedTwice(n) <==> n / Pow10(half) == n % Pow10(half)
  {
    U64Digits(n);
    Pow10At(half);
  }

  lemma TwiceToBlock(n: nat) returns (w: string)
    requires 1 <= n <= U64_MAX && HasPatternRepeatedTwice(n)
    ensures Decimal(n) == w + w
  {
    var len := NumDigits(n);
    var half := len / 2;
    TwiceUnfold(n, half);
    var p := Pow10(half);
    var hi := n / p;
    assert len - half == half;
    TopDigits(n, len, half);
    DivMod(n, p);
    assert n == p * hi + hi;
    w := Decimal(hi);
    DecimalFacts(hi);
    assert |w| == half && DigitsValue(w) == hi;
    DigitsValueAppend(w, w);
    assert hi * p == p * hi;
    assert DigitsValue(w + w) == n;
    CanonicalIsDecimal(w + w);
  }

  lemma BlockToTwice(n: nat, w: string)
    requires 1 <= n <= U64_MAX && Decimal(n) == w + w
    ensures HasPatternRepeatedTwice(n)
  {
    DecimalFacts(n);
    PrefixDigits(w, w);
    var half := |w|;
    TwiceUnfold(n, half);
    DigitsValueAppend(w, w);
    DigitsValueBound(w);
    DivSplit(DigitsValue(w), Pow10(half), DigitsValue(w));
  }

  /** Every id invalid in part one is invalid in part two. */
  lemma TwiceIsRepeated(n: nat)
    requires 1 <= n < Pow10(10) && HasPatternRepeatedTwice(n)
    ensures Repeated(n)
  {
    Pow10At(10);
    TwiceMeaning(n);
    var w: string :| Decimal(n) == w + w;
    assert Repeat(w, 2) == w + w;
    RepeatedMeaning(n);
  }

  // ---------------------------------------------------------------------
  // Ranges and the two sums
  // ---------------------------------------------------------------------

  /** parse_range: the first two '-'-separated parts as u64s, or None. */
  function ParseRange(range: string): (r: Option<(nat, nat)>)
    ensures r.Some? <==> |Split(range, '-')| >= 2
                         && ParseUnsigned(Split(range, '-')[0], U64_MAX).Some?
                         && ParseUnsigned(Split(range, '-')[1], U64_MAX).Some?
    ensures r.Some? ==> r.value.0 <= U64_MAX && r.value.1 <= U64_MAX
  {
    var parts := Split(range, '-');
    var start :- ParseUnsigned(parts[0], U64_MAX);
    if |parts| < 2 then None
    else
      var end :- ParseUnsigned(parts[1], U64_MAX);
      Some((start, end))
  }

  /** A range written "a-b" is read back as (a, b). */
  lemma ParseRangeRendered(a: nat, b: nat)
    requires a <= U64_MAX && b <= U64_MAX
    ensures ParseRange(Decimal(a) + "-" + Decimal(b)) == Some((a, b))
  {
    var parts := [Decimal(a), Decimal(b)];
    assert Join(parts, '-') == Decimal(a) + "-" + Decimal(b);
    assert Join(parts[1..], '-') == Decimal(b);
    JoinSplit(parts, '-');
    ParseDecimal(a, U64_MAX);
    ParseDecimal(b, U64_MAX);
  }

  datatype Rule = Twice | AnyRepeat

  /** The ids a range can hold without a panic: `ilog10(0)` for id 0, and the table's end for 11 digits or more. */
  predicate SafeRange(rule: Rule, start: nat, end: nat) {
    start > end || (1 <= start && end <= U64_MAX && (rule == AnyRepeat ==> end < Pow10(10)))
  }

  predicate Invalid(rule: Rule, n: nat)
    requires 1 <= n <= U64_MAX && (rule == AnyRepeat ==> n < Pow10(10))
  {
    match rule
    case Twice => HasPatternRepeatedTwice(n)
    case AnyRepeat => Repeated(n)
  }

  /** The sum of the invalid ids in start..=end. */
  function RangeSum(rule: Rule, start: nat, end: nat): nat
    requires SafeRange(rule, start, end)
    decreases end
  {
    if end < start then 0
    else RangeSum(rule, start, end - 1) + (if Invalid(rule, end) then end else 0)
  }

  predicate AllParse(parts: seq<string>) {
    forall i | 0 <= i < |parts| :: ParseRange(parts[i]).Some?
  }

  /** Every range the loop reaches before a parse failure is safe. */
  predicate SafeRanges(rule: Rule, parts: seq<string>) {
    forall i | 0 <= i < |parts| && AllParse(parts[..i]) && ParseRange(parts[i]).Some? ::
      SafeRange(rule, ParseRange(parts[i]).value.0, ParseRange(parts[i]).value.1)
  }

  /** The answer when every range parses: the invalid ids of all ranges, summed. */
  function Total(rule: Rule, parts: seq<string>): nat
    requires AllParse(parts) && SafeRanges(rule, parts)
  {
    if parts == [] then 0
    else
      var init := parts[..|parts| - 1];
      assert forall i | 0 <= i < |init| :: init[..i] == parts[..i];
      assert AllParse(parts[..|parts| - 1]);
      var (start, end) := ParseRange(parts[|parts| - 1]).value;
      Total(rule, init) + RangeSum(rule, start, end)
  }

  /** The prefix up to a range that parses: every range in it parses, the sum grows by the range's share. */
  lemma TotalStep(rule: Rule, parts: seq<string>, i: nat)
    requires SafeRanges(rule, parts) && i < |parts| && AllParse(parts[..i]) && ParseRange(parts[i]).Some?
    ensures SafeRange(rule, ParseRange(parts[i]).value.0, ParseRange(parts[i]).value.1)
    ensures AllParse(parts[..i + 1]) && SafeRanges(rule, parts[..i]) && SafeRanges(rule, parts[..i + 1])
    ensures Total(rule, parts[..i + 1])
         == Total(rule, parts[..i]) + RangeSum(rule, ParseRange(parts[i]).value.0, ParseRange(parts[i]).value.1)
  {
    SafePrefix(rule, parts, i);
    SafePrefix(rule, parts, i + 1);
    ParsedPrefix(parts, i);
    TotalSnoc(rule, parts[..i + 1], parts[..i], parts[i]);
  }

  lemma ParsedPrefix(parts: seq<string>, i: nat)
    requires i < |parts| && AllParse(parts[..i]) && ParseRange(parts[i]).Some?
    ensures AllParse(parts[..i + 1])
  {
    assert forall j | 0 <= j < i :: parts[..i + 1][j] == parts[..i][j];
  }

  /** The total of a list of ranges is the total of all but the last, plus the last one's share. */
  lemma TotalSnoc(rule: Rule, parts: seq<string>, init: seq<string>, last: string)
    requires parts == init + [last] && AllParse(parts) && SafeRanges(rule, parts) && AllParse(init) && SafeRanges(rule, init)
    requires ParseRange(last).Some? && SafeRange(rule, ParseRange(last).value.0, ParseRange(last).value.1)
    ensures Total(rule, parts) == Total(rule, init) + RangeSum(rule, ParseRange(last).value.0, ParseRange(last).value.1)
  {
    assert parts[..|parts| - 1] == init;
  }

  lemma SafePrefix(rule: Rule, parts: seq<string>, i: nat)
    requires SafeRanges(rule, parts) && i <= |parts|
    ensures SafeRanges(rule, parts[..i])
  {
    forall j | 0 <= j < i
      ensures parts[..i][..j] == parts[..j] && parts[..i][j] == parts[j]
    {
    }
  }

  /** The test each part applies: has_pattern_repeated_twice in part one, has_repeating_pattern in part two. */
  method IsInvalid(rule: Rule, n: nat) returns (invalid: bool)
    requires 1 <= n <= U64_MAX && (rule == AnyRepeat ==> n < Pow10(10))
    ensures invalid == Invalid(rule, n)
  {
    if rule == Twice {
      invalid := HasPatternRepeatedTwice(n);
    } else {
      invalid := HasRepeatingPattern(n);
    }
  }

  /** The inner `for n in start..=end` loop. */
  method SumRange(rule: Rule, start: nat, end: nat) returns (sum: nat)
    requires SafeRange(rule, start, end)
    ensures sum == RangeSum(rule, start, end)
  {
    sum := 0;
    if end < start {
      return;
    }
    var n := start;
    while n <= end
      invariant start <= n <= end + 1
      invariant sum == RangeSum(rule, start, n - 1)
    {
      sum := AddIfInvalid(rule, start, n, sum);
      n := n + 1;
    }
  }

  /** The body of the inner loop: id `n` joins the sum when it is invalid. */
  method AddIfInvalid(rule: Rule, start: nat, n: nat, sum: nat) returns (sum': nat)
    requires start <= n && SafeRange(rule, start, n) && sum == RangeSum(rule, start, n - 1)
    ensures sum' == RangeSum(rule, start, n)
  {
    var invalid := IsInvalid(rule, n);
    sum' := sum;
    if invalid {
      sum' := sum + n;
    }
  }

  /** part_one and part_two: sum over `input.trim().split(',')`, None at the first range that does not parse. */
  method SumInvalid(rule: Rule, input: string) returns (r: Option<nat>)
    requires SafeRanges(rule, Split(Trim(input), ','))
    ensures r.None? <==> !AllParse(Split(Trim(input), ','))
    ensures r.Some? ==> r.value == Total(rule, Split(Trim(input), ','))
  {
    var parts := Split(Trim(input), ',');
    var sum := 0;
    var i := 0;
    SafePrefix(rule, parts, 0);
    while i < |parts|
      invariant 0 <= i <= |parts|
      invariant AllParse(parts[..i]) && SafeRanges(rule, parts[..i])
      invariant sum == Total(rule, parts[..i])
    {
      var range := ParseRange(parts[i]);
      if range.None? {
        return None;
      }
      var (start, end) := range.value;
      TotalStep(rule, parts, i);
      var add := SumRange(rule, start, end);
      sum := sum + add;
      i := i + 1;
    }
    assert parts[..i] == parts;
    return Some(sum);
  }

  method PartOne(input: string) returns (r: Option<nat>)
    requires SafeRanges(Twice, Split(Trim(input), ','))
    ensures r.None? <==> !AllParse(Split(Trim(input), ','))
    ensures r.Some? ==> r.value == Total(Twice, Split(Trim(input), ','))
  {
    r := SumInvalid(Twice, input);
  }

  method PartTwo(input: string) returns (r: Option<nat>)
    requires SafeRanges(AnyRepeat, Split(Trim(input), ','))
    ensures r.None? <==> !AllParse(Split(Trim(input), ','))
    ensures r.Some? ==> r.value == Total(AnyRepeat, Split(Trim(input), ','))
  {
    r := SumInvalid(AnyRepeat, input);
  }
}
