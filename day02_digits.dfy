/**
 * Decimal notation facts for Day 2: powers of ten, digit counts, the value
 * of a digit string, and the value of a block of digits written k times.
 */
module Day02Digits {
  import opened Text

  function Pow10(e: nat): (p: nat)
    ensures p >= 1
  {
    if e == 0 then 1 else 10 * Pow10(e - 1)
  }

  lemma {:induction false} Pow10Add(a: nat, b: nat)
    ensures Pow10(a + b) == Pow10(a) * Pow10(b)
    decreases b
  {
    if b > 0 {
      Pow10Add(a, b - 1);
      assert Pow10(a + b) == 10 * Pow10(a + b - 1);
    }
  }

  lemma {:induction false} Pow10Monotone(a: nat, b: nat)
    requires a <= b
    ensures Pow10(a) <= Pow10(b)
    decreases b
  {
    if a < b {
      Pow10Monotone(a, b - 1);
    }
  }

  /** `ilog10(n) + 1`: the number of decimal digits of a positive number. */
  function NumDigits(n: nat): (len: nat)
    requires n >= 1
    ensures len >= 1
    ensures Pow10(len - 1) <= n < Pow10(len)
  {
    if n < 10 then 1 else 1 + NumDigits(n / 10)
  }

  /** The digit count is the only length whose power-of-ten bounds hold. */
  lemma NumDigitsUnique(n: nat, len: nat)
    requires n >= 1 && len >= 1 && Pow10(len - 1) <= n < Pow10(len)
    ensures NumDigits(n) == len
  {
    var d := NumDigits(n);
    if d < len {
      Pow10Monotone(d, len - 1);
    } else if d > len {
      Pow10Monotone(len, d - 1);
    }
  }

  lemma {:induction false} DecimalLength(n: nat)
    requires n >= 1
    ensures |Decimal(n)| == NumDigits(n)
  {
    if n >= 10 {
      DecimalLength(n / 10);
    }
  }

  /** A digit string without a superfluous leading zero: how `Decimal` writes numbers. */
  predicate Canonical(s: string) {
    |s| >= 1 && AllDigits(s) && (s[0] == '0' ==> |s| == 1)
  }

  lemma {:induction false} DecimalCanonical(n: nat)
    ensures Canonical(Decimal(n))
    ensures n >= 1 ==> Decimal(n)[0] != '0'
  {
    if n >= 10 {
      DecimalCanonical(n / 10);
    }
  }

  lemma {:induction false} DigitsValueBound(s: string)
    requires AllDigits(s)
    ensures DigitsValue(s) < Pow10(|s|)
    ensures |s| >= 1 && s[0] != '0' ==> Pow10(|s| - 1) <= DigitsValue(s)
    decreases |s|
  {
    if s != [] {
      DigitsValueBound(s[..|s| - 1]);
      if |s| == 1 {
        assert DigitsValue(s) == DigitValue(s[0]);
      }
    }
  }

  lemma DigitValueChar(c: char)
    requires IsDigit(c)
    ensures DigitChar(DigitValue(c)) == c
  {
  }

  /** A canonical digit string is the decimal rendering of its value. */
  lemma {:induction false} CanonicalIsDecimal(s: string)
    requires Canonical(s)
    ensures s == Decimal(DigitsValue(s))
    decreases |s|
  {
    var c := s[|s| - 1];
    DigitValueChar(c);
    if |s| > 1 {
      var init := s[..|s| - 1];
      assert init[0] == s[0];
      CanonicalIsDecimal(init);
      DigitsValueBound(init);
      var v := DigitsValue(s);
      assert v / 10 == DigitsValue(init) && v % 10 == DigitValue(c);
      assert s == init + [c];
    }
  }

  lemma {:induction false} DigitsValueAppend(s: string, t: string)
    requires AllDigits(s) && AllDigits(t)
    ensures AllDigits(s + t)
    ensures DigitsValue(s + t) == DigitsValue(s) * Pow10(|t|) + DigitsValue(t)
    decreases |t|
  {
    if t != [] {
      var t' := t[..|t| - 1];
      assert (s + t)[..|s + t| - 1] == s + t';
      DigitsValueAppend(s, t');
      ShiftDigit(DigitsValue(s), Pow10(|t'|), DigitsValue(t'));
    } else {
      assert s + t == s;
    }
  }

  // ---------------------------------------------------------------------
  // Repeated blocks
  // ---------------------------------------------------------------------

  /** `w` written `k` times. */
  function Repeat(w: string, k: nat): (r: string)
    ensures |r| == |w| * k
  {
    if k == 0 then [] else Repeat(w, k - 1) + w
  }

  lemma {:induction false} RepeatFront(w: string, k: nat)
    requires k >= 1
    ensures Repeat(w, k) == w + Repeat(w, k - 1)
    decreases k
  {
    if k > 1 {
      RepeatFront(w, k - 1);
    }
  }

  lemma {:induction false} RepeatDigits(w: string, k: nat)
    requires AllDigits(w)
    ensures AllDigits(Repeat(w, k))
    ensures |w| >= 1 && k >= 1 ==> Repeat(w, k)[0] == w[0]
    decreases k
  {
    if k > 0 {
      RepeatDigits(w, k - 1);
      DigitsValueAppend(Repeat(w, k - 1), w);
    }
  }

  /** 1 + 10^s + 10^(2s) + ... + 10^((k-1)s): the number whose digits repeat a block "0..01" of width s. */
  function Rep(s: nat, k: nat): nat {
    if k == 0 then 0 else Rep(s, k - 1) * Pow10(s) + 1
  }

  /** A block of value `a` times the multiplier for `k` copies: the first `k - 1` copies shifted past one block, plus the block. */
  lemma ScaledRep(a: int, s: nat, k: nat)
    requires k > 0
    ensures a * Rep(s, k) == (a * Rep(s, k - 1)) * Pow10(s) + a
  {
    var r, p := Rep(s, k - 1), Pow10(s);
    assert a * (r * p + 1) == (a * r) * p + a;
  }

  lemma {:induction false} RepeatValue(w: string, k: nat)
    requires AllDigits(w)
    ensures AllDigits(Repeat(w, k))
    ensures DigitsValue(Repeat(w, k)) == DigitsValue(w) * Rep(|w|, k)
    decreases k
  {
    RepeatDigits(w, k);
    if k > 0 {
      RepeatValue(w, k - 1);
      var rep := Repeat(w, k - 1);
      DigitsValueAppend(rep, w);
      ScaledRep(DigitsValue(w), |w|, k);
    } else {
      assert DigitsValue([]) == 0;
    }
  }

  /** The geometric series: (10^s - 1) * Rep(s, k) == 10^(s*k) - 1. */
  lemma {:induction false} RepGeometric(s: nat, k: nat)
    ensures (Pow10(s) - 1) * Rep(s, k) == Pow10(s * k) - 1
    decreases k
  {
    if k > 0 {
      RepGeometric(s, k - 1);
      Pow10Add(s * (k - 1), s);
      assert s * (k - 1) + s == s * k;
      GeoStep(Pow10(s), Rep(s, k - 1), Pow10(s * (k - 1)));
    }
  }

  /** `(10^len - 1) / (10^s - 1)` is the repeated-block multiplier when s divides len. */
  lemma MultiplierIsRep(s: nat, k: nat)
    requires s >= 1
    ensures (Pow10(s * k) - 1) / (Pow10(s) - 1) == Rep(s, k)
  {
    RepGeometric(s, k);
    Pow10Monotone(1, s);
    DivExact(Pow10(s * k) - 1, Pow10(s) - 1, Rep(s, k));
  }

  lemma ShiftDigit(a: int, p: int, b: int)
    ensures (a * p + b) * 10 == a * (p * 10) + b * 10
  {
  }

  lemma GeoStep(r: int, q: int, x: int)
    requires (r - 1) * q == x - 1
    ensures (r - 1) * (q * r + 1) == x * r - 1
  {
    assert (r - 1) * (q * r + 1) == ((r - 1) * q) * r + (r - 1);
  }

  lemma MulLe(a: int, b: int, c: int)
    requires a >= 0 && b <= c
    ensures a * b <= a * c
  {
    assert a * c - a * b == a * (c - b);
  }

  /** Euclidean division has one quotient and remainder. */
  lemma DivUnique(x: int, d: int, q: int, r: int)
    requires d > 0 && 0 <= r < d && x == d * q + r
    ensures x / d == q && x % d == r
  {
    var q', r' := x / d, x % d;
    assert x == d * q' + r';
    if q' < q {
      MulLe(d, q' + 1, q);
      assert false;
    } else if q' > q {
      MulLe(d, q + 1, q');
      assert false;
    }
  }

  lemma DivExact(x: int, d: int, q: int)
    requires d > 0 && x == d * q
    ensures x / d == q
  {
    DivUnique(x, d, q, 0);
  }

  lemma DivMod(x: int, d: int)
    requires d > 0
    ensures x == d * (x / d) + x % d
  {
  }

  /** Dividing a number written as a high part and a lower part below the divisor. */
  lemma DivSplit(a: nat, d: nat, b: nat)
    requires d > 0 && b < d
    ensures (a * d + b) / d == a && (a * d + b) % d == b
  {
    DivUnique(a * d + b, d, a, b);
  }

  lemma DivBounds(n: nat, d: nat, lo: nat, hi: nat)
    requires d > 0 && lo * d <= n < hi * d
    ensures lo <= n / d < hi
  {
    var q, r := n / d, n % d;
    assert n == d * q + r;
    if q < lo {
      MulLe(d, q + 1, lo);
      assert false;
    } else if q >= hi {
      MulLe(d, hi, q);
      assert false;
    }
  }
}
