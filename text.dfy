/**
 * The string handling the solvers share, as Rust's `str` methods behave on
 * ASCII text: splitting at a separator, splitting at whitespace, trimming,
 * and `str::parse` for unsigned and signed integers of a given range.
 */
module Text {
  import opened Wrappers

  const U64_MAX: nat := 0xFFFF_FFFF_FFFF_FFFF
  const U32_MAX: nat := 0xFFFF_FFFF
  const I32_MIN: int := -0x8000_0000
  const I32_MAX: nat := 0x7FFF_FFFF
  const I16_MIN: int := -0x8000
  const I16_MAX: nat := 0x7FFF

  // ---------------------------------------------------------------------
  // Decimal digits
  // ---------------------------------------------------------------------

  predicate IsDigit(c: char) {
    '0' <= c <= '9'
  }

  predicate AllDigits(s: string) {
    forall k | 0 <= k < |s| :: IsDigit(s[k])
  }

  function DigitValue(c: char): (d: nat)
    requires IsDigit(c)
    ensures d < 10
  {
    (c as int) - ('0' as int)
  }

  function DigitChar(d: nat): (c: char)
    requires d < 10
    ensures IsDigit(c) && DigitValue(c) == d
  {
    (d + '0' as int) as char
  }

  /** The number a string of decimal digits denotes, most significant first. */
  function DigitsValue(s: string): nat
    requires AllDigits(s)
  {
    if s == [] then 0 else DigitsValue(s[..|s| - 1]) * 10 + DigitValue(s[|s| - 1])
  }

  /** The shortest decimal rendering of `n`. */
  function Decimal(n: nat): (s: string)
    ensures |s| > 0 && AllDigits(s)
  {
    if n < 10 then [DigitChar(n)] else Decimal(n / 10) + [DigitChar(n % 10)]
  }

  lemma {:induction false} DecimalValue(n: nat)
    ensures DigitsValue(Decimal(n)) == n
  {
    if n >= 10 {
      DecimalValue(n / 10);
      var s := Decimal(n);
      assert s[..|s| - 1] == Decimal(n / 10);
    }
  }

  /** Numbers written out in decimal, one string each. */
  function Render(vs: seq<nat>): (parts: seq<string>)
    ensures |parts| == |vs|
    ensures forall k | 0 <= k < |vs| :: parts[k] == Decimal(vs[k])
  {
    if vs == [] then [] else [Decimal(vs[0])] + Render(vs[1..])
  }

  // ---------------------------------------------------------------------
  // str::parse
  // ---------------------------------------------------------------------

  /**
   * `str::parse` for an unsigned type whose largest value is `max`: an
   * optional leading '+', then at least one decimal digit, and a value that
   * fits. Anything else is an error, here None.
   */
  function ParseUnsigned(s: string, max: nat): (r: Option<nat>)
    ensures r.Some? ==> r.value <= max
    ensures r.Some? ==> |s| > 0
  {
    var digits := if |s| > 0 && s[0] == '+' then s[1..] else s;
    if |digits| == 0 || !AllDigits(digits) then None
    else if DigitsValue(digits) > max then None
    else Some(DigitsValue(digits))
  }

  /** `str::parse` for a signed type with range [min, max]: as above, or a '-' and the magnitude. */
  function ParseSigned(s: string, min: int, max: nat): (r: Option<int>)
    requires min <= 0
    ensures r.Some? ==> min <= r.value <= max
  {
    if |s| > 0 && s[0] == '-' then
      var digits := s[1..];
      if |digits| == 0 || !AllDigits(digits) then None
      else
        var v: int := DigitsValue(digits);
        if -v < min then None else Some(-v)
    else
      match ParseUnsigned(s, max)
      case None => None
      case Some(v) => Some(v)
  }

  /** Parsing gives back every number in range that is written out in decimal. */
  lemma ParseDecimal(n: nat, max: nat)
    ensures ParseUnsigned(Decimal(n), max) == if n <= max then Some(n) else None
    ensures ParseUnsigned("+" + Decimal(n), max) == ParseUnsigned(Decimal(n), max)
  {
    DecimalValue(n);
    assert ("+" + Decimal(n))[1..] == Decimal(n);
  }

  lemma ParseSignedDecimal(x: int, min: int, max: nat)
    requires min <= 0
    ensures ParseSigned(if x < 0 then "-" + Decimal(-x) else Decimal(x), min, max)
         == if min <= x <= max then Some(x) else None
  {
    if x < 0 {
      DecimalValue(-x);
      assert ("-" + Decimal(-x))[1..] == Decimal(-x);
    } else {
      ParseDecimal(x, max);
    }
  }

  /** How a signed integer displays: an optional '-' and the decimal magnitude. */
  function Signed(x: int): (s: string)
    ensures ',' !in s
  {
    var digits := if x < 0 then Decimal(-x) else Decimal(x);
    assert forall k | 0 <= k < |digits| :: digits[k] != ',' by {
      forall k | 0 <= k < |digits| ensures digits[k] != ',' {
        assert IsDigit(digits[k]);
      }
    }
    if x < 0 then "-" + digits else digits
  }

  lemma SignedParses(x: int, min: int, max: nat)
    requires min <= x <= max && min <= 0
    ensures ParseSigned(Signed(x), min, max) == Some(x)
  {
    ParseSignedDecimal(x, min, max);
  }

  /** The empty string and a lone sign are not numbers. */
  lemma ParseRejectsEmpty(max: nat, min: int)
    requires min <= 0
    ensures ParseUnsigned("", max) == None && ParseUnsigned("+", max) == None
    ensures ParseSigned("", min, max) == None && ParseSigned("-", min, max) == None
  {
    assert "+"[1..] == "";
    assert "-"[1..] == "";
  }

  /** Parsing at a larger bound only admits more values. */
  lemma ParseWidens(s: string, max: nat, max': nat)
    requires max <= max'
    ensures ParseUnsigned(s, max).Some? ==> ParseUnsigned(s, max') == ParseUnsigned(s, max)
  {
  }

  // ---------------------------------------------------------------------
  // Splitting at a separator character
  // ---------------------------------------------------------------------

  /** Position of the first `c` in `s`. */
  function FirstIndex(s: string, c: char): (i: nat)
    requires c in s
    ensures i < |s| && s[i] == c && c !in s[..i]
  {
    if s[0] == c then 0 else 1 + FirstIndex(s[1..], c)
  }

  lemma {:induction false} FirstIndexAt(s: string, c: char, p: nat)
    requires p < |s| && s[p] == c && c !in s[..p]
    ensures FirstIndex(s, c) == p
  {
    if p > 0 {
      assert s[0] == s[..p][0];
      assert s[1..][..p - 1] == s[1..p];
      assert s[1..p] == s[..p][1..];
      FirstIndexAt(s[1..], c, p - 1);
    }
  }

  /** `s.split(sep)`: the pieces between separators, empty pieces included. */
  function Split(s: string, sep: char): (parts: seq<string>)
    ensures |parts| >= 1
    ensures forall k | 0 <= k < |parts| :: sep !in parts[k]
    decreases |s|
  {
    if sep !in s then [s]
    else
      var i := FirstIndex(s, sep);
      [s[..i]] + Split(s[i + 1..], sep)
  }

  /** Gluing pieces back together with the separator between them. */
  function Join(parts: seq<string>, sep: char): string
    requires |parts| >= 1
  {
    if |parts| == 1 then parts[0] else parts[0] + [sep] + Join(parts[1..], sep)
  }

  function Occurrences(s: string, c: char): nat {
    if s == [] then 0 else (if s[0] == c then 1 else 0) + Occurrences(s[1..], c)
  }

  lemma {:induction false} OccurrencesAppend(s: string, t: string, c: char)
    ensures Occurrences(s + t, c) == Occurrences(s, c) + Occurrences(t, c)
    decreases |s|
  {
    if s != [] {
      assert (s + t)[1..] == s[1..] + t;
      OccurrencesAppend(s[1..], t, c);
    } else {
      assert s + t == t;
    }
  }

  lemma {:induction false} OccurrencesAbsent(s: string, c: char)
    requires c !in s
    ensures Occurrences(s, c) == 0
    decreases |s|
  {
    if s != [] {
      assert s == [s[0]] + s[1..];
      OccurrencesAbsent(s[1..], c);
    }
  }

  /** Splitting loses nothing: joining the pieces gives the string back. */
  lemma {:induction false} SplitJoin(s: string, sep: char)
    ensures Join(Split(s, sep), sep) == s
    decreases |s|
  {
    if sep in s {
      var i := FirstIndex(s, sep);
      SplitJoin(s[i + 1..], sep);
      var parts := Split(s, sep);
      assert parts[1..] == Split(s[i + 1..], sep);
      assert s == s[..i] + [sep] + s[i + 1..];
    }
  }

  /** There is one piece more than there are separators. */
  lemma {:induction false} SplitCount(s: string, sep: char)
    ensures |Split(s, sep)| == Occurrences(s, sep) + 1
    decreases |s|
  {
    if sep !in s {
      OccurrencesAbsent(s, sep);
    } else {
      var i := FirstIndex(s, sep);
      SplitCount(s[i + 1..], sep);
      var rest := [sep] + s[i + 1..];
      assert s == s[..i] + rest;
      OccurrencesAbsent(s[..i], sep);
      OccurrencesAppend(s[..i], rest, sep);
      assert rest[1..] == s[i + 1..];
    }
  }

  lemma NoSeparatorAppend(a: seq<string>, b: seq<string>, sep: char)
    requires forall k | 0 <= k < |a| :: sep !in a[k]
    requires forall k | 0 <= k < |b| :: sep !in b[k]
    ensures forall k | 0 <= k < |a + b| :: sep !in (a + b)[k]
  {
    forall k | 0 <= k < |a + b| ensures sep !in (a + b)[k] {
      if k >= |a| {
        assert (a + b)[k] == b[k - |a|];
      }
    }
  }

  /** Split and Join are inverse on separator-free pieces. */
  lemma {:induction false} JoinSplit(parts: seq<string>, sep: char)
    requires |parts| >= 1 && forall k | 0 <= k < |parts| :: sep !in parts[k]
    ensures Split(Join(parts, sep), sep) == parts
    decreases |parts|
  {
    if |parts| > 1 {
      var head, tail := parts[0], parts[1..];
      var rest := Join(tail, sep);
      var s := Join(parts, sep);
      var i := |head|;
      assert s == head + [sep] + rest;
      assert s[i] == sep && s[..i] == head && s[i + 1..] == rest;
      FirstIndexAt(s, sep, i);
      assert Split(s, sep) == [head] + Split(rest, sep);
      assert Split(rest, sep) == tail by {
        JoinSplit(tail, sep);
      }
      assert parts == [head] + tail;
    }
  }

  // ---------------------------------------------------------------------
  // Whitespace
  // ---------------------------------------------------------------------

  /** The ASCII characters `char::is_whitespace` accepts. */
  predicate IsSpace(c: char) {
    c == ' ' || c == '\t' || c == '\n' || c == '\r' || c as int == 11 || c as int == 12
  }

  predicate NoSpace(s: string) {
    forall k | 0 <= k < |s| :: !IsSpace(s[k])
  }

  predicate AllSpace(s: string) {
    forall k | 0 <= k < |s| :: IsSpace(s[k])
  }

  /** Number of leading whitespace characters. */
  function LeadingSpace(s: string): (n: nat)
    ensures n <= |s| && (forall k | 0 <= k < n :: IsSpace(s[k])) && (n < |s| ==> !IsSpace(s[n]))
  {
    if s == [] || !IsSpace(s[0]) then 0 else 1 + LeadingSpace(s[1..])
  }

  /** Number of trailing whitespace characters. */
  function TrailingSpace(s: string): (n: nat)
    ensures n <= |s| && (forall k | |s| - n <= k < |s| :: IsSpace(s[k])) && (n < |s| ==> !IsSpace(s[|s| - n - 1]))
  {
    if s == [] || !IsSpace(s[|s| - 1]) then 0 else 1 + TrailingSpace(s[..|s| - 1])
  }

  /** `str::trim_start`. */
  function TrimStart(s: string): (r: string)
    ensures |r| <= |s| && r == s[|s| - |r|..] && AllSpace(s[..|s| - |r|])
    ensures |r| > 0 ==> !IsSpace(r[0])
  {
    s[LeadingSpace(s)..]
  }

  /** `str::trim_end`. */
  function TrimEnd(s: string): (r: string)
    ensures |r| <= |s| && r == s[..|r|] && AllSpace(s[|r|..])
    ensures |r| > 0 ==> !IsSpace(r[|r| - 1])
  {
    s[..|s| - TrailingSpace(s)]
  }

  /** `str::trim`: `s` less its leading and trailing whitespace. */
  function Trim(s: string): (r: string)
    ensures |r| > 0 ==> !IsSpace(r[0]) && !IsSpace(r[|r| - 1])
  {
    var t := TrimStart(s);
    var r := TrimEnd(t);
    assert |r| > 0 ==> r[0] == t[0];
    r
  }

  /** Trimming removes only whitespace, and only from the two ends. */
  lemma TrimIsInfix(s: string)
    ensures exists i: nat | i + |Trim(s)| <= |s| ::
      Trim(s) == s[i..i + |Trim(s)|] && AllSpace(s[..i]) && AllSpace(s[i + |Trim(s)|..])
  {
    var t := TrimStart(s);
    var r := TrimEnd(t);
    var i := |s| - |t|;
    assert t[|r|..] == s[i + |r|..];
    assert r == s[i..i + |r|];
  }

  /** A string without whitespace is its own trim. */
  lemma TrimBare(s: string)
    requires NoSpace(s)
    ensures Trim(s) == s
  {
    assert LeadingSpace(s) == 0;
    assert TrailingSpace(s) == 0;
  }

  lemma {:induction false} LeadingSpaceExact(s: string, i: nat)
    requires i <= |s| && AllSpace(s[..i]) && (i < |s| ==> !IsSpace(s[i]))
    ensures LeadingSpace(s) == i
    decreases i
  {
    if i > 0 {
      assert s[0] == s[..i][0];
      var tail := s[1..][..i - 1];
      forall k | 0 <= k < i - 1 ensures IsSpace(tail[k]) {
        assert tail[k] == s[..i][k + 1];
      }
      LeadingSpaceExact(s[1..], i - 1);
    }
  }

  lemma {:induction false} TrailingSpaceExact(s: string, n: nat)
    requires n <= |s| && AllSpace(s[|s| - n..]) && (n < |s| ==> !IsSpace(s[|s| - n - 1]))
    ensures TrailingSpace(s) == n
    decreases n
  {
    if n > 0 {
      var init := s[..|s| - 1];
      assert s[|s| - 1] == s[|s| - n..][n - 1];
      var tail := init[|init| - (n - 1)..];
      forall k | 0 <= k < n - 1 ensures IsSpace(tail[k]) {
        assert tail[k] == s[|s| - n..][k];
      }
      TrailingSpaceExact(init, n - 1);
    }
  }

  /** Trimming a text padded with whitespace on both sides gives the text back. */
  lemma TrimPadded(a: string, c: string, b: string)
    requires AllSpace(a) && AllSpace(b)
    requires |c| > 0 && !IsSpace(c[0]) && !IsSpace(c[|c| - 1])
    ensures Trim(a + c + b) == c
  {
    var s := a + c + b;
    assert s[..|a|] == a && s[|a|] == c[0];
    LeadingSpaceExact(s, |a|);
    var t := s[|a|..];
    assert t == c + b;
    assert t[|t| - |b|..] == b && t[|t| - |b| - 1] == c[|c| - 1];
    TrailingSpaceExact(t, |b|);
    assert TrimStart(s) == t;
    assert t[..|c|] == c;
  }

  /** Length of the leading run of non-whitespace characters. */
  function TokenLength(s: string): (n: nat)
    ensures n <= |s| && NoSpace(s[..n]) && (n < |s| ==> IsSpace(s[n]))
  {
    if s == [] || IsSpace(s[0]) then 0
    else
      var n := 1 + TokenLength(s[1..]);
      assert forall k | 1 <= k < n :: s[..n][k] == s[1..][..n - 1][k - 1];
      n
  }

  /** `str::split_whitespace`: the maximal runs of non-whitespace, in order. */
  function SplitWhitespace(s: string): (tokens: seq<string>)
    ensures forall k | 0 <= k < |tokens| :: |tokens[k]| > 0 && NoSpace(tokens[k])
    decreases |s|
  {
    var t := s[LeadingSpace(s)..];
    if t == [] then []
    else
      var n := TokenLength(t);
      [t[..n]] + SplitWhitespace(t[n..])
  }

  lemma {:induction false} TokenLengthExact(s: string, n: nat)
    requires n <= |s| && NoSpace(s[..n]) && (n < |s| ==> IsSpace(s[n]))
    ensures TokenLength(s) == n
    decreases n
  {
    if n > 0 {
      assert s[0] == s[..n][0];
      var tail := s[1..][..n - 1];
      forall k | 0 <= k < n - 1 ensures !IsSpace(tail[k]) {
        assert tail[k] == s[..n][k + 1];
      }
      TokenLengthExact(s[1..], n - 1);
    }
  }

  /** A text starting with a word of length n: that word is the first token. */
  lemma SplitWhitespaceWord(s: string, n: nat)
    requires 0 < n <= |s| && NoSpace(s[..n]) && (n < |s| ==> IsSpace(s[n]))
    ensures SplitWhitespace(s) == [s[..n]] + SplitWhitespace(s[n..])
  {
    assert s[0] == s[..n][0];
    LeadingSpaceExact(s, 0);
    TokenLengthExact(s, n);
    assert s[0..] == s;
  }

  /** One space before a word is skipped. */
  lemma SplitWhitespaceSpace(rest: string)
    requires |rest| > 0 && !IsSpace(rest[0])
    ensures SplitWhitespace([' '] + rest) == SplitWhitespace(rest)
  {
    var u := [' '] + rest;
    assert u[..1] == [' '] && u[1] == rest[0];
    LeadingSpaceExact(u, 1);
    LeadingSpaceExact(rest, 0);
    assert u[1..] == rest && rest[0..] == rest;
  }

  lemma SplitWhitespaceCons(w: string, rest: string)
    requires |w| > 0 && NoSpace(w) && |rest| > 0 && !IsSpace(rest[0])
    ensures SplitWhitespace(w + [' '] + rest) == [w] + SplitWhitespace(rest)
  {
    var s := w + [' '] + rest;
    SpacedParts(w, rest);
    SplitWhitespaceWord(s, |w|);
    SplitWhitespaceSpace(rest);
  }

  lemma SpacedParts(w: string, rest: string)
    ensures var s := w + [' '] + rest; s[..|w|] == w && |w| < |s| && s[|w|] == ' ' && s[|w|..] == [' '] + rest
  {
  }

  /** Words written with single spaces between them split back into the same words. */
  lemma {:induction false} SplitWhitespaceJoin(words: seq<string>)
    requires |words| >= 1 && forall k | 0 <= k < |words| :: |words[k]| > 0 && NoSpace(words[k])
    ensures SplitWhitespace(Join(words, ' ')) == words
    decreases |words|
  {
    if |words| == 1 {
      SplitWhitespaceSingle(words[0]);
    } else {
      var tail := words[1..];
      assert forall k | 0 <= k < |tail| :: tail[k] == words[k + 1];
      SplitWhitespaceJoin(tail);
      SplitWhitespaceJoinStep(words, tail);
    }
  }

  /** The inductive step of `SplitWhitespaceJoin`: one more word in front. */
  lemma SplitWhitespaceJoinStep(words: seq<string>, tail: seq<string>)
    requires |words| >= 2 && tail == words[1..]
    requires forall k | 0 <= k < |words| :: |words[k]| > 0 && NoSpace(words[k])
    requires SplitWhitespace(Join(tail, ' ')) == tail
    ensures SplitWhitespace(Join(words, ' ')) == words
  {
    var w := words[0];
    var rest := Join(tail, ' ');
    assert Join(words, ' ') == w + [' '] + rest;
    assert tail[0] == words[1];
    assert rest[0] == tail[0][0] by {
      JoinHead(tail, ' ');
    }
    SplitWhitespaceCons(w, rest);
    FirstAndRest(words);
  }

  /** A non-empty list is its first element followed by the rest. */
  lemma FirstAndRest<T>(s: seq<T>)
    requires |s| > 0
    ensures s == [s[0]] + s[1..]
  {
  }

  /** A joined list begins with its first part. */
  lemma JoinHead(parts: seq<string>, sep: char)
    requires |parts| >= 1
    ensures Join(parts, sep)[..|parts[0]|] == parts[0]
  {
    if |parts| > 1 {
      var rest := Join(parts[1..], sep);
      assert Join(parts, sep) == parts[0] + ([sep] + rest);
    }
  }

  /** A single word splits into itself. */
  lemma SplitWhitespaceSingle(w: string)
    requires |w| > 0 && NoSpace(w)
    ensures SplitWhitespace(w) == [w]
  {
    assert w[..|w|] == w && w[|w|..] == [];
    SplitWhitespaceWord(w, |w|);
    assert SplitWhitespace([]) == [];
  }

  /** `s` with its whitespace characters removed. */
  function Squeeze(s: string): string {
    if s == [] then [] else (if IsSpace(s[0]) then [] else [s[0]]) + Squeeze(s[1..])
  }

  function Concat(ss: seq<string>): string {
    if ss == [] then [] else ss[0] + Concat(ss[1..])
  }

  lemma {:induction false} SqueezeAppend(s: string, t: string)
    ensures Squeeze(s + t) == Squeeze(s) + Squeeze(t)
    decreases |s|
  {
    if s != [] {
      assert (s + t)[1..] == s[1..] + t;
      SqueezeAppend(s[1..], t);
    } else {
      assert s + t == t;
    }
  }

  lemma {:induction false} SqueezeAllSpace(s: string)
    requires AllSpace(s)
    ensures Squeeze(s) == []
    decreases |s|
  {
    if s != [] {
      SqueezeAllSpace(s[1..]);
    }
  }

  lemma {:induction false} SqueezeNoSpace(s: string)
    requires NoSpace(s)
    ensures Squeeze(s) == s
    decreases |s|
  {
    if s != [] {
      SqueezeNoSpace(s[1..]);
    }
  }

  /** The tokens hold exactly the non-whitespace characters of the line, in order. */
  lemma {:induction false} SplitWhitespaceKeepsText(s: string)
    ensures Concat(SplitWhitespace(s)) == Squeeze(s)
    decreases |s|
  {
    var i := LeadingSpace(s);
    var t := s[i..];
    assert Squeeze(s) == Squeeze(t) by {
      SqueezeLeading(s, i);
    }
    if t != [] {
      var n := TokenLength(t);
      var word, rest := t[..n], t[n..];
      assert SplitWhitespace(s) == [word] + SplitWhitespace(rest);
      assert Concat(SplitWhitespace(rest)) == Squeeze(rest) by {
        SplitWhitespaceKeepsText(rest);
      }
      assert Squeeze(t) == word + Squeeze(rest) by {
        SqueezeToken(t, n);
      }
      ConcatCons(word, SplitWhitespace(rest));
    } else {
      assert SplitWhitespace(s) == [];
    }
  }

  lemma ConcatCons(x: string, rest: seq<string>)
    ensures Concat([x] + rest) == x + Concat(rest)
  {
    assert ([x] + rest)[1..] == rest;
  }

  lemma SqueezeLeading(s: string, i: nat)
    requires i <= |s| && AllSpace(s[..i])
    ensures Squeeze(s) == Squeeze(s[i..])
  {
    assert s == s[..i] + s[i..];
    SqueezeAppend(s[..i], s[i..]);
    SqueezeAllSpace(s[..i]);
  }

  lemma SqueezeToken(t: string, n: nat)
    requires n <= |t| && NoSpace(t[..n])
    ensures Squeeze(t) == t[..n] + Squeeze(t[n..])
  {
    assert t == t[..n] + t[n..];
    SqueezeAppend(t[..n], t[n..]);
    SqueezeNoSpace(t[..n]);
  }

  // ---------------------------------------------------------------------
  // Splitting once at a pattern
  // ---------------------------------------------------------------------

  /** `pat` occurs in `s` starting at position `i`. */
  predicate OccursAt(s: string, pat: string, i: nat) {
    i + |pat| <= |s| && s[i..i + |pat|] == pat
  }

  /** The first position at or after `from` where `pat` occurs. */
  function Find(s: string, pat: string, from: nat): (r: Option<nat>)
    ensures r.Some? ==> from <= r.value && OccursAt(s, pat, r.value)
    ensures forall i | from <= i && (r.None? || i < r.value) :: !OccursAt(s, pat, i)
    decreases |s| - from
  {
    if from + |pat| > |s| then None
    else if s[from..from + |pat|] == pat then Some(from)
    else Find(s, pat, from + 1)
  }

  /** `str::split_once`: the text before and after the first occurrence of `pat`. */
  function SplitOnce(s: string, pat: string): (r: Option<(string, string)>)
    ensures r.Some? ==> s == r.value.0 + pat + r.value.1
    ensures r.Some? ==> forall i: nat | i < |r.value.0| :: !OccursAt(s, pat, i)
    ensures r.None? ==> forall i: nat :: !OccursAt(s, pat, i)
  {
    match Find(s, pat, 0)
    case None => None
    case Some(i) =>
      assert s == s[..i] + s[i..i + |pat|] + s[i + |pat|..];
      Some((s[..i], s[i + |pat|..]))
  }

  /** Splitting at the first occurrence: a split whose front holds no occurrence is the one found. */
  lemma SplitOnceAt(s: string, pat: string, front: string, back: string)
    requires s == front + pat + back
    requires forall i: nat | i < |front| :: !OccursAt(s, pat, i)
    ensures SplitOnce(s, pat) == Some((front, back))
  {
    var j := |front|;
    assert s[j..j + |pat|] == pat;
    assert OccursAt(s, pat, j);
    var r := SplitOnce(s, pat).value;
    var k := |r.0|;
    assert s[k..k + |pat|] == pat;
    assert OccursAt(s, pat, k);
    assert k == j;
    assert r.0 == s[..k] == front;
    assert r.1 == s[k + |pat|..] == back;
  }
}
