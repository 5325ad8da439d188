/**
 * Day 6: a worksheet of number rows above an operator row. Part one reads
 * the rows as whitespace-separated numbers and applies column i's operator
 * to column i. Part two reads each character column top to bottom as one
 * number and, scanning from the right, adds up (or multiplies) the numbers
 * of every problem an operator column heads.
 */
module Day06 {
  import opened Wrappers
  import opened Text

  // ---------------------------------------------------------------------
  // Part one: reading the rows
  // ---------------------------------------------------------------------

  /** `num.parse::<u64>().ok()`. */
  function ParseNumber(token: string): Option<nat> {
    ParseUnsigned(token, U64_MAX)
  }

  /** A number row: its whitespace-separated tokens as u64s, None if one does not parse. */
  function ParseRow(line: string): Option<seq<nat>> {
    Collect(SplitWhitespace(line), ParseNumber)
  }

  /** Some token of the line is not a u64. */
  predicate BadToken(line: string) {
    exists j | 0 <= j < |SplitWhitespace(line)| :: ParseNumber(SplitWhitespace(line)[j]).None?
  }

  /** A row fails to parse exactly when one of its tokens does. */
  lemma ParseRowFails(line: string)
    ensures ParseRow(line).None? <==> BadToken(line)
  {
    var tokens := SplitWhitespace(line);
    CollectFails(tokens, ParseNumber);
    assert ParseRow(line) == Collect(tokens, ParseNumber);
  }

  /** The number rows fail to parse exactly when some row holds a token that is not a u64. */
  lemma ParseRowsFail(rows: seq<string>)
    ensures Collect(rows, ParseRow).None? <==> exists k | 0 <= k < |rows| :: BadToken(rows[k])
  {
    CollectFails(rows, ParseRow);
    forall k | 0 <= k < |rows| ensures ParseRow(rows[k]).None? <==> BadToken(rows[k]) {
      ParseRowFails(rows[k]);
    }
  }

  /** A row written as numbers with single spaces between them reads back as those numbers. */
  lemma RowRendered(vs: seq<nat>)
    requires |vs| >= 1 && forall k | 0 <= k < |vs| :: vs[k] <= U64_MAX
    ensures ParseRow(Join(Render(vs), ' ')) == Some(vs)
  {
    var words := Render(vs);
    RenderedWords(vs);
    SplitWhitespaceJoin(words);
    ParseRendered(vs);
  }

  lemma RenderedWords(vs: seq<nat>)
    ensures forall k | 0 <= k < |Render(vs)| :: |Render(vs)[k]| > 0 && NoSpace(Render(vs)[k])
  {
    var words := Render(vs);
    forall k | 0 <= k < |words| ensures NoSpace(words[k]) {
      var w := words[k];
      forall i | 0 <= i < |w| ensures !IsSpace(w[i]) {
        assert IsDigit(w[i]);
      }
    }
  }

  lemma ParseRendered(vs: seq<nat>)
    requires forall k | 0 <= k < |vs| :: vs[k] <= U64_MAX
    ensures Collect(Render(vs), ParseNumber) == Some(vs)
  {
    var words := Render(vs);
    forall k | 0 <= k < |words| ensures ParseNumber(words[k]) == Some(vs[k]) {
      ParseDecimal(vs[k], U64_MAX);
    }
    CollectFails(words, ParseNumber);
    var r := Collect(words, ParseNumber);
    assert r.Some?;
    CollectValues(words, ParseNumber);
    assert r.value == vs;
  }

  /** The operator tokens have no whitespace, so `op.trim()` leaves them as they are. */
  lemma OperatorsTrimmed(line: string)
    ensures forall k | 0 <= k < |SplitWhitespace(line)| :: Trim(SplitWhitespace(line)[k]) == SplitWhitespace(line)[k]
  {
    forall k | 0 <= k < |SplitWhitespace(line)| ensures Trim(SplitWhitespace(line)[k]) == SplitWhitespace(line)[k] {
      TrimBare(SplitWhitespace(line)[k]);
    }
  }

  // ---------------------------------------------------------------------
  // Part one: the columns
  // ---------------------------------------------------------------------

  /** Every row has a number in column i. */
  predicate HasColumn(terms: seq<seq<nat>>, i: nat) {
    forall r | 0 <= r < |terms| :: i < |terms[r]|
  }

  function ColumnSum(terms: seq<seq<nat>>, i: nat): nat
    requires HasColumn(terms, i)
  {
    if terms == [] then 0 else ColumnSum(terms[..|terms| - 1], i) + terms[|terms| - 1][i]
  }

  function ColumnProduct(terms: seq<seq<nat>>, i: nat): nat
    requires HasColumn(terms, i)
  {
    if terms == [] then 1 else ColumnProduct(terms[..|terms| - 1], i) * terms[|terms| - 1][i]
  }

  predicate ApplyOp(op: string) {
    op == "+" || op == "*"
  }

  /** Column i's answer: the sum for "+", the product for "*", 0 for anything else. */
  function Answer(op: string, terms: seq<seq<nat>>, i: nat): nat
    requires ApplyOp(op) ==> HasColumn(terms, i)
  {
    if op == "+" then ColumnSum(terms, i)
    else if op == "*" then ColumnProduct(terms, i)
    else 0
  }

  /** `term[i]` is only read in the columns whose operator is "+" or "*". */
  predicate Indexable(ops: seq<string>, terms: seq<seq<nat>>) {
    forall i | 0 <= i < |ops| :: ApplyOp(ops[i]) ==> HasColumn(terms, i)
  }

  /** The answers of the first n columns, added up. */
  function Homework(ops: seq<string>, terms: seq<seq<nat>>, n: nat): nat
    requires n <= |ops| && Indexable(ops, terms)
  {
    if n == 0 then 0 else Homework(ops, terms, n - 1) + Answer(ops[n - 1], terms, n - 1)
  }

  /** The operator row: the last line, split at whitespace. */
  function Operators(lines: seq<string>): seq<string>
    requires |lines| >= 1
  {
    SplitWhitespace(lines[|lines| - 1])
  }

  /** The number rows: every line before the last. */
  function Terms(lines: seq<string>): Option<seq<seq<nat>>>
    requires |lines| >= 1
  {
    Collect(lines[..|lines| - 1], ParseRow)
  }

  /** part_one. */
  method PartOne(lines: seq<string>) returns (r: Option<nat>)
    requires |lines| >= 1
    requires Terms(lines).Some? ==> Indexable(Operators(lines), Terms(lines).value)
    ensures r.None? <==> Terms(lines).None?
    ensures r.Some? ==> r.value == Homework(Operators(lines), Terms(lines).value, |Operators(lines)|)
  {
    var parsed := Collect(lines[..|lines| - 1], ParseRow);
    if parsed.None? {
      return None;
    }
    var terms := parsed.value;
    var operators := SplitWhitespace(lines[|lines| - 1]);
    var result := 0;
    for i := 0 to |operators|
      invariant result == Homework(operators, terms, i)
    {
      var answer := 0;
      if operators[i] == "+" {
        answer := AddColumn(terms, i);
      }
      if operators[i] == "*" {
        answer := MultiplyColumn(terms, i);
      }
      result := result + answer;
    }
    return Some(result);
  }

  /** The "+" loop over the terms. */
  method AddColumn(terms: seq<seq<nat>>, i: nat) returns (answer: nat)
    requires HasColumn(terms, i)
    ensures answer == ColumnSum(terms, i)
  {
    answer := 0;
    for j := 0 to |terms|
      invariant answer == ColumnSum(terms[..j], i)
    {
      assert terms[..j + 1][..j] == terms[..j];
      answer := answer + terms[j][i];
    }
    assert terms[..|terms|] == terms;
  }

  /** The "*" loop over the terms. */
  method MultiplyColumn(terms: seq<seq<nat>>, i: nat) returns (answer: nat)
    requires HasColumn(terms, i)
    ensures answer == ColumnProduct(terms, i)
  {
    answer := 1;
    for j := 0 to |terms|
      invariant answer == ColumnProduct(terms[..j], i)
    {
      assert terms[..j + 1][..j] == terms[..j];
      answer := answer * terms[j][i];
    }
    assert terms[..|terms|] == terms;
  }

  function Sum(s: seq<nat>): nat {
    if s == [] then 0 else Sum(s[..|s| - 1]) + s[|s| - 1]
  }

  /** Every number in the first n columns, added up row by row. */
  function RowTotals(terms: seq<seq<nat>>, n: nat): nat
    requires forall r | 0 <= r < |terms| :: n <= |terms[r]|
  {
    if terms == [] then 0 else RowTotals(terms[..|terms| - 1], n) + Sum(terms[|terms| - 1][..n])
  }

  lemma {:induction false} RowTotalsStep(terms: seq<seq<nat>>, n: nat)
    requires forall r | 0 <= r < |terms| :: n < |terms[r]|
    ensures RowTotals(terms, n + 1) == RowTotals(terms, n) + ColumnSum(terms, n)
    decreases |terms|
  {
    if terms != [] {
      var row := terms[|terms| - 1];
      RowTotalsStep(terms[..|terms| - 1], n);
      assert row[..n + 1][..n] == row[..n];
    }
  }

  /** When every operator is "+", part one adds up every number on the sheet, row by row. */
  lemma {:induction false} AllPlusAddsEverything(ops: seq<string>, terms: seq<seq<nat>>, n: nat)
    requires n <= |ops| && forall i | 0 <= i < |ops| :: ops[i] == "+"
    requires forall r | 0 <= r < |terms| :: |ops| <= |terms[r]|
    ensures Homework(ops, terms, n) == RowTotals(terms, n)
    decreases n
  {
    if n > 0 {
      AllPlusAddsEverything(ops, terms, n - 1);
      RowTotalsStep(terms, n - 1);
    } else {
      RowTotalsZero(terms);
    }
  }

  lemma {:induction false} RowTotalsZero(terms: seq<seq<nat>>)
    ensures RowTotals(terms, 0) == 0
    decreases |terms|
  {
    if terms != [] {
      RowTotalsZero(terms[..|terms| - 1]);
    }
  }

  // ---------------------------------------------------------------------
  // Part two: the character columns
  // ---------------------------------------------------------------------

  /** The characters at position col of the rows, top to bottom, skipping rows too short to have one. */
  function Column(rows: seq<string>, col: nat): (s: string)
    ensures |s| <= |rows|
  {
    if rows == [] then []
    else Column(rows[..|rows| - 1], col) + (if col < |rows[|rows| - 1]| then [rows[|rows| - 1][col]] else [])
  }

  /** A column's text, trimmed: None when blank or not a u64. */
  function ReadNumber(text: string): Option<nat> {
    var trimmed := Trim(text);
    if trimmed == [] then None else ParseUnsigned(trimmed, U64_MAX)
  }

  /** `terms`: the number each of the first `width` columns holds. */
  function Numbers(rows: seq<string>, width: nat): (vs: seq<Option<nat>>)
    ensures |vs| == width
    ensures forall c | 0 <= c < width :: vs[c] == ReadNumber(Column(rows, c))
  {
    if width == 0 then [] else Numbers(rows, width - 1) + [ReadNumber(Column(rows, width - 1))]
  }

  /** Where every row is long enough, the column lists row r's character at position r. */
  lemma {:induction false} ColumnReadsDown(rows: seq<string>, col: nat)
    requires forall r | 0 <= r < |rows| :: col < |rows[r]|
    ensures |Column(rows, col)| == |rows|
    ensures forall r | 0 <= r < |rows| :: Column(rows, col)[r] == rows[r][col]
    decreases |rows|
  {
    if rows != [] {
      ColumnReadsDown(rows[..|rows| - 1], col);
    }
  }

  /** A number written down a column with blanks above and below reads back as that number. */
  lemma ReadNumberPadded(above: string, n: nat, below: string)
    requires AllSpace(above) && AllSpace(below) && n <= U64_MAX
    ensures ReadNumber(above + Decimal(n) + below) == Some(n)
  {
    var d := Decimal(n);
    assert IsDigit(d[0]) && IsDigit(d[|d| - 1]);
    TrimPadded(above, d, below);
    ParseDecimal(n, U64_MAX);
  }

  /** A blank column holds no number. */
  lemma ReadNumberBlank(text: string)
    requires AllSpace(text)
    ensures ReadNumber(text) == None
  {
    TrimIsInfix(text);
  }

  /** The inner loop building `col_str`. */
  method ReadColumn(rows: seq<string>, col: nat) returns (s: string)
    ensures s == Column(rows, col)
  {
    s := [];
    for r := 0 to |rows|
      invariant s == Column(rows[..r], col)
    {
      assert rows[..r + 1][..r] == rows[..r];
      var row := rows[r];
      if col < |row| {
        s := s + [row[col]];
      }
    }
    assert rows[..|rows|] == rows;
  }

  // ---------------------------------------------------------------------
  // Part two: the problems
  // ---------------------------------------------------------------------

  predicate IsOperator(c: char) {
    c == '+' || c == '*'
  }

  /** The first operator column at or after c, or the width when there is none. */
  function NextOperator(ops: string, c: nat): (d: nat)
    requires c <= |ops|
    ensures c <= d <= |ops| && (d < |ops| ==> IsOperator(ops[d]))
    ensures forall k | c <= k < d :: !IsOperator(ops[k])
    decreases |ops| - c
  {
    if c == |ops| || IsOperator(ops[c]) then c else NextOperator(ops, c + 1)
  }

  /** The numbers of columns lo..hi added up; blank columns count for nothing. */
  function GroupSum(vs: seq<Option<nat>>, lo: nat, hi: nat): nat
    requires lo <= hi <= |vs|
    decreases hi - lo
  {
    if lo == hi then 0 else (if vs[lo].Some? then vs[lo].value else 0) + GroupSum(vs, lo + 1, hi)
  }

  /** The numbers of columns lo..hi multiplied; blank columns count for nothing. */
  function GroupProduct(vs: seq<Option<nat>>, lo: nat, hi: nat): nat
    requires lo <= hi <= |vs|
    decreases hi - lo
  {
    if lo == hi then 1 else GroupProduct(vs, lo + 1, hi) * (if vs[lo].Some? then vs[lo].value else 1)
  }

  /** The problem operator column c heads: c and the columns right of it up to the next operator. */
  function Problem(vs: seq<Option<nat>>, ops: string, c: nat): nat
    requires |vs| == |ops| && c < |ops| && IsOperator(ops[c])
  {
    var end := NextOperator(ops, c + 1);
    if ops[c] == '+' then GroupSum(vs, c, end) else GroupProduct(vs, c, end)
  }

  /** The answers of the problems headed by the operator columns from `from` on, added up. */
  function Worksheet(vs: seq<Option<nat>>, ops: string, from: nat): nat
    requires |vs| == |ops| && from <= |ops|
    decreases |ops| - from
  {
    if from == |ops| then 0
    else (if IsOperator(ops[from]) then Problem(vs, ops, from) else 0) + Worksheet(vs, ops, from + 1)
  }

  /** The right-to-left scan with its two accumulators. */
  method Evaluate(terms: seq<Option<nat>>, operators: string) returns (result: nat)
    requires |terms| == |operators|
    ensures result == Worksheet(terms, operators, 0)
  {
    result := 0;
    var addAcc, mulAcc := 0, 1;
    var i := |operators|;
    while i > 0
      invariant 0 <= i <= |operators|
      invariant result == Worksheet(terms, operators, i)
      invariant addAcc == GroupSum(terms, i, NextOperator(operators, i))
      invariant mulAcc == GroupProduct(terms, i, NextOperator(operators, i))
    {
      i := i - 1;
      if terms[i].Some? {
        addAcc := addAcc + terms[i].value;
        mulAcc := mulAcc * terms[i].value;
      }
      if operators[i] == '+' {
        result := result + addAcc;
        addAcc, mulAcc := 0, 1;
      } else if operators[i] == '*' {
        result := result + mulAcc;
        addAcc, mulAcc := 0, 1;
      }
    }
  }

  /** part_two: None without a number row or with an empty operator row. */
  method PartTwo(lines: seq<string>) returns (r: Option<nat>)
    ensures r.None? <==> |lines| <= 1 || |lines[|lines| - 1]| == 0
    ensures r.Some? ==>
      var operators := lines[|lines| - 1];
      r.value == Worksheet(Numbers(lines[..|lines| - 1], |operators|), operators, 0)
  {
    if |lines| == 0 {
      return None;
    }
    var rows := lines[..|lines| - 1];
    var operators := lines[|lines| - 1];
    var width := |operators|;
    if width == 0 || |rows| == 0 {
      return None;
    }
    var terms: seq<Option<nat>> := [];
    for col := 0 to width
      invariant terms == Numbers(rows, col)
    {
      var column := ReadColumn(rows, col);
      var trimmed := Trim(column);
      var value := if trimmed == [] then None else ParseUnsigned(trimmed, U64_MAX);
      assert value == ReadNumber(Column(rows, col));
      terms := terms + [value];
    }
    var result := Evaluate(terms, operators);
    return Some(result);
  }

  /** Columns left of the first operator belong to no problem and are dropped. */
  lemma {:induction false} LeadingColumnsDropped(vs: seq<Option<nat>>, ops: string, c: nat)
    requires |vs| == |ops| && c <= |ops|
    requires forall k | 0 <= k < c :: !IsOperator(ops[k])
    ensures Worksheet(vs, ops, 0) == Worksheet(vs, ops, c)
    decreases c
  {
    if c > 0 {
      LeadingColumnsDropped(vs, ops, c - 1);
    }
  }

  /** A sheet with one operator, in its first column, is one problem over every column. */
  lemma SingleProblem(vs: seq<Option<nat>>, ops: string)
    requires |vs| == |ops| && |ops| >= 1 && IsOperator(ops[0])
    requires forall k | 1 <= k < |ops| :: !IsOperator(ops[k])
    ensures Worksheet(vs, ops, 0) == if ops[0] == '+' then GroupSum(vs, 0, |ops|) else GroupProduct(vs, 0, |ops|)
  {
    NoMoreProblems(vs, ops, 1);
  }

  lemma {:induction false} NoMoreProblems(vs: seq<Option<nat>>, ops: string, from: nat)
    requires |vs| == |ops| && from <= |ops|
    requires forall k | from <= k < |ops| :: !IsOperator(ops[k])
    ensures Worksheet(vs, ops, from) == 0
    decreases |ops| - from
  {
    if from < |ops| {
      NoMoreProblems(vs, ops, from + 1);
    }
  }
}
