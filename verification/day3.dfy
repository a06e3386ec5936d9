/** Day 3: an engine schematic. The scanner walks every line once and
    records each number (row, column, length, value) and each symbol (row,
    column, character); dots are blank. Part 1 sums the numbers next to a
    symbol, part 2 multiplies the two numbers next to each `*` that touches
    exactly two.

    Lines are sequences of characters and columns count characters, which
    are the byte offsets the scanner keeps for ASCII input.
 */
module Day3 {

  import opened Wrappers
  import Sorting

  datatype Number = Number(row: nat, col: nat, len: nat, value: nat)

  datatype Symbol = Symbol(row: nat, col: nat, ch: char)

  datatype Schematic = Schematic(numbers: seq<Number>, symbols: seq<Symbol>)

  /** What the scanner records as a symbol: neither a digit nor a dot. */
  predicate IsSymbolChar(c: char)
  {
    c != '.' && !IsDigitChar(c)
  }

  /** Position `k` holds the first digit of a run of digits. */
  predicate StartsRun(line: string, k: int)
  {
    0 <= k < |line| && IsDigitChar(line[k]) && (k == 0 || !IsDigitChar(line[k - 1]))
  }

  predicate AllDigits(s: string)
  {
    forall k :: 0 <= k < |s| ==> IsDigitChar(s[k])
  }

  /** `n` is a maximal run of digits of `line` together with its decimal
      value. */
  predicate NumberAt(line: string, n: Number)
  {
    1 <= n.len && n.col + n.len <= |line|
    && AllDigits(line[n.col..n.col + n.len])
    && (n.col == 0 || !IsDigitChar(line[n.col - 1]))
    && (n.col + n.len == |line| || !IsDigitChar(line[n.col + n.len]))
    && n.value == DecimalValue(line[n.col..n.col + n.len])
  }

  predicate SymbolAt(line: string, s: Symbol)
  {
    s.col < |line| && s.ch == line[s.col] && IsSymbolChar(s.ch)
  }

  function NotDigitAt(line: string): int -> bool
  {
    k => 0 <= k < |line| && !IsDigitChar(line[k])
  }

  function NotDotAt(line: string): int -> bool
  {
    k => 0 <= k < |line| && line[k] != '.'
  }

  predicate NumbersSound(row: nat, line: string, j: int, numbers: seq<Number>)
  {
    forall p :: 0 <= p < |numbers| ==>
      numbers[p].row == row && NumberAt(line, numbers[p]) && numbers[p].col + numbers[p].len <= j
  }

  predicate SymbolsSound(row: nat, line: string, j: int, symbols: seq<Symbol>)
  {
    forall p :: 0 <= p < |symbols| ==>
      symbols[p].row == row && SymbolAt(line, symbols[p]) && symbols[p].col < j
  }

  predicate NumbersComplete(line: string, j: int, numbers: seq<Number>)
  {
    forall k :: 0 <= k < j && StartsRun(line, k) ==> exists p :: 0 <= p < |numbers| && numbers[p].col == k
  }

  predicate SymbolsComplete(line: string, j: int, symbols: seq<Symbol>)
  {
    forall k :: 0 <= k < j && k < |line| && IsSymbolChar(line[k]) ==>
      exists p :: 0 <= p < |symbols| && symbols[p].col == k
  }

  predicate NumbersIncreasing(numbers: seq<Number>)
  {
    forall p, q :: 0 <= p < q < |numbers| ==> numbers[p].col < numbers[q].col
  }

  predicate SymbolsIncreasing(symbols: seq<Symbol>)
  {
    forall p, q :: 0 <= p < q < |symbols| ==> symbols[p].col < symbols[q].col
  }

  /** The scanner's state after consuming `line[..j]`: what is recorded is
      sound, everything before `j` is recorded, columns increase, and a digit
      at `j` starts a run. */
  predicate ScanInv(row: nat, line: string, j: int, numbers: seq<Number>, symbols: seq<Symbol>)
  {
    0 <= j <= |line|
    && (j < |line| && IsDigitChar(line[j]) ==> StartsRun(line, j))
    && NumbersSound(row, line, j, numbers) && SymbolsSound(row, line, j, symbols)
    && NumbersComplete(line, j, numbers) && SymbolsComplete(line, j, symbols)
    && NumbersIncreasing(numbers) && SymbolsIncreasing(symbols)
  }

  /** The digit run starting at `j` ends at `end`: `line.find(non-digit)`. */
  function RunEnd(line: string, j: nat): (end: nat)
    requires j < |line|
    ensures j < end <= |line| || !IsDigitChar(line[j])
    ensures end <= |line|
    ensures forall k :: j <= k < end ==> IsDigitChar(line[k])
    ensures end == |line| || !IsDigitChar(line[end])
  {
    assert forall k :: NotDigitAt(line)(k) <==> 0 <= k < |line| && !IsDigitChar(line[k]);
    match FindFirst(j, |line|, NotDigitAt(line))
    case None => |line|
    case Some(e) => e
  }

  /** The number the scanner records for the run starting at `j`. */
  function RunAt(row: nat, line: string, j: nat): (n: Number)
    requires j < |line| && IsDigitChar(line[j])
    ensures n.row == row && n.col == j && j + n.len == RunEnd(line, j)
  {
    var end := RunEnd(line, j);
    assert AllDigits(line[j..end]);
    Number(row, j, end - j, DecimalValue(line[j..end]))
  }

  lemma StepNumber(row: nat, line: string, j: nat, numbers: seq<Number>, symbols: seq<Symbol>)
    requires ScanInv(row, line, j, numbers, symbols)
    requires j < |line| && IsDigitChar(line[j])
    ensures ScanInv(row, line, RunEnd(line, j), numbers + [RunAt(row, line, j)], symbols)
  {
    var end := RunEnd(line, j);
    var num := RunAt(row, line, j);
    assert NumberAt(line, num);
    var ns := numbers + [num];
    assert NumbersSound(row, line, end, ns);
    forall k | 0 <= k < end && StartsRun(line, k)
      ensures exists p :: 0 <= p < |ns| && ns[p].col == k
    {
      if k < j {
        var p :| 0 <= p < |numbers| && numbers[p].col == k;
        assert ns[p] == numbers[p];
      } else {
        assert ns[|numbers|].col == k;
      }
    }
    assert NumbersIncreasing(ns);
    assert SymbolsComplete(line, end, symbols);
  }

  lemma StepSymbol(row: nat, line: string, j: nat, numbers: seq<Number>, symbols: seq<Symbol>)
    requires ScanInv(row, line, j, numbers, symbols)
    requires j < |line| && IsSymbolChar(line[j])
    ensures ScanInv(row, line, j + 1, numbers, symbols + [Symbol(row, j, line[j])])
  {
    var ss := symbols + [Symbol(row, j, line[j])];
    forall k | 0 <= k < j + 1 && IsSymbolChar(line[k])
      ensures exists p :: 0 <= p < |ss| && ss[p].col == k
    {
      if k < j {
        var p :| 0 <= p < |symbols| && symbols[p].col == k;
        assert ss[p] == symbols[p];
      } else {
        assert ss[|symbols|].col == k;
      }
    }
    assert SymbolsSound(row, line, j + 1, ss);
    assert SymbolsIncreasing(ss);
  }

  /** `line.find(|ch| ch != '.')` from `j`: the offset of the next non-dot,
      or the end of the line when only dots are left. */
  function NextNonDot(line: string, j: nat): (index: nat)
    requires j <= |line|
    ensures j <= index <= |line|
    ensures forall k :: j <= k < index ==> line[k] == '.'
    ensures index == |line| || line[index] != '.'
  {
    assert forall k :: NotDotAt(line)(k) <==> 0 <= k < |line| && line[k] != '.';
    match FindFirst(j, |line|, NotDotAt(line))
    case None => |line|
    case Some(e) => e
  }

  lemma SkipDots(row: nat, line: string, j: nat, numbers: seq<Number>, symbols: seq<Symbol>)
    requires ScanInv(row, line, j, numbers, symbols)
    ensures ScanInv(row, line, NextNonDot(line, j), numbers, symbols)
  {
  }

  lemma ScanFinished(row: nat, line: string, numbers: seq<Number>, symbols: seq<Symbol>)
    requires ScanInv(row, line, |line|, numbers, symbols)
    ensures forall p :: 0 <= p < |numbers| ==> numbers[p].row == row && NumberAt(line, numbers[p])
    ensures forall p :: 0 <= p < |symbols| ==> symbols[p].row == row && SymbolAt(line, symbols[p])
    ensures forall k :: StartsRun(line, k) ==> exists p :: 0 <= p < |numbers| && numbers[p].col == k
    ensures forall k :: 0 <= k < |line| && IsSymbolChar(line[k]) ==>
      exists p :: 0 <= p < |symbols| && symbols[p].col == k
    ensures forall p, q :: 0 <= p < q < |numbers| ==> numbers[p].col < numbers[q].col
    ensures forall p, q :: 0 <= p < q < |symbols| ==> symbols[p].col < symbols[q].col
  {
  }

  /** One iteration of the scanning loop: record the number or symbol at
      `j`, if any, then skip the dots after it. `None => break` of the
      source leaves `j` at the end of the line. */
  function ScanOne(row: nat, line: string, j: nat, numbers: seq<Number>, symbols: seq<Symbol>)
    : (r: (nat, seq<Number>, seq<Symbol>))
    requires ScanInv(row, line, j, numbers, symbols) && j < |line|
    ensures j < r.0 && ScanInv(row, line, r.0, r.1, r.2)
  {
    if IsDigitChar(line[j]) then
      var num := RunAt(row, line, j);
      var e := j + num.len;
      assert ScanInv(row, line, NextNonDot(line, e), numbers + [num], symbols) by {
        StepNumber(row, line, j, numbers, symbols);
        SkipDots(row, line, e, numbers + [num], symbols);
      }
      (NextNonDot(line, e), numbers + [num], symbols)
    else if line[j] != '.' then
      var sym := Symbol(row, j, line[j]);
      assert ScanInv(row, line, NextNonDot(line, j + 1), numbers, symbols + [sym]) by {
        StepSymbol(row, line, j, numbers, symbols);
        SkipDots(row, line, j + 1, numbers, symbols + [sym]);
      }
      (NextNonDot(line, j + 1), numbers, symbols + [sym])
    else
      assert ScanInv(row, line, NextNonDot(line, j), numbers, symbols) by {
        SkipDots(row, line, j, numbers, symbols);
      }
      (NextNonDot(line, j), numbers, symbols)
  }

  /** One pass of the scanner over line `row`: `j` is the offset of the
      part of the line not yet consumed. */
  method ScanLine(row: nat, line: string) returns (numbers: seq<Number>, symbols: seq<Symbol>)
    ensures forall p :: 0 <= p < |numbers| ==> numbers[p].row == row && NumberAt(line, numbers[p])
    ensures forall p :: 0 <= p < |symbols| ==> symbols[p].row == row && SymbolAt(line, symbols[p])
    ensures forall k :: StartsRun(line, k) ==> exists p :: 0 <= p < |numbers| && numbers[p].col == k
    ensures forall k :: 0 <= k < |line| && IsSymbolChar(line[k]) ==>
      exists p :: 0 <= p < |symbols| && symbols[p].col == k
    ensures forall p, q :: 0 <= p < q < |numbers| ==> numbers[p].col < numbers[q].col
    ensures forall p, q :: 0 <= p < q < |symbols| ==> symbols[p].col < symbols[q].col
  {
    numbers, symbols := [], [];
    var j := 0;
    while j < |line|
      invariant ScanInv(row, line, j, numbers, symbols)
      decreases |line| - j
    {
      var next := ScanOne(row, line, j, numbers, symbols);
      j, numbers, symbols := next.0, next.1, next.2;
    }
    ScanFinished(row, line, numbers, symbols);
  }

  /** Rows are compared first, then columns. */
  predicate Before(r1: nat, c1: nat, r2: nat, c2: nat)
  {
    r1 < r2 || (r1 == r2 && c1 < c2)
  }

  /** What `parse_input` promises about its schematic: every number and
      symbol recorded is really in the grid, every one in the grid is
      recorded, and both lists are in reading order. */
  ghost predicate Scanned(lines: seq<string>, sch: Schematic)
  {
    (forall p :: 0 <= p < |sch.numbers| ==>
      sch.numbers[p].row < |lines| && NumberAt(lines[sch.numbers[p].row], sch.numbers[p]))
    && (forall p :: 0 <= p < |sch.symbols| ==>
      sch.symbols[p].row < |lines| && SymbolAt(lines[sch.symbols[p].row], sch.symbols[p]))
    && (forall r, k :: 0 <= r < |lines| && StartsRun(lines[r], k) ==>
      exists p :: 0 <= p < |sch.numbers| && sch.numbers[p].row == r && sch.numbers[p].col == k)
    && (forall r, k :: 0 <= r < |lines| && 0 <= k < |lines[r]| && IsSymbolChar(lines[r][k]) ==>
      exists p :: 0 <= p < |sch.symbols| && sch.symbols[p].row == r && sch.symbols[p].col == k)
    && (forall p, q :: 0 <= p < q < |sch.numbers| ==>
      Before(sch.numbers[p].row, sch.numbers[p].col, sch.numbers[q].row, sch.numbers[q].col))
    && (forall p, q :: 0 <= p < q < |sch.symbols| ==>
      Before(sch.symbols[p].row, sch.symbols[p].col, sch.symbols[q].row, sch.symbols[q].col))
  }

  /** `parse_input`, taking the input already split into lines. */
  method Parse(lines: seq<string>) returns (sch: Schematic)
    ensures Scanned(lines, sch)
  {
    var numbers: seq<Number>, symbols: seq<Symbol> := [], [];
    for i := 0 to |lines|
      invariant forall p :: 0 <= p < |numbers| ==>
        numbers[p].row < i && NumberAt(lines[numbers[p].row], numbers[p])
      invariant forall p :: 0 <= p < |symbols| ==>
        symbols[p].row < i && SymbolAt(lines[symbols[p].row], symbols[p])
      invariant forall r, k :: 0 <= r < i && StartsRun(lines[r], k) ==>
        exists p :: 0 <= p < |numbers| && numbers[p].row == r && numbers[p].col == k
      invariant forall r, k :: 0 <= r < i && 0 <= k < |lines[r]| && IsSymbolChar(lines[r][k]) ==>
        exists p :: 0 <= p < |symbols| && symbols[p].row == r && symbols[p].col == k
      invariant forall p, q :: 0 <= p < q < |numbers| ==>
        Before(numbers[p].row, numbers[p].col, numbers[q].row, numbers[q].col)
      invariant forall p, q :: 0 <= p < q < |symbols| ==>
        Before(symbols[p].row, symbols[p].col, symbols[q].row, symbols[q].col)
    {
      var ns, ss := ScanLine(i, lines[i]);
      AppendRow(lines, i, numbers, ns);
      AppendSymbols(lines, i, symbols, ss);
      numbers := numbers + ns;
      symbols := symbols + ss;
    }
    sch := Schematic(numbers, symbols);
  }

  lemma AppendRow(lines: seq<string>, i: nat, numbers: seq<Number>, ns: seq<Number>)
    requires i < |lines|
    requires forall p :: 0 <= p < |numbers| ==>
      numbers[p].row < i && NumberAt(lines[numbers[p].row], numbers[p])
    requires forall r, k :: 0 <= r < i && StartsRun(lines[r], k) ==>
      exists p :: 0 <= p < |numbers| && numbers[p].row == r && numbers[p].col == k
    requires forall p, q :: 0 <= p < q < |numbers| ==>
      Before(numbers[p].row, numbers[p].col, numbers[q].row, numbers[q].col)
    requires forall p :: 0 <= p < |ns| ==> ns[p].row == i && NumberAt(lines[i], ns[p])
    requires forall k :: StartsRun(lines[i], k) ==> exists p :: 0 <= p < |ns| && ns[p].col == k
    requires forall p, q :: 0 <= p < q < |ns| ==> ns[p].col < ns[q].col
    ensures var all := numbers + ns;
      (forall p :: 0 <= p < |all| ==> all[p].row < i + 1 && NumberAt(lines[all[p].row], all[p]))
      && (forall r, k :: 0 <= r < i + 1 && StartsRun(lines[r], k) ==>
        exists p :: 0 <= p < |all| && all[p].row == r && all[p].col == k)
      && (forall p, q :: 0 <= p < q < |all| ==> Before(all[p].row, all[p].col, all[q].row, all[q].col))
  {
    var all := numbers + ns;
    forall r, k | 0 <= r < i + 1 && StartsRun(lines[r], k)
      ensures exists p :: 0 <= p < |all| && all[p].row == r && all[p].col == k
    {
      if r < i {
        var p :| 0 <= p < |numbers| && numbers[p].row == r && numbers[p].col == k;
        assert all[p] == numbers[p];
      } else {
        var p :| 0 <= p < |ns| && ns[p].col == k;
        assert all[|numbers| + p] == ns[p];
      }
    }
  }

  lemma AppendSymbols(lines: seq<string>, i: nat, symbols: seq<Symbol>, ss: seq<Symbol>)
    requires i < |lines|
    requires forall p :: 0 <= p < |symbols| ==>
      symbols[p].row < i && SymbolAt(lines[symbols[p].row], symbols[p])
    requires forall r, k :: 0 <= r < i && 0 <= k < |lines[r]| && IsSymbolChar(lines[r][k]) ==>
      exists p :: 0 <= p < |symbols| && symbols[p].row == r && symbols[p].col == k
    requires forall p, q :: 0 <= p < q < |symbols| ==>
      Before(symbols[p].row, symbols[p].col, symbols[q].row, symbols[q].col)
    requires forall p :: 0 <= p < |ss| ==> ss[p].row == i && SymbolAt(lines[i], ss[p])
    requires forall k :: 0 <= k < |lines[i]| && IsSymbolChar(lines[i][k]) ==>
      exists p :: 0 <= p < |ss| && ss[p].col == k
    requires forall p, q :: 0 <= p < q < |ss| ==> ss[p].col < ss[q].col
    ensures var all := symbols + ss;
      (forall p :: 0 <= p < |all| ==> all[p].row < i + 1 && SymbolAt(lines[all[p].row], all[p]))
      && (forall r, k :: 0 <= r < i + 1 && 0 <= k < |lines[r]| && IsSymbolChar(lines[r][k]) ==>
        exists p :: 0 <= p < |all| && all[p].row == r && all[p].col == k)
      && (forall p, q :: 0 <= p < q < |all| ==> Before(all[p].row, all[p].col, all[q].row, all[q].col))
  {
    var all := symbols + ss;
    forall r, k | 0 <= r < i + 1 && 0 <= k < |lines[r]| && IsSymbolChar(lines[r][k])
      ensures exists p :: 0 <= p < |all| && all[p].row == r && all[p].col == k
    {
      if r < i {
        var p :| 0 <= p < |symbols| && symbols[p].row == r && symbols[p].col == k;
        assert all[p] == symbols[p];
      } else {
        var p :| 0 <= p < |ss| && ss[p].col == k;
        assert all[|symbols| + p] == ss[p];
      }
    }
  }

  /** The adjacency test of both parts, written on unsigned integers so
      that nothing is subtracted. */
  predicate Adjacent(s: Symbol, n: Number)
  {
    s.row + 1 >= n.row && s.row <= n.row + 1 && s.col + 1 >= n.col && s.col <= n.col + n.len
  }

  /** Two grid cells touch, diagonals included. */
  predicate Near(r1: int, c1: int, r2: int, c2: int)
  {
    -1 <= r1 - r2 <= 1 && -1 <= c1 - c2 <= 1
  }

  /** The test is the box one row above to one row below the number and one
      column left of it to one column right of it; equivalently, the symbol
      touches one of the number's digits. */
  lemma AdjacentIffTouches(s: Symbol, n: Number)
    requires n.len >= 1
    ensures Adjacent(s, n) <==> n.row - 1 <= s.row <= n.row + 1 && n.col - 1 <= s.col <= n.col + n.len
    ensures Adjacent(s, n) <==> exists c :: n.col <= c < n.col + n.len && Near(s.row, s.col, n.row, c)
  {
    if Adjacent(s, n) {
      var c := if s.col < n.col then n.col else if s.col >= n.col + n.len then n.col + n.len - 1 else s.col;
      assert Near(s.row, s.col, n.row, c);
    }
  }

  predicate IsPart(symbols: seq<Symbol>, n: Number)
  {
    exists k :: 0 <= k < |symbols| && Adjacent(symbols[k], n)
  }

  /** The value of a number that passes part 1's `filter`, 0 for one that
      does not. */
  function PartValue(symbols: seq<Symbol>): Number -> int
  {
    n => if IsPart(symbols, n) then n.value else 0
  }

  /** `filter(any symbol adjacent).map(value).sum()`: every part number
      adds its value, and the answer is 0 exactly when every part number is
      0. */
  function Part1(sch: Schematic): (r: nat)
    ensures forall p :: 0 <= p < |sch.numbers| && IsPart(sch.symbols, sch.numbers[p]) ==> sch.numbers[p].value <= r
    ensures r == 0 <==> forall p :: 0 <= p < |sch.numbers| && IsPart(sch.symbols, sch.numbers[p]) ==> sch.numbers[p].value == 0
  {
    Sorting.SumOfNonNegative(PartValue(sch.symbols), sch.numbers);
    Sorting.SumOf(PartValue(sch.symbols), sch.numbers)
  }

  /** A number counts in part 1 when a symbol character of the grid touches
      one of its digits. */
  predicate GridPart(lines: seq<string>, n: Number)
  {
    exists r, c :: 0 <= r < |lines| && 0 <= c < |lines[r]| && IsSymbolChar(lines[r][c])
      && exists d :: n.col <= d < n.col + n.len && Near(r, c, n.row, d)
  }

  function GridPartValue(lines: seq<string>): Number -> int
  {
    n => if GridPart(lines, n) then n.value else 0
  }

  lemma PartIffSymbolNearby(lines: seq<string>, sch: Schematic, n: Number)
    requires Scanned(lines, sch)
    requires n.len >= 1
    ensures IsPart(sch.symbols, n) <==> GridPart(lines, n)
  {
    if IsPart(sch.symbols, n) {
      var k :| 0 <= k < |sch.symbols| && Adjacent(sch.symbols[k], n);
      var s := sch.symbols[k];
      AdjacentIffTouches(s, n);
      assert SymbolAt(lines[s.row], s);
      var d :| n.col <= d < n.col + n.len && Near(s.row, s.col, n.row, d);
      assert 0 <= s.row < |lines| && 0 <= s.col < |lines[s.row]| && IsSymbolChar(lines[s.row][s.col]);
    }
    if GridPart(lines, n) {
      var r, c :| 0 <= r < |lines| && 0 <= c < |lines[r]| && IsSymbolChar(lines[r][c])
        && exists d :: n.col <= d < n.col + n.len && Near(r, c, n.row, d);
      var p :| 0 <= p < |sch.symbols| && sch.symbols[p].row == r && sch.symbols[p].col == c;
      AdjacentIffTouches(sch.symbols[p], n);
    }
  }

  /** Part 1 sums exactly the recorded numbers that a grid symbol
      touches. */
  lemma {:induction false} Part1IsSumOfTouchedNumbers(lines: seq<string>, sch: Schematic)
    requires Scanned(lines, sch)
    ensures Part1(sch) == Sorting.SumOf(GridPartValue(lines), sch.numbers)
  {
    var ns := sch.numbers;
    forall p | 0 <= p < |ns|
      ensures PartValue(sch.symbols)(ns[p]) == GridPartValue(lines)(ns[p])
    {
      PartIffSymbolNearby(lines, sch, ns[p]);
    }
    Sorting.SumOfAgree(PartValue(sch.symbols), GridPartValue(lines), ns);
  }

  /** Indices `t >= k` of the numbers next to `s`, in increasing order: the
      `part_numbers` iterator of part 2. */
  function AdjacentFrom(numbers: seq<Number>, s: Symbol, k: nat): (r: seq<nat>)
    ensures forall a :: 0 <= a < |r| ==> k <= r[a] < |numbers| && Adjacent(s, numbers[r[a]])
    ensures forall t :: k <= t < |numbers| && Adjacent(s, numbers[t]) ==> t in r
    ensures forall a, b :: 0 <= a < b < |r| ==> r[a] < r[b]
    decreases |numbers| - k
  {
    if k >= |numbers| then []
    else
      var rest := AdjacentFrom(numbers, s, k + 1);
      if Adjacent(s, numbers[k]) then
        IncreasingCons(k, rest);
        [k] + rest
      else rest
  }

  lemma IncreasingCons(k: nat, rest: seq<nat>)
    requires forall a :: 0 <= a < |rest| ==> k < rest[a]
    requires forall a, b :: 0 <= a < b < |rest| ==> rest[a] < rest[b]
    ensures forall a :: 1 <= a < |[k] + rest| ==> ([k] + rest)[a] == rest[a - 1]
    ensures forall a, b :: 0 <= a < b < |[k] + rest| ==> ([k] + rest)[a] < ([k] + rest)[b]
  {
  }

  /** Exactly the numbers `p < q` touch `s`. */
  predicate TouchesExactly(numbers: seq<Number>, s: Symbol, p: int, q: int)
  {
    0 <= p < q < |numbers| && Adjacent(s, numbers[p]) && Adjacent(s, numbers[q])
    && forall t :: 0 <= t < |numbers| && Adjacent(s, numbers[t]) ==> t == p || t == q
  }

  /** The `filter_map` body of part 2 for one symbol: the gear ratio, or
      nothing when the symbol is not a gear. */
  function GearRatio(numbers: seq<Number>, s: Symbol): (r: Option<nat>)
    ensures r.Some? <==> s.ch == '*' && exists p, q :: TouchesExactly(numbers, s, p, q)
    ensures r.Some? ==>
      exists p, q :: TouchesExactly(numbers, s, p, q) && r.value == numbers[p].value * numbers[q].value
  {
    if s.ch != '*' then None
    else
      var parts := AdjacentFrom(numbers, s, 0);
      TwoIndicesTouch(numbers, s, parts);
      TouchingTwoGivesTwoIndices(numbers, s, parts);
      if |parts| == 0 then None
      else if |parts| == 1 then None
      else if |parts| > 2 then None
      else Some(numbers[parts[0]].value * numbers[parts[1]].value)
  }

  lemma TwoIndicesTouch(numbers: seq<Number>, s: Symbol, parts: seq<nat>)
    requires parts == AdjacentFrom(numbers, s, 0)
    ensures |parts| == 2 ==> TouchesExactly(numbers, s, parts[0], parts[1])
  {
    if |parts| == 2 {
      forall t | 0 <= t < |numbers| && Adjacent(s, numbers[t])
        ensures t == parts[0] || t == parts[1]
      {
        assert t in parts;
      }
    }
  }

  lemma TouchingTwoGivesTwoIndices(numbers: seq<Number>, s: Symbol, parts: seq<nat>)
    requires parts == AdjacentFrom(numbers, s, 0)
    ensures (exists p, q :: TouchesExactly(numbers, s, p, q)) ==> |parts| == 2
  {
    if exists p, q :: TouchesExactly(numbers, s, p, q) {
      var p, q :| TouchesExactly(numbers, s, p, q);
      PairIndices(numbers, s, parts, p, q);
    }
  }

  lemma PairIndices(numbers: seq<Number>, s: Symbol, parts: seq<nat>, p: nat, q: nat)
    requires parts == AdjacentFrom(numbers, s, 0)
    requires TouchesExactly(numbers, s, p, q)
    ensures |parts| == 2
  {
    assert p in parts && q in parts;
    var a :| 0 <= a < |parts| && parts[a] == p;
    var b :| 0 <= b < |parts| && parts[b] == q;
    assert a != b;
    forall c | 0 <= c < |parts|
      ensures parts[c] == p || parts[c] == q
    {
      assert Adjacent(s, numbers[parts[c]]);
    }
    AtMostTwoValues(parts, p, q);
  }

  /** A strictly increasing sequence drawn from two values has at most two
      elements. */
  lemma AtMostTwoValues(s: seq<nat>, p: nat, q: nat)
    requires forall a, b :: 0 <= a < b < |s| ==> s[a] < s[b]
    requires forall c :: 0 <= c < |s| ==> s[c] == p || s[c] == q
    ensures |s| <= 2
  {
    ThreeIncreasing(s);
  }

  lemma ThreeIncreasing(s: seq<nat>)
    requires forall a, b :: 0 <= a < b < |s| ==> s[a] < s[b]
    ensures |s| >= 3 ==> s[0] < s[1] < s[2]
  {
  }

  /** The gear ratio of a symbol, 0 for a symbol that is not a gear. */
  function GearValue(numbers: seq<Number>): Symbol -> int
  {
    s => match GearRatio(numbers, s) case Some(v) => v case None => 0
  }

  /** `filter('*').filter_map(gear ratio).sum()`: every gear's ratio adds
      to the answer, and with no `*` among the symbols the answer is 0. */
  function Part2(sch: Schematic): (r: nat)
    ensures forall k :: 0 <= k < |sch.symbols| && GearRatio(sch.numbers, sch.symbols[k]).Some? ==>
      GearRatio(sch.numbers, sch.symbols[k]).value <= r
    ensures (forall k :: 0 <= k < |sch.symbols| ==> sch.symbols[k].ch != '*') ==> r == 0
  {
    Sorting.SumOfNonNegative(GearValue(sch.numbers), sch.symbols);
    Sorting.SumOf(GearValue(sch.numbers), sch.symbols)
  }

  /** Part 2 does not depend on the order of the symbols. */
  lemma Part2PermutationInvariant(numbers: seq<Number>, a: seq<Symbol>, b: seq<Symbol>)
    requires multiset(a) == multiset(b)
    ensures Part2(Schematic(numbers, a)) == Part2(Schematic(numbers, b))
  {
    Sorting.SumOfPermutation(GearValue(numbers), a, b);
  }
}
