/** Day 1: calibration values. Each line of the input contributes
    `10 * first + last`, where `first` and `last` are the leftmost and
    rightmost digits of the line; in part 2 a spelled-out digit word
    ("one" .. "nine") counts as a digit too, recognised by `is_digit` on
    every suffix of the line.
 */
module Day1 {

  import opened Wrappers

  const NEWLINE: byte := 10
  const ZERO: byte := 48

  /** A decimal digit's value. */
  type Digit = d: nat | d <= 9

  /** The digit words, "one" at index 0. */
  const DigitWords: seq<string> := ["one", "two", "three", "four", "five", "six", "seven", "eight", "nine"]

  /** The bytes of the word for `d`. */
  function Word(d: nat): (w: seq<byte>)
    requires 1 <= d <= 9
    ensures |w| >= 3
  {
    assert IsAscii(DigitWords[d - 1]);
    Ascii(DigitWords[d - 1])
  }

  predicate StartsWith(b: seq<byte>, prefix: seq<byte>)
  {
    |prefix| <= |b| && b[..|prefix|] == prefix
  }

  function Lit(s: string): seq<byte>
    requires IsAscii(s)
  {
    Ascii(s)
  }

  /** `is_digit`: the digit a slice starts with, if any. An ASCII digit
      gives its value; otherwise each word is tried as a prefix, in the order
      of the `match` arms. */
  function IsDigit(b: seq<byte>): (r: Option<Digit>)
    ensures |b| > 0 && IsAsciiDigit(b[0]) ==> r == Some(b[0] as int - ZERO as int)
  {
    if |b| > 0 && IsAsciiDigit(b[0]) then Some(b[0] as int - ZERO as int)
    else if StartsWith(b, Lit("one")) then Some(1)
    else if StartsWith(b, Lit("two")) then Some(2)
    else if StartsWith(b, Lit("three")) then Some(3)
    else if StartsWith(b, Lit("four")) then Some(4)
    else if StartsWith(b, Lit("five")) then Some(5)
    else if StartsWith(b, Lit("six")) then Some(6)
    else if StartsWith(b, Lit("seven")) then Some(7)
    else if StartsWith(b, Lit("eight")) then Some(8)
    else if StartsWith(b, Lit("nine")) then Some(9)
    else None
  }

  /** The table and the `match` arms spell the same words; no word starts
      with a digit, and a slice starts with at most one word. */
  lemma WordsFacts(b: seq<byte>)
    ensures Word(1) == Lit("one") && Word(2) == Lit("two") && Word(3) == Lit("three")
    ensures Word(4) == Lit("four") && Word(5) == Lit("five") && Word(6) == Lit("six")
    ensures Word(7) == Lit("seven") && Word(8) == Lit("eight") && Word(9) == Lit("nine")
    ensures forall d :: 1 <= d <= 9 && StartsWith(b, Word(d)) ==> !IsAsciiDigit(b[0])
    ensures forall d, e :: 1 <= d <= 9 && 1 <= e <= 9 && StartsWith(b, Word(d)) && StartsWith(b, Word(e)) ==> d == e
  {
    forall d | 1 <= d <= 9 && StartsWith(b, Word(d))
      ensures !IsAsciiDigit(b[0])
    {
      assert b[0] == Word(d)[0];
    }
    forall d, e | 1 <= d <= 9 && 1 <= e <= 9 && StartsWith(b, Word(d)) && StartsWith(b, Word(e))
      ensures d == e
    {
      assert b[0] == Word(d)[0] == Word(e)[0];
      assert b[1] == Word(d)[1] == Word(e)[1];
      assert b[2] == Word(d)[2] == Word(e)[2];
    }
  }

  /** `is_digit` finds a digit exactly when the slice starts with an ASCII
      digit or with one of the words, and a word gives its own value. */
  lemma IsDigitSpec(b: seq<byte>)
    ensures IsDigit(b).Some? <==> (|b| > 0 && IsAsciiDigit(b[0])) || exists d :: 1 <= d <= 9 && StartsWith(b, Word(d))
    ensures forall d :: 1 <= d <= 9 && StartsWith(b, Word(d)) ==> IsDigit(b) == Some(d)
  {
    WordsFacts(b);
  }

  /** Each word is recognised whatever follows it. */
  lemma WordIsDigit(d: nat, rest: seq<byte>)
    requires 1 <= d <= 9
    ensures IsDigit(Word(d) + rest) == Some(d)
  {
    assert StartsWith(Word(d) + rest, Word(d)) by {
      assert (Word(d) + rest)[..|Word(d)|] == Word(d);
    }
    IsDigitSpec(Word(d) + rest);
  }

  /** Nothing is recognised in the empty slice. */
  lemma EmptyIsNoDigit()
    ensures IsDigit([]) == None
  {
  }

  /** The part 1 test, on a suffix: its first byte is an ASCII digit. */
  function LeadingAsciiDigit(b: seq<byte>): (r: Option<Digit>)
    ensures r.Some? <==> |b| > 0 && IsAsciiDigit(b[0])
    ensures r.Some? ==> r.value == b[0] as int - ZERO as int
  {
    if |b| > 0 && IsAsciiDigit(b[0]) then Some(b[0] as int - ZERO as int) else None
  }

  /** Where `digitAt` finds a digit in `line`. */
  function HitAt(line: seq<byte>, digitAt: seq<byte> -> Option<Digit>): int -> bool
  {
    i => 0 <= i <= |line| && digitAt(line[i..]).Some?
  }

  /** The value of one line: the first position where `digitAt` finds a
      digit (`find`) and the last one (`rev().find`), combined as
      `first * 10 + last`; `Panic` is the `unwrap` of a line without a
      digit. */
  function LineValue(line: seq<byte>, digitAt: seq<byte> -> Option<Digit>): (r: Outcome<nat>)
    ensures r.Err? == false
    ensures r == Panic <==> forall i :: 0 <= i < |line| ==> digitAt(line[i..]).None?
    ensures r.Ok? ==> r.value <= 99
  {
    assert forall i :: 0 <= i < |line| ==> (HitAt(line, digitAt)(i) <==> digitAt(line[i..]).Some?);
    match FindFirst(0, |line|, HitAt(line, digitAt))
    case None => Panic
    case Some(i) =>
      match FindLast(0, |line|, HitAt(line, digitAt))
      case None => Panic
      case Some(j) => Ok(10 * digitAt(line[i..]).value + digitAt(line[j..]).value)
  }

  /** The digits of a line in reading order: what `digitAt` finds at each
      position where it finds one. */
  function Digits(line: seq<byte>, digitAt: seq<byte> -> Option<Digit>): seq<Digit>
  {
    if |line| == 0 then []
    else
      (match digitAt(line) case Some(d) => [d] case None => []) + Digits(line[1..], digitAt)
  }

  /** Ten times the first digit plus the last one; `Panic` when there is
      none. */
  function FirstAndLast(ds: seq<Digit>): Outcome<nat>
  {
    if |ds| == 0 then Panic else Ok(10 * ds[0] as nat + ds[|ds| - 1] as nat)
  }

  /** A line's value is ten times its first digit plus its last digit, and
      a line without digits panics. */
  lemma {:induction false} LineValueIsFirstAndLastDigit(line: seq<byte>, digitAt: seq<byte> -> Option<Digit>)
    ensures LineValue(line, digitAt) == FirstAndLast(Digits(line, digitAt))
  {
    var p := HitAt(line, digitAt);
    assert forall i :: 0 <= i < |line| ==> (p(i) <==> digitAt(line[i..]).Some?);
    NoDigits(line, digitAt);
    match FindFirst(0, |line|, p)
    case None =>
    case Some(i) =>
      FirstDigit(line, digitAt, i);
      var j := FindLast(0, |line|, p).value;
      LastDigit(line, digitAt, j);
  }

  lemma {:induction false} NoDigits(line: seq<byte>, digitAt: seq<byte> -> Option<Digit>)
    ensures |Digits(line, digitAt)| == 0 <==> forall i :: 0 <= i < |line| ==> digitAt(line[i..]).None?
    decreases |line|
  {
    if |line| > 0 {
      NoDigits(line[1..], digitAt);
      assert line[0..] == line;
      if |Digits(line, digitAt)| == 0 {
        forall i | 0 <= i < |line|
          ensures digitAt(line[i..]).None?
        {
          if i > 0 {
            assert line[i..] == line[1..][i - 1..];
          }
        }
      } else if digitAt(line).None? {
        var i :| 0 <= i < |line| - 1 && digitAt(line[1..][i..]).Some?;
        assert line[1..][i..] == line[i + 1..];
      }
    }
  }

  lemma {:induction false} FirstDigit(line: seq<byte>, digitAt: seq<byte> -> Option<Digit>, i: nat)
    requires i < |line| && digitAt(line[i..]).Some?
    requires forall k :: 0 <= k < i ==> digitAt(line[k..]).None?
    ensures |Digits(line, digitAt)| > 0 && Digits(line, digitAt)[0] == digitAt(line[i..]).value
    decreases i
  {
    assert line[0..] == line;
    if i > 0 {
      forall k | 0 <= k < i - 1
        ensures digitAt(line[1..][k..]).None?
      {
        assert line[1..][k..] == line[k + 1..];
      }
      assert line[1..][i - 1..] == line[i..];
      FirstDigit(line[1..], digitAt, i - 1);
    }
  }

  lemma {:induction false} LastDigit(line: seq<byte>, digitAt: seq<byte> -> Option<Digit>, j: nat)
    requires j < |line| && digitAt(line[j..]).Some?
    requires forall k :: j < k < |line| ==> digitAt(line[k..]).None?
    ensures var ds := Digits(line, digitAt);
      |ds| > 0 && ds[|ds| - 1] == digitAt(line[j..]).value
    decreases j
  {
    assert line[0..] == line;
    if j > 0 {
      forall k | j - 1 < k < |line| - 1
        ensures digitAt(line[1..][k..]).None?
      {
        assert line[1..][k..] == line[k + 1..];
      }
      assert line[1..][j - 1..] == line[j..];
      LastDigit(line[1..], digitAt, j - 1);
    } else {
      forall k | 0 <= k < |line| - 1
        ensures digitAt(line[1..][k..]).None?
      {
        assert line[1..][k..] == line[k + 1..];
      }
      NoDigits(line[1..], digitAt);
    }
  }

  /** Part 1's line value: ASCII digits only. */
  function LineValue1(line: seq<byte>): (r: Outcome<nat>)
    ensures r.Ok? || r.Panic?
    ensures r == Panic <==> forall i :: 0 <= i < |line| ==> !IsAsciiDigit(line[i])
    ensures r.Ok? ==> r.value <= 99
  {
    var r := LineValue(line, LeadingAsciiDigit);
    assert forall i :: 0 <= i < |line| ==> line[i..][0] == line[i];
    r
  }

  /** Part 2's line value: digits and digit words. */
  function LineValue2(line: seq<byte>): (r: Outcome<nat>)
    ensures r.Ok? || r.Panic?
    ensures r == Panic <==> forall i :: 0 <= i < |line| ==> IsDigit(line[i..]).None?
    ensures r.Ok? ==> r.value <= 99
  {
    LineValue(line, IsDigit)
  }

  /** A line part 1 can read, part 2 can read as well. */
  lemma Part2ReadsMore(line: seq<byte>)
    requires LineValue1(line).Ok?
    ensures LineValue2(line).Ok?
  {
    var i :| 0 <= i < |line| && IsAsciiDigit(line[i]);
    assert line[i..][0] == line[i];
  }

  /** Without digit words the two parts agree. */
  lemma {:induction false} WithoutWordsPartsAgree(line: seq<byte>)
    requires forall i, d :: 0 <= i < |line| && 1 <= d <= 9 ==> !StartsWith(line[i..], Word(d))
    ensures LineValue2(line) == LineValue1(line)
  {
    assert LineValue(line, IsDigit) == LineValue(line, LeadingAsciiDigit) by {
      LineValueIsFirstAndLastDigit(line, IsDigit);
      LineValueIsFirstAndLastDigit(line, LeadingAsciiDigit);
      SameDigits(line);
    }
    assert LineValue2(line) == LineValue(line, IsDigit);
    assert LineValue1(line) == LineValue(line, LeadingAsciiDigit);
  }

  lemma {:induction false} SameDigits(line: seq<byte>)
    requires forall i, d :: 0 <= i < |line| && 1 <= d <= 9 ==> !StartsWith(line[i..], Word(d))
    ensures Digits(line, IsDigit) == Digits(line, LeadingAsciiDigit)
    decreases |line|
  {
    if |line| > 0 {
      assert line[0..] == line;
      IsDigitSpec(line);
      forall i, d | 0 <= i < |line| - 1 && 1 <= d <= 9
        ensures !StartsWith(line[1..][i..], Word(d))
      {
        assert line[1..][i..] == line[i + 1..];
      }
      SameDigits(line[1..]);
    }
  }

  function SepAt(s: seq<byte>, sep: byte): int -> bool
  {
    i => 0 <= i < |s| && s[i] == sep
  }

  /** `split(|&b| b == b'\n')`: the pieces between separators, including
      an empty last piece after a final separator. */
  function Split(s: seq<byte>, sep: byte): (parts: seq<seq<byte>>)
    ensures |parts| >= 1
    ensures forall k :: 0 <= k < |parts| ==> sep !in parts[k]
    ensures Join(parts, sep) == s
    decreases |s|
  {
    match FindFirst(0, |s|, SepAt(s, sep))
    case None =>
      assert sep !in s by {
        forall i | 0 <= i < |s|
          ensures s[i] != sep
        {
          assert !SepAt(s, sep)(i);
        }
      }
      [s]
    case Some(i) =>
      var rest := Split(s[i + 1..], sep);
      assert s == s[..i] + [sep] + s[i + 1..];
      assert sep !in s[..i] by {
        forall k | 0 <= k < i
          ensures s[..i][k] != sep
        {
          assert !SepAt(s, sep)(k);
        }
      }
      [s[..i]] + rest
  }

  /** The inverse of `Split`: the pieces with a separator between each two. */
  function Join(parts: seq<seq<byte>>, sep: byte): seq<byte>
  {
    if |parts| == 0 then []
    else if |parts| == 1 then parts[0]
    else parts[0] + [sep] + Join(parts[1..], sep)
  }

  /** Splitting a joined list gives the list back. */
  lemma {:induction false} SplitJoin(parts: seq<seq<byte>>, sep: byte)
    requires |parts| >= 1
    requires forall k :: 0 <= k < |parts| ==> sep !in parts[k]
    ensures Split(Join(parts, sep), sep) == parts
    decreases |parts|
  {
    var s := Join(parts, sep);
    if |parts| == 1 {
      assert forall i :: 0 <= i < |s| ==> s[i] != sep;
    } else {
      var first := parts[0];
      var rest := Join(parts[1..], sep);
      assert s == first + [sep] + rest;
      assert s[|first|] == sep;
      assert forall i :: 0 <= i < |first| ==> s[i] == first[i] != sep;
      var found := FindFirst(0, |s|, SepAt(s, sep));
      assert SepAt(s, sep)(|first|);
      forall k | 0 <= k < |first|
        ensures !SepAt(s, sep)(k)
      {
        assert s[k] == first[k];
      }
      assert found.Some? && found.value <= |first|;
      assert SepAt(s, sep)(found.value);
      assert found.value == |first|;
      assert s[..|first|] == first;
      assert s[|first| + 1..] == rest;
      SplitJoin(parts[1..], sep);
    }
  }

  /** The puzzle's sum: every line's value, or `Panic` if one line has no
      digit. */
  function SumLines(lines: seq<seq<byte>>, value: seq<byte> -> Outcome<nat>): (r: Outcome<nat>)
    ensures r.Ok? || r.Panic?
    ensures r.Ok? <==> forall k :: 0 <= k < |lines| ==> value(lines[k]).Ok?
  {
    if |lines| == 0 then Ok(0)
    else
      var head, rest := value(lines[0]), SumLines(lines[1..], value);
      assert rest.Ok? <==> forall k :: 1 <= k < |lines| ==> value(lines[k]).Ok? by {
        forall k | 1 <= k < |lines|
          ensures lines[1..][k - 1] == lines[k]
        {
        }
      }
      if head.Ok? && rest.Ok? then Ok(head.value + rest.value) else Panic
  }

  predicate HasAsciiDigit(line: seq<byte>)
  {
    exists i :: 0 <= i < |line| && IsAsciiDigit(line[i])
  }

  /** `is_digit` finds a digit somewhere in `line`. */
  predicate HasDigit(line: seq<byte>)
  {
    exists i :: 0 <= i < |line| && IsDigit(line[i..]).Some?
  }

  predicate AsciiDigitInEveryLine(lines: seq<seq<byte>>)
  {
    forall k :: 0 <= k < |lines| ==> HasAsciiDigit(lines[k])
  }

  predicate DigitInEveryLine(lines: seq<seq<byte>>)
  {
    forall k :: 0 <= k < |lines| ==> HasDigit(lines[k])
  }

  /** Part 1 panics unless every line holds an ASCII digit, and adds at
      most 99 per line. */
  function Part1(input: seq<byte>): (r: Outcome<nat>)
    ensures r.Ok? || r.Panic?
    ensures r.Ok? <==> AsciiDigitInEveryLine(Split(input, NEWLINE))
    ensures r.Ok? ==> r.value <= 99 * |Split(input, NEWLINE)|
  {
    var lines := Split(input, NEWLINE);
    SumLinesBound(lines, LineValue1);
    ReadsEveryLine1(lines);
    SumLines(lines, LineValue1)
  }

  lemma ReadsEveryLine1(lines: seq<seq<byte>>)
    ensures SumLines(lines, LineValue1).Ok? <==> AsciiDigitInEveryLine(lines)
  {
    forall k | 0 <= k < |lines|
      ensures LineValue1(lines[k]).Ok? <==> HasAsciiDigit(lines[k])
    {
    }
  }

  /** Part 2 panics unless `is_digit` finds a digit in every line, and adds
      at most 99 per line. */
  function Part2(input: seq<byte>): (r: Outcome<nat>)
    ensures r.Ok? || r.Panic?
    ensures r.Ok? <==> DigitInEveryLine(Split(input, NEWLINE))
    ensures r.Ok? ==> r.value <= 99 * |Split(input, NEWLINE)|
  {
    var lines := Split(input, NEWLINE);
    SumLinesBound(lines, LineValue2);
    ReadsEveryLine2(lines);
    SumLines(lines, LineValue2)
  }

  lemma ReadsEveryLine2(lines: seq<seq<byte>>)
    ensures SumLines(lines, LineValue2).Ok? <==> DigitInEveryLine(lines)
  {
    forall k | 0 <= k < |lines|
      ensures LineValue2(lines[k]).Ok? <==> HasDigit(lines[k])
    {
    }
  }

  /** Each line adds at most 99. */
  lemma {:induction false} SumLinesBound(lines: seq<seq<byte>>, value: seq<byte> -> Outcome<nat>)
    requires forall k :: 0 <= k < |lines| && value(lines[k]).Ok? ==> value(lines[k]).value <= 99
    ensures SumLines(lines, value).Ok? ==> SumLines(lines, value).value <= 99 * |lines|
    decreases |lines|
  {
    if |lines| > 0 {
      forall k | 0 <= k < |lines| - 1 && value(lines[1..][k]).Ok?
        ensures value(lines[1..][k]).value <= 99
      {
        assert lines[1..][k] == lines[k + 1];
      }
      SumLinesBound(lines[1..], value);
    }
  }

  /** An input ending in a newline has an empty last line, which has no
      digit, so both parts panic. */
  lemma TrailingNewlinePanics(input: seq<byte>)
    requires |input| > 0 && input[|input| - 1] == NEWLINE
    ensures Part1(input) == Panic && Part2(input) == Panic
  {
    var lines := Split(input, NEWLINE);
    TrailingSeparator(input, NEWLINE);
    assert LineValue1(lines[|lines| - 1]) == Panic;
    assert LineValue2(lines[|lines| - 1]) == Panic;
  }

  /** After a final separator the last piece is empty. */
  lemma {:induction false} TrailingSeparator(s: seq<byte>, sep: byte)
    requires |s| > 0 && s[|s| - 1] == sep
    ensures Split(s, sep)[|Split(s, sep)| - 1] == []
    decreases |s|
  {
    assert SepAt(s, sep)(|s| - 1);
    var i := FindFirst(0, |s|, SepAt(s, sep)).value;
    var tail := s[i + 1..];
    var parts, rest := Split(s, sep), Split(tail, sep);
    assert parts[|parts| - 1] == rest[|rest| - 1] by {
      assert parts == [s[..i]] + rest;
      LastOfCons(s[..i], rest);
    }
    if i + 1 < |s| {
      assert tail[|tail| - 1] == sep;
      TrailingSeparator(tail, sep);
    } else {
      assert rest == [[]] by {
        assert tail == [];
      }
    }
    assert rest[|rest| - 1] == [];
  }

  lemma LastOfCons<T>(x: T, rest: seq<T>)
    requires |rest| > 0
    ensures ([x] + rest)[|rest|] == rest[|rest| - 1]
  {
  }
}
