/** Day 9: extrapolating a sequence by repeated differences.

    `extrapolate` and `extrapolate_back` build the difference table in place:
    after step `i`, the slots before `i` hold one value from each earlier
    difference sequence and `row[i..]` holds the `i`-th difference
    sequence. The model keeps the in-place algorithm as a method over a
    local sequence and proves it equal to a recursive reference definition.
 */
module Day9 {

  import opened Wrappers

  /** `is_constant`: fewer than two elements, or every element equals the first. */
  predicate IsConstant(row: seq<int>)
  {
    |row| < 2 || forall k :: 1 <= k < |row| ==> row[k] == row[0]
  }

  /** Comparing with the first element decides the same thing as comparing
      every pair of elements. */
  lemma IsConstantPairwise(row: seq<int>)
    ensures IsConstant(row) <==> forall i, j :: 0 <= i < j < |row| ==> row[i] == row[j]
  {
  }

  /** The sequence of differences of neighbouring elements. */
  function Diff(s: seq<int>): (d: seq<int>)
    ensures |d| == if |s| == 0 then 0 else |s| - 1
  {
    if |s| == 0 then [] else seq(|s| - 1, k requires 0 <= k < |s| - 1 => s[k + 1] - s[k])
  }

  /** The `k`-th difference sequence. */
  function DiffN(s: seq<int>, k: nat): (d: seq<int>)
    requires k < |s|
    ensures |d| == |s| - k
  {
    if k == 0 then s else Diff(DiffN(s, k - 1))
  }

  /** Reference definition of the next value: a constant sequence continues
      with its value; otherwise the next value is the last value plus the
      next value of the differences. */
  function NextValue(s: seq<int>): int
    requires |s| > 0
    decreases |s|
  {
    if IsConstant(s) then s[0] else s[|s| - 1] + NextValue(Diff(s))
  }

  /** Reference definition of the value before the first one. */
  function PrevValue(s: seq<int>): int
    requires |s| > 0
    decreases |s|
  {
    if IsConstant(s) then s[0] else s[0] - PrevValue(Diff(s))
  }

  /** The sum with alternating signs, `+` at even positions. */
  function AltSum(s: seq<int>): int
  {
    if |s| == 0 then 0
    else AltSum(s[..|s| - 1]) + Signed(|s| - 1, s[|s| - 1])
  }

  /** `x` at an even position, `-x` at an odd one. */
  function Signed(k: nat, x: int): int
  {
    if k % 2 == 0 then x else -x
  }

  /** One pass of the inner loop: `row[j] -= row[j - 1]` for `j` from the
      end down to `i + 1`, which turns `row[i..]` into `row[i]` followed by
      the differences of `row[i..]`. */
  method DifferenceStep(a0: seq<int>, i: nat) returns (a: seq<int>)
    requires i < |a0|
    ensures |a| == |a0|
    ensures a[..i + 1] == a0[..i + 1]
    ensures a[i + 1..] == Diff(a0[i..])
  {
    a := a0;
    var j := |a| - 1;
    while j > i
      invariant i <= j < |a| == |a0|
      invariant forall k :: 0 <= k <= j ==> a[k] == a0[k]
      invariant forall k :: j < k < |a| ==> a[k] == a0[k] - a0[k - 1]
    {
      a := a[j := a[j] - a[j - 1]];
      j := j - 1;
    }
    var n := i + 1;
    assert a[..n] == a0[..n] by {
      forall k | 0 <= k < n
        ensures a[..n][k] == a0[..n][k]
      {
      }
    }
    assert a[i + 1..] == Diff(a0[i..]) by {
      var t, d := a0[i..], Diff(a0[i..]);
      assert |a[i + 1..]| == |d|;
      forall k | 0 <= k < |d|
        ensures a[i + 1..][k] == d[k]
      {
        assert d[k] == t[k + 1] - t[k] == a0[i + 1 + k] - a0[i + k];
      }
    }
  }

  /** `extrapolate`: the next value of the row, or a panic (`unreachable!`)
      on an empty row. Every non-empty row reaches a constant suffix, since
      a one-element slice is constant. */
  method Extrapolate(row: seq<int>) returns (r: Outcome<int>)
    ensures |row| == 0 <==> r == Panic
    ensures |row| > 0 ==> r == Ok(NextValue(row))
  {
    var a := row;
    var i := 0;
    assert a[..0] == [] && a[0..] == row;
    while i < |a|
      invariant |a| == |row|
      invariant i <= |a| && (|a| > 0 ==> i < |a|)
      invariant |a| > 0 ==> a[i..] == DiffN(row, i)
      invariant forall k :: 0 <= k < i ==> a[k] == DiffN(row, k)[|row| - k - 1]
      invariant |a| > 0 ==> Sum(a[..i]) + NextValue(a[i..]) == NextValue(row)
    {
      if IsConstant(a[i..]) {
        SumSnoc(a, i);
        NextOfConstant(a[i..]);
        assert Sum(a[..i + 1]) == Sum(a[..i]) + a[i];
        assert NextValue(a[i..]) == a[i];
        assert Sum(a[..i + 1]) == NextValue(row);
        return Ok(Sum(a[..i + 1]));
      }
      var last := a[|a| - 1];
      var prev := a;
      var stepped := DifferenceStep(a, i);
      a := stepped[i := last];
      ExtrapolateStep(row, prev, stepped, i);
      i := i + 1;
    }
    return Panic;
  }

  /** One iteration of `extrapolate` on a row whose suffix `prev[i..]` is not
      constant keeps the loop invariant. */
  lemma ExtrapolateStep(row: seq<int>, prev: seq<int>, stepped: seq<int>, i: nat)
    requires i < |prev| - 1 && |prev| == |stepped| == |row|
    requires prev[i..] == DiffN(row, i) && !IsConstant(prev[i..])
    requires forall k :: 0 <= k < i ==> prev[k] == DiffN(row, k)[|row| - k - 1]
    requires Sum(prev[..i]) + NextValue(prev[i..]) == NextValue(row)
    requires stepped[..i + 1] == prev[..i + 1]
    requires stepped[i + 1..] == Diff(prev[i..])
    ensures var a := stepped[i := prev[|prev| - 1]];
      && a[i + 1..] == DiffN(row, i + 1)
      && (forall k :: 0 <= k < i + 1 ==> a[k] == DiffN(row, k)[|row| - k - 1])
      && Sum(a[..i + 1]) + NextValue(a[i + 1..]) == NextValue(row)
  {
    var a := stepped[i := prev[|prev| - 1]];
    assert a[i + 1..] == DiffN(row, i + 1) by {
      assert a[i + 1..] == stepped[i + 1..];
    }
    assert Sum(a[..i + 1]) == Sum(prev[..i]) + prev[|prev| - 1] by {
      assert a[..i] == prev[..i] by {
        assert a[..i] == stepped[..i + 1][..i];
      }
      SumSnoc(a, i);
    }
    assert NextValue(prev[i..]) == prev[|prev| - 1] + NextValue(a[i + 1..]) by {
      var t := prev[i..];
      assert t[|t| - 1] == prev[|prev| - 1];
      assert NextValue(t) == t[|t| - 1] + NextValue(Diff(t));
    }
    forall k | 0 <= k < i ensures a[k] == prev[k] {
      assert a[..i + 1][k] == stepped[..i + 1][k];
    }
  }

  lemma NextOfConstant(t: seq<int>)
    requires |t| > 0 && IsConstant(t)
    ensures NextValue(t) == t[0] && PrevValue(t) == t[0]
  {
  }

  lemma SumSnoc(s: seq<int>, i: nat)
    requires i < |s|
    ensures Sum(s[..i + 1]) == Sum(s[..i]) + s[i]
  {
    assert s[..i + 1][..i] == s[..i];
  }

  /** `extrapolate_back`: the value before the first one, as the
      alternating sum of the first values of the difference sequences. */
  method ExtrapolateBack(row: seq<int>) returns (r: Outcome<int>)
    ensures |row| == 0 <==> r == Panic
    ensures |row| > 0 ==> r == Ok(PrevValue(row))
  {
    var a := row;
    var i := 0;
    assert a[..0] == [] && a[0..] == row;
    while i < |a|
      invariant |a| == |row|
      invariant i <= |a| && (|a| > 0 ==> i < |a|)
      invariant |a| > 0 ==> a[i..] == DiffN(row, i)
      invariant forall k :: 0 <= k < i ==> a[k] == DiffN(row, k)[0]
      invariant |a| > 0 ==> AltSum(a[..i]) + Signed(i, PrevValue(a[i..])) == PrevValue(row)
    {
      if IsConstant(a[i..]) {
        AltSumSnoc(a, i);
        NextOfConstant(a[i..]);
        assert AltSum(a[..i + 1]) == PrevValue(row);
        return Ok(AltSum(a[..i + 1]));
      }
      var prev := a;
      a := DifferenceStep(a, i);
      ExtrapolateBackStep(row, prev, a, i);
      i := i + 1;
    }
    return Panic;
  }

  /** One iteration of `extrapolate_back` on a non-constant suffix keeps the
      loop invariant; `row[i]` already holds the first difference value. */
  lemma ExtrapolateBackStep(row: seq<int>, prev: seq<int>, a: seq<int>, i: nat)
    requires i < |prev| - 1 && |prev| == |a| == |row|
    requires prev[i..] == DiffN(row, i) && !IsConstant(prev[i..])
    requires forall k :: 0 <= k < i ==> prev[k] == DiffN(row, k)[0]
    requires AltSum(prev[..i]) + Signed(i, PrevValue(prev[i..])) == PrevValue(row)
    requires a[..i + 1] == prev[..i + 1]
    requires a[i + 1..] == Diff(prev[i..])
    ensures a[i + 1..] == DiffN(row, i + 1)
    ensures forall k :: 0 <= k < i + 1 ==> a[k] == DiffN(row, k)[0]
    ensures AltSum(a[..i + 1]) + Signed(i + 1, PrevValue(a[i + 1..])) == PrevValue(row)
  {
    assert a[i] == prev[i..][0] by {
      assert a[i] == a[..i + 1][i];
    }
    forall k | 0 <= k < i ensures a[k] == prev[k] {
      assert a[..i + 1][k] == prev[..i + 1][k];
    }
    AltSumStep(prev, a, i, PrevValue(row));
  }

  lemma AltSumStep(prev: seq<int>, a: seq<int>, i: nat, v: int)
    requires i < |prev| - 1 && |prev| == |a|
    requires !IsConstant(prev[i..])
    requires AltSum(prev[..i]) + Signed(i, PrevValue(prev[i..])) == v
    requires a[..i + 1] == prev[..i + 1]
    requires a[i + 1..] == Diff(prev[i..])
    ensures AltSum(a[..i + 1]) + Signed(i + 1, PrevValue(a[i + 1..])) == v
  {
    assert a[..i] == prev[..i] by {
      assert a[..i] == a[..i + 1][..i];
      assert prev[..i] == prev[..i + 1][..i];
    }
    AltSumSnoc(a, i);
    var t := prev[i..];
    assert a[i] == t[0] by {
      assert a[i] == a[..i + 1][i];
    }
    assert PrevValue(t) == t[0] - PrevValue(Diff(t));
  }

  lemma AltSumSnoc(s: seq<int>, i: nat)
    requires i < |s|
    ensures AltSum(s[..i + 1]) == AltSum(s[..i]) + Signed(i, s[i])
  {
    assert s[..i + 1][..i] == s[..i];
  }

  function Reverse(s: seq<int>): (r: seq<int>)
    ensures |r| == |s|
    ensures forall k :: 0 <= k < |s| ==> r[k] == s[|s| - 1 - k]
  {
    seq(|s|, k requires 0 <= k < |s| => s[|s| - 1 - k])
  }

  function Neg(s: seq<int>): (r: seq<int>)
    ensures |r| == |s|
    ensures forall k :: 0 <= k < |s| ==> r[k] == -s[k]
  {
    seq(|s|, k requires 0 <= k < |s| => -s[k])
  }

  lemma ConstantUnderNeg(s: seq<int>)
    ensures IsConstant(Neg(s)) == IsConstant(s)
  {
    if |s| >= 2 {
      var n := Neg(s);
      if IsConstant(s) {
        forall k | 1 <= k < |n| ensures n[k] == n[0] {
          assert s[k] == s[0];
        }
      } else {
        var k :| 1 <= k < |s| && s[k] != s[0];
        assert n[k] != n[0];
      }
    }
  }

  lemma ConstantUnderReverse(s: seq<int>)
    ensures IsConstant(Reverse(s)) == IsConstant(s)
  {
    if |s| >= 2 {
      var r := Reverse(s);
      if IsConstant(s) {
        forall k | 1 <= k < |r| ensures r[k] == r[0] {
          assert r[k] == s[|s| - 1 - k] == s[0];
          assert r[0] == s[|s| - 1] == s[0];
        }
      } else {
        var k :| 1 <= k < |s| && s[k] != s[0];
        if s[|s| - 1] == s[0] {
          assert r[|s| - 1 - k] != r[0];
        } else {
          assert r[|s| - 1] != r[0];
        }
      }
    }
  }

  lemma DiffOfReverse(s: seq<int>)
    ensures Diff(Reverse(s)) == Neg(Reverse(Diff(s)))
  {
    var a, b := Diff(Reverse(s)), Neg(Reverse(Diff(s)));
    forall k | 0 <= k < |a| ensures a[k] == b[k] {
      assert a[k] == s[|s| - 2 - k] - s[|s| - 1 - k];
    }
  }

  /** Extrapolation commutes with negation. */
  lemma {:induction false} NextValueNeg(s: seq<int>)
    requires |s| > 0
    ensures NextValue(Neg(s)) == -NextValue(s)
    decreases |s|
  {
    ConstantUnderNeg(s);
    if !IsConstant(s) {
      assert Diff(Neg(s)) == Neg(Diff(s));
      NextValueNeg(Diff(s));
    }
  }

  /** Extrapolating backwards is extrapolating the reversed row forwards:
      the differences of the reversed row are the negated, reversed
      differences. */
  lemma {:induction false} PrevIsNextOfReverse(s: seq<int>)
    requires |s| > 0
    ensures PrevValue(s) == NextValue(Reverse(s))
    decreases |s|
  {
    var rs := Reverse(s);
    ConstantUnderReverse(s);
    if !IsConstant(s) {
      DiffOfReverse(s);
      PrevIsNextOfReverse(Diff(s));
      NextValueNeg(Reverse(Diff(s)));
      calc {
        NextValue(rs);
        rs[|rs| - 1] + NextValue(Diff(rs));
        s[0] + NextValue(Neg(Reverse(Diff(s))));
        s[0] - NextValue(Reverse(Diff(s)));
        s[0] - PrevValue(Diff(s));
      }
    }
  }

  predicate NoEmptyRow(rows: seq<seq<int>>)
  {
    forall k :: 0 <= k < |rows| ==> |rows[k]| > 0
  }

  function SumNext(rows: seq<seq<int>>): int
    requires NoEmptyRow(rows)
  {
    if |rows| == 0 then 0 else SumNext(rows[..|rows| - 1]) + NextValue(rows[|rows| - 1])
  }

  function SumPrev(rows: seq<seq<int>>): int
    requires NoEmptyRow(rows)
  {
    if |rows| == 0 then 0 else SumPrev(rows[..|rows| - 1]) + PrevValue(rows[|rows| - 1])
  }

  function SumNextOfReversed(rows: seq<seq<int>>): int
    requires NoEmptyRow(rows)
  {
    if |rows| == 0 then 0
    else SumNextOfReversed(rows[..|rows| - 1]) + NextValue(Reverse(rows[|rows| - 1]))
  }

  /** `part1`: the sum of the extrapolated values; an empty row panics. */
  function Part1(rows: seq<seq<int>>): (r: Outcome<int>)
    ensures r == Panic <==> !NoEmptyRow(rows)
  {
    if NoEmptyRow(rows) then Ok(SumNext(rows)) else Panic
  }

  /** `part2`: the sum of the backward-extrapolated values. */
  function Part2(rows: seq<seq<int>>): (r: Outcome<int>)
    ensures r == Panic <==> !NoEmptyRow(rows)
  {
    if NoEmptyRow(rows) then Ok(SumPrev(rows)) else Panic
  }

  /** `part2_reverse`: reverse each row, then extrapolate forwards. */
  function Part2Reverse(rows: seq<seq<int>>): (r: Outcome<int>)
    ensures r == Panic <==> !NoEmptyRow(rows)
  {
    if NoEmptyRow(rows) then Ok(SumNextOfReversed(rows)) else Panic
  }

  lemma {:induction false} SumPrevIsSumNextOfReversed(rows: seq<seq<int>>)
    requires NoEmptyRow(rows)
    ensures SumPrev(rows) == SumNextOfReversed(rows)
    decreases |rows|
  {
    if |rows| > 0 {
      SumPrevIsSumNextOfReversed(rows[..|rows| - 1]);
      PrevIsNextOfReverse(rows[|rows| - 1]);
    }
  }

  /** The two registered part-2 solutions give the same answer. */
  lemma Part2Agree(rows: seq<seq<int>>)
    ensures Part2(rows) == Part2Reverse(rows)
  {
    if NoEmptyRow(rows) {
      SumPrevIsSumNextOfReversed(rows);
    }
  }
}
