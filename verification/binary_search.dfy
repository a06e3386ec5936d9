/** Bisection over an integer interval driven by a three-way comparator
    (`binary_search_range`), and the overflow-free midpoint it relies on
    (`Midpoint::midpoint` as generated by `impl_mid_int!`).

    The Rust code is generic over every built-in integer width; the model
    works on mathematical integers and states the fixed-width facts
    separately (`MidpointUnsignedFits`, `CheckedSignedMidpoint`,
    `SignedMidpoint`).
 */
module BinarySearch {

  import Wrappers
  import Num

  datatype Ordering = Less | Equal | Greater

  /** Rust's `Result<T, T>` as returned by `binary_search_range`. */
  datatype SearchResult = Ok(value: int) | Err(value: int)

  function Position(o: Ordering): nat
  {
    match o
    case Less => 0
    case Equal => 1
    case Greater => 2
  }

  /** `cmp` never goes back from Greater to Equal or from Equal to Less on [lo, hi]. */
  ghost predicate Monotone(cmp: int -> Ordering, lo: int, hi: int)
  {
    forall x, y :: lo <= x <= y <= hi ==> Position(cmp(x)) <= Position(cmp(y))
  }

  predicate Between(x: int, a: int, b: int)
  {
    Wrappers.Min(a, b) <= x <= Wrappers.Max(a, b)
  }

  predicate StrictlyBetween(x: int, a: int, b: int)
  {
    Wrappers.Min(a, b) < x < Wrappers.Max(a, b)
  }

  function Abs(x: int): nat { if x < 0 then -x else x }

  /** `impl_mid_int!`'s `midpoint`: half the gap added to the smaller bound. */
  function Midpoint(a: int, b: int): (m: int)
    ensures Between(m, a, b)
    ensures m == a || m == b <==> Abs(a - b) <= 1
    ensures Abs(a - b) > 1 ==> StrictlyBetween(m, a, b)
  {
    if a < b then a + (b - a) / 2 else b + (a - b) / 2
  }

  /** The argument order does not matter, although the code branches on it. */
  lemma MidpointSymmetric(a: int, b: int)
    ensures Midpoint(a, b) == Midpoint(b, a)
  {
  }

  /** When `midpoint` returns one of its arguments no integer lies strictly
      between them, which is what makes the search stop. */
  lemma MidpointAtEndpointMeansAdjacent(a: int, b: int)
    requires Midpoint(a, b) == a || Midpoint(a, b) == b
    ensures forall x :: !StrictlyBetween(x, a, b)
  {
  }

  /** The values of Rust's `uN`. */
  predicate InUnsigned(x: int, bits: nat)
  {
    0 <= x < Num.Pow2(bits)
  }

  /** The values of Rust's `iN`. */
  predicate InSigned(x: int, bits: nat)
    requires bits >= 1
  {
    -(Num.Pow2(bits - 1) as int) <= x < Num.Pow2(bits - 1)
  }

  /** For unsigned types every intermediate value of `midpoint` (the gap
      `max - min`, its half, and the sum) is representable, so the code
      never overflows. */
  lemma MidpointUnsignedFits(a: int, b: int, bits: nat)
    requires InUnsigned(a, bits) && InUnsigned(b, bits)
    ensures InUnsigned(Wrappers.Max(a, b) - Wrappers.Min(a, b), bits)
    ensures InUnsigned((Wrappers.Max(a, b) - Wrappers.Min(a, b)) / 2, bits)
    ensures InUnsigned(Midpoint(a, b), bits)
  {
  }

  /** `midpoint` on a signed type, with Rust's overflow check on the
      subtraction written out: `Panic` when `max - min` is not an `iN`. */
  function CheckedSignedMidpoint(a: int, b: int, bits: nat): (r: Checked)
    requires bits >= 1
    requires InSigned(a, bits) && InSigned(b, bits)
    ensures r.Value? <==> InSigned(Wrappers.Max(a, b) - Wrappers.Min(a, b), bits)
    ensures r.Value? ==> r.value == Midpoint(a, b) && InSigned(r.value, bits)
  {
    var gap := if a < b then b - a else a - b;
    if !InSigned(gap, bits) then Overflow
    else Value(if a < b then a + gap / 2 else b + gap / 2)
  }

  datatype Checked = Value(value: int) | Overflow

  /** Finding: on `i8`, `midpoint(-128, 127)` computes `127 - (-128) = 255`,
      which is not an `i8`, so the code panics (or wraps) instead of
      returning -1. */
  lemma SignedMidpointOverflows()
    ensures CheckedSignedMidpoint(-128, 127, 8) == Overflow
  {
    assert Num.Pow2(7) == 128;
  }

  /** The intended signed midpoint: the gap is taken as an unsigned value of
      the same width (as `abs_diff` does), and then every intermediate value
      is representable and the result is the mathematical midpoint. */
  function SignedMidpoint(a: int, b: int, bits: nat): (m: int)
    requires bits >= 1
    requires InSigned(a, bits) && InSigned(b, bits)
    ensures InUnsigned(Wrappers.Max(a, b) - Wrappers.Min(a, b), bits)
    ensures InSigned((Wrappers.Max(a, b) - Wrappers.Min(a, b)) / 2, bits)
    ensures InSigned(m, bits)
    ensures m == Midpoint(a, b)
  {
    var gap: nat := Wrappers.Max(a, b) - Wrappers.Min(a, b);
    assert Num.Pow2(bits) == 2 * Num.Pow2(bits - 1);
    Wrappers.Min(a, b) + gap / 2
  }

  /** `binary_search_range(start, end, cmp)`. Besides the result it returns
      the sequence of values handed to `cmp`, in call order. */
  method BinarySearchRange(start0: int, end0: int, cmp: int -> Ordering)
    returns (r: SearchResult, probes: seq<int>)
    ensures start0 == end0 ==> r == Err(start0) && probes == []
    ensures r.Ok? ==> cmp(r.value) == Equal
    ensures r.Ok? ==> |probes| > 0 && probes[|probes| - 1] == r.value
    ensures forall k :: 0 <= k < |probes| ==> StrictlyBetween(probes[k], start0, end0)
    ensures forall k :: 0 <= k < |probes| - 1 ==> cmp(probes[k]) != Equal
    ensures Between(r.value, start0, end0)
    ensures start0 < end0 && r.Err? ==> start0 <= r.value < end0
    ensures start0 < end0 && r.Err? && Monotone(cmp, start0, end0) ==>
              (forall v :: start0 < v <= r.value ==> cmp(v) == Less) &&
              (forall v :: r.value < v < end0 ==> cmp(v) == Greater)
  {
    var start, end := start0, end0;
    probes := [];
    while true
      invariant start0 < end0 ==> start0 <= start < end <= end0
      invariant start0 > end0 ==> end0 <= end < start <= start0
      invariant start0 == end0 ==> start == start0 && end == end0 && probes == []
      invariant start == start0 || cmp(start) == Less
      invariant end == end0 || cmp(end) == Greater
      invariant forall k :: 0 <= k < |probes| ==> StrictlyBetween(probes[k], start0, end0)
      invariant forall k :: 0 <= k < |probes| ==> cmp(probes[k]) != Equal
      decreases Abs(end - start)
    {
      if start == end {
        return Err(start), probes;
      }
      var mid := Midpoint(start, end);
      if mid == start || mid == end {
        r := Err(mid);
        if start0 < end0 && Monotone(cmp, start0, end0) {
          assert mid == start && end == start + 1;
          forall v | start0 < v <= mid
            ensures cmp(v) == Less
          {
            assert Position(cmp(v)) <= Position(cmp(start));
          }
          forall v | mid < v < end0
            ensures cmp(v) == Greater
          {
            assert Position(cmp(end)) <= Position(cmp(v));
          }
        }
        return;
      }
      var c := cmp(mid);
      probes := probes + [mid];
      match c {
        case Less => start := mid;
        case Greater => end := mid;
        case Equal => return Ok(mid), probes;
      }
    }
  }

  /** The comparator of the example search of `t*t` against 50: classify
      `t` by `t * t` against 50. */
  function SquareAgainst50(t: int): Ordering
  {
    if t * t < 50 then Less else if t * t > 50 then Greater else Equal
  }

  /** On [0, 100] no `t` has `t * t == 50`, so any `Err` that meets the
      search's postcondition is 7: the code reports the last value below the
      target, not the first one above it. */
  lemma SquareRootOf50Boundary(b: int)
    requires 0 <= b < 100
    requires forall v :: 0 < v <= b ==> SquareAgainst50(v) == Less
    requires forall v :: b < v < 100 ==> SquareAgainst50(v) == Greater
    ensures b == 7
  {
    assert SquareAgainst50(7) == Less;
    assert SquareAgainst50(8) == Greater;
  }

  /** `t * t` does not decrease on non-negative `t`, so the comparator of
      the example is monotone on `[0, 100]` and the search's boundary
      guarantee applies to it. */
  lemma SquareAgainst50Monotone()
    ensures Monotone(SquareAgainst50, 0, 100)
  {
    forall x, y | 0 <= x <= y <= 100
      ensures Position(SquareAgainst50(x)) <= Position(SquareAgainst50(y))
    {
      SquaresGrow(x, y);
    }
  }

  lemma SquaresGrow(x: int, y: int)
    requires 0 <= x <= y
    ensures x * x <= y * y
  {
    assert x * x <= x * y by {
      assert x * y - x * x == x * (y - x);
    }
    assert x * y <= y * y by {
      assert y * y - x * y == y * (y - x);
    }
  }

  /** No integer squares to 50: below 8 the square is at most 49, from 8 on
      it is at least 64. */
  lemma NoSquareRootOf50(t: int)
    requires 0 <= t
    ensures SquareAgainst50(t) != Equal
  {
    if t <= 7 {
      SquaresGrow(t, 7);
    } else {
      SquaresGrow(8, t);
    }
  }

  /** The example search of `t*t` against 50: searching `0..100` gives
      `Err(7)`. */
  method SquareRootOf50() returns (r: SearchResult)
    ensures r == Err(7)
  {
    var probes;
    r, probes := BinarySearchRange(0, 100, SquareAgainst50);
    if r.Ok? {
      NoSquareRootOf50(r.value);
      assert false;
    }
    SquareAgainst50Monotone();
    SquareRootOf50Boundary(r.value);
  }
}
