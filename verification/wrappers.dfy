/** Shared result types and byte/character helpers used by every day's model.

    Rust code in this repository reports failure in three ways: an `Option`
    (`find`, `next`), a `Result` carrying a message (`FromStr`), and a panic
    (`unwrap` on `None`, `panic!`, `unreachable!`). A panic is modelled as a
    value, `Outcome.Panic`, so that the model can state when it happens
    instead of forbidding the input that causes it.
 */
module Wrappers {

  datatype Option<+T> = None | Some(value: T)

  /** `Ok`/`Err` are Rust's `Result`; `Panic` is an abort of the program. */
  datatype Outcome<+T> = Ok(value: T) | Err(error: string) | Panic

  /** An unsigned 8-bit value, Rust's `u8`. */
  newtype byte = b: int | 0 <= b < 256

  predicate IsAscii(s: string)
  {
    forall k :: 0 <= k < |s| ==> s[k] as int < 128
  }

  /** The bytes of an ASCII string literal, as Rust's `b"..."`. */
  function Ascii(s: string): (r: seq<byte>)
    requires IsAscii(s)
    ensures |r| == |s|
    ensures forall k :: 0 <= k < |s| ==> r[k] as int == s[k] as int
  {
    seq(|s|, k requires 0 <= k < |s| => s[k] as int as byte)
  }

  /** `u8::is_ascii_digit`. */
  predicate IsAsciiDigit(b: byte)
  {
    '0' as int <= b as int <= '9' as int
  }

  /** `char::is_ascii_digit`. */
  predicate IsDigitChar(c: char)
  {
    '0' <= c <= '9'
  }

  function DigitValue(c: char): (d: nat)
    requires IsDigitChar(c)
    ensures d <= 9
  {
    c as int - '0' as int
  }

  /** The decimal value of a run of ASCII digits, most significant first
      (what `str::parse` yields on such a run). */
  function DecimalValue(s: string): (v: nat)
    requires forall k :: 0 <= k < |s| ==> IsDigitChar(s[k])
    decreases |s|
  {
    if |s| == 0 then 0 else 10 * DecimalValue(s[..|s| - 1]) + DigitValue(s[|s| - 1])
  }

  function Sum(s: seq<int>): int
  {
    if |s| == 0 then 0 else Sum(s[..|s| - 1]) + s[|s| - 1]
  }

  function Product(s: seq<int>): int
  {
    if |s| == 0 then 1 else Product(s[..|s| - 1]) * s[|s| - 1]
  }

  function Max(a: int, b: int): int
  {
    if a < b then b else a
  }

  function Min(a: int, b: int): int
  {
    if a < b then a else b
  }

  /** `(lo..hi).find(p)`: the smallest `i` in [lo, hi) with `p(i)`. */
  function FindFirst(lo: int, hi: int, p: int -> bool): (r: Option<int>)
    ensures r.Some? ==> lo <= r.value < hi && p(r.value)
    ensures r.Some? ==> forall i :: lo <= i < r.value ==> !p(i)
    ensures r.None? <==> forall i :: lo <= i < hi ==> !p(i)
    decreases hi - lo
  {
    if lo >= hi then None
    else if p(lo) then Some(lo)
    else FindFirst(lo + 1, hi, p)
  }

  /** `(lo..hi).rev().find(p)`, or `rfind`: the largest `i` in [lo, hi)
      with `p(i)`. */
  function FindLast(lo: int, hi: int, p: int -> bool): (r: Option<int>)
    ensures r.Some? ==> lo <= r.value < hi && p(r.value)
    ensures r.Some? ==> forall i :: r.value < i < hi ==> !p(i)
    ensures r.None? <==> forall i :: lo <= i < hi ==> !p(i)
    decreases hi - lo
  {
    if lo >= hi then None
    else if p(hi - 1) then Some(hi - 1)
    else FindLast(lo, hi - 1, p)
  }
}
