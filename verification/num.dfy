/** `gcd` (the Euclidean algorithm) and `lcm` built from it, on
    non-negative integers, plus the `reduce(lcm).unwrap_or(1)` fold that
    day 8 applies to a list of periods.
 */
module Num {

  /** `d` divides `n`; zero divides only zero. */
  predicate Divides(d: nat, n: nat)
  {
    if d == 0 then n == 0 else n % d == 0
  }

  /** Two to the power `n`. */
  function Pow2(n: nat): (p: nat)
    ensures p >= 1
  {
    if n == 0 then 1 else 2 * Pow2(n - 1)
  }

  /** Multiplying by a factor of at least one does not shrink a positive number. */
  lemma MulBounds(d: int, k: int)
    requires d > 0
    ensures k >= 1 ==> d * k >= d
    ensures k <= -1 ==> d * k <= -d
  {
    if k >= 1 {
      assert d * k == d + d * (k - 1);
    } else if k <= -1 {
      assert d * k == -d + d * (k + 1);
    }
  }

  /** Euclidean division is unique: `q` and `r` with `y == d * q + r` and
      `0 <= r < d` are the quotient and the remainder. */
  lemma DivModUnique(y: int, d: int, q: int, r: int)
    requires d > 0 && 0 <= r < d && y == d * q + r
    ensures y / d == q && y % d == r
  {
    var q0, r0 := y / d, y % d;
    assert d * q0 + r0 == y;
    assert d * (q - q0) == r0 - r;
    MulBounds(d, q - q0);
  }

  lemma ModAddMultiple(d: nat, m: int, r: int)
    requires d > 0
    ensures (d * m + r) % d == r % d
  {
    var q := r / d;
    assert r == d * q + r % d;
    assert d * m + r == d * (m + q) + r % d;
    DivModUnique(d * m + r, d, m + q, r % d);
  }

  lemma MultipleIsDivisible(d: nat, m: nat)
    ensures Divides(d, d * m)
  {
    if d > 0 {
      ModAddMultiple(d, m, 0);
    }
  }

  /** A divisor's cofactor: `d | n` gives `n == d * (n / d)`. */
  lemma Cofactor(d: nat, n: nat)
    requires d > 0 && Divides(d, n)
    ensures n == d * (n / d)
  {
  }

  lemma DividesTransitive(a: nat, b: nat, c: nat)
    requires Divides(a, b) && Divides(b, c)
    ensures Divides(a, c)
  {
    if a > 0 && b > 0 {
      var kb, kc := b / a, c / b;
      Cofactor(a, b);
      Cofactor(b, c);
      assert c == (a * kb) * kc;
      assert c == a * (kb * kc);
      MultipleIsDivisible(a, kb * kc);
    }
  }

  /** One Euclidean step keeps the set of common divisors:
      `d | a && d | b` exactly when `d | b && d | a % b`. */
  lemma EuclidStep(a: nat, b: nat)
    requires b > 0
    ensures forall d: nat :: Divides(d, a) && Divides(d, b) <==> Divides(d, b) && Divides(d, a % b)
  {
    forall d: nat | Divides(d, b)
      ensures Divides(d, a) <==> Divides(d, a % b)
    {
      if d > 0 {
        DivisorOfRemainder(a, b, d);
      }
    }
  }

  lemma DivisorOfRemainder(a: nat, b: nat, d: nat)
    requires b > 0 && d > 0 && Divides(d, b)
    ensures a % d == (a % b) % d
  {
    var q, kb := a / b, b / d;
    assert a == b * q + a % b;
    Cofactor(d, b);
    assert b * q == (d * kb) * q;
    assert a == d * (kb * q) + a % b;
    ModAddMultiple(d, kb * q, a % b);
  }

  /** The Euclidean algorithm, one recursive call per iteration of the
      loop in `gcd`. The result is the greatest common divisor: it divides
      both arguments and every common divisor divides it. */
  function Gcd(a: nat, b: nat): (g: nat)
    ensures Divides(g, a) && Divides(g, b)
    ensures forall d: nat :: Divides(d, a) && Divides(d, b) ==> Divides(d, g)
    decreases b
  {
    if b == 0 then a
    else
      EuclidStep(a, b);
      Gcd(b, a % b)
  }

  /** `gcd(a, b)` as written: swap the operands, then reduce the second one
      modulo the first, until it is zero. */
  method GcdLoop(a0: nat, b0: nat) returns (g: nat)
    ensures g == Gcd(a0, b0)
    ensures Divides(g, a0) && Divides(g, b0)
  {
    var a, b := a0, b0;
    while b != 0
      invariant Gcd(a, b) == Gcd(a0, b0)
      decreases b
    {
      a, b := b, a;
      b := b % a;
    }
    g := a;
  }

  /** Zero is the identity of `gcd` on either side; `gcd` is zero only when
      both arguments are. */
  lemma GcdIdentity(a: nat, b: nat)
    ensures Gcd(a, 0) == a && Gcd(0, b) == b
    ensures Gcd(a, b) == 0 <==> a == 0 && b == 0
  {
    if b > 0 {
      assert Gcd(0, b) == Gcd(b, 0);
    }
  }

  lemma DividesAntisymmetric(x: nat, y: nat)
    requires Divides(x, y) && Divides(y, x)
    ensures x == y
  {
    if x > 0 && y > 0 {
      Cofactor(x, y);
      Cofactor(y, x);
      MulBounds(x, y / x);
      MulBounds(y, x / y);
    }
  }

  lemma {:induction false} GcdCommutative(a: nat, b: nat)
    ensures Gcd(a, b) == Gcd(b, a)
  {
    var g, h := Gcd(a, b), Gcd(b, a);
    DividesAntisymmetric(g, h);
  }

  /** `lcm(a, b) = (a / gcd(a, b)) * b`. Both zero would divide by zero,
      which panics in the code. */
  function Lcm(a: nat, b: nat): (l: nat)
    requires a != 0 || b != 0
    ensures Divides(a, l) && Divides(b, l)
    ensures Gcd(a, b) * l == a * b
    ensures l == 0 <==> a == 0 || b == 0
  {
    LcmFacts(a, b);
    (a / Gcd(a, b)) * b
  }

  lemma LcmFacts(a: nat, b: nat)
    requires a != 0 || b != 0
    ensures Gcd(a, b) > 0
    ensures Divides(a, (a / Gcd(a, b)) * b) && Divides(b, (a / Gcd(a, b)) * b)
    ensures Gcd(a, b) * ((a / Gcd(a, b)) * b) == a * b
    ensures (a / Gcd(a, b)) * b == 0 <==> a == 0 || b == 0
  {
    var g := Gcd(a, b);
    GcdIdentity(a, b);
    var ka, kb := a / g, b / g;
    Cofactor(g, a);
    Cofactor(g, b);
    var l := ka * b;
    assert Divides(b, l) by {
      assert l == b * ka;
      MultipleIsDivisible(b, ka);
    }
    assert Divides(a, l) by {
      Regroup(g, ka, kb);
      MultipleIsDivisible(a, kb);
    }
    assert g * l == a * b by {
      Regroup(g, ka, b);
    }
    assert l == 0 <==> a == 0 || b == 0 by {
      ZeroProduct(g, ka);
      ZeroProduct(ka, b);
    }
  }

  lemma Regroup(x: int, y: int, z: int)
    ensures y * (x * z) == (x * y) * z
    ensures x * (y * z) == (x * y) * z
  {
  }

  lemma ZeroProduct(x: int, y: int)
    ensures x * y == 0 <==> x == 0 || y == 0
  {
    if x != 0 && y != 0 {
      if x > 0 && y > 0 {
        MulBounds(x, y);
      } else if x > 0 {
        MulBounds(x, y);
      } else if y > 0 {
        MulBounds(y, x);
      } else {
        MulBounds(-x, -y);
      }
    }
  }

  /** `reduce(lcm).unwrap_or(1)` over a list of positive periods. */
  function LcmAll(s: seq<nat>): (l: nat)
    requires forall k :: 0 <= k < |s| ==> s[k] > 0
    ensures l > 0
    ensures forall k :: 0 <= k < |s| ==> Divides(s[k], l)
  {
    if |s| == 0 then 1
    else if |s| == 1 then s[0]
    else
      var prefix := LcmAll(s[..|s| - 1]);
      var l := Lcm(prefix, s[|s| - 1]);
      forall k | 0 <= k < |s| - 1
        ensures Divides(s[k], l)
      {
        assert s[k] == s[..|s| - 1][k];
        DividesTransitive(s[k], prefix, l);
      }
      l
  }

  /** Sample values: `gcd(12, 18) == 6`, `lcm(4, 6) == 12`, and the
      fold over `[4, 6, 8]` is 24. */
  lemma Examples()
    ensures Gcd(12, 18) == 6
    ensures Lcm(4, 6) == 12
    ensures LcmAll([4, 6, 8]) == 24
  {
    assert Gcd(12, 18) == Gcd(18, 12) == Gcd(12, 6) == Gcd(6, 0) == 6;
    assert Gcd(4, 6) == Gcd(6, 4) == Gcd(4, 2) == Gcd(2, 0) == 2;
    assert Gcd(12, 8) == Gcd(8, 4) == Gcd(4, 0) == 4;
    assert [4, 6, 8][..2] == [4, 6] && [4, 6][..1] == [4];
    assert LcmAll([4, 6]) == Lcm(4, 6) == 12;
    assert LcmAll([4, 6, 8]) == Lcm(12, 8) == 24;
  }
}
