/** Scalar operations of C# and UnityEngine.Mathf that the distance-field code relies on,
    over Dafny's exact `real` in place of 32-bit floats. */
module Numerics {

  /** Absolute value of a real. */
  function Abs(x: real): (r: real)
    ensures r >= 0.0 && (r == x || r == -x)
  {
    if x >= 0.0 then x else -x
  }

  /** Mathf.Min(a, b), which returns `a < b ? a : b`. */
  function Min(a: real, b: real): (r: real)
    ensures r <= a && r <= b && (r == a || r == b)
  {
    if a < b then a else b
  }

  /** Mathf.Max(a, b), which returns `a > b ? a : b`. */
  function Max(a: real, b: real): (r: real)
    ensures r >= a && r >= b && (r == a || r == b)
  {
    if a > b then a else b
  }

  /** -1, 0 or 1 according to the sign of x: inside, on or outside a signed field's surface. */
  function Sign(x: real): int
  {
    if x < 0.0 then -1 else if x == 0.0 then 0 else 1
  }

  /** The C# cast `(int)x` of a float: truncation toward zero, not the floor. */
  function Trunc(x: real): int
  {
    if x >= 0.0 then x.Floor else -((-x).Floor)
  }

  /** Truncation rounds toward zero: down for non-negative x, up for non-positive x. */
  lemma TruncTowardZero(x: real)
    ensures x >= 0.0 ==> 0 <= Trunc(x) && Trunc(x) as real <= x < Trunc(x) as real + 1.0
    ensures x <= 0.0 ==> Trunc(x) <= 0 && Trunc(x) as real - 1.0 < x <= Trunc(x) as real
  {
  }

  /** The C# remainder `a % b` on floats: `a - n * b` for the quotient `n` truncated toward zero,
      so the result takes the sign of the dividend (unlike GLSL's floor-based `mod`). */
  function FRem(a: real, b: real): real
    requires b != 0.0
  {
    a - (Trunc(a / b) as real) * b
  }

  /** What a truncated remainder is: `a - r` is a whole multiple of `b`, `r` is smaller than
      `b` in magnitude, and `r` takes the sign of the dividend `a`. */
  ghost predicate IsTruncatedRemainder(a: real, b: real, r: real)
  {
    && b != 0.0
    && ((a - r) / b).Floor as real == (a - r) / b
    && Abs(r) < Abs(b)
    && (a >= 0.0 ==> r >= 0.0)
    && (a <= 0.0 ==> r <= 0.0)
  }

  /** 0 <= a < b, scaled by a non-negative factor, stays below b scaled by a positive one. */
  lemma ProductBelow(a: real, s: real, b: real)
    requires 0.0 <= s < 1.0 && b > 0.0
    ensures 0.0 <= s * b < b
  {
    assert b - s * b == (1.0 - s) * b;
  }

  /** FRem(a, b) is b times the fractional part (q - Trunc(q)) of the quotient q = a / b. */
  lemma FRemScaled(a: real, b: real)
    requires b != 0.0
    ensures FRem(a, b) == (a / b - Trunc(a / b) as real) * b
    ensures (a - FRem(a, b)) / b == Trunc(a / b) as real
  {
    var q := a / b;
    assert a == q * b;
  }

  /** A fraction s in [0, 1) of b is smaller than b in magnitude and has b's sign. */
  lemma FractionOf(s: real, b: real)
    requires 0.0 <= s < 1.0 && b != 0.0
    ensures Abs(s * b) < Abs(b)
    ensures b > 0.0 ==> s * b >= 0.0
    ensures b < 0.0 ==> s * b <= 0.0
  {
    if b > 0.0 {
      FractionOfPositive(s, b);
    } else {
      FractionOfPositive(s, -b);
      assert s * b == -(s * -b);
    }
  }

  /** A fraction s in [0, 1) of a positive b lies in [0, b), and so does its magnitude. */
  lemma FractionOfPositive(s: real, b: real)
    requires 0.0 <= s < 1.0 && b > 0.0
    ensures 0.0 <= s * b < b
    ensures Abs(s * b) < Abs(b) && Abs(-(s * b)) < Abs(-b)
  {
    ProductBelow(0.0, s, b);
  }

  /** The sign of a / b from the signs of a and b. */
  lemma QuotientSign(a: real, b: real)
    requires b != 0.0
    ensures (a >= 0.0 && b > 0.0) || (a <= 0.0 && b < 0.0) ==> a / b >= 0.0
    ensures (a >= 0.0 && b < 0.0) || (a <= 0.0 && b > 0.0) ==> a / b <= 0.0
  {
    assert a == a / b * b;
  }

  /** FRem is a truncated remainder. */
  lemma {:induction false} FRemIsTruncatedRemainder(a: real, b: real)
    requires b != 0.0
    ensures IsTruncatedRemainder(a, b, FRem(a, b))
  {
    FRemScaled(a, b);
    QuotientSign(a, b);
    var q := a / b;
    var s := q - Trunc(q) as real;
    var r := FRem(a, b);
    assert r == s * b;
    if q >= 0.0 {
      FractionOf(s, b);
    } else {
      FractionOf(-s, b);
      assert r == -(-s * b);
    }
  }

  /** An integer strictly between -1 and 1 is 0, also after scaling by a positive factor. */
  lemma WholeMultipleBelow(n: int, b: real)
    requires b > 0.0 && Abs(n as real * b) < b
    ensures n == 0
  {
    assert n >= 1 ==> n as real * b >= b;
    assert n <= -1 ==> n as real * b <= -b;
  }

  /** IsTruncatedRemainder determines the remainder uniquely, so FRem is the only function
      that satisfies it. */
  lemma {:induction false} TruncatedRemainderUnique(a: real, b: real, r1: real, r2: real)
    requires IsTruncatedRemainder(a, b, r1) && IsTruncatedRemainder(a, b, r2)
    ensures r1 == r2
  {
    var n1 := ((a - r1) / b).Floor;
    var n2 := ((a - r2) / b).Floor;
    WholeQuotient(a - r1, b, n1);
    WholeQuotient(a - r2, b, n2);
    var n := n1 - n2;
    assert r2 - r1 == n as real * b;
    var ab := Abs(b);
    SameSideCloser(a, r1, r2, ab);
    if b > 0.0 {
      WholeMultipleBelow(n, b);
    } else {
      assert r2 - r1 == (-n) as real * ab;
      WholeMultipleBelow(-n, ab);
    }
  }

  /** A quotient that is the whole number n makes the dividend n times the divisor. */
  lemma WholeQuotient(x: real, b: real, n: int)
    requires b != 0.0 && n as real == x / b
    ensures x == n as real * b
  {
  }

  /** Two values on the same side of zero as a, each smaller than ab in magnitude, are less
      than ab apart. */
  lemma SameSideCloser(a: real, r1: real, r2: real, ab: real)
    requires Abs(r1) < ab && Abs(r2) < ab
    requires a >= 0.0 ==> r1 >= 0.0 && r2 >= 0.0
    requires a <= 0.0 ==> r1 <= 0.0 && r2 <= 0.0
    ensures Abs(r2 - r1) < ab
  {
  }

  /** FRem agrees with every other truncated remainder: the characterisation is complete. */
  lemma FRemCharacterised(a: real, b: real, r: real)
    requires b != 0.0
    ensures IsTruncatedRemainder(a, b, r) <==> r == FRem(a, b)
  {
    FRemIsTruncatedRemainder(a, b);
    if IsTruncatedRemainder(a, b, r) {
      TruncatedRemainderUnique(a, b, r, FRem(a, b));
    }
  }

  /** On non-negative dividends and a positive divisor the truncated remainder is periodic. */
  lemma {:induction false} FRemPeriodicNonNegative(a: real, b: real, k: nat)
    requires a >= 0.0 && b > 0.0
    ensures FRem(a + k as real * b, b) == FRem(a, b)
  {
    var q := a / b;
    assert (a + k as real * b) / b == q + k as real;
    assert Trunc(q + k as real) == Trunc(q) + k;
  }

  /** On non-positive dividends and a positive divisor the truncated remainder is periodic
      too: moving the dividend down by whole periods keeps it on the same side of zero. */
  lemma {:induction false} FRemPeriodicNonPositive(a: real, b: real, k: nat)
    requires a <= 0.0 && b > 0.0
    ensures FRem(a - k as real * b, b) == FRem(a, b)
  {
    var q := a / b;
    QuotientSign(a, b);
    assert (a - k as real * b) / b == q - k as real;
    assert Trunc(q - k as real) == Trunc(q) - k;
  }

  /** The sign of the divisor does not matter to the truncated remainder. */
  lemma {:induction false} FRemNegatedDivisor(a: real, b: real)
    requires b != 0.0
    ensures FRem(a, -b) == FRem(a, b)
  {
    var q := a / b;
    assert a / -b == -q;
    assert Trunc(-q) == -Trunc(q);
  }
}
