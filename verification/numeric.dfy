/** Numeric primitives of the library: absolute value, the truncating integer
    division of C++, the greatest common divisor computed by an iterative
    Euclidean loop, and the least common multiple derived from it.

    The representation type is modelled as the unbounded `int`. The library's
    representation is the signed `std::intmax_t`, so `abs` negates every
    negative value; its unsigned case is not modelled. */
module Numeric {

  // ---------------------------------------------------------------------------
  // Divisibility: the independent vocabulary the contracts below are stated in
  // ---------------------------------------------------------------------------

  /** `d` divides `n`: `n` is an integer multiple of `d`. Zero divides only zero. */
  ghost predicate Divides(d: int, n: int) {
    exists k :: n == d * k
  }

  /** `d` divides both `a` and `b`. */
  ghost predicate CommonDivisor(d: int, a: int, b: int) {
    Divides(d, a) && Divides(d, b)
  }

  /** `g` is THE greatest common divisor of `a` and `b`: a non-negative common
      divisor that every common divisor divides. For `a == b == 0` this is 0. */
  ghost predicate IsGcd(g: int, a: int, b: int) {
    && g >= 0
    && CommonDivisor(g, a, b)
    && forall d :: CommonDivisor(d, a, b) ==> Divides(d, g)
  }

  lemma DividesByWitness(d: int, n: int, k: int)
    requires n == d * k
    ensures Divides(d, n)
  {
  }

  lemma DividesTrivially(d: int, n: int)
    ensures Divides(d, 0)
    ensures Divides(d, d)
    ensures Divides(1, n)
  {
    DividesByWitness(d, 0, 0);
    DividesByWitness(d, d, 1);
    DividesByWitness(1, n, n);
  }

  /** Only zero is a multiple of zero. */
  lemma ZeroDividesOnlyZero(n: int)
    requires Divides(0, n)
    ensures n == 0
  {
    var k :| n == 0 * k;
  }

  /** Divisibility does not see the sign of the dividend. */
  lemma DividesAbs(d: int, n: int)
    ensures Divides(d, Abs(n)) <==> Divides(d, n)
  {
    if Divides(d, n) {
      var k :| n == d * k;
      DividesByWitness(d, Abs(n), if n < 0 then -k else k);
    }
    if Divides(d, Abs(n)) {
      var k :| Abs(n) == d * k;
      DividesByWitness(d, n, if n < 0 then -k else k);
    }
  }

  lemma DividesTransitive(a: int, b: int, c: int)
    requires Divides(a, b) && Divides(b, c)
    ensures Divides(a, c)
  {
    var k :| b == a * k;
    var m :| c == b * m;
    assert c == a * (k * m);
    DividesByWitness(a, c, k * m);
  }

  /** A common divisor of `a` and `b` divides `a - q * b`, and conversely. */
  lemma DividesLinear(d: int, a: int, b: int, q: int)
    requires Divides(d, b)
    ensures Divides(d, a) <==> Divides(d, a - q * b)
  {
    var kb :| b == d * kb;
    if Divides(d, a) {
      var ka :| a == d * ka;
      assert a - q * b == d * (ka - q * kb);
      DividesByWitness(d, a - q * b, ka - q * kb);
    }
    if Divides(d, a - q * b) {
      var kr :| a - q * b == d * kr;
      assert a == d * (kr + q * kb);
      DividesByWitness(d, a, kr + q * kb);
    }
  }

  lemma AbsOfProduct(x: int, y: int)
    ensures Abs(x * y) == Abs(x) * Abs(y)
  {
    if x < 0 && y < 0 {
      assert x * y == (-x) * (-y);
    } else if x < 0 {
      assert -(x * y) == (-x) * y;
    } else if y < 0 {
      assert -(x * y) == x * (-y);
    }
  }

  /** A non-zero multiple is at least as large in magnitude as its divisor. */
  lemma DivisorBound(d: int, n: int)
    requires Divides(d, n) && n != 0
    ensures Abs(d) <= Abs(n)
  {
    var k :| n == d * k;
    AbsOfProduct(d, k);
    var ad, ak := Abs(d), Abs(k);
    assert k != 0;
    assert ad * ak == ad * (ak - 1) + ad;
    ProductOfNonnegatives(ad, ak - 1);
  }

  lemma ProductOfNonnegatives(a: int, b: int)
    requires a >= 0 && b >= 0
    ensures a * b >= 0
  {
  }

  /** Two non-negative numbers that divide each other are equal. */
  lemma DividesAntisymmetric(x: int, y: int)
    requires x >= 0 && y >= 0
    requires Divides(x, y) && Divides(y, x)
    ensures x == y
  {
    if x == 0 {
      ZeroDividesOnlyZero(y);
    } else if y == 0 {
      ZeroDividesOnlyZero(x);
    } else {
      DivisorBound(x, y);
      DivisorBound(y, x);
    }
  }

  /** There is only one greatest common divisor. */
  lemma GcdUnique(g1: int, g2: int, a: int, b: int)
    requires IsGcd(g1, a, b) && IsGcd(g2, a, b)
    ensures g1 == g2
  {
    DividesAntisymmetric(g1, g2);
  }

  /** Reducing the larger operand modulo the smaller one keeps the set of
      common divisors: this is the step of the Euclidean loop. */
  lemma RemainderKeepsCommonDivisors(l: nat, r: nat)
    requires r > 0
    ensures forall d :: CommonDivisor(d, l % r, r) <==> CommonDivisor(d, l, r)
    ensures forall d :: CommonDivisor(d, r, l % r) <==> CommonDivisor(d, r, l)
  {
    forall d
      ensures CommonDivisor(d, l % r, r) <==> CommonDivisor(d, l, r)
      ensures CommonDivisor(d, r, l % r) <==> CommonDivisor(d, r, l)
    {
      if Divides(d, r) {
        assert l % r == l - (l / r) * r;
        DividesLinear(d, l, r, l / r);
      }
    }
  }

  lemma GcdWithZeroOperand(x: nat)
    ensures IsGcd(x, x, 0) && IsGcd(x, 0, x)
  {
    DividesTrivially(x, x);
  }

  // ---------------------------------------------------------------------------
  // abs
  // ---------------------------------------------------------------------------

  /** Absolute value: the negation of a negative value, any other value itself. */
  function Abs(x: int): (r: int)
    ensures r >= 0
    ensures r == x || r == -x
  {
    if x < 0 then -x else x
  }

  // ---------------------------------------------------------------------------
  // C++ integer division
  // ---------------------------------------------------------------------------

  /** Integer division as C++ performs it: the quotient is truncated toward
      zero, so the remainder `a - q * b` is smaller than the divisor in
      magnitude and never has the opposite sign of the dividend. */
  function Quot(a: int, b: int): (q: int)
    requires b != 0
    ensures Abs(a - q * b) < Abs(b)
    ensures a - q * b == 0 || (a - q * b < 0 <==> a < 0)
  {
    var m := Abs(a) / Abs(b);
    TruncatedRemainder(a, b, m);
    if (a < 0) == (b < 0) then m else -m
  }

  /** The remainder left by the truncated quotient is the remainder of the
      magnitudes, carrying the dividend's sign. */
  lemma TruncatedRemainder(a: int, b: int, m: int)
    requires b != 0 && m == Abs(a) / Abs(b)
    ensures var q := if (a < 0) == (b < 0) then m else -m;
              a - q * b == (if a < 0 then -(Abs(a) % Abs(b)) else Abs(a) % Abs(b))
  {
    var aa, ab := Abs(a), Abs(b);
    assert aa == m * ab + aa % ab;
    if a < 0 && b < 0 {
      assert a - m * b == -(aa - m * ab);
    } else if a < 0 {
      assert a - (-m) * b == -(aa - m * ab);
    } else if b < 0 {
      assert a - (-m) * b == aa - m * ab;
    } else {
      assert a - m * b == aa - m * ab;
    }
  }

  /** A multiple of `b` smaller than `b` in magnitude is zero. */
  lemma SmallMultipleIsZero(b: int, t: int)
    requires Abs(b * t) < Abs(b)
    ensures t == 0
  {
    AbsOfProduct(b, t);
    if t != 0 {
      var ab, at := Abs(b), Abs(t);
      assert ab * at == ab * (at - 1) + ab;
      ProductOfNonnegatives(ab, at - 1);
    }
  }

  /** When `b` divides `a`, C++ division is exact. */
  lemma QuotExact(a: int, b: int)
    requires b != 0 && Divides(b, a)
    ensures Quot(a, b) * b == a
  {
    var k :| a == b * k;
    var q := Quot(a, b);
    assert a - q * b == b * (k - q);
    SmallMultipleIsZero(b, k - q);
  }

  /** Dividing a multiple of `b` by `b` recovers the other factor. */
  lemma QuotOfMultiple(b: int, x: int)
    requires b != 0
    ensures Quot(b * x, b) == x
  {
    DividesByWitness(b, b * x, x);
    QuotExact(b * x, b);
    assert (Quot(b * x, b) - x) * b == 0;
  }

  // ---------------------------------------------------------------------------
  // gcd
  // ---------------------------------------------------------------------------

  /** The Euclidean loop on two non-negative operands, one iteration per call:
      while both are non-zero the larger is reduced modulo the smaller; once one
      is zero the larger of the two, i.e. the survivor, is the result. The
      result is positive and no larger than either non-zero operand. */
  function EuclidLoop(left: nat, right: nat): (g: nat)
    ensures left != 0 ==> 0 < g <= left
    ensures right != 0 ==> 0 < g <= right
    decreases left + right
  {
    if left != 0 && right != 0 then
      if left > right then EuclidLoop(left % right, right) else EuclidLoop(left, right % left)
    else
      if right > left then right else left
  }

  /** The loop computes the greatest common divisor of its operands. */
  lemma {:induction false} EuclidLoopIsGcd(left: nat, right: nat)
    ensures IsGcd(EuclidLoop(left, right), left, right)
    decreases left + right
  {
    if left != 0 && right != 0 {
      if left > right {
        RemainderKeepsCommonDivisors(left, right);
        EuclidLoopIsGcd(left % right, right);
      } else {
        RemainderKeepsCommonDivisors(right, left);
        EuclidLoopIsGcd(left, right % left);
      }
    } else {
      GcdWithZeroOperand(left);
      GcdWithZeroOperand(right);
    }
  }

  /** The gcd of two integers: zero for two zeros (the short-circuit),
      otherwise the Euclidean loop on their absolute values. It is zero only
      for two zeros and never exceeds a non-zero operand in magnitude. */
  function Gcd(lhs: int, rhs: int): (g: nat)
    ensures g == 0 <==> lhs == 0 && rhs == 0
    ensures lhs != 0 ==> g <= Abs(lhs)
    ensures rhs != 0 ==> g <= Abs(rhs)
  {
    if lhs == 0 && rhs == 0 then 0 else EuclidLoop(Abs(lhs), Abs(rhs))
  }

  /** `gcd` yields the greatest common divisor: a non-negative common divisor
      of both operands that every common divisor divides. */
  lemma GcdIsGcd(lhs: int, rhs: int)
    ensures IsGcd(Gcd(lhs, rhs), lhs, rhs)
  {
    if lhs == 0 && rhs == 0 {
      DividesTrivially(0, 0);
    } else {
      EuclidLoopIsGcd(Abs(lhs), Abs(rhs));
      GcdOfAbs(Gcd(lhs, rhs), lhs, rhs);
    }
  }

  /** A gcd of the absolute values is a gcd of the operands, and it is
      non-zero unless both operands are zero. */
  lemma GcdOfAbs(g: int, a: int, b: int)
    requires IsGcd(g, Abs(a), Abs(b))
    ensures IsGcd(g, a, b)
    ensures g == 0 ==> a == 0 && b == 0
  {
    forall d ensures Divides(d, Abs(a)) <==> Divides(d, a) {
      DividesAbs(d, a);
    }
    forall d ensures Divides(d, Abs(b)) <==> Divides(d, b) {
      DividesAbs(d, b);
    }
    if g == 0 {
      ZeroDividesOnlyZero(a);
      ZeroDividesOnlyZero(b);
    }
  }

  /** The source's `gcd` as written: a short-circuit for two zeros, then the
      while loop on the absolute values, returning the non-zero survivor. */
  method GcdLoop(lhs: int, rhs: int) returns (g: int)
    ensures g == Gcd(lhs, rhs)
    ensures IsGcd(g, lhs, rhs)
  {
    GcdIsGcd(lhs, rhs);
    if lhs == 0 && rhs == 0 {
      return 0;
    }
    var left := Abs(lhs);
    var right := Abs(rhs);
    while left != 0 && right != 0
      invariant left >= 0 && right >= 0
      invariant Gcd(left, right) == Gcd(lhs, rhs)
      decreases left + right
    {
      if left > right {
        GcdRemainderStep(left, right);
        left := left % right;
      } else {
        GcdRemainderStep(right, left);
        GcdSymmetric(right % left, left);
        GcdSymmetric(right, left);
        right := right % left;
      }
    }
    GcdWithZero(left);
    GcdWithZero(right);
    g := if right > left then right else left;
  }

  /** One iteration of the loop leaves the gcd of the pair unchanged. */
  lemma GcdRemainderStep(l: nat, r: nat)
    requires r > 0
    ensures Gcd(l % r, r) == Gcd(l, r)
  {
    RemainderKeepsCommonDivisors(l, r);
    GcdIsGcd(l % r, r);
    GcdIsGcd(l, r);
    GcdUnique(Gcd(l % r, r), Gcd(l, r), l, r);
  }

  /** The gcd does not depend on the order of its operands. */
  lemma GcdSymmetric(a: int, b: int)
    ensures Gcd(a, b) == Gcd(b, a)
  {
    GcdIsGcd(a, b);
    GcdIsGcd(b, a);
    GcdUnique(Gcd(a, b), Gcd(b, a), a, b);
  }

  /** `gcd(0, 0)` is zero, by the short-circuit. */
  lemma GcdOfZeros()
    ensures Gcd(0, 0) == 0
  {
  }

  /** The gcd of `a` and 0 is `|a|`. */
  lemma GcdWithZero(a: int)
    ensures Gcd(a, 0) == Abs(a) && Gcd(0, a) == Abs(a)
  {
    GcdWithZeroOperand(Abs(a));
    forall d ensures Divides(d, Abs(a)) <==> Divides(d, a) {
      DividesAbs(d, a);
    }
    GcdIsGcd(a, 0);
    GcdIsGcd(0, a);
    GcdUnique(Gcd(a, 0), Abs(a), a, 0);
    GcdUnique(Gcd(0, a), Abs(a), 0, a);
  }

  /** Signs of the operands never change the gcd. */
  lemma GcdSignInvariant(a: int, b: int)
    ensures Gcd(a, b) == Gcd(-a, b) == Gcd(a, -b) == Gcd(-a, -b)
  {
  }

  /** The gcd is positive unless both operands are zero. */
  lemma GcdPositive(a: int, b: int)
    requires a != 0 || b != 0
    ensures Gcd(a, b) > 0
  {
  }

  // ---------------------------------------------------------------------------
  // lcm
  // ---------------------------------------------------------------------------

  /** The least common multiple computed as `(lhs / gcd) * rhs`, dividing
      first. The division is exact; with both operands zero it would divide by
      zero, which the source leaves to its callers. */
  function Lcm(lhs: int, rhs: int): (m: int)
    requires lhs != 0 || rhs != 0
    ensures Divides(lhs, m) && Divides(rhs, m)
    ensures m * Gcd(lhs, rhs) == lhs * rhs
    ensures m == 0 <==> lhs == 0 || rhs == 0
  {
    var g := Gcd(lhs, rhs);
    GcdIsGcd(lhs, rhs);
    LcmFacts(lhs, rhs, g);
    Quot(lhs, g) * rhs
  }

  lemma LcmFacts(lhs: int, rhs: int, g: int)
    requires g > 0 && IsGcd(g, lhs, rhs)
    ensures Divides(lhs, Quot(lhs, g) * rhs) && Divides(rhs, Quot(lhs, g) * rhs)
    ensures Quot(lhs, g) * rhs * g == lhs * rhs
    ensures Quot(lhs, g) * rhs == 0 <==> lhs == 0 || rhs == 0
  {
    var a := Quot(lhs, g);
    QuotExact(lhs, g);
    var b :| rhs == g * b;
    assert a * rhs == lhs * b;
    DividesByWitness(lhs, a * rhs, b);
    DividesByWitness(rhs, a * rhs, a);
    assert a == 0 <==> lhs == 0;
  }

  /** The division inside `lcm` is exact: `lhs / gcd(lhs, rhs)` times the gcd
      gives back `lhs`. */
  lemma LcmDivisionExact(lhs: int, rhs: int)
    requires lhs != 0 || rhs != 0
    ensures Quot(lhs, Gcd(lhs, rhs)) * Gcd(lhs, rhs) == lhs
  {
    GcdIsGcd(lhs, rhs);
    QuotExact(lhs, Gcd(lhs, rhs));
  }

  /** Although `lcm` divides its left operand and multiplies by its right one,
      swapping the operands gives the same value. */
  lemma LcmSymmetric(lhs: int, rhs: int)
    requires lhs != 0 || rhs != 0
    ensures Lcm(lhs, rhs) == Lcm(rhs, lhs)
  {
    GcdSymmetric(lhs, rhs);
    var g := Gcd(lhs, rhs);
    var m1, m2 := Lcm(lhs, rhs), Lcm(rhs, lhs);
    assert m1 * g == m2 * g;
    CancelFactor(m1, m2, g);
  }

  lemma CancelFactor(x: int, y: int, c: int)
    requires c != 0 && x * c == y * c
    ensures x == y
  {
    assert (x - y) * c == 0;
  }

  /** A divisor's sign does not matter either. */
  lemma AbsDivides(c: int, n: int)
    ensures Divides(Abs(c), n) <==> Divides(c, n)
  {
    if Divides(c, n) {
      var k :| n == c * k;
      DividesByWitness(Abs(c), n, if c < 0 then -k else k);
    }
    if Divides(Abs(c), n) {
      var k :| n == Abs(c) * k;
      DividesByWitness(c, n, if c < 0 then -k else k);
    }
  }

  /** A common factor of divisor and dividend can be cancelled. */
  lemma DividesCancel(c: int, n: int, k: int)
    requires k != 0 && Divides(c * k, n * k)
    ensures Divides(c, n)
  {
    var w :| n * k == (c * k) * w;
    assert n * k == (c * w) * k;
    CancelFactor(n, c * w, k);
    DividesByWitness(c, n, w);
  }

  /** Multiplying divisor and dividend by the same `k` keeps divisibility. */
  lemma DividesScale(c: int, n: int, k: int)
    requires Divides(c, n)
    ensures Divides(c * k, n * k)
  {
    var w :| n == c * w;
    assert n * k == (c * k) * w;
    DividesByWitness(c * k, n * k, w);
  }

  /** Scaling both operands by a non-zero `k` scales their gcd by `|k|`. */
  lemma GcdScaled(a: int, b: int, k: int)
    requires k != 0
    ensures Gcd(a * k, b * k) == Abs(k) * Gcd(a, b)
  {
    var g := Gcd(a, b);
    if g == 0 {
      assert a * k == 0 && b * k == 0;
    } else {
      var m := ScaledGcdDivides(a, b, k);
      GcdIsGcd(a, b);
      ScaledGcdCofactor(a, b, k, g, m);
      UnitMultiple(Gcd(a * k, b * k), g, k, m);
    }
  }

  /** `gcd(a, b) * k` divides `gcd(a * k, b * k)`; `m` is the cofactor. */
  lemma ScaledGcdDivides(a: int, b: int, k: int) returns (m: int)
    requires k != 0
    ensures Gcd(a * k, b * k) == (Gcd(a, b) * k) * m
    ensures CommonDivisor((Gcd(a, b) * k) * m, a * k, b * k)
  {
    var g := Gcd(a, b);
    GcdIsGcd(a, b);
    GcdIsGcd(a * k, b * k);
    DividesScale(g, a, k);
    DividesScale(g, b, k);
    assert CommonDivisor(g * k, a * k, b * k);
    m :| Gcd(a * k, b * k) == (g * k) * m;
  }

  /** If `g * k * m` is a common divisor of `a * k` and `b * k`, where `g` is
      the non-zero gcd of `a` and `b`, then `m` is 1 or -1. */
  lemma ScaledGcdCofactor(a: int, b: int, k: int, g: int, m: int)
    requires k != 0 && g != 0 && IsGcd(g, a, b)
    requires CommonDivisor((g * k) * m, a * k, b * k)
    ensures Abs(m) == 1
  {
    assert (g * k) * m == (g * m) * k;
    DividesCancel(g * m, a, k);
    DividesCancel(g * m, b, k);
    assert CommonDivisor(g * m, a, b);
    var t :| g == (g * m) * t;
    assert (m * t) * g == 1 * g;
    CancelFactor(m * t, 1, g);
    UnitFactor(m, t);
  }

  lemma UnitMultiple(big: int, g: int, k: int, m: int)
    requires big >= 0 && g > 0 && big == (g * k) * m && Abs(m) == 1
    ensures big == Abs(k) * g
  {
    AbsOfProduct(g * k, m);
    AbsOfProduct(g, k);
  }

  /** The only integer factors of 1 are 1 and -1. */
  lemma UnitFactor(m: int, t: int)
    requires m * t == 1
    ensures Abs(m) == 1
  {
    if m != 0 {
      DividesByWitness(m, 1, t);
      DivisorBound(m, 1);
    }
  }

  /** The library's own examples for `abs` and `gcd` on integers. */
  lemma NumericExamples()
    ensures Abs(1337) == 1337 && Abs(-42) == 42
    ensures Gcd(3, 7) == 1 && Gcd(7, -11) == 1 && Gcd(-5, 2) == 1 && Gcd(-13, -17) == 1
    ensures Gcd(8, 18) == 2 && Gcd(12, -144) == 12 && Gcd(-18, 9) == 9 && Gcd(-20, -30) == 10
    ensures Gcd(8, 17) == 1 && Gcd(12, -23) == 1 && Gcd(-7, 9) == 1 && Gcd(-19, -30) == 1
  {
  }
}
