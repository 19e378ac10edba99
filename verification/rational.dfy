/** The rational value type: a numerator over a denominator of one integral
    representation (`int` here), checked only for a non-zero denominator.
    Values are never sign-normalised and never reduced on their own; `Reduce`,
    `Common` and `Expand` are the only transformations, each in a pure form
    (a function returning the new value) and an in-place form (a method that
    takes the receiver's fields and returns the fields it holds afterwards). */
module Rationals {
  import opened Numeric

  // ---------------------------------------------------------------------------
  // Errors
  // ---------------------------------------------------------------------------

  /** The `std::domain_error` the library throws, with its message. */
  datatype DomainError = DomainError(what: string)

  const ZeroDenominator := DomainError("denominator must not be 0")
  const ZeroExpansion := DomainError("expansion by 0 would result in an undefined value")

  /** An operation that either yields a value or throws a domain error. */
  datatype Result<T> = Success(value: T) | Failure(error: DomainError)

  // ---------------------------------------------------------------------------
  // The value type
  // ---------------------------------------------------------------------------

  /** A numerator and a denominator, stored exactly as given. */
  datatype Rational = Rational(numerator: int, denominator: int) {
    /** The one invariant every constructed value keeps. */
    predicate Valid() {
      denominator != 0
    }
  }

  /** Two fractions denote the same rational number: cross-multiplication. */
  ghost predicate SameValue(x: Rational, y: Rational) {
    x.numerator * y.denominator == y.numerator * x.denominator
  }

  /** The textbook sum `a/b + c/d = (a*d + c*b) / (b*d)`, the reference the
      library's addition is checked against. */
  ghost function TextbookSum(x: Rational, y: Rational): Rational {
    Rational(x.numerator * y.denominator + y.numerator * x.denominator,
             x.denominator * y.denominator)
  }

  /** `x` and `y` have the same sign (negative, zero or positive). */
  predicate SameSign(x: int, y: int) {
    (x < 0 <==> y < 0) && (x == 0 <==> y == 0)
  }

  /** The checked constructor: it throws exactly when the denominator is zero
      and otherwise keeps both arguments verbatim, a negative denominator
      included. The one-argument form is `Make(n, 1)`. */
  function Make(numerator: int, denominator: int): (r: Result<Rational>)
    ensures r.Failure? <==> denominator == 0
    ensures r.Failure? ==> r.error == ZeroDenominator
    ensures r.Success? ==> r.value.Valid()
    ensures r.Success? ==> r.value.numerator == numerator && r.value.denominator == denominator
  {
    if denominator == 0 then Failure(ZeroDenominator) else Success(Rational(numerator, denominator))
  }

  /** `operator bool`: true exactly when the value is not zero, which only the
      numerator decides. */
  function IsTrue(r: Rational): (b: bool)
    ensures b <==> !SameValue(r, Rational(0, 1))
  {
    r.numerator != 0
  }

  // ---------------------------------------------------------------------------
  // reduce
  // ---------------------------------------------------------------------------

  /** Both fields divided by their gcd. The gcd is non-negative, so each field
      keeps its own sign: `12/-8` becomes `3/-2`. The result represents the
      same value and cannot be reduced further. */
  function Reduce(r: Rational): (s: Rational)
    requires r.Valid()
    ensures s.Valid()
    ensures SameValue(r, s)
    ensures SameSign(s.numerator, r.numerator) && SameSign(s.denominator, r.denominator)
    ensures r.numerator == s.numerator * Gcd(r.numerator, r.denominator)
    ensures r.denominator == s.denominator * Gcd(r.numerator, r.denominator)
    ensures Gcd(s.numerator, s.denominator) == 1
  {
    var g := Gcd(r.numerator, r.denominator);
    ReduceFacts(r.numerator, r.denominator, g);
    Make(Quot(r.numerator, g), Quot(r.denominator, g)).value
  }

  lemma ReduceFacts(n: int, d: int, g: int)
    requires d != 0 && g == Gcd(n, d)
    ensures g > 0
    ensures Quot(n, g) * g == n && Quot(d, g) * g == d
    ensures Quot(d, g) != 0
    ensures SameSign(Quot(n, g), n) && SameSign(Quot(d, g), d)
    ensures n * Quot(d, g) == Quot(n, g) * d
    ensures Gcd(Quot(n, g), Quot(d, g)) == 1
  {
    var n', d' := Quot(n, g), Quot(d, g);
    GcdIsGcd(n, d);
    QuotExact(n, g);
    QuotExact(d, g);
    PositiveFactorKeepsSign(n', g);
    PositiveFactorKeepsSign(d', g);
    ScaledCross(n', d', g);
    QuotientsCoprime(n, d, g, n', d');
  }

  lemma ScaledCross(x: int, y: int, c: int)
    ensures (x * c) * y == x * (y * c)
  {
  }

  lemma PositiveFactorKeepsSign(x: int, c: int)
    requires c > 0
    ensures SameSign(x * c, x)
  {
    if x > 0 {
      ProductOfPositives(x, c);
    } else if x < 0 {
      ProductOfPositives(-x, c);
      assert x * c == -((-x) * c);
    }
  }

  lemma ProductOfPositives(a: int, b: int)
    requires a > 0 && b > 0
    ensures a * b > 0
  {
  }

  /** Dividing two numbers by their gcd leaves two numbers whose gcd is 1. */
  lemma QuotientsCoprime(n: int, d: int, g: int, n': int, d': int)
    requires g > 0 && IsGcd(g, n, d)
    requires n == n' * g && d == d' * g && d' != 0
    ensures Gcd(n', d') == 1
  {
    DividesTrivially(1, n');
    DividesTrivially(1, d');
    forall c | CommonDivisor(c, n', d')
      ensures Divides(c, 1)
    {
      var kn :| n' == c * kn;
      var kd :| d' == c * kd;
      assert n == (c * g) * kn;
      assert d == (c * g) * kd;
      DividesByWitness(c * g, n, kn);
      DividesByWitness(c * g, d, kd);
      assert CommonDivisor(c * g, n, d);
      var m :| g == (c * g) * m;
      assert (c * m) * g == 1 * g;
      CancelFactor(c * m, 1, g);
      DividesByWitness(c, 1, m);
    }
    assert IsGcd(1, n', d');
    GcdIsGcd(n', d');
    GcdUnique(Gcd(n', d'), 1, n', d');
  }

  /** The in-place `reduce`: the receiver's fields are divided by the gcd the
      loop computes, one after the other. */
  method ReduceInPlace(r: Rational) returns (s: Rational)
    requires r.Valid()
    ensures s == Reduce(r)
  {
    var numerator, denominator := r.numerator, r.denominator;
    var g := GcdLoop(numerator, denominator);
    ReduceFacts(numerator, denominator, g);
    numerator := Quot(numerator, g);
    denominator := Quot(denominator, g);
    s := Rational(numerator, denominator);
  }

  /** Reducing a reduced value changes nothing. */
  lemma ReduceIdempotent(r: Rational)
    requires r.Valid()
    ensures Reduce(Reduce(r)) == Reduce(r)
  {
    var s := Reduce(r);
    QuotOfMultiple(1, s.numerator);
    QuotOfMultiple(1, s.denominator);
  }

  // ---------------------------------------------------------------------------
  // common
  // ---------------------------------------------------------------------------

  /** The factor that takes the receiver's denominator to the lcm of both
      denominators. The division is exact and the factor is never zero. */
  function CommonFactor(r: Rational, other: Rational): (f: int)
    requires r.Valid() && other.Valid()
    ensures f != 0
    ensures r.denominator * f == Lcm(r.denominator, other.denominator)
  {
    var l := Lcm(r.denominator, other.denominator);
    QuotExact(l, r.denominator);
    Quot(l, r.denominator)
  }

  /** The receiver expanded to the common denominator `lcm(d, other.d)`; the
      value it represents is unchanged and `other` is left alone. */
  function Common(r: Rational, other: Rational): (s: Rational)
    requires r.Valid() && other.Valid()
    ensures s.Valid()
    ensures s.denominator == Lcm(r.denominator, other.denominator)
    ensures SameValue(r, s)
  {
    var f := CommonFactor(r, other);
    ScalingKeepsValue(r, f);
    Make(r.numerator * f, r.denominator * f).value
  }

  /** Multiplying both fields by a non-zero factor keeps the value and the
      non-zero denominator. */
  lemma ScalingKeepsValue(r: Rational, f: int)
    requires r.Valid() && f != 0
    ensures r.denominator * f != 0
    ensures SameValue(r, Rational(r.numerator * f, r.denominator * f))
  {
    assert r.numerator * (r.denominator * f) == (r.numerator * f) * r.denominator;
  }

  /** The in-place `common`: both of the receiver's fields are multiplied by
      the common factor. */
  method CommonInPlace(r: Rational, other: Rational) returns (s: Rational)
    requires r.Valid() && other.Valid()
    ensures s == Common(r, other)
  {
    var numerator, denominator := r.numerator, r.denominator;
    var factor := CommonFactor(r, other);
    numerator := numerator * factor;
    denominator := denominator * factor;
    s := Rational(numerator, denominator);
  }

  /** Aligning each operand against the other yields one shared denominator,
      which is why addition may take the left one alone. */
  lemma CommonDenominatorsAgree(lhs: Rational, rhs: Rational)
    requires lhs.Valid() && rhs.Valid()
    ensures Common(lhs, rhs).denominator == Common(rhs, lhs).denominator
  {
    LcmSymmetric(lhs.denominator, rhs.denominator);
  }

  // ---------------------------------------------------------------------------
  // expand
  // ---------------------------------------------------------------------------

  /** Both fields multiplied by `factor`; a zero factor is a domain error. */
  function Expand(r: Rational, factor: int): (res: Result<Rational>)
    requires r.Valid()
    ensures res.Failure? <==> factor == 0
    ensures res.Failure? ==> res.error == ZeroExpansion
    ensures res.Success? ==> res.value.Valid() && SameValue(r, res.value)
    ensures res.Success? ==>
              res.value.numerator == r.numerator * factor && res.value.denominator == r.denominator * factor
  {
    if factor == 0 then
      Failure(ZeroExpansion)
    else
      ScalingKeepsValue(r, factor);
      Make(r.numerator * factor, r.denominator * factor)
  }

  /** The in-place `expand`: the factor is checked before either field is
      touched, so a failing call leaves the receiver as it was. */
  method ExpandInPlace(r: Rational, factor: int) returns (res: Result<Rational>)
    requires r.Valid()
    ensures res == Expand(r, factor)
  {
    if factor == 0 {
      return Failure(ZeroExpansion);
    }
    var numerator, denominator := r.numerator, r.denominator;
    numerator := numerator * factor;
    denominator := denominator * factor;
    res := Success(Rational(numerator, denominator));
  }

  // ---------------------------------------------------------------------------
  // gcd of two rationals, addition
  // ---------------------------------------------------------------------------

  /** The gcd of two rationals: the gcd of the numerators over the lcm of the
      denominators. Both denominators are non-zero, so the lcm is too and the
      checked construction cannot fail. */
  function RationalGcd(lhs: Rational, rhs: Rational): (r: Rational)
    requires lhs.Valid() && rhs.Valid()
    ensures r.Valid()
    ensures IsGcd(r.numerator, lhs.numerator, rhs.numerator)
    ensures Divides(lhs.denominator, r.denominator) && Divides(rhs.denominator, r.denominator)
    ensures r.denominator * Gcd(lhs.denominator, rhs.denominator) == lhs.denominator * rhs.denominator
  {
    GcdIsGcd(lhs.numerator, rhs.numerator);
    Make(Gcd(lhs.numerator, rhs.numerator), Lcm(lhs.denominator, rhs.denominator)).value
  }

  /** `lhs + rhs`: both operands aligned to the common denominator, numerators
      added. The result has the textbook sum's value but is not reduced. */
  function Add(lhs: Rational, rhs: Rational): (r: Rational)
    requires lhs.Valid() && rhs.Valid()
    ensures r.Valid()
    ensures r.denominator == Lcm(lhs.denominator, rhs.denominator)
    ensures SameValue(r, TextbookSum(lhs, rhs))
  {
    var cl := Common(lhs, rhs);
    var cr := Common(rhs, lhs);
    CommonDenominatorsAgree(lhs, rhs);
    AlignedSumValue(lhs, rhs, cl, cr);
    Make(cl.numerator + cr.numerator, cl.denominator).value
  }

  /** Adding the numerators of two aligned fractions adds the values. */
  lemma AlignedSumValue(x: Rational, y: Rational, cx: Rational, cy: Rational)
    requires x.Valid() && y.Valid()
    requires cx.denominator == cy.denominator
    requires SameValue(x, cx) && SameValue(y, cy)
    ensures SameValue(Rational(cx.numerator + cy.numerator, cx.denominator), TextbookSum(x, y))
  {
    var l := cx.denominator;
    var n1, d1, n2, d2 := x.numerator, x.denominator, y.numerator, y.denominator;
    assert n1 * l == cx.numerator * d1;
    assert n2 * l == cy.numerator * d2;
    calc {
      (cx.numerator + cy.numerator) * (d1 * d2);
      (cx.numerator * d1) * d2 + (cy.numerator * d2) * d1;
      (n1 * l) * d2 + (n2 * l) * d1;
      (n1 * d2 + n2 * d1) * l;
    }
  }

  /** Addition does not depend on the order of its operands, field by field. */
  lemma AddCommutative(lhs: Rational, rhs: Rational)
    requires lhs.Valid() && rhs.Valid()
    ensures Add(lhs, rhs) == Add(rhs, lhs)
  {
    CommonDenominatorsAgree(lhs, rhs);
  }

  /** Adding `0/1` gives back the other operand verbatim, unreduced and with
      its sign placement untouched. */
  lemma AddZero(r: Rational)
    requires r.Valid()
    ensures Add(r, Rational(0, 1)) == r
  {
    var d := r.denominator;
    GcdWithOne(d);
    GcdSymmetric(d, 1);
    QuotOfMultiple(1, d);
    assert Lcm(d, 1) == d;
    QuotOfMultiple(d, 1);
    assert CommonFactor(r, Rational(0, 1)) == 1;
    assert Lcm(1, d) == d;
    assert CommonFactor(Rational(0, 1), r) == d;
  }

  lemma GcdWithOne(d: int)
    ensures Gcd(d, 1) == 1
  {
    DividesTrivially(d, d);
    DividesTrivially(1, d);
    forall c | CommonDivisor(c, d, 1)
      ensures Divides(c, 1)
    {
    }
    GcdIsGcd(d, 1);
    GcdUnique(Gcd(d, 1), 1, d, 1);
  }

  /** Reducing an expansion undoes it: by a positive factor the reduced form of
      the original comes back; by a negative one it comes back with both signs
      flipped, since reduction never normalises signs. */
  lemma ReduceAfterExpand(r: Rational, k: int)
    requires r.Valid() && k != 0
    ensures Expand(r, k).Success?
    ensures k > 0 ==> Reduce(Expand(r, k).value) == Reduce(r)
    ensures k < 0 ==>
              Reduce(Expand(r, k).value) == Rational(-Reduce(r).numerator, -Reduce(r).denominator)
  {
    var n, d := r.numerator, r.denominator;
    var g := Gcd(n, d);
    var s := Reduce(r);
    var e := Expand(r, k).value;
    assert e == Rational(n * k, d * k);
    ScalingKeepsValue(r, k);
    GcdScaled(n, d, k);
    assert Gcd(e.numerator, e.denominator) == Abs(k) * g;
    QuotOfScaled(n, s.numerator, g, k);
    QuotOfScaled(d, s.denominator, g, k);
  }

  /** Dividing `x * k` by `|k| * g`, where `x == y * g`, gives `y` with the
      sign of `k`. */
  lemma QuotOfScaled(x: int, y: int, g: int, k: int)
    requires g > 0 && k != 0 && x == y * g
    ensures Quot(x * k, Abs(k) * g) == (if k > 0 then y else -y)
  {
    var sign := if k > 0 then 1 else -1;
    assert k == sign * Abs(k);
    assert x * k == (Abs(k) * g) * (sign * y) by {
      ScaledCross(y, sign * Abs(k), g);
    }
    ProductOfPositives(Abs(k), g);
    QuotOfMultiple(Abs(k) * g, sign * y);
  }

  // ---------------------------------------------------------------------------
  // The library's own examples
  // ---------------------------------------------------------------------------

  /** Construction stores the arguments as given and rejects a zero denominator. */
  lemma ConstructionExamples()
    ensures Make(1, 1) == Success(Rational(1, 1))
    ensures Make(-8, 1) == Success(Rational(-8, 1))
    ensures Make(3, 9) == Success(Rational(3, 9))
    ensures Make(-12, 7) == Success(Rational(-12, 7))
    ensures Make(9, -5) == Success(Rational(9, -5))
    ensures Make(1, 0) == Failure(ZeroDenominator)
  {
  }

  /** Reduction divides by the gcd and keeps each field's sign. */
  lemma ReduceExamples()
    ensures Reduce(Rational(5, 13)) == Rational(5, 13)
    ensures Reduce(Rational(6, 14)) == Rational(3, 7)
    ensures Reduce(Rational(-5, 13)) == Rational(-5, 13)
    ensures Reduce(Rational(-6, 14)) == Rational(-3, 7)
    ensures Reduce(Rational(7, -15)) == Rational(7, -15)
    ensures Reduce(Rational(12, -8)) == Rational(3, -2)
  {
    assert Gcd(5, 13) == 1;
    assert Gcd(6, 14) == 2;
    assert Gcd(-5, 13) == 1;
    assert Gcd(-6, 14) == 2;
    assert Gcd(7, -15) == 1;
    assert Gcd(12, -8) == 4;
  }

  /** Sums of operands with one denominator keep it and are not reduced. */
  lemma AddExamplesSameDenominator()
    ensures Add(Rational(1, 4), Rational(1, 4)) == Rational(2, 4)
    ensures Add(Rational(3, 5), Rational(-1, 5)) == Rational(2, 5)
    ensures Add(Rational(-3, 4), Rational(1, 4)) == Rational(-2, 4)
    ensures Add(Rational(-9, 23), Rational(-7, 23)) == Rational(-16, 23)
  {
    assert Lcm(4, 4) == 4;
    assert Lcm(5, 5) == 5;
    assert Lcm(23, 23) == 23;
  }

  /** Sums of operands with different denominators take the lcm of the two. */
  lemma AddExamplesDifferentDenominators()
    ensures Add(Rational(1, 4), Rational(1, 8)) == Rational(3, 8)
    ensures Add(Rational(3, 7), Rational(-1, 9)) == Rational(20, 63)
    ensures Add(Rational(-3, 4), Rational(1, 2)) == Rational(-1, 4)
    ensures Add(Rational(-9, 2), Rational(-7, 8)) == Rational(-43, 8)
  {
    assert Lcm(4, 8) == 8;
    assert Lcm(7, 9) == 63;
    assert Lcm(4, 2) == 4;
    assert Lcm(2, 8) == 8;
  }
}
