# cpa rationals in Dafny

A model of the numeric core of the `cpa` C++ library: the integer primitives
`abs`, `gcd` and `lcm` (`include/numeric.h`) and the rational value type
`basic_rational` (`include/rational.h`) instantiated with its public
representation, `std::intmax_t`, modelled as Dafny's unbounded `int`.

- `numeric.dfy`, module `Numeric`: `Abs`; `Quot`, the C++ integer division
  (truncation toward zero), which Dafny's Euclidean `/` is not; the Euclidean
  loop as the recursive function `EuclidLoop` and as the while-loop method
  `GcdLoop`; the function `Gcd` with the zero-zero short-circuit; `Lcm`
  computed as `(lhs / gcd) * rhs`. The contracts are stated against an
  independent definition of divisibility (`Divides`) and of the greatest
  common divisor (`IsGcd`: a non-negative common divisor that every common
  divisor divides).
- `rational.dfy`, module `Rationals`: the `Rational(numerator, denominator)`
  datatype, whose fields are the accessors and whose only invariant is
  `Valid()` (a non-zero denominator); `Make`, the checked constructor, with
  the thrown `std::domain_error` modelled as `Result.Failure`; `IsTrue`
  (`operator bool`); `Reduce`, `Common` and `Expand` in pure and in-place
  forms; the rational `RationalGcd`; `Add` (`operator+`). Equality of value
  is `SameValue`, cross-multiplication; the sum is checked against
  `TextbookSum`, `a/b + c/d = (a*d + c*b)/(b*d)`.

Values are never sign-normalised and never reduced automatically, and the
model keeps that: `Reduce(12/-8)` is `3/-2`, `1/4 + 1/4` is `2/4`.

The in-place forms (`ReduceInPlace`, `CommonInPlace`, `ExpandInPlace`) are
methods that take the receiver's fields and return the fields the receiver
holds after the call, performing the same field assignments as the source;
the reference the C++ returns is the receiver itself. The pure forms build
their result through the checked constructor, as the source does, and their
proofs show that this construction never fails. The in-place `reduce` uses
the loop method `GcdLoop`, the pure one the function `Gcd`; each in-place
form is proved to give exactly the fields of its pure form.

The pure `common` in `include/rational.h` is declared with a template
parameter `OtherRep` that no argument mentions, so it cannot be deduced and
`operator+`, which calls `common` on const operands, would not compile as
written. The model treats it as the ordinary pure function the rest of the
code evidently expects, taking a rational of the same representation.

The doc comment of the defaulted constructor says it represents 0, but it is
`= default` and the fields have no initialisers, so it leaves both fields
uninitialised; the model follows the code and does not include it.

## Model

| member | source | states |
|---|---|---|
| Numeric.Abs | include/numeric.h:28-37 | the result is non-negative and is either the argument or its negation |
| Numeric.Quot | include/rational.h:120-122 | C++ division: the remainder is smaller than the divisor in magnitude and never has the sign opposite to the dividend (truncation toward zero) |
| Numeric.QuotExact | include/rational.h:120-122 | when the divisor divides the dividend, the C++ quotient times the divisor gives back the dividend |
| Numeric.EuclidLoop | include/numeric.h:59-71 | the survivor the loop returns is positive and no larger than either non-zero operand |
| Numeric.EuclidLoopIsGcd | include/numeric.h:59-71 | the loop on two non-negative values ends with their greatest common divisor: a non-negative common divisor that every common divisor divides |
| Numeric.Gcd | include/numeric.h:46-72 | `gcd` is zero exactly when both operands are zero, and otherwise no larger than either non-zero operand in magnitude |
| Numeric.GcdIsGcd | include/numeric.h:46-72 | `gcd(a, b)` divides both `a` and `b`, is non-negative, and every common divisor of `a` and `b` divides it |
| Numeric.GcdLoop | include/numeric.h:46-72 | the while loop as written returns the same value as `Gcd`, hence the greatest common divisor; its invariant is that the gcd of `left` and `right` never changes, and `left + right` decreases |
| Numeric.GcdRemainderStep | include/numeric.h:61-64 | reducing the larger operand modulo the smaller one leaves the gcd of the pair unchanged |
| Numeric.GcdSymmetric | include/numeric.h:61-68 | the gcd does not depend on the order of the operands, which lets the `right %= left` branch reuse the step above |
| Numeric.GcdOfZeros | include/numeric.h:51-54 | `gcd(0, 0)` is 0 |
| Numeric.GcdWithZero | include/numeric.h:59-71 | `gcd(a, 0)` and `gcd(0, a)` are `|a|` |
| Numeric.GcdSignInvariant | include/numeric.h:56-57 | `gcd(a,b) == gcd(-a,b) == gcd(a,-b) == gcd(-a,-b)` |
| Numeric.GcdPositive | include/numeric.h:59-71 | the gcd is positive unless both operands are zero |
| Numeric.GcdScaled | include/numeric.h:46-72 | multiplying both operands by a non-zero `k` multiplies the gcd by `|k|` |
| Numeric.Lcm | include/numeric.h:81-85 | the result is a multiple of both operands, times their gcd it equals their product, and it is zero exactly when one operand is zero |
| Numeric.LcmDivisionExact | include/numeric.h:84 | the division `lhs / gcd(lhs, rhs)` is exact |
| Numeric.LcmSymmetric | include/numeric.h:84 | although it divides the left operand and multiplies by the right one, `lcm(a, b) == lcm(b, a)` |
| Numeric.NumericExamples | test/cpa_numeric_test.cpp:11-89 | the library's integer examples for `abs` and `gcd`, e.g. `gcd(12, -144) == 12`, `gcd(-20, -30) == 10` |
| Rationals.Make | include/rational.h:80-88 | construction fails with the domain error exactly when the denominator is zero; otherwise both arguments are stored verbatim, a negative denominator included |
| Rationals.ConstructionExamples | test/cpa_rational_test.cpp:11-40 | `9/-5` stays `9/-5`, `-8` becomes `-8/1`, `1/0` is a domain error |
| Rationals.IsTrue | include/rational.h:96-99 | the rational is truthy exactly when it does not represent zero, which only the numerator decides |
| Rationals.Reduce | include/rational.h:118-125 | the result is valid, has the same value, keeps the sign of each field separately, times the gcd gives back each original field, and has gcd 1 |
| Rationals.ReduceInPlace | include/rational.h:130-137 | the in-place reduction, using the loop, leaves exactly the fields of the pure reduction |
| Rationals.ReduceIdempotent | include/rational.h:118-125 | reducing a reduced value changes nothing |
| Rationals.ReduceExamples | test/cpa_rational_test.cpp:42-94 | e.g. `6/14` reduces to `3/7` and `12/-8` to `3/-2` |
| Rationals.CommonFactor | include/rational.h:146 | the factor `lcm(d, od) / d` is exact and non-zero: `d` times it is the lcm |
| Rationals.Common | include/rational.h:143-151 | the result is valid, has the same value, and its denominator is `lcm(d, od)` |
| Rationals.CommonInPlace | include/rational.h:156-163 | the in-place form leaves exactly the fields of the pure form |
| Rationals.CommonDenominatorsAgree | include/rational.h:257-260 | `lhs.common(rhs)` and `rhs.common(lhs)` have the same denominator |
| Rationals.Expand | include/rational.h:175-183 | a zero factor is the domain error; any other factor scales both fields by it, keeping the value and a non-zero denominator |
| Rationals.ExpandInPlace | include/rational.h:194-205 | the in-place form fails exactly as the pure form does, before touching a field, and otherwise leaves the same fields |
| Rationals.ReduceAfterExpand | include/rational.h:175-183 | reducing an expansion by `k > 0` gives the reduction of the original; by `k < 0`, that reduction with both signs flipped |
| Rationals.RationalGcd | include/rational.h:241-246 | the numerator is the gcd of the numerators; the denominator is a non-zero common multiple of both denominators that times their gcd equals their product, so construction never fails |
| Rationals.Add | include/rational.h:254-261 | the sum is valid, its denominator is the lcm of the denominators, and it has the value of the textbook sum |
| Rationals.AddCommutative | include/rational.h:254-261 | `lhs + rhs` and `rhs + lhs` have identical fields |
| Rationals.AddZero | include/rational.h:254-261 | `r + 0/1` returns `r` field for field, unreduced |
| Rationals.AddExamplesSameDenominator | test/cpa_rational_test.cpp:96-134 | e.g. `1/4 + 1/4 == 2/4`: the shared denominator is kept and the sum is not reduced |
| Rationals.AddExamplesDifferentDenominators | test/cpa_rational_test.cpp:136-174 | e.g. `3/7 + -1/9 == 20/63` and `-3/4 + 1/2 == -1/4`: the denominator is the lcm of the two |

## Left out

- `operator long double` (include/rational.h:110-113) and `abs` on floating-point values: floating point is not modelled.
- Integer overflow: `int` is unbounded, so the undefined behaviour of `intmax_t` overflow in `common`, `expand`, addition and `abs` of the most negative value is not modelled.
- The unsigned branch of `abs`: with a signed representation the negation branch is the one that applies, and unsigned representations are not modelled.
- The compile-time capability checks (`is_negatable`, `is_lessthan_comparable`, `std::common_type`) in include/type_traits.h: they decide which types may be used and have no run-time behaviour; the model fixes the representation to `int`.
- The converting constructor from another representation and the defaulted constructor: the first is a type-conversion concern, the second leaves the fields uninitialised.
- The copy constructor and the accessors `numerator()` and `denominator()`: a datatype value is copied by value and its fields are the accessors.
- `lcm` of two zeros: `Lcm` requires that not both operands are zero; for two zeros the source divides by zero, which it leaves undefined.
- Mutation through references: the in-place forms return the receiver's new fields instead of mutating shared state, so aliasing and data races between threads are not modelled.
- The test runner and its XML output.
