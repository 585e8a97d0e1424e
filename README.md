# xpolynomial in Dafny

A model of the core of the xpolynomial library: single-variable polynomials
with real coefficients, and the algorithms built on them. The model covers:

- the polynomial value type and its mutable wrapper;
- Euclid's gcd and the extended gcd;
- square-free testing and Yun's decomposition;
- the Sturm-sequence root counter, root isolation and `find_roots`;
- the bisection and Newton–Raphson refiners;
- the two interval types and the numeric utilities;
- the infix polynomial parser: scanner, sign rewriting, shunting-yard and the RPN evaluator;
- Lagrange interpolation;
- the Chebyshev and Legendre generators with their caches;
- the row-major matrix;
- complex polynomials split into real and imaginary parts.

A polynomial (`Polynomials.Poly`) is its coefficient sequence. Entry i is the
coefficient of X^i, and the sequence is kept trimmed: no trailing zero, and
the zero polynomial is `[0.0]`. The header's doc comment calls the order
"descending", but the library's tests build X^2 from `{0, 0, 1}`. The model
follows the tests and uses ascending order.

Coefficients are exact Dafny `real`s. The library compares doubles within a
tolerance (1e-5 for polynomials and matrices, 1e-9 for intervals). The model uses exact equality wherever the library uses
that tolerance only to absorb rounding. Where behaviour branches on it, the
tolerance is an explicit parameter or constant: `nearly_zero`,
`sign_changes`, `is_symmetrical`, the root finders and `is_degenerate`.

Several headers declare their operations and take the bodies from `.tpp`
files, which are not part of this model. For those operations the contracts
follow the header's documentation and the library's tests.
`polynomial_parser.h`, `interval.h`, `real_interval.h`, `utils.h` and the
inline parts of `matrix.h` and `complex_polynomial.h` show their code, and
there the model follows the code's branches. Where that code has undefined
behaviour or ends the program, the model picks a defined outcome, and
the list of what is left out at the end names each such place.

Where the documentation and the code disagree, the model follows the code:

- The default `interval()` is documented as "the closed interval [0, 1]".
  It delegates to the two-argument constructor, whose default bounds make
  it (0, 1]. `Intervals.Default` is (0, 1].

Where a body lives in a `.tpp` file and the header's declaration or
documentation disagrees with the library's tests, the model follows the
tests:

- `root_finder.h` declares `bisection` as returning a plain value, while the
  tests use an optional. `RootFinder.Bisection` returns an `Option`.
- `yun_algorithm` is declared to return a plain sequence. The tests expect no
  result for a polynomial that is neither square-free nor integral, so
  `SquareFree.Yun` returns an `Option`.
- `operator+` and `operator-` with a scalar are documented as adding the
  scalar to, or subtracting it from, each coefficient (include/polynomial.h:141-158).
  The tests (test/polynomial_tests.cpp:179-196) expect only the constant term
  to change. `Polynomials.AddScalar` and `Polynomials.SubScalar` follow the tests.

Modules, one per header:

- `Coefficients` in coefficients.dfy: coefficient-sequence helpers used by `polynomial.h`
- `Polynomials` in polynomial.dfy: include/polynomial.h
- `Utils` in utils.dfy: include/utils.h
- `Euclidean` in euclidean.dfy: include/euclidean_algorithm.h
- `SquareFree` in square_free.dfy: include/square_free_decomposition.h
- `Intervals` in interval.dfy: include/interval.h
- `RealIntervals` in real_interval.dfy: include/real_interval.h
- `RootFinder` in root_finder.dfy: include/root_finder.h
- `RealRootFinder` in real_root_finder.dfy: include/real_polynomial_root_finder.h
- `Scanner`, `Parser` in scanner.dfy, parser.dfy: include/polynomial_parser.h
- `Interpolation` in interpolation.dfy: include/polynomial_interpolation.h
- `Chebyshev` in chebyshev.dfy: include/chebyshev_polynomial.h
- `Legendre` in legendre.dfy: include/legendre_polynomial.h
- `Matrices` in matrix.dfy: include/matrix.h
- `ComplexPolynomials` in complex_polynomial.dfy: include/complex_polynomial.h

## Model

| member | source | states |
|---|---|---|
| Polynomials.FromCoefficients | include/polynomial.h:33-39 | the coefficient-list constructor keeps every listed coefficient at its power and drops trailing zeros |
| Polynomials.Ext | include/polynomial.h:127-130 | two polynomials with equal coefficients at every power are the same value (equality ignores trailing zeros) |
| Polynomials.Zero | include/polynomial.h:89-91 | `zero()` has every coefficient zero |
| Polynomials.One | include/polynomial.h:93-95 | `one()` has constant term one and no other term |
| Polynomials.Constant | include/polynomial.h:142-145 | the constant polynomial c, the polynomial a scalar stands for in the mixed operators |
| Polynomials.X | include/polynomial.h:97-101 | `monomial(1, 1)`: the single coefficient one at X^1 |
| Polynomials.Coefficient | include/polynomial.h:117-120 | the coefficient of X^i, zero past the stored coefficients |
| Polynomials.Degree | include/polynomial.h:72-74 | `degree()`: the power of the last stored coefficient; LeadingCoefficientFacts states that every higher coefficient is zero |
| Polynomials.LeadingCoefficient | include/polynomial.h:76-78 | the last stored coefficient; LeadingCoefficientFacts states that it is the coefficient at the degree |
| Polynomials.IsZero | include/polynomial.h:48-50 | `is_zero`: the polynomial is the single coefficient 0; ZeroIffAllCoefficientsZero states that this means every coefficient is zero |
| Polynomials.IsOne | include/polynomial.h:52-54 | `is_one`: the polynomial is the single coefficient 1 |
| Polynomials.IsConstant | include/polynomial.h:56-58 | `is_constant`: degree 0 |
| Polynomials.IsLinear | include/polynomial.h:60-62 | `is_linear`: degree at most 1 |
| Polynomials.IsQuadratic | include/polynomial.h:64-66 | `is_quadratic`: degree 2 |
| Polynomials.IsCubic | include/polynomial.h:68-70 | `is_cubic`: degree 3 |
| Polynomials.Evaluate | include/polynomial.h:84-87 | `evaluate` by Horner's scheme; EvaluateIsPowerSum states that it is the sum of c_i * x^i |
| Polynomials.ZeroIffAllCoefficientsZero | include/polynomial.h:48-50 | `is_zero` holds exactly when every coefficient is zero |
| Polynomials.LeadingCoefficientFacts | include/polynomial.h:72-78 | the leading coefficient is the coefficient at the degree, every higher one is zero, and it is zero only for the zero polynomial |
| Polynomials.Equals | include/polynomial.h:127-135 | `==` holds exactly when all coefficients agree, and `!=` is its negation |
| Polynomials.Distinct | include/polynomial.h:132-135 | different polynomials differ in some coefficient |
| Polynomials.EvaluateIsPowerSum | include/polynomial.h:84-87 | `evaluate` by Horner's scheme equals the sum of c_i * x^i |
| Polynomials.Add | include/polynomial.h:190-194 | `p + q` adds coefficient by coefficient |
| Polynomials.Sub | include/polynomial.h:196-200 | `p - q` subtracts coefficient by coefficient |
| Polynomials.Mul | include/polynomial.h:202-206 | `p * q`: the trimmed convolution of the coefficient lists; MulEval and MulDegree state what it means |
| Polynomials.Neg | include/polynomial.h:161-163 | unary `-` negates every coefficient |
| Polynomials.Plus | include/polynomial.h:147-149 | unary `+` gives a polynomial equal to the operand |
| Polynomials.AddEval | include/polynomial.h:190-194 | the value of p + q is the sum of the values |
| Polynomials.SubEval | include/polynomial.h:196-200 | the value of p - q is the difference of the values |
| Polynomials.NegEval | include/polynomial.h:161-163 | the value of -p is minus the value of p |
| Polynomials.MulEval | include/polynomial.h:202-206 | the value of p * q is the product of the values |
| Polynomials.MulDegree | include/polynomial.h:202-206 | degrees add and leading coefficients multiply under `*`, and a product is zero exactly when a factor is |
| Polynomials.AddComm | include/polynomial.h:190-194 | addition is commutative |
| Polynomials.AddAssoc | include/polynomial.h:190-194 | addition is associative |
| Polynomials.AddZero | include/polynomial.h:190-194 | zero is neutral for addition on both sides |
| Polynomials.SubAddCancel | include/polynomial.h:196-200 | subtracting q undoes adding q and the reverse, and p - p is zero |
| Polynomials.NegInvolution | include/polynomial.h:161-163 | negating twice gives p back, and p + (-p) is zero |
| Polynomials.MulComm | include/polynomial.h:202-206 | multiplication is commutative |
| Polynomials.MulAssoc | include/polynomial.h:202-206 | multiplication is associative |
| Polynomials.MulAddRight | include/polynomial.h:202-206 | multiplication distributes over addition on the right |
| Polynomials.MulAddLeft | include/polynomial.h:202-206 | multiplication distributes over addition on the left |
| Polynomials.MulSubRight | include/polynomial.h:202-206 | multiplication distributes over subtraction |
| Polynomials.MulOne | include/polynomial.h:202-206 | one is neutral for multiplication on both sides |
| Polynomials.MulZero | include/polynomial.h:202-206 | zero absorbs multiplication on both sides |
| Polynomials.AddScalar | include/polynomial.h:142-145 | `p + s` changes only the constant term, by s |
| Polynomials.SubScalar | include/polynomial.h:156-159 | `p - s` changes only the constant term, by -s |
| Polynomials.MulScalar | include/polynomial.h:170-173 | `p * s` multiplies every coefficient by s |
| Polynomials.MulScalarOne | include/polynomial.h:170-173 | scaling by one leaves p unchanged |
| Polynomials.DivScalar | include/polynomial.h:180-183 | `p / s` divides every coefficient by s |
| Polynomials.ConstantEval | include/polynomial.h:142-145 | a constant polynomial evaluates to its constant everywhere |
| Polynomials.AddScalarEval | include/polynomial.h:142-145 | the value of p + s is the value of p plus s |
| Polynomials.SubScalarEval | include/polynomial.h:156-159 | the value of p - s is the value of p minus s |
| Polynomials.MulScalarEval | include/polynomial.h:170-173 | the value of p * s is s times the value of p |
| Polynomials.MulScalarIsMulConstant | include/polynomial.h:170-173 | scaling by s is multiplication by the constant polynomial s |
| Polynomials.DivScalarInverse | include/polynomial.h:180-183 | dividing by s undoes multiplying by s |
| Polynomials.Monomial | include/polynomial.h:97-101 | `monomial(degree, c)` has c at X^degree and zero elsewhere |
| Polynomials.MonomialDegree | include/polynomial.h:97-101 | a monomial with a non-zero coefficient has exactly that degree and leading coefficient; with zero it is the zero polynomial |
| Polynomials.LeadingTermCancels | include/polynomial.h:250-255 | one long-division step, subtracting d times the quotient of the leading terms, lowers the degree or reaches zero |
| Polynomials.Divide | include/polynomial.h:250-255 | `divide(d)` returns (q, r) with p == d*q + r and r zero or of lower degree than d |
| Polynomials.Quotient | include/polynomial.h:223-226 | `/` returns a q for which some remainder of lower degree completes the division law |
| Polynomials.Remainder | include/polynomial.h:233-236 | `%` returns an r of lower degree than d that completes the division law with some quotient |
| Polynomials.DivideUnique | include/polynomial.h:250-255 | any pair satisfying the division law with a small remainder is the one `divide` returns |
| Polynomials.Derive | include/polynomial.h:267-269 | `derive` maps a_k X^k to k a_k X^(k-1) |
| Polynomials.Integrate | include/polynomial.h:271-273 | `integrate` has constant term zero and maps a_k X^k to a_k/(k+1) X^(k+1) |
| Polynomials.DeriveIntegrate | include/polynomial.h:267-273 | differentiating the integral gives the polynomial back |
| Polynomials.IntegrateAsTested | test/polynomial_tests.cpp:311-316 | the behaviour the test asserts: the constant term is dropped as well |
| Polynomials.IntegrateAsTestedLosesConstant | test/polynomial_tests.cpp:311-316 | under the tested behaviour the integral of one is zero, so its derivative is not one |
| Polynomials.IntegrateDerive | include/polynomial.h:267-273 | integrating the derivative gives p without its constant term |
| Polynomials.DeriveDegree | include/polynomial.h:267-269 | the derivative of a constant (zero included) is zero; otherwise its degree drops by one and its leading coefficient is n times p's |
| Polynomials.DeriveAdd | include/polynomial.h:267-269 | differentiation is additive |
| Polynomials.PowEval | include/polynomial.h:262-265 | the value of `pow(n)` is the n-th power of the value |
| Polynomials.PowAdd | include/polynomial.h:262-265 | p^(m+n) == p^m * p^n |
| Polynomials.PowDegree | include/polynomial.h:262-265 | a power of a non-zero p is non-zero with n times its degree, and `pow(1)` is p |
| Polynomials.Pow | include/polynomial.h:262-265 | `pow(n)`: the n-fold product, one for n = 0 |
| Polynomials.Compose | include/polynomial.h:257-260 | `compose(q)`: Horner's scheme over polynomials; ComposeEval states that it is p(q(X)) |
| Polynomials.ComposeEval | include/polynomial.h:257-260 | the value of `compose(q)` at x is p at q(x) |
| Polynomials.ComposeX | include/polynomial.h:257-260 | composing with X gives p back |
| Polynomials.ThreeTermEval | include/polynomial.h:202-206 | the value of alpha X a - beta b at x is alpha x a(x) - beta b(x) |
| Polynomials.ThreeTermIsPolynomialExpression | include/polynomial.h:202-206 | the three-term step is alpha X a - beta b written with the polynomial operators |
| Polynomials.ScaledShiftIsMulX | include/polynomial.h:202-206 | shifting the coefficients up one power and scaling by c is `(X * p) * c` |
| Polynomials.MulLinearCoefficient | include/polynomial.h:202-206 | coefficient i of (c0 + c1 X) * t is c0 t_i + c1 t_(i-1) |
| Polynomials.LinearDivision | include/polynomial.h:250-255 | a = b (c0 + c1 X) + r with r below b's degree makes `divide` return that quotient and remainder |
| Polynomials.Normalize | include/polynomial.h:108-110 | `normalize` keeps the degree, makes p monic, and scaling back by the leading coefficient restores p; zero stays zero |
| Polynomials.LinearFactor | include/polynomial.h:103-106 | X - r is monic of degree one |
| Polynomials.FromRoots | include/polynomial.h:103-106 | `from_roots(rs)` is monic of degree \|rs\|, and one for no roots |
| Polynomials.FromRootsRoots | include/polynomial.h:103-106 | x is a root of `from_roots(rs)` exactly when x is listed in rs |
| Polynomials.FromRootsHasRoots | include/polynomial.h:275-283 | `has_roots` holds for `from_roots(rs)` and rs |
| Polynomials.HasRoot | include/polynomial.h:275-278 | `has_root(x)`: p vanishes at x |
| Polynomials.HasRoots | include/polynomial.h:280-283 | `has_roots(xs)`: p vanishes at every listed value |
| Polynomials.Polynomial.Value | include/polynomial.h:80-82 | the polynomial the stored vector stands for, read coefficient by coefficient |
| Polynomials.Polynomial.constructor | include/polynomial.h:33-39 | the coefficient-list constructor stores the trimmed list |
| Polynomials.Polynomial.OfDegree | include/polynomial.h:285-287 | the private degree constructor stores degree + 1 zeros |
| Polynomials.Polynomial.Get | include/polynomial.h:117-120 | the const `operator[]` returns the coefficient, zero past the degree |
| Polynomials.Polynomial.Set | include/polynomial.h:122-125 | the mutable `operator[]` writes one stored coefficient and leaves every other one unchanged |
| Polynomials.Polynomial.TrimCoefficients | include/polynomial.h:289-290 | `trim_coefficients` drops trailing zeros without changing the value |
| Polynomials.Polynomial.AddAssign | include/polynomial.h:208-211 | `+=` leaves the trimmed sum in place |
| Polynomials.Polynomial.SubAssign | include/polynomial.h:213-216 | `-=` leaves the trimmed difference in place |
| Polynomials.Polynomial.MulAssign | include/polynomial.h:218-221 | `*=` leaves the trimmed product in place |
| Polynomials.Polynomial.DivAssign | include/polynomial.h:228-231 | `/=` leaves the quotient in place |
| Polynomials.Polynomial.RemAssign | include/polynomial.h:238-241 | `%=` leaves the remainder in place |
| Polynomials.Polynomial.AddScalarAssign | include/polynomial.h:151-154 | `+= s` leaves p + s in place |
| Polynomials.Polynomial.SubScalarAssign | include/polynomial.h:165-168 | `-= s` leaves p - s in place |
| Polynomials.Polynomial.MulScalarAssign | include/polynomial.h:175-178 | `*= s` leaves p * s in place |
| Polynomials.Polynomial.DivScalarAssign | include/polynomial.h:185-188 | `/= s` leaves p / s in place |
| Utils.NearlyZeroBand | include/utils.h:34-37 | `nearly_zero(a, tol)` holds exactly for -tol < a < tol, strictly |
| Utils.NearlyEqualSymmetric | include/utils.h:39-42 | `nearly_equal` is symmetric, and a value is nearly equal to itself exactly when tol > 0 |
| Utils.CRem | include/utils.h:44-50 | C++'s truncating `%`: the remainder takes the sign of the dividend |
| Utils.IsEvenCorrect | include/utils.h:44-46 | `is_even` is mathematical evenness for every integer, negative ones included |
| Utils.IsOddAsWrittenMissesNegatives | include/utils.h:48-50 | as written, `is_odd` holds only for non-negative odd numbers; -3 is neither even nor odd |
| Utils.IsOddCorrect | include/utils.h:48-50 | the corrected `is_odd` is exactly "not even" |
| Utils.Changes | include/utils.h:56-79 | a sequence of length n has at most n - 1 sign changes |
| Utils.SignChanges | include/utils.h:56-79 | the loop counts the sign changes of the entries it keeps, the first one always and later ones not nearly zero; 0 for length <= 1 and at most size - 1 |
| Utils.SignChangesNonZero | include/utils.h:56-79 | the loop with the first entry skipped like the others when it is nearly zero counts the changes among the entries not nearly zero |
| Utils.SignChangesAsWrittenNotSymmetric | include/utils.h:65 | as written, [0, -1] has one change and its negation none |
| Utils.SignChangesNonZeroSymmetric | include/utils.h:56-79 | skipping every nearly-zero entry makes the count the same for s and -s |
| Utils.ChangesNegate | include/utils.h:56-79 | negating entries outside the tolerance band keeps the number of changes |
| Euclidean.DividesSelf | include/euclidean_algorithm.h:19-25 | every polynomial divides itself |
| Euclidean.DividesZero | include/euclidean_algorithm.h:19-25 | every polynomial divides zero |
| Euclidean.ZeroDivides | include/euclidean_algorithm.h:19-25 | only zero is a multiple of zero |
| Euclidean.DividesTrans | include/euclidean_algorithm.h:19-25 | divisibility is transitive |
| Euclidean.Divides | include/euclidean_algorithm.h:19-21 | d divides p when p is d times some polynomial |
| Euclidean.ExactQuotient | include/polynomial.h:223-236 | dividing a multiple of d by d leaves remainder zero and a quotient that multiplies back |
| Euclidean.Gcd | include/euclidean_algorithm.h:19-25 | `euclidean(p, q)` is monic unless zero |
| Euclidean.GcdRawDivides | include/euclidean_algorithm.h:19-25 | the remainder-sequence gcd divides both arguments |
| Euclidean.GcdRawGreatest | include/euclidean_algorithm.h:19-25 | every common divisor divides the remainder-sequence gcd |
| Euclidean.GcdRawZero | include/euclidean_algorithm.h:19-25 | the gcd is zero exactly when both arguments are |
| Euclidean.GcdRaw | include/euclidean_algorithm.h:19-25 | the last non-zero remainder of Euclid's remainder sequence; GcdRawDivides and GcdRawGreatest state that it is a greatest common divisor |
| Euclidean.NormalizeDivides | include/polynomial.h:108-110 | a polynomial and its normalisation divide each other |
| Euclidean.GcdDivides | include/euclidean_algorithm.h:19-25 | `euclidean(p, q)` divides p and q |
| Euclidean.GcdGreatest | include/euclidean_algorithm.h:19-25 | every common divisor of p and q divides `euclidean(p, q)` |
| Euclidean.GcdZero | include/euclidean_algorithm.h:19-25 | `euclidean(p, q)` is zero exactly when p and q are, and monic otherwise |
| Euclidean.ExtendedGcd | include/euclidean_algorithm.h:27-33 | `extended_euclidean` returns (s, t, g) with s*p + t*q == g, g the remainder-sequence gcd |
| Euclidean.BezoutStep | include/euclidean_algorithm.h:27-33 | Bézout coefficients for (b, a % b) give coefficients for (a, b) |
| Euclidean.ExtendedGcdIsScaled | include/euclidean_algorithm.h:27-33 | the extended g is not normalised: it is a scalar multiple of `euclidean`'s monic gcd, which is its normalisation |
| Euclidean.ExampleFirstDivision | test/euclidean_algorithm_tests.cpp:42-45 | X^4 - 2X^3 - 6X^2 + 12X + 15 divided by X^3 + X^2 - 4X - 4 is X - 3, remainder X^2 + 4X + 3 |
| Euclidean.ExampleSecondDivision | test/euclidean_algorithm_tests.cpp:42-45 | X^3 + X^2 - 4X - 4 divided by X^2 + 4X + 3 is X - 3, remainder 5X + 5 |
| Euclidean.ExampleThirdDivision | test/euclidean_algorithm_tests.cpp:42-45 | X^2 + 4X + 3 divided by 5X + 5 is X/5 + 3/5 exactly |
| Euclidean.ExampleGcdRaw | test/euclidean_algorithm_tests.cpp:42-45 | the test's remainder sequence ends in 5X + 5 |
| Euclidean.ExampleGcd | test/euclidean_algorithm_tests.cpp:41-46 | `euclidean(p, q) == X + 1` for the test's p and q |
| Euclidean.GcdOfScaled | include/euclidean_algorithm.h:19-25 | when the remainder sequence ends in c times a monic g, `euclidean` returns g |
| Euclidean.NormalizeScaled | include/polynomial.h:108-110 | normalising c times a monic g gives g |
| Euclidean.ExtendedGcdStep | include/euclidean_algorithm.h:27-33 | the extended gcd of (a, b) is built from that of (b, a % b) |
| Euclidean.ExampleExtendedGcd | test/euclidean_algorithm_tests.cpp:48-57 | `extended_euclidean(p, q)` is (3 - X, X^2 - 6X + 10, 5(X + 1)) |
| SquareFree.NatGcdDivides | include/square_free_decomposition.h:29-32 | the integer gcd divides both arguments |
| SquareFree.NatGcdGreatest | include/square_free_decomposition.h:29-32 | every common divisor divides the integer gcd |
| SquareFree.NatGcdZero | include/square_free_decomposition.h:29-32 | the integer gcd is zero exactly when both arguments are |
| SquareFree.ContentOfDivides | test/square_free_decomposition_tests.cpp:54-60 | the content divides every coefficient |
| SquareFree.ContentOfGreatest | test/square_free_decomposition_tests.cpp:54-60 | every common divisor of the coefficients divides the content |
| SquareFree.ContentOfZero | test/square_free_decomposition_tests.cpp:54-60 | the content is zero exactly when all coefficients are |
| SquareFree.IntCoefficients | test/square_free_decomposition_tests.cpp:54-60 | whole-number coefficients read as integers keep their values |
| SquareFree.ContentIsGcd | test/square_free_decomposition_tests.cpp:54-60 | `content` is the greatest common divisor of the coefficients, ignoring sign, and zero only for zero |
| SquareFree.PrimitivePart | test/square_free_decomposition_tests.cpp:62-68 | `primitive_part` has a value exactly for whole-number coefficients |
| SquareFree.PrimitivePartFacts | test/square_free_decomposition_tests.cpp:62-68 | the primitive part times the content is p, has whole coefficients and content one |
| SquareFree.Content | test/square_free_decomposition_tests.cpp:54-60 | `content`: the gcd of the whole-number coefficients, absent otherwise |
| SquareFree.FromSingleFactor | include/square_free_decomposition.h:34-37 | a one-factor decomposition reconstructs its factor |
| SquareFree.FromSquareFreeDecomposition | include/square_free_decomposition.h:34-37 | `from_square_free_decomposition(s)`: the product of s[i]^(i+1) |
| SquareFree.IsSquareFree | include/square_free_decomposition.h:24-27 | `is_square_free(p)`: gcd(p, p') is constant |
| SquareFree.SquareFreeByRemainders | include/square_free_decomposition.h:24-27 | p is square-free exactly when the remainder-sequence gcd of p and p' is constant |
| SquareFree.GcdRawByUnit | include/euclidean_algorithm.h:19-25 | the remainder-sequence gcd with a non-zero constant is that constant |
| SquareFree.GcdRawEndsInUnit | include/euclidean_algorithm.h:19-25 | a division leaving a non-zero constant remainder makes that constant the remainder-sequence gcd |
| SquareFree.LinearIsSquareFree | test/square_free_decomposition_tests.cpp:45 | X - 1 is square-free |
| SquareFree.TwoRootsIsSquareFree | test/square_free_decomposition_tests.cpp:46 | (X - 1)(X - 2) is square-free |
| SquareFree.QuarticIsSquareFree | test/square_free_decomposition_tests.cpp:47 | X^4 + 1 is square-free |
| SquareFree.SexticIsSquareFree | test/square_free_decomposition_tests.cpp:48 | (X^4 + 1)(X^2 + 1) is square-free |
| SquareFree.DoubleRootIsNotSquareFree | test/square_free_decomposition_tests.cpp:50 | (X - 2)^2 is not square-free |
| SquareFree.TripleProductIsNotSquareFree | test/square_free_decomposition_tests.cpp:51 | (X - 1)(X - 2)^2 is not square-free |
| SquareFree.YunLoop | include/square_free_decomposition.h:29-32 | the loop of Yun's algorithm splits b into factors whose product is b, at most one per round |
| SquareFree.YunSteps | include/square_free_decomposition.h:29-32 | f is gcd(f, f') times the product of the factors Yun's rounds emit, with at most deg f + 1 factors |
| SquareFree.Yun | include/square_free_decomposition.h:29-32 | a square-free p is its own decomposition; otherwise a decomposition exists exactly for whole-number coefficients |
| SquareFree.YunRoundTripSquareFree | include/square_free_decomposition.h:13-15 | for a square-free p, `from_square_free_decomposition(yun_algorithm(p)) == p` |
| Intervals.Default | include/interval.h:82-85 | the default interval is (0, 1]: lower open, upper closed, half open and not empty |
| Intervals.Make | include/interval.h:87-96 | the two-argument constructor keeps the endpoints, lower opened and upper closed |
| Intervals.NonEmptyHasPoint | include/interval.h:110-114 | a non-empty interval contains its midpoint |
| Intervals.EmptyHasNoPoint | include/interval.h:110-114 | lower > upper, or equal endpoints not both closed, make the interval empty and pointless |
| Intervals.Interval.IsDegenerate | include/interval.h:146 | `is_degenerate`: the endpoints are nearly equal within epsilon = 1e-9 |
| Intervals.Interval.IsHalfOpen | include/interval.h:142 | `is_half_open`: the two endpoints are of different kinds |
| Intervals.Interval.IsEmpty | include/interval.h:112-114 | `is_empty`: lower > upper, or degenerate and not closed |
| Intervals.Interval.Contains | include/interval.h:70-77 | a point belongs when it is above the lower end (or at it when closed) and below the upper end (or at it when closed) |
| Intervals.Bisect | include/interval.h:148-156 | `bisect` splits at the midpoint into halves of half the length with the requested bound kinds |
| Intervals.BisectPartitions | include/interval.h:148-156 | for (a, b], each point lies in exactly one half exactly when it lies in the interval |
| Intervals.LinearTransform | include/interval.h:158-169 | `linear_transform(J)` maps lower to J's lower and upper to J's upper |
| Intervals.LinearTransformMidpoint | include/interval.h:158-169 | the map sends the midpoint to J's midpoint |
| RealIntervals.Bisect | include/real_interval.h:28-32 | `bisect` yields [start, m] and [m, end] for the midpoint m |
| RealIntervals.BisectHalves | include/real_interval.h:24-32 | the halves have half the length, cover the interval, meet only at m, and are non-empty when it is |
| RealIntervals.EmptyIffNoPoint | include/real_interval.h:26 | `is_empty` (start > end) holds exactly when the start is not in the interval, and then no point is |
| RootFinder.Bisection | include/root_finder.h:22-30 | no result exactly when f has no sign change over I; a result lies in I and is nearly a root or sits in a sign-changing bracket narrower than the tolerance |
| RootFinder.NewtonRaphson | include/root_finder.h:42-54 | the loop computes the iteration function with the budget clamped at zero |
| RootFinder.NewtonGuards | include/root_finder.h:42-54 | a nearly-zero derivative at the start, or a zero budget, gives no result |
| RootFinder.NewtonWithinBudget | include/root_finder.h:42-54 | a result is one of the first max_iterations iterates |
| RootFinder.NewtonAtRoot | include/root_finder.h:42-54 | started at a root with a usable derivative, the method returns that root |
| RootFinder.NewtonFailsOnFlatStart | test/root_finder_tests.cpp:107-112 | X^3 - 3X - 1 started at -1 fails, the derivative vanishing there |
| RealRootFinder.CoefficientSignChanges | include/real_polynomial_root_finder.h:56-59 | the coefficient sign changes number at most the degree |
| RealRootFinder.CoefficientSignChangesNeg | include/real_polynomial_root_finder.h:56-59 | -p has as many coefficient sign changes as p |
| RealRootFinder.CoefficientSignChangesLinear | test/real_polynomial_root_finder_tests.cpp:132-140 | zero, 5X + 1 give none; 5X - 1 and -5X + 1 give one |
| RealRootFinder.CoefficientSignChangesQuintic | test/real_polynomial_root_finder_tests.cpp:132-140 | 5X^5 - X^4 - X^3 - X^2 + X - 1 has three |
| RealRootFinder.MaxRatio | include/real_polynomial_root_finder.h:61-64 | the largest \|a_i / a_n\| over the lower coefficients, attained by one of them |
| RealRootFinder.CauchyBound | include/real_polynomial_root_finder.h:61-64 | no bound for zero; otherwise at least one and exceeding every \|a_i / a_n\| by at least one |
| RealRootFinder.CauchyBoundExample | test/real_polynomial_root_finder_test.cpp:135-137 | 3X^4 - 6X^3 - 2X^2 - 9 has Cauchy bound 4 |
| RealRootFinder.SturmTail | include/real_polynomial_root_finder.h:66-69 | the tail starting at b has at most size(b) + 1 terms |
| RealRootFinder.SturmTailChain | include/real_polynomial_root_finder.h:66-69 | each later term is minus the remainder of the two before, down to a constant |
| RealRootFinder.SturmSequence | include/real_polynomial_root_finder.h:66-69 | the sequence starts with p and p', with at most deg p + 2 terms |
| RealRootFinder.SturmSequenceIsChain | include/real_polynomial_root_finder.h:66-69 | after p the sequence is a chain of negated remainders starting at p' |
| RealRootFinder.SturmSequenceLast | include/real_polynomial_root_finder.h:66-69 | the last term is constant |
| RealRootFinder.SturmTailStep | include/real_polynomial_root_finder.h:66-69 | for a non-constant b the tail after a continues with b and then the tail of b and -(a % b) |
| RealRootFinder.SturmTailEnd | include/real_polynomial_root_finder.h:66-69 | the tail stops at a constant term |
| RealRootFinder.SturmSequenceOfFive | include/real_polynomial_root_finder.h:66-69 | p, p' and three negated remainders, the last constant, are the whole Sturm sequence |
| RealRootFinder.SturmExampleDerivative | test/real_polynomial_root_finder_tests.cpp:152-158 | X^4 + X^3 - X - 1 has derivative 4X^3 + 3X^2 - 1 |
| RealRootFinder.SturmFirstDivision | test/real_polynomial_root_finder_tests.cpp:159 | p % p' = -(3/16 X^2 + 3/4 X + 15/16), whose negation is the test's seq[2] |
| RealRootFinder.SturmSecondDivision | test/real_polynomial_root_finder_tests.cpp:160 | p' % seq[2] = 32X + 64, whose negation is the test's seq[3] |
| RealRootFinder.SturmThirdDivision | test/real_polynomial_root_finder_tests.cpp:161 | seq[2] % seq[3] = 3/16, whose negation is the test's seq[4] |
| RealRootFinder.NegOf | include/polynomial.h:161-163 | negating every coefficient of r gives n exactly when n is r negated entry by entry |
| RealRootFinder.Values | include/real_polynomial_root_finder.h:71-75 | the value of each term at x |
| RealRootFinder.SignVariations | include/real_polynomial_root_finder.h:71-75 | the signs, one per term not nearly zero, each +1 or -1 |
| RealRootFinder.VariationsIgnoreZeros | include/real_polynomial_root_finder.h:71-87 | the variation count is the sign changes among the non-nearly-zero values |
| RealRootFinder.CountSplit | include/real_polynomial_root_finder.h:77-82 | counts over (a, c] and (c, b] add to the count over (a, b] |
| RealRootFinder.NumberDistinctRoots | include/real_polynomial_root_finder.h:77-82 | a count exactly for square-free p, bounded by the sequence length |
| RealRootFinder.VariationsBound | include/real_polynomial_root_finder.h:71-75 | fewer variations than terms |
| RealRootFinder.NumberAllDistinctRoots | include/real_polynomial_root_finder.h:84-87 | a count exactly for square-free non-zero p |
| RealRootFinder.NumberAllDistinctRootsInBox | include/real_polynomial_root_finder.h:84-87 | the whole-line count is the count over the Cauchy box |
| RealRootFinder.SplitPoint | include/real_polynomial_root_finder.h:89-93 | the split point lies strictly inside the interval, at the midpoint or nudged off a root |
| RealRootFinder.Counter | include/real_polynomial_root_finder.h:77-82 | the counting function is the Sturm count |
| RealRootFinder.Isolate | include/real_polynomial_root_finder.h:89-93 | every interval has count one, is (a, b], lies within the range and follows the previous one |
| RealRootFinder.IsolateDisjoint | include/real_polynomial_root_finder.h:89-93 | the intervals lie in the range and no point lies in two of them |
| RealRootFinder.IsolateCountBound | include/real_polynomial_root_finder.h:89-93 | for an additive, non-negative count, there are no more intervals than the count over the range |
| RealRootFinder.CounterAdditive | include/real_polynomial_root_finder.h:77-82 | the Sturm count is additive |
| RealRootFinder.CounterEmpty | include/real_polynomial_root_finder.h:77-82 | the Sturm count over an empty interval is zero |
| RealRootFinder.CounterNonNegative | include/real_polynomial_root_finder.h:77-82 | monotone variations make the count non-negative |
| RealRootFinder.RootIsolation | include/real_polynomial_root_finder.h:89-93 | empty for zero or non-square-free p; the intervals are in order |
| RealRootFinder.IsolateWithSturm | include/real_polynomial_root_finder.h:89-93 | each isolating interval has Sturm count one and is not a point |
| RealRootFinder.RootIsolationIsolates | include/real_polynomial_root_finder.h:89-93 | every interval has `number_distinct_roots == 1` and is not a point |
| RealRootFinder.RootIsolationInBox | include/real_polynomial_root_finder.h:89-93 | the intervals lie in the Cauchy box and share no point |
| RealRootFinder.IsolateWithSturmBound | include/real_polynomial_root_finder.h:89-93 | there are no more intervals than the Sturm count over the range |
| RealRootFinder.RefineRoots | include/real_polynomial_root_finder.h:95-99 | each refined root comes from bisection on one of the intervals, at most one per interval |
| RealRootFinder.TaggedAppend | include/real_polynomial_root_finder.h:95-99 | appending roots tagged with the next multiplicity keeps every tag valid |
| RealRootFinder.RefineFactor | include/real_polynomial_root_finder.h:95-99 | the roots bisection refines in q's isolating intervals, at most one per interval |
| RealRootFinder.FindRoots | include/real_polynomial_root_finder.h:95-99 | each root is refined for the Yun factor its multiplicity names; tags never decrease; none without a decomposition |
| RealRootFinder.RootsOfFactors | include/real_polynomial_root_finder.h:95-99 | the loop over the factors tags the roots of factor i with multiplicity i + 1, in order |
| Scanner.OperatorOf | include/polynomial_parser.h:118-124 | `operator_map` holds exactly + - * / ^, and none of them as a sign |
| Scanner.ParenthesisOf | include/polynomial_parser.h:126-129 | `parenthesis_map` holds exactly ( and ) |
| Scanner.NextCharacter | include/polynomial_parser.h:141-145 | the character at pos, or UNEXPECTED_END past the end |
| Scanner.DigitRun | include/polynomial_parser.h:151-172 | the maximal run of digits from a position |
| Scanner.ScanNumber | include/polynomial_parser.h:151-172 | UNEXPECTED_END exactly past the end; a number advances within the string; a digit always starts one |
| Scanner.ScanNumberMaximal | include/polynomial_parser.h:151-172 | the scanned prefix is maximal: no digit follows, and a dot follows only after the one dot taken |
| Scanner.ScanNumberDigits | include/polynomial_parser.h:151-172 | a run of digits reads as its decimal value |
| Scanner.ScanNumberDecimal | include/polynomial_parser.h:151-172 | digits, a dot and digits read as the decimal they spell |
| Scanner.ScanNumberExample | include/polynomial_parser.h:151-172 | "X + 12.45 + 3" at 4 gives 12.45 and position 9 |
| Scanner.ScanVariable | include/polynomial_parser.h:179-190 | the variable character gives a variable token one further on; anything else INVALID_VARIABLE |
| Scanner.ScanOperator | include/polynomial_parser.h:192-200 | an operator character gives its binary operator one further on; anything else INVALID_TOKEN |
| Scanner.ScanParenthesis | include/polynomial_parser.h:206-214 | a parenthesis character gives its token one further on; anything else INVALID_TOKEN |
| Scanner.ScanCharacter | include/polynomial_parser.h:236-250 | a scanned character advances, is never END, and a variable token names the variable |
| Scanner.ScanToken | include/polynomial_parser.h:221-255 | EMPTY_EXPRESSION exactly for "", UNEXPECTED_END exactly past the end, END only at the end, otherwise progress |
| Scanner.ScanTokenEndIffBlank | include/polynomial_parser.h:221-255 | END comes exactly when only blanks remain |
| Scanner.ScanTokenAsWritten | include/polynomial_parser.h:237-238 | as written, a variable after a blank may be 'X' instead of the requested variable |
| Scanner.ScanTokenSkipsBlank | include/polynomial_parser.h:237-238 | a blank is skipped with the same variable |
| Scanner.ScanTokenOperator | include/polynomial_parser.h:221-255 | an operator character scans as that operator |
| Scanner.ScanTokenParenthesis | include/polynomial_parser.h:221-255 | a parenthesis character scans as that parenthesis |
| Scanner.ScanTokenLetter | include/polynomial_parser.h:221-255 | a letter scans as the variable or fails with INVALID_VARIABLE |
| Scanner.ScanTokenDigit | include/polynomial_parser.h:221-255 | a digit starts a number |
| Scanner.ScanTokenInvalid | include/polynomial_parser.h:221-255 | any other character gives INVALID_TOKEN |
| Scanner.ScanTokenAgrees | include/polynomial_parser.h:237-238 | as written and corrected agree when the variable is 'X' |
| Scanner.ScanTokenAsWrittenDropsVariable | include/polynomial_parser.h:237-238 | as written " Y" with variable 'Y' is INVALID_VARIABLE; corrected it is Y |
| Scanner.ScanTokenErrors | include/polynomial_parser.h:221-255 | "" is EMPTY_EXPRESSION, past the end UNEXPECTED_END, "$" INVALID_TOKEN, at the end END |
| Scanner.TokenizeFrom | include/polynomial_parser.h:261-280 | the tokens end with exactly one END; errors are never UNEXPECTED_END |
| Scanner.Tokenize | include/polynomial_parser.h:261-280 | `tokenize` ends in exactly one END or returns the first error; EMPTY_EXPRESSION exactly for "" |
| Scanner.TokenizeAsWritten | include/polynomial_parser.h:261-280 | as written the tokens also end in exactly one END |
| Scanner.TokenizeAsWrittenDropsVariable | include/polynomial_parser.h:279 | as written "Y" with variable 'Y' fails with INVALID_VARIABLE at the first token, which is scanned with the default 'X' |
| Scanner.TokenizeAsWrittenDropsVariableAfterBlank | include/polynomial_parser.h:237-238 | as written "2* Y" with variable 'Y' fails with INVALID_VARIABLE, the blank before Y dropping the variable |
| Scanner.TokenizeKeepsVariable | include/polynomial_parser.h:261-280 | corrected, "Y" and "2* Y" tokenize with the variable Y |
| Scanner.TokenizeAgreesOnX | include/polynomial_parser.h:261-280 | as written and corrected `tokenize` agree for the variable 'X' |
| Scanner.TokenizeExample | include/polynomial_parser.h:261-280 | "3*(5+2.8)-X^5" gives its twelve tokens |
| Parser.ToSign | include/polynomial_parser.h:131-134 | `sign_operator_map` sends + to SIGN_PLUS and - to SIGN_MINUS |
| Parser.WithSigns | include/polynomial_parser.h:285-314 | the rewrite keeps the length |
| Parser.ConvertTokensWithSigns | include/polynomial_parser.h:285-314 | the loop computes the rewrite |
| Parser.WithSignsChanges | include/polynomial_parser.h:285-314 | a token changes exactly when it is + or - at the start or after +, - or ( |
| Parser.MinusAfterOperatorStaysBinary | include/polynomial_parser.h:285-314 | a - after *, / or ^ stays binary |
| Parser.WithSignsIdempotent | include/polynomial_parser.h:285-314 | rewriting twice is rewriting once |
| Parser.Precedence | include/polynomial_parser.h:324-335 | the corrected table gives both signs 3 and agrees with the written table elsewhere |
| Parser.PopOperators | include/polynomial_parser.h:344-366 | popping never grows the stack |
| Parser.ConvertToPostfix | include/polynomial_parser.h:319-402 | the loop computes the shunting-yard conversion with the corrected table |
| Parser.ShuntingInv | include/polynomial_parser.h:319-402 | output and stack keep the operands in input order and all operators, with no END or ) |
| Parser.PostfixProperties | include/polynomial_parser.h:319-402 | the postfix list has the input's operands in order and the same operators |
| Parser.PostfixExample | include/polynomial_parser.h:319-402 | "3*(5+2.8)-X^4" converts to 3 5 2.8 + * X 4 ^ - |
| Parser.PowerLeftAssociative | include/polynomial_parser.h:344-366 | X^2^3 converts to X 2 ^ 3 ^ |
| Parser.SignsOfMinusPlusX | include/polynomial_parser.h:285-314 | in "1-+X" the + becomes SIGN_PLUS and the - stays binary |
| Parser.SignPlusAsWrittenFails | include/polynomial_parser.h:330-331 | with the written table "1-+X" evaluates to OPERAND_EXPECTED |
| Parser.SignPlusCorrected | include/polynomial_parser.h:330-331 | with the corrected table "1-+X" evaluates to 1 - X |
| Parser.ToItem | include/polynomial_parser.h:539-550 | operators become operations and the rest operands |
| Parser.ConvertToItems | include/polynomial_parser.h:539-550 | one item per token |
| Parser.ApplyBinary | include/polynomial_parser.h:409-441 | fails exactly on a zero divisor (DIVISION_BY_ZERO) or a power that is not a non-negative integer constant |
| Parser.ApplyBinaryMeaning | include/polynomial_parser.h:409-441 | the value of the result is the operation on the values; DIVIDE keeps the quotient |
| Parser.ApplyUnary | include/polynomial_parser.h:447-464 | only signs apply; anything else is INVALID_OPERATOR |
| Parser.SignMinusNegates | include/polynomial_parser.h:447-464 | SIGN_MINUS negates every coefficient and every value |
| Parser.ApplyItem | include/polynomial_parser.h:487-525 | a step leaves a non-empty stack; an operation on an empty stack is OPERAND_EXPECTED |
| Parser.Evaluate | include/polynomial_parser.h:469-534 | the loop over a mutable stack computes the evaluation |
| Parser.RunAppend | include/polynomial_parser.h:527-531 | running a + b is running a, then b from where it stopped |
| Parser.Emit | include/polynomial_parser.h:469-534 | an expression tree's postfix list is non-empty |
| Parser.RunEmit | include/polynomial_parser.h:469-534 | running a tree's postfix list pushes the tree's value or stops with its error |
| Parser.EvaluationOfEmit | include/polynomial_parser.h:469-534 | evaluating a tree's postfix list gives the tree's value |
| Parser.LeftoversIgnored | include/polynomial_parser.h:533 | the result is the top of the stack; leftover operands are ignored |
| Parser.EvaluationBinary | include/polynomial_parser.h:506-518 | a binary operator pops the right operand first |
| Parser.UnderflowStops | include/polynomial_parser.h:487-498 | running out of operands stops with OPERAND_EXPECTED whatever follows |
| Parser.EvaluationUnderflow | include/polynomial_parser.h:487-498 | an operator short of operands is OPERAND_EXPECTED |
| Parser.RunErrors | include/polynomial_parser.h:469-534 | evaluation fails only with OPERAND_EXPECTED, DIVISION_BY_ZERO or INVALID_POWER_EXPONENT |
| Parser.EvaluationExample | include/polynomial_parser.h:469-534 | X 2 ^ 4 + 3 X 4 ^ - * is (X^2 + 4)(3 - X^4) |
| Parser.ExprOf | include/polynomial_parser.h:469-534 | the expression tree an infix term stands for; an unambiguous term gives a well-formed tree |
| Parser.SignsOfWritten | include/polynomial_parser.h:285-314 | sign marking turns exactly the signs written inside parentheses into SIGN_PLUS and SIGN_MINUS |
| Parser.ShuntWritten | include/polynomial_parser.h:319-402 | the conversion consumes an unambiguous term's tokens, adding its operands and operators in postfix order |
| Parser.PostfixOfWritten | include/polynomial_parser.h:319-402 | converting an unambiguous term's infix tokens gives the term's postfix form |
| Parser.ItemsOfPostfix | include/polynomial_parser.h:539-550 | the items of a term's postfix form are those its expression tree emits |
| Parser.ParseTokensOfTerm | include/polynomial_parser.h:556-560 | sign marking, conversion, items and evaluation on a term's tokens give the value of the term's tree |
| Parser.Parse | include/polynomial_parser.h:556-560 | "" is EMPTY_EXPRESSION |
| Parser.ParseAsWritten | include/polynomial_parser.h:556-560 | as written "" is EMPTY_EXPRESSION too |
| Parser.ParsePolynomial | include/polynomial_parser.h:556-560 | the step-by-step pipeline over mutable state gives exactly `Parse`, whose values ParseOfTerm states |
| Parser.ParseOfTerm | include/polynomial_parser.h:556-560 | an expression that tokenizes as an unambiguous term parses to the value of that term |
| Parser.ParseFiveMinusSix | test/polynomial_parser_tests.cpp:477 | "5 - 6" parses to -1 |
| Parser.ParseThreeXPlusFive | test/polynomial_parser_tests.cpp:489 | "3*X + 5" parses to 3X + 5 |
| Parser.ParseNinthOverSquare | test/polynomial_parser_tests.cpp:493 | "X^9 / X^2" parses to X^7 |
| Parser.ParseErrors | include/polynomial_parser.h:556-560 | parsing never reports UNEXPECTED_END |
| Parser.ParseMinusPlusX | include/polynomial_parser.h:330-331 | "1-+X" fails as written and parses to 1 - X corrected |
| Interpolation.BasisPolynomial | include/polynomial_interpolation.h:22-25 | l_j has degree \|xs\| - 1, is one at x_j and zero at every other node |
| Interpolation.LagrangeBasis | include/polynomial_interpolation.h:22-25 | one polynomial per node, each of degree \|xs\| - 1, with l_j(x_m) = 1 if j = m and 0 otherwise |
| Interpolation.LagrangeBasisRoots | include/polynomial_interpolation.h:22-25 | l_j has every other node as a root and not x_j |
| Interpolation.CombinationAt | include/polynomial_interpolation.h:27-31 | the combination of the basis with the ys takes y_i at x_i |
| Interpolation.LagrangeInterpolation | include/polynomial_interpolation.h:27-31 | the interpolant passes through every point and has degree below the number of points |
| Chebyshev.FirstKindBase | include/chebyshev_polynomial.h:22-25 | T_0 is one and T_1 is X |
| Chebyshev.FirstKindStepIsThreeTerm | include/chebyshev_polynomial.h:22-25 | T_n = 2X T_(n-1) - T_(n-2) as the shared three-term step |
| Chebyshev.FirstKindRecurrence | include/chebyshev_polynomial.h:22-25 | T_n = 2X T_(n-1) - T_(n-2) as a polynomial expression |
| Chebyshev.FirstKindShape | include/chebyshev_polynomial.h:22-25 | T_n has degree n, leading coefficient 2^(n-1), and only powers of n's parity |
| Chebyshev.FirstKindCoefficient | include/chebyshev_polynomial.h:22-25 | the recurrence coefficient by coefficient |
| Chebyshev.FirstKindEval | include/chebyshev_polynomial.h:22-25 | the recurrence on values |
| Chebyshev.FirstKindAtEnds | include/chebyshev_polynomial.h:22-25 | T_n(1) = 1 and T_n(-1) = (-1)^n |
| Chebyshev.FirstKindTwo | test/chebyshev_polynomial_tests.cpp:53-56 | T_2 = 2X^2 - 1 |
| Chebyshev.FirstKindThree | test/chebyshev_polynomial_tests.cpp:53-78 | T_3 = 4X^3 - 3X |
| Chebyshev.FirstKindFour | test/chebyshev_polynomial_tests.cpp:53-78 | T_4 = 8X^4 - 8X^2 + 1 |
| Chebyshev.FirstKindFive | test/chebyshev_polynomial_tests.cpp:62-63 | T_5 = 16X^5 - 20X^3 + 5X |
| Chebyshev.FirstKindSix | test/chebyshev_polynomial_tests.cpp:65-66 | T_6 = 32X^6 - 48X^4 + 18X^2 - 1 |
| Chebyshev.FirstKindSeven | test/chebyshev_polynomial_tests.cpp:68-69 | T_7 = 64X^7 - 112X^5 + 56X^3 - 7X |
| Chebyshev.FirstKindEight | test/chebyshev_polynomial_tests.cpp:71-72 | T_8 = 128X^8 - 256X^6 + 160X^4 - 32X^2 + 1 |
| Chebyshev.FirstKindNine | test/chebyshev_polynomial_tests.cpp:74-75 | T_9 = 256X^9 - 576X^7 + 432X^5 - 120X^3 + 9X |
| Chebyshev.FirstKindTen | test/chebyshev_polynomial_tests.cpp:77-78 | T_10 = 512X^10 - 1280X^8 + 1120X^6 - 400X^4 + 50X^2 - 1 |
| Chebyshev.FirstKindCache.constructor | include/chebyshev_polynomial.h:27-28 | the cache starts empty |
| Chebyshev.FirstKindCache.Create1stKind | include/chebyshev_polynomial.h:22-28 | returns T_n, keeps the cached prefix and grows the cache to n + 1 entries when shorter |
| Chebyshev.EmptyCacheExample | test/chebyshev_polynomial_tests.cpp:81-100 | from an empty cache, requests up to T_10 leave 11 entries |
| Legendre.AlphaMinusBeta | include/legendre_polynomial.h:20-23 | the two recurrence factors (2k-1)/k and (k-1)/k differ by one |
| Legendre.LegendreBase | include/legendre_polynomial.h:20-23 | P_0 is one and P_1 is X |
| Legendre.LegendreStepIsThreeTerm | include/legendre_polynomial.h:20-23 | P_n = ((2n-1) X P_(n-1) - (n-1) P_(n-2)) / n as the shared three-term step |
| Legendre.LegendreRecurrence | include/legendre_polynomial.h:20-23 | Bonnet's recurrence n P_n = (2n-1) X P_(n-1) - (n-1) P_(n-2) |
| Legendre.LegendreShape | tests/legendre_polynomial_tests.cpp:44-71 | P_n has degree n, a positive leading coefficient, and only powers of n's parity |
| Legendre.LegendreAtEnds | include/legendre_polynomial.h:20-23 | P_n(1) = 1 and P_n(-1) = (-1)^n |
| Legendre.LegendreTwo | tests/legendre_polynomial_tests.cpp:51-70 | P_2 = (3X^2 - 1)/2 |
| Legendre.LegendreThree | tests/legendre_polynomial_tests.cpp:51-70 | P_3 = (5X^3 - 3X)/2 |
| Legendre.LegendreFour | tests/legendre_polynomial_tests.cpp:51-70 | P_4 = (35X^4 - 30X^2 + 3)/8 |
| Legendre.LegendreFive | test/legendre_polynomial_tests.cpp:36-37 | P_5 = (63X^5 - 70X^3 + 15X)/8 |
| Legendre.LegendreSix | test/legendre_polynomial_tests.cpp:39-40 | P_6 = (231X^6 - 315X^4 + 105X^2 - 5)/16 |
| Legendre.LegendreSeven | test/legendre_polynomial_tests.cpp:42-43 | P_7 = (429X^7 - 693X^5 + 315X^3 - 35X)/16 |
| Legendre.LegendreEight | test/legendre_polynomial_tests.cpp:45-46 | P_8 = (6435X^8 - 12012X^6 + 6930X^4 - 1260X^2 + 35)/128 |
| Legendre.LegendreCache.constructor | include/legendre_polynomial.h:25-26 | the cache starts empty |
| Legendre.LegendreCache.Create | include/legendre_polynomial.h:20-26 | returns P_n, keeps the cached prefix and grows the cache to n + 1 entries when shorter |
| Matrices.IndexInRange | include/matrix.h:54 | an entry inside the matrix has its row-major position inside the buffer |
| Matrices.IndexDecompose | include/matrix.h:54 | every buffer position is the index of exactly the row i / cols and column i % cols |
| Matrices.IndexInjective | include/matrix.h:54 | distinct entries have distinct positions |
| Matrices.IndexExample | test/matrix_tests.cpp:109-119 | the positions of a 2 x 3 matrix listed by the tests |
| Matrices.EntriesDetermineBuffer | include/matrix.h:62-68 | two buffers of a shape with equal entries are equal |
| Matrices.Transposed | include/matrix.h:97 | the transpose swaps dimensions and entry (i, j) is the original's (j, i) |
| Matrices.TransposeInvolution | include/matrix.h:97 | transposing twice gives the buffer back |
| Matrices.TransposeExample | test/matrix_tests.cpp:140-146 | the 2 x 4 example transposes to the listed 4 x 2 buffer |
| Matrices.SumAndDifferenceEntries | include/matrix.h:74-76 | + and - act entry by entry |
| Matrices.SumCommutes | include/matrix.h:74 | + is commutative |
| Matrices.DifferenceUndoesSum | include/matrix.h:74-76 | - undoes + and the reverse |
| Matrices.DifferenceAntisymmetric | include/matrix.h:76 | B - A is -(A - B) |
| Matrices.DividedUndoesScaled | include/matrix.h:80-82 | dividing by s undoes multiplying by s and the reverse |
| Matrices.SumExample | test/matrix_tests.cpp:148-161 | the sum and differences of the tests' 2 x 4 matrices |
| Matrices.Product | include/matrix.h:78 | the n x p product, entry (i, j) the dot product of row i and column j |
| Matrices.Identity | include/matrix.h:78 | one on the diagonal and zero elsewhere |
| Matrices.ProductIdentity | include/matrix.h:78 | the identity is neutral on both sides of the product |
| Matrices.SymmetricWhenTransposeEqual | include/matrix.h:93 | a square matrix equal to its transpose is symmetrical for any tolerance |
| Matrices.AsymmetricForSomeTolerance | include/matrix.h:93 | a square matrix different from its transpose fails for some tolerance |
| Matrices.SymmetricExample | test/matrix_tests.cpp:121-138 | the tests' symmetrical 3 x 3 matrix |
| Matrices.NearlySymmetricExample | test/matrix_tests.cpp:121-138 | 1/3 against 0.3333333 is within the tolerance |
| Matrices.AsymmetricExamples | test/matrix_tests.cpp:121-138 | 2.4 against 3.4, and a 2 x 3 matrix, are not symmetrical |
| Matrices.LongestRow | include/matrix.h:43 | the length of the longest row, zero for no rows |
| Matrices.Flatten | include/matrix.h:43 | the padded rows one after the other form a buffer of that shape |
| Matrices.FlattenEntry | include/matrix.h:43 | entry (i, j) is row i's j-th value, zero past its end |
| Matrices.LongestRowExample | test/matrix_tests.cpp:68-75 | rows of 3 and 4 give 4 columns |
| Matrices.Resized | include/matrix.h:95 | `resize` keeps exactly n entries |
| Matrices.ResizedEntries | include/matrix.h:95 | resizing keeps the first entries and fills with zeros; growing then shrinking gives the buffer back |
| Matrices.Matrix.constructor | include/matrix.h:37 | `matrix(r, c)` has r rows, c columns and every entry zero |
| Matrices.Matrix.Filled | include/matrix.h:41 | every entry is the given value |
| Matrices.Matrix.WithCoefficients | include/matrix.h:39 | a list of r*c values fills the matrix row by row |
| Matrices.Matrix.FromList | include/matrix.h:39 | the list constructor with its size check: no matrix exactly when the list does not hold rows * cols values, otherwise those values row by row |
| Matrices.Matrix.FromRows | include/matrix.h:43 | the rows-of-lists constructor takes the longest row's length for cols and pads with zeros |
| Matrices.Matrix.GetFlat | include/matrix.h:62-68 | `operator()(idx)` reads entry (idx / cols, idx % cols) |
| Matrices.Matrix.At | include/matrix.h:85-87 | `at` has a value exactly inside the matrix, and it is the entry |
| Matrices.Matrix.Proxy | include/matrix.h:24-33 | the proxy of row r reads entry (r, col) at col |
| Matrices.Matrix.Set | include/matrix.h:67 | writing one entry through `operator()(row, col)` leaves the others and the shape unchanged |
| Matrices.Matrix.SetAt | include/matrix.h:87 | a write through `at` succeeds exactly inside the matrix, where only that entry changes and reads back; outside it nothing changes |
| Matrices.Matrix.SetFlat | include/matrix.h:62-68 | writing through the flat index changes that buffer position only |
| Matrices.Matrix.Equals | include/matrix.h:70 | `==` holds exactly for the same shape and entries |
| Matrices.Matrix.NotEquals | include/matrix.h:72 | `!=` holds exactly for a different shape or some different entry |
| Matrices.Matrix.IsSquare | include/matrix.h:89 | `is_square` holds exactly when rows == cols |
| Matrices.Matrix.IsEmpty | include/matrix.h:91 | `is_empty` holds exactly when there is no entry |
| Matrices.Matrix.IsSymmetrical | include/matrix.h:93 | the loop decides symmetry within the tolerance, false for a non-square matrix |
| Matrices.Matrix.MakeMatrix | include/matrix.h:102 | a fresh matrix of the same shape filled with the value |
| Matrices.Matrix.Apply | include/matrix.h:104 | a fresh matrix whose entries are f of the entries and positions |
| Matrices.Matrix.Add | include/matrix.h:74 | no result exactly for different shapes; otherwise the entry-wise sum |
| Matrices.Matrix.Subtract | include/matrix.h:76 | no result exactly for different shapes; otherwise the entry-wise difference |
| Matrices.Matrix.MultiplyScalar | include/matrix.h:80 | every entry times the scalar |
| Matrices.Matrix.DivideScalar | include/matrix.h:82 | every entry over the scalar |
| Matrices.Matrix.Multiply | include/matrix.h:78 | no result exactly when the inner dimensions differ; otherwise the product |
| Matrices.Matrix.Dot | include/matrix.h:78 | the loop sums row i times column j |
| Matrices.Matrix.Transpose | include/matrix.h:97 | a fresh matrix with swapped dimensions holding the transpose |
| Matrices.Matrix.Resize | include/matrix.h:95 | the shape becomes the new one, the buffer cut or zero-filled |
| Matrices.TransposeTwice | test/matrix_tests.cpp:140-146 | a matrix transposed twice equals itself |
| Matrices.ConstructorExamples | test/matrix_tests.cpp:19-41 | the constructors' shapes and fills: 2 x 4 with zero entries, 2 x 2 filled with 2.1 |
| Matrices.ShapeExamples | test/matrix_tests.cpp:93-107 | `matrix()` is empty and 2 x 2 is not; 4 x 4 is square and 4 x 5 is not |
| Matrices.ListExamples | test/matrix_tests.cpp:43-66 | a list of the wrong size is rejected; the last entry and a proxied entry read back |
| Matrices.RowsExample | test/matrix_tests.cpp:68-75 | rows of 3 and 4 give a 2 x 4 matrix with a zero pad |
| Matrices.SameEntries | include/matrix.h:70 | two buffers of a shape are equal exactly when all entries are |
| Matrices.NoEntries | include/matrix.h:91 | a buffer of no entries has no rows or no columns |
| ComplexPolynomials.RealTimes | include/complex_polynomial.h:45-55 | a real times a complex number, on either side |
| ComplexPolynomials.Trim | include/complex_polynomial.h:18-26 | trimming keeps every coefficient and leaves no trailing zero |
| ComplexPolynomials.FromCoefficients | include/complex_polynomial.h:18-26 | the coefficient-list constructor keeps every listed coefficient |
| ComplexPolynomials.ZeroAndOne | test/complex_polynomial_tests.cpp:60-83 | a list of zeros is the zero polynomial; zero and one have degree 0 and differ |
| ComplexPolynomials.Add | include/complex_polynomial.h:57-65 | complex polynomials add coefficient by coefficient |
| ComplexPolynomials.Sub | include/complex_polynomial.h:57-65 | complex polynomials subtract coefficient by coefficient |
| ComplexPolynomials.Mul | include/polynomial.h:202-206 | `*` on complex coefficients: the trimmed convolution |
| ComplexPolynomials.Pow | include/polynomial.h:262-265 | `pow(n)`: the n-fold product, one for n = 0 |
| ComplexPolynomials.Evaluate | include/polynomial.h:84-87 | `evaluate` by Horner's scheme at a complex point |
| ComplexPolynomials.RealTimesComplex | include/complex_polynomial.h:45-50 | a real polynomial times z multiplies every coefficient by z |
| ComplexPolynomials.ComplexTimesReal | include/complex_polynomial.h:52-55 | z times a real polynomial multiplies every coefficient by z on the left |
| ComplexPolynomials.Embed | include/complex_polynomial.h:57-60 | a real polynomial embedded via (1, 0) keeps its coefficients as real parts |
| ComplexPolynomials.AddReal | include/complex_polynomial.h:57-60 | complex + real adds to the real parts only |
| ComplexPolynomials.RealAddComplex | include/complex_polynomial.h:62-65 | real + complex adds the embedded real coefficients |
| ComplexPolynomials.Separate | include/complex_polynomial.h:67-72 | `separate` gives the real parts and the imaginary parts as real polynomials |
| ComplexPolynomials.SeparateRecombines | include/complex_polynomial.h:67-72 | p == re + i * im |
| ComplexPolynomials.SeparateCombination | include/complex_polynomial.h:67-72 | separating re + i * im gives back re and im |
| ComplexPolynomials.SeparateEvaluate | include/complex_polynomial.h:67-72 | at a real x, p's value is re(x) + i im(x) |
| ComplexPolynomials.SeparateExample | test/complex_polynomial_tests.cpp:97-106 | (Z - i)^3 has degree 3 and separates into X^3 - 3X and -3X^2 + 1 |
| ComplexPolynomials.EvaluateExample | test/complex_polynomial_tests.cpp:108-112 | Z^2 - 1 vanishes at 1 and -1 |

## Left out

- Printing (`operator<<` in polynomial.h, matrix.h and complex_polynomial.h) and all console demos: console output only.
- Floating-point rounding: coefficients are exact reals. The tolerance is kept only where behaviour branches on it.
- `std::regex` and `std::stod` in `scan_number`: the model takes the same maximal match of `[0-9]*(\.[0-9]*)?` and reads it as an exact decimal instead of a double.
- Scanner.ScanNumber: a match that is only a dot ("." at the position) is `Failure(InvalidNumber)` in the model. In the source, `std::stod(".")` throws inside the `noexcept` `scan_number` (include/polynomial_parser.h:151, 166-167), which ends the program. `scan_token` never reaches this, since it calls `scan_number` only on a digit.
- `quadratic_roots`, `has_cubic_normal_form`, `cubic_normal_form_roots`, `cubic_roots` and the polynomial `newton_raphson` of real_polynomial_root_finder.h: closed-form floating-point formulas with square and cube roots.
- `regula_falsi` of root_finder.h: a floating-point iteration with no stated property beyond its signature.
- complex_polynomial_root_finder.h (roots of unity, Durand–Kerner, Aberth–Ehrlich): trigonometric and floating fixed-point iterations.
- Chebyshev nodes, Clenshaw summation, Gauss–Chebyshev quadrature and T_n(cos x) = cos(nx): cosine and pi numerics, not declared in the header.
- gauss_legendre.h: an empty class.
- The `interval` class inside utils.h: a stale duplicate of real_interval.h.
- The ring laws (commutativity, associativity, distributivity, units) are proved for real polynomials. For complex polynomials only the operations the header defines inline are modelled.
- Sturm's theorem is not proved. `RealRootFinder.NumberDistinctRoots` is the Sturm count. The root-isolation lemmas state that each interval has count one. `RealRootFinder.CounterNonNegative` takes the monotonicity of the variation counts as a hypothesis.
- RealRootFinder.NumberDistinctRoots: the Sturm count is not related to the actual real roots, because Sturm's theorem is not proved.
- RealRootFinder.RootIsolation: recursion is cut off at `MaxDepth` = 100 halvings. An interval still holding several roots at that depth is dropped.
- RealRootFinder.FindRoots: states where each root comes from and its multiplicity tag, not that every real root is found. The multiplicities {1, 1, 1, 3} that test/real_polynomial_root_finder_tests.cpp:218-227 expects are not pinned, because they rest on Yun's decomposition (see SquareFree.Yun).
- RealRootFinder.SturmSequence: for X^4 + X^3 - X - 1 (test/real_polynomial_root_finder_tests.cpp:152-164) each term is pinned on its own: the derivative and the three remainders, whose negations are the test's seq[2], seq[3] and seq[4]. SturmSequenceOfFive proves that such facts make up the whole sequence. Joining the concrete facts into one statement about this polynomial exceeds the verifier's resource limit, so it is not stated. For the same reason the sign variations at -10 and 10 and `number_distinct_roots` = 2 (:166-183) are not pinned.
- SquareFree.Yun: for a square-free p the result is `[p]` and the round trip holds. For the other integral p the model states only that the factors multiply back to p / gcd(p, p') (YunSteps), with at most deg p + 1 of them. It does not state these promises of include/square_free_decomposition.h:13-15 and the tests:
  - that the length is the highest root multiplicity;
  - that entry i is the square-free product of the factors of multiplicity i + 1, one when there is none, and that the entries are pairwise coprime;
  - the decomposition `[1, X+2, X+1, X, X-1, X-2]` that test/square_free_decomposition_tests.cpp:104-128 expects;
  - the round trip `from_square_free_decomposition(yun_algorithm(p)) == p`. The bodies are in a `.tpp` file that is not part of this model, and the model's own steps use monic gcds, so the leading coefficient is lost. For p = (2X - 1)^2 = 4X^2 - 4X + 1 the model's factors are [1, 4X - 2], and their product of powers is 16X^2 - 16X + 4, not p. The reason these are left out: they need the theory of repeated roots (multiplicity through the derivative), which the model does not develop.
- SquareFree.YunLoop: a fuel bound of deg f rounds replaces the source's loop until d is zero. A round need not lower the degree: for f = X^2 the first round emits gcd(X, 1) = 1 and continues with X. By Yun's theory the loop runs one round fewer than the highest root multiplicity, which is at most deg f, so the bound is not reached. The model does not prove this.
- RootFinder.Bisection: does not claim convergence to an actual root. It claims a near root or a sign-changing bracket narrower than the tolerance inside the interval.
- RootFinder.NewtonRaphson: only the guards and the iteration budget are stated, not convergence.
- Polynomials.DivScalar: requires a non-zero scalar. Division of a double by zero gives infinities, which reals do not have.
- Matrices.Matrix.DivideScalar: requires a non-zero scalar, for the same reason.
- Matrices.Matrix.WithCoefficients: requires a list of rows * cols values. `check_dimension` throws otherwise, and `ListExamples` models that rejection.
- Matrices.Matrix.Proxy: the proxy is a value snapshot of the row, not a reference into the matrix.
- Scanner.ScanToken: positions are unbounded naturals, not the source's `uint16_t`, so wrap-around past 65535 characters is not modelled.
- Parser.ApplyBinary: the exponent is the exact whole number, not its `uint32_t` cast.
- Parser.ConvertToPostfix: a ')' with no matching '(' (as in "1)") pops an empty `std::stack` at include/polynomial_parser.h:377, which is undefined behaviour. The model's `DropTop` leaves an empty stack as it is and goes on.
- Parser.Parse: the value is stated for every expression that tokenizes as an unambiguous term (ParseOfTerm): numbers, the variable, binary operators, parenthesised groups, and signs directly inside parentheses. A sign elsewhere, as in "-1" or "2*-X", is not covered. Of the library's test cases (test/polynomial_parser_tests.cpp:471-495), three are pinned: "5 - 6", "3*X + 5" and "X^9 / X^2". The others are terms of the same kind, but their tokens and values are not worked out here.
- Parser.ParsePolynomial: states that it computes `Parse`, so it has the same gaps as Parser.Parse.
- Matrices.Matrix.Set: a write through `operator()(row, col)` outside the matrix is unchecked in the source and writes out of bounds (undefined behaviour); the model's precondition keeps it inside. The checked write through `at` is Matrices.Matrix.SetAt, which refuses an out-of-range position.
- Chebyshev.FirstKindCache.Create1stKind: the cache is an object field rather than a class-wide static data member shared by all callers (include/chebyshev_polynomial.h:28).
- Legendre.LegendreCache.Create: the cache is an object field rather than a class-wide static data member shared by all callers (include/legendre_polynomial.h:26).

## Findings

| source | as written | input that shows it | evidently intended | confidence | as-written member | corrected member |
|---|---|---|---|---|---|---|
| include/utils.h:48-50 | `is_odd` tests `a % 2 == 1` with C++'s truncating `%` | a = -3: the remainder is -1, so -3 is neither even nor odd | odd means not even for every integer, as test/utils_test.cpp:140 expects | not executed | Utils.IsOddAsWrittenMissesNegatives | Utils.IsOddCorrect |
| include/utils.h:65 | the first entry's sign is taken even when it is nearly zero | [0, -1] counts one change, but its negation [0, 1] counts none | nearly-zero entries are skipped everywhere, so s and -s have the same count | not executed | Utils.SignChangesAsWrittenNotSymmetric | Utils.SignChangesNonZeroSymmetric |
| include/polynomial_parser.h:237-238 | skipping a blank calls `scan_token` without the variable, which defaults to 'X' | " Y" with variable 'Y' gives INVALID_VARIABLE | a blank is skipped and the requested variable is kept | not executed | Scanner.ScanTokenAsWrittenDropsVariable | Scanner.ScanTokenSkipsBlank |
| include/polynomial_parser.h:237-238 | `tokenize` inherits the dropped variable after a blank | "2* Y" with variable 'Y' fails with INVALID_VARIABLE | the expression tokenizes with the variable Y | not executed | Scanner.TokenizeAsWrittenDropsVariableAfterBlank | Scanner.TokenizeKeepsVariable |
| include/polynomial_parser.h:279 | `tokenize` scans the first token with `scan_token(expression)`, whose variable defaults to 'X' | "Y" with variable 'Y' fails with INVALID_VARIABLE at the first token | the first token is scanned with the requested variable | not executed | Scanner.TokenizeAsWrittenDropsVariable | Scanner.TokenizeKeepsVariable |
| include/polynomial_parser.h:330-331 | the precedence map lists SIGN_MINUS twice and SIGN_PLUS not at all, so SIGN_PLUS gets precedence 0 | "1-+X": SIGN_PLUS pops the binary '-' before its operand is read, and evaluation fails with OPERAND_EXPECTED | both signs bind at precedence 3, and "1-+X" is 1 - X | not executed | Parser.SignPlusAsWrittenFails | Parser.SignPlusCorrected |
| test/polynomial_tests.cpp:311-316 | the test asserts that `one.integrate()` is zero, dropping the constant term's integral as well | the constant 1: its integral is zero, whose derivative is not 1 | `integrate` maps a_k to a_k/(k+1) at X^(k+1) for every k, so integrate(1) = X and derive(integrate(p)) == p | not executed | Polynomials.IntegrateAsTestedLosesConstant | Polynomials.DeriveIntegrate |
