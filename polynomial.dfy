/** Univariate polynomials with real coefficients (include/polynomial.h).
    A polynomial is the sequence of its coefficients in ascending powers,
    trimmed so that the leading coefficient is non-zero; the zero polynomial
    is the single coefficient 0 and has degree 0.  Coefficients are exact
    reals: where the library compares with a tolerance of 1e-5, the model
    compares exactly. */
module Polynomials {
  import C = Coefficients

  /** A trimmed coefficient sequence, index i holding the coefficient of X^i. */
  type Poly = s: seq<real> | C.IsTrimmed(s) witness [0.0]

  /** Coefficient of X^i (the const `operator[]`): zero past the degree. */
  function Coefficient(p: Poly, i: nat): real {
    C.Coef(p, i)
  }

  /** The polynomial given by a coefficient list in ascending powers; trailing
      zeros are dropped (the coefficient-list constructors). */
  function FromCoefficients(cs: seq<real>): (p: Poly)
    ensures forall i: nat :: Coefficient(p, i) == C.Coef(cs, i)
    ensures |p| <= C.Max(|cs|, 1)
  {
    C.Trim(cs)
  }

  /** Two polynomials with the same coefficient at every power are the same value. */
  lemma Ext(p: Poly, q: Poly)
    requires forall i: nat :: Coefficient(p, i) == Coefficient(q, i)
    ensures p == q
  {
    forall i: nat ensures C.Coef(p, i) == C.Coef(q, i) {
      assert Coefficient(p, i) == Coefficient(q, i);
    }
    C.TrimmedUnique(p, q);
  }

  function Zero(): (p: Poly)
    ensures forall i: nat :: Coefficient(p, i) == 0.0
  {
    [0.0]
  }

  function One(): (p: Poly)
    ensures Coefficient(p, 0) == 1.0
    ensures forall i: nat :: i > 0 ==> Coefficient(p, i) == 0.0
  {
    [1.0]
  }

  /** The constant polynomial c. */
  function Constant(c: real): (p: Poly)
    ensures Coefficient(p, 0) == c
    ensures forall i: nat :: i > 0 ==> Coefficient(p, i) == 0.0
  {
    [c]
  }

  /** The polynomial X. */
  function X(): (p: Poly)
    ensures Coefficient(p, 1) == 1.0
    ensures forall i: nat :: i != 1 ==> Coefficient(p, i) == 0.0
  {
    [0.0, 1.0]
  }

  function Degree(p: Poly): nat {
    |p| - 1
  }

  function LeadingCoefficient(p: Poly): real {
    p[|p| - 1]
  }

  predicate IsZero(p: Poly) {
    p == [0.0]
  }

  predicate IsOne(p: Poly) {
    p == [1.0]
  }

  predicate IsConstant(p: Poly) {
    Degree(p) == 0
  }

  /** Degree at most one: the library counts constants as linear. */
  predicate IsLinear(p: Poly) {
    Degree(p) <= 1
  }

  predicate IsQuadratic(p: Poly) {
    Degree(p) == 2
  }

  predicate IsCubic(p: Poly) {
    Degree(p) == 3
  }

  /** A polynomial is zero exactly when every coefficient is zero. */
  lemma ZeroIffAllCoefficientsZero(p: Poly)
    ensures IsZero(p) <==> forall i: nat :: Coefficient(p, i) == 0.0
  {
    if forall i: nat :: Coefficient(p, i) == 0.0 {
      Ext(p, Zero());
    }
  }

  /** The leading coefficient is non-zero unless the polynomial is zero, and
      every coefficient above the degree is zero. */
  lemma LeadingCoefficientFacts(p: Poly)
    ensures LeadingCoefficient(p) == 0.0 <==> IsZero(p)
    ensures LeadingCoefficient(p) == Coefficient(p, Degree(p))
    ensures forall i: nat :: i > Degree(p) ==> Coefficient(p, i) == 0.0
  {
  }

  /** `operator==`: equality of every coefficient, which on trimmed sequences
      is plain equality. */
  function Equals(p: Poly, q: Poly): (b: bool)
    ensures b <==> forall i: nat :: Coefficient(p, i) == Coefficient(q, i)
  {
    if p == q then true else Distinct(p, q); false
  }

  /** Distinct polynomials differ in some coefficient. */
  lemma Distinct(p: Poly, q: Poly)
    requires p != q
    ensures exists i: nat :: Coefficient(p, i) != Coefficient(q, i)
  {
    if forall i: nat :: Coefficient(p, i) == Coefficient(q, i) {
      Ext(p, q);
    }
  }

  // ---------------------------------------------------------------------
  // Evaluation

  /** x^n */
  function Power(x: real, n: nat): real {
    if n == 0 then 1.0 else C.Times(x, Power(x, n - 1))
  }

  /** `evaluate` / `operator()`: Horner's scheme. */
  function Evaluate(p: Poly, x: real): real {
    C.Eval(p, x)
  }

  /** The sum of c_i * x^i over the first n coefficients: the textbook meaning
      of evaluation, against which Horner's scheme is checked. */
  function PowerSum(a: seq<real>, x: real, n: nat): real {
    if n == 0 then 0.0 else PowerSum(a, x, n - 1) + C.Times(C.Coef(a, n - 1), Power(x, n - 1))
  }

  lemma {:induction false} HornerIsPowerSumRaw(a: seq<real>, x: real, n: nat)
    requires n >= |a|
    ensures C.Eval(a, x) == PowerSum(a, x, n)
    decreases n
  {
    if n == 0 {
    } else if |a| == 0 {
      HornerIsPowerSumRaw(a, x, n - 1);
      C.TimesZero(Power(x, n - 1));
    } else {
      HornerIsPowerSumRaw(a[1..], x, n - 1);
      PowerSumShift(a, x, n);
    }
  }

  /** Sum over a equals its constant term plus x times the sum over its tail. */
  lemma {:induction false} PowerSumShift(a: seq<real>, x: real, n: nat)
    requires |a| >= 1 && n >= 1
    ensures PowerSum(a, x, n) == a[0] + C.Times(x, PowerSum(a[1..], x, n - 1))
    decreases n
  {
    if n == 1 {
      C.TimesOne(a[0]);
      C.TimesZero(x);
    } else {
      PowerSumShift(a, x, n - 1);
      var t := a[1..];
      assert C.Coef(a, n - 1) == C.Coef(t, n - 2);
      C.TimesSwap(C.Coef(t, n - 2), x, Power(x, n - 2));
      C.TimesAddRight(x, PowerSum(t, x, n - 2), C.Times(C.Coef(t, n - 2), Power(x, n - 2)));
    }
  }

  /** Horner's scheme computes the sum of c_i * x^i. */
  lemma EvaluateIsPowerSum(p: Poly, x: real)
    ensures Evaluate(p, x) == PowerSum(p, x, |p|)
  {
    HornerIsPowerSumRaw(p, x, |p|);
  }

  // ---------------------------------------------------------------------
  // Ring operations

  /** `operator+(polynomial)` */
  function Add(p: Poly, q: Poly): (r: Poly)
    ensures forall i: nat :: Coefficient(r, i) == Coefficient(p, i) + Coefficient(q, i)
  {
    C.Trim(C.Add(p, q))
  }

  /** `operator-(polynomial)` */
  function Sub(p: Poly, q: Poly): (r: Poly)
    ensures forall i: nat :: Coefficient(r, i) == Coefficient(p, i) - Coefficient(q, i)
  {
    C.Trim(C.Sub(p, q))
  }

  /** Unary `operator-` */
  function Neg(p: Poly): (r: Poly)
    ensures forall i: nat :: Coefficient(r, i) == -Coefficient(p, i)
  {
    C.Trim(C.Neg(p))
  }

  /** Unary `operator+`: the polynomial itself. */
  function Plus(p: Poly): (r: Poly)
    ensures Equals(r, p)
  {
    p
  }

  /** `operator*(polynomial)` */
  function Mul(p: Poly, q: Poly): Poly {
    C.Trim(C.Mul(p, q))
  }

  lemma CoefficientMul(p: Poly, q: Poly, i: nat)
    ensures Coefficient(Mul(p, q), i) == C.MulCoef(p, q, i)
  {
    C.CoefMul(p, q, i);
  }

  lemma AddEval(p: Poly, q: Poly, x: real)
    ensures Evaluate(Add(p, q), x) == Evaluate(p, x) + Evaluate(q, x)
  {
    C.EvalEqv(Add(p, q), C.Add(p, q), x);
    C.EvalAdd(p, q, x);
  }

  lemma SubEval(p: Poly, q: Poly, x: real)
    ensures Evaluate(Sub(p, q), x) == Evaluate(p, x) - Evaluate(q, x)
  {
    C.EvalEqv(Sub(p, q), C.Sub(p, q), x);
    C.EvalSub(p, q, x);
  }

  lemma NegEval(p: Poly, x: real)
    ensures Evaluate(Neg(p), x) == -Evaluate(p, x)
  {
    C.EvalEqv(Neg(p), C.Neg(p), x);
    C.EvalNeg(p, x);
  }

  /** Evaluation turns the product of polynomials into the product of values. */
  lemma MulEval(p: Poly, q: Poly, x: real)
    ensures Evaluate(Mul(p, q), x) == C.Times(Evaluate(p, x), Evaluate(q, x))
  {
    C.EvalEqv(Mul(p, q), C.Mul(p, q), x);
    C.EvalMul(p, q, x);
  }

  /** The product of non-zero polynomials has the sum of their degrees and the
      product of their leading coefficients; a zero factor gives zero. */
  lemma MulDegree(p: Poly, q: Poly)
    ensures !IsZero(p) && !IsZero(q) ==>
              Degree(Mul(p, q)) == Degree(p) + Degree(q) &&
              LeadingCoefficient(Mul(p, q)) == C.Times(LeadingCoefficient(p), LeadingCoefficient(q))
    ensures IsZero(p) || IsZero(q) <==> IsZero(Mul(p, q))
  {
    var m := C.Mul(p, q);
    if !IsZero(p) && !IsZero(q) {
      C.MulTop(p, q);
      C.TimesZeroIff(LeadingCoefficient(p), LeadingCoefficient(q));
      assert m[|m| - 1] != 0.0;
      C.TrimTrimmed(m);
      LeadingCoefficientFacts(Mul(p, q));
    } else {
      forall i: nat ensures Coefficient(Mul(p, q), i) == 0.0 {
        CoefficientMul(p, q, i);
        if IsZero(p) {
          C.MulCoefEqvLeft(p, [], q, i);
          C.MulCoefEmpty(q, i);
        } else {
          C.MulCoefEqvRight(p, q, [], i);
          C.MulCoefEmptyRight(p, i);
        }
      }
      ZeroIffAllCoefficientsZero(Mul(p, q));
    }
  }

  lemma AddComm(p: Poly, q: Poly)
    ensures Add(p, q) == Add(q, p)
  {
    Ext(Add(p, q), Add(q, p));
  }

  lemma AddAssoc(p: Poly, q: Poly, r: Poly)
    ensures Add(Add(p, q), r) == Add(p, Add(q, r))
  {
    Ext(Add(Add(p, q), r), Add(p, Add(q, r)));
  }

  lemma AddZero(p: Poly)
    ensures Add(p, Zero()) == p && Add(Zero(), p) == p
  {
    Ext(Add(p, Zero()), p);
    Ext(Add(Zero(), p), p);
  }

  /** Subtraction undoes addition. */
  lemma SubAddCancel(p: Poly, q: Poly)
    ensures Add(Sub(p, q), q) == p
    ensures Sub(Add(p, q), q) == p
    ensures IsZero(Sub(p, p))
  {
    Ext(Add(Sub(p, q), q), p);
    Ext(Sub(Add(p, q), q), p);
    Ext(Sub(p, p), Zero());
  }

  lemma NegInvolution(p: Poly)
    ensures Neg(Neg(p)) == p
    ensures Add(p, Neg(p)) == Zero()
  {
    Ext(Neg(Neg(p)), p);
    Ext(Add(p, Neg(p)), Zero());
  }

  lemma MulComm(p: Poly, q: Poly)
    ensures Mul(p, q) == Mul(q, p)
  {
    C.MulComm(p, q);
    C.TrimEqv(C.Mul(p, q), C.Mul(q, p));
  }

  lemma MulAssoc(p: Poly, q: Poly, r: Poly)
    ensures Mul(Mul(p, q), r) == Mul(p, Mul(q, r))
  {
    var pq, qr := C.Mul(p, q), C.Mul(q, r);
    C.MulEqv(Mul(p, q), pq, r, r);
    C.MulAssoc(p, q, r);
    C.MulEqv(p, p, qr, Mul(q, r));
    C.TrimEqv(C.Mul(Mul(p, q), r), C.Mul(p, Mul(q, r)));
  }

  lemma MulAddRight(p: Poly, q: Poly, r: Poly)
    ensures Mul(p, Add(q, r)) == Add(Mul(p, q), Mul(p, r))
  {
    C.MulEqv(p, p, Add(q, r), C.Add(q, r));
    C.MulAddRight(p, q, r);
    C.AddEqv(C.Mul(p, q), Mul(p, q), C.Mul(p, r), Mul(p, r));
    C.TrimEqv(C.Mul(p, Add(q, r)), C.Add(Mul(p, q), Mul(p, r)));
  }

  lemma MulAddLeft(p: Poly, q: Poly, r: Poly)
    ensures Mul(Add(p, q), r) == Add(Mul(p, r), Mul(q, r))
  {
    MulComm(Add(p, q), r);
    MulAddRight(r, p, q);
    MulComm(r, p);
    MulComm(r, q);
  }

  lemma MulSubRight(p: Poly, q: Poly, r: Poly)
    ensures Mul(p, Sub(q, r)) == Sub(Mul(p, q), Mul(p, r))
  {
    SubAddCancel(q, r);
    MulAddRight(p, Sub(q, r), r);
    SubAddCancel(Mul(p, Sub(q, r)), Mul(p, r));
  }

  lemma MulOne(p: Poly)
    ensures Mul(p, One()) == p && Mul(One(), p) == p
  {
    forall i: nat ensures Coefficient(Mul(One(), p), i) == Coefficient(p, i) {
      CoefficientMul(One(), p, i);
      C.TimesOne(C.Coef(p, i));
      if i > 0 {
        C.MulCoefEmpty(p, i - 1);
        assert C.Tail(One()) == [];
      }
    }
    Ext(Mul(One(), p), p);
    MulComm(p, One());
  }

  lemma MulZero(p: Poly)
    ensures Mul(p, Zero()) == Zero() && Mul(Zero(), p) == Zero()
  {
    MulDegree(p, Zero());
    MulDegree(Zero(), p);
  }

  // ---------------------------------------------------------------------
  // Scalar operations

  /** `operator+(scalar)`: adds the scalar to the constant term only. */
  function AddScalar(p: Poly, s: real): (r: Poly)
    ensures Coefficient(r, 0) == Coefficient(p, 0) + s
    ensures forall i: nat :: i > 0 ==> Coefficient(r, i) == Coefficient(p, i)
  {
    Add(p, Constant(s))
  }

  /** `operator-(scalar)`: subtracts the scalar from the constant term only. */
  function SubScalar(p: Poly, s: real): (r: Poly)
    ensures Coefficient(r, 0) == Coefficient(p, 0) - s
    ensures forall i: nat :: i > 0 ==> Coefficient(r, i) == Coefficient(p, i)
  {
    Sub(p, Constant(s))
  }

  /** `operator*(scalar)`: multiplies every coefficient. */
  function MulScalar(p: Poly, s: real): (r: Poly)
    ensures forall i: nat :: Coefficient(r, i) == C.Times(s, Coefficient(p, i))
  {
    C.Trim(C.Scale(s, p))
  }

  lemma MulScalarOne(p: Poly)
    ensures MulScalar(p, 1.0) == p
  {
    forall i: nat ensures Coefficient(MulScalar(p, 1.0), i) == Coefficient(p, i) {
      C.TimesOne(Coefficient(p, i));
    }
    Ext(MulScalar(p, 1.0), p);
  }

  /** `operator/(scalar)`: divides every coefficient; the scalar must be non-zero. */
  function DivScalar(p: Poly, s: real): (r: Poly)
    requires s != 0.0
    ensures forall i: nat :: Coefficient(r, i) == C.Over(Coefficient(p, i), s)
  {
    var raw := seq(|p|, i requires 0 <= i < |p| => C.Over(p[i], s));
    assert forall i: nat :: C.Coef(raw, i) == C.Over(C.Coef(p, i), s);
    C.Trim(raw)
  }

  lemma ConstantEval(c: real, x: real)
    ensures Evaluate(Constant(c), x) == c
  {
    var k: seq<real> := [c];
    C.EvalUnfold(k, x);
    assert C.Tail(k) == [];
    assert C.Eval(C.Tail(k), x) == 0.0;
    C.TimesZero(x);
  }

  lemma AddScalarEval(p: Poly, s: real, x: real)
    ensures Evaluate(AddScalar(p, s), x) == Evaluate(p, x) + s
  {
    AddEval(p, Constant(s), x);
    ConstantEval(s, x);
  }

  lemma SubScalarEval(p: Poly, s: real, x: real)
    ensures Evaluate(SubScalar(p, s), x) == Evaluate(p, x) - s
  {
    SubEval(p, Constant(s), x);
    ConstantEval(s, x);
  }

  lemma MulScalarEval(p: Poly, s: real, x: real)
    ensures Evaluate(MulScalar(p, s), x) == C.Times(s, Evaluate(p, x))
  {
    C.EvalEqv(MulScalar(p, s), C.Scale(s, p), x);
    C.EvalScale(s, p, x);
  }

  /** Scaling is multiplication by the constant polynomial. */
  lemma MulScalarIsMulConstant(p: Poly, s: real)
    ensures MulScalar(p, s) == Mul(Constant(s), p)
  {
    forall i: nat ensures Coefficient(Mul(Constant(s), p), i) == Coefficient(MulScalar(p, s), i) {
      CoefficientMul(Constant(s), p, i);
      if i > 0 {
        assert C.Tail(Constant(s)) == [];
        C.MulCoefEmpty(p, i - 1);
      }
    }
    Ext(MulScalar(p, s), Mul(Constant(s), p));
  }

  /** Dividing by a scalar undoes multiplying by it. */
  lemma DivScalarInverse(p: Poly, s: real)
    requires s != 0.0
    ensures DivScalar(MulScalar(p, s), s) == p
  {
    forall i: nat ensures Coefficient(DivScalar(MulScalar(p, s), s), i) == Coefficient(p, i) {
      C.OverTimes(s, Coefficient(p, i));
    }
    Ext(DivScalar(MulScalar(p, s), s), p);
  }

  // ---------------------------------------------------------------------
  // Monomials

  /** `monomial(degree, coeff)`: coeff * X^degree. */
  function Monomial(degree: nat, c: real): (m: Poly)
    ensures Coefficient(m, degree) == c
    ensures forall i: nat :: i != degree ==> Coefficient(m, i) == 0.0
  {
    var raw := C.ShiftBy(degree, [c]);
    assert forall i: nat :: C.Coef(raw, i) == if i == degree then c else 0.0 by {
      forall i: nat ensures C.Coef(raw, i) == if i == degree then c else 0.0 {
        C.CoefShiftBy(degree, [c], i);
      }
    }
    C.Trim(raw)
  }

  /** A monomial with a non-zero coefficient has exactly the requested degree. */
  lemma MonomialDegree(degree: nat, c: real)
    ensures c != 0.0 ==> Degree(Monomial(degree, c)) == degree && LeadingCoefficient(Monomial(degree, c)) == c
    ensures c == 0.0 ==> IsZero(Monomial(degree, c))
  {
    var m := Monomial(degree, c);
    if c == 0.0 {
      ZeroIffAllCoefficientsZero(m);
    } else {
      LeadingCoefficientFacts(m);
    }
  }

  // ---------------------------------------------------------------------
  // Euclidean division

  /** A polynomial whose coefficients vanish from X^n upwards is zero when
      n is 0 and has degree below n otherwise. */
  lemma VanishingFrom(p: Poly, n: nat)
    requires forall i: nat :: i >= n ==> Coefficient(p, i) == 0.0
    ensures n == 0 ==> IsZero(p)
    ensures n > 0 ==> Degree(p) < n
  {
    LeadingCoefficientFacts(p);
    if n == 0 {
      ZeroIffAllCoefficientsZero(p);
    }
  }

  /** The next term of the quotient in long division: the dividend's leading
      coefficient over the divisor's, at the difference of their degrees. */
  function LeadingTerm(p: Poly, d: Poly): Poly
    requires !IsZero(p) && !IsZero(d) && Degree(p) >= Degree(d)
  {
    Monomial(Degree(p) - Degree(d), C.Over(LeadingCoefficient(p), LeadingCoefficient(d)))
  }

  /** The leading term of the quotient, times the divisor, has the dividend's
      degree and leading coefficient. */
  lemma LeadingTermProduct(p: Poly, d: Poly)
    requires !IsZero(p) && !IsZero(d) && Degree(p) >= Degree(d)
    ensures Degree(Mul(d, LeadingTerm(p, d))) == Degree(p)
    ensures LeadingCoefficient(Mul(d, LeadingTerm(p, d))) == LeadingCoefficient(p)
  {
    var e: nat := Degree(p) - Degree(d);
    LeadingCoefficientFacts(p);
    LeadingCoefficientFacts(d);
    var c := C.Over(LeadingCoefficient(p), LeadingCoefficient(d));
    assert LeadingTerm(p, d) == Monomial(e, c);
    C.TimesOver(LeadingCoefficient(d), LeadingCoefficient(p));
    C.TimesZeroIff(LeadingCoefficient(d), c);
    MonomialDegree(e, c);
    MulDegree(d, Monomial(e, c));
  }

  /** Subtracting the leading term of the quotient times the divisor cancels
      the leading coefficient of the dividend. */
  lemma LeadingTermCancels(p: Poly, d: Poly)
    requires !IsZero(p) && !IsZero(d) && Degree(p) >= Degree(d)
    ensures Degree(p) == 0 ==> IsZero(Sub(p, Mul(d, LeadingTerm(p, d))))
    ensures Degree(p) > 0 ==> Degree(Sub(p, Mul(d, LeadingTerm(p, d)))) < Degree(p)
  {
    LeadingTermProduct(p, d);
    SubSameLead(p, Mul(d, LeadingTerm(p, d)));
  }

  /** Subtracting a polynomial of the same degree and leading coefficient
      lowers the degree (or leaves zero). */
  lemma SubSameLead(p: Poly, m: Poly)
    requires !IsZero(p) && Degree(m) == Degree(p) && LeadingCoefficient(m) == LeadingCoefficient(p)
    ensures Degree(p) == 0 ==> IsZero(Sub(p, m))
    ensures Degree(p) > 0 ==> Degree(Sub(p, m)) < Degree(p)
  {
    LeadingCoefficientFacts(p);
    LeadingCoefficientFacts(m);
    VanishingFrom(Sub(p, m), Degree(p));
  }

  /** One step of long division keeps the division law. */
  lemma DivisionStep(p: Poly, d: Poly, t: Poly, q: Poly, r: Poly)
    requires Sub(p, Mul(d, t)) == Add(Mul(d, q), r)
    ensures p == Add(Mul(d, Add(q, t)), r)
  {
    MulAddRight(d, q, t);
    var lhs := Add(Mul(d, Add(q, t)), r);
    forall i: nat ensures Coefficient(lhs, i) == Coefficient(p, i) {
      assert Coefficient(Sub(p, Mul(d, t)), i) == Coefficient(Add(Mul(d, q), r), i);
    }
    Ext(lhs, p);
  }

  /** `divide`: long division by a non-zero divisor, giving (quotient, remainder)
      with dividend = divisor * quotient + remainder and the remainder zero
      or of smaller degree than the divisor. */
  function Divide(p: Poly, d: Poly): (res: (Poly, Poly))
    requires !IsZero(d)
    ensures p == Add(Mul(d, res.0), res.1)
    ensures IsZero(res.1) || Degree(res.1) < Degree(d)
    decreases Degree(p), if IsZero(p) then 0 else 1
  {
    if IsZero(p) || Degree(p) < Degree(d) then
      MulZero(d);
      AddZero(p);
      (Zero(), p)
    else
      var t := LeadingTerm(p, d);
      var rest := Sub(p, Mul(d, t));
      LeadingTermCancels(p, d);
      var (q, r) := Divide(rest, d);
      DivisionStep(p, d, t, q, r);
      (Add(q, t), r)
  }

  /** `operator/(polynomial)`: the quotient of `divide`. */
  function Quotient(p: Poly, d: Poly): (q: Poly)
    requires !IsZero(d)
    ensures exists r: Poly :: p == Add(Mul(d, q), r) && (IsZero(r) || Degree(r) < Degree(d))
  {
    var res := Divide(p, d);
    assert p == Add(Mul(d, res.0), res.1);
    res.0
  }

  /** `operator%(polynomial)`: the remainder of `divide`. */
  function Remainder(p: Poly, d: Poly): (r: Poly)
    requires !IsZero(d)
    ensures IsZero(r) || Degree(r) < Degree(d)
    ensures exists q: Poly :: p == Add(Mul(d, q), r)
  {
    var res := Divide(p, d);
    assert p == Add(Mul(d, res.0), res.1);
    res.1
  }

  /** The coefficients of a remainder vanish from the divisor's degree upwards. */
  lemma SmallRemainder(r: Poly, d: Poly)
    requires IsZero(r) || Degree(r) < Degree(d)
    ensures forall i: nat :: i >= Degree(d) ==> Coefficient(r, i) == 0.0
  {
    LeadingCoefficientFacts(r);
  }

  /** Two division laws for the same dividend: the divisor times the
      difference of the quotients is the difference of the remainders. */
  lemma QuotientDifference(d: Poly, q: Poly, r: Poly, q0: Poly, r0: Poly)
    requires Add(Mul(d, q), r) == Add(Mul(d, q0), r0)
    ensures forall i: nat :: Coefficient(Mul(d, Sub(q, q0)), i) == Coefficient(r0, i) - Coefficient(r, i)
  {
    MulSubRight(d, q, q0);
    forall i: nat ensures Coefficient(Mul(d, Sub(q, q0)), i) == Coefficient(r0, i) - Coefficient(r, i) {
      assert Coefficient(Add(Mul(d, q), r), i) == Coefficient(Add(Mul(d, q0), r0), i);
    }
  }

  /** A multiple of d whose coefficients vanish from deg d upwards is zero. */
  lemma SmallMultiple(d: Poly, s: Poly)
    requires !IsZero(d)
    requires forall i: nat :: i >= Degree(d) ==> Coefficient(Mul(d, s), i) == 0.0
    ensures IsZero(s)
  {
    MulDegree(d, s);
    LeadingCoefficientFacts(Mul(d, s));
  }

  /** The quotient and remainder are the only pair satisfying the division law. */
  lemma DivideUnique(p: Poly, d: Poly, q: Poly, r: Poly)
    requires !IsZero(d)
    requires p == Add(Mul(d, q), r)
    requires IsZero(r) || Degree(r) < Degree(d)
    ensures Divide(p, d) == (q, r)
  {
    var (q0, r0) := Divide(p, d);
    var s := Sub(q, q0);
    var diff := Mul(d, s);
    QuotientDifference(d, q, r, q0, r0);
    SmallRemainder(r, d);
    SmallRemainder(r0, d);
    SmallMultiple(d, s);
    SubZeroEqual(q, q0);
    AddComm(Mul(d, q), r);
    AddComm(Mul(d, q), r0);
    SubAddCancel(r, Mul(d, q));
    SubAddCancel(r0, Mul(d, q));
  }

  /** Polynomials whose difference is zero are equal. */
  lemma SubZeroEqual(p: Poly, q: Poly)
    requires IsZero(Sub(p, q))
    ensures p == q
  {
    ZeroIffAllCoefficientsZero(Sub(p, q));
    forall i: nat ensures Coefficient(p, i) == Coefficient(q, i) {
      assert Coefficient(Sub(p, q), i) == 0.0;
    }
    Ext(p, q);
  }

  // ---------------------------------------------------------------------
  // Derivative and integral

  /** `derive`: X^k with coefficient a becomes k*a*X^(k-1). */
  function Derive(p: Poly): (r: Poly)
    ensures forall i: nat :: Coefficient(r, i) == C.Times((i + 1) as real, Coefficient(p, i + 1))
  {
    var raw := seq(|p| - 1, i requires 0 <= i < |p| - 1 => C.Times((i + 1) as real, p[i + 1]));
    C.Trim(raw)
  }

  /** `integrate`: X^k with coefficient a becomes a/(k+1)*X^(k+1), with
      constant term zero. */
  function Integrate(p: Poly): (r: Poly)
    ensures Coefficient(r, 0) == 0.0
    ensures forall i: nat :: Coefficient(r, i + 1) == C.Over(Coefficient(p, i), (i + 1) as real)
  {
    var raw := [0.0] + seq(|p|, i requires 0 <= i < |p| => C.Over(p[i], (i + 1) as real));
    assert forall i: nat :: C.Coef(raw, i + 1) == C.Over(C.Coef(p, i), (i + 1) as real);
    C.Trim(raw)
  }

  /** Differentiating the integral gives back the polynomial. */
  lemma DeriveIntegrate(p: Poly)
    ensures Derive(Integrate(p)) == p
  {
    forall i: nat ensures Coefficient(Derive(Integrate(p)), i) == Coefficient(p, i) {
      C.TimesOver((i + 1) as real, Coefficient(p, i));
    }
    Ext(Derive(Integrate(p)), p);
  }

  /** The integral as `test/polynomial_tests.cpp` expects it: `one.integrate()`
      is zero there, while X and X^2 integrate to X^2/2 and X^3/3.  The reading
      that agrees with every one of those expectations drops the constant
      coefficient before integrating. */
  function IntegrateAsTested(p: Poly): (r: Poly)
    ensures Coefficient(r, 0) == 0.0 && Coefficient(r, 1) == 0.0
    ensures forall i: nat :: i > 0 ==> Coefficient(r, i + 1) == C.Over(Coefficient(p, i), (i + 1) as real)
  {
    Integrate(SubScalar(p, Coefficient(p, 0)))
  }

  /** With that reading the constant one integrates to zero, whose derivative
      is not one: the integral no longer inverts `derive`. */
  lemma IntegrateAsTestedLosesConstant()
    ensures IntegrateAsTested(One()) == Zero()
    ensures Derive(IntegrateAsTested(One())) != One()
  {
    var r := IntegrateAsTested(One());
    forall i: nat ensures Coefficient(r, i) == Coefficient(Zero(), i) {
      if i >= 2 {
        var j: nat := i - 1;
        assert Coefficient(r, j + 1) == C.Over(Coefficient(One(), j), (j + 1) as real);
      }
    }
    Ext(r, Zero());
    assert Coefficient(Derive(r), 0) == C.Times(1.0, Coefficient(r, 1));
    C.TimesZero(1.0);
  }

  /** Integrating the derivative gives back the polynomial without its constant term. */
  lemma IntegrateDerive(p: Poly)
    ensures Integrate(Derive(p)) == SubScalar(p, Coefficient(p, 0))
  {
    var lhs := Integrate(Derive(p));
    forall i: nat ensures Coefficient(lhs, i) == Coefficient(SubScalar(p, Coefficient(p, 0)), i) {
      IntegrateDeriveAt(p, i);
    }
    Ext(lhs, SubScalar(p, Coefficient(p, 0)));
  }

  lemma IntegrateDeriveAt(p: Poly, i: nat)
    ensures Coefficient(Integrate(Derive(p)), i) == Coefficient(SubScalar(p, Coefficient(p, 0)), i)
  {
    if i > 0 {
      assert Coefficient(Integrate(Derive(p)), i) == C.Over(Coefficient(Derive(p), i - 1), i as real);
      C.OverTimes(i as real, Coefficient(p, i));
    }
  }

  /** The derivative of a constant is zero; otherwise it lowers the degree by
      one and scales the leading coefficient by the degree. */
  lemma DeriveDegree(p: Poly)
    ensures IsConstant(p) ==> IsZero(Derive(p))
    ensures Degree(p) >= 1 ==>
              Degree(Derive(p)) == Degree(p) - 1 &&
              LeadingCoefficient(Derive(p)) == C.Times(Degree(p) as real, LeadingCoefficient(p))
  {
    var r := Derive(p);
    LeadingCoefficientFacts(p);
    if IsConstant(p) {
      ZeroIffAllCoefficientsZero(r);
    } else {
      var n := Degree(p);
      assert Coefficient(r, n - 1) == C.Times(n as real, LeadingCoefficient(p));
      C.TimesZeroIff(n as real, LeadingCoefficient(p));
      VanishingFrom(r, n);
      LeadingCoefficientFacts(r);
    }
  }

  /** Differentiation is linear. */
  lemma DeriveAdd(p: Poly, q: Poly)
    ensures Derive(Add(p, q)) == Add(Derive(p), Derive(q))
  {
    forall i: nat ensures Coefficient(Derive(Add(p, q)), i) == Coefficient(Add(Derive(p), Derive(q)), i) {
      DeriveAddAt(p, q, i);
    }
    Ext(Derive(Add(p, q)), Add(Derive(p), Derive(q)));
  }

  lemma DeriveAddAt(p: Poly, q: Poly, i: nat)
    ensures Coefficient(Derive(Add(p, q)), i) == Coefficient(Add(Derive(p), Derive(q)), i)
  {
    var k := (i + 1) as real;
    var a := Coefficient(p, i + 1);
    var b := Coefficient(q, i + 1);
    assert Coefficient(Derive(Add(p, q)), i) == C.Times(k, Coefficient(Add(p, q), i + 1));
    assert Coefficient(Add(p, q), i + 1) == a + b;
    assert Coefficient(Add(Derive(p), Derive(q)), i) == Coefficient(Derive(p), i) + Coefficient(Derive(q), i);
    assert Coefficient(Derive(p), i) == C.Times(k, a) && Coefficient(Derive(q), i) == C.Times(k, b);
    C.TimesAddRight(k, a, b);
  }

  // ---------------------------------------------------------------------
  // Powers and composition

  /** `pow(n)`: the n-fold product, one for n = 0. */
  function Pow(p: Poly, n: nat): Poly {
    if n == 0 then One() else Mul(p, Pow(p, n - 1))
  }

  lemma {:induction false} PowEval(p: Poly, n: nat, x: real)
    ensures Evaluate(Pow(p, n), x) == Power(Evaluate(p, x), n)
  {
    if n == 0 {
      ConstantEval(1.0, x);
    } else {
      PowEval(p, n - 1, x);
      MulEval(p, Pow(p, n - 1), x);
    }
  }

  /** Exponents add under multiplication. */
  lemma {:induction false} PowAdd(p: Poly, m: nat, n: nat)
    ensures Pow(p, m + n) == Mul(Pow(p, m), Pow(p, n))
  {
    if m == 0 {
      MulOne(Pow(p, n));
    } else {
      var k: nat := m - 1;
      PowAdd(p, k, n);
      PowAddStep(p, m, k, n);
    }
  }

  lemma PowSucc(p: Poly, m: nat, k: nat)
    requires m == k + 1
    ensures Pow(p, m) == Mul(p, Pow(p, k))
  {
  }

  lemma PowSuccShift(p: Poly, m: nat, k: nat, n: nat)
    requires m == k + 1
    ensures Pow(p, m + n) == Mul(p, Pow(p, k + n))
  {
    var j := k + n;
    assert m + n == j + 1;
    assert Pow(p, j + 1) == Mul(p, Pow(p, j));
  }

  lemma PowAddStep(p: Poly, m: nat, k: nat, n: nat)
    requires m == k + 1
    requires Pow(p, k + n) == Mul(Pow(p, k), Pow(p, n))
    ensures Pow(p, m + n) == Mul(Pow(p, m), Pow(p, n))
  {
    PowSucc(p, m, k);
    PowSuccShift(p, m, k, n);
    MulAssoc(p, Pow(p, k), Pow(p, n));
  }

  /** A power of a non-zero polynomial has n times its degree; pow(1) is the polynomial. */
  lemma {:induction false} PowDegree(p: Poly, n: nat)
    ensures !IsZero(p) ==> !IsZero(Pow(p, n)) && Degree(Pow(p, n)) == n * Degree(p)
    ensures Pow(p, 1) == p
  {
    MulOne(p);
    if n > 0 {
      PowDegree(p, n - 1);
      MulDegree(p, Pow(p, n - 1));
      assert n * Degree(p) == (n - 1) * Degree(p) + Degree(p);
    }
  }

  /** Horner's scheme over polynomials: a[0] + q * (a[1] + q * (...)). */
  function ComposeRaw(a: seq<real>, q: Poly): Poly
    decreases |a|
  {
    if |a| == 0 then Zero() else Add(Constant(a[0]), Mul(q, ComposeRaw(a[1..], q)))
  }

  /** `compose(q)`: the polynomial p(q(X)). */
  function Compose(p: Poly, q: Poly): Poly {
    ComposeRaw(p, q)
  }

  lemma {:induction false} ComposeRawEval(a: seq<real>, q: Poly, x: real)
    ensures Evaluate(ComposeRaw(a, q), x) == C.Eval(a, Evaluate(q, x))
    decreases |a|
  {
    if |a| == 0 {
      ConstantEval(0.0, x);
    } else {
      ComposeRawEval(a[1..], q, x);
      AddEval(Constant(a[0]), Mul(q, ComposeRaw(a[1..], q)), x);
      ConstantEval(a[0], x);
      MulEval(q, ComposeRaw(a[1..], q), x);
    }
  }

  /** Evaluating a composition evaluates the inner polynomial first. */
  lemma ComposeEval(p: Poly, q: Poly, x: real)
    ensures Evaluate(Compose(p, q), x) == Evaluate(p, Evaluate(q, x))
  {
    ComposeRawEval(p, q, x);
  }

  /** Multiplying by X shifts every coefficient up by one power. */
  lemma MulXCoefficient(t: Poly, i: nat)
    ensures Coefficient(Mul(X(), t), i) == if i == 0 then 0.0 else Coefficient(t, i - 1)
  {
    CoefficientMul(X(), t, i);
    C.TimesZero(C.Coef(t, i));
    if i > 0 {
      var one: seq<real> := [1.0];
      assert C.Tail(X()) == one;
      C.TimesOne(C.Coef(t, i - 1));
      if i > 1 {
        assert C.Tail(one) == [];
        C.MulCoefEmpty(t, i - 2);
      }
    }
  }

  /** Multiplying by c0 + c1 X: c0 times the coefficient plus c1 times the
      one below it. */
  lemma MulLinearCoefficient(c0: real, c1: real, t: Poly, i: nat)
    requires c1 != 0.0
    ensures Coefficient(Mul([c0, c1], t), i) ==
            C.Times(c0, Coefficient(t, i)) + (if i == 0 then 0.0 else C.Times(c1, Coefficient(t, i - 1)))
  {
    var l: Poly := [c0, c1];
    CoefficientMul(l, t, i);
    if i > 0 {
      var top: seq<real> := [c1];
      assert C.Tail(l) == top;
      if i > 1 {
        assert C.Tail(top) == [];
        C.MulCoefEmpty(t, i - 2);
      }
    }
  }

  /** Coefficient i of a equals that of b * (c0 + c1 X) + r. */
  predicate LinearLawAt(a: Poly, b: Poly, c0: real, c1: real, r: Poly, i: nat) {
    Coefficient(a, i) ==
    C.Times(c0, Coefficient(b, i)) + (if i == 0 then 0.0 else C.Times(c1, Coefficient(b, i - 1))) + Coefficient(r, i)
  }

  /** A division by a linear quotient checked coefficient by coefficient:
      if a = b * (c0 + c1 X) + r with r below the degree of b, then that is
      what `divide` returns. */
  lemma LinearDivision(a: Poly, b: Poly, c0: real, c1: real, r: Poly)
    requires c1 != 0.0 && !IsZero(b) && (IsZero(r) || Degree(r) < Degree(b))
    requires forall i: nat :: LinearLawAt(a, b, c0, c1, r, i)
    ensures Divide(a, b) == ([c0, c1], r)
  {
    var k: Poly := [c0, c1];
    var m := Mul(k, b);
    var sum := Add(m, r);
    forall i: nat ensures Coefficient(sum, i) == Coefficient(a, i) {
      MulLinearCoefficient(c0, c1, b, i);
      assert LinearLawAt(a, b, c0, c1, r, i);
    }
    Ext(sum, a);
    MulComm(b, k);
    DivideUnique(a, b, k, r);
  }

  /** c * X * p: the coefficients of p moved up one power and scaled by c,
      the step shared by the three-term recurrences of the orthogonal
      polynomials. */
  function ScaledShift(p: Poly, c: real): Poly {
    C.Trim(C.Scale(c, C.Shift(p)))
  }

  /** The coefficients of c * X * p, one at a time (stated as a lemma so that
      recursive definitions built on ScaledShift do not unfold it unasked). */
  lemma ScaledShiftCoefficient(p: Poly, c: real, i: nat)
    ensures Coefficient(ScaledShift(p, c), i) == if i == 0 then 0.0 else C.Times(c, Coefficient(p, i - 1))
  {
    C.CoefShift(p, i);
    C.TimesZero(c);
  }

  /** c * X * p is the product of X and p, scaled by c. */
  lemma ScaledShiftIsMulX(p: Poly, c: real)
    ensures ScaledShift(p, c) == MulScalar(Mul(X(), p), c)
  {
    var q := MulScalar(Mul(X(), p), c);
    forall i: nat ensures Coefficient(ScaledShift(p, c), i) == Coefficient(q, i) {
      ScaledShiftCoefficient(p, c, i);
      MulXCoefficient(p, i);
      C.TimesZero(c);
    }
    Ext(ScaledShift(p, c), q);
  }

  lemma ScaledShiftEval(p: Poly, c: real, x: real)
    ensures Evaluate(ScaledShift(p, c), x) == C.Times(c, C.Times(x, Evaluate(p, x)))
  {
    var shifted := C.Shift(p);
    C.EvalEqv(ScaledShift(p, c), C.Scale(c, shifted), x);
    C.EvalScale(c, shifted, x);
    C.EvalUnfold(shifted, x);
    assert C.Tail(shifted) == p;
  }

  /** Coefficients j, ..., len - 1 of alpha * X * a - beta * b.  Written as
      a recursion so that the solver expands it only when a proof asks. */
  function ThreeTermFrom(alpha: real, a: Poly, beta: real, b: Poly, j: nat, len: nat): seq<real>
    decreases len - j
  {
    if j >= len then []
    else
      var term := (if j == 0 then 0.0 else C.Times(alpha, Coefficient(a, j - 1))) - C.Times(beta, Coefficient(b, j));
      [term] + ThreeTermFrom(alpha, a, beta, b, j + 1, len)
  }

  lemma {:induction false} ThreeTermFromCoef(alpha: real, a: Poly, beta: real, b: Poly, j: nat, len: nat, i: nat)
    requires j <= len
    ensures C.Coef(ThreeTermFrom(alpha, a, beta, b, j, len), i) ==
            if i < len - j then
              (if j + i == 0 then 0.0 else C.Times(alpha, Coefficient(a, j + i - 1))) - C.Times(beta, Coefficient(b, j + i))
            else 0.0
    decreases len - j
  {
    if j < len && i > 0 {
      ThreeTermFromCoef(alpha, a, beta, b, j + 1, len, i - 1);
    }
  }

  /** alpha * X * a - beta * b, the step shared by the three-term recurrences
      of the orthogonal polynomials. */
  function ThreeTerm(alpha: real, a: Poly, beta: real, b: Poly): Poly {
    C.Trim(ThreeTermFrom(alpha, a, beta, b, 0, C.Max(|a| + 1, |b|)))
  }

  /** The coefficient of X^i in alpha * X * a - beta * b. */
  lemma ThreeTermCoefficient(alpha: real, a: Poly, beta: real, b: Poly, i: nat)
    ensures Coefficient(ThreeTerm(alpha, a, beta, b), i) ==
            (if i == 0 then 0.0 else C.Times(alpha, Coefficient(a, i - 1))) - C.Times(beta, Coefficient(b, i))
  {
    ThreeTermFromCoef(alpha, a, beta, b, 0, C.Max(|a| + 1, |b|), i);
    C.TimesZero(alpha);
    C.TimesZero(beta);
  }

  /** The step is the polynomial expression it abbreviates. */
  lemma ThreeTermIsPolynomialExpression(alpha: real, a: Poly, beta: real, b: Poly)
    ensures ThreeTerm(alpha, a, beta, b) == Sub(ScaledShift(a, alpha), MulScalar(b, beta))
  {
    var t, e := ThreeTerm(alpha, a, beta, b), Sub(ScaledShift(a, alpha), MulScalar(b, beta));
    forall i: nat ensures Coefficient(t, i) == Coefficient(e, i) {
      ThreeTermCoefficient(alpha, a, beta, b, i);
      ScaledShiftCoefficient(a, alpha, i);
    }
    Ext(t, e);
  }

  /** The value of the step at x: alpha * x * a(x) - beta * b(x). */
  lemma ThreeTermEval(alpha: real, a: Poly, beta: real, b: Poly, x: real)
    ensures Evaluate(ThreeTerm(alpha, a, beta, b), x) ==
            C.Times(alpha, C.Times(x, Evaluate(a, x))) - C.Times(beta, Evaluate(b, x))
  {
    ThreeTermIsPolynomialExpression(alpha, a, beta, b);
    SubEval(ScaledShift(a, alpha), MulScalar(b, beta), x);
    ScaledShiftEval(a, alpha, x);
    MulScalarEval(b, beta, x);
  }

  lemma XEval(x: real)
    ensures Evaluate(X(), x) == x
  {
    assert X() == LinearFactor(0.0);
    LinearFactorEval(0.0, x);
  }

  /** Every term of p with a non-zero coefficient has a power of the same
      parity as n: p is an even polynomial for even n and odd for odd n. */
  ghost predicate ParityOf(p: Poly, n: nat) {
    forall i: nat {:trigger OppositeParity(n, i)} :: OppositeParity(n, i) ==> Coefficient(p, i) == 0.0
  }

  /** The powers i whose parity differs from that of n; ParityOf instantiates
      only at the powers a proof names through this predicate. */
  predicate OppositeParity(n: nat, i: nat) {
    (n + i) % 2 == 1
  }

  lemma {:induction false} ComposeRawX(a: seq<real>)
    ensures ComposeRaw(a, X()) == C.Trim(a)
    decreases |a|
  {
    if |a| > 0 {
      ComposeRawX(a[1..]);
      var r := ComposeRaw(a, X());
      forall i: nat ensures Coefficient(r, i) == Coefficient(C.Trim(a), i) {
        ComposeRawXAt(a, i);
      }
      Ext(r, C.Trim(a));
    }
  }

  lemma ComposeRawXAt(a: seq<real>, i: nat)
    requires |a| > 0 && ComposeRaw(a[1..], X()) == C.Trim(a[1..])
    ensures Coefficient(ComposeRaw(a, X()), i) == Coefficient(C.Trim(a), i)
  {
    MulXCoefficient(C.Trim(a[1..]), i);
    assert Coefficient(C.Trim(a), i) == C.Coef(a, i);
    if i > 0 {
      assert Coefficient(C.Trim(a[1..]), i - 1) == C.Coef(a[1..], i - 1);
    }
  }

  /** Composing with X gives back the polynomial. */
  lemma ComposeX(p: Poly)
    ensures Compose(p, X()) == p
  {
    ComposeRawX(p);
    C.TrimTrimmed(p);
  }

  // ---------------------------------------------------------------------
  // Normalisation, roots

  /** `normalize`: divides by the leading coefficient, making the polynomial
      monic; the zero polynomial is returned unchanged. */
  function Normalize(p: Poly): (r: Poly)
    ensures IsZero(p) ==> IsZero(r)
    ensures !IsZero(p) ==> Degree(r) == Degree(p) && LeadingCoefficient(r) == 1.0
    ensures !IsZero(p) ==> MulScalar(r, LeadingCoefficient(p)) == p
  {
    if IsZero(p) then p
    else
      LeadingCoefficientFacts(p);
      var lc := LeadingCoefficient(p);
      var r := DivScalar(p, lc);
      C.OverTimes(lc, 1.0);
      C.TimesOne(lc);
      assert Coefficient(r, Degree(p)) == 1.0;
      VanishingFrom(r, Degree(p) + 1);
      LeadingCoefficientFacts(r);
      forall i: nat ensures Coefficient(MulScalar(r, lc), i) == Coefficient(p, i) {
        C.TimesOver(lc, Coefficient(p, i));
      }
      Ext(MulScalar(r, lc), p);
      r
  }

  /** `has_root`: the polynomial vanishes at x. */
  predicate HasRoot(p: Poly, x: real) {
    Evaluate(p, x) == 0.0
  }

  /** `has_roots`: the polynomial vanishes at every listed value. */
  predicate HasRoots(p: Poly, xs: seq<real>) {
    forall i :: 0 <= i < |xs| ==> HasRoot(p, xs[i])
  }

  /** The linear factor X - r. */
  function LinearFactor(r: real): (f: Poly)
    ensures Degree(f) == 1 && LeadingCoefficient(f) == 1.0
  {
    [-r, 1.0]
  }

  lemma LinearFactorEval(r: real, x: real)
    ensures Evaluate(LinearFactor(r), x) == x - r
  {
    var k: seq<real> := [1.0];
    C.EvalUnfold(LinearFactor(r), x);
    assert C.Tail(LinearFactor(r)) == k;
    ConstantEval(1.0, x);
    C.TimesOne(x);
  }

  /** `from_roots(rs)`: the product of X - r over the listed roots, one for none. */
  function FromRoots(rs: seq<real>): (p: Poly)
    ensures Degree(p) == |rs| && LeadingCoefficient(p) == 1.0
    decreases |rs|
  {
    if |rs| == 0 then One()
    else
      var rest := FromRoots(rs[..|rs| - 1]);
      var f := LinearFactor(rs[|rs| - 1]);
      MulDegree(rest, f);
      Mul(rest, f)
  }

  /** The roots of `from_roots(rs)` are exactly the listed values. */
  lemma {:induction false} FromRootsRoots(rs: seq<real>, x: real)
    ensures HasRoot(FromRoots(rs), x) <==> x in rs
    decreases |rs|
  {
    if |rs| == 0 {
      ConstantEval(1.0, x);
    } else {
      var init := rs[..|rs| - 1];
      var r := rs[|rs| - 1];
      FromRootsRoots(init, x);
      MulEval(FromRoots(init), LinearFactor(r), x);
      LinearFactorEval(r, x);
      C.TimesZeroIff(Evaluate(FromRoots(init), x), x - r);
      InSplitLast(rs, x);
    }
  }

  lemma InSplitLast(rs: seq<real>, x: real)
    requires |rs| > 0
    ensures x in rs <==> x in rs[..|rs| - 1] || x == rs[|rs| - 1]
  {
    assert rs == rs[..|rs| - 1] + [rs[|rs| - 1]];
  }

  /** Every listed root is a root of `from_roots`. */
  lemma FromRootsHasRoots(rs: seq<real>)
    ensures HasRoots(FromRoots(rs), rs)
  {
    forall i | 0 <= i < |rs| ensures HasRoot(FromRoots(rs), rs[i]) {
      FromRootsRoots(rs, rs[i]);
    }
  }

  // ---------------------------------------------------------------------
  // The mutable polynomial object

  /** `polynomial<T>` as an object: the compound assignments, the mutable
      `operator[]` and `trim_coefficients` update the coefficient vector in
      place.  Between those updates the vector may carry trailing zeros
      (after a write through the mutable `operator[]`); its value is the
      trimmed polynomial. */
  class Polynomial {
    var coeffs: seq<real>

    ghost predicate Valid()
      reads this
    {
      |coeffs| >= 1
    }

    /** The polynomial the vector stands for. */
    function Value(): (p: Poly)
      reads this
      ensures forall i: nat :: Coefficient(p, i) == C.Coef(coeffs, i)
    {
      C.Trim(coeffs)
    }

    /** The coefficient-list constructor: the stored vector is trimmed. */
    constructor (cs: seq<real>)
      ensures Valid() && C.IsTrimmed(coeffs)
      ensures coeffs == FromCoefficients(cs)
    {
      coeffs := FromCoefficients(cs);
    }

    /** The private degree constructor: degree + 1 zero coefficients. */
    constructor OfDegree(degree: nat)
      ensures Valid() && |coeffs| == degree + 1
      ensures forall i :: 0 <= i < |coeffs| ==> coeffs[i] == 0.0
      ensures IsZero(Value())
    {
      var zeros := seq(degree + 1, _ => 0.0);
      coeffs := zeros;
      ZeroIffAllCoefficientsZero(C.Trim(zeros));
    }

    /** The const `operator[]`: zero past the stored coefficients. */
    method Get(i: nat) returns (c: real)
      ensures c == Coefficient(Value(), i)
    {
      c := if i < |coeffs| then coeffs[i] else 0.0;
    }

    /** The mutable `operator[]`, used to write one stored coefficient. */
    method Set(i: nat, c: real)
      requires i < |coeffs|
      modifies this
      ensures coeffs == old(coeffs)[i := c]
      ensures Valid() == old(Valid())
      ensures Coefficient(Value(), i) == c
      ensures forall j: nat :: j != i ==> Coefficient(Value(), j) == Coefficient(old(Value()), j)
    {
      coeffs := coeffs[i := c];
    }

    /** `trim_coefficients`: drops trailing zeros without changing the value. */
    method TrimCoefficients()
      modifies this
      ensures C.IsTrimmed(coeffs) && Valid()
      ensures coeffs == old(Value())
      ensures Value() == old(Value())
    {
      coeffs := Value();
      C.TrimTrimmed(coeffs);
    }

    /** `operator+=(polynomial)`. */
    method AddAssign(q: Poly)
      modifies this
      ensures Valid() && coeffs == Add(old(Value()), q)
      ensures Value() == Add(old(Value()), q)
    {
      var r := Add(Value(), q);
      coeffs := r;
      C.TrimTrimmed(r);
    }

    /** `operator-=(polynomial)`. */
    method SubAssign(q: Poly)
      modifies this
      ensures Valid() && coeffs == Sub(old(Value()), q)
      ensures Value() == Sub(old(Value()), q)
    {
      var r := Sub(Value(), q);
      coeffs := r;
      C.TrimTrimmed(r);
    }

    /** `operator*=(polynomial)`. */
    method MulAssign(q: Poly)
      modifies this
      ensures Valid() && coeffs == Mul(old(Value()), q)
      ensures Value() == Mul(old(Value()), q)
    {
      var r := Mul(Value(), q);
      coeffs := r;
      C.TrimTrimmed(r);
    }

    /** `operator/=(polynomial)`: keeps the quotient of the division. */
    method DivAssign(d: Poly)
      requires !IsZero(d)
      modifies this
      ensures Valid() && coeffs == Quotient(old(Value()), d)
      ensures Value() == Quotient(old(Value()), d)
    {
      var r := Quotient(Value(), d);
      coeffs := r;
      C.TrimTrimmed(r);
    }

    /** `operator%=(polynomial)`: keeps the remainder of the division. */
    method RemAssign(d: Poly)
      requires !IsZero(d)
      modifies this
      ensures Valid() && coeffs == Remainder(old(Value()), d)
      ensures Value() == Remainder(old(Value()), d)
    {
      var r := Remainder(Value(), d);
      coeffs := r;
      C.TrimTrimmed(r);
    }

    /** `operator+=(scalar)`. */
    method AddScalarAssign(s: real)
      modifies this
      ensures Valid() && coeffs == AddScalar(old(Value()), s)
      ensures Value() == AddScalar(old(Value()), s)
    {
      var r := AddScalar(Value(), s);
      coeffs := r;
      C.TrimTrimmed(r);
    }

    /** `operator-=(scalar)`. */
    method SubScalarAssign(s: real)
      modifies this
      ensures Valid() && coeffs == SubScalar(old(Value()), s)
      ensures Value() == SubScalar(old(Value()), s)
    {
      var r := SubScalar(Value(), s);
      coeffs := r;
      C.TrimTrimmed(r);
    }

    /** `operator*=(scalar)`. */
    method MulScalarAssign(s: real)
      modifies this
      ensures Valid() && coeffs == MulScalar(old(Value()), s)
      ensures Value() == MulScalar(old(Value()), s)
    {
      var r := MulScalar(Value(), s);
      coeffs := r;
      C.TrimTrimmed(r);
    }

    /** `operator/=(scalar)`: the scalar must be non-zero. */
    method DivScalarAssign(s: real)
      requires s != 0.0
      modifies this
      ensures Valid() && coeffs == DivScalar(old(Value()), s)
      ensures Value() == DivScalar(old(Value()), s)
    {
      var r := DivScalar(Value(), s);
      coeffs := r;
      C.TrimTrimmed(r);
    }
  }
}
