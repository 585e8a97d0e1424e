/** Polynomials with complex coefficients, mixed operations with real
    polynomials, and the split of a complex polynomial into its real and
    imaginary parts (include/complex_polynomial.h).  A complex number is a
    pair of exact reals. */
module ComplexPolynomials {
  import C = Coefficients
  import P = Polynomials

  datatype Complex = Complex(re: real, im: real)

  /** `polynomial_specification<complex>`: the tolerance, one and zero. */
  const Epsilon: real := 0.00001
  const ComplexZero: Complex := Complex(0.0, 0.0)
  const ComplexOne: Complex := Complex(1.0, 0.0)
  /** The imaginary unit i. */
  const I: Complex := Complex(0.0, 1.0)

  function Plus(z: Complex, w: Complex): Complex {
    Complex(z.re + w.re, z.im + w.im)
  }

  function Minus(z: Complex, w: Complex): Complex {
    Complex(z.re - w.re, z.im - w.im)
  }

  function Times(z: Complex, w: Complex): Complex {
    Complex(z.re * w.re - z.im * w.im, z.re * w.im + z.im * w.re)
  }

  /** A real number as a complex one. */
  function Real(x: real): Complex {
    Complex(x, 0.0)
  }

  /** `coeff * z` for a real coefficient: the product of the embedded real
      with z, on either side. */
  function RealTimes(x: real, z: Complex): (w: Complex)
    ensures w == Times(Real(x), z) && w == Times(z, Real(x))
  {
    Complex(x * z.re, x * z.im)
  }

  // ---------------------------------------------------------------------
  // Complex coefficient sequences

  /** Coefficient of Z^i: the stored one, or zero past the end. */
  function Coef(a: seq<Complex>, i: nat): Complex {
    if i < |a| then a[i] else ComplexZero
  }

  predicate IsTrimmed(a: seq<Complex>) {
    |a| >= 1 && (|a| == 1 || a[|a| - 1] != ComplexZero)
  }

  /** Drops trailing zero coefficients, keeping at least one. */
  function Trim(a: seq<Complex>): (r: seq<Complex>)
    ensures IsTrimmed(r)
    ensures forall i: nat :: Coef(r, i) == Coef(a, i)
    decreases |a|
  {
    if |a| == 0 then [ComplexZero]
    else if |a| == 1 || a[|a| - 1] != ComplexZero then a
    else Trim(a[..|a| - 1])
  }

  /** A trimmed sequence of complex coefficients, index i holding the
      coefficient of Z^i. */
  type CPoly = s: seq<Complex> | IsTrimmed(s) witness [ComplexZero]

  /** Two complex polynomials with the same coefficients are the same value. */
  lemma Ext(p: CPoly, q: CPoly)
    requires forall i: nat :: Coef(p, i) == Coef(q, i)
    ensures p == q
  {
    var top := C.Max(|p|, |q|) - 1;
    assert Coef(p, top) == Coef(q, top);
    assert |p| == |q|;
    forall i | 0 <= i < |p| ensures p[i] == q[i] {
      assert Coef(p, i) == Coef(q, i);
    }
  }

  /** The complex polynomial given by a coefficient list. */
  function FromCoefficients(cs: seq<Complex>): (p: CPoly)
    ensures forall i: nat :: Coef(p, i) == Coef(cs, i)
  {
    Trim(cs)
  }

  function Degree(p: CPoly): nat {
    |p| - 1
  }

  function Zero(): CPoly {
    [ComplexZero]
  }

  function One(): CPoly {
    [ComplexOne]
  }

  /** The constant polynomial z. */
  function Constant(z: Complex): CPoly {
    if z == ComplexZero then Zero() else [z]
  }

  /** The variable Z, `monomial(1, 1.0)`. */
  function Z(): CPoly {
    [ComplexZero, ComplexOne]
  }

  /** The default polynomial, the zero one and one given by four zero
      coefficients are equal and have degree 0; one is constant. */
  lemma ZeroAndOne()
    ensures FromCoefficients([ComplexZero, ComplexZero, ComplexZero, ComplexZero]) == Zero()
    ensures Degree(Zero()) == 0 && Degree(One()) == 0
    ensures Zero() != One()
  {
    Ext(FromCoefficients([ComplexZero, ComplexZero, ComplexZero, ComplexZero]), Zero());
  }

  // ---------------------------------------------------------------------
  // Ring operations of polynomial<complex>

  function Add(p: CPoly, q: CPoly): (r: CPoly)
    ensures forall i: nat :: Coef(r, i) == Plus(Coef(p, i), Coef(q, i))
  {
    var n := C.Max(|p|, |q|);
    var s := seq(n, i requires 0 <= i < n => Plus(Coef(p, i), Coef(q, i)));
    assert forall i: nat :: Coef(s, i) == Plus(Coef(p, i), Coef(q, i));
    Trim(s)
  }

  function Sub(p: CPoly, q: CPoly): (r: CPoly)
    ensures forall i: nat :: Coef(r, i) == Minus(Coef(p, i), Coef(q, i))
  {
    var n := C.Max(|p|, |q|);
    var s := seq(n, i requires 0 <= i < n => Minus(Coef(p, i), Coef(q, i)));
    assert forall i: nat :: Coef(s, i) == Minus(Coef(p, i), Coef(q, i));
    Trim(s)
  }

  /** Coefficient of Z^k in a * b: the convolution sum, peeled one term of a
      at a time. */
  function MulCoef(a: seq<Complex>, b: seq<Complex>, k: nat): Complex
    decreases k
  {
    var rest := if k == 0 || |a| <= 1 then ComplexZero else MulCoef(a[1..], b, k - 1);
    Plus(Times(Coef(a, 0), Coef(b, k)), rest)
  }

  function Mul(p: CPoly, q: CPoly): CPoly {
    var n := |p| + |q| - 1;
    Trim(seq(n, k requires 0 <= k < n => MulCoef(p, q, k)))
  }

  /** `pow(n)`: the n-fold product. */
  function Pow(p: CPoly, n: nat): CPoly {
    if n == 0 then One() else Mul(p, Pow(p, n - 1))
  }

  /** `evaluate`: Horner's scheme at a complex point. */
  function EvalSeq(a: seq<Complex>, z: Complex): Complex
    decreases |a|
  {
    if |a| == 0 then ComplexZero else Plus(a[0], Times(z, EvalSeq(a[1..], z)))
  }

  function Evaluate(p: CPoly, z: Complex): Complex {
    EvalSeq(p, z)
  }

  // ---------------------------------------------------------------------
  // Mixed real and complex operations

  /** `real_polynomial * complex`: every coefficient multiplied by z. */
  function RealTimesComplex(p: P.Poly, z: Complex): (r: CPoly)
    ensures forall k: nat :: Coef(r, k) == Times(Real(P.Coefficient(p, k)), z)
  {
    var s := seq(|p|, k requires 0 <= k < |p| => RealTimes(p[k], z));
    assert forall k: nat :: Coef(s, k) == Times(Real(P.Coefficient(p, k)), z);
    Trim(s)
  }

  /** `complex * real_polynomial`, which the library computes as p * z: every
      coefficient multiplied by z from the left. */
  function ComplexTimesReal(z: Complex, p: P.Poly): (r: CPoly)
    ensures forall k: nat :: Coef(r, k) == Times(z, Real(P.Coefficient(p, k)))
  {
    RealTimesComplex(p, z)
  }

  /** A real polynomial as a complex one, `complex(1, 0) * q`. */
  function Embed(q: P.Poly): (r: CPoly)
    ensures forall k: nat :: Coef(r, k) == Real(P.Coefficient(q, k))
  {
    ComplexTimesReal(ComplexOne, q)
  }

  /** `complex_polynomial + real_polynomial`: the real polynomial embedded
      and added. */
  function AddReal(p: CPoly, q: P.Poly): (r: CPoly)
    ensures forall k: nat :: Coef(r, k) == Complex(Coef(p, k).re + P.Coefficient(q, k), Coef(p, k).im)
  {
    Add(p, Embed(q))
  }

  /** `real_polynomial + complex_polynomial`, which the library computes as
      p + q: the same sum with the real polynomial on the left. */
  function RealAddComplex(q: P.Poly, p: CPoly): (r: CPoly)
    ensures forall k: nat :: Coef(r, k) == Plus(Real(P.Coefficient(q, k)), Coef(p, k))
  {
    AddReal(p, q)
  }

  // ---------------------------------------------------------------------
  // Real and imaginary parts

  function RealParts(a: seq<Complex>): (r: seq<real>)
    ensures |r| == |a|
  {
    seq(|a|, k requires 0 <= k < |a| => a[k].re)
  }

  function ImaginaryParts(a: seq<Complex>): (r: seq<real>)
    ensures |r| == |a|
  {
    seq(|a|, k requires 0 <= k < |a| => a[k].im)
  }

  /** `separate(p)`: the real polynomials formed by the real and by the
      imaginary parts of the coefficients. */
  function Separate(p: CPoly): (parts: (P.Poly, P.Poly))
    ensures forall k: nat :: P.Coefficient(parts.0, k) == Coef(p, k).re
    ensures forall k: nat :: P.Coefficient(parts.1, k) == Coef(p, k).im
  {
    (P.FromCoefficients(RealParts(p)), P.FromCoefficients(ImaginaryParts(p)))
  }

  /** The parts recombine to the polynomial: p == re + i * im. */
  lemma SeparateRecombines(p: CPoly)
    ensures RealAddComplex(Separate(p).0, ComplexTimesReal(I, Separate(p).1)) == p
  {
    var (re, im) := Separate(p);
    var r := RealAddComplex(re, ComplexTimesReal(I, im));
    forall k: nat ensures Coef(r, k) == Coef(p, k) {
      assert Coef(ComplexTimesReal(I, im), k) == Times(I, Real(Coef(p, k).im));
    }
    Ext(r, p);
  }

  /** The coefficient of Z^k in re + i * im is re_k + i im_k. */
  lemma CombinationCoef(re: P.Poly, im: P.Poly, k: nat)
    ensures Coef(RealAddComplex(re, ComplexTimesReal(I, im)), k) == Complex(P.Coefficient(re, k), P.Coefficient(im, k))
  {
    TimesI(P.Coefficient(im, k));
  }

  /** i times a real y is the imaginary number y i. */
  lemma TimesI(y: real)
    ensures Times(I, Real(y)) == Complex(0.0, y)
  {
  }

  /** The split is unique: separating re + i * im gives back re and im. */
  lemma SeparateCombination(re: P.Poly, im: P.Poly)
    ensures Separate(RealAddComplex(re, ComplexTimesReal(I, im))) == (re, im)
  {
    var parts := Separate(RealAddComplex(re, ComplexTimesReal(I, im)));
    forall k: nat
      ensures P.Coefficient(parts.0, k) == P.Coefficient(re, k)
      ensures P.Coefficient(parts.1, k) == P.Coefficient(im, k)
    {
      CombinationCoef(re, im, k);
    }
    P.Ext(parts.0, re);
    P.Ext(parts.1, im);
  }

  lemma {:induction false} EvalSeqAtReal(a: seq<Complex>, x: real)
    ensures EvalSeq(a, Real(x)) == Complex(C.Eval(RealParts(a), x), C.Eval(ImaginaryParts(a), x))
    decreases |a|
  {
    if |a| > 0 {
      EvalSeqAtReal(a[1..], x);
      assert RealParts(a)[1..] == RealParts(a[1..]);
      assert ImaginaryParts(a)[1..] == ImaginaryParts(a[1..]);
    }
  }

  /** At a real point the real and imaginary parts of the value are the
      values of the two parts. */
  lemma SeparateEvaluate(p: CPoly, x: real)
    ensures Evaluate(p, Real(x)) == Complex(P.Evaluate(Separate(p).0, x), P.Evaluate(Separate(p).1, x))
  {
    EvalSeqAtReal(p, x);
    C.EvalEqv(C.Trim(RealParts(p)), RealParts(p), x);
    C.EvalEqv(C.Trim(ImaginaryParts(p)), ImaginaryParts(p), x);
  }

  // ---------------------------------------------------------------------
  // The library's examples

  /** The coefficients of a product whose left factor is linear. */
  lemma MulCoefByLinear(a: seq<Complex>, b: seq<Complex>, k: nat)
    requires |a| == 2
    ensures MulCoef(a, b, k) == if k == 0 then Plus(Times(a[0], Coef(b, 0)), ComplexZero)
                                else Plus(Times(a[0], Coef(b, k)), Plus(Times(a[1], Coef(b, k - 1)), ComplexZero))
  {
    if k > 0 {
      var t := a[1..];
      assert MulCoef(t, b, k - 1) == Plus(Times(a[1], Coef(b, k - 1)), ComplexZero);
    }
  }

  lemma PlusZero(z: Complex)
    ensures Plus(z, ComplexZero) == z
  {
  }

  lemma TimesByZero(z: Complex)
    ensures Times(z, ComplexZero) == ComplexZero
  {
  }

  /** (c0 + c1 Z) * 1 = c0 + c1 Z. */
  lemma LinearTimesOne(c0: Complex, c1: Complex)
    requires c1 != ComplexZero
    ensures Mul([c0, c1], One()) == [c0, c1]
  {
    var a := [c0, c1];
    var s := seq(2, k requires 0 <= k < 2 => MulCoef(a, One(), k));
    MulCoefByLinear(a, One(), 0);
    MulCoefByLinear(a, One(), 1);
    PlusZero(Times(c0, ComplexOne));
    PlusZero(Times(c1, ComplexOne));
    TimesByZero(c0);
    assert s == a;
  }

  /** (c0 + c1 Z) * (d0 + d1 Z), written out. */
  lemma LinearTimesLinear(c0: Complex, c1: Complex, d0: Complex, d1: Complex)
    requires c1 != ComplexZero && d1 != ComplexZero && Times(c1, d1) != ComplexZero
    ensures Mul([c0, c1], [d0, d1]) == [Times(c0, d0), Plus(Times(c0, d1), Times(c1, d0)), Times(c1, d1)]
  {
    var a, b := [c0, c1], [d0, d1];
    var s := seq(3, k requires 0 <= k < 3 => MulCoef(a, b, k));
    MulCoefByLinear(a, b, 0);
    MulCoefByLinear(a, b, 1);
    MulCoefByLinear(a, b, 2);
    PlusZero(Times(c0, d0));
    PlusZero(Times(c1, d0));
    PlusZero(Times(c1, d1));
    TimesByZero(c0);
    assert s == [Times(c0, d0), Plus(Times(c0, d1), Times(c1, d0)), Times(c1, d1)];
  }

  /** (c0 + c1 Z) * (d0 + d1 Z + d2 Z^2), written out. */
  lemma LinearTimesQuadratic(c0: Complex, c1: Complex, d0: Complex, d1: Complex, d2: Complex)
    requires c1 != ComplexZero && d2 != ComplexZero && Times(c1, d2) != ComplexZero
    ensures Mul([c0, c1], [d0, d1, d2]) ==
            [Times(c0, d0), Plus(Times(c0, d1), Times(c1, d0)), Plus(Times(c0, d2), Times(c1, d1)), Times(c1, d2)]
  {
    var a, b := [c0, c1], [d0, d1, d2];
    var s := seq(4, k requires 0 <= k < 4 => MulCoef(a, b, k));
    assert s[0] == Times(c0, d0) by {
      MulCoefByLinear(a, b, 0);
      PlusZero(Times(c0, d0));
    }
    assert s[1] == Plus(Times(c0, d1), Times(c1, d0)) by {
      MulCoefByLinear(a, b, 1);
      PlusZero(Times(c1, d0));
    }
    assert s[2] == Plus(Times(c0, d2), Times(c1, d1)) by {
      MulCoefByLinear(a, b, 2);
      PlusZero(Times(c1, d1));
    }
    assert s[3] == Times(c1, d2) by {
      MulCoefByLinear(a, b, 3);
      TimesByZero(c0);
      PlusZero(Times(c1, d2));
    }
    assert s == [Times(c0, d0), Plus(Times(c0, d1), Times(c1, d0)), Plus(Times(c0, d2), Times(c1, d1)), Times(c1, d2)];
  }

  /** Z - i, written out. */
  lemma ZMinusI()
    ensures Sub(Z(), Constant(I)) == [Complex(0.0, -1.0), ComplexOne]
  {
    Ext(Sub(Z(), Constant(I)), [Complex(0.0, -1.0), ComplexOne]);
  }

  /** (Z - i)^2 = Z^2 - 2i Z - 1. */
  lemma SquareOfZMinusI(a: CPoly)
    requires a == [Complex(0.0, -1.0), ComplexOne]
    ensures Pow(a, 2) == [Complex(-1.0, 0.0), Complex(0.0, -2.0), ComplexOne]
  {
    LinearTimesOne(Complex(0.0, -1.0), ComplexOne);
    assert Pow(a, 1) == a;
    LinearTimesLinear(Complex(0.0, -1.0), ComplexOne, Complex(0.0, -1.0), ComplexOne);
  }

  /** (Z - i)^3 = Z^3 - 3i Z^2 - 3Z + i. */
  lemma CubeOfZMinusI(a: CPoly)
    requires a == [Complex(0.0, -1.0), ComplexOne]
    ensures Pow(a, 3) == [I, Complex(-3.0, 0.0), Complex(0.0, -3.0), ComplexOne]
  {
    SquareOfZMinusI(a);
    LinearTimesQuadratic(Complex(0.0, -1.0), ComplexOne, Complex(-1.0, 0.0), Complex(0.0, -2.0), ComplexOne);
  }

  /** Z^3 - 3i Z^2 - 3Z + i separates into X^3 - 3X and -3X^2 + 1. */
  lemma SeparateCube(c: CPoly)
    requires c == [I, Complex(-3.0, 0.0), Complex(0.0, -3.0), ComplexOne]
    ensures Separate(c) == ([0.0, -3.0, 0.0, 1.0], [1.0, 0.0, -3.0])
  {
    var parts := Separate(c);
    P.Ext(parts.0, [0.0, -3.0, 0.0, 1.0]);
    P.Ext(parts.1, [1.0, 0.0, -3.0]);
  }

  /** (Z - i)^3 has degree 3 and separates into X^3 - 3X and -3X^2 + 1. */
  lemma SeparateExample(a: CPoly)
    requires a == Sub(Z(), Constant(I))
    ensures Degree(Pow(a, 3)) == 3
    ensures Separate(Pow(a, 3)) == ([0.0, -3.0, 0.0, 1.0], [1.0, 0.0, -3.0])
  {
    ZMinusI();
    CubeOfZMinusI(a);
    SeparateCube(Pow(a, 3));
  }

  /** Z^2, written out. */
  lemma SquareOfZ(z: CPoly)
    requires z == [ComplexZero, ComplexOne]
    ensures Pow(z, 2) == [ComplexZero, ComplexZero, ComplexOne]
  {
    LinearTimesOne(ComplexZero, ComplexOne);
    assert Pow(z, 1) == z;
    LinearTimesLinear(ComplexZero, ComplexOne, ComplexZero, ComplexOne);
  }

  /** Z^2 - 1, written out. */
  lemma ZSquaredMinusOne(sq: CPoly)
    requires sq == [ComplexZero, ComplexZero, ComplexOne]
    ensures Sub(sq, One()) == [Complex(-1.0, 0.0), ComplexZero, ComplexOne]
  {
    var d := Sub(sq, One());
    assert Coef(d, 0) == Complex(-1.0, 0.0);
    assert Coef(d, 1) == ComplexZero;
    assert Coef(d, 2) == ComplexOne;
    Ext(d, [Complex(-1.0, 0.0), ComplexZero, ComplexOne]);
  }

  /** Z^2 - 1 vanishes at 1 and at -1. */
  lemma EvaluateExample(z: CPoly)
    requires z == Z()
    ensures Evaluate(Sub(Pow(z, 2), One()), Real(1.0)) == ComplexZero
    ensures Evaluate(Sub(Pow(z, 2), One()), Real(-1.0)) == ComplexZero
  {
    SquareOfZ(z);
    ZSquaredMinusOne(Pow(z, 2));
    UnitRoots(Sub(Pow(z, 2), One()), 1.0);
    UnitRoots(Sub(Pow(z, 2), One()), -1.0);
  }

  /** Horner's scheme on three real coefficients. */
  lemma EvalThree(a: seq<real>, x: real)
    requires |a| == 3
    ensures C.Eval(a, x) == a[0] + x * (a[1] + x * a[2])
  {
    C.EvalUnfold(a, x);
    C.EvalUnfold(a[1..], x);
    C.EvalUnfold(a[2..], x);
    C.EvalUnfold(a[3..], x);
    C.TimesZero(x);
  }

  /** Z^2 - 1 vanishes at the real points 1 and -1. */
  lemma UnitRoots(p: CPoly, x: real)
    requires p == [Complex(-1.0, 0.0), ComplexZero, ComplexOne]
    requires x == 1.0 || x == -1.0
    ensures Evaluate(p, Real(x)) == ComplexZero
  {
    assert RealParts(p) == [-1.0, 0.0, 1.0];
    assert ImaginaryParts(p) == [0.0, 0.0, 0.0];
    EvalSeqAtReal(p, x);
    EvalThree(RealParts(p), x);
    EvalThree(ImaginaryParts(p), x);
  }
}
