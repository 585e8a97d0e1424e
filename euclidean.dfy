/** The greatest common divisor of two polynomials by Euclid's remainder
    sequence, plain and extended with Bezout coefficients
    (include/euclidean_algorithm.h). */
module Euclidean {
  import opened Polynomials

  /** d divides p: p is d times some polynomial. */
  ghost predicate Divides(d: Poly, p: Poly) {
    exists k: Poly :: p == Mul(d, k)
  }

  /** A size that the remainder of a division by b always makes smaller. */
  function Size(p: Poly): nat {
    if IsZero(p) then 0 else Degree(p) + 1
  }

  lemma DividesSelf(p: Poly)
    ensures Divides(p, p)
  {
    MulOne(p);
    assert p == Mul(p, One());
  }

  lemma DividesZero(d: Poly)
    ensures Divides(d, Zero())
  {
    MulZero(d);
    assert Zero() == Mul(d, Zero());
  }

  /** Only zero is a multiple of zero. */
  lemma ZeroDivides(p: Poly)
    requires Divides(Zero(), p)
    ensures IsZero(p)
  {
    var k: Poly :| p == Mul(Zero(), k);
    MulZero(k);
  }

  /** A divisor of b and of r divides b * q + r. */
  lemma DividesCombination(g: Poly, b: Poly, q: Poly, r: Poly)
    requires Divides(g, b) && Divides(g, r)
    ensures Divides(g, Add(Mul(b, q), r))
  {
    var k1: Poly :| b == Mul(g, k1);
    var k2: Poly :| r == Mul(g, k2);
    MulAssoc(g, k1, q);
    MulAddRight(g, Mul(k1, q), k2);
    assert Add(Mul(b, q), r) == Mul(g, Add(Mul(k1, q), k2));
  }

  /** A divisor of a and of b divides a - b * q. */
  lemma DividesDifference(d: Poly, a: Poly, b: Poly, q: Poly)
    requires Divides(d, a) && Divides(d, b)
    ensures Divides(d, Sub(a, Mul(b, q)))
  {
    var k1: Poly :| a == Mul(d, k1);
    var k2: Poly :| b == Mul(d, k2);
    MulAssoc(d, k2, q);
    MulSubRight(d, k1, Mul(k2, q));
    assert Sub(a, Mul(b, q)) == Mul(d, Sub(k1, Mul(k2, q)));
  }

  /** The remainder is the dividend minus divisor times quotient. */
  lemma RemainderIsDifference(a: Poly, b: Poly, q: Poly, r: Poly)
    requires a == Add(Mul(b, q), r)
    ensures r == Sub(a, Mul(b, q))
  {
    AddComm(Mul(b, q), r);
    SubAddCancel(r, Mul(b, q));
  }

  /** Divisibility is transitive. */
  lemma DividesTrans(a: Poly, b: Poly, c: Poly)
    requires Divides(a, b) && Divides(b, c)
    ensures Divides(a, c)
  {
    var k1: Poly :| b == Mul(a, k1);
    var k2: Poly :| c == Mul(b, k2);
    MulAssoc(a, k1, k2);
    assert c == Mul(a, Mul(k1, k2));
  }

  /** Dividing by an exact divisor leaves no remainder: the quotient times
      the divisor gives the dividend back. */
  lemma ExactQuotient(d: Poly, p: Poly)
    requires !IsZero(d) && Divides(d, p)
    ensures Remainder(p, d) == Zero()
    ensures Mul(d, Quotient(p, d)) == p
  {
    var k: Poly :| p == Mul(d, k);
    AddZero(p);
    DivideUnique(p, d, k, Zero());
  }

  /** The remainder sequence: gcd(a, 0) = a and gcd(a, b) = gcd(b, a % b). */
  function GcdRaw(a: Poly, b: Poly): (g: Poly)
    decreases Size(b)
  {
    if IsZero(b) then a
    else GcdRaw(b, Remainder(a, b))
  }

  /** `euclidean(p, q)`: the remainder-sequence gcd, made monic. */
  function Gcd(p: Poly, q: Poly): (g: Poly)
    ensures !IsZero(g) ==> LeadingCoefficient(g) == 1.0
  {
    Normalize(GcdRaw(p, q))
  }

  lemma {:induction false} GcdRawDivides(a: Poly, b: Poly)
    ensures Divides(GcdRaw(a, b), a) && Divides(GcdRaw(a, b), b)
    decreases Size(b)
  {
    var g := GcdRaw(a, b);
    if IsZero(b) {
      DividesSelf(a);
      DividesZero(a);
    } else {
      var (q, r) := Divide(a, b);
      assert g == GcdRaw(b, r);
      GcdRawDivides(b, r);
      DividesCombination(g, b, q, r);
    }
  }

  lemma {:induction false} GcdRawGreatest(a: Poly, b: Poly, d: Poly)
    requires Divides(d, a) && Divides(d, b)
    ensures Divides(d, GcdRaw(a, b))
    decreases Size(b)
  {
    if !IsZero(b) {
      var (q, r) := Divide(a, b);
      RemainderIsDifference(a, b, q, r);
      DividesDifference(d, a, b, q);
      GcdRawGreatest(b, r, d);
    }
  }

  /** The gcd is zero exactly when both arguments are. */
  lemma GcdRawZero(a: Poly, b: Poly)
    ensures IsZero(GcdRaw(a, b)) <==> IsZero(a) && IsZero(b)
  {
    GcdRawDivides(a, b);
    if IsZero(GcdRaw(a, b)) {
      ZeroDivides(a);
      ZeroDivides(b);
    }
    if IsZero(a) && IsZero(b) {
      assert GcdRaw(a, b) == a;
    }
  }

  /** A polynomial and its monic normalisation divide each other. */
  lemma NormalizeDivides(p: Poly)
    ensures Divides(Normalize(p), p) && Divides(p, Normalize(p))
  {
    var n := Normalize(p);
    if IsZero(p) {
      DividesSelf(p);
    } else {
      var lc := LeadingCoefficient(p);
      MulScalarIsMulConstant(n, lc);
      MulComm(Constant(lc), n);
      assert p == Mul(n, Constant(lc));
      LeadingCoefficientFacts(p);
      var inv := C.Over(1.0, lc);
      NormalizeIsScaled(p);
      MulScalarIsMulConstant(p, inv);
      MulComm(Constant(inv), p);
      assert n == Mul(p, Constant(inv));
    }
  }

  /** Normalising multiplies by the reciprocal of the leading coefficient. */
  lemma NormalizeIsScaled(p: Poly)
    requires !IsZero(p)
    ensures LeadingCoefficient(p) != 0.0
    ensures Normalize(p) == MulScalar(p, C.Over(1.0, LeadingCoefficient(p)))
  {
    LeadingCoefficientFacts(p);
    var lc := LeadingCoefficient(p);
    var n := Normalize(p);
    var m := MulScalar(p, C.Over(1.0, lc));
    forall i: nat ensures Coefficient(n, i) == Coefficient(m, i) {
      NormalizeAt(p, i);
    }
    Ext(n, m);
  }

  lemma NormalizeAt(p: Poly, i: nat)
    requires !IsZero(p)
    ensures LeadingCoefficient(p) != 0.0
    ensures Coefficient(Normalize(p), i) == C.Times(C.Over(1.0, LeadingCoefficient(p)), Coefficient(p, i))
  {
    LeadingCoefficientFacts(p);
    var lc := LeadingCoefficient(p);
    var n := Normalize(p);
    assert MulScalar(n, lc) == p;
    assert Coefficient(p, i) == C.Times(lc, Coefficient(n, i));
    C.OverTimesInverse(lc, Coefficient(n, i));
  }

  /** `euclidean(p, q)` divides both p and q. */
  lemma GcdDivides(p: Poly, q: Poly)
    ensures Divides(Gcd(p, q), p) && Divides(Gcd(p, q), q)
  {
    GcdRawDivides(p, q);
    NormalizeDivides(GcdRaw(p, q));
    DividesTrans(Gcd(p, q), GcdRaw(p, q), p);
    DividesTrans(Gcd(p, q), GcdRaw(p, q), q);
  }

  /** Every common divisor of p and q divides `euclidean(p, q)`. */
  lemma GcdGreatest(p: Poly, q: Poly, d: Poly)
    requires Divides(d, p) && Divides(d, q)
    ensures Divides(d, Gcd(p, q))
  {
    GcdRawGreatest(p, q, d);
    NormalizeDivides(GcdRaw(p, q));
    DividesTrans(d, GcdRaw(p, q), Gcd(p, q));
  }

  /** `euclidean(p, q)` is zero exactly when p and q both are, and monic otherwise. */
  lemma GcdZero(p: Poly, q: Poly)
    ensures IsZero(Gcd(p, q)) <==> IsZero(p) && IsZero(q)
    ensures !IsZero(Gcd(p, q)) ==> LeadingCoefficient(Gcd(p, q)) == 1.0
  {
    GcdRawZero(p, q);
  }

  /** `extended_euclidean(p, q)`: (s, t, g) with s * p + t * q == g, following
      the same remainder sequence, so g is the unnormalised gcd. */
  function ExtendedGcd(a: Poly, b: Poly): (res: (Poly, Poly, Poly))
    ensures Add(Mul(res.0, a), Mul(res.1, b)) == res.2
    ensures res.2 == GcdRaw(a, b)
    decreases Size(b)
  {
    if IsZero(b) then
      MulOne(a);
      MulZero(b);
      AddZero(a);
      (One(), Zero(), a)
    else
      var (q, r) := Divide(a, b);
      var (s1, t1, g) := ExtendedGcd(b, r);
      BezoutStep(a, b, q, r, s1, t1, g);
      (t1, Sub(s1, Mul(t1, q)), g)
  }

  /** From g = s1 * b + t1 * r and a = b * q + r:
      g = t1 * a + (s1 - t1 * q) * b. */
  lemma BezoutStep(a: Poly, b: Poly, q: Poly, r: Poly, s1: Poly, t1: Poly, g: Poly)
    requires a == Add(Mul(b, q), r)
    requires Add(Mul(s1, b), Mul(t1, r)) == g
    ensures Add(Mul(t1, a), Mul(Sub(s1, Mul(t1, q)), b)) == g
  {
    var x := Mul(t1, Mul(b, q));
    var y := Mul(t1, r);
    var z := Mul(s1, b);
    MulAddRight(t1, Mul(b, q), r);
    assert Mul(t1, a) == Add(x, y);
    MulComm(Sub(s1, Mul(t1, q)), b);
    MulSubRight(b, s1, Mul(t1, q));
    MulComm(b, s1);
    MulAssoc(t1, q, b);
    MulComm(q, b);
    MulComm(Mul(t1, q), b);
    assert Mul(Sub(s1, Mul(t1, q)), b) == Sub(z, x);
    AddSubRegroup(x, y, z);
  }

  /** (x + y) + (z - x) == z + y. */
  lemma AddSubRegroup(x: Poly, y: Poly, z: Poly)
    ensures Add(Add(x, y), Sub(z, x)) == Add(z, y)
  {
    Ext(Add(Add(x, y), Sub(z, x)), Add(z, y));
  }

  /** The extended gcd is a scalar multiple of `euclidean`'s monic result. */
  lemma ExtendedGcdIsScaled(a: Poly, b: Poly)
    ensures var g := ExtendedGcd(a, b).2;
            Normalize(g) == Gcd(a, b) &&
            (!IsZero(g) ==> MulScalar(Gcd(a, b), LeadingCoefficient(g)) == g)
  {
  }

  // The library's worked example: p = X^4 - 2X^3 - 6X^2 + 12X + 15 and
  // q = X^3 + X^2 - 4X - 4, with remainders X^2 + 4X + 3, 5X + 5 and 0.

  /** p = q * (X - 3) + (X^2 + 4X + 3). */
  lemma ExampleFirstDivision()
    ensures Divide([15.0, 12.0, -6.0, -2.0, 1.0], [-4.0, -4.0, 1.0, 1.0]) == ([-3.0, 1.0], [3.0, 4.0, 1.0])
  {
    var p, q, k, r: Poly := [15.0, 12.0, -6.0, -2.0, 1.0], [-4.0, -4.0, 1.0, 1.0], [-3.0, 1.0], [3.0, 4.0, 1.0];
    MulComm(q, k);
    forall i: nat ensures Coefficient(Add(Mul(q, k), r), i) == Coefficient(p, i) {
      MulLinearCoefficient(-3.0, 1.0, q, i);
    }
    Ext(Add(Mul(q, k), r), p);
    DivideUnique(p, q, k, r);
  }

  /** q = (X^2 + 4X + 3) * (X - 3) + (5X + 5). */
  lemma ExampleSecondDivision()
    ensures Divide([-4.0, -4.0, 1.0, 1.0], [3.0, 4.0, 1.0]) == ([-3.0, 1.0], [5.0, 5.0])
  {
    var q, r1, k, r2: Poly := [-4.0, -4.0, 1.0, 1.0], [3.0, 4.0, 1.0], [-3.0, 1.0], [5.0, 5.0];
    MulComm(r1, k);
    forall i: nat ensures Coefficient(Add(Mul(r1, k), r2), i) == Coefficient(q, i) {
      MulLinearCoefficient(-3.0, 1.0, r1, i);
    }
    Ext(Add(Mul(r1, k), r2), q);
    DivideUnique(q, r1, k, r2);
  }

  /** X^2 + 4X + 3 = (5X + 5) * (X/5 + 3/5) exactly. */
  lemma ExampleThirdDivision()
    ensures Divide([3.0, 4.0, 1.0], [5.0, 5.0]) == ([0.6, 0.2], Zero())
  {
    var r1, r2, k: Poly := [3.0, 4.0, 1.0], [5.0, 5.0], [0.6, 0.2];
    MulComm(r2, k);
    forall i: nat ensures Coefficient(Add(Mul(r2, k), Zero()), i) == Coefficient(r1, i) {
      MulLinearCoefficient(0.6, 0.2, r2, i);
    }
    Ext(Add(Mul(r2, k), Zero()), r1);
    DivideUnique(r1, r2, k, Zero());
  }

  /** The remainder sequence of the example ends in 5X + 5. */
  lemma ExampleGcdRaw()
    ensures GcdRaw([15.0, 12.0, -6.0, -2.0, 1.0], [-4.0, -4.0, 1.0, 1.0]) == [5.0, 5.0]
  {
    ExampleFirstDivision();
    ExampleSecondDivision();
    ExampleThirdDivision();
    var r1, r2: Poly := [3.0, 4.0, 1.0], [5.0, 5.0];
    assert GcdRaw(r2, Zero()) == r2;
    assert GcdRaw(r1, r2) == GcdRaw(r2, Zero());
  }

  /** `euclidean(p, q) == X + 1`. */
  lemma ExampleGcd()
    ensures Gcd([15.0, 12.0, -6.0, -2.0, 1.0], [-4.0, -4.0, 1.0, 1.0]) == [1.0, 1.0]
  {
    ExampleGcdOf([15.0, 12.0, -6.0, -2.0, 1.0], [-4.0, -4.0, 1.0, 1.0], [5.0, 5.0], [1.0, 1.0]);
  }

  /** The example's polynomials, given by their coefficients. */
  predicate IsExample(p: Poly, q: Poly, r: Poly, g: Poly) {
    |p| == 5 && p[0] == 15.0 && p[1] == 12.0 && p[2] == -6.0 && p[3] == -2.0 && p[4] == 1.0 &&
    |q| == 4 && q[0] == -4.0 && q[1] == -4.0 && q[2] == 1.0 && q[3] == 1.0 &&
    |r| == 2 && r[0] == 5.0 && r[1] == 5.0 &&
    |g| == 2 && g[0] == 1.0 && g[1] == 1.0
  }

  lemma ExampleGcdOf(p: Poly, q: Poly, r: Poly, g: Poly)
    requires IsExample(p, q, r, g)
    ensures Gcd(p, q) == g
  {
    ExampleGcdRawOf(p, q, r, g);
    assert LeadingCoefficient(g) == 1.0;
    GcdOfScaled(p, q, r, g, 5.0);
  }

  lemma ExampleGcdRawOf(p: Poly, q: Poly, r: Poly, g: Poly)
    requires IsExample(p, q, r, g)
    ensures GcdRaw(p, q) == r && r == MulScalar(g, 5.0)
  {
    assert p == [15.0, 12.0, -6.0, -2.0, 1.0] && q == [-4.0, -4.0, 1.0, 1.0];
    assert r == [5.0, 5.0] && g == [1.0, 1.0];
    ExampleGcdRaw();
    ExampleScaledGcd();
  }

  /** When the remainder sequence ends in c times a monic g, `euclidean`
      returns g. */
  lemma GcdOfScaled(p: Poly, q: Poly, r: Poly, g: Poly, c: real)
    requires c != 0.0 && !IsZero(g) && LeadingCoefficient(g) == 1.0
    requires GcdRaw(p, q) == r && r == MulScalar(g, c)
    ensures Gcd(p, q) == g
  {
    NormalizeScaled(g, c);
  }

  lemma ExampleScaledGcd()
    ensures MulScalar([1.0, 1.0], 5.0) == [5.0, 5.0]
  {
    Ext(MulScalar([1.0, 1.0], 5.0), [5.0, 5.0]);
  }

  /** Normalising c times a monic g gives back g. */
  lemma NormalizeScaled(g: Poly, c: real)
    requires c != 0.0 && !IsZero(g) && LeadingCoefficient(g) == 1.0
    ensures Normalize(MulScalar(g, c)) == g
  {
    var p := MulScalar(g, c);
    LeadingCoefficientFacts(g);
    LeadingCoefficientFacts(p);
    C.TimesZeroIff(c, 1.0);
    C.TimesOne(c);
    assert Coefficient(p, Degree(g)) == c;
    assert Degree(p) == Degree(g) && LeadingCoefficient(p) == c;
    var r := Normalize(p);
    forall i: nat ensures Coefficient(r, i) == Coefficient(g, i) {
      assert Coefficient(MulScalar(r, c), i) == Coefficient(p, i);
      C.TimesZeroIff(c, Coefficient(r, i) - Coefficient(g, i));
    }
    Ext(r, g);
  }

  /** One step of `extended_euclidean`: the coefficients for (b, a % b)
      give those for (a, b). */
  lemma ExtendedGcdStep(a: Poly, b: Poly, q: Poly, r: Poly)
    requires !IsZero(b) && Divide(a, b) == (q, r)
    ensures var (s1, t1, g) := ExtendedGcd(b, r);
            ExtendedGcd(a, b) == (t1, Sub(s1, Mul(t1, q)), g)
  {
  }

  /** `extended_euclidean(p, q)` gives s = 3 - X, t = X^2 - 6X + 10 and
      g = 5(X + 1). */
  lemma ExampleExtendedGcd()
    ensures ExtendedGcd([15.0, 12.0, -6.0, -2.0, 1.0], [-4.0, -4.0, 1.0, 1.0])
         == ([3.0, -1.0], [10.0, -6.0, 1.0], [5.0, 5.0])
  {
    var p, q: Poly := [15.0, 12.0, -6.0, -2.0, 1.0], [-4.0, -4.0, 1.0, 1.0];
    ExampleTailBezout();
    ExampleFirstDivision();
    ExtendedGcdStep(p, q, [-3.0, 1.0], [3.0, 4.0, 1.0]);
    ExampleLastCoefficient();
  }

  /** 1 - (3 - X)(X - 3) = X^2 - 6X + 10. */
  lemma ExampleLastCoefficient()
    ensures Sub(One(), Mul([3.0, -1.0], [-3.0, 1.0])) == [10.0, -6.0, 1.0]
  {
    var t := Sub(One(), Mul([3.0, -1.0], [-3.0, 1.0]));
    forall i: nat ensures Coefficient(t, i) == Coefficient([10.0, -6.0, 1.0], i) {
      MulLinearCoefficient(3.0, -1.0, [-3.0, 1.0], i);
    }
    Ext(t, [10.0, -6.0, 1.0]);
  }

  /** The Bezout coefficients of (q, X^2 + 4X + 3): 1 and 3 - X. */
  lemma ExampleTailBezout()
    ensures ExtendedGcd([-4.0, -4.0, 1.0, 1.0], [3.0, 4.0, 1.0]) == (One(), [3.0, -1.0], [5.0, 5.0])
  {
    var q, r1, r2: Poly := [-4.0, -4.0, 1.0, 1.0], [3.0, 4.0, 1.0], [5.0, 5.0];
    ExampleSecondDivision();
    ExampleThirdDivision();
    ExtendedGcdStep(r1, r2, [0.6, 0.2], Zero());
    ExtendedGcdStep(q, r1, [-3.0, 1.0], r2);
    ExampleBezoutSteps();
  }

  /** The arithmetic of the last two Bezout steps. */
  lemma ExampleBezoutSteps()
    ensures Sub(One(), Mul(Zero(), [0.6, 0.2])) == One()
    ensures Sub(Zero(), Mul(One(), [-3.0, 1.0])) == [3.0, -1.0]
  {
    MulZero([0.6, 0.2]);
    Ext(Sub(One(), Zero()), One());
    MulOne([-3.0, 1.0]);
    Ext(Sub(Zero(), [-3.0, 1.0]), [3.0, -1.0]);
  }
}
