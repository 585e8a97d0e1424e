/** Square-free test, integer content and primitive part, Yun's square-free
    decomposition and its reconstruction (include/square_free_decomposition.h). */
module SquareFree {
  import opened Wrappers
  import opened Polynomials
  import opened Euclidean

  /** `is_square_free(p)`: gcd(p, p') is a constant. */
  predicate IsSquareFree(p: Poly) {
    IsConstant(Gcd(p, Derive(p)))
  }

  // ---------------------------------------------------------------------
  // Integer content

  function Abs(x: int): nat {
    if x < 0 then -x else x
  }

  /** d divides a in the integers. */
  ghost predicate IntDivides(d: int, a: int) {
    exists k: int :: a == d * k
  }

  /** Euclid's algorithm on natural numbers, gcd(0, 0) = 0. */
  function NatGcd(a: nat, b: nat): (g: nat)
    decreases b
  {
    if b == 0 then a else NatGcd(b, a % b)
  }

  lemma {:induction false} NatGcdDivides(a: nat, b: nat)
    ensures IntDivides(NatGcd(a, b), a) && IntDivides(NatGcd(a, b), b)
    decreases b
  {
    var g := NatGcd(a, b);
    if b == 0 {
      assert a == g * 1;
      assert b == g * 0;
    } else {
      NatGcdDivides(b, a % b);
      var k1: int :| b == g * k1;
      var k2: int :| a % b == g * k2;
      var q := a / b;
      assert a == b * q + a % b;
      MulAssocInt(g, k1, q);
      assert a == g * (k1 * q + k2);
    }
  }

  lemma MulAssocInt(x: int, y: int, z: int)
    ensures (x * y) * z == x * (y * z)
  {
  }

  lemma {:induction false} NatGcdGreatest(a: nat, b: nat, d: int)
    requires IntDivides(d, a) && IntDivides(d, b)
    ensures IntDivides(d, NatGcd(a, b))
    decreases b
  {
    if b != 0 {
      var k1: int :| a == d * k1;
      var k2: int :| b == d * k2;
      var q := a / b;
      assert a % b == a - b * q;
      MulAssocInt(d, k2, q);
      assert a % b == d * (k1 - k2 * q);
      NatGcdGreatest(b, a % b, d);
    }
  }

  lemma {:induction false} NatGcdZero(a: nat, b: nat)
    ensures NatGcd(a, b) == 0 <==> a == 0 && b == 0
  {
    NatGcdDivides(a, b);
    if NatGcd(a, b) == 0 {
      var k1: int :| a == 0 * k1;
      var k2: int :| b == 0 * k2;
    }
  }

  /** The gcd of the absolute values of a list of integers. */
  function ContentOf(cs: seq<int>): (c: nat)
    decreases |cs|
  {
    if |cs| == 0 then 0 else NatGcd(ContentOf(cs[..|cs| - 1]), Abs(cs[|cs| - 1]))
  }

  lemma IntDividesAbs(d: int, a: int)
    requires IntDivides(d, Abs(a))
    ensures IntDivides(d, a)
  {
    var k: int :| Abs(a) == d * k;
    if a < 0 {
      assert a == d * (-k);
    }
  }

  lemma AbsIntDivides(d: int, a: int)
    requires IntDivides(d, a)
    ensures IntDivides(d, Abs(a))
  {
    var k: int :| a == d * k;
    if a < 0 {
      assert Abs(a) == d * (-k);
    }
  }

  lemma {:induction false} ContentOfDivides(cs: seq<int>)
    ensures forall i :: 0 <= i < |cs| ==> IntDivides(ContentOf(cs), cs[i])
    decreases |cs|
  {
    if |cs| > 0 {
      var init := cs[..|cs| - 1];
      var last := cs[|cs| - 1];
      var c := ContentOf(cs);
      ContentOfDivides(init);
      NatGcdDivides(ContentOf(init), Abs(last));
      IntDividesAbs(c, last);
      forall i | 0 <= i < |init| ensures IntDivides(c, cs[i]) {
        IntDividesTrans(c, ContentOf(init), init[i]);
      }
    }
  }

  lemma IntDividesTrans(a: int, b: int, c: int)
    requires IntDivides(a, b) && IntDivides(b, c)
    ensures IntDivides(a, c)
  {
    var k1: int :| b == a * k1;
    var k2: int :| c == b * k2;
    MulAssocInt(a, k1, k2);
    assert c == a * (k1 * k2);
  }

  lemma {:induction false} ContentOfGreatest(cs: seq<int>, d: int)
    requires forall i :: 0 <= i < |cs| ==> IntDivides(d, cs[i])
    ensures IntDivides(d, ContentOf(cs))
    decreases |cs|
  {
    if |cs| == 0 {
      assert 0 == d * 0;
    } else {
      var init := cs[..|cs| - 1];
      ContentOfGreatest(init, d);
      AbsIntDivides(d, cs[|cs| - 1]);
      NatGcdGreatest(ContentOf(init), Abs(cs[|cs| - 1]), d);
    }
  }

  /** Every coefficient is a whole number. */
  predicate IsIntegral(p: Poly) {
    forall i :: 0 <= i < |p| ==> p[i] == p[i].Floor as real
  }

  /** The coefficients as integers. */
  function IntCoefficients(p: Poly): (cs: seq<int>)
    requires IsIntegral(p)
    ensures |cs| == |p| && forall i :: 0 <= i < |p| ==> cs[i] as real == p[i]
  {
    seq(|p|, i requires 0 <= i < |p| => p[i].Floor)
  }

  /** `content(p)`: the gcd of the integer coefficients, ignoring signs;
      absent when a coefficient is not a whole number. */
  function Content(p: Poly): Option<nat> {
    if IsIntegral(p) then Some(ContentOf(IntCoefficients(p))) else None
  }

  /** The content divides every coefficient, every common divisor of the
      coefficients divides the content, and only zero has content zero. */
  lemma ContentIsGcd(p: Poly, d: int)
    requires IsIntegral(p)
    ensures var c := ContentOf(IntCoefficients(p));
            (forall i :: 0 <= i < |p| ==> IntDivides(c, p[i].Floor)) &&
            ((forall i :: 0 <= i < |p| ==> IntDivides(d, p[i].Floor)) ==> IntDivides(d, c)) &&
            (c == 0 <==> IsZero(p))
  {
    var cs := IntCoefficients(p);
    ContentOfDivides(cs);
    if forall i :: 0 <= i < |p| ==> IntDivides(d, p[i].Floor) {
      ContentOfGreatest(cs, d);
    }
    ContentOfZero(cs);
    if IsZero(p) {
      assert cs == [0];
    }
    if forall i :: 0 <= i < |cs| ==> cs[i] == 0 {
      forall i: nat ensures Coefficient(p, i) == 0.0 {
        if i < |p| {
          assert cs[i] as real == p[i];
        }
      }
      ZeroIffAllCoefficientsZero(p);
    }
  }

  lemma {:induction false} ContentOfZero(cs: seq<int>)
    ensures ContentOf(cs) == 0 <==> forall i :: 0 <= i < |cs| ==> cs[i] == 0
    decreases |cs|
  {
    if |cs| > 0 {
      var init := cs[..|cs| - 1];
      ContentOfZero(init);
      NatGcdZero(ContentOf(init), Abs(cs[|cs| - 1]));
      assert forall i :: 0 <= i < |init| ==> init[i] == cs[i];
    }
  }

  /** `primitive_part(p)`: p divided by its content; absent when a coefficient
      is not a whole number, and the zero polynomial itself for zero. */
  function PrimitivePart(p: Poly): (r: Option<Poly>)
    ensures r.Some? <==> IsIntegral(p)
  {
    if !IsIntegral(p) then None
    else
      var c := ContentOf(IntCoefficients(p));
      if c == 0 then Some(p) else Some(DivScalar(p, c as real))
  }

  /** The primitive part times the content is the polynomial, and the
      primitive part of a non-zero polynomial has whole coefficients with
      content one. */
  lemma PrimitivePartFacts(p: Poly)
    requires IsIntegral(p) && !IsZero(p)
    ensures var c := ContentOf(IntCoefficients(p));
            var pp := PrimitivePart(p).value;
            c > 0 && MulScalar(pp, c as real) == p && IsIntegral(pp) &&
            ContentOf(IntCoefficients(pp)) == 1
  {
    var cs := IntCoefficients(p);
    var c := ContentOf(cs);
    ContentIsGcd(p, 1);
    DivScalarBack(p, c as real);
    PrimitiveWhole(p, cs, c);
  }

  lemma DivScalarBack(p: Poly, s: real)
    requires s != 0.0
    ensures MulScalar(DivScalar(p, s), s) == p
  {
    forall i: nat ensures Coefficient(MulScalar(DivScalar(p, s), s), i) == Coefficient(p, i) {
      C.TimesOver(s, Coefficient(p, i));
    }
    Ext(MulScalar(DivScalar(p, s), s), p);
  }

  /** Dividing by the content leaves whole coefficients with content one. */
  lemma PrimitiveWhole(p: Poly, cs: seq<int>, c: nat)
    requires IsIntegral(p) && cs == IntCoefficients(p) && c == ContentOf(cs) && c > 0
    requires forall i :: 0 <= i < |p| ==> IntDivides(c, p[i].Floor)
    ensures IsIntegral(DivScalar(p, c as real))
    ensures ContentOf(IntCoefficients(DivScalar(p, c as real))) == 1
  {
    var pp := DivScalar(p, c as real);
    var ks := seq(|p|, i requires 0 <= i < |p| => Cofactor(c, cs[i]));
    PrimitiveCoefficients(p, c, cs, ks, pp);
    var cpp := ContentOf(IntCoefficients(pp));
    assert IntCoefficients(pp) == ks[..|pp|];
    if !IsZero(pp) {
      LeadingCoefficientFacts(pp);
      ContentOfZero(ks[..|pp|]);
      assert ks[|pp| - 1] != 0;
    }
    PrimitiveContentOne(c, cs, ks, |pp|, cpp);
  }

  /** The k with a == d * k, for a multiple a of d. */
  ghost function Cofactor(d: int, a: int): (k: int)
    requires IntDivides(d, a)
    ensures a == d * k
  {
    var k :| a == d * k; k
  }

  lemma PrimitiveCoefficients(p: Poly, c: nat, cs: seq<int>, ks: seq<int>, pp: Poly)
    requires c > 0 && |cs| == |ks| == |p|
    requires forall i :: 0 <= i < |p| ==> cs[i] as real == p[i] && cs[i] == c * ks[i]
    requires pp == DivScalar(p, c as real)
    ensures |pp| == |p|
    ensures forall i :: 0 <= i < |pp| ==> pp[i] == ks[i] as real && pp[i] == pp[i].Floor as real
  {
    forall i | 0 <= i < |pp| ensures pp[i] == ks[i] as real {
      assert Coefficient(pp, i) == C.Over(Coefficient(p, i), c as real);
      assert (c * ks[i]) as real == (c as real) * (ks[i] as real);
    }
    if |p| > 1 {
      assert Coefficient(pp, |p| - 1) == C.Over(p[|p| - 1], c as real) != 0.0;
    }
  }

  lemma PrimitiveContentOne(c: nat, cs: seq<int>, ks: seq<int>, n: nat, cpp: nat)
    requires c > 0 && |cs| == |ks| && n <= |ks|
    requires c == ContentOf(cs)
    requires forall i :: 0 <= i < |cs| ==> cs[i] == c * ks[i]
    requires forall i :: n <= i < |ks| ==> ks[i] == 0
    requires cpp == ContentOf(ks[..n])
    requires cpp != 0
    ensures cpp == 1
  {
    var kn := ks[..n];
    ContentOfDivides(kn);
    forall i | 0 <= i < |cs| ensures IntDivides(c * cpp, cs[i]) {
      if i < n {
        var m: int :| kn[i] == cpp * m;
        MulAssocInt(c, cpp, m);
        assert cs[i] == (c * cpp) * m;
      } else {
        assert cs[i] == (c * cpp) * 0;
      }
    }
    ContentOfGreatest(cs, c * cpp);
    var m: int :| c == (c * cpp) * m;
    MulAssocInt(c, cpp, m);
    assert c * (cpp * m) == c * 1;
    assert cpp * m == 1;
  }

  // ---------------------------------------------------------------------
  // Yun's algorithm

  /** The product of a list of polynomials. */
  function Product(s: seq<Poly>): Poly
    decreases |s|
  {
    if |s| == 0 then One() else Mul(s[0], Product(s[1..]))
  }

  /** `from_square_free_decomposition(seq)`: the product of seq[i]^(i+1). */
  function FromSquareFreeDecomposition(s: seq<Poly>): Poly
    decreases |s|
  {
    if |s| == 0 then One()
    else Mul(FromSquareFreeDecomposition(s[..|s| - 1]), Pow(s[|s| - 1], |s|))
  }

  /** A one-factor decomposition reconstructs its factor. */
  lemma FromSingleFactor(p: Poly)
    ensures FromSquareFreeDecomposition([p]) == p
  {
    var s := [p];
    assert s[..0] == [];
    PowDegree(p, 1);
    MulOne(p);
  }

  /** The loop of Yun's algorithm on b = f / g, c = f' / g: while
      d = c - b' is non-zero, emit a = gcd(b, d) and continue with b / a
      and d / a; when d is zero, emit b.  The fuel bounds the number of
      rounds by the degree of the input. */
  function YunLoop(b: Poly, c: Poly, fuel: nat): (r: seq<Poly>)
    ensures 1 <= |r| <= fuel + 1
    ensures Product(r) == b
    decreases fuel
  {
    var d := Sub(c, Derive(b));
    if IsZero(d) || fuel == 0 then
      MulOne(b);
      [b]
    else
      var a := Gcd(b, d);
      GcdZero(b, d);
      GcdDivides(b, d);
      ExactQuotient(a, b);
      var rest := YunLoop(Quotient(b, a), Quotient(d, a), fuel - 1);
      var r := [a] + rest;
      assert r[0] == a && r[1..] == rest;
      r
  }

  /** Yun's algorithm proper, on a non-zero polynomial. */
  function YunSteps(f: Poly): (r: seq<Poly>)
    requires !IsZero(f)
    ensures 1 <= |r| <= Degree(f) + 1
    ensures f == Mul(Gcd(f, Derive(f)), Product(r))
  {
    var g := Gcd(f, Derive(f));
    GcdZero(f, Derive(f));
    GcdDivides(f, Derive(f));
    ExactQuotient(g, f);
    YunLoop(Quotient(f, g), Quotient(Derive(f), g), Degree(f))
  }

  /** `yun_algorithm(p)`: a square-free polynomial is its own decomposition;
      otherwise the decomposition of its primitive part, absent when the
      coefficients are not whole numbers. */
  function Yun(p: Poly): (r: Option<seq<Poly>>)
    ensures IsSquareFree(p) ==> r == Some([p])
    ensures !IsSquareFree(p) ==> (r.Some? <==> IsIntegral(p))
  {
    if IsSquareFree(p) then Some([p])
    else if !IsIntegral(p) then None
    else
      NotSquareFreeNonZero(p);
      PrimitivePartNonZero(p);
      Some(YunSteps(PrimitivePart(p).value))
  }

  /** The zero polynomial is square-free: gcd(0, 0') is zero, a constant. */
  lemma NotSquareFreeNonZero(p: Poly)
    requires !IsSquareFree(p)
    ensures !IsZero(p)
  {
  }

  /** The primitive part of a non-zero polynomial is non-zero. */
  lemma PrimitivePartNonZero(p: Poly)
    requires IsIntegral(p) && !IsZero(p)
    ensures !IsZero(PrimitivePart(p).value)
  {
    PrimitivePartFacts(p);
    var pp := PrimitivePart(p).value;
    if IsZero(pp) {
      MulScalarZero(pp, ContentOf(IntCoefficients(p)) as real);
    }
  }

  /** Scaling the zero polynomial gives zero. */
  lemma MulScalarZero(p: Poly, s: real)
    requires IsZero(p)
    ensures IsZero(MulScalar(p, s))
  {
    C.TimesZero(s);
    Ext(MulScalar(p, s), Zero());
  }

  /** For a square-free polynomial the decomposition reconstructs it. */
  lemma YunRoundTripSquareFree(p: Poly)
    requires IsSquareFree(p)
    ensures FromSquareFreeDecomposition(Yun(p).value) == p
  {
    FromSingleFactor(p);
  }

  // ---------------------------------------------------------------------
  // The square-free test on worked examples
  // (test/square_free_decomposition_tests.cpp:44-52); each polynomial is
  // written by its expanded coefficients.

  /** `is_square_free` is decided by whether the remainder sequence of p and
      p' ends in a constant: normalising keeps the degree. */
  lemma SquareFreeByRemainders(p: Poly, g: Poly)
    requires GcdRaw(p, Derive(p)) == g
    ensures IsSquareFree(p) <==> IsConstant(g)
  {
    if IsZero(g) {
      assert IsZero(Normalize(g));
    }
  }

  /** A non-zero constant divides everything, so the remainder sequence
      stops at it. */
  lemma GcdRawByUnit(a: Poly, u: Poly)
    requires IsConstant(u) && !IsZero(u)
    ensures GcdRaw(a, u) == u
  {
    var r := Remainder(a, u);
    assert IsZero(r);
    assert GcdRaw(a, u) == GcdRaw(u, r);
  }

  /** A division step whose remainder is a non-zero constant ends the
      remainder sequence there. */
  lemma GcdRawEndsInUnit(a: Poly, b: Poly, q: Poly, u: Poly)
    requires !IsZero(b) && Divide(a, b) == (q, u)
    requires IsConstant(u) && !IsZero(u)
    ensures GcdRaw(a, b) == u
  {
    assert GcdRaw(a, b) == GcdRaw(b, u);
    GcdRawByUnit(b, u);
  }

  /** X - 1 is square-free: p' = 1 is already a non-zero constant. */
  lemma LinearIsSquareFree()
    ensures IsSquareFree([-1.0, 1.0])
  {
    LinearIsSquareFreeOf([-1.0, 1.0], [1.0]);
  }

  lemma LinearIsSquareFreeOf(p: Poly, d: Poly)
    requires |p| == 2 && p[0] == -1.0 && p[1] == 1.0
    requires |d| == 1 && d[0] == 1.0
    ensures IsSquareFree(p)
  {
    LinearDerivative(p, d);
    GcdRawByUnit(p, d);
    SquareFreeByRemainders(p, d);
  }

  /** (X - 1)' = 1. */
  lemma LinearDerivative(p: Poly, d: Poly)
    requires |p| == 2 && p[0] == -1.0 && p[1] == 1.0
    requires |d| == 1 && d[0] == 1.0
    ensures Derive(p) == d
  {
    Ext(Derive(p), d);
  }

  /** (X - 1)(X - 2) = X^2 - 3X + 2 is square-free: dividing by p' = 2X - 3 leaves -1/4. */
  lemma TwoRootsIsSquareFree()
    ensures IsSquareFree([2.0, -3.0, 1.0])
  {
    TwoRootsIsSquareFreeOf([2.0, -3.0, 1.0], [-3.0, 2.0], [-0.25]);
  }

  lemma TwoRootsIsSquareFreeOf(p: Poly, d: Poly, r1: Poly)
    requires |p| == 3 && p[0] == 2.0 && p[1] == -3.0 && p[2] == 1.0
    requires |d| == 2 && d[0] == -3.0 && d[1] == 2.0
    requires |r1| == 1 && r1[0] == -0.25
    ensures IsSquareFree(p)
  {
    TwoRootsDerivative(p, d);
    TwoRootsDivision1(p, d, r1);
    GcdRawEndsInUnit(p, d, [-0.75, 0.5], r1);
    SquareFreeByRemainders(p, r1);
  }

  /** The derivative of [2.0, -3.0, 1.0]. */
  lemma TwoRootsDerivative(p: Poly, d: Poly)
    requires |p| == 3 && p[0] == 2.0 && p[1] == -3.0 && p[2] == 1.0
    requires |d| == 2 && d[0] == -3.0 && d[1] == 2.0
    ensures Derive(p) == d
  {
    Ext(Derive(p), d);
  }

  lemma TwoRootsDivision1(a: Poly, b: Poly, r: Poly)
    requires |a| == 3 && a[0] == 2.0 && a[1] == -3.0 && a[2] == 1.0
    requires |b| == 2 && b[0] == -3.0 && b[1] == 2.0
    requires |r| == 1 && r[0] == -0.25
    ensures Divide(a, b) == ([-0.75, 0.5], r)
  {
    var c0, c1 := -0.75, 0.5;
    forall i: nat ensures LinearLawAt(a, b, c0, c1, r, i) {
      if i < |a| {
        assert i == 0 || i == 1 || i == 2;
      }
    }
    LinearDivision(a, b, c0, c1, r);
  }

  /** X^4 + 1 is square-free: dividing by p' = 4X^3 leaves 1. */
  lemma QuarticIsSquareFree()
    ensures IsSquareFree([1.0, 0.0, 0.0, 0.0, 1.0])
  {
    QuarticIsSquareFreeOf([1.0, 0.0, 0.0, 0.0, 1.0], [0.0, 0.0, 0.0, 4.0], [1.0]);
  }

  lemma QuarticIsSquareFreeOf(p: Poly, d: Poly, r1: Poly)
    requires |p| == 5 && p[0] == 1.0 && p[1] == 0.0 && p[2] == 0.0 && p[3] == 0.0 && p[4] == 1.0
    requires |d| == 4 && d[0] == 0.0 && d[1] == 0.0 && d[2] == 0.0 && d[3] == 4.0
    requires |r1| == 1 && r1[0] == 1.0
    ensures IsSquareFree(p)
  {
    QuarticDerivative(p, d);
    QuarticDivision1(p, d, r1);
    GcdRawEndsInUnit(p, d, [0.0, 0.25], r1);
    SquareFreeByRemainders(p, r1);
  }

  /** The derivative of [1.0, 0.0, 0.0, 0.0, 1.0]. */
  lemma QuarticDerivative(p: Poly, d: Poly)
    requires |p| == 5 && p[0] == 1.0 && p[1] == 0.0 && p[2] == 0.0 && p[3] == 0.0 && p[4] == 1.0
    requires |d| == 4 && d[0] == 0.0 && d[1] == 0.0 && d[2] == 0.0 && d[3] == 4.0
    ensures Derive(p) == d
  {
    Ext(Derive(p), d);
  }

  lemma QuarticDivision1(a: Poly, b: Poly, r: Poly)
    requires |a| == 5 && a[0] == 1.0 && a[1] == 0.0 && a[2] == 0.0 && a[3] == 0.0 && a[4] == 1.0
    requires |b| == 4 && b[0] == 0.0 && b[1] == 0.0 && b[2] == 0.0 && b[3] == 4.0
    requires |r| == 1 && r[0] == 1.0
    ensures Divide(a, b) == ([0.0, 0.25], r)
  {
    var c0, c1 := 0.0, 0.25;
    forall i: nat ensures LinearLawAt(a, b, c0, c1, r, i) {
      if i < |a| {
        assert i == 0 || i == 1 || i == 2 || i == 3 || i == 4;
      }
    }
    LinearDivision(a, b, c0, c1, r);
  }

  /** (X^4 + 1)(X^2 + 1) = X^6 + X^4 + X^2 + 1 is square-free: the remainders are X^4/3 + 2X^2/3 + 1, -8X^3 - 16X and 1. */
  lemma SexticIsSquareFree()
    ensures IsSquareFree([1.0, 0.0, 1.0, 0.0, 1.0, 0.0, 1.0])
  {
    SexticIsSquareFreeOf([1.0, 0.0, 1.0, 0.0, 1.0, 0.0, 1.0], [0.0, 2.0, 0.0, 4.0, 0.0, 6.0], [1.0, 0.0, 2.0 / 3.0, 0.0, 1.0 / 3.0], [0.0, -16.0, 0.0, -8.0], [1.0]);
  }

  lemma SexticIsSquareFreeOf(p: Poly, d: Poly, r1: Poly, r2: Poly, r3: Poly)
    requires |p| == 7 && p[0] == 1.0 && p[1] == 0.0 && p[2] == 1.0 && p[3] == 0.0 && p[4] == 1.0 && p[5] == 0.0 && p[6] == 1.0
    requires |d| == 6 && d[0] == 0.0 && d[1] == 2.0 && d[2] == 0.0 && d[3] == 4.0 && d[4] == 0.0 && d[5] == 6.0
    requires |r1| == 5 && r1[0] == 1.0 && r1[1] == 0.0 && r1[2] == 2.0 / 3.0 && r1[3] == 0.0 && r1[4] == 1.0 / 3.0
    requires |r2| == 4 && r2[0] == 0.0 && r2[1] == -16.0 && r2[2] == 0.0 && r2[3] == -8.0
    requires |r3| == 1 && r3[0] == 1.0
    ensures IsSquareFree(p)
  {
    SexticDerivative(p, d);
    SexticDivision1(p, d, r1);
    SexticDivision2(d, r1, r2);
    SexticDivision3(r1, r2, r3);
    assert GcdRaw(p, d) == GcdRaw(d, r1);
    assert GcdRaw(d, r1) == GcdRaw(r1, r2);
    GcdRawEndsInUnit(r1, r2, [0.0, -1.0 / 24.0], r3);
    SquareFreeByRemainders(p, r3);
  }

  /** The derivative of [1.0, 0.0, 1.0, 0.0, 1.0, 0.0, 1.0]. */
  lemma SexticDerivative(p: Poly, d: Poly)
    requires |p| == 7 && p[0] == 1.0 && p[1] == 0.0 && p[2] == 1.0 && p[3] == 0.0 && p[4] == 1.0 && p[5] == 0.0 && p[6] == 1.0
    requires |d| == 6 && d[0] == 0.0 && d[1] == 2.0 && d[2] == 0.0 && d[3] == 4.0 && d[4] == 0.0 && d[5] == 6.0
    ensures Derive(p) == d
  {
    Ext(Derive(p), d);
  }

  lemma SexticDivision1(a: Poly, b: Poly, r: Poly)
    requires |a| == 7 && a[0] == 1.0 && a[1] == 0.0 && a[2] == 1.0 && a[3] == 0.0 && a[4] == 1.0 && a[5] == 0.0 && a[6] == 1.0
    requires |b| == 6 && b[0] == 0.0 && b[1] == 2.0 && b[2] == 0.0 && b[3] == 4.0 && b[4] == 0.0 && b[5] == 6.0
    requires |r| == 5 && r[0] == 1.0 && r[1] == 0.0 && r[2] == 2.0 / 3.0 && r[3] == 0.0 && r[4] == 1.0 / 3.0
    ensures Divide(a, b) == ([0.0, 1.0 / 6.0], r)
  {
    var c0, c1 := 0.0, 1.0 / 6.0;
    forall i: nat ensures LinearLawAt(a, b, c0, c1, r, i) {
      if i < |a| {
        assert i == 0 || i == 1 || i == 2 || i == 3 || i == 4 || i == 5 || i == 6;
      }
    }
    LinearDivision(a, b, c0, c1, r);
  }

  lemma SexticDivision2(a: Poly, b: Poly, r: Poly)
    requires |a| == 6 && a[0] == 0.0 && a[1] == 2.0 && a[2] == 0.0 && a[3] == 4.0 && a[4] == 0.0 && a[5] == 6.0
    requires |b| == 5 && b[0] == 1.0 && b[1] == 0.0 && b[2] == 2.0 / 3.0 && b[3] == 0.0 && b[4] == 1.0 / 3.0
    requires |r| == 4 && r[0] == 0.0 && r[1] == -16.0 && r[2] == 0.0 && r[3] == -8.0
    ensures Divide(a, b) == ([0.0, 18.0], r)
  {
    var c0, c1 := 0.0, 18.0;
    forall i: nat ensures LinearLawAt(a, b, c0, c1, r, i) {
      if i < |a| {
        assert i == 0 || i == 1 || i == 2 || i == 3 || i == 4 || i == 5;
      }
    }
    LinearDivision(a, b, c0, c1, r);
  }

  lemma SexticDivision3(a: Poly, b: Poly, r: Poly)
    requires |a| == 5 && a[0] == 1.0 && a[1] == 0.0 && a[2] == 2.0 / 3.0 && a[3] == 0.0 && a[4] == 1.0 / 3.0
    requires |b| == 4 && b[0] == 0.0 && b[1] == -16.0 && b[2] == 0.0 && b[3] == -8.0
    requires |r| == 1 && r[0] == 1.0
    ensures Divide(a, b) == ([0.0, -1.0 / 24.0], r)
  {
    var c0, c1 := 0.0, -1.0 / 24.0;
    forall i: nat ensures LinearLawAt(a, b, c0, c1, r, i) {
      if i < |a| {
        assert i == 0 || i == 1 || i == 2 || i == 3 || i == 4;
      }
    }
    LinearDivision(a, b, c0, c1, r);
  }

  /** (X - 2)^2 = X^2 - 4X + 4 is not square-free: p' = 2X - 4 divides it, so gcd(p, p') = X - 2. */
  lemma DoubleRootIsNotSquareFree()
    ensures !IsSquareFree([4.0, -4.0, 1.0])
  {
    DoubleRootIsNotSquareFreeOf([4.0, -4.0, 1.0], [-4.0, 2.0]);
  }

  lemma DoubleRootIsNotSquareFreeOf(p: Poly, d: Poly)
    requires |p| == 3 && p[0] == 4.0 && p[1] == -4.0 && p[2] == 1.0
    requires |d| == 2 && d[0] == -4.0 && d[1] == 2.0
    ensures !IsSquareFree(p)
  {
    DoubleRootDerivative(p, d);
    DoubleRootDivision1(p, d);
    assert GcdRaw(p, d) == GcdRaw(d, Zero());
    assert GcdRaw(d, Zero()) == d;
    SquareFreeByRemainders(p, d);
  }

  /** The derivative of [4.0, -4.0, 1.0]. */
  lemma DoubleRootDerivative(p: Poly, d: Poly)
    requires |p| == 3 && p[0] == 4.0 && p[1] == -4.0 && p[2] == 1.0
    requires |d| == 2 && d[0] == -4.0 && d[1] == 2.0
    ensures Derive(p) == d
  {
    Ext(Derive(p), d);
  }

  lemma DoubleRootDivision1(a: Poly, b: Poly)
    requires |a| == 3 && a[0] == 4.0 && a[1] == -4.0 && a[2] == 1.0
    requires |b| == 2 && b[0] == -4.0 && b[1] == 2.0
    ensures Divide(a, b) == ([-1.0, 0.5], Zero())
  {
    var c0, c1 := -1.0, 0.5;
    forall i: nat ensures LinearLawAt(a, b, c0, c1, Zero(), i) {
      if i < |a| {
        assert i == 0 || i == 1 || i == 2;
      }
    }
    LinearDivision(a, b, c0, c1, Zero());
  }

  /** (X - 1)(X - 2)^2 = X^3 - 5X^2 + 8X - 4 is not square-free: the remainder -2/9 (X - 2) divides p' = (3X - 4)(X - 2). */
  lemma TripleProductIsNotSquareFree()
    ensures !IsSquareFree([-4.0, 8.0, -5.0, 1.0])
  {
    TripleProductIsNotSquareFreeOf([-4.0, 8.0, -5.0, 1.0], [8.0, -10.0, 3.0], [4.0 / 9.0, -2.0 / 9.0]);
  }

  lemma TripleProductIsNotSquareFreeOf(p: Poly, d: Poly, r1: Poly)
    requires |p| == 4 && p[0] == -4.0 && p[1] == 8.0 && p[2] == -5.0 && p[3] == 1.0
    requires |d| == 3 && d[0] == 8.0 && d[1] == -10.0 && d[2] == 3.0
    requires |r1| == 2 && r1[0] == 4.0 / 9.0 && r1[1] == -2.0 / 9.0
    ensures !IsSquareFree(p)
  {
    TripleProductDerivative(p, d);
    TripleProductDivision1(p, d, r1);
    TripleProductDivision2(d, r1);
    assert GcdRaw(p, d) == GcdRaw(d, r1);
    assert GcdRaw(d, r1) == GcdRaw(r1, Zero());
    assert GcdRaw(r1, Zero()) == r1;
    SquareFreeByRemainders(p, r1);
  }

  /** The derivative of [-4.0, 8.0, -5.0, 1.0]. */
  lemma TripleProductDerivative(p: Poly, d: Poly)
    requires |p| == 4 && p[0] == -4.0 && p[1] == 8.0 && p[2] == -5.0 && p[3] == 1.0
    requires |d| == 3 && d[0] == 8.0 && d[1] == -10.0 && d[2] == 3.0
    ensures Derive(p) == d
  {
    Ext(Derive(p), d);
  }

  lemma TripleProductDivision1(a: Poly, b: Poly, r: Poly)
    requires |a| == 4 && a[0] == -4.0 && a[1] == 8.0 && a[2] == -5.0 && a[3] == 1.0
    requires |b| == 3 && b[0] == 8.0 && b[1] == -10.0 && b[2] == 3.0
    requires |r| == 2 && r[0] == 4.0 / 9.0 && r[1] == -2.0 / 9.0
    ensures Divide(a, b) == ([-5.0 / 9.0, 1.0 / 3.0], r)
  {
    var c0, c1 := -5.0 / 9.0, 1.0 / 3.0;
    forall i: nat ensures LinearLawAt(a, b, c0, c1, r, i) {
      if i < |a| {
        assert i == 0 || i == 1 || i == 2 || i == 3;
      }
    }
    LinearDivision(a, b, c0, c1, r);
  }

  lemma TripleProductDivision2(a: Poly, b: Poly)
    requires |a| == 3 && a[0] == 8.0 && a[1] == -10.0 && a[2] == 3.0
    requires |b| == 2 && b[0] == 4.0 / 9.0 && b[1] == -2.0 / 9.0
    ensures Divide(a, b) == ([18.0, -13.5], Zero())
  {
    var c0, c1 := 18.0, -13.5;
    forall i: nat ensures LinearLawAt(a, b, c0, c1, Zero(), i) {
      if i < |a| {
        assert i == 0 || i == 1 || i == 2;
      }
    }
    LinearDivision(a, b, c0, c1, Zero());
  }
}
