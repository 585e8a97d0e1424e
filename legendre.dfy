/** Legendre polynomials and the cache in which `create` keeps them
    (include/legendre_polynomial.h). */
module Legendre {
  import C = Coefficients
  import opened Polynomials

  /** The factors of Bonnet's recurrence for P_k:
      P_k = (2k - 1)/k * X * P_(k-1) - (k - 1)/k * P_(k-2). */
  function Alpha(k: nat): real
    requires k >= 1
  {
    C.Over((2 * k - 1) as real, k as real)
  }

  function Beta(k: nat): real
    requires k >= 1
  {
    C.Over((k - 1) as real, k as real)
  }

  lemma AlphaPositive(k: nat)
    requires k >= 1
    ensures Alpha(k) > 0.0
  {
  }

  /** The two factors differ by exactly one. */
  lemma AlphaMinusBeta(k: nat)
    requires k >= 1
    ensures Alpha(k) - Beta(k) == 1.0
  {
    var d := k as real;
    assert (2 * k - 1) as real / d - (k - 1) as real / d == ((2 * k - 1) as real - (k - 1) as real) / d;
  }

  /** The consecutive pair (P_n, P_(n+1)): P_0 = 1, P_1 = X, and each step
      moves the pair one place along Bonnet's recurrence. */
  function LegendrePair(n: nat): (Poly, Poly) {
    if n == 0 then (One(), X())
    else
      var prev := LegendrePair(n - 1);
      (prev.1, ThreeTerm(Alpha(n + 1), prev.1, Beta(n + 1), prev.0))
  }

  /** P_n, the Legendre polynomial of order n. */
  function Legendre(n: nat): Poly {
    LegendrePair(n).0
  }

  lemma LegendreBase()
    ensures Legendre(0) == One() && Legendre(1) == X()
  {
  }

  lemma LegendreStepIsThreeTerm(n: nat)
    requires n >= 2
    ensures Legendre(n) == ThreeTerm(Alpha(n), Legendre(n - 1), Beta(n), Legendre(n - 2))
  {
    assert LegendrePair(n - 1).0 == LegendrePair(n - 2).1;
  }

  /** One coefficient of Bonnet's recurrence, multiplied out by k. */
  lemma BonnetAt(k: nat, a: Poly, b: Poly, i: nat)
    requires k >= 2
    ensures C.Times(k as real, Coefficient(ThreeTerm(Alpha(k), a, Beta(k), b), i)) ==
            (if i == 0 then 0.0 else C.Times((2 * k - 1) as real, Coefficient(a, i - 1))) - C.Times((k - 1) as real, Coefficient(b, i))
  {
    var n := k as real;
    var alpha, beta := Alpha(k), Beta(k);
    ThreeTermCoefficient(alpha, a, beta, b, i);
    var sa := if i == 0 then 0.0 else C.Times(alpha, Coefficient(a, i - 1));
    var sb := C.Times(beta, Coefficient(b, i));
    C.TimesAddRight(n, sa, -sb);
    C.TimesOver(n, (k - 1) as real);
    C.TimesAssoc(n, beta, Coefficient(b, i));
    if i == 0 {
      C.TimesZero(n);
    } else {
      C.TimesOver(n, (2 * k - 1) as real);
      C.TimesAssoc(n, alpha, Coefficient(a, i - 1));
    }
  }

  /** Bonnet's recurrence in the library's own polynomial operations:
      n * P_n = (2n - 1) * X * P_(n-1) - (n - 1) * P_(n-2). */
  lemma LegendreRecurrence(n: nat)
    requires n >= 2
    ensures MulScalar(Legendre(n), n as real) ==
            Sub(ScaledShift(Legendre(n - 1), (2 * n - 1) as real), MulScalar(Legendre(n - 2), (n - 1) as real))
    ensures MulScalar(Legendre(n), n as real) ==
            Sub(MulScalar(Mul(X(), Legendre(n - 1)), (2 * n - 1) as real), MulScalar(Legendre(n - 2), (n - 1) as real))
  {
    var a, b := Legendre(n - 1), Legendre(n - 2);
    var lhs := MulScalar(Legendre(n), n as real);
    var rhs := Sub(ScaledShift(a, (2 * n - 1) as real), MulScalar(b, (n - 1) as real));
    LegendreStepIsThreeTerm(n);
    forall i: nat ensures Coefficient(lhs, i) == Coefficient(rhs, i) {
      BonnetAt(n, a, b, i);
      ScaledShiftCoefficient(a, (2 * n - 1) as real, i);
    }
    Ext(lhs, rhs);
    ScaledShiftIsMulX(a, (2 * n - 1) as real);
  }

  /** Degree n, a positive leading coefficient, and only powers of the
      parity of n. */
  ghost predicate LegendreShaped(p: Poly, n: nat) {
    Degree(p) == n && LeadingCoefficient(p) > 0.0 && ParityOf(p, n)
  }

  lemma TimesPositive(x: real, y: real)
    requires x > 0.0 && y > 0.0
    ensures C.Times(x, y) > 0.0
  {
  }

  /** One step of the recurrence keeps the degree, sign-of-leading-coefficient
      and parity invariants. */
  lemma LegendreStep(alpha: real, beta: real, a: Poly, b: Poly, n: nat)
    requires n >= 2 && alpha > 0.0
    requires LegendreShaped(a, n - 1) && LegendreShaped(b, n - 2)
    ensures LegendreShaped(ThreeTerm(alpha, a, beta, b), n)
  {
    var t := ThreeTerm(alpha, a, beta, b);
    LeadingCoefficientFacts(a);
    LeadingCoefficientFacts(b);
    ThreeTermCoefficient(alpha, a, beta, b, n);
    C.TimesZero(beta);
    TimesPositive(alpha, LeadingCoefficient(a));
    forall i: nat | i > n ensures Coefficient(t, i) == 0.0 {
      ThreeTermCoefficient(alpha, a, beta, b, i);
      C.TimesZero(alpha);
    }
    VanishingFrom(t, n + 1);
    LeadingCoefficientFacts(t);
    forall i: nat | OppositeParity(n, i) ensures Coefficient(t, i) == 0.0 {
      ThreeTermCoefficient(alpha, a, beta, b, i);
      C.TimesZero(alpha);
      assert OppositeParity(n - 2, i);
      if i > 0 {
        assert OppositeParity(n - 1, i - 1);
      }
    }
  }

  lemma {:induction false} LegendrePairShape(n: nat)
    ensures LegendreShaped(LegendrePair(n).0, n) && LegendreShaped(LegendrePair(n).1, n + 1)
  {
    if n == 0 {
      assert LegendrePair(0) == (One(), X());
    } else {
      LegendrePairShape(n - 1);
      var prev := LegendrePair(n - 1);
      AlphaPositive(n + 1);
      LegendreStep(Alpha(n + 1), Beta(n + 1), prev.1, prev.0, n + 1);
    }
  }

  /** P_n has degree n and a positive leading coefficient, and is an even
      polynomial for even n and an odd one for odd n. */
  lemma LegendreShape(n: nat)
    ensures Degree(Legendre(n)) == n
    ensures LeadingCoefficient(Legendre(n)) > 0.0
    ensures ParityOf(Legendre(n), n)
  {
    LegendrePairShape(n);
  }

  lemma {:induction false} LegendrePairAtEnds(n: nat)
    ensures Evaluate(LegendrePair(n).0, 1.0) == 1.0 && Evaluate(LegendrePair(n).1, 1.0) == 1.0
    ensures Evaluate(LegendrePair(n).0, -1.0) == Power(-1.0, n)
    ensures Evaluate(LegendrePair(n).1, -1.0) == Power(-1.0, n + 1)
  {
    if n == 0 {
      assert LegendrePair(0) == (Constant(1.0), X());
      ConstantEval(1.0, 1.0);
      ConstantEval(1.0, -1.0);
      XEval(1.0);
      XEval(-1.0);
    } else {
      LegendrePairAtEnds(n - 1);
      var prev := LegendrePair(n - 1);
      AlphaMinusBeta(n + 1);
      EndsStep(Alpha(n + 1), Beta(n + 1), prev.1, prev.0, n);
    }
  }

  /** One step of the recurrence keeps the values at 1 and -1, given
      alpha - beta = 1. */
  lemma EndsStep(alpha: real, beta: real, a: Poly, b: Poly, n: nat)
    requires n >= 1 && alpha - beta == 1.0
    requires Evaluate(a, 1.0) == 1.0 && Evaluate(b, 1.0) == 1.0
    requires Evaluate(a, -1.0) == Power(-1.0, n) && Evaluate(b, -1.0) == Power(-1.0, n - 1)
    ensures Evaluate(ThreeTerm(alpha, a, beta, b), 1.0) == 1.0
    ensures Evaluate(ThreeTerm(alpha, a, beta, b), -1.0) == Power(-1.0, n + 1)
  {
    ThreeTermEval(alpha, a, beta, b, 1.0);
    ThreeTermEval(alpha, a, beta, b, -1.0);
    var q := Power(-1.0, n - 1);
    assert Power(-1.0, n) == -q;
    assert Power(-1.0, n + 1) == q;
  }

  /** P_n(1) = 1 and P_n(-1) = (-1)^n. */
  lemma LegendreAtEnds(n: nat)
    ensures Evaluate(Legendre(n), 1.0) == 1.0
    ensures Evaluate(Legendre(n), -1.0) == Power(-1.0, n)
  {
    LegendrePairAtEnds(n);
  }

  /** The expansions of P_2, P_3 and P_4 listed by the library's tests. */
  lemma LegendreTwo()
    ensures Legendre(2) == [-0.5, 0.0, 1.5]
  {
    LegendreBase();
    LegendreStepIsThreeTerm(2);
    StepToTwo();
  }

  lemma LegendreThree()
    ensures Legendre(3) == [0.0, -1.5, 0.0, 2.5]
  {
    LegendreBase();
    LegendreTwo();
    LegendreStepIsThreeTerm(3);
    StepToThree();
  }

  lemma LegendreFour()
    ensures Legendre(4) == [0.375, 0.0, -3.75, 0.0, 4.375]
  {
    LegendreTwo();
    LegendreThree();
    LegendreStepIsThreeTerm(4);
    StepToFour();
  }

  /** 3/2 * X * X - 1/2 * 1. */
  lemma StepToTwo()
    ensures ThreeTerm(Alpha(2), X(), Beta(2), One()) == [-0.5, 0.0, 1.5]
  {
    var p1, p0, p2: Poly := [0.0, 1.0], [1.0], [-0.5, 0.0, 1.5];
    var t := ThreeTerm(1.5, p1, 0.5, p0);
    assert Alpha(2) == 1.5 && Beta(2) == 0.5;
    forall i: nat ensures Coefficient(t, i) == Coefficient(p2, i) {
      ThreeTermCoefficient(1.5, p1, 0.5, p0, i);
    }
    Ext(t, p2);
  }

  /** 5/3 * X * P_2 - 2/3 * X. */
  lemma StepToThree()
    ensures ThreeTerm(Alpha(3), [-0.5, 0.0, 1.5], Beta(3), X()) == [0.0, -1.5, 0.0, 2.5]
  {
    var p2, p1, p3: Poly := [-0.5, 0.0, 1.5], [0.0, 1.0], [0.0, -1.5, 0.0, 2.5];
    var alpha, beta := 5.0 / 3.0, 2.0 / 3.0;
    var t := ThreeTerm(alpha, p2, beta, p1);
    assert Alpha(3) == alpha && Beta(3) == beta;
    forall i: nat ensures Coefficient(t, i) == Coefficient(p3, i) {
      ThreeTermCoefficient(alpha, p2, beta, p1, i);
    }
    Ext(t, p3);
  }

  /** 7/4 * X * P_3 - 3/4 * P_2. */
  lemma StepToFour()
    ensures ThreeTerm(Alpha(4), [0.0, -1.5, 0.0, 2.5], Beta(4), [-0.5, 0.0, 1.5]) == [0.375, 0.0, -3.75, 0.0, 4.375]
  {
    var p3, p2, p4: Poly := [0.0, -1.5, 0.0, 2.5], [-0.5, 0.0, 1.5], [0.375, 0.0, -3.75, 0.0, 4.375];
    var t := ThreeTerm(1.75, p3, 0.75, p2);
    assert Alpha(4) == 1.75 && Beta(4) == 0.75;
    forall i: nat ensures Coefficient(t, i) == Coefficient(p4, i) {
      ThreeTermCoefficient(1.75, p3, 0.75, p2, i);
    }
    Ext(t, p4);
  }

  /** The expansions of P_5 ... P_8 listed by the library's tests, each
      from the two before it. */
  lemma LegendreFive()
    ensures Legendre(5) == [0.0, 1.875, 0.0, -8.75, 0.0, 7.875]
  {
    LegendreFour();
    LegendreThree();
    LegendreStepIsThreeTerm(5);
    StepToFive();
  }

  lemma StepToFive()
    ensures ThreeTerm(Alpha(5), [0.375, 0.0, -3.75, 0.0, 4.375], Beta(5), [0.0, -1.5, 0.0, 2.5]) == [0.0, 1.875, 0.0, -8.75, 0.0, 7.875]
  {
    var a, b, c: Poly := [0.375, 0.0, -3.75, 0.0, 4.375], [0.0, -1.5, 0.0, 2.5], [0.0, 1.875, 0.0, -8.75, 0.0, 7.875];
    var alpha, beta := 1.8, 0.8;
    var t := ThreeTerm(alpha, a, beta, b);
    assert Alpha(5) == alpha && Beta(5) == beta;
    forall i: nat ensures Coefficient(t, i) == Coefficient(c, i) {
      ThreeTermCoefficient(alpha, a, beta, b, i);
    }
    Ext(t, c);
  }

  lemma LegendreSix()
    ensures Legendre(6) == [-0.3125, 0.0, 6.5625, 0.0, -19.6875, 0.0, 14.4375]
  {
    LegendreFive();
    LegendreFour();
    LegendreStepIsThreeTerm(6);
    StepToSix();
  }

  lemma StepToSix()
    ensures ThreeTerm(Alpha(6), [0.0, 1.875, 0.0, -8.75, 0.0, 7.875], Beta(6), [0.375, 0.0, -3.75, 0.0, 4.375]) == [-0.3125, 0.0, 6.5625, 0.0, -19.6875, 0.0, 14.4375]
  {
    var a, b, c: Poly := [0.0, 1.875, 0.0, -8.75, 0.0, 7.875], [0.375, 0.0, -3.75, 0.0, 4.375], [-0.3125, 0.0, 6.5625, 0.0, -19.6875, 0.0, 14.4375];
    var alpha, beta := 11.0 / 6.0, 5.0 / 6.0;
    var t := ThreeTerm(alpha, a, beta, b);
    assert Alpha(6) == alpha && Beta(6) == beta;
    forall i: nat ensures Coefficient(t, i) == Coefficient(c, i) {
      ThreeTermCoefficient(alpha, a, beta, b, i);
    }
    Ext(t, c);
  }

  lemma LegendreSeven()
    ensures Legendre(7) == [0.0, -2.1875, 0.0, 19.6875, 0.0, -43.3125, 0.0, 26.8125]
  {
    LegendreSix();
    LegendreFive();
    LegendreStepIsThreeTerm(7);
    StepToSeven();
  }

  lemma StepToSeven()
    ensures ThreeTerm(Alpha(7), [-0.3125, 0.0, 6.5625, 0.0, -19.6875, 0.0, 14.4375], Beta(7), [0.0, 1.875, 0.0, -8.75, 0.0, 7.875]) == [0.0, -2.1875, 0.0, 19.6875, 0.0, -43.3125, 0.0, 26.8125]
  {
    var a, b, c: Poly := [-0.3125, 0.0, 6.5625, 0.0, -19.6875, 0.0, 14.4375], [0.0, 1.875, 0.0, -8.75, 0.0, 7.875], [0.0, -2.1875, 0.0, 19.6875, 0.0, -43.3125, 0.0, 26.8125];
    var alpha, beta := 13.0 / 7.0, 6.0 / 7.0;
    var t := ThreeTerm(alpha, a, beta, b);
    assert Alpha(7) == alpha && Beta(7) == beta;
    forall i: nat ensures Coefficient(t, i) == Coefficient(c, i) {
      ThreeTermCoefficient(alpha, a, beta, b, i);
    }
    Ext(t, c);
  }

  lemma LegendreEight()
    ensures Legendre(8) == [0.2734375, 0.0, -9.84375, 0.0, 54.140625, 0.0, -93.84375, 0.0, 50.2734375]
  {
    LegendreSeven();
    LegendreSix();
    LegendreStepIsThreeTerm(8);
    StepToEight();
  }

  lemma StepToEight()
    ensures ThreeTerm(Alpha(8), [0.0, -2.1875, 0.0, 19.6875, 0.0, -43.3125, 0.0, 26.8125], Beta(8), [-0.3125, 0.0, 6.5625, 0.0, -19.6875, 0.0, 14.4375]) == [0.2734375, 0.0, -9.84375, 0.0, 54.140625, 0.0, -93.84375, 0.0, 50.2734375]
  {
    var a, b, c: Poly := [0.0, -2.1875, 0.0, 19.6875, 0.0, -43.3125, 0.0, 26.8125], [-0.3125, 0.0, 6.5625, 0.0, -19.6875, 0.0, 14.4375], [0.2734375, 0.0, -9.84375, 0.0, 54.140625, 0.0, -93.84375, 0.0, 50.2734375];
    var alpha, beta := 1.875, 0.875;
    var t := ThreeTerm(alpha, a, beta, b);
    assert Alpha(8) == alpha && Beta(8) == beta;
    forall i: nat ensures Coefficient(t, i) == Coefficient(c, i) {
      ThreeTermCoefficient(alpha, a, beta, b, i);
    }
    Ext(t, c);
  }

  /** cache holds P_0, P_1, ... in order. */
  ghost predicate IsLegendreTable(cache: seq<Poly>) {
    forall k {:trigger cache[k]} :: 0 <= k < |cache| ==> cache[k] == Legendre(k)
  }

  /** P_0 ... P_(k-1) followed by P_k is P_0 ... P_k. */
  lemma CacheSnoc(cache: seq<Poly>, next: Poly)
    requires IsLegendreTable(cache)
    requires next == Legendre(|cache|)
    ensures IsLegendreTable(cache + [next])
  {
    var extended := cache + [next];
    forall k {:trigger extended[k]} | 0 <= k < |extended| ensures extended[k] == Legendre(k) {
      if k < |cache| {
        assert extended[k] == cache[k];
      }
    }
  }

  /** The static vector `legendre_polynomial_`: P_0, P_1, ... in order,
      extended in place by `create`. */
  class LegendreCache {
    var polynomials: seq<Poly>

    ghost predicate Valid()
      reads this
    {
      IsLegendreTable(polynomials)
    }

    constructor ()
      ensures Valid() && polynomials == []
    {
      polynomials := [];
    }

    /** `create(order)`: appends P_k for every k up to the order that is not
        yet cached, each from the two entries before it, and returns P_order.
        The entries already cached are kept. */
    method Create(order: nat) returns (p: Poly)
      requires Valid()
      modifies this
      ensures Valid()
      ensures p == Legendre(order)
      ensures |polynomials| == if order < old(|polynomials|) then old(|polynomials|) else order + 1
      ensures polynomials[..old(|polynomials|)] == old(polynomials)
    {
      while |polynomials| <= order
        invariant Valid()
        invariant old(|polynomials|) <= |polynomials|
        invariant |polynomials| <= if order < old(|polynomials|) then old(|polynomials|) else order + 1
        invariant polynomials[..old(|polynomials|)] == old(polynomials)
        decreases order + 1 - |polynomials|
      {
        var k := |polynomials|;
        var next: Poly;
        if k == 0 {
          next := One();
          LegendreBase();
        } else if k == 1 {
          next := X();
          LegendreBase();
        } else {
          next := ThreeTerm(Alpha(k), polynomials[k - 1], Beta(k), polynomials[k - 2]);
          LegendreStepIsThreeTerm(k);
        }
        assert next == Legendre(k);
        CacheSnoc(polynomials, next);
        assert (polynomials + [next])[..old(|polynomials|)] == polynomials[..old(|polynomials|)];
        polynomials := polynomials + [next];
      }
      p := polynomials[order];
    }
  }
}
