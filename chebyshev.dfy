/** Chebyshev polynomials of the first kind and the cache in which
    `create_1st_kind` keeps them (include/chebyshev_polynomial.h). */
module Chebyshev {
  import C = Coefficients
  import opened Polynomials

  /** The consecutive pair (T_n, T_(n+1)): T_0 = 1, T_1 = X, and each step
      moves the pair one place along T_(k+1) = 2X * T_k - T_(k-1). */
  function FirstKindPair(n: nat): (Poly, Poly) {
    if n == 0 then (One(), X())
    else
      var prev := FirstKindPair(n - 1);
      (prev.1, ThreeTerm(2.0, prev.1, 1.0, prev.0))
  }

  /** T_n, the Chebyshev polynomial of the first kind of order n. */
  function FirstKind(n: nat): Poly {
    FirstKindPair(n).0
  }

  lemma FirstKindBase()
    ensures FirstKind(0) == One() && FirstKind(1) == X()
  {
  }

  /** T_n = 2X * T_(n-1) - T_(n-2) from n = 2 on. */
  lemma FirstKindStepIsThreeTerm(n: nat)
    requires n >= 2
    ensures FirstKind(n) == ThreeTerm(2.0, FirstKind(n - 1), 1.0, FirstKind(n - 2))
  {
    assert FirstKindPair(n - 1).0 == FirstKindPair(n - 2).1;
  }

  /** The recurrence in the library's own polynomial operations:
      T_n = 2X * T_(n-1) - T_(n-2). */
  lemma FirstKindRecurrence(n: nat)
    requires n >= 2
    ensures FirstKind(n) == Sub(ScaledShift(FirstKind(n - 1), 2.0), FirstKind(n - 2))
    ensures FirstKind(n) == Sub(MulScalar(Mul(X(), FirstKind(n - 1)), 2.0), FirstKind(n - 2))
  {
    var a, b := FirstKind(n - 1), FirstKind(n - 2);
    FirstKindStepIsThreeTerm(n);
    ThreeTermIsPolynomialExpression(2.0, a, 1.0, b);
    MulScalarOne(b);
    ScaledShiftIsMulX(a, 2.0);
  }

  /** Degree n, leading coefficient 1 for n = 0 and 2^(n-1) after, and only
      powers of the parity of n. */
  ghost predicate FirstKindShaped(p: Poly, n: nat) {
    Degree(p) == n &&
    LeadingCoefficient(p) == (if n == 0 then 1.0 else Power(2.0, n - 1)) &&
    ParityOf(p, n)
  }

  lemma {:induction false} FirstKindPairShape(n: nat)
    ensures FirstKindShaped(FirstKindPair(n).0, n) && FirstKindShaped(FirstKindPair(n).1, n + 1)
  {
    if n == 0 {
      assert FirstKindPair(0) == (One(), X());
    } else {
      FirstKindPairShape(n - 1);
      var prev := FirstKindPair(n - 1);
      FirstKindStep(prev.1, prev.0, n + 1);
    }
  }

  /** T_n has degree n, leading coefficient 2^(n-1) from T_1 on, and only
      powers of the parity of n: T_n is even for even n and odd for odd n. */
  lemma FirstKindShape(n: nat)
    ensures Degree(FirstKind(n)) == n
    ensures LeadingCoefficient(FirstKind(n)) == if n == 0 then 1.0 else Power(2.0, n - 1)
    ensures ParityOf(FirstKind(n), n)
  {
    FirstKindPairShape(n);
  }

  lemma PowerOfTwoPositive(k: nat)
    ensures Power(2.0, k) >= 1.0
  {
  }

  /** One step of the recurrence keeps the degree, leading-coefficient and
      parity invariants. */
  lemma FirstKindStep(a: Poly, b: Poly, n: nat)
    requires n >= 2
    requires Degree(a) == n - 1 && LeadingCoefficient(a) == Power(2.0, n - 2)
    requires Degree(b) == n - 2
    requires ParityOf(a, n - 1) && ParityOf(b, n - 2)
    ensures Degree(ThreeTerm(2.0, a, 1.0, b)) == n
    ensures LeadingCoefficient(ThreeTerm(2.0, a, 1.0, b)) == Power(2.0, n - 1)
    ensures ParityOf(ThreeTerm(2.0, a, 1.0, b), n)
  {
    var t := ThreeTerm(2.0, a, 1.0, b);
    LeadingCoefficientFacts(a);
    LeadingCoefficientFacts(b);
    PowerOfTwoPositive(n - 1);
    ThreeTermCoefficient(2.0, a, 1.0, b, n);
    C.TimesZero(1.0);
    assert Coefficient(t, n) == Power(2.0, n - 1);
    forall i: nat | i > n ensures Coefficient(t, i) == 0.0 {
      ThreeTermCoefficient(2.0, a, 1.0, b, i);
      assert Coefficient(a, i - 1) == 0.0;
    }
    VanishingFrom(t, n + 1);
    LeadingCoefficientFacts(t);
    forall i: nat | OppositeParity(n, i) ensures Coefficient(t, i) == 0.0 {
      ThreeTermCoefficient(2.0, a, 1.0, b, i);
      assert OppositeParity(n - 2, i);
      if i > 0 {
        assert OppositeParity(n - 1, i - 1);
      }
    }
  }

  /** The recurrence read coefficient by coefficient. */
  lemma FirstKindCoefficient(n: nat, i: nat)
    requires n >= 2
    ensures Coefficient(FirstKind(n), i) ==
            (if i == 0 then 0.0 else 2.0 * Coefficient(FirstKind(n - 1), i - 1)) - Coefficient(FirstKind(n - 2), i)
  {
    FirstKindStepIsThreeTerm(n);
    ThreeTermCoefficient(2.0, FirstKind(n - 1), 1.0, FirstKind(n - 2), i);
    C.TimesOne(Coefficient(FirstKind(n - 2), i));
  }

  /** The recurrence read on values: T_n(x) = 2x * T_(n-1)(x) - T_(n-2)(x). */
  lemma FirstKindEval(n: nat, x: real)
    requires n >= 2
    ensures Evaluate(FirstKind(n), x) == C.Times(2.0, C.Times(x, Evaluate(FirstKind(n - 1), x))) - Evaluate(FirstKind(n - 2), x)
  {
    var b := FirstKind(n - 2);
    FirstKindStepIsThreeTerm(n);
    ThreeTermEval(2.0, FirstKind(n - 1), 1.0, b, x);
    C.TimesOne(Evaluate(b, x));
  }

  lemma {:induction false} FirstKindPairAtEnds(n: nat)
    ensures Evaluate(FirstKindPair(n).0, 1.0) == 1.0 && Evaluate(FirstKindPair(n).1, 1.0) == 1.0
    ensures Evaluate(FirstKindPair(n).0, -1.0) == Power(-1.0, n)
    ensures Evaluate(FirstKindPair(n).1, -1.0) == Power(-1.0, n + 1)
  {
    if n == 0 {
      assert FirstKindPair(0) == (Constant(1.0), X());
      ConstantEval(1.0, 1.0);
      ConstantEval(1.0, -1.0);
      XEval(1.0);
      XEval(-1.0);
    } else {
      FirstKindPairAtEnds(n - 1);
      var prev := FirstKindPair(n - 1);
      ThreeTermEval(2.0, prev.1, 1.0, prev.0, 1.0);
      ThreeTermEval(2.0, prev.1, 1.0, prev.0, -1.0);
      var q := Power(-1.0, n - 1);
      assert Power(-1.0, n) == -q;
      assert Power(-1.0, n + 1) == q;
    }
  }

  /** T_n(1) = 1 and T_n(-1) = (-1)^n. */
  lemma FirstKindAtEnds(n: nat)
    ensures Evaluate(FirstKind(n), 1.0) == 1.0
    ensures Evaluate(FirstKind(n), -1.0) == Power(-1.0, n)
  {
    FirstKindPairAtEnds(n);
  }

  /** The expansions of T_2, T_3 and T_4 listed by the library's tests. */
  lemma FirstKindTwo()
    ensures FirstKind(2) == [-1.0, 0.0, 2.0]
  {
    var t2: Poly := [-1.0, 0.0, 2.0];
    FirstKindBase();
    forall i: nat ensures Coefficient(FirstKind(2), i) == Coefficient(t2, i) {
      FirstKindCoefficient(2, i);
    }
    Ext(FirstKind(2), t2);
  }

  lemma FirstKindThree()
    ensures FirstKind(3) == [0.0, -3.0, 0.0, 4.0]
  {
    var t3: Poly := [0.0, -3.0, 0.0, 4.0];
    FirstKindBase();
    FirstKindTwo();
    forall i: nat ensures Coefficient(FirstKind(3), i) == Coefficient(t3, i) {
      FirstKindCoefficient(3, i);
    }
    Ext(FirstKind(3), t3);
  }

  lemma FirstKindFour()
    ensures FirstKind(4) == [1.0, 0.0, -8.0, 0.0, 8.0]
  {
    FirstKindTwo();
    FirstKindThree();
    FirstKindStepIsThreeTerm(4);
    StepToFour();
  }

  /** 2X * (4X^3 - 3X) - (2X^2 - 1) = 8X^4 - 8X^2 + 1. */
  lemma StepToFour()
    ensures ThreeTerm(2.0, [0.0, -3.0, 0.0, 4.0], 1.0, [-1.0, 0.0, 2.0]) == [1.0, 0.0, -8.0, 0.0, 8.0]
  {
    var t2: Poly := [-1.0, 0.0, 2.0];
    var t3: Poly := [0.0, -3.0, 0.0, 4.0];
    var t4: Poly := [1.0, 0.0, -8.0, 0.0, 8.0];
    var t := ThreeTerm(2.0, t3, 1.0, t2);
    forall i: nat ensures Coefficient(t, i) == Coefficient(t4, i) {
      ThreeTermCoefficient(2.0, t3, 1.0, t2, i);
    }
    Ext(t, t4);
  }

  /** The expansions of T_5 ... T_10 listed by the library's tests, each
      from the two before it. */
  lemma FirstKindFive()
    ensures FirstKind(5) == [0.0, 5.0, 0.0, -20.0, 0.0, 16.0]
  {
    FirstKindFour();
    FirstKindThree();
    FirstKindStepIsThreeTerm(5);
    StepToFive();
  }

  lemma StepToFive()
    ensures ThreeTerm(2.0, [1.0, 0.0, -8.0, 0.0, 8.0], 1.0, [0.0, -3.0, 0.0, 4.0]) == [0.0, 5.0, 0.0, -20.0, 0.0, 16.0]
  {
    var a, b, c: Poly := [1.0, 0.0, -8.0, 0.0, 8.0], [0.0, -3.0, 0.0, 4.0], [0.0, 5.0, 0.0, -20.0, 0.0, 16.0];
    var t := ThreeTerm(2.0, a, 1.0, b);
    forall i: nat ensures Coefficient(t, i) == Coefficient(c, i) {
      ThreeTermCoefficient(2.0, a, 1.0, b, i);
    }
    Ext(t, c);
  }

  lemma FirstKindSix()
    ensures FirstKind(6) == [-1.0, 0.0, 18.0, 0.0, -48.0, 0.0, 32.0]
  {
    FirstKindFive();
    FirstKindFour();
    FirstKindStepIsThreeTerm(6);
    StepToSix();
  }

  lemma StepToSix()
    ensures ThreeTerm(2.0, [0.0, 5.0, 0.0, -20.0, 0.0, 16.0], 1.0, [1.0, 0.0, -8.0, 0.0, 8.0]) == [-1.0, 0.0, 18.0, 0.0, -48.0, 0.0, 32.0]
  {
    var a, b, c: Poly := [0.0, 5.0, 0.0, -20.0, 0.0, 16.0], [1.0, 0.0, -8.0, 0.0, 8.0], [-1.0, 0.0, 18.0, 0.0, -48.0, 0.0, 32.0];
    var t := ThreeTerm(2.0, a, 1.0, b);
    forall i: nat ensures Coefficient(t, i) == Coefficient(c, i) {
      ThreeTermCoefficient(2.0, a, 1.0, b, i);
    }
    Ext(t, c);
  }

  lemma FirstKindSeven()
    ensures FirstKind(7) == [0.0, -7.0, 0.0, 56.0, 0.0, -112.0, 0.0, 64.0]
  {
    FirstKindSix();
    FirstKindFive();
    FirstKindStepIsThreeTerm(7);
    StepToSeven();
  }

  lemma StepToSeven()
    ensures ThreeTerm(2.0, [-1.0, 0.0, 18.0, 0.0, -48.0, 0.0, 32.0], 1.0, [0.0, 5.0, 0.0, -20.0, 0.0, 16.0]) == [0.0, -7.0, 0.0, 56.0, 0.0, -112.0, 0.0, 64.0]
  {
    var a, b, c: Poly := [-1.0, 0.0, 18.0, 0.0, -48.0, 0.0, 32.0], [0.0, 5.0, 0.0, -20.0, 0.0, 16.0], [0.0, -7.0, 0.0, 56.0, 0.0, -112.0, 0.0, 64.0];
    var t := ThreeTerm(2.0, a, 1.0, b);
    forall i: nat ensures Coefficient(t, i) == Coefficient(c, i) {
      ThreeTermCoefficient(2.0, a, 1.0, b, i);
    }
    Ext(t, c);
  }

  lemma FirstKindEight()
    ensures FirstKind(8) == [1.0, 0.0, -32.0, 0.0, 160.0, 0.0, -256.0, 0.0, 128.0]
  {
    FirstKindSeven();
    FirstKindSix();
    FirstKindStepIsThreeTerm(8);
    StepToEight();
  }

  lemma StepToEight()
    ensures ThreeTerm(2.0, [0.0, -7.0, 0.0, 56.0, 0.0, -112.0, 0.0, 64.0], 1.0, [-1.0, 0.0, 18.0, 0.0, -48.0, 0.0, 32.0]) == [1.0, 0.0, -32.0, 0.0, 160.0, 0.0, -256.0, 0.0, 128.0]
  {
    var a, b, c: Poly := [0.0, -7.0, 0.0, 56.0, 0.0, -112.0, 0.0, 64.0], [-1.0, 0.0, 18.0, 0.0, -48.0, 0.0, 32.0], [1.0, 0.0, -32.0, 0.0, 160.0, 0.0, -256.0, 0.0, 128.0];
    var t := ThreeTerm(2.0, a, 1.0, b);
    forall i: nat ensures Coefficient(t, i) == Coefficient(c, i) {
      ThreeTermCoefficient(2.0, a, 1.0, b, i);
    }
    Ext(t, c);
  }

  lemma FirstKindNine()
    ensures FirstKind(9) == [0.0, 9.0, 0.0, -120.0, 0.0, 432.0, 0.0, -576.0, 0.0, 256.0]
  {
    FirstKindEight();
    FirstKindSeven();
    FirstKindStepIsThreeTerm(9);
    StepToNine();
  }

  lemma StepToNine()
    ensures ThreeTerm(2.0, [1.0, 0.0, -32.0, 0.0, 160.0, 0.0, -256.0, 0.0, 128.0], 1.0, [0.0, -7.0, 0.0, 56.0, 0.0, -112.0, 0.0, 64.0]) == [0.0, 9.0, 0.0, -120.0, 0.0, 432.0, 0.0, -576.0, 0.0, 256.0]
  {
    var a, b, c: Poly := [1.0, 0.0, -32.0, 0.0, 160.0, 0.0, -256.0, 0.0, 128.0], [0.0, -7.0, 0.0, 56.0, 0.0, -112.0, 0.0, 64.0], [0.0, 9.0, 0.0, -120.0, 0.0, 432.0, 0.0, -576.0, 0.0, 256.0];
    var t := ThreeTerm(2.0, a, 1.0, b);
    forall i: nat ensures Coefficient(t, i) == Coefficient(c, i) {
      ThreeTermCoefficient(2.0, a, 1.0, b, i);
    }
    Ext(t, c);
  }

  lemma FirstKindTen()
    ensures FirstKind(10) == [-1.0, 0.0, 50.0, 0.0, -400.0, 0.0, 1120.0, 0.0, -1280.0, 0.0, 512.0]
  {
    FirstKindNine();
    FirstKindEight();
    FirstKindStepIsThreeTerm(10);
    StepToTen();
  }

  lemma StepToTen()
    ensures ThreeTerm(2.0, [0.0, 9.0, 0.0, -120.0, 0.0, 432.0, 0.0, -576.0, 0.0, 256.0], 1.0, [1.0, 0.0, -32.0, 0.0, 160.0, 0.0, -256.0, 0.0, 128.0]) == [-1.0, 0.0, 50.0, 0.0, -400.0, 0.0, 1120.0, 0.0, -1280.0, 0.0, 512.0]
  {
    var a, b, c: Poly := [0.0, 9.0, 0.0, -120.0, 0.0, 432.0, 0.0, -576.0, 0.0, 256.0], [1.0, 0.0, -32.0, 0.0, 160.0, 0.0, -256.0, 0.0, 128.0], [-1.0, 0.0, 50.0, 0.0, -400.0, 0.0, 1120.0, 0.0, -1280.0, 0.0, 512.0];
    var t := ThreeTerm(2.0, a, 1.0, b);
    forall i: nat ensures Coefficient(t, i) == Coefficient(c, i) {
      ThreeTermCoefficient(2.0, a, 1.0, b, i);
    }
    Ext(t, c);
  }

  /** cache holds T_0, T_1, ... in order. */
  ghost predicate IsFirstKindTable(cache: seq<Poly>) {
    forall k {:trigger cache[k]} :: 0 <= k < |cache| ==> cache[k] == FirstKind(k)
  }

  /** T_0 ... T_(k-1) followed by T_k is T_0 ... T_k. */
  lemma CacheSnoc(cache: seq<Poly>, next: Poly)
    requires IsFirstKindTable(cache)
    requires next == FirstKind(|cache|)
    ensures IsFirstKindTable(cache + [next])
  {
    var extended := cache + [next];
    forall k {:trigger extended[k]} | 0 <= k < |extended| ensures extended[k] == FirstKind(k) {
      if k < |cache| {
        assert extended[k] == cache[k];
      }
    }
  }

  /** The static vector `chebyshev_1st_kind_polynomials_`: T_0, T_1, ... in
      order, extended in place by `create_1st_kind`. */
  class FirstKindCache {
    var polynomials: seq<Poly>

    ghost predicate Valid()
      reads this
    {
      IsFirstKindTable(polynomials)
    }

    constructor ()
      ensures Valid() && polynomials == []
    {
      polynomials := [];
    }

    /** `create_1st_kind(n)`: appends T_k for every k up to n that is not yet
        cached, each from the two entries before it, and returns T_n. The
        entries already cached are kept. */
    method Create1stKind(n: nat) returns (t: Poly)
      requires Valid()
      modifies this
      ensures Valid()
      ensures t == FirstKind(n)
      ensures |polynomials| == if n < old(|polynomials|) then old(|polynomials|) else n + 1
      ensures polynomials[..old(|polynomials|)] == old(polynomials)
    {
      while |polynomials| <= n
        invariant Valid()
        invariant old(|polynomials|) <= |polynomials|
        invariant |polynomials| <= if n < old(|polynomials|) then old(|polynomials|) else n + 1
        invariant polynomials[..old(|polynomials|)] == old(polynomials)
        decreases n + 1 - |polynomials|
      {
        var k := |polynomials|;
        var next: Poly;
        if k == 0 {
          next := One();
          FirstKindBase();
        } else if k == 1 {
          next := X();
          FirstKindBase();
        } else {
          next := ThreeTerm(2.0, polynomials[k - 1], 1.0, polynomials[k - 2]);
          FirstKindStepIsThreeTerm(k);
        }
        assert next == FirstKind(k);
        CacheSnoc(polynomials, next);
        assert (polynomials + [next])[..old(|polynomials|)] == polynomials[..old(|polynomials|)];
        polynomials := polynomials + [next];
      }
      t := polynomials[n];
    }
  }

  /** Requesting T_0, T_1, T_2, T_9 and T_10 from an empty cache leaves the
      eleven entries T_0 ... T_10 in it. */
  method EmptyCacheExample() returns (size: nat, t10: Poly)
    ensures size == 11
    ensures t10 == FirstKind(10)
    ensures t10 == [-1.0, 0.0, 50.0, 0.0, -400.0, 0.0, 1120.0, 0.0, -1280.0, 0.0, 512.0]
  {
    var cache := new FirstKindCache();
    var t0 := cache.Create1stKind(0);
    var t1 := cache.Create1stKind(1);
    var t2 := cache.Create1stKind(2);
    var t9 := cache.Create1stKind(9);
    t10 := cache.Create1stKind(10);
    size := |cache.polynomials|;
    FirstKindTen();
  }
}
