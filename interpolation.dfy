/** Lagrange basis and Lagrange interpolation
    (include/polynomial_interpolation.h). */
module Interpolation {
  import C = Coefficients
  import opened Polynomials

  /** The interpolation nodes are pairwise distinct. */
  predicate Distinct(xs: seq<real>) {
    forall i, j :: 0 <= i < j < |xs| ==> xs[i] != xs[j]
  }

  /** The factor (X - xm) / (xj - xm) of the basis polynomial for node xj. */
  function Factor(xj: real, xm: real): (f: Poly)
    requires xj != xm
  {
    MulScalar(LinearFactor(xm), 1.0 / (xj - xm))
  }

  lemma FactorEval(xj: real, xm: real, x: real)
    requires xj != xm
    ensures Evaluate(Factor(xj, xm), x) == (x - xm) / (xj - xm)
  {
    MulScalarEval(LinearFactor(xm), 1.0 / (xj - xm), x);
    LinearFactorEval(xm, x);
  }

  lemma FactorDegree(xj: real, xm: real)
    requires xj != xm
    ensures Degree(Factor(xj, xm)) == 1
  {
    var f := Factor(xj, xm);
    var s := 1.0 / (xj - xm);
    var l := LinearFactor(xm);
    assert Coefficient(l, 1) == 1.0;
    assert Coefficient(f, 1) == s != 0.0;
    assert forall i: nat :: i >= 2 ==> Coefficient(f, i) == 0.0 by {
      forall i: nat | i >= 2 ensures Coefficient(f, i) == 0.0 {
        assert Coefficient(l, i) == 0.0;
      }
    }
    VanishingFrom(f, 2);
    LeadingCoefficientFacts(f);
  }

  /** Multiplying a nonzero polynomial by one of degree 1 raises its degree by one. */
  lemma MulByLinearDegree(p: Poly, f: Poly)
    requires !IsZero(p) && Degree(f) == 1
    ensures Degree(Mul(p, f)) == Degree(p) + 1 && !IsZero(Mul(p, f))
  {
    assert !IsZero(f);
    MulDegree(p, f);
  }

  /** The product of the factors for the nodes xs[0..n] other than xs[j]:
      a nonzero polynomial with one degree per factor, equal to 1 at xs[j]
      and to 0 at every other node among the first n. */
  function BasisUpTo(xs: seq<real>, j: nat, n: nat): (b: Poly)
    requires Distinct(xs) && j < |xs| && n <= |xs|
    ensures Degree(b) == if j < n then n - 1 else n
    ensures !IsZero(b)
    ensures Evaluate(b, xs[j]) == 1.0
    ensures forall m :: 0 <= m < n && m != j ==> Evaluate(b, xs[m]) == 0.0
  {
    if n == 0 then
      ConstantEval(1.0, xs[j]);
      One()
    else
      var rest := BasisUpTo(xs, j, n - 1);
      if n - 1 == j then rest
      else
        BasisStep(rest, xs, j, n);
        Mul(rest, Factor(xs[j], xs[n - 1]))
  }

  /** One more factor: the product keeps the properties of the basis
      polynomial for one more node. */
  lemma BasisStep(rest: Poly, xs: seq<real>, j: nat, n: nat)
    requires Distinct(xs) && j < |xs| && 0 < n <= |xs| && n - 1 != j
    requires Degree(rest) == (if j < n - 1 then n - 2 else n - 1) && !IsZero(rest)
    requires Evaluate(rest, xs[j]) == 1.0
    requires forall m :: 0 <= m < n - 1 && m != j ==> Evaluate(rest, xs[m]) == 0.0
    ensures Degree(Mul(rest, Factor(xs[j], xs[n - 1]))) == (if j < n then n - 1 else n)
    ensures !IsZero(Mul(rest, Factor(xs[j], xs[n - 1])))
    ensures Evaluate(Mul(rest, Factor(xs[j], xs[n - 1])), xs[j]) == 1.0
    ensures forall m :: 0 <= m < n && m != j ==> Evaluate(Mul(rest, Factor(xs[j], xs[n - 1])), xs[m]) == 0.0
  {
    var f := Factor(xs[j], xs[n - 1]);
    FactorDegree(xs[j], xs[n - 1]);
    MulByLinearDegree(rest, f);
    FactorEval(xs[j], xs[n - 1], xs[j]);
    QuotientSelf(xs[j] - xs[n - 1]);
    MulEvalOne(rest, f, xs[j]);
    FactorAtOwnRoot(xs[j], xs[n - 1]);
    MulKeepsRoots(rest, f, xs, j, n);
  }

  /** The basis polynomial l_j. */
  function BasisPolynomial(xs: seq<real>, j: nat): (b: Poly)
    requires Distinct(xs) && j < |xs|
    ensures Degree(b) == |xs| - 1
    ensures forall m :: 0 <= m < |xs| ==> Evaluate(b, xs[m]) == if m == j then 1.0 else 0.0
  {
    BasisUpTo(xs, j, |xs|)
  }

  lemma QuotientSelf(d: real)
    requires d != 0.0
    ensures d / d == 1.0
  {
  }

  /** A product of two polynomials that are 1 at x is 1 at x. */
  lemma MulEvalOne(p: Poly, f: Poly, x: real)
    requires Evaluate(p, x) == 1.0 && Evaluate(f, x) == 1.0
    ensures Evaluate(Mul(p, f), x) == 1.0
  {
    MulEval(p, f, x);
    C.TimesOne(1.0);
  }

  /** Multiplying by the factor that vanishes at xs[n - 1] keeps the roots
      xs[m], m < n - 1, m != j, of p and adds xs[n - 1]. */
  lemma MulKeepsRoots(p: Poly, f: Poly, xs: seq<real>, j: nat, n: nat)
    requires 0 < n <= |xs|
    requires forall m :: 0 <= m < n - 1 && m != j ==> Evaluate(p, xs[m]) == 0.0
    requires Evaluate(f, xs[n - 1]) == 0.0
    ensures forall m :: 0 <= m < n && m != j ==> Evaluate(Mul(p, f), xs[m]) == 0.0
  {
    forall m | 0 <= m < n && m != j ensures Evaluate(Mul(p, f), xs[m]) == 0.0 {
      MulEval(p, f, xs[m]);
      C.TimesZero(Evaluate(f, xs[m]));
      C.TimesZero(Evaluate(p, xs[m]));
    }
  }

  /** The factor (X - xm) / (xj - xm) vanishes at xm. */
  lemma FactorAtOwnRoot(xj: real, xm: real)
    requires xj != xm
    ensures Evaluate(Factor(xj, xm), xm) == 0.0
  {
    FactorEval(xj, xm, xm);
  }

  /** `lagrange_basis(xs)`: one polynomial per node, of degree |xs| - 1, with
      l_j(x_m) equal to 1 when j == m and to 0 otherwise. */
  function LagrangeBasis(xs: seq<real>): (basis: seq<Poly>)
    requires Distinct(xs)
    ensures |basis| == |xs|
    ensures forall j :: 0 <= j < |xs| ==> Degree(basis[j]) == |xs| - 1
    ensures forall j, m :: 0 <= j < |xs| && 0 <= m < |xs| ==>
              Evaluate(basis[j], xs[m]) == if j == m then 1.0 else 0.0
  {
    seq(|xs|, j requires 0 <= j < |xs| => BasisPolynomial(xs, j))
  }

  /** Every basis polynomial vanishes at all the other nodes. */
  lemma LagrangeBasisRoots(xs: seq<real>, j: nat)
    requires Distinct(xs) && j < |xs|
    ensures HasRoots(LagrangeBasis(xs)[j], xs[..j] + xs[j + 1..])
    ensures !HasRoot(LagrangeBasis(xs)[j], xs[j])
  {
    var others := xs[..j] + xs[j + 1..];
    forall k | 0 <= k < |others| ensures HasRoot(LagrangeBasis(xs)[j], others[k]) {
      if k < j {
        assert others[k] == xs[k];
      } else {
        assert others[k] == xs[k + 1];
      }
    }
  }

  /** The sum of ys[j] * basis[j] over the first n terms. */
  function Combination(basis: seq<Poly>, ys: seq<real>, n: nat): Poly
    requires n <= |basis| && n <= |ys|
  {
    if n == 0 then Zero()
    else Add(Combination(basis, ys, n - 1), MulScalar(basis[n - 1], ys[n - 1]))
  }

  /** At a point where basis[i] is 1 and every other basis polynomial is 0,
      the combination takes the value ys[i]. */
  lemma {:induction false} CombinationAt(basis: seq<Poly>, ys: seq<real>, n: nat, i: nat, x: real)
    requires n <= |basis| && n <= |ys|
    requires forall j :: 0 <= j < n ==> Evaluate(basis[j], x) == if j == i then 1.0 else 0.0
    ensures Evaluate(Combination(basis, ys, n), x) == if i < n then ys[i] else 0.0
  {
    if n == 0 {
      ConstantEval(0.0, x);
    } else {
      CombinationAt(basis, ys, n - 1, i, x);
      AddEval(Combination(basis, ys, n - 1), MulScalar(basis[n - 1], ys[n - 1]), x);
      MulScalarEval(basis[n - 1], ys[n - 1], x);
    }
  }

  /** A combination of polynomials of degree at most d has no term above X^d. */
  lemma {:induction false} CombinationVanishes(basis: seq<Poly>, ys: seq<real>, n: nat, d: nat, i: nat)
    requires n <= |basis| && n <= |ys|
    requires forall j :: 0 <= j < n ==> Degree(basis[j]) <= d
    requires i > d
    ensures Coefficient(Combination(basis, ys, n), i) == 0.0
  {
    if n > 0 {
      CombinationVanishes(basis, ys, n - 1, d, i);
      LeadingCoefficientFacts(basis[n - 1]);
    }
  }

  /** `lagrange_interpolation(x_values, y_values)`: a polynomial of degree
      below the number of points that takes the value y_values[i] at
      x_values[i]. */
  function LagrangeInterpolation(xs: seq<real>, ys: seq<real>): (p: Poly)
    requires Distinct(xs) && |xs| == |ys|
    ensures forall i :: 0 <= i < |xs| ==> Evaluate(p, xs[i]) == ys[i]
    ensures |xs| > 0 ==> Degree(p) < |xs|
  {
    var basis := LagrangeBasis(xs);
    var p := Combination(basis, ys, |xs|);
    assert forall i :: 0 <= i < |xs| ==> Evaluate(p, xs[i]) == ys[i] by {
      forall i | 0 <= i < |xs| ensures Evaluate(p, xs[i]) == ys[i] {
        CombinationAt(basis, ys, |xs|, i, xs[i]);
      }
    }
    if |xs| > 0 then
      assert forall i: nat :: i >= |xs| ==> Coefficient(p, i) == 0.0 by {
        forall i: nat | i >= |xs| ensures Coefficient(p, i) == 0.0 {
          CombinationVanishes(basis, ys, |xs|, |xs| - 1, i);
        }
      }
      VanishingFrom(p, |xs|);
      p
    else
      p
  }
}
