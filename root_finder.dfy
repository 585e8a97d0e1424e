/** Numerical refinement of a root of a real function: bisection on an
    interval with a sign change, and Newton-Raphson iteration with its
    guards (include/root_finder.h). */
module RootFinder {
  import opened Wrappers
  import Utils
  import Intervals

  /** x lies in [a, b], an interval no wider than tol at whose ends f takes
      values of opposite signs, so a continuous f has a root within tol of x. */
  predicate Bracket(f: real -> real, a: real, b: real, x: real, tol: real) {
    a <= x <= b && b - a <= tol && f(a) * f(b) < 0.0
  }

  /** `bisection(func, I, tolerance)`: fails when f does not change sign
      between the endpoints of I; otherwise halves the bracketing interval,
      keeping the half whose ends still differ in sign, until it is no wider
      than the tolerance or the midpoint value is nearly zero. */
  method Bisection(f: real -> real, i: Intervals.Interval, tol: real) returns (root: Option<real>)
    requires tol > 0.0
    ensures root.None? <==> f(i.lower) * f(i.upper) >= 0.0
    ensures root.Some? && i.lower <= i.upper ==> i.lower <= root.value <= i.upper
    ensures root.Some? && i.lower <= i.upper ==>
              Utils.NearlyZero(f(root.value), tol) ||
              exists a, b :: i.lower <= a && b <= i.upper && Bracket(f, a, b, root.value, tol)
  {
    var a, b := i.lower, i.upper;
    var fa, fb := f(a), f(b);
    if fa * fb >= 0.0 {
      return None;
    }
    while b - a > tol
      invariant i.lower <= a && b <= i.upper
      invariant i.lower <= i.upper ==> a <= b
      invariant fa == f(a) && fb == f(b) && fa * fb < 0.0
      invariant f(i.lower) * f(i.upper) < 0.0
      decreases ((b - a) / tol).Floor
    {
      var c := (a + b) / 2.0;
      var fc := f(c);
      if Utils.NearlyZero(fc, tol) {
        return Some(c);
      }
      HalfWidth(a, b, c, tol);
      if fa * fc < 0.0 {
        b, fb := c, fc;
      } else {
        SignCarries(fa, fb, fc);
        a, fa := c, fc;
      }
    }
    var x := (a + b) / 2.0;
    if i.lower <= i.upper {
      assert Bracket(f, a, b, x, tol);
    }
    return Some(x);
  }

  /** Halving a bracket wider than tol lowers the loop's measure. */
  lemma HalfWidth(a: real, b: real, c: real, tol: real)
    requires tol > 0.0 && b - a > tol && c == (a + b) / 2.0
    ensures 0 <= ((c - a) / tol).Floor < ((b - a) / tol).Floor
    ensures 0 <= ((b - c) / tol).Floor < ((b - a) / tol).Floor
  {
    var w := (b - a) / tol;
    assert (c - a) / tol == w / 2.0 && (b - c) / tol == w / 2.0;
    assert w > 1.0;
  }

  /** If x and z have the same sign and x * y < 0 then z * y < 0. */
  lemma SignCarries(x: real, y: real, z: real)
    requires x * y < 0.0 && x * z >= 0.0 && z != 0.0
    ensures z * y < 0.0
  {
    if x > 0.0 {
      assert y < 0.0;
      assert z > 0.0;
    } else {
      assert x < 0.0 && y > 0.0;
      assert z < 0.0;
    }
  }

  /** The Newton iteration followed for at most n steps from x: it fails
      when the derivative is nearly zero at an iterate or when the steps run
      out, and succeeds with the new iterate once a step is shorter than tol. */
  function Newton(f: real -> real, df: real -> real, x: real, n: nat, tol: real): Option<real>
    requires tol > 0.0
    decreases n
  {
    if n == 0 || Utils.NearlyZero(df(x), tol) then None
    else
      var y := x - f(x) / df(x);
      if Utils.Abs(y - x) < tol then Some(y) else Newton(f, df, y, n - 1, tol)
  }

  /** The k-th iterate from x, or None once a derivative is nearly zero. */
  function Iterate(f: real -> real, df: real -> real, x: real, k: nat, tol: real): Option<real>
    requires tol > 0.0
    decreases k
  {
    if k == 0 then Some(x)
    else if Utils.NearlyZero(df(x), tol) then None
    else Iterate(f, df, x - f(x) / df(x), k - 1, tol)
  }

  /** `newton_raphson(func, derive, initial, max_iterations, tolerance)`:
      at most max_iterations Newton steps from the initial guess. */
  method NewtonRaphson(f: real -> real, df: real -> real, initial: real, maxIterations: int, tol: real)
    returns (root: Option<real>)
    requires tol > 0.0
    ensures root == Newton(f, df, initial, if maxIterations < 0 then 0 else maxIterations, tol)
  {
    var x := initial;
    var k := 0;
    while k < maxIterations
      invariant 0 <= k && (maxIterations >= 0 ==> k <= maxIterations)
      invariant Newton(f, df, initial, if maxIterations < 0 then 0 else maxIterations, tol)
                == Newton(f, df, x, if maxIterations < 0 then 0 else maxIterations - k, tol)
    {
      var dfx := df(x);
      if Utils.NearlyZero(dfx, tol) {
        return None;
      }
      var next := x - f(x) / dfx;
      if Utils.Abs(next - x) < tol {
        return Some(next);
      }
      x := next;
      k := k + 1;
    }
    return None;
  }

  /** A nearly vanishing derivative at the start makes the iteration fail,
      and so does a budget of no steps. */
  lemma NewtonGuards(f: real -> real, df: real -> real, x: real, n: nat, tol: real)
    requires tol > 0.0
    ensures Utils.NearlyZero(df(x), tol) ==> Newton(f, df, x, n, tol) == None
    ensures n == 0 ==> Newton(f, df, x, n, tol) == None
  {
  }

  /** A result is reached within the budget: it is the k-th iterate for some
      1 <= k <= n, and the step that produced it was shorter than tol. */
  lemma {:induction false} NewtonWithinBudget(f: real -> real, df: real -> real, x: real, n: nat, tol: real)
    requires tol > 0.0
    requires Newton(f, df, x, n, tol).Some?
    decreases n
    ensures exists k: nat :: 1 <= k <= n && Iterate(f, df, x, k, tol) == Newton(f, df, x, n, tol)
  {
    var y := x - f(x) / df(x);
    if Utils.Abs(y - x) < tol {
      assert Iterate(f, df, y, 0, tol) == Some(y);
      assert Iterate(f, df, x, 1, tol) == Newton(f, df, x, n, tol);
    } else {
      NewtonWithinBudget(f, df, y, n - 1, tol);
      var k: nat :| 1 <= k <= n - 1 && Iterate(f, df, y, k, tol) == Newton(f, df, y, n - 1, tol);
      assert Iterate(f, df, x, k + 1, tol) == Newton(f, df, x, n, tol);
    }
  }

  /** At a root where the derivative is not nearly zero, the first step
      stays put, so the iteration returns the root itself. */
  lemma NewtonAtRoot(f: real -> real, df: real -> real, x: real, n: nat, tol: real)
    requires tol > 0.0 && n > 0 && f(x) == 0.0 && !Utils.NearlyZero(df(x), tol)
    ensures Newton(f, df, x, n, tol) == Some(x)
  {
  }

  /** x^3 - 3x - 1 from -1: the derivative 3x^2 - 3 vanishes at once, so the
      iteration fails. */
  lemma NewtonFailsOnFlatStart()
    ensures Newton(x => x * x * x - 3.0 * x - 1.0, x => 3.0 * x * x - 3.0, -1.0, 100, 0.00001) == None
  {
  }
}
