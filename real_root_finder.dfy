/** Real roots of a polynomial: Descartes' coefficient sign changes, the
    Cauchy bound, Sturm sequences and their sign variations, root counting,
    root isolation by recursive bisection and the driver that refines each
    isolated root (include/real_polynomial_root_finder.h). */
module RealRootFinder {
  import opened Wrappers
  import opened Polynomials
  import Utils
  import Intervals
  import Euclidean
  import SquareFree
  import RootFinder

  /** `polynomial<T>::tolerance`, the tolerance of the `double` library. */
  const Tolerance: real := 0.00001

  /** The depth at which the isolation stops bisecting. */
  const MaxDepth: nat := 100

  // ---------------------------------------------------------------------
  // Descartes' sign changes and the Cauchy bound

  /** `sign_changes(p)`: the sign changes between the coefficients that are
      not nearly zero, taken in order of the powers. */
  function CoefficientSignChanges(p: Poly): (n: nat)
    ensures n <= Degree(p)
  {
    Utils.Changes(Utils.NonZero(p, Tolerance))
  }

  /** The count is the same for -p, since flipping every sign keeps each change. */
  lemma CoefficientSignChangesNeg(p: Poly)
    ensures CoefficientSignChanges(Neg(p)) == CoefficientSignChanges(p)
  {
    NegIsNegate(p);
    Utils.SignChangesNonZeroSymmetric(p, Tolerance);
  }

  /** Negating a polynomial negates its coefficient sequence entry by entry. */
  lemma NegIsNegate(p: Poly)
    ensures Neg(p) == Utils.Negate(p)
  {
    NegDegree(p);
    var n := Neg(p);
    forall k | 0 <= k < |p| ensures n[k] == -p[k] {
      assert Coefficient(n, k) == -Coefficient(p, k);
    }
  }

  /** Negation keeps the degree and keeps zero at zero. */
  lemma NegDegree(p: Poly)
    ensures Degree(Neg(p)) == Degree(p)
    ensures IsZero(Neg(p)) <==> IsZero(p)
  {
    var n := Neg(p);
    LeadingCoefficientFacts(p);
    LeadingCoefficientFacts(n);
    VanishingFrom(n, Degree(p) + 1);
    if IsZero(p) {
      ZeroIffAllCoefficientsZero(p);
      ZeroIffAllCoefficientsZero(n);
    } else {
      assert Coefficient(n, Degree(p)) != 0.0;
      if IsZero(n) {
        ZeroIffAllCoefficientsZero(n);
      }
    }
  }

  /** The linear cases of test/real_polynomial_root_finder_tests.cpp: zero
      and 5X + 1 have no change, 5X - 1 and -5X + 1 one. */
  lemma CoefficientSignChangesLinear()
    ensures CoefficientSignChanges(Zero()) == 0
    ensures CoefficientSignChanges([1.0, 5.0]) == 0
    ensures CoefficientSignChanges([-1.0, 5.0]) == 1
    ensures CoefficientSignChanges([1.0, -5.0]) == 1
  {
    var t: seq<real> := [-1.0, 5.0];
    assert Utils.NonZero(t, Tolerance) == t by {
      assert Utils.NonZeroUpTo(t, Tolerance, 1) == t[..1];
      assert t[..2] == t;
    }
    assert t[..1] == [-1.0];
    var u: seq<real> := [1.0, 5.0];
    assert Utils.NonZero(u, Tolerance) == u by {
      assert Utils.NonZeroUpTo(u, Tolerance, 1) == u[..1];
      assert u[..2] == u;
    }
    assert u[..1] == [1.0];
    var w: seq<real> := [1.0, -5.0];
    assert Utils.NonZero(w, Tolerance) == w by {
      assert Utils.NonZeroUpTo(w, Tolerance, 1) == w[..1];
      assert w[..2] == w;
    }
    assert w[..1] == [1.0];
  }

  /** 5X^5 - X^4 - X^3 - X^2 + X - 1 has three coefficient sign changes. */
  lemma CoefficientSignChangesQuintic()
    ensures CoefficientSignChanges([-1.0, 1.0, -1.0, -1.0, -1.0, 5.0]) == 3
  {
    var s: seq<real> := [-1.0, 1.0, -1.0, -1.0, -1.0, 5.0];
    assert Utils.NonZero(s, Tolerance) == s by {
      assert Utils.NonZeroUpTo(s, Tolerance, 1) == s[..1];
      assert Utils.NonZeroUpTo(s, Tolerance, 2) == s[..2];
      assert Utils.NonZeroUpTo(s, Tolerance, 3) == s[..3];
      assert Utils.NonZeroUpTo(s, Tolerance, 4) == s[..4];
      assert Utils.NonZeroUpTo(s, Tolerance, 5) == s[..5];
      assert s[..6] == s;
    }
    var s5: seq<real> := [-1.0, 1.0, -1.0, -1.0, -1.0];
    var s4: seq<real> := [-1.0, 1.0, -1.0, -1.0];
    var s3: seq<real> := [-1.0, 1.0, -1.0];
    var s2: seq<real> := [-1.0, 1.0];
    assert s[..5] == s5 && s5[..4] == s4 && s4[..3] == s3 && s3[..2] == s2 && s2[..1] == [-1.0];
    assert Utils.Changes(s2) == 1;
    assert Utils.Changes(s3) == 2;
    assert Utils.Changes(s4) == 2;
    assert Utils.Changes(s5) == 2;
  }

  /** The largest |a_i / a_n| over the first k coefficients, a_n leading. */
  function MaxRatio(p: Poly, k: nat): (m: real)
    requires !IsZero(p) && k <= Degree(p)
    ensures m >= 0.0
    ensures forall i :: 0 <= i < k ==> Utils.Abs(C.Over(p[i], LeadingCoefficient(p))) <= m
    ensures k > 0 ==> exists i :: 0 <= i < k && m == Utils.Abs(C.Over(p[i], LeadingCoefficient(p)))
  {
    LeadingCoefficientFacts(p);
    if k == 0 then 0.0
    else
      var m := MaxRatio(p, k - 1);
      var a := Utils.Abs(C.Over(p[k - 1], LeadingCoefficient(p)));
      if a > m then a else m
  }

  /** `cauchy_bound(p)`: 1 + max |a_i / a_n| over the lower coefficients;
      absent for the zero polynomial, which has no leading coefficient. */
  function CauchyBound(p: Poly): (b: Option<real>)
    ensures b.None? <==> IsZero(p)
    ensures b.Some? ==> b.value >= 1.0
    ensures b.Some? ==> forall i :: 0 <= i < Degree(p) ==>
              Utils.Abs(C.Over(p[i], LeadingCoefficient(p))) <= b.value - 1.0
  {
    if IsZero(p) then None else Some(1.0 + MaxRatio(p, Degree(p)))
  }

  /** The case of the tests: 3X^4 - 6X^3 - 2X^2 - 9 has Cauchy bound 4. */
  lemma CauchyBoundExample()
    ensures CauchyBound([-9.0, 0.0, -2.0, -6.0, 3.0]) == Some(4.0)
  {
    var p: Poly := [-9.0, 0.0, -2.0, -6.0, 3.0];
    assert MaxRatio(p, 1) == 3.0;
    assert MaxRatio(p, 2) == 3.0;
    assert MaxRatio(p, 3) == 3.0;
    assert MaxRatio(p, 4) == 3.0;
  }

  // ---------------------------------------------------------------------
  // Sturm sequences

  /** r continues a Sturm chain after a: each term is the negated remainder
      of the two before it (a standing before r[0]), smaller in size than its
      predecessor, and the chain stops at its first constant term. */
  predicate SturmChain(a: Poly, r: seq<Poly>)
    decreases |r|
  {
    |r| >= 1 &&
    (|r| == 1 ==> IsConstant(r[0])) &&
    (|r| > 1 ==>
       !IsConstant(r[0]) && r[1] == Neg(Remainder(a, r[0])) &&
       Euclidean.Size(r[1]) < Euclidean.Size(r[0]) && SturmChain(r[0], r[1..]))
  }

  /** The chain after a that starts with b.  Each remainder has a smaller
      degree than its divisor, so the chain ends. */
  function SturmTail(a: Poly, b: Poly): (r: seq<Poly>)
    ensures 1 <= |r| <= Euclidean.Size(b) + 1
    ensures r[0] == b
    decreases Euclidean.Size(b)
  {
    if IsConstant(b) then [b]
    else
      NegDegree(Remainder(a, b));
      [b] + SturmTail(b, Neg(Remainder(a, b)))
  }

  /** Every tail is a Sturm chain. */
  lemma {:induction false} SturmTailChain(a: Poly, b: Poly)
    ensures SturmChain(a, SturmTail(a, b))
    decreases Euclidean.Size(b)
  {
    if !IsConstant(b) {
      var n := Neg(Remainder(a, b));
      NegDegree(Remainder(a, b));
      SturmTailChain(b, n);
      var r := SturmTail(a, b);
      assert r[1..] == SturmTail(b, n);
    }
  }

  /** `sturm_sequence(p)`: p, p', and then -(s[i-2] % s[i-1]) up to the
      first constant term; it has at most deg p + 2 terms. */
  function SturmSequence(p: Poly): (s: seq<Poly>)
    ensures 2 <= |s| <= Degree(p) + 2
    ensures s[0] == p && s[1] == Derive(p)
  {
    DeriveDegree(p);
    [p] + SturmTail(p, Derive(p))
  }

  /** After p, the Sturm sequence is a Sturm chain that starts with p'. */
  lemma SturmSequenceIsChain(p: Poly)
    ensures SturmChain(p, SturmSequence(p)[1..])
  {
    SturmTailChain(p, Derive(p));
    assert SturmSequence(p)[1..] == SturmTail(p, Derive(p));
  }

  /** The last term of the Sturm sequence is constant. */
  lemma SturmSequenceLast(p: Poly)
    ensures IsConstant(SturmSequence(p)[|SturmSequence(p)| - 1])
  {
    SturmTailLast(p, Derive(p));
    SturmSequenceUnfold(p);
    LastAfterPrepend(SturmSequence(p), p, SturmTail(p, Derive(p)));
  }

  lemma SturmSequenceUnfold(p: Poly)
    ensures SturmSequence(p) == [p] + SturmTail(p, Derive(p))
  {
  }

  /** The last term of a tail is constant. */
  lemma SturmTailLast(a: Poly, b: Poly)
    ensures IsConstant(SturmTail(a, b)[|SturmTail(a, b)| - 1])
  {
    SturmTailChain(a, b);
    SturmChainLast(a, SturmTail(a, b));
  }

  /** Prepending a term keeps the last one. */
  lemma LastAfterPrepend<T>(s: seq<T>, x: T, t: seq<T>)
    requires s == [x] + t && |t| >= 1
    ensures s[|s| - 1] == t[|t| - 1]
  {
  }

  /** A chain ends with a constant term. */
  lemma {:induction false} SturmChainLast(a: Poly, r: seq<Poly>)
    requires SturmChain(a, r)
    ensures IsConstant(r[|r| - 1])
    decreases |r|
  {
    if |r| > 1 {
      var rest := r[1..];
      SturmChainLast(r[0], rest);
      assert r[|r| - 1] == rest[|rest| - 1];
    }
  }

  /** The values of the terms at x. */
  function Values(s: seq<Poly>, x: real): (v: seq<real>)
    ensures |v| == |s| && forall k :: 0 <= k < |s| ==> v[k] == Evaluate(s[k], x)
  {
    seq(|s|, k requires 0 <= k < |s| => Evaluate(s[k], x))
  }

  /** `sign_variations(seq, x)`: the sign, +1 or -1, of each term's value at
      x, leaving out the values that are nearly zero. */
  function SignVariations(s: seq<Poly>, x: real): (v: seq<int>)
    ensures |v| <= |s|
    ensures forall k :: 0 <= k < |v| ==> v[k] == 1 || v[k] == -1
  {
    var nz := Utils.NonZero(Values(s, x), Tolerance);
    seq(|nz|, k requires 0 <= k < |nz| => Utils.Sign(nz[k]))
  }

  function AsReals(v: seq<int>): (r: seq<real>)
    ensures |r| == |v| && forall k :: 0 <= k < |v| ==> r[k] == v[k] as real
  {
    seq(|v|, k requires 0 <= k < |v| => v[k] as real)
  }

  /** The number of sign changes in the variations at x, counted by the
      loop of `sign_changes` in include/utils.h. */
  function Variations(s: seq<Poly>, x: real): nat {
    Utils.Changes(Utils.Kept(AsReals(SignVariations(s, x)), Tolerance))
  }

  /** The loop's treatment of a leading near-zero entry cannot affect the
      count here: the variations hold no such entry, and the count equals the
      sign changes among the values that are not nearly zero. */
  lemma VariationsIgnoreZeros(s: seq<Poly>, x: real)
    ensures Variations(s, x) == Utils.Changes(Utils.NonZero(Values(s, x), Tolerance))
  {
    var v := AsReals(SignVariations(s, x));
    KeptUnits(v, |v|);
    assert v[..|v|] == v;
    var nz := Utils.NonZero(Values(s, x), Tolerance);
    ChangesOfSigns(nz, v, |nz|);
    assert nz[..|nz|] == nz;
  }

  /** Entries of magnitude one are never nearly zero, so the loop keeps them all. */
  lemma {:induction false} KeptUnits(v: seq<real>, n: nat)
    requires n <= |v|
    requires forall k :: 0 <= k < |v| ==> v[k] == 1.0 || v[k] == -1.0
    ensures Utils.KeptUpTo(v, Tolerance, n) == v[..n]
  {
    if n > 1 {
      KeptUnits(v, n - 1);
      assert v[..n] == v[..n - 1] + [v[n - 1]];
    }
  }

  /** Replacing each value by its sign keeps the number of sign changes. */
  lemma {:induction false} ChangesOfSigns(t: seq<real>, v: seq<real>, n: nat)
    requires |v| == |t| && n <= |t|
    requires forall k :: 0 <= k < |t| ==> v[k] == Utils.Sign(t[k]) as real
    ensures Utils.Changes(v[..n]) == Utils.Changes(t[..n])
  {
    if n > 1 {
      ChangesOfSigns(t, v, n - 1);
      assert v[..n][..n - 1] == v[..n - 1];
      assert t[..n][..n - 1] == t[..n - 1];
      assert Utils.Sign(v[n - 2]) == Utils.Sign(t[n - 2]);
      assert Utils.Sign(v[n - 1]) == Utils.Sign(t[n - 1]);
    }
  }

  // ---------------------------------------------------------------------
  // Counting and isolating roots

  /** The difference of the variation counts at a and at b: by Sturm's
      theorem, for the Sturm sequence s of a square-free polynomial, the
      number of its distinct roots in (a, b]. */
  function Count(s: seq<Poly>, a: real, b: real): int {
    Variations(s, a) - Variations(s, b)
  }

  /** Counts over (a, c] and (c, b] add up to the count over (a, b]. */
  lemma CountSplit(s: seq<Poly>, a: real, c: real, b: real)
    ensures Count(s, a, c) + Count(s, c, b) == Count(s, a, b)
  {
  }

  /** `number_distinct_roots(p, I)`: the Sturm count over I, absent when p
      is not square-free. */
  function NumberDistinctRoots(p: Poly, i: Intervals.Interval): (n: Option<int>)
    ensures n.Some? <==> SquareFree.IsSquareFree(p)
    ensures n.Some? ==> -(Degree(p) + 1) <= n.value <= Degree(p) + 1
  {
    if SquareFree.IsSquareFree(p) then
      var s := SturmSequence(p);
      VariationsBound(s, i.lower);
      VariationsBound(s, i.upper);
      Some(Count(s, i.lower, i.upper))
    else None
  }

  /** There are fewer variations than terms. */
  lemma VariationsBound(s: seq<Poly>, x: real)
    ensures |s| > 0 ==> Variations(s, x) <= |s| - 1
  {
    VariationsIgnoreZeros(s, x);
  }

  /** `number_distinct_roots(p)`: the count over (-B, B] for the Cauchy
      bound B; absent when p is not square-free or is zero. */
  function NumberAllDistinctRoots(p: Poly): (n: Option<int>)
    ensures n.Some? <==> SquareFree.IsSquareFree(p) && !IsZero(p)
  {
    match CauchyBound(p)
    case None => None
    case Some(b) => NumberDistinctRoots(p, Intervals.Make(-b, b))
  }

  /** The whole-line count is the interval count over the Cauchy box. */
  lemma NumberAllDistinctRootsInBox(p: Poly)
    requires !IsZero(p)
    ensures CauchyBound(p).Some?
    ensures NumberAllDistinctRoots(p) ==
              NumberDistinctRoots(p, Intervals.Make(-CauchyBound(p).value, CauchyBound(p).value))
  {
  }

  // ---------------------------------------------------------------------
  // The Sturm sequence of X^4 + X^3 - X - 1
  // (test/real_polynomial_root_finder_tests.cpp:152-183)

  /** One step of a Sturm tail: when b is not constant, the next term is
      the negated remainder of a by b. */
  lemma SturmTailStep(a: Poly, b: Poly, r: Poly, n: Poly, t: seq<Poly>)
    requires !IsConstant(b) && Remainder(a, b) == r && Neg(r) == n && SturmTail(b, n) == t
    ensures SturmTail(a, b) == [b] + t
  {
  }

  /** A Sturm tail stops at a constant term. */
  lemma SturmTailEnd(a: Poly, b: Poly)
    requires IsConstant(b)
    ensures SturmTail(a, b) == [b]
  {
  }

  /** A Sturm sequence of five terms: p, p' and three negated remainders,
      the last of them constant. */
  lemma SturmSequenceOfFive(p: Poly, d: Poly, s2: Poly, s3: Poly, s4: Poly, r1: Poly, r2: Poly, r3: Poly)
    requires Derive(p) == d && !IsConstant(d) && Remainder(p, d) == r1 && Neg(r1) == s2
    requires !IsConstant(s2) && Remainder(d, s2) == r2 && Neg(r2) == s3
    requires !IsConstant(s3) && Remainder(s2, s3) == r3 && Neg(r3) == s4 && IsConstant(s4)
    ensures SturmSequence(p) == [p, d, s2, s3, s4]
  {
    SturmTailEnd(s3, s4);
    SturmTailStep(s2, s3, r3, s4, [s4]);
    SturmTailStep(d, s2, r2, s3, [s3] + [s4]);
    SturmTailStep(p, d, r1, s2, [s2] + ([s3] + [s4]));
    SturmSequenceUnfold(p);
    FiveTerms(SturmSequence(p), p, d, s2, s3, s4);
  }

  lemma FiveTerms<T>(t: seq<T>, a: T, b: T, c: T, d: T, e: T)
    requires t == [a] + ([b] + ([c] + ([d] + [e])))
    ensures t == [a, b, c, d, e]
  {
  }

  /** X^4 + X^3 - X - 1 has derivative 4X^3 + 3X^2 - 1. */
  lemma SturmExampleDerivative(p: Poly, d: Poly)
    requires |p| == 5 && p[0] == -1.0 && p[1] == -1.0 && p[2] == 0.0 && p[3] == 1.0 && p[4] == 1.0
    requires |d| == 4 && d[0] == -1.0 && d[1] == 0.0 && d[2] == 3.0 && d[3] == 4.0
    ensures Derive(p) == d
  {
    Ext(Derive(p), d);
  }

  /** Negation coefficient by coefficient. */
  lemma NegOf(r: Poly, n: Poly)
    requires |r| == |n| && forall i :: 0 <= i < |r| ==> n[i] == -r[i]
    ensures Neg(r) == n
  {
    Ext(Neg(r), n);
  }

  /** p = p' (X/4 + 1/16) - (3/16 X^2 + 3/4 X + 15/16). */
  lemma SturmFirstDivision(a: Poly, b: Poly, r: Poly)
    requires |a| == 5 && a[0] == -1.0 && a[1] == -1.0 && a[2] == 0.0 && a[3] == 1.0 && a[4] == 1.0
    requires |b| == 4 && b[0] == -1.0 && b[1] == 0.0 && b[2] == 3.0 && b[3] == 4.0
    requires |r| == 3 && r[0] == -0.9375 && r[1] == -0.75 && r[2] == -0.1875
    ensures Remainder(a, b) == r
  {
    var c0, c1 := 0.0625, 0.25;
    forall i: nat ensures LinearLawAt(a, b, c0, c1, r, i) {
      if i < |a| {
        assert i == 0 || i == 1 || i == 2 || i == 3 || i == 4;
      }
    }
    LinearDivision(a, b, c0, c1, r);
    assert Divide(a, b) == ([0.0625, 0.25], r);
  }

  /** p' = (3/16 X^2 + 3/4 X + 15/16)(64/3 X - 208/3) + 32X + 64. */
  lemma SturmSecondDivision(a: Poly, b: Poly, r: Poly)
    requires |a| == 4 && a[0] == -1.0 && a[1] == 0.0 && a[2] == 3.0 && a[3] == 4.0
    requires |b| == 3 && b[0] == 0.9375 && b[1] == 0.75 && b[2] == 0.1875
    requires |r| == 2 && r[0] == 64.0 && r[1] == 32.0
    ensures Remainder(a, b) == r
  {
    var c0, c1 := -208.0 / 3.0, 64.0 / 3.0;
    forall i: nat ensures LinearLawAt(a, b, c0, c1, r, i) {
      if i < |a| {
        assert i == 0 || i == 1 || i == 2 || i == 3;
      }
    }
    LinearDivision(a, b, c0, c1, r);
    assert Divide(a, b) == ([-208.0 / 3.0, 64.0 / 3.0], r);
  }

  /** 3/16 X^2 + 3/4 X + 15/16 = (-32X - 64)(-3/512 X - 3/256) + 3/16. */
  lemma SturmThirdDivision(a: Poly, b: Poly, r: Poly)
    requires |a| == 3 && a[0] == 0.9375 && a[1] == 0.75 && a[2] == 0.1875
    requires |b| == 2 && b[0] == -64.0 && b[1] == -32.0
    requires |r| == 1 && r[0] == 0.1875
    ensures Remainder(a, b) == r
  {
    var c0, c1 := -0.01171875, -0.005859375;
    forall i: nat ensures LinearLawAt(a, b, c0, c1, r, i) {
      if i < |a| {
        assert i == 0 || i == 1 || i == 2;
      }
    }
    LinearDivision(a, b, c0, c1, r);
    assert Divide(a, b) == ([-0.01171875, -0.005859375], r);
  }

  // ---------------------------------------------------------------------
  // Root isolation

  /** Where an interval (a, b] is split: its midpoint, moved up by the
      tolerance when the polynomial nearly vanishes there and the moved
      point stays inside the interval. */
  function SplitPoint(p: Poly, a: real, b: real): (c: real)
    ensures a < b ==> a < c < b
    ensures c == (a + b) / 2.0 || c == (a + b) / 2.0 + Tolerance
  {
    var m := (a + b) / 2.0;
    if Utils.NearlyZero(Evaluate(p, m), Tolerance) && m + Tolerance < b then m + Tolerance else m
  }

  /** The count that `root_isolation` asks for, with the Sturm sequence s
      of p: `number_distinct_roots(p, (a, b])`. */
  function Counter(s: seq<Poly>): (count: (real, real) -> int)
    ensures forall a, b :: count(a, b) == Count(s, a, b)
  {
    (a, b) => Count(s, a, b)
  }

  /** The recursive bisection of `root_isolation` over (a, b] with the root
      counter of p: an interval with count 0 is dropped, one with count 1 is
      kept, any other is split in two and both halves are searched, left
      before right, while the depth lasts. */
  function Isolate(p: Poly, count: (real, real) -> int, a: real, b: real, depth: nat): (r: seq<Intervals.Interval>)
    ensures forall k :: 0 <= k < |r| ==>
              count(r[k].lower, r[k].upper) == 1 &&
              r[k].lowerBound == Intervals.Opened && r[k].upperBound == Intervals.Closed
    ensures a <= b ==> forall k :: 0 <= k < |r| ==> a <= r[k].lower <= r[k].upper <= b
    ensures a <= b ==> forall k, l :: 0 <= k < l < |r| ==> r[k].upper <= r[l].lower
    decreases depth
  {
    var n := count(a, b);
    if n == 0 then []
    else if n == 1 then [Intervals.Make(a, b)]
    else if depth == 0 then []
    else
      var c := SplitPoint(p, a, b);
      var left := Isolate(p, count, a, c, depth - 1);
      var right := Isolate(p, count, c, b, depth - 1);
      left + right
  }

  /** The isolating intervals lie in (a, b], and no point lies in two of
      them. */
  lemma IsolateDisjoint(p: Poly, count: (real, real) -> int, a: real, b: real, depth: nat)
    requires a <= b
    ensures var r := Isolate(p, count, a, b, depth);
            (forall k :: 0 <= k < |r| ==> a <= r[k].lower && r[k].upper <= b) &&
            (forall k, l, x :: 0 <= k < l < |r| && r[k].Contains(x) ==> !r[l].Contains(x))
  {
  }

  /** Counts over (a, c] and (c, b] add up to the count over (a, b]. */
  ghost predicate Additive(count: (real, real) -> int) {
    forall a, c, b :: count(a, c) + count(c, b) == count(a, b)
  }

  /** No sub-interval of (a, b] has a negative count. */
  ghost predicate NonNegativeWithin(count: (real, real) -> int, a: real, b: real) {
    forall x, y :: a <= x <= y <= b ==> count(x, y) >= 0
  }

  /** With an additive counter that is never negative inside (a, b], the
      isolation reports no more intervals than the count over (a, b]. */
  lemma {:induction false} IsolateCountBound(p: Poly, count: (real, real) -> int, a: real, b: real, depth: nat)
    requires a <= b && Additive(count) && NonNegativeWithin(count, a, b)
    ensures |Isolate(p, count, a, b, depth)| <= count(a, b)
    decreases depth
  {
    var n := count(a, b);
    if n != 0 && n != 1 && depth > 0 {
      var c := SplitPoint(p, a, b);
      assert count(a, c) + count(c, b) == n;
      IsolateCountBound(p, count, a, c, depth - 1);
      IsolateCountBound(p, count, c, b, depth - 1);
    }
  }

  /** The Sturm counter is additive. */
  lemma CounterAdditive(s: seq<Poly>)
    ensures Additive(Counter(s))
  {
    forall a, c, b ensures Counter(s)(a, c) + Counter(s)(c, b) == Counter(s)(a, b) {
      CountSplit(s, a, c, b);
    }
  }

  /** The Sturm counter of an empty interval is zero. */
  lemma CounterEmpty(s: seq<Poly>, a: real)
    ensures Counter(s)(a, a) == 0
  {
  }

  /** Inside (a, b] the variation count never increases from left to
      right, as Sturm's theorem gives for the Sturm sequence of a
      square-free polynomial. */
  ghost predicate CountsMonotone(s: seq<Poly>, a: real, b: real) {
    forall x, y :: a <= x <= y <= b ==> Variations(s, y) <= Variations(s, x)
  }

  /** Monotone variations give a counter that is never negative. */
  lemma CounterNonNegative(s: seq<Poly>, a: real, b: real)
    requires CountsMonotone(s, a, b)
    ensures NonNegativeWithin(Counter(s), a, b)
  {
    forall x, y | a <= x <= y <= b ensures Counter(s)(x, y) >= 0 {
    }
  }

  /** `root_isolation(p)`: the isolating intervals of p inside the Cauchy
      box (-B, B]; none when p is not square-free or is zero. */
  function RootIsolation(p: Poly): (r: seq<Intervals.Interval>)
    ensures !SquareFree.IsSquareFree(p) || IsZero(p) ==> r == []
    ensures forall k, l :: 0 <= k < l < |r| ==> r[k].upper <= r[l].lower
  {
    if !SquareFree.IsSquareFree(p) then []
    else match CauchyBound(p)
      case None => []
      case Some(b) => Isolate(p, Counter(SturmSequence(p)), -b, b, MaxDepth)
  }

  /** Each interval isolated with the Sturm counter has count 1 and, as an
      empty interval counts 0, a lower end below its upper end. */
  lemma IsolateWithSturm(p: Poly, s: seq<Poly>, a: real, b: real, depth: nat)
    ensures forall k :: 0 <= k < |Isolate(p, Counter(s), a, b, depth)| ==>
              var J := Isolate(p, Counter(s), a, b, depth)[k];
              Count(s, J.lower, J.upper) == 1 && J.lower != J.upper
  {
  }

  /** Each interval of r holds exactly one distinct root of p by the Sturm
      count, and is not empty. */
  ghost predicate OneRootEach(p: Poly, r: seq<Intervals.Interval>) {
    forall k :: 0 <= k < |r| ==> NumberDistinctRoots(p, r[k]) == Some(1) && r[k].lower < r[k].upper
  }

  /** The intervals of r lie in [-b, b] and no point lies in two of them. */
  ghost predicate InBoxApart(r: seq<Intervals.Interval>, b: real) {
    (forall k :: 0 <= k < |r| ==> -b <= r[k].lower && r[k].upper <= b) &&
    (forall k, l, x :: 0 <= k < l < |r| && r[k].Contains(x) ==> !r[l].Contains(x))
  }

  /** Each isolating interval holds exactly one root by the Sturm count,
      and is not empty. */
  lemma RootIsolationIsolates(p: Poly)
    ensures OneRootEach(p, RootIsolation(p))
  {
    if SquareFree.IsSquareFree(p) && !IsZero(p) {
      RootIsolationSquareFree(p);
    }
  }

  /** The square-free, non-zero case of RootIsolationIsolates. */
  lemma RootIsolationSquareFree(p: Poly)
    requires SquareFree.IsSquareFree(p) && !IsZero(p)
    ensures OneRootEach(p, RootIsolation(p))
  {
    RootIsolationUnfold(p);
    var b := CauchyBound(p).value;
    var r := Isolate(p, Counter(SturmSequence(p)), -b, b, MaxDepth);
    IsolatesInBox(p, b, r);
    assert RootIsolation(p) == r;
  }

  /** For a square-free non-zero p the isolation runs in the Cauchy box. */
  lemma RootIsolationUnfold(p: Poly)
    requires SquareFree.IsSquareFree(p) && !IsZero(p)
    ensures CauchyBound(p).Some? && -CauchyBound(p).value <= CauchyBound(p).value
    ensures RootIsolation(p) == Isolate(p, Counter(SturmSequence(p)), -CauchyBound(p).value, CauchyBound(p).value, MaxDepth)
  {
  }

  /** The Sturm isolation inside [-b, b] gives intervals of one root each. */
  lemma IsolatesInBox(p: Poly, b: real, r: seq<Intervals.Interval>)
    requires SquareFree.IsSquareFree(p) && -b <= b
    requires r == Isolate(p, Counter(SturmSequence(p)), -b, b, MaxDepth)
    ensures OneRootEach(p, r)
  {
    IsolateWithSturm(p, SturmSequence(p), -b, b, MaxDepth);
    OneSturmRootEach(p, r);
  }

  /** Intervals of p's Sturm count 1 hold one distinct root each. */
  lemma OneSturmRootEach(p: Poly, r: seq<Intervals.Interval>)
    requires SquareFree.IsSquareFree(p)
    requires forall k :: 0 <= k < |r| ==> r[k].lower <= r[k].upper
    requires forall k :: 0 <= k < |r| ==>
               Count(SturmSequence(p), r[k].lower, r[k].upper) == 1 && r[k].lower != r[k].upper
    ensures OneRootEach(p, r)
  {
  }

  /** The isolating intervals lie in the Cauchy box and share no point. */
  lemma RootIsolationInBox(p: Poly)
    requires SquareFree.IsSquareFree(p) && !IsZero(p)
    ensures InBoxApart(RootIsolation(p), CauchyBound(p).value)
  {
    var b := CauchyBound(p).value;
    RootIsolationUnfold(p);
    IsolateApart(p, Counter(SturmSequence(p)), b, RootIsolation(p));
  }

  /** Isolation inside [-b, b] gives intervals in the box that share no point. */
  lemma IsolateApart(p: Poly, count: (real, real) -> int, b: real, r: seq<Intervals.Interval>)
    requires -b <= b && r == Isolate(p, count, -b, b, MaxDepth)
    ensures InBoxApart(r, b)
  {
    IsolateDisjoint(p, count, -b, b, MaxDepth);
  }

  /** With monotone variations, the isolation with the Sturm counter
      reports no more intervals than the Sturm count over (a, b]. */
  lemma IsolateWithSturmBound(p: Poly, s: seq<Poly>, a: real, b: real, depth: nat)
    requires a <= b && CountsMonotone(s, a, b)
    ensures |Isolate(p, Counter(s), a, b, depth)| <= Count(s, a, b)
  {
    CounterAdditive(s);
    CounterNonNegative(s, a, b);
    IsolateCountBound(p, Counter(s), a, b, depth);
  }

  // ---------------------------------------------------------------------
  // The driver

  /** The function that evaluates q. */
  function Eval(q: Poly): (f: real -> real)
    ensures forall x :: f(x) == Evaluate(q, x)
  {
    x => Evaluate(q, x)
  }

  /** x is what bisection makes of the interval J for q: a point of J where
      q nearly vanishes or across which q changes sign within tol. */
  ghost predicate RefinedIn(q: Poly, J: Intervals.Interval, x: real, tol: real) {
    J.lower <= x <= J.upper &&
    (Utils.NearlyZero(Evaluate(q, x), tol) ||
     exists a, b :: J.lower <= a && b <= J.upper && RootFinder.Bracket(Eval(q), a, b, x, tol))
  }

  /** x is what bisection makes of one of the intervals Js for q. */
  ghost predicate RefinedAmong(q: Poly, Js: seq<Intervals.Interval>, x: real, tol: real) {
    exists k :: 0 <= k < |Js| && RefinedIn(q, Js[k], x, tol)
  }

  /** x is refined from one of q's isolating intervals. */
  ghost predicate Refined(q: Poly, x: real, tol: real) {
    RefinedAmong(q, RootIsolation(q), x, tol)
  }

  /** The inner loop of `find_roots`: the roots that bisection refines in
      the intervals Js for q, in the order of the intervals; an interval
      where bisection finds no sign change gives none. */
  method RefineRoots(q: Poly, Js: seq<Intervals.Interval>, tol: real) returns (roots: seq<real>)
    requires tol > 0.0
    requires forall k :: 0 <= k < |Js| ==> Js[k].lower <= Js[k].upper
    ensures |roots| <= |Js|
    ensures forall k :: 0 <= k < |roots| ==> RefinedAmong(q, Js, roots[k], tol)
  {
    roots := [];
    var j := 0;
    while j < |Js|
      invariant 0 <= j <= |Js|
      invariant |roots| <= j
      invariant forall k :: 0 <= k < |roots| ==> RefinedAmong(q, Js, roots[k], tol)
    {
      var root := RootFinder.Bisection(Eval(q), Js[j], tol);
      if root.Some? {
        assert RefinedIn(q, Js[j], root.value, tol);
        roots := roots + [root.value];
      }
      j := j + 1;
    }
  }

  /** n copies of the multiplicity m. */
  function Tags(n: nat, m: nat): (t: seq<nat>)
    ensures |t| == n && forall k :: 0 <= k < n ==> t[k] == m
  {
    seq(n, _ => m)
  }

  /** Each root is tagged with a multiplicity in 1..n that it satisfies
      ok with, and the tags never decrease. */
  ghost predicate Tagged(ok: (nat, real) -> bool, roots: seq<real>, multiplicities: seq<nat>, n: nat) {
    |roots| == |multiplicities| &&
    (forall k :: 0 <= k < |roots| ==> 1 <= multiplicities[k] <= n && ok(multiplicities[k], roots[k])) &&
    (forall k, l :: 0 <= k < l < |multiplicities| ==> multiplicities[k] <= multiplicities[l])
  }

  /** Appending roots tagged n + 1 that satisfy ok with n + 1 keeps the tagging. */
  lemma TaggedAppend(ok: (nat, real) -> bool, roots: seq<real>, multiplicities: seq<nat>, n: nat, found: seq<real>)
    requires Tagged(ok, roots, multiplicities, n)
    requires forall k :: 0 <= k < |found| ==> ok(n + 1, found[k])
    ensures Tagged(ok, roots + found, multiplicities + Tags(|found|, n + 1), n + 1)
  {
    var r := roots + found;
    var m := multiplicities + Tags(|found|, n + 1);
    forall k | 0 <= k < |r|
      ensures 1 <= m[k] <= n + 1 && ok(m[k], r[k])
    {
      if k >= |roots| {
        assert r[k] == found[k - |roots|];
        assert m[k] == n + 1;
      } else {
        assert r[k] == roots[k] && m[k] == multiplicities[k];
      }
    }
  }

  /** The roots that bisection refines in the isolating intervals of q. */
  method RefineFactor(q: Poly, tol: real) returns (found: seq<real>)
    requires tol > 0.0
    ensures |found| <= |RootIsolation(q)|
    ensures forall k :: 0 <= k < |found| ==> Refined(q, found[k], tol)
  {
    var Js := RootIsolation(q);
    RootIsolationIsolates(q);
    found := RefineRoots(q, Js, tol);
  }

  /** Each root is refined for the factor its multiplicity names. */
  ghost predicate RefinedForFactors(fs: seq<Poly>, roots: seq<real>, multiplicities: seq<nat>, tol: real) {
    |roots| == |multiplicities| &&
    forall k :: 0 <= k < |roots| ==>
      1 <= multiplicities[k] <= |fs| && Refined(fs[multiplicities[k] - 1], roots[k], tol)
  }

  /** `find_roots(p, tolerance)`: for the i-th factor of Yun's decomposition
      of p, the roots refined in its isolating intervals, each tagged with
      multiplicity i + 1; the tags never decrease. */
  method FindRoots(p: Poly, tol: real) returns (roots: seq<real>, multiplicities: seq<nat>)
    requires tol > 0.0
    ensures |roots| == |multiplicities|
    ensures SquareFree.Yun(p).None? ==> roots == []
    ensures SquareFree.Yun(p).Some? ==> RefinedForFactors(SquareFree.Yun(p).value, roots, multiplicities, tol)
    ensures forall k, l :: 0 <= k < l < |multiplicities| ==> multiplicities[k] <= multiplicities[l]
  {
    roots, multiplicities := [], [];
    var factors := SquareFree.Yun(p);
    if factors.None? {
      return;
    }
    roots, multiplicities := RootsOfFactors(factors.value, tol);
  }

  /** The loop of `find_roots` over the factors fs: the roots refined for
      the i-th factor are tagged i + 1. */
  method RootsOfFactors(fs: seq<Poly>, tol: real) returns (roots: seq<real>, multiplicities: seq<nat>)
    requires tol > 0.0
    ensures |roots| == |multiplicities|
    ensures RefinedForFactors(fs, roots, multiplicities, tol)
    ensures forall k, l :: 0 <= k < l < |multiplicities| ==> multiplicities[k] <= multiplicities[l]
  {
    roots, multiplicities := [], [];
    ghost var ok := (m: nat, x: real) => 1 <= m <= |fs| && Refined(fs[m - 1], x, tol);
    var i := 0;
    while i < |fs|
      invariant 0 <= i <= |fs|
      invariant Tagged(ok, roots, multiplicities, i)
    {
      var found := RefineFactor(fs[i], tol);
      assert forall k :: 0 <= k < |found| ==> ok(i + 1, found[k]);
      TaggedAppend(ok, roots, multiplicities, i, found);
      roots := roots + found;
      multiplicities := multiplicities + Tags(|found|, i + 1);
      i := i + 1;
    }
  }
}
