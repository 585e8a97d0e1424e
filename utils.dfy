/** Tolerance predicates, parity tests and the sign-change count of a
    sequence (include/utils.h). */
module Utils {

  function Abs(x: real): real {
    if x < 0.0 then -x else x
  }

  /** `nearly_zero(a, tolerance)`: strictly inside the tolerance band. */
  predicate NearlyZero(a: real, tol: real) {
    Abs(a) < tol
  }

  /** `nearly_equal(a, b, tolerance)`. */
  predicate NearlyEqual(a: real, b: real, tol: real) {
    NearlyZero(a - b, tol)
  }

  lemma NearlyZeroBand(a: real, tol: real)
    ensures NearlyZero(a, tol) <==> -tol < a < tol
  {
  }

  lemma NearlyEqualSymmetric(a: real, b: real, tol: real)
    ensures NearlyEqual(a, b, tol) <==> NearlyEqual(b, a, tol)
    ensures NearlyEqual(a, a, tol) <==> tol > 0.0
  {
  }

  // ---------------------------------------------------------------------
  // Parity

  /** The remainder of C++'s `%` on integers: it truncates toward zero, so
      it takes the sign of the dividend. */
  function CRem(a: int, b: int): (r: int)
    requires b > 0
    ensures a >= 0 ==> 0 <= r < b
    ensures a < 0 ==> -b < r <= 0
  {
    if a >= 0 then a % b else -((-a) % b)
  }

  /** `is_even(a)`: a % 2 == 0. */
  predicate IsEven(a: int) {
    CRem(a, 2) == 0
  }

  /** `is_odd(a)` as written: a % 2 == 1, which a negative odd number fails. */
  predicate IsOddAsWritten(a: int) {
    CRem(a, 2) == 1
  }

  /** `is_odd` as evidently intended: the remainder is not zero. */
  predicate IsOdd(a: int) {
    CRem(a, 2) != 0
  }

  /** `is_even` agrees with mathematical evenness for every integer. */
  lemma IsEvenCorrect(a: int)
    ensures IsEven(a) <==> a % 2 == 0
  {
  }

  /** The as-written `is_odd` holds only for non-negative odd numbers:
      `is_odd(-3)` is false. */
  lemma IsOddAsWrittenMissesNegatives(a: int)
    ensures IsOddAsWritten(a) <==> a >= 0 && a % 2 == 1
    ensures !IsOddAsWritten(-3) && !IsEven(-3)
  {
  }

  /** The corrected `is_odd` is exactly "not even", for every integer. */
  lemma IsOddCorrect(a: int)
    ensures IsOdd(a) <==> !IsEven(a)
    ensures IsOdd(a) <==> a % 2 == 1
  {
  }

  // ---------------------------------------------------------------------
  // Sign changes

  /** The sign the loop assigns: +1 for values >= 0, -1 otherwise. */
  function Sign(x: real): int {
    if x >= 0.0 then 1 else -1
  }

  /** The number of neighbouring entries of t whose signs differ. */
  function Changes(t: seq<real>): (n: nat)
    ensures n <= if |t| == 0 then 0 else |t| - 1
    decreases |t|
  {
    if |t| <= 1 then 0
    else Changes(t[..|t| - 1]) + (if Sign(t[|t| - 2]) != Sign(t[|t| - 1]) then 1 else 0)
  }

  /** Appending an entry adds one change exactly when its sign differs
      from the last entry's. */
  lemma ChangesSnoc(t: seq<real>, x: real)
    ensures Changes(t + [x]) == Changes(t) + (if |t| > 0 && Sign(t[|t| - 1]) != Sign(x) then 1 else 0)
  {
    assert (t + [x])[..|t|] == t;
  }

  /** The entries among the first n that the loop of `sign_changes` looks
      at: the first one always, and every later one that is not nearly zero. */
  function KeptUpTo(s: seq<real>, tol: real, n: nat): (k: seq<real>)
    requires n <= |s|
    ensures |k| <= n && (n > 0 ==> |k| > 0 && k[0] == s[0])
  {
    if n <= 1 then s[..n]
    else KeptUpTo(s, tol, n - 1) + (if NearlyZero(s[n - 1], tol) then [] else [s[n - 1]])
  }

  function Kept(s: seq<real>, tol: real): seq<real> {
    KeptUpTo(s, tol, |s|)
  }

  /** The entries among the first n that are not nearly zero. */
  function NonZeroUpTo(s: seq<real>, tol: real, n: nat): (k: seq<real>)
    requires n <= |s|
    ensures |k| <= n
    ensures forall i :: 0 <= i < |k| ==> !NearlyZero(k[i], tol)
  {
    if n == 0 then []
    else NonZeroUpTo(s, tol, n - 1) + (if NearlyZero(s[n - 1], tol) then [] else [s[n - 1]])
  }

  function NonZero(s: seq<real>, tol: real): seq<real> {
    NonZeroUpTo(s, tol, |s|)
  }

  /** `sign_changes(sequence, tolerance)` as written: the first entry sets
      the sign (+ for anything >= 0, even a value that is nearly zero), later
      nearly-zero entries are skipped, and each flip is counted. */
  method SignChanges(s: seq<real>, tol: real) returns (changes: nat)
    ensures changes == Changes(Kept(s, tol))
    ensures |s| <= 1 ==> changes == 0
    ensures |s| > 1 ==> changes <= |s| - 1
  {
    changes := 0;
    var size := |s|;
    if size <= 1 {
      return;
    }
    var prevSign := Sign(s[0]);
    var i := 1;
    ghost var kept := KeptUpTo(s, tol, 1);
    while i < size
      invariant 1 <= i <= size
      invariant kept == KeptUpTo(s, tol, i) && |kept| >= 1
      invariant prevSign == Sign(kept[|kept| - 1])
      invariant changes == Changes(kept)
    {
      KeptUpToStep(s, tol, i);
      if NearlyZero(s[i], tol) {
        i := i + 1;
        continue;
      }
      var currentSign := Sign(s[i]);
      ChangesSnoc(kept, s[i]);
      kept := kept + [s[i]];
      if currentSign != prevSign {
        changes := changes + 1;
        prevSign := currentSign;
      }
      i := i + 1;
    }
  }

  lemma KeptUpToStep(s: seq<real>, tol: real, i: nat)
    requires 1 <= i < |s|
    ensures KeptUpTo(s, tol, i + 1) == KeptUpTo(s, tol, i) + (if NearlyZero(s[i], tol) then [] else [s[i]])
  {
  }

  /** `sign_changes` as evidently intended: nearly-zero entries are skipped
      wherever they stand, the first one included. */
  method SignChangesNonZero(s: seq<real>, tol: real) returns (changes: nat)
    ensures changes == Changes(NonZero(s, tol))
    ensures |s| > 0 ==> changes <= |s| - 1
  {
    changes := 0;
    var prevSign := 0;
    var i := 0;
    while i < |s|
      invariant 0 <= i <= |s|
      invariant prevSign == 0 <==> |NonZeroUpTo(s, tol, i)| == 0
      invariant prevSign != 0 ==> prevSign == Sign(NonZeroUpTo(s, tol, i)[|NonZeroUpTo(s, tol, i)| - 1])
      invariant changes == Changes(NonZeroUpTo(s, tol, i))
    {
      ghost var before := NonZeroUpTo(s, tol, i);
      if !NearlyZero(s[i], tol) {
        var currentSign := Sign(s[i]);
        assert NonZeroUpTo(s, tol, i + 1) == before + [s[i]];
        ChangesSnoc(before, s[i]);
        if prevSign != 0 && currentSign != prevSign {
          changes := changes + 1;
        }
        prevSign := currentSign;
      } else {
        assert NonZeroUpTo(s, tol, i + 1) == before;
      }
      i := i + 1;
    }
  }

  function Negate(s: seq<real>): (r: seq<real>)
    ensures |r| == |s| && forall i :: 0 <= i < |s| ==> r[i] == -s[i]
  {
    seq(|s|, i requires 0 <= i < |s| => -s[i])
  }

  /** As written, flipping every sign can change the count: [0, -1] has one
      sign change and [0, 1] has none, because the leading zero counts as +. */
  lemma SignChangesAsWrittenNotSymmetric()
    ensures Changes(Kept([0.0, -1.0], 0.00001)) == 1
    ensures Changes(Kept(Negate([0.0, -1.0]), 0.00001)) == 0
  {
    var s := [0.0, -1.0];
    assert s[..1] == [0.0];
    var n := Negate(s);
    assert n == [0.0, 1.0];
    assert n[..1] == [0.0];
  }

  /** With the leading entry skipped like the others, flipping every sign
      leaves the count unchanged (for a positive tolerance). */
  lemma SignChangesNonZeroSymmetric(s: seq<real>, tol: real)
    requires tol > 0.0
    ensures Changes(NonZero(Negate(s), tol)) == Changes(NonZero(s, tol))
  {
    NonZeroNegate(s, tol);
    ChangesNegate(NonZero(s, tol), tol);
  }

  /** Negation commutes with dropping the nearly-zero entries. */
  lemma NonZeroNegate(s: seq<real>, tol: real)
    ensures NonZero(Negate(s), tol) == Negate(NonZero(s, tol))
  {
    NonZeroUpToNegate(s, tol, |s|);
  }

  lemma {:induction false} NonZeroUpToNegate(s: seq<real>, tol: real, n: nat)
    requires n <= |s|
    ensures NonZeroUpTo(Negate(s), tol, n) == Negate(NonZeroUpTo(s, tol, n))
  {
    if n > 0 {
      NonZeroUpToNegate(s, tol, n - 1);
      assert NearlyZero(-s[n - 1], tol) == NearlyZero(s[n - 1], tol);
    }
  }

  /** Negating entries that are all outside the tolerance band keeps the count. */
  lemma {:induction false} ChangesNegate(t: seq<real>, tol: real)
    requires tol > 0.0
    requires forall i :: 0 <= i < |t| ==> !NearlyZero(t[i], tol)
    ensures Changes(Negate(t)) == Changes(t)
    decreases |t|
  {
    if |t| > 1 {
      var init := t[..|t| - 1];
      assert Negate(t)[..|t| - 1] == Negate(init);
      ChangesNegate(init, tol);
    }
  }
}
