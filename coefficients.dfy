/** Dense coefficient sequences, index i holding the coefficient of X^i, and
    the ring laws they satisfy.  Two sequences that differ only by trailing
    zeros denote the same polynomial; `Eqv` is that sameness and `Trim` picks
    the canonical representative. */
module Coefficients {

  /** Coefficient of X^i: the stored one, or zero past the end. */
  function Coef(a: seq<real>, i: nat): real {
    if i < |a| then a[i] else 0.0
  }

  /** Same polynomial: equal coefficients at every power. */
  ghost predicate Eqv(a: seq<real>, b: seq<real>) {
    forall i: nat :: Coef(a, i) == Coef(b, i)
  }

  /** The polynomial divided by X, dropping the constant term. */
  function Tail(a: seq<real>): seq<real> {
    if |a| == 0 then [] else a[1..]
  }

  lemma CoefTail(a: seq<real>, i: nat)
    ensures Coef(Tail(a), i) == Coef(a, i + 1)
  {
  }

  lemma TailEqv(a: seq<real>, b: seq<real>)
    requires Eqv(a, b)
    ensures Eqv(Tail(a), Tail(b))
  {
    forall i: nat ensures Coef(Tail(a), i) == Coef(Tail(b), i) {
      CoefTail(a, i);
      CoefTail(b, i);
      assert Coef(a, i + 1) == Coef(b, i + 1);
    }
  }

  function Max(a: int, b: int): int {
    if a < b then b else a
  }

  /** Product of two coefficients.  Products are written through this function
      so that the proofs below reason about sums of products linearly and call
      the arithmetic laws of `*` explicitly. */
  function Times(x: real, y: real): real {
    x * y
  }

  lemma TimesComm(x: real, y: real)
    ensures Times(x, y) == Times(y, x)
  {
  }

  lemma TimesAssoc(x: real, y: real, z: real)
    ensures Times(Times(x, y), z) == Times(x, Times(y, z))
  {
  }

  lemma TimesSwap(x: real, y: real, z: real)
    ensures Times(x, Times(y, z)) == Times(y, Times(x, z))
  {
  }

  lemma TimesAddRight(x: real, y: real, z: real)
    ensures Times(x, y + z) == Times(x, y) + Times(x, z)
  {
  }

  lemma TimesAddLeft(x: real, y: real, z: real)
    ensures Times(y + z, x) == Times(y, x) + Times(z, x)
  {
  }

  lemma TimesZero(x: real)
    ensures Times(x, 0.0) == 0.0 && Times(0.0, x) == 0.0
  {
  }

  lemma TimesOne(x: real)
    ensures Times(x, 1.0) == x && Times(1.0, x) == x
  {
  }

  /** A product vanishes exactly when a factor does. */
  lemma TimesZeroIff(x: real, y: real)
    ensures Times(x, y) == 0.0 <==> x == 0.0 || y == 0.0
  {
    if x != 0.0 && Times(x, y) == 0.0 {
      assert y == (x * y) / x;
    }
  }

  /** Quotient of a coefficient by a non-zero scalar. */
  function Over(x: real, k: real): real
    requires k != 0.0
  {
    x / k
  }

  lemma TimesOver(k: real, x: real)
    requires k != 0.0
    ensures Times(k, Over(x, k)) == x
  {
  }

  lemma OverTimes(k: real, x: real)
    requires k != 0.0
    ensures Over(Times(k, x), k) == x
  {
  }

  lemma OverTimesInverse(k: real, x: real)
    requires k != 0.0
    ensures Times(Over(1.0, k), Times(k, x)) == x
  {
  }

  // ---------------------------------------------------------------------
  // Canonical form

  /** At least one coefficient, and a non-zero last one unless it is the only one. */
  predicate IsTrimmed(a: seq<real>) {
    |a| >= 1 && (|a| == 1 || a[|a| - 1] != 0.0)
  }

  lemma DropLastZero(a: seq<real>)
    requires |a| >= 1 && a[|a| - 1] == 0.0
    ensures Eqv(a[..|a| - 1], a)
  {
    forall i: nat ensures Coef(a[..|a| - 1], i) == Coef(a, i) {
    }
  }

  /** Drops trailing zero coefficients, keeping at least one. */
  function Trim(a: seq<real>): (r: seq<real>)
    ensures IsTrimmed(r)
    ensures Eqv(r, a)
    ensures |r| <= Max(|a|, 1)
    decreases |a|
  {
    if |a| == 0 then [0.0]
    else if |a| == 1 || a[|a| - 1] != 0.0 then a
    else
      DropLastZero(a);
      Trim(a[..|a| - 1])
  }

  /** Trimmed sequences denoting the same polynomial are identical. */
  lemma TrimmedUnique(a: seq<real>, b: seq<real>)
    requires IsTrimmed(a) && IsTrimmed(b) && Eqv(a, b)
    ensures a == b
  {
    var top := Max(|a|, |b|) - 1;
    assert Coef(a, top) == Coef(b, top);
    assert |a| == |b|;
    forall i | 0 <= i < |a| ensures a[i] == b[i] {
      assert Coef(a, i) == Coef(b, i);
    }
  }

  lemma TrimEqv(a: seq<real>, b: seq<real>)
    requires Eqv(a, b)
    ensures Trim(a) == Trim(b)
  {
    TrimmedUnique(Trim(a), Trim(b));
  }

  lemma TrimTrimmed(a: seq<real>)
    requires IsTrimmed(a)
    ensures Trim(a) == a
  {
    TrimmedUnique(Trim(a), a);
  }

  // ---------------------------------------------------------------------
  // Linear operations

  function Add(a: seq<real>, b: seq<real>): (r: seq<real>)
    ensures |r| == Max(|a|, |b|)
    ensures forall i: nat :: Coef(r, i) == Coef(a, i) + Coef(b, i)
  {
    seq(Max(|a|, |b|), i requires 0 <= i < Max(|a|, |b|) => Coef(a, i) + Coef(b, i))
  }

  function Scale(c: real, a: seq<real>): (r: seq<real>)
    ensures |r| == |a|
    ensures forall i: nat :: Coef(r, i) == Times(c, Coef(a, i))
  {
    seq(|a|, i requires 0 <= i < |a| => Times(c, a[i]))
  }

  function Neg(a: seq<real>): (r: seq<real>)
    ensures |r| == |a|
    ensures forall i: nat :: Coef(r, i) == -Coef(a, i)
  {
    seq(|a|, i requires 0 <= i < |a| => -a[i])
  }

  function Sub(a: seq<real>, b: seq<real>): (r: seq<real>)
    ensures |r| == Max(|a|, |b|)
    ensures forall i: nat :: Coef(r, i) == Coef(a, i) - Coef(b, i)
  {
    seq(Max(|a|, |b|), i requires 0 <= i < Max(|a|, |b|) => Coef(a, i) - Coef(b, i))
  }

  /** Multiplication by X. */
  function Shift(a: seq<real>): (r: seq<real>)
    ensures |r| == |a| + 1
  {
    [0.0] + a
  }

  lemma CoefShift(a: seq<real>, i: nat)
    ensures Coef(Shift(a), i) == if i == 0 then 0.0 else Coef(a, i - 1)
  {
  }

  /** Multiplication by X^k. */
  function ShiftBy(k: nat, a: seq<real>): (r: seq<real>)
    ensures |r| == |a| + k
  {
    if k == 0 then a else Shift(ShiftBy(k - 1, a))
  }

  lemma {:induction false} CoefShiftBy(k: nat, a: seq<real>, i: nat)
    ensures Coef(ShiftBy(k, a), i) == if i < k then 0.0 else Coef(a, i - k)
    decreases k
  {
    if k > 0 {
      CoefShift(ShiftBy(k - 1, a), i);
      if i > 0 {
        CoefShiftBy(k - 1, a, i - 1);
      }
    }
  }

  // ---------------------------------------------------------------------
  // Multiplication

  /** Coefficient of X^k in a*b: the convolution sum, peeled one term of a at a time. */
  function MulCoef(a: seq<real>, b: seq<real>, k: nat): real
    decreases k
  {
    Times(Coef(a, 0), Coef(b, k)) + (if k == 0 then 0.0 else MulCoef(Tail(a), b, k - 1))
  }

  /** The part of MulCoef(a, b, k) contributed by the tail of a. */
  function MulRest(a: seq<real>, b: seq<real>, k: nat): real {
    if k == 0 then 0.0 else MulCoef(Tail(a), b, k - 1)
  }

  lemma {:induction false} MulCoefEmpty(b: seq<real>, k: nat)
    ensures MulCoef([], b, k) == 0.0
    decreases k
  {
    TimesZero(Coef(b, k));
    if k > 0 {
      MulCoefEmpty(b, k - 1);
    }
  }

  lemma {:induction false} MulCoefBeyond(a: seq<real>, b: seq<real>, k: nat)
    requires k + 1 >= |a| + |b|
    ensures MulCoef(a, b, k) == 0.0
    decreases k
  {
    if |a| == 0 {
      MulCoefEmpty(b, k);
    } else {
      TimesZero(Coef(a, 0));
      if k > 0 {
        MulCoefBeyond(Tail(a), b, k - 1);
      }
    }
  }

  /** Product of dense polynomials. */
  function Mul(a: seq<real>, b: seq<real>): (r: seq<real>)
    ensures |r| == if |a| == 0 || |b| == 0 then 0 else |a| + |b| - 1
  {
    if |a| == 0 || |b| == 0 then []
    else seq(|a| + |b| - 1, k requires 0 <= k < |a| + |b| - 1 => MulCoef(a, b, k))
  }

  lemma {:induction false} MulCoefEmptyRight(a: seq<real>, k: nat)
    ensures MulCoef(a, [], k) == 0.0
    decreases k
  {
    TimesZero(Coef(a, 0));
    if k > 0 {
      MulCoefEmptyRight(Tail(a), k - 1);
    }
  }

  lemma CoefMul(a: seq<real>, b: seq<real>, k: nat)
    ensures Coef(Mul(a, b), k) == MulCoef(a, b, k)
  {
    if |b| == 0 {
      MulCoefEmptyRight(a, k);
    } else if |a| == 0 {
      MulCoefEmpty(b, k);
    } else if k + 1 >= |a| + |b| {
      MulCoefBeyond(a, b, k);
    }
  }

  lemma {:induction false} MulCoefEqvLeft(a: seq<real>, a': seq<real>, b: seq<real>, k: nat)
    requires Eqv(a, a')
    ensures MulCoef(a, b, k) == MulCoef(a', b, k)
    decreases k
  {
    assert Coef(a, 0) == Coef(a', 0);
    if k > 0 {
      TailEqv(a, a');
      MulCoefEqvLeft(Tail(a), Tail(a'), b, k - 1);
    }
  }

  lemma {:induction false} MulCoefEqvRight(a: seq<real>, b: seq<real>, b': seq<real>, k: nat)
    requires Eqv(b, b')
    ensures MulCoef(a, b, k) == MulCoef(a, b', k)
    decreases k
  {
    assert Coef(b, k) == Coef(b', k);
    if k > 0 {
      MulCoefEqvRight(Tail(a), b, b', k - 1);
    }
  }

  lemma MulEqv(a: seq<real>, a': seq<real>, b: seq<real>, b': seq<real>)
    requires Eqv(a, a') && Eqv(b, b')
    ensures Eqv(Mul(a, b), Mul(a', b'))
  {
    forall k: nat ensures Coef(Mul(a, b), k) == Coef(Mul(a', b'), k) {
      CoefMul(a, b, k);
      CoefMul(a', b', k);
      MulCoefEqvLeft(a, a', b, k);
      MulCoefEqvRight(a', b, b', k);
    }
  }

  lemma {:induction false} MulCoefAddRight(a: seq<real>, b: seq<real>, c: seq<real>, k: nat)
    ensures MulCoef(a, Add(b, c), k) == MulCoef(a, b, k) + MulCoef(a, c, k)
    decreases k
  {
    TimesAddRight(Coef(a, 0), Coef(b, k), Coef(c, k));
    if k > 0 {
      MulCoefAddRight(Tail(a), b, c, k - 1);
    }
  }

  /** a*(b + c) == a*b + a*c */
  lemma MulAddRight(a: seq<real>, b: seq<real>, c: seq<real>)
    ensures Eqv(Mul(a, Add(b, c)), Add(Mul(a, b), Mul(a, c)))
  {
    forall k: nat ensures Coef(Mul(a, Add(b, c)), k) == Coef(Add(Mul(a, b), Mul(a, c)), k) {
      CoefMul(a, Add(b, c), k);
      CoefMul(a, b, k);
      CoefMul(a, c, k);
      MulCoefAddRight(a, b, c, k);
    }
  }

  lemma TailAdd(a: seq<real>, c: seq<real>)
    ensures Tail(Add(a, c)) == Add(Tail(a), Tail(c))
  {
    var l, r := Tail(Add(a, c)), Add(Tail(a), Tail(c));
    assert |l| == |r|;
    forall i | 0 <= i < |l| ensures l[i] == r[i] {
      assert l[i] == Coef(Add(a, c), i + 1);
      assert r[i] == Coef(Tail(a), i) + Coef(Tail(c), i);
      CoefTail(a, i);
      CoefTail(c, i);
    }
  }

  lemma {:induction false} MulCoefAddLeft(a: seq<real>, c: seq<real>, b: seq<real>, k: nat)
    ensures MulCoef(Add(a, c), b, k) == MulCoef(a, b, k) + MulCoef(c, b, k)
    decreases k
  {
    TimesAddLeft(Coef(b, k), Coef(a, 0), Coef(c, 0));
    if k > 0 {
      TailAdd(a, c);
      MulCoefAddLeft(Tail(a), Tail(c), b, k - 1);
    }
  }

  /** (a + c)*b == a*b + c*b */
  lemma MulAddLeft(a: seq<real>, c: seq<real>, b: seq<real>)
    ensures Eqv(Mul(Add(a, c), b), Add(Mul(a, b), Mul(c, b)))
  {
    forall k: nat ensures Coef(Mul(Add(a, c), b), k) == Coef(Add(Mul(a, b), Mul(c, b)), k) {
      CoefMul(Add(a, c), b, k);
      CoefMul(a, b, k);
      CoefMul(c, b, k);
      MulCoefAddLeft(a, c, b, k);
    }
  }

  lemma {:induction false} MulCoefScaleRight(a: seq<real>, s: real, b: seq<real>, k: nat)
    ensures MulCoef(a, Scale(s, b), k) == Times(s, MulCoef(a, b, k))
    decreases k
  {
    if k > 0 {
      MulCoefScaleRight(Tail(a), s, b, k - 1);
    }
    TimesSwap(Coef(a, 0), s, Coef(b, k));
    TimesAddRight(s, Times(Coef(a, 0), Coef(b, k)), MulRest(a, b, k));
  }

  lemma MulScaleRight(a: seq<real>, s: real, b: seq<real>)
    ensures Eqv(Mul(a, Scale(s, b)), Scale(s, Mul(a, b)))
  {
    forall k: nat ensures Coef(Mul(a, Scale(s, b)), k) == Coef(Scale(s, Mul(a, b)), k) {
      CoefMul(a, Scale(s, b), k);
      CoefMul(a, b, k);
      MulCoefScaleRight(a, s, b, k);
    }
  }

  lemma TailScale(s: real, a: seq<real>)
    ensures Tail(Scale(s, a)) == Scale(s, Tail(a))
  {
  }

  lemma MulCoefScaleLeft(s: real, a: seq<real>, b: seq<real>, k: nat)
    ensures MulCoef(Scale(s, a), b, k) == Times(s, MulCoef(a, b, k))
  {
    MulCoefComm(Scale(s, a), b, k);
    MulCoefScaleRight(b, s, a, k);
    MulCoefComm(b, a, k);
  }

  lemma MulScaleLeft(s: real, a: seq<real>, b: seq<real>)
    ensures Eqv(Mul(Scale(s, a), b), Scale(s, Mul(a, b)))
  {
    forall k: nat ensures Coef(Mul(Scale(s, a), b), k) == Coef(Scale(s, Mul(a, b)), k) {
      CoefMul(Scale(s, a), b, k);
      CoefMul(a, b, k);
      MulCoefScaleLeft(s, a, b, k);
    }
  }

  lemma MulShiftLeftAt(a: seq<real>, b: seq<real>, k: nat)
    ensures Coef(Mul(Shift(a), b), k) == Coef(Shift(Mul(a, b)), k)
  {
    CoefMul(Shift(a), b, k);
    CoefShift(Mul(a, b), k);
    assert Tail(Shift(a)) == a;
    TimesZero(Coef(b, k));
    if k > 0 {
      CoefMul(a, b, k - 1);
    }
  }

  lemma MulShiftLeft(a: seq<real>, b: seq<real>)
    ensures Eqv(Mul(Shift(a), b), Shift(Mul(a, b)))
  {
    forall k: nat ensures Coef(Mul(Shift(a), b), k) == Coef(Shift(Mul(a, b)), k) {
      MulShiftLeftAt(a, b, k);
    }
  }

  lemma {:induction false} MulCoefShiftRight(a: seq<real>, b: seq<real>, k: nat)
    ensures MulCoef(a, Shift(b), k) == if k == 0 then 0.0 else MulCoef(a, b, k - 1)
    decreases k
  {
    CoefShift(b, k);
    if k > 0 {
      MulCoefShiftRight(Tail(a), b, k - 1);
    }
  }

  lemma MulShiftRightAt(a: seq<real>, b: seq<real>, k: nat)
    ensures Coef(Mul(a, Shift(b)), k) == Coef(Shift(Mul(a, b)), k)
  {
    CoefMul(a, Shift(b), k);
    MulCoefShiftRight(a, b, k);
    CoefShift(Mul(a, b), k);
    if k > 0 {
      CoefMul(a, b, k - 1);
    }
  }

  lemma MulShiftRight(a: seq<real>, b: seq<real>)
    ensures Eqv(Mul(a, Shift(b)), Shift(Mul(a, b)))
  {
    forall k: nat ensures Coef(Mul(a, Shift(b)), k) == Coef(Shift(Mul(a, b)), k) {
      MulShiftRightAt(a, b, k);
    }
  }

  lemma {:induction false} MulCoefComm(a: seq<real>, b: seq<real>, k: nat)
    ensures MulCoef(a, b, k) == MulCoef(b, a, k)
    decreases k
  {
    if k > 0 {
      CoefTail(a, k - 1);
      CoefTail(b, k - 1);
      if k > 1 {
        MulCoefComm(Tail(b), Tail(a), k - 2);
      }
      MulCoefComm(Tail(a), b, k - 1);
      MulCoefComm(Tail(b), a, k - 1);
    }
  }

  /** a*b == b*a */
  lemma MulComm(a: seq<real>, b: seq<real>)
    ensures Eqv(Mul(a, b), Mul(b, a))
  {
    forall k: nat ensures Coef(Mul(a, b), k) == Coef(Mul(b, a), k) {
      CoefMul(a, b, k);
      CoefMul(b, a, k);
      MulCoefComm(a, b, k);
    }
  }

  lemma AddEqv(a: seq<real>, a': seq<real>, b: seq<real>, b': seq<real>)
    requires Eqv(a, a') && Eqv(b, b')
    ensures Eqv(Add(a, b), Add(a', b'))
  {
  }

  lemma ScaleEqv(s: real, a: seq<real>, a': seq<real>)
    requires Eqv(a, a')
    ensures Eqv(Scale(s, a), Scale(s, a'))
  {
  }

  lemma ShiftEqv(a: seq<real>, a': seq<real>)
    requires Eqv(a, a')
    ensures Eqv(Shift(a), Shift(a'))
  {
    forall i: nat ensures Coef(Shift(a), i) == Coef(Shift(a'), i) {
      CoefShift(a, i);
      CoefShift(a', i);
    }
  }

  /** a*b == a0*b + X*(Tail(a)*b) */
  lemma MulPeelAt(a: seq<real>, b: seq<real>, k: nat)
    ensures Coef(Mul(a, b), k) == Coef(Add(Scale(Coef(a, 0), b), Shift(Mul(Tail(a), b))), k)
  {
    CoefMul(a, b, k);
    CoefShift(Mul(Tail(a), b), k);
    if k > 0 {
      CoefMul(Tail(a), b, k - 1);
    }
  }

  lemma MulPeel(a: seq<real>, b: seq<real>)
    ensures Eqv(Mul(a, b), Add(Scale(Coef(a, 0), b), Shift(Mul(Tail(a), b))))
  {
    forall k: nat ensures Coef(Mul(a, b), k) == Coef(Add(Scale(Coef(a, 0), b), Shift(Mul(Tail(a), b))), k) {
      MulPeelAt(a, b, k);
    }
  }

  /** (a*b)*c == a*(b*c) */
  lemma {:induction false} MulAssoc(a: seq<real>, b: seq<real>, c: seq<real>)
    ensures Eqv(Mul(Mul(a, b), c), Mul(a, Mul(b, c)))
    decreases |a|
  {
    if |a| == 0 {
      forall k: nat ensures Coef(Mul(Mul(a, b), c), k) == Coef(Mul(a, Mul(b, c)), k) {
        CoefMul(Mul(a, b), c, k);
        CoefMul(a, Mul(b, c), k);
        MulCoefEmpty(c, k);
        MulCoefEmpty(Mul(b, c), k);
      }
    } else {
      var a0 := Coef(a, 0);
      var t := Mul(Tail(a), b);
      MulPeel(a, b);
      MulEqv(Mul(a, b), Add(Scale(a0, b), Shift(t)), c, c);
      MulAddLeft(Scale(a0, b), Shift(t), c);
      MulScaleLeft(a0, b, c);
      MulShiftLeft(t, c);
      MulAssoc(Tail(a), b, c);
      ShiftEqv(Mul(t, c), Mul(Tail(a), Mul(b, c)));
      AddEqv(Mul(Scale(a0, b), c), Scale(a0, Mul(b, c)),
             Mul(Shift(t), c), Shift(Mul(Tail(a), Mul(b, c))));
      MulPeel(a, Mul(b, c));
    }
  }

  // ---------------------------------------------------------------------
  // Degree of a product

  /** The top coefficient of a product is the product of the top coefficients. */
  lemma {:induction false} MulCoefTop(a: seq<real>, b: seq<real>)
    requires |a| >= 1 && |b| >= 1
    ensures MulCoef(a, b, |a| + |b| - 2) == Times(a[|a| - 1], b[|b| - 1])
    decreases |a|
  {
    if |a| > 1 {
      MulCoefTop(Tail(a), b);
      assert Coef(b, |a| + |b| - 2) == 0.0;
      TimesZero(Coef(a, 0));
    } else if |b| > 1 {
      MulCoefEmpty(b, |b| - 2);
    }
  }

  lemma MulTop(a: seq<real>, b: seq<real>)
    requires |a| >= 1 && |b| >= 1
    ensures Mul(a, b)[|a| + |b| - 2] == Times(a[|a| - 1], b[|b| - 1])
  {
    MulCoefTop(a, b);
  }

  // ---------------------------------------------------------------------
  // Evaluation (Horner's scheme)

  function Eval(a: seq<real>, x: real): real
    decreases |a|
  {
    if |a| == 0 then 0.0 else a[0] + Times(x, Eval(a[1..], x))
  }

  lemma EvalUnfold(a: seq<real>, x: real)
    ensures Eval(a, x) == Coef(a, 0) + Times(x, Eval(Tail(a), x))
  {
    if |a| == 0 {
      TimesZero(x);
    }
  }

  lemma {:induction false} EvalEqv(a: seq<real>, b: seq<real>, x: real)
    requires Eqv(a, b)
    ensures Eval(a, x) == Eval(b, x)
    decreases |a| + |b|
  {
    if |a| + |b| > 0 {
      EvalUnfold(a, x);
      EvalUnfold(b, x);
      assert Coef(a, 0) == Coef(b, 0);
      TailEqv(a, b);
      EvalEqv(Tail(a), Tail(b), x);
    }
  }

  lemma {:induction false} EvalAdd(a: seq<real>, b: seq<real>, x: real)
    ensures Eval(Add(a, b), x) == Eval(a, x) + Eval(b, x)
    decreases |a| + |b|
  {
    if |a| + |b| > 0 {
      EvalUnfold(Add(a, b), x);
      EvalUnfold(a, x);
      EvalUnfold(b, x);
      TailAdd(a, b);
      EvalAdd(Tail(a), Tail(b), x);
      TimesAddRight(x, Eval(Tail(a), x), Eval(Tail(b), x));
    }
  }

  lemma {:induction false} EvalScale(s: real, a: seq<real>, x: real)
    ensures Eval(Scale(s, a), x) == Times(s, Eval(a, x))
    decreases |a|
  {
    if |a| > 0 {
      EvalUnfold(Scale(s, a), x);
      EvalUnfold(a, x);
      TailScale(s, a);
      EvalScale(s, Tail(a), x);
      TimesSwap(x, s, Eval(Tail(a), x));
      TimesAddRight(s, a[0], Times(x, Eval(Tail(a), x)));
    } else {
      TimesZero(s);
    }
  }

  lemma EvalShift(a: seq<real>, x: real)
    ensures Eval(Shift(a), x) == Times(x, Eval(a, x))
  {
    assert Shift(a)[1..] == a;
  }

  lemma EvalNeg(a: seq<real>, x: real)
    ensures Eval(Neg(a), x) == -Eval(a, x)
  {
    forall i: nat ensures Coef(Neg(a), i) == Coef(Scale(-1.0, a), i) {
    }
    EvalEqv(Neg(a), Scale(-1.0, a), x);
    EvalScale(-1.0, a, x);
  }

  lemma EvalSub(a: seq<real>, b: seq<real>, x: real)
    ensures Eval(Sub(a, b), x) == Eval(a, x) - Eval(b, x)
  {
    forall i: nat ensures Coef(Sub(a, b), i) == Coef(Add(a, Neg(b)), i) {
    }
    EvalEqv(Sub(a, b), Add(a, Neg(b)), x);
    EvalAdd(a, Neg(b), x);
    EvalNeg(b, x);
  }

  /** Evaluation is a ring homomorphism: it turns products into products. */
  lemma {:induction false} EvalMul(a: seq<real>, b: seq<real>, x: real)
    ensures Eval(Mul(a, b), x) == Times(Eval(a, x), Eval(b, x))
    decreases |a|
  {
    if |a| == 0 {
      TimesZero(Eval(b, x));
    } else {
      var t := Mul(Tail(a), b);
      MulPeel(a, b);
      EvalEqv(Mul(a, b), Add(Scale(Coef(a, 0), b), Shift(t)), x);
      EvalAdd(Scale(Coef(a, 0), b), Shift(t), x);
      EvalScale(Coef(a, 0), b, x);
      EvalShift(t, x);
      EvalMul(Tail(a), b, x);
      EvalUnfold(a, x);
      TimesAssoc(x, Eval(Tail(a), x), Eval(b, x));
      TimesAddLeft(Eval(b, x), Coef(a, 0), Times(x, Eval(Tail(a), x)));
    }
  }
}
