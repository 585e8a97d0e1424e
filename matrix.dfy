/** A dense matrix stored row by row in one flat buffer (include/matrix.h). */
module Matrices {
  import opened Wrappers
  import Utils

  /** `tolerance`: two entries within this distance count as equal for
      `is_symmetrical`. */
  const Tolerance: real := 0.00001

  // ---------------------------------------------------------------------
  // Row-major layout

  /** `index(row, col)`: the position of entry (row, col) in the buffer of a
      matrix with `cols` columns. */
  function Index(cols: nat, row: nat, col: nat): nat {
    row * cols + col
  }

  lemma MulMonotone(a: nat, b: nat, c: nat)
    requires a <= b
    ensures a * c <= b * c
  {
    assert b * c - a * c == (b - a) * c;
  }

  /** An entry inside the matrix has its position inside the buffer. */
  lemma IndexInRange(rows: nat, cols: nat, row: nat, col: nat)
    requires row < rows && col < cols
    ensures Index(cols, row, col) < rows * cols
  {
    MulMonotone(row + 1, rows, cols);
    assert (row + 1) * cols == row * cols + cols;
  }

  /** Every position of the buffer is the index of the entry in row i / cols
      and column i % cols. */
  lemma IndexDecompose(rows: nat, cols: nat, i: nat)
    requires i < rows * cols
    ensures cols > 0 && i / cols < rows && i % cols < cols
    ensures Index(cols, i / cols, i % cols) == i
  {
    var r := i / cols;
    assert r * cols + i % cols == i;
    if r >= rows {
      MulMonotone(rows, r, cols);
    }
  }

  /** An entry in an earlier row comes earlier in the buffer. */
  lemma IndexRowOrder(cols: nat, r1: nat, c1: nat, r2: nat, c2: nat)
    requires r1 < r2 && c1 < cols
    ensures Index(cols, r1, c1) < Index(cols, r2, c2)
  {
    MulMonotone(r1 + 1, r2, cols);
    assert (r1 + 1) * cols == r1 * cols + cols;
  }

  /** Distinct entries have distinct positions. */
  lemma IndexInjective(cols: nat, r1: nat, c1: nat, r2: nat, c2: nat)
    requires c1 < cols && c2 < cols
    requires Index(cols, r1, c1) == Index(cols, r2, c2)
    ensures r1 == r2 && c1 == c2
  {
    if r1 < r2 {
      IndexRowOrder(cols, r1, c1, r2, c2);
    } else if r2 < r1 {
      IndexRowOrder(cols, r2, c2, r1, c1);
    }
  }

  /** The positions of a 2 x 3 matrix listed by the library's tests. */
  lemma IndexExample()
    ensures Index(3, 0, 2) == 2 && Index(3, 1, 0) == 3 && Index(3, 1, 2) == 5
  {
  }

  lemma IndexDivMod(cols: nat, row: nat, col: nat)
    requires col < cols
    ensures Index(cols, row, col) / cols == row && Index(cols, row, col) % cols == col
  {
    var t := Index(cols, row, col);
    IndexInRange(row + 1, cols, row, col);
    IndexDecompose(row + 1, cols, t);
    IndexInjective(cols, t / cols, t % cols, row, col);
  }

  // ---------------------------------------------------------------------
  // Buffers: the flat, row-major contents of a rows x cols matrix

  predicate Shaped(rows: nat, cols: nat, buf: seq<real>) {
    |buf| == rows * cols
  }

  /** The entry in row `row` and column `col`. */
  function Entry(rows: nat, cols: nat, buf: seq<real>, row: nat, col: nat): real
    requires Shaped(rows, cols, buf) && row < rows && col < cols
  {
    IndexInRange(rows, cols, row, col);
    buf[Index(cols, row, col)]
  }

  /** Two buffers of the same shape are equal when all their entries are. */
  lemma EntriesDetermineBuffer(rows: nat, cols: nat, a: seq<real>, b: seq<real>)
    requires Shaped(rows, cols, a) && Shaped(rows, cols, b)
    requires forall i, j :: 0 <= i < rows && 0 <= j < cols ==> Entry(rows, cols, a, i, j) == Entry(rows, cols, b, i, j)
    ensures a == b
  {
    forall t | 0 <= t < |a| ensures a[t] == b[t] {
      IndexDecompose(rows, cols, t);
      assert Entry(rows, cols, a, t / cols, t % cols) == Entry(rows, cols, b, t / cols, t % cols);
    }
  }

  /** `n` copies of `value`. */
  function Constant(n: nat, value: real): (c: seq<real>)
    ensures |c| == n
  {
    seq(n, _ => value)
  }

  // ---------------------------------------------------------------------
  // Transposition

  function TransposedEntry(rows: nat, cols: nat, buf: seq<real>, t: nat): real
    requires Shaped(rows, cols, buf) && t < cols * rows
  {
    IndexDecompose(cols, rows, t);
    Entry(rows, cols, buf, t % rows, t / rows)
  }

  /** The buffer of the cols x rows transpose: its entry (i, j) is the entry
      (j, i) of the original. */
  function Transposed(rows: nat, cols: nat, buf: seq<real>): (t: seq<real>)
    requires Shaped(rows, cols, buf)
    ensures Shaped(cols, rows, t)
    ensures forall i, j {:trigger Entry(cols, rows, t, i, j)} :: 0 <= i < cols && 0 <= j < rows ==>
              Entry(cols, rows, t, i, j) == Entry(rows, cols, buf, j, i)
  {
    var t := seq(cols * rows, k requires 0 <= k < cols * rows => TransposedEntry(rows, cols, buf, k));
    assert forall i, j {:trigger Entry(cols, rows, t, i, j)} :: 0 <= i < cols && 0 <= j < rows ==>
             Entry(cols, rows, t, i, j) == Entry(rows, cols, buf, j, i) by {
      forall i, j | 0 <= i < cols && 0 <= j < rows
        ensures Entry(cols, rows, t, i, j) == Entry(rows, cols, buf, j, i)
      {
        TransposedAt(rows, cols, buf, t, i, j);
      }
    }
    t
  }

  lemma TransposedAt(rows: nat, cols: nat, buf: seq<real>, t: seq<real>, i: nat, j: nat)
    requires Shaped(rows, cols, buf) && i < cols && j < rows
    requires |t| == cols * rows
    requires forall k :: 0 <= k < cols * rows ==> t[k] == TransposedEntry(rows, cols, buf, k)
    ensures Entry(cols, rows, t, i, j) == Entry(rows, cols, buf, j, i)
  {
    var k := Index(rows, i, j);
    IndexInRange(cols, rows, i, j);
    IndexDivMod(rows, i, j);
    assert t[k] == TransposedEntry(rows, cols, buf, k);
  }

  /** Transposing twice gives the matrix back. */
  lemma TransposeInvolution(rows: nat, cols: nat, buf: seq<real>)
    requires Shaped(rows, cols, buf)
    ensures Transposed(cols, rows, Transposed(rows, cols, buf)) == buf
  {
    var t := Transposed(rows, cols, buf);
    EntriesDetermineBuffer(rows, cols, Transposed(cols, rows, t), buf);
  }

  /** The transpose of the 2 x 4 matrix [1 .. 8] listed by the library's tests. */
  lemma TransposeExample(a: seq<real>)
    requires a == [1.0, 2.0, 3.0, 4.0, 5.0, 6.0, 7.0, 8.0]
    ensures Transposed(2, 4, a) == [1.0, 5.0, 2.0, 6.0, 3.0, 7.0, 4.0, 8.0]
  {
    var t := Transposed(2, 4, a);
    assert t[0] == TransposedEntry(2, 4, a, 0);
    assert t[1] == TransposedEntry(2, 4, a, 1);
    assert t[2] == TransposedEntry(2, 4, a, 2);
    assert t[3] == TransposedEntry(2, 4, a, 3);
    assert t[4] == TransposedEntry(2, 4, a, 4);
    assert t[5] == TransposedEntry(2, 4, a, 5);
    assert t[6] == TransposedEntry(2, 4, a, 6);
    assert t[7] == TransposedEntry(2, 4, a, 7);
  }

  // ---------------------------------------------------------------------
  // Entry-wise arithmetic

  /** The buffer whose entry at position k is `f(buf[k], k)`. */
  function Mapped(buf: seq<real>, f: (real, nat) -> real): (m: seq<real>)
    ensures |m| == |buf|
  {
    seq(|buf|, k requires 0 <= k < |buf| => f(buf[k], k))
  }

  /** Entry-wise sum. */
  function Sum(a: seq<real>, b: seq<real>): (c: seq<real>)
    requires |a| == |b|
    ensures |c| == |a|
  {
    seq(|a|, k requires 0 <= k < |a| => a[k] + b[k])
  }

  /** Entry-wise difference. */
  function Difference(a: seq<real>, b: seq<real>): (c: seq<real>)
    requires |a| == |b|
    ensures |c| == |a|
  {
    seq(|a|, k requires 0 <= k < |a| => a[k] - b[k])
  }

  /** Every entry multiplied by `s`. */
  function Scaled(a: seq<real>, s: real): (c: seq<real>)
    ensures |c| == |a|
  {
    seq(|a|, k requires 0 <= k < |a| => a[k] * s)
  }

  /** Addition and subtraction act on the entry in each row and column. */
  lemma SumAndDifferenceEntries(rows: nat, cols: nat, a: seq<real>, b: seq<real>, i: nat, j: nat)
    requires Shaped(rows, cols, a) && Shaped(rows, cols, b) && i < rows && j < cols
    ensures Entry(rows, cols, Sum(a, b), i, j) == Entry(rows, cols, a, i, j) + Entry(rows, cols, b, i, j)
    ensures Entry(rows, cols, Difference(a, b), i, j) == Entry(rows, cols, a, i, j) - Entry(rows, cols, b, i, j)
  {
    IndexInRange(rows, cols, i, j);
  }

  lemma SumCommutes(a: seq<real>, b: seq<real>)
    requires |a| == |b|
    ensures Sum(a, b) == Sum(b, a)
  {
  }

  /** Subtracting b undoes adding b, and adding it back undoes subtracting it. */
  lemma DifferenceUndoesSum(a: seq<real>, b: seq<real>)
    requires |a| == |b|
    ensures Difference(Sum(a, b), b) == a
    ensures Sum(Difference(a, b), b) == a
  {
  }

  /** B - A is the negation of A - B. */
  lemma DifferenceAntisymmetric(a: seq<real>, b: seq<real>)
    requires |a| == |b|
    ensures Difference(b, a) == Scaled(Difference(a, b), -1.0)
  {
  }

  /** Every entry divided by `s`. */
  function Divided(a: seq<real>, s: real): (c: seq<real>)
    requires s != 0.0
    ensures |c| == |a|
  {
    seq(|a|, k requires 0 <= k < |a| => a[k] / s)
  }

  /** Dividing by a non-zero scalar undoes multiplying by it, and the other
      way round. */
  lemma DividedUndoesScaled(a: seq<real>, s: real)
    requires s != 0.0
    ensures Divided(Scaled(a, s), s) == a
    ensures Scaled(Divided(a, s), s) == a
  {
    forall k | 0 <= k < |a|
      ensures Divided(Scaled(a, s), s)[k] == a[k] && Scaled(Divided(a, s), s)[k] == a[k]
    {
      DivideMultiply(a[k], s);
    }
  }

  lemma DivideMultiply(x: real, s: real)
    requires s != 0.0
    ensures (x * s) / s == x && (x / s) * s == x
  {
    var q := x / s;
    assert q * s == x;
  }

  /** The sum and the differences of the two 2 x 4 matrices in the library's tests. */
  lemma SumExample(a: seq<real>, b: seq<real>)
    requires a == [1.0, 2.0, 3.0, 4.0, 5.0, 6.0, 7.0, 2.5]
    requires b == [8.0, 7.0, 6.0, 5.0, -4.0, 3.0, 2.0, 1.0]
    ensures Sum(a, b) == [9.0, 9.0, 9.0, 9.0, 1.0, 9.0, 9.0, 3.5]
    ensures Difference(a, b) == [-7.0, -5.0, -3.0, -1.0, 9.0, 3.0, 5.0, 1.5]
    ensures Difference(b, a) == [7.0, 5.0, 3.0, 1.0, -9.0, -3.0, -5.0, -1.5]
  {
  }

  // ---------------------------------------------------------------------
  // Matrix product

  /** The sum over l < k of a(i, l) * b(l, j), for an n x m matrix a and an
      m x p matrix b. */
  function DotUpTo(n: nat, m: nat, p: nat, a: seq<real>, b: seq<real>, i: nat, j: nat, k: nat): real
    requires Shaped(n, m, a) && Shaped(m, p, b) && i < n && j < p && k <= m
  {
    if k == 0 then 0.0
    else DotUpTo(n, m, p, a, b, i, j, k - 1) + Entry(n, m, a, i, k - 1) * Entry(m, p, b, k - 1, j)
  }

  function ProductEntry(n: nat, m: nat, p: nat, a: seq<real>, b: seq<real>, t: nat): real
    requires Shaped(n, m, a) && Shaped(m, p, b) && t < n * p
  {
    IndexDecompose(n, p, t);
    DotUpTo(n, m, p, a, b, t / p, t % p, m)
  }

  /** The n x p product of an n x m and an m x p matrix. */
  function Product(n: nat, m: nat, p: nat, a: seq<real>, b: seq<real>): (c: seq<real>)
    requires Shaped(n, m, a) && Shaped(m, p, b)
    ensures Shaped(n, p, c)
    ensures forall i, j {:trigger Entry(n, p, c, i, j)} :: 0 <= i < n && 0 <= j < p ==>
              Entry(n, p, c, i, j) == DotUpTo(n, m, p, a, b, i, j, m)
  {
    var c := seq(n * p, t requires 0 <= t < n * p => ProductEntry(n, m, p, a, b, t));
    assert forall i, j {:trigger Entry(n, p, c, i, j)} :: 0 <= i < n && 0 <= j < p ==>
             Entry(n, p, c, i, j) == DotUpTo(n, m, p, a, b, i, j, m) by {
      forall i, j | 0 <= i < n && 0 <= j < p
        ensures Entry(n, p, c, i, j) == DotUpTo(n, m, p, a, b, i, j, m)
      {
        IndexInRange(n, p, i, j);
        IndexDivMod(p, i, j);
        assert c[Index(p, i, j)] == ProductEntry(n, m, p, a, b, Index(p, i, j));
      }
    }
    c
  }

  function IdentityEntry(n: nat, t: nat): real
    requires t < n * n
  {
    IndexDecompose(n, n, t);
    if t / n == t % n then 1.0 else 0.0
  }

  /** The n x n identity matrix. */
  function Identity(n: nat): (id: seq<real>)
    ensures Shaped(n, n, id)
    ensures forall i, j {:trigger Entry(n, n, id, i, j)} :: 0 <= i < n && 0 <= j < n ==>
              Entry(n, n, id, i, j) == if i == j then 1.0 else 0.0
  {
    var id := seq(n * n, t requires 0 <= t < n * n => IdentityEntry(n, t));
    assert forall i, j {:trigger Entry(n, n, id, i, j)} :: 0 <= i < n && 0 <= j < n ==>
             Entry(n, n, id, i, j) == if i == j then 1.0 else 0.0 by {
      forall i, j | 0 <= i < n && 0 <= j < n
        ensures Entry(n, n, id, i, j) == if i == j then 1.0 else 0.0
      {
        IndexInRange(n, n, i, j);
        IndexDivMod(n, i, j);
        assert id[Index(n, i, j)] == IdentityEntry(n, Index(n, i, j));
      }
    }
    id
  }

  lemma {:induction false} DotIdentityRight(n: nat, m: nat, a: seq<real>, i: nat, j: nat, k: nat)
    requires Shaped(n, m, a) && i < n && j < m && k <= m
    ensures DotUpTo(n, m, m, a, Identity(m), i, j, k) == if j < k then Entry(n, m, a, i, j) else 0.0
  {
    if k > 0 {
      DotIdentityRight(n, m, a, i, j, k - 1);
    }
  }

  lemma {:induction false} DotIdentityLeft(n: nat, p: nat, b: seq<real>, i: nat, j: nat, k: nat)
    requires Shaped(n, p, b) && i < n && j < p && k <= n
    ensures DotUpTo(n, n, p, Identity(n), b, i, j, k) == if i < k then Entry(n, p, b, i, j) else 0.0
  {
    if k > 0 {
      DotIdentityLeft(n, p, b, i, j, k - 1);
    }
  }

  /** The identity is neutral on both sides of the product. */
  lemma ProductIdentity(n: nat, m: nat, a: seq<real>)
    requires Shaped(n, m, a)
    ensures Product(n, m, m, a, Identity(m)) == a
    ensures Product(n, n, m, Identity(n), a) == a
  {
    forall i, j | 0 <= i < n && 0 <= j < m
      ensures Entry(n, m, Product(n, m, m, a, Identity(m)), i, j) == Entry(n, m, a, i, j)
      ensures Entry(n, m, Product(n, n, m, Identity(n), a), i, j) == Entry(n, m, a, i, j)
    {
      DotIdentityRight(n, m, a, i, j, m);
      DotIdentityLeft(n, m, a, i, j, n);
    }
    EntriesDetermineBuffer(n, m, Product(n, m, m, a, Identity(m)), a);
    EntriesDetermineBuffer(n, m, Product(n, n, m, Identity(n), a), a);
  }

  // ---------------------------------------------------------------------
  // Symmetry within the tolerance

  /** `is_symmetrical`: the matrix is square and every entry is nearly equal
      to its mirror image across the diagonal. */
  predicate SymmetricWithin(rows: nat, cols: nat, buf: seq<real>, tol: real)
    requires Shaped(rows, cols, buf)
  {
    rows == cols &&
    forall i, j {:trigger Entry(rows, cols, buf, i, j)} :: 0 <= i < rows && 0 <= j < cols ==>
      Utils.NearlyEqual(Entry(rows, cols, buf, i, j), Entry(rows, cols, buf, j, i), tol)
  }

  /** A square matrix equal to its transpose is symmetrical for every
      positive tolerance. */
  lemma SymmetricWhenTransposeEqual(n: nat, buf: seq<real>, tol: real)
    requires Shaped(n, n, buf) && tol > 0.0
    requires Transposed(n, n, buf) == buf
    ensures SymmetricWithin(n, n, buf, tol)
  {
    forall i, j | 0 <= i < n && 0 <= j < n
      ensures Utils.NearlyEqual(Entry(n, n, buf, i, j), Entry(n, n, buf, j, i), tol)
    {
      assert Entry(n, n, Transposed(n, n, buf), i, j) == Entry(n, n, buf, j, i);
    }
  }

  /** A square matrix that differs from its transpose fails the test for some
      positive tolerance: together with the lemma above, equality with the
      transpose is being symmetrical for every positive tolerance. */
  lemma AsymmetricForSomeTolerance(n: nat, buf: seq<real>)
    requires Shaped(n, n, buf)
    requires Transposed(n, n, buf) != buf
    ensures exists tol :: tol > 0.0 && !SymmetricWithin(n, n, buf, tol)
  {
    var t := Transposed(n, n, buf);
    if forall i, j :: 0 <= i < n && 0 <= j < n ==> Entry(n, n, t, i, j) == Entry(n, n, buf, i, j) {
      EntriesDetermineBuffer(n, n, t, buf);
    } else {
      var i, j :| 0 <= i < n && 0 <= j < n && Entry(n, n, t, i, j) != Entry(n, n, buf, i, j);
      var d := Utils.Abs(Entry(n, n, buf, i, j) - Entry(n, n, buf, j, i));
      assert d > 0.0;
      assert !Utils.NearlyEqual(Entry(n, n, buf, i, j), Entry(n, n, buf, j, i), d);
      assert !SymmetricWithin(n, n, buf, d);
    }
  }

  /** The symmetrical 3 x 3 matrix of the library's tests. */
  lemma SymmetricExample(a: seq<real>)
    requires a == [1.1, 2.4, -0.7, 2.4, 2.2, -5.2, -0.7, -5.2, -5.2]
    ensures SymmetricWithin(3, 3, a, Tolerance)
  {
    forall i, j | 0 <= i < 3 && 0 <= j < 3
      ensures Utils.NearlyEqual(Entry(3, 3, a, i, j), Entry(3, 3, a, j, i), Tolerance)
    {
      IndexInRange(3, 3, i, j);
      IndexInRange(3, 3, j, i);
    }
  }

  /** 1/3 and 0.3333333 agree within the tolerance. */
  lemma NearlySymmetricExample(b: seq<real>)
    requires b == [1.1, 1.0 / 3.0, 0.3333333, 2.2]
    ensures SymmetricWithin(2, 2, b, Tolerance)
  {
    forall i, j | 0 <= i < 2 && 0 <= j < 2
      ensures Utils.NearlyEqual(Entry(2, 2, b, i, j), Entry(2, 2, b, j, i), Tolerance)
    {
      IndexInRange(2, 2, i, j);
      IndexInRange(2, 2, j, i);
    }
  }

  /** The non-symmetrical ones: 2.4 against 3.4, and a 2 x 3 matrix. */
  lemma AsymmetricExamples(c: seq<real>, d: seq<real>)
    requires c == [1.1, 2.4, 3.4, 2.2]
    requires d == [1.1, 2.4, -0.7, 1.0, 2.2, -5.2]
    ensures !SymmetricWithin(2, 2, c, Tolerance)
    ensures !SymmetricWithin(2, 3, d, Tolerance)
  {
    assert Entry(2, 2, c, 0, 1) == 2.4 && Entry(2, 2, c, 1, 0) == 3.4;
  }

  // ---------------------------------------------------------------------
  // Construction from a list of rows

  /** The length of the longest row, 0 when there is none. */
  function LongestRow(rs: seq<seq<real>>): (width: nat)
    ensures forall i :: 0 <= i < |rs| ==> |rs[i]| <= width
    ensures |rs| > 0 ==> exists i :: 0 <= i < |rs| && |rs[i]| == width
    ensures |rs| == 0 ==> width == 0
  {
    if |rs| == 0 then 0
    else
      var width := LongestRow(rs[..|rs| - 1]);
      if |rs[|rs| - 1]| > width then |rs[|rs| - 1]| else width
  }

  /** A row filled up with zeros to `width` entries. */
  function Padded(row: seq<real>, width: nat): (p: seq<real>)
    requires |row| <= width
    ensures |p| == width
  {
    row + Constant(width - |row|, 0.0)
  }

  predicate FitsIn(rs: seq<seq<real>>, width: nat) {
    forall i :: 0 <= i < |rs| ==> |rs[i]| <= width
  }

  /** The rows, each padded to `width`, one after the other. */
  function Flatten(rs: seq<seq<real>>, width: nat): (buf: seq<real>)
    requires FitsIn(rs, width)
    ensures Shaped(|rs|, width, buf)
  {
    if |rs| == 0 then []
    else
      var front := Flatten(rs[..|rs| - 1], width);
      assert |rs| * width == (|rs| - 1) * width + width;
      front + Padded(rs[|rs| - 1], width)
  }

  /** Entry (i, j) of the flattened rows is rs[i][j], or zero past the end
      of row i. */
  lemma {:induction false} FlattenEntry(rs: seq<seq<real>>, width: nat, i: nat, j: nat)
    requires FitsIn(rs, width) && i < |rs| && j < width
    ensures Entry(|rs|, width, Flatten(rs, width), i, j) == if j < |rs[i]| then rs[i][j] else 0.0
  {
    var n := |rs|;
    var front := rs[..n - 1];
    var f := Flatten(front, width);
    assert Flatten(rs, width) == f + Padded(rs[n - 1], width);
    if i < n - 1 {
      FlattenEntry(front, width, i, j);
      IndexInRange(n - 1, width, i, j);
    }
  }

  /** The two rows of different lengths from the library's tests give a
      2 x 4 matrix. */
  lemma LongestRowExample(rs: seq<seq<real>>)
    requires rs == [[1.1, 2.4, -0.7], [1.0, 2.2, -5.2, 6.4]]
    ensures LongestRow(rs) == 4
  {
    assert rs[..1] == [[1.1, 2.4, -0.7]];
    assert rs[..1][..0] == [];
  }

  // ---------------------------------------------------------------------
  // Resizing the buffer

  /** The buffer cut to, or filled up with zeros to, `n` entries. */
  function Resized(buf: seq<real>, n: nat): (r: seq<real>)
    ensures |r| == n
  {
    if n <= |buf| then buf[..n] else buf + Constant(n - |buf|, 0.0)
  }

  /** Resizing keeps the entries that fit and fills the rest with zeros; growing
      and shrinking back gives the buffer back. */
  lemma ResizedEntries(buf: seq<real>, n: nat)
    ensures forall k :: 0 <= k < n ==> Resized(buf, n)[k] == if k < |buf| then buf[k] else 0.0
    ensures n >= |buf| ==> Resized(Resized(buf, n), |buf|) == buf
  {
  }

  // ---------------------------------------------------------------------
  // The matrix object

  /** `MatrixProxy`: row `row` of a matrix, indexed by column. */
  datatype MatrixProxy = MatrixProxy(rows: nat, cols: nat, buffer: seq<real>, row: nat)
  {
    /** `operator[](col)`. */
    function At(col: nat): real
      requires Shaped(rows, cols, buffer) && row < rows && col < cols
    {
      Entry(rows, cols, buffer, row, col)
    }
  }

  class Matrix {
    var rows: nat
    var cols: nat
    var coeffs: seq<real>

    /** The buffer holds rows * cols entries, row by row. */
    ghost predicate Valid()
      reads this
    {
      Shaped(rows, cols, coeffs)
    }

    /** `matrix(num_rows, num_cols)`: every entry zero. */
    constructor (numRows: nat, numCols: nat)
      ensures Valid() && rows == numRows && cols == numCols
      ensures coeffs == Constant(numRows * numCols, 0.0)
    {
      rows, cols := numRows, numCols;
      coeffs := Constant(numRows * numCols, 0.0);
    }

    /** `matrix(num_rows, num_cols, value)`: every entry `value`. */
    constructor Filled(numRows: nat, numCols: nat, value: real)
      ensures Valid() && rows == numRows && cols == numCols
      ensures coeffs == Constant(numRows * numCols, value)
    {
      rows, cols := numRows, numCols;
      coeffs := Constant(numRows * numCols, value);
    }

    /** `matrix(num_rows, num_cols, coeffs)` once `check_dimension` has passed. */
    constructor WithCoefficients(numRows: nat, numCols: nat, values: seq<real>)
      requires Shaped(numRows, numCols, values)
      ensures Valid() && rows == numRows && cols == numCols && coeffs == values
    {
      rows, cols, coeffs := numRows, numCols, values;
    }

    /** `matrix(num_rows, num_cols, coeffs)`: the list fills the matrix row by
        row; `check_dimension` rejects a list of any other size than
        num_rows * num_cols. */
    static method FromList(numRows: nat, numCols: nat, values: seq<real>) returns (m: Option<Matrix>)
      ensures m.None? <==> !Shaped(numRows, numCols, values)
      ensures m.Some? ==> fresh(m.value) && m.value.Valid()
      ensures m.Some? ==> m.value.rows == numRows && m.value.cols == numCols && m.value.coeffs == values
    {
      if |values| != numRows * numCols {
        return None;
      }
      var mat := new Matrix.WithCoefficients(numRows, numCols, values);
      return Some(mat);
    }

    /** `matrix(rows)`: one matrix row per list, as many columns as the longest
        list, shorter lists filled up with zeros. */
    constructor FromRows(rs: seq<seq<real>>)
      ensures Valid() && rows == |rs| && cols == LongestRow(rs)
      ensures coeffs == Flatten(rs, LongestRow(rs))
    {
      var width := 0;
      var i := 0;
      while i < |rs|
        invariant i <= |rs|
        invariant width == LongestRow(rs[..i])
      {
        assert rs[..i + 1][..i] == rs[..i];
        if |rs[i]| > width {
          width := |rs[i]|;
        }
        i := i + 1;
      }
      assert rs[..|rs|] == rs;
      var buf := [];
      i := 0;
      while i < |rs|
        invariant i <= |rs|
        invariant FitsIn(rs[..i], width)
        invariant buf == Flatten(rs[..i], width)
      {
        assert rs[..i + 1][..i] == rs[..i];
        buf := buf + Padded(rs[i], width);
        i := i + 1;
      }
      rows, cols, coeffs := |rs|, width, buf;
    }

    /** `operator()(row, col)` and `at(row, col)` for reading. */
    function Get(row: nat, col: nat): real
      reads this
      requires Valid() && row < rows && col < cols
    {
      Entry(rows, cols, coeffs, row, col)
    }

    /** `operator()(idx)`: the entry at a position of the buffer, which is
        the entry in row idx / cols and column idx % cols. */
    function GetFlat(idx: nat): (v: real)
      reads this
      requires Valid() && idx < |coeffs|
      ensures cols > 0 && idx / cols < rows && v == Get(idx / cols, idx % cols)
    {
      IndexDecompose(rows, cols, idx);
      coeffs[idx]
    }

    /** `at(row, col)`: bounds-checked access. */
    function At(row: nat, col: nat): (v: Option<real>)
      reads this
      requires Valid()
      ensures v.Some? <==> row < rows && col < cols
      ensures v.Some? ==> v.value == Get(row, col)
    {
      if row < rows && col < cols then Some(Get(row, col)) else None
    }

    /** `operator[](row)`: a proxy whose `[col]` reads entry (row, col). */
    function Proxy(row: nat): (p: MatrixProxy)
      reads this
      requires Valid() && row < rows
      ensures Shaped(p.rows, p.cols, p.buffer) && p.row < p.rows && p.cols == cols
      ensures forall col :: 0 <= col < cols ==> p.At(col) == Get(row, col)
    {
      MatrixProxy(rows, cols, coeffs, row)
    }

    /** Writing through `operator()(row, col)`: only entry (row, col)
        changes. The write is unchecked, so the caller keeps it inside. */
    method Set(row: nat, col: nat, value: real)
      modifies this
      requires Valid() && row < rows && col < cols
      ensures Valid() && rows == old(rows) && cols == old(cols)
      ensures Get(row, col) == value
      ensures forall i, j :: 0 <= i < rows && 0 <= j < cols && (i != row || j != col) ==>
                Get(i, j) == old(Get(i, j))
    {
      IndexInRange(rows, cols, row, col);
      coeffs := coeffs[Index(cols, row, col) := value];
      forall i, j | 0 <= i < rows && 0 <= j < cols && (i != row || j != col)
        ensures Get(i, j) == old(Get(i, j))
      {
        IndexInRange(rows, cols, i, j);
        if Index(cols, i, j) == Index(cols, row, col) {
          IndexInjective(cols, i, j, row, col);
        }
      }
    }

    /** Writing through the bounds-checked `at(row, col)`: inside the
        matrix only entry (row, col) changes; outside it the write is
        refused, as `At` refuses the read, and nothing changes. */
    method SetAt(row: nat, col: nat, value: real) returns (ok: bool)
      modifies this
      requires Valid()
      ensures ok <==> row < old(rows) && col < old(cols)
      ensures !ok ==> unchanged(this)
      ensures Valid() && rows == old(rows) && cols == old(cols)
      ensures ok ==> At(row, col) == Some(value)
      ensures forall i, j :: 0 <= i < rows && 0 <= j < cols && (i != row || j != col) ==>
                Get(i, j) == old(Get(i, j))
    {
      if row < rows && col < cols {
        Set(row, col, value);
        ok := true;
      } else {
        ok := false;
      }
    }

    /** Writing through `operator()(idx)`. */
    method SetFlat(idx: nat, value: real)
      modifies this
      requires Valid() && idx < |coeffs|
      ensures Valid() && rows == old(rows) && cols == old(cols)
      ensures coeffs == old(coeffs)[idx := value]
    {
      coeffs := coeffs[idx := value];
    }

    /** `operator==`: same shape and same entries. */
    function Equals(other: Matrix): (r: bool)
      reads this, other
      requires Valid() && other.Valid()
      ensures r <==> rows == other.rows && cols == other.cols &&
                     forall i, j :: 0 <= i < rows && 0 <= j < cols ==>
                       Entry(rows, cols, coeffs, i, j) == Entry(rows, cols, other.coeffs, i, j)
    {
      if rows == other.rows && cols == other.cols then
        SameEntries(rows, cols, coeffs, other.coeffs);
        coeffs == other.coeffs
      else
        false
    }

    /** `operator!=`: a different shape or some different entry. */
    function NotEquals(other: Matrix): (r: bool)
      reads this, other
      requires Valid() && other.Valid()
      ensures r <==> rows != other.rows || cols != other.cols ||
                     exists i, j :: 0 <= i < rows && 0 <= j < cols &&
                       Entry(rows, cols, coeffs, i, j) != Entry(rows, cols, other.coeffs, i, j)
    {
      !Equals(other)
    }

    /** `is_square`. */
    function IsSquare(): (r: bool)
      reads this
      requires Valid()
      ensures r <==> rows == cols
      ensures r ==> Shaped(cols, rows, coeffs)
    {
      rows == cols
    }

    /** `is_empty`: the buffer is empty exactly when there are no rows or no
        columns. */
    function IsEmpty(): (r: bool)
      reads this
      requires Valid()
      ensures r <==> rows == 0 || cols == 0
    {
      if |coeffs| == 0 then
        NoEntries(rows, cols);
        true
      else
        false
    }

    /** `is_symmetrical`: compares every entry with its mirror image. */
    method IsSymmetrical() returns (r: bool)
      requires Valid()
      ensures r == SymmetricWithin(rows, cols, coeffs, Tolerance)
    {
      if rows != cols {
        return false;
      }
      for i := 0 to rows
        invariant forall i', j {:trigger Entry(rows, cols, coeffs, i', j)} :: 0 <= i' < i && 0 <= j < cols ==>
                    Utils.NearlyEqual(Entry(rows, cols, coeffs, i', j), Entry(rows, cols, coeffs, j, i'), Tolerance)
      {
        for j := 0 to cols
          invariant forall i', j' {:trigger Entry(rows, cols, coeffs, i', j')} :: 0 <= i' < i && 0 <= j' < cols ==>
                      Utils.NearlyEqual(Entry(rows, cols, coeffs, i', j'), Entry(rows, cols, coeffs, j', i'), Tolerance)
          invariant forall j' :: 0 <= j' < j ==>
                      Utils.NearlyEqual(Entry(rows, cols, coeffs, i, j'), Entry(rows, cols, coeffs, j', i), Tolerance)
        {
          if !Utils.NearlyEqual(Get(i, j), Get(j, i), Tolerance) {
            return false;
          }
        }
      }
      return true;
    }

    /** `make_matrix(value)`: a new matrix of the same shape, every entry
        `value`. */
    method MakeMatrix(value: real) returns (m: Matrix)
      requires Valid()
      ensures fresh(m) && m.Valid() && m.rows == rows && m.cols == cols
      ensures m.coeffs == Constant(rows * cols, value)
    {
      m := new Matrix.Filled(rows, cols, value);
    }

    /** `apply(func)`: a new matrix of the same shape whose entry at position k
        is func(coeffs[k], k). */
    method Apply(f: (real, nat) -> real) returns (m: Matrix)
      requires Valid()
      ensures fresh(m) && m.Valid() && m.rows == rows && m.cols == cols
      ensures m.coeffs == Mapped(coeffs, f)
    {
      m := MakeMatrix(0.0);
      for k := 0 to |coeffs|
        invariant m.Valid() && m.rows == rows && m.cols == cols
        invariant forall l :: 0 <= l < k ==> m.coeffs[l] == f(coeffs[l], l)
      {
        m.SetFlat(k, f(coeffs[k], k));
      }
    }

    /** `operator+`: entry-wise; `check_dimension` rejects different shapes. */
    method Add(other: Matrix) returns (r: Option<Matrix>)
      requires Valid() && other.Valid()
      ensures r.None? <==> rows != other.rows || cols != other.cols
      ensures r.Some? ==> fresh(r.value) && r.value.Valid() && r.value.rows == rows && r.value.cols == cols
      ensures r.Some? ==> r.value.coeffs == Sum(coeffs, other.coeffs)
    {
      if rows != other.rows || cols != other.cols {
        return None;
      }
      var oc := other.coeffs;
      var m := Apply((x: real, k: nat) => x + if k < |oc| then oc[k] else 0.0);
      return Some(m);
    }

    /** `operator-`: entry-wise; `check_dimension` rejects different shapes. */
    method Subtract(other: Matrix) returns (r: Option<Matrix>)
      requires Valid() && other.Valid()
      ensures r.None? <==> rows != other.rows || cols != other.cols
      ensures r.Some? ==> fresh(r.value) && r.value.Valid() && r.value.rows == rows && r.value.cols == cols
      ensures r.Some? ==> r.value.coeffs == Difference(coeffs, other.coeffs)
    {
      if rows != other.rows || cols != other.cols {
        return None;
      }
      var oc := other.coeffs;
      var m := Apply((x: real, k: nat) => x - if k < |oc| then oc[k] else 0.0);
      return Some(m);
    }

    /** `operator*(scalar)`. */
    method MultiplyScalar(scalar: real) returns (m: Matrix)
      requires Valid()
      ensures fresh(m) && m.Valid() && m.rows == rows && m.cols == cols
      ensures m.coeffs == Scaled(coeffs, scalar)
    {
      m := Apply((x: real, k: nat) => x * scalar);
    }

    /** `operator/(scalar)`. */
    method DivideScalar(scalar: real) returns (m: Matrix)
      requires Valid() && scalar != 0.0
      ensures fresh(m) && m.Valid() && m.rows == rows && m.cols == cols
      ensures m.coeffs == Divided(coeffs, scalar)
    {
      m := Apply((x: real, k: nat) => x / scalar);
    }

    /** `operator*`: the matrix product; the inner dimensions must agree. */
    method Multiply(other: Matrix) returns (r: Option<Matrix>)
      requires Valid() && other.Valid()
      ensures r.None? <==> cols != other.rows
      ensures r.Some? ==> fresh(r.value) && r.value.Valid()
      ensures r.Some? ==> r.value.rows == rows && r.value.cols == other.cols &&
                          r.value.coeffs == Product(rows, cols, other.cols, coeffs, other.coeffs)
    {
      if cols != other.rows {
        return None;
      }
      var p := other.cols;
      var m := new Matrix(rows, p);
      for t := 0 to rows * p
        invariant m.Valid() && m.rows == rows && m.cols == p
        invariant forall u :: 0 <= u < t ==> m.coeffs[u] == ProductEntry(rows, cols, p, coeffs, other.coeffs, u)
      {
        IndexDecompose(rows, p, t);
        var sum := Dot(other, t / p, t % p);
        m.SetFlat(t, sum);
      }
      return Some(m);
    }

    /** The sum over k of entry (i, k) of this matrix times entry (k, j) of other. */
    method Dot(other: Matrix, i: nat, j: nat) returns (sum: real)
      requires Valid() && other.Valid() && cols == other.rows && i < rows && j < other.cols
      ensures sum == DotUpTo(rows, cols, other.cols, coeffs, other.coeffs, i, j, cols)
    {
      sum := 0.0;
      for k := 0 to cols
        invariant sum == DotUpTo(rows, cols, other.cols, coeffs, other.coeffs, i, j, k)
      {
        sum := sum + Get(i, k) * other.Get(k, j);
      }
    }

    /** `transpose`: a new cols x rows matrix with entry (i, j) equal to entry
        (j, i) of this one. */
    method Transpose() returns (m: Matrix)
      requires Valid()
      ensures fresh(m) && m.Valid() && m.rows == cols && m.cols == rows
      ensures m.coeffs == Transposed(rows, cols, coeffs)
    {
      m := new Matrix(cols, rows);
      for t := 0 to cols * rows
        invariant m.Valid() && m.rows == cols && m.cols == rows
        invariant forall u :: 0 <= u < t ==> m.coeffs[u] == TransposedEntry(rows, cols, coeffs, u)
      {
        IndexDecompose(cols, rows, t);
        m.SetFlat(t, Get(t % rows, t / rows));
      }
    }

    /** `resize(rows, cols)`: the buffer keeps its leading entries and is cut or
        filled up with zeros to the new size. */
    method Resize(numRows: nat, numCols: nat)
      modifies this
      requires Valid()
      ensures Valid() && rows == numRows && cols == numCols
      ensures coeffs == Resized(old(coeffs), numRows * numCols)
    {
      coeffs := Resized(coeffs, numRows * numCols);
      rows, cols := numRows, numCols;
    }
  }

  /** Transposing a matrix twice gives a matrix equal to it. */
  method TransposeTwice(a: Matrix) returns (same: bool)
    requires a.Valid()
    ensures same
  {
    var t := a.Transpose();
    var tt := t.Transpose();
    TransposeInvolution(a.rows, a.cols, a.coeffs);
    same := tt.Equals(a);
  }

  /** The shapes of the library's constructor tests: 2 x 4 zeros and 2 x 2
      filled with 2.1. */
  method ConstructorExamples() returns (rows: nat, cols: nat, zero: real, filled: real)
    ensures rows == 2 && cols == 4 && zero == 0.0 && filled == 2.1
  {
    var m := new Matrix(2, 4);
    rows, cols := m.rows, m.cols;
    zero := m.Get(1, 3);
    var f := new Matrix.Filled(2, 2, 2.1);
    filled := f.Get(1, 0);
  }

  /** The library's emptiness and squareness tests: the default matrix is
      empty and 2 x 2 is not; 4 x 4 is square and 4 x 5 is not. */
  method ShapeExamples() returns (empty: bool, nonEmpty: bool, square: bool, notSquare: bool)
    ensures empty && !nonEmpty && square && !notSquare
  {
    var e := new Matrix(0, 0);
    empty := e.IsEmpty();
    var z := new Matrix(2, 2);
    nonEmpty := z.IsEmpty();
    var sq := new Matrix(4, 4);
    square := sq.IsSquare();
    var ns := new Matrix(4, 5);
    notSquare := ns.IsSquare();
  }

  /** A list of 5 values does not fit 2 x 3; a list of 6 fills it row by row,
      and the proxy of a 3 x 2 matrix reads its rows. */
  method ListExamples() returns (rejected: bool, last: Option<real>, proxied: real)
    ensures rejected && last == Some(-5.2) && proxied == 4.0
  {
    var bad := Matrix.FromList(2, 3, [1.1, 2.4, -0.7, 1.0, 2.2]);
    rejected := bad.None?;
    var good := Matrix.FromList(2, 3, [1.1, 2.4, -0.7, 1.0, 2.2, -5.2]);
    var m := good.value;
    last := m.At(1, 2);
    var p := Matrix.FromList(3, 2, [1.0, 2.0, 3.0, 4.0, 5.0, 6.0]);
    proxied := p.value.Proxy(1).At(1);
  }

  /** The rows-of-lists constructor on rows of 3 and 4 entries. */
  method RowsExample() returns (rows: nat, cols: nat, padded: real)
    ensures rows == 2 && cols == 4 && padded == 0.0
  {
    var rs := [[1.1, 2.4, -0.7], [1.0, 2.2, -5.2, 6.4]];
    LongestRowExample(rs);
    var m := new Matrix.FromRows(rs);
    rows, cols := m.rows, m.cols;
    FlattenEntry(rs, 4, 0, 3);
    padded := m.Get(0, 3);
  }

  /** Two buffers of the same shape are equal exactly when all entries are. */
  lemma SameEntries(rows: nat, cols: nat, a: seq<real>, b: seq<real>)
    requires Shaped(rows, cols, a) && Shaped(rows, cols, b)
    ensures a == b <==> forall i, j :: 0 <= i < rows && 0 <= j < cols ==> Entry(rows, cols, a, i, j) == Entry(rows, cols, b, i, j)
  {
    if forall i, j :: 0 <= i < rows && 0 <= j < cols ==> Entry(rows, cols, a, i, j) == Entry(rows, cols, b, i, j) {
      EntriesDetermineBuffer(rows, cols, a, b);
    }
  }

  lemma NoEntries(rows: nat, cols: nat)
    requires rows * cols == 0
    ensures rows == 0 || cols == 0
  {
    if rows > 0 && cols > 0 {
      MulMonotone(1, rows, cols);
    }
  }
}
