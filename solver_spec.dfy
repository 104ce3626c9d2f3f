/**
 * The mathematics behind the dense linear solver: augmented systems over the
 * exact field `real`, the three row operations the solver performs, and the
 * facts that each row operation keeps the solution set of the system, that a
 * reduced system can be read off, and that a stuck elimination exhibits a
 * nonzero kernel vector.
 */
module SolverSpec {

  type Row = seq<real>
  type Matrix = seq<Row>

  /** Sum of row[k] * x[k] for k < n. */
  function DotTo(row: Row, x: seq<real>, n: nat): real
    requires n <= |row| && n <= |x|
  {
    if n == 0 then 0.0 else DotTo(row, x, n - 1) + row[n - 1] * x[n - 1]
  }

  function Zeros(n: nat): (z: seq<real>)
    ensures |z| == n && forall k :: 0 <= k < n ==> z[k] == 0.0
  {
    seq(n, _ => 0.0)
  }

  /** Every row of `a` has exactly |a| coefficients. */
  ghost predicate Square(a: Matrix) {
    forall r :: 0 <= r < |a| ==> |a[r]| == |a|
  }

  /** Every row of `m` has |m| coefficients followed by one right-hand side entry. */
  ghost predicate Augmented(m: Matrix) {
    forall r :: 0 <= r < |m| ==> |m[r]| == |m| + 1
  }

  /** The product a * x of a square matrix and a vector. */
  function MatVec(a: Matrix, x: seq<real>): (y: seq<real>)
    requires Square(a) && |x| == |a|
    ensures |y| == |a|
  {
    seq(|a|, r requires 0 <= r < |a| => DotTo(a[r], x, |x|))
  }

  /** x solves the square system a * x == b. */
  ghost predicate IsSolution(a: Matrix, b: seq<real>, x: seq<real>) {
    Square(a) && |b| == |a| && |x| == |a| && MatVec(a, x) == b
  }

  /** The square matrix a has a nonzero vector in its kernel. */
  ghost predicate Singular(a: Matrix) {
    Square(a) && exists y :: |y| == |a| && y != Zeros(|a|) && MatVec(a, y) == Zeros(|a|)
  }

  /** The matrix with b appended to row r as its last entry, for every r. */
  function Augment(a: Matrix, b: seq<real>): (m: Matrix)
    requires |a| == |b|
    ensures |m| == |a|
    ensures forall r :: 0 <= r < |a| ==> m[r] == a[r] + [b[r]]
  {
    seq(|a|, r requires 0 <= r < |a| => a[r] + [b[r]])
  }

  /** The |n| x |n| identity matrix. */
  function Identity(n: nat): (e: Matrix)
    ensures |e| == n && Square(e)
    ensures forall r, c :: 0 <= r < n && 0 <= c < n ==> e[r][c] == if r == c then 1.0 else 0.0
  {
    seq(n, r => seq(n, c => if r == c then 1.0 else 0.0))
  }

  /** Column c of m. */
  function Column(m: Matrix, c: nat): (col: seq<real>)
    requires forall r :: 0 <= r < |m| ==> c < |m[r]|
    ensures |col| == |m| && forall r :: 0 <= r < |m| ==> col[r] == m[r][c]
  {
    seq(|m|, r requires 0 <= r < |m| => m[r][c])
  }

  // ---------------------------------------------------------------------
  // Solutions of an augmented system
  // ---------------------------------------------------------------------

  /** The right-hand side the equation in `row` asks for: its last entry, or 0 for the homogeneous system. */
  function Rhs(row: Row, n: nat, hom: bool): real
    requires n < |row|
  {
    if hom then 0.0 else row[n]
  }

  /**
   * The equation held in `row` is satisfied by x: hom == false asks for a
   * solution, hom == true for a kernel vector.
   */
  ghost predicate RowHolds(row: Row, x: seq<real>, hom: bool) {
    |row| == |x| + 1 && DotTo(row, x, |x|) == Rhs(row, |x|, hom)
  }

  ghost predicate Satisfies(m: Matrix, x: seq<real>, hom: bool) {
    forall r :: 0 <= r < |m| ==> RowHolds(m[r], x, hom)
  }

  /** m1 and m2 have the same solutions and the same kernel. */
  ghost predicate SameSolutions(m1: Matrix, m2: Matrix) {
    forall x, hom :: Satisfies(m1, x, hom) <==> Satisfies(m2, x, hom)
  }

  lemma SameSolutionsTrans(m1: Matrix, m2: Matrix, m3: Matrix)
    requires SameSolutions(m1, m2) && SameSolutions(m2, m3)
    ensures SameSolutions(m1, m3)
  {
  }

  // ---------------------------------------------------------------------
  // Row operations
  // ---------------------------------------------------------------------

  /** The matrix with rows i and j exchanged (std::swap of two rows). */
  function Swap(m: Matrix, i: nat, j: nat): Matrix
    requires i < |m| && j < |m|
  {
    m[i := m[j]][j := m[i]]
  }

  /** Every entry of row divided by s. */
  function ScaledRow(row: Row, s: real): (r: Row)
    requires s != 0.0
    ensures |r| == |row|
  {
    seq(|row|, k requires 0 <= k < |row| => row[k] / s)
  }

  /** target[k] - source[k] * s for every k of target. */
  function RowMinus(target: Row, source: Row, s: real): (r: Row)
    requires |target| <= |source|
    ensures |r| == |target|
  {
    seq(|target|, k requires 0 <= k < |target| => target[k] - source[k] * s)
  }

  lemma {:induction false} DotScaled(row: Row, x: seq<real>, n: nat, s: real)
    requires s != 0.0 && n <= |row| && n <= |x|
    ensures DotTo(ScaledRow(row, s), x, n) == DotTo(row, x, n) / s
  {
    if n > 0 {
      DotScaled(row, x, n - 1, s);
      var a, b := DotTo(row, x, n - 1), row[n - 1] * x[n - 1];
      assert ScaledRow(row, s)[n - 1] * x[n - 1] == b / s;
      assert a / s + b / s == (a + b) / s;
    }
  }

  lemma {:induction false} DotMinus(target: Row, source: Row, x: seq<real>, n: nat, s: real)
    requires |target| <= |source| && n <= |target| && n <= |x|
    ensures DotTo(RowMinus(target, source, s), x, n) == DotTo(target, x, n) - s * DotTo(source, x, n)
  {
    if n > 0 {
      DotMinus(target, source, x, n - 1, s);
      assert RowMinus(target, source, s)[n - 1] * x[n - 1]
          == target[n - 1] * x[n - 1] - s * (source[n - 1] * x[n - 1]);
    }
  }

  /** Exchanging two rows keeps the solutions. */
  lemma SwapSameSolutions(m: Matrix, i: nat, j: nat)
    requires i < |m| && j < |m|
    ensures SameSolutions(Swap(m, i, j), m)
  {
    var m' := Swap(m, i, j);
    forall x, hom ensures Satisfies(m', x, hom) <==> Satisfies(m, x, hom) {
      if Satisfies(m', x, hom) {
        forall r | 0 <= r < |m| ensures RowHolds(m[r], x, hom) {
          var r' := if r == i then j else if r == j then i else r;
          assert m[r] == m'[r'];
        }
      }
    }
  }

  /** Two systems with the same number of rows whose rows agree one by one on x and t. */
  lemma SatisfiesRowwise(m1: Matrix, m2: Matrix, x: seq<real>, hom: bool)
    requires |m1| == |m2|
    requires forall r :: 0 <= r < |m1| ==> (RowHolds(m1[r], x, hom) <==> RowHolds(m2[r], x, hom))
    ensures Satisfies(m1, x, hom) <==> Satisfies(m2, x, hom)
  {
  }

  lemma ScaledRowHolds(row: Row, x: seq<real>, hom: bool, s: real)
    requires s != 0.0
    ensures RowHolds(ScaledRow(row, s), x, hom) <==> RowHolds(row, x, hom)
  {
    if |row| == |x| + 1 {
      DotScaled(row, x, |x|, s);
      var d, e := DotTo(row, x, |x|), Rhs(row, |x|, hom);
      assert Rhs(ScaledRow(row, s), |x|, hom) == e / s;
      assert d / s == e / s <==> d == e;
    }
  }

  /** Dividing one row by a nonzero scalar keeps the solutions. */
  lemma ScaleSameSolutions(m: Matrix, i: nat, s: real)
    requires i < |m| && s != 0.0
    ensures SameSolutions(m[i := ScaledRow(m[i], s)], m)
  {
    var m' := m[i := ScaledRow(m[i], s)];
    forall x, hom ensures Satisfies(m', x, hom) <==> Satisfies(m, x, hom) {
      ScaledRowHolds(m[i], x, hom, s);
      SatisfiesRowwise(m', m, x, hom);
    }
  }

  /** With `source` satisfied, `target` and target - source * s are satisfied together. */
  lemma RowMinusHolds(target: Row, source: Row, x: seq<real>, hom: bool, s: real)
    requires |target| == |source| && RowHolds(source, x, hom)
    ensures RowHolds(RowMinus(target, source, s), x, hom) <==> RowHolds(target, x, hom)
  {
    var n := |x|;
    var d := RowMinus(target, source, s);
    DotMinus(target, source, x, n, s);
    assert Rhs(d, n, hom) == Rhs(target, n, hom) - s * Rhs(source, n, hom);
  }

  /** Subtracting a multiple of one row from another row keeps the solutions. */
  lemma SubtractSameSolutions(m: Matrix, j: nat, i: nat, s: real)
    requires i < |m| && j < |m| && i != j && |m[j]| == |m[i]|
    ensures SameSolutions(m[j := RowMinus(m[j], m[i], s)], m)
  {
    var m' := m[j := RowMinus(m[j], m[i], s)];
    forall x, hom ensures Satisfies(m', x, hom) <==> Satisfies(m, x, hom) {
      if RowHolds(m[i], x, hom) {
        RowMinusHolds(m[j], m[i], x, hom, s);
        SatisfiesRowwise(m', m, x, hom);
      } else {
        assert !RowHolds(m'[i], x, hom);
      }
    }
  }

  // ---------------------------------------------------------------------
  // Pivot search
  // ---------------------------------------------------------------------

  /** The first row index k >= from whose entry in column col is nonzero, or |m| if none. */
  function FirstNonzeroBelow(m: Matrix, col: nat, from: nat): (k: nat)
    requires from <= |m|
    requires forall r :: from <= r < |m| ==> col < |m[r]|
    ensures from <= k <= |m|
    ensures k < |m| ==> m[k][col] != 0.0
    ensures forall r :: from <= r < k ==> m[r][col] == 0.0
    decreases |m| - from
  {
    if from == |m| then |m|
    else if m[from][col] != 0.0 then from
    else FirstNonzeroBelow(m, col, from + 1)
  }

  /** The three properties in the contract of FirstNonzeroBelow determine it. */
  lemma FirstNonzeroBelowUnique(m: Matrix, col: nat, from: nat, k: nat)
    requires from <= k <= |m|
    requires forall r :: from <= r < |m| ==> col < |m[r]|
    requires k < |m| ==> m[k][col] != 0.0
    requires forall r :: from <= r < k ==> m[r][col] == 0.0
    ensures FirstNonzeroBelow(m, col, from) == k
  {
    var f := FirstNonzeroBelow(m, col, from);
    assert !(f < k) && !(k < f);
  }

  // ---------------------------------------------------------------------
  // Shapes reached by elimination
  // ---------------------------------------------------------------------

  /**
   * Forward elimination has finished the pivots 0 .. p-1: those rows have a
   * unit pivot and zeros left of it, and all later rows are zero in the
   * first p columns.
   */
  ghost predicate Echelon(m: Matrix, p: nat) {
    && Augmented(m)
    && p <= |m|
    && (forall r :: 0 <= r < p ==> m[r][r] == 1.0)
    && (forall r, c :: 0 <= c < r < |m| && c < p ==> m[r][c] == 0.0)
  }

  /** The first |m| columns are upper triangular with unit diagonal. */
  ghost predicate UnitUpper(m: Matrix) {
    Echelon(m, |m|)
  }

  /** The first |m| columns are the identity matrix. */
  ghost predicate IdentityPart(m: Matrix) {
    && Augmented(m)
    && forall r, c :: 0 <= r < |m| && 0 <= c < |m| ==> m[r][c] == if r == c then 1.0 else 0.0
  }

  lemma {:induction false} DotUnitRow(row: Row, x: seq<real>, n: nat, r: nat)
    requires n <= |row| && n <= |x|
    requires forall c :: 0 <= c < n ==> row[c] == if r == c then 1.0 else 0.0
    ensures DotTo(row, x, n) == if r < n then x[r] else 0.0
  {
    if n > 0 {
      DotUnitRow(row, x, n - 1, r);
    }
  }

  /** A system whose coefficient part is the identity has exactly its last column as solution. */
  lemma IdentitySolutions(m: Matrix)
    requires IdentityPart(m) && |m| > 0
    ensures forall x :: Satisfies(m, x, false) <==> x == Column(m, |m|)
  {
    var n := |m|;
    var col := Column(m, n);
    forall x ensures Satisfies(m, x, false) <==> x == col {
      if |x| == n {
        forall r | 0 <= r < n ensures DotTo(m[r], x, n) == x[r] {
          DotUnitRow(m[r], x, n, r);
        }
        if Satisfies(m, x, false) {
          forall r | 0 <= r < n ensures x[r] == col[r] {
            assert RowHolds(m[r], x, false);
          }
          assert x == col;
        }
      } else {
        assert !RowHolds(m[0], x, false);
      }
    }
  }

  lemma {:induction false} DotPrefix(row: Row, row': Row, x: seq<real>, n: nat)
    requires n <= |row| && n <= |row'| && n <= |x|
    requires forall c :: 0 <= c < n ==> row[c] == row'[c]
    ensures DotTo(row, x, n) == DotTo(row', x, n)
  {
    if n > 0 {
      DotPrefix(row, row', x, n - 1);
    }
  }

  lemma AugmentRow(a: Matrix, b: seq<real>, x: seq<real>, r: nat)
    requires Square(a) && |b| == |a| && |x| == |a| && r < |a|
    ensures DotTo(Augment(a, b)[r], x, |a|) == DotTo(a[r], x, |a|)
    ensures Augment(a, b)[r][|a|] == b[r]
  {
    DotPrefix(Augment(a, b)[r], a[r], x, |a|);
  }

  lemma AugmentSatisfiesAt(a: Matrix, b: seq<real>, x: seq<real>, hom: bool)
    requires Square(a) && |b| == |a| && |a| > 0
    ensures Satisfies(Augment(a, b), x, hom)
        <==> |x| == |a| && forall r :: 0 <= r < |a| ==> DotTo(a[r], x, |a|) == if hom then 0.0 else b[r]
  {
    var m := Augment(a, b);
    var n := |a|;
    if |x| == n {
      forall r | 0 <= r < n ensures RowHolds(m[r], x, hom) <==> DotTo(a[r], x, n) == if hom then 0.0 else b[r] {
        AugmentRow(a, b, x, r);
      }
    } else {
      assert !RowHolds(m[0], x, hom);
    }
  }

  /** Solutions and kernel vectors of Augment(a, b) are those of a * x == b and a * y == 0. */
  lemma AugmentSatisfies(a: Matrix, b: seq<real>)
    requires Square(a) && |b| == |a| && |a| > 0
    ensures forall x :: Satisfies(Augment(a, b), x, false) <==> IsSolution(a, b, x)
    ensures forall y :: Satisfies(Augment(a, b), y, true) <==> |y| == |a| && MatVec(a, y) == Zeros(|a|)
  {
    var n := |a|;
    forall x ensures Satisfies(Augment(a, b), x, false) <==> IsSolution(a, b, x) {
      AugmentSatisfiesAt(a, b, x, false);
      if |x| == n {
        assert (forall r :: 0 <= r < n ==> DotTo(a[r], x, n) == b[r]) <==> MatVec(a, x) == b;
      }
    }
    forall y ensures Satisfies(Augment(a, b), y, true) <==> |y| == n && MatVec(a, y) == Zeros(n) {
      AugmentSatisfiesAt(a, b, y, true);
      if |y| == n {
        if forall r :: 0 <= r < n ==> DotTo(a[r], y, n) == 0.0 {
          assert MatVec(a, y) == Zeros(n);
        }
        if MatVec(a, y) == Zeros(n) {
          forall r | 0 <= r < n ensures DotTo(a[r], y, n) == 0.0 {
            assert MatVec(a, y)[r] == 0.0;
          }
        }
      }
    }
  }

  // ---------------------------------------------------------------------
  // A kernel vector when elimination gets stuck
  // ---------------------------------------------------------------------

  /**
   * Back substitution for the homogeneous system with unknown i set to 1 and
   * unknowns after i set to 0; entries before r are still 0.
   */
  ghost function KernelWitness(m: Matrix, i: nat, r: nat): (y: seq<real>)
    requires Augmented(m) && r <= i < |m|
    ensures |y| == |m|
    decreases i - r
  {
    if r == i then seq(|m|, c => if c == i then 1.0 else 0.0)
    else
      var z := KernelWitness(m, i, r + 1);
      z[r := -DotTo(m[r], z, |m|)]
  }

  lemma {:induction false} DotUpdate(row: Row, z: seq<real>, r: nat, v: real, n: nat)
    requires n <= |row| && n <= |z| && r < |z|
    ensures DotTo(row, z[r := v], n) == DotTo(row, z, n) + (if r < n then row[r] * (v - z[r]) else 0.0)
  {
    if n > 0 {
      DotUpdate(row, z, r, v, n - 1);
    }
  }

  lemma {:induction false} DotZeroTerms(row: Row, x: seq<real>, n: nat)
    requires n <= |row| && n <= |x|
    requires forall c :: 0 <= c < n ==> row[c] == 0.0 || x[c] == 0.0
    ensures DotTo(row, x, n) == 0.0
  {
    if n > 0 {
      DotZeroTerms(row, x, n - 1);
    }
  }

  /** Column i is zero from row i down, while the pivots before i are done. */
  ghost predicate StuckAt(m: Matrix, i: nat) {
    Echelon(m, i) && i < |m| && forall q :: i <= q < |m| ==> m[q][i] == 0.0
  }

  lemma {:induction false} KernelWitnessRows(m: Matrix, i: nat, r: nat)
    requires StuckAt(m, i) && r <= i
    ensures var y := KernelWitness(m, i, r);
      && y[i] == 1.0
      && (forall c :: i < c < |m| ==> y[c] == 0.0)
      && (forall c :: 0 <= c < r ==> y[c] == 0.0)
      && (forall q :: r <= q < i ==> DotTo(m[q], y, |m|) == 0.0)
    decreases i - r
  {
    if r < i {
      KernelWitnessRows(m, i, r + 1);
      var n := |m|;
      var z := KernelWitness(m, i, r + 1);
      var v := -DotTo(m[r], z, n);
      var y := z[r := v];
      assert y == KernelWitness(m, i, r);
      forall q | r <= q < i ensures DotTo(m[q], y, n) == 0.0 {
        DotUpdate(m[q], z, r, v, n);
        if q == r {
          assert m[r][r] == 1.0;
        } else {
          assert m[q][r] == 0.0;
        }
      }
    }
  }

  /** A stuck elimination exhibits a nonzero kernel vector of the reduced system. */
  lemma StuckHasKernel(m: Matrix, i: nat) returns (y: seq<real>)
    requires StuckAt(m, i)
    ensures |y| == |m| && y != Zeros(|m|) && Satisfies(m, y, true)
  {
    y := KernelWitness(m, i, 0);
    KernelWitnessRows(m, i, 0);
    var n := |m|;
    assert y[i] != Zeros(n)[i];
    forall q | 0 <= q < n ensures RowHolds(m[q], y, true) {
      if q >= i {
        DotZeroTerms(m[q], y, n);
      }
    }
  }

  // ---------------------------------------------------------------------
  // Uniqueness
  // ---------------------------------------------------------------------

  function Add(x: seq<real>, y: seq<real>): (s: seq<real>)
    requires |x| == |y|
    ensures |s| == |x| && forall k :: 0 <= k < |x| ==> s[k] == x[k] + y[k]
  {
    seq(|x|, k requires 0 <= k < |x| => x[k] + y[k])
  }

  lemma {:induction false} DotAdd(row: Row, x: seq<real>, y: seq<real>, n: nat)
    requires |x| == |y| && n <= |row| && n <= |x|
    ensures DotTo(row, Add(x, y), n) == DotTo(row, x, n) + DotTo(row, y, n)
  {
    if n > 0 {
      DotAdd(row, x, y, n - 1);
    }
  }

  /** A system with exactly one solution has a trivial kernel. */
  lemma UniqueSolutionNotSingular(a: Matrix, b: seq<real>, c: seq<real>)
    requires Square(a) && |b| == |a|
    requires forall x :: IsSolution(a, b, x) <==> x == c
    ensures !Singular(a)
  {
    var n := |a|;
    assert IsSolution(a, b, c);
    forall y | |y| == n && MatVec(a, y) == Zeros(n) ensures y == Zeros(n) {
      var s := Add(c, y);
      forall r | 0 <= r < n ensures MatVec(a, s)[r] == b[r] {
        DotAdd(a[r], c, y, n);
        assert MatVec(a, c)[r] == b[r] && MatVec(a, y)[r] == 0.0;
      }
      assert MatVec(a, s) == b;
      assert IsSolution(a, b, s);
      assert s == c;
      forall k | 0 <= k < n ensures y[k] == 0.0 {
        assert s[k] == c[k];
      }
    }
  }
}
