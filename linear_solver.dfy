/**
 * The dense linear solver of linear-system-solver/linear_solver.hpp with the
 * scalar type T instantiated to the exact field `real`.
 *
 * `std::vector<std::vector<T>>& mat` is an array of rows: the outer vector
 * never changes its length, and each row is a sequence that the algorithm
 * replaces when it grows (push_back) or changes one entry. `std::vector<T>& vec`
 * is an array of scalars.
 */
module LinearSystemSolver {
  import opened SolverSpec

  // ---------------------------------------------------------------------
  // Shapes the elimination passes through
  // ---------------------------------------------------------------------

  /** Pivot i is scaled to 1 and the rows i+1 .. i2-1 are already zero in column i. */
  ghost predicate Eliminating(m: Matrix, i: nat, i2: nat) {
    Echelon(m, i) && i < |m| && m[i][i] == 1.0 && forall r :: i < r < i2 && r < |m| ==> m[r][i] == 0.0
  }

  /** Columns c with from <= c < |m| are unit columns. */
  ghost predicate ColumnsDone(m: Matrix, from: nat) {
    && Augmented(m)
    && forall r, c :: 0 <= r < |m| && from <= c < |m| ==> m[r][c] == if r == c then 1.0 else 0.0
  }

  /** Back substitution is clearing column col and has cleared it in rows j .. col-1. */
  ghost predicate Clearing(m: Matrix, col: nat, j: nat) {
    UnitUpper(m) && col < |m| && ColumnsDone(m, col + 1) && forall r :: j <= r < col ==> m[r][col] == 0.0
  }

  /** Moving a later row up to position i keeps the finished pivots. */
  lemma SwapKeepsEchelon(m: Matrix, i: nat, k: nat)
    requires Echelon(m, i) && i <= k < |m| && i < |m|
    ensures Echelon(Swap(m, i, k), i)
  {
    var m' := Swap(m, i, k);
    forall r, c | 0 <= c < r < |m| && c < i ensures m'[r][c] == 0.0 {
      if r == i {
        assert m'[r] == m[k];
      } else if r == k {
        assert m'[r] == m[i];
      }
    }
  }

  /** Dividing row i by its nonzero pivot keeps the finished pivots and makes the pivot 1. */
  lemma ScaleKeepsEchelon(m: Matrix, i: nat)
    requires Echelon(m, i) && i < |m| && m[i][i] != 0.0
    ensures Eliminating(m[i := ScaledRow(m[i], m[i][i])], i, i + 1)
  {
    var m' := m[i := ScaledRow(m[i], m[i][i])];
    forall r, c | 0 <= c < r < |m'| && c < i ensures m'[r][c] == 0.0 {
      if r == i {
        assert m'[r][c] == m[i][c] / m[i][i];
      }
    }
  }

  /** Subtracting row i scaled by m[i2][i] clears column i in row i2. */
  lemma EliminateKeepsShape(m: Matrix, i: nat, i2: nat)
    requires Eliminating(m, i, i2) && i < i2 < |m|
    ensures Eliminating(m[i2 := RowMinus(m[i2], m[i], m[i2][i] / m[i][i])], i, i2 + 1)
  {
    var s := m[i2][i] / m[i][i];
    var m' := m[i2 := RowMinus(m[i2], m[i], s)];
    forall r, c | 0 <= c < r < |m'| && c < i ensures m'[r][c] == 0.0 {
      if r == i2 {
        assert m'[r][c] == m[i2][c] - m[i][c] * s;
      }
    }
    assert m'[i2][i] == m[i2][i] - 1.0 * s;
  }

  /** All rows below pivot i are zero in column i: pivot i is finished. */
  lemma EliminatedIsEchelon(m: Matrix, i: nat)
    requires Eliminating(m, i, |m|)
    ensures Echelon(m, i + 1)
  {
  }

  lemma StuckWhenNoPivot(m: Matrix, i: nat)
    requires Echelon(m, i) && i < |m| && m[i][i] == 0.0
    requires FirstNonzeroBelow(m, i, i + 1) == |m|
    ensures StuckAt(m, i)
  {
  }

  /** Subtracting pivot row col scaled by m[j][col] clears row j in column col. */
  lemma ClearKeepsShape(m: Matrix, col: nat, j: nat)
    requires Clearing(m, col, j + 1) && j < col
    ensures Clearing(m[j := RowMinus(m[j], m[col], m[j][col])], col, j)
  {
    var s := m[j][col];
    var m' := m[j := RowMinus(m[j], m[col], s)];
    forall c | 0 <= c < |m| ensures m'[j][c] == if c == col then 0.0 else m[j][c] {
      assert m'[j][c] == m[j][c] - m[col][c] * s;
      if c < col {
        assert m[col][c] == 0.0;
      } else if c > col {
        assert m[col][c] == 0.0;
      }
    }
  }

  lemma ClearedColumn(m: Matrix, col: nat)
    requires Clearing(m, col, 0)
    ensures ColumnsDone(m, col)
  {
  }

  lemma DoneIsIdentity(m: Matrix)
    requires UnitUpper(m) && |m| > 0 && ColumnsDone(m, 1)
    ensures IdentityPart(m)
  {
  }

  /** A system with identity coefficients is the identity augmented with its last column. */
  lemma IdentityPartIsAugmentedIdentity(m: Matrix)
    requires IdentityPart(m)
    ensures m == Augment(Identity(|m|), Column(m, |m|))
  {
    var n := |m|;
    var e := Augment(Identity(n), Column(m, n));
    forall r | 0 <= r < n ensures m[r] == e[r] {
      assert |m[r]| == |e[r]|;
      forall c | 0 <= c <= n ensures m[r][c] == e[r][c] {
        if c < n {
          assert e[r][c] == Identity(n)[r][c];
        }
      }
    }
  }

  /** No nonzero entry at or below pivot i of an echelon form of [a | b]: a is singular. */
  lemma NoPivotIsSingular(m: Matrix, i: nat, a: Matrix, b: seq<real>)
    requires Square(a) && |b| == |a| && |m| == |a| && SameSolutions(m, Augment(a, b))
    requires Echelon(m, i) && i < |m| && m[i][i] == 0.0
    requires FirstNonzeroBelow(m, i, i + 1) == |m|
    ensures Singular(a)
  {
    StuckWhenNoPivot(m, i);
    var y := StuckHasKernel(m, i);
    assert Satisfies(Augment(a, b), y, true);
    AugmentSatisfies(a, b);
    assert MatVec(a, y) == Zeros(|a|);
  }

  /** [I | c] with the solutions of [a | b]: c is the only solution of a * x == b. */
  lemma ReducedIsSolved(m: Matrix, a: Matrix, b: seq<real>)
    requires Square(a) && |b| == |a| && |m| == |a| && |a| > 0 && SameSolutions(m, Augment(a, b))
    requires IdentityPart(m)
    ensures forall x :: IsSolution(a, b, x) <==> x == Column(m, |m|)
    ensures !Singular(a)
    ensures m == Augment(Identity(|m|), Column(m, |m|))
  {
    var aug := Augment(a, b);
    IdentitySolutions(m);
    AugmentSatisfies(a, b);
    forall x ensures IsSolution(a, b, x) <==> x == Column(m, |m|) {
      assert IsSolution(a, b, x) <==> Satisfies(aug, x, false);
      assert Satisfies(aug, x, false) <==> Satisfies(m, x, false);
    }
    UniqueSolutionNotSingular(a, b, Column(m, |m|));
    IdentityPartIsAugmentedIdentity(m);
  }

  // ---------------------------------------------------------------------
  // The solver
  // ---------------------------------------------------------------------

  /**
   * SwapRows: find the first row below `row` with a nonzero entry in column
   * `row`, swap it with row `row`, and report whether one was found.
   */
  method SwapRows(row: nat, mat: array<seq<real>>) returns (found: bool)
    requires row < mat.Length
    requires forall r :: row < r < mat.Length ==> row < |mat[r]|
    modifies mat
    ensures var k := FirstNonzeroBelow(old(mat[..]), row, row + 1);
      && found == (k < mat.Length)
      && mat[..] == if found then Swap(old(mat[..]), row, k) else old(mat[..])
  {
    var i2 := row + 1;
    while i2 < mat.Length
      invariant row + 1 <= i2 <= mat.Length
      invariant mat[..] == old(mat[..])
      invariant forall r :: row + 1 <= r < i2 ==> mat[r][row] == 0.0
    {
      if mat[i2][row] != 0.0 {
        FirstNonzeroBelowUnique(mat[..], row, row + 1, i2);
        mat[row], mat[i2] := mat[i2], mat[row];
        break;
      }
      i2 := i2 + 1;
    }
    if i2 == mat.Length {
      FirstNonzeroBelowUnique(mat[..], row, row + 1, i2);
      return false;
    }
    return true;
  }

  /** ScaleRowWithPivot: divide row `row` by its pivot, unless the pivot is zero. */
  method ScaleRowWithPivot(row: nat, mat: array<seq<real>>)
    requires row < mat.Length && row < |mat[row]|
    modifies mat
    ensures old(mat[row][row]) == 0.0 ==> mat[..] == old(mat[..])
    ensures old(mat[row][row]) != 0.0 ==>
      mat[..] == old(mat[..])[row := ScaledRow(old(mat[row]), old(mat[row][row]))]
  {
    var scale := mat[row][row];
    if scale == 0.0 {
      return;
    }
    for j := 0 to |mat[row]|
      invariant |mat[row]| == |old(mat[row])|
      invariant forall k :: 0 <= k < j ==> mat[row][k] == old(mat[row][k]) / scale
      invariant forall k :: j <= k < |mat[row]| ==> mat[row][k] == old(mat[row][k])
      invariant forall r :: 0 <= r < mat.Length && r != row ==> mat[r] == old(mat[r])
    {
      mat[row] := mat[row][j := mat[row][j] / scale];
    }
    assert mat[row] == ScaledRow(old(mat[row]), scale);
    assert mat[..] == old(mat[..])[row := ScaledRow(old(mat[row]), scale)];
  }

  /**
   * The row update both elimination passes perform:
   * mat[target][k] -= mat[source][k] * scale for every k of the target row.
   */
  method SubtractScaledRow(target: nat, source: nat, scale: real, mat: array<seq<real>>)
    requires target < mat.Length && source < mat.Length && target != source
    requires |mat[target]| <= |mat[source]|
    modifies mat
    ensures mat[..] == old(mat[..])[target := RowMinus(old(mat[target]), old(mat[source]), scale)]
  {
    for k := 0 to |mat[target]|
      invariant |mat[target]| == |old(mat[target])|
      invariant forall c :: 0 <= c < k ==> mat[target][c] == old(mat[target][c]) - old(mat[source][c]) * scale
      invariant forall c :: k <= c < |mat[target]| ==> mat[target][c] == old(mat[target][c])
      invariant forall r :: 0 <= r < mat.Length && r != target ==> mat[r] == old(mat[r])
    {
      mat[target] := mat[target][k := mat[target][k] - mat[source][k] * scale];
    }
    ghost var expected := RowMinus(old(mat[target]), old(mat[source]), scale);
    assert forall c :: 0 <= c < |expected| ==> mat[target][c] == expected[c];
    assert mat[target] == expected;
    assert mat[..] == old(mat[..])[target := RowMinus(old(mat[target]), old(mat[source]), scale)];
  }

  /**
   * BackSubstitution: for each column i from the last down to 1, subtract
   * row i scaled by mat[j][i] from every row j above it.
   */
  method BackSubstitution(mat: array<seq<real>>)
    requires mat.Length > 0 && Augmented(mat[..])
    modifies mat
    ensures Augmented(mat[..])
    ensures SameSolutions(mat[..], old(mat[..]))
    ensures UnitUpper(old(mat[..])) ==> IdentityPart(mat[..])
  {
    ghost var unit := UnitUpper(mat[..]);
    var n := mat.Length;
    for i := n downto 1
      invariant Augmented(mat[..])
      invariant SameSolutions(mat[..], old(mat[..]))
      invariant unit ==> UnitUpper(mat[..]) && ColumnsDone(mat[..], i)
    {
      for j := i downto 0
        invariant Augmented(mat[..])
        invariant SameSolutions(mat[..], old(mat[..]))
        invariant unit ==> Clearing(mat[..], i, j)
      {
        var scale := mat[j][i];
        ghost var before := mat[..];
        SubtractScaledRow(j, i, scale, mat);
        SubtractSameSolutions(before, j, i, scale);
        SameSolutionsTrans(mat[..], before, old(mat[..]));
        if unit {
          ClearKeepsShape(before, i, j);
        }
      }
      if unit {
        ClearedColumn(mat[..], i);
      }
    }
    if unit {
      DoneIsIdentity(mat[..]);
    }
  }

  /**
   * One pass of the pivot loop of linear_solver for column i: find a
   * nonzero pivot (swapping a later row up if needed), scale the pivot row
   * to make it 1, and subtract multiples of it from the rows below. Returns
   * false, with nothing changed, when column i has no nonzero entry at or
   * below row i.
   */
  method EliminateColumn(i: nat, mat: array<seq<real>>) returns (found: bool)
    requires i < mat.Length && Echelon(mat[..], i)
    modifies mat
    ensures SameSolutions(mat[..], old(mat[..]))
    ensures found ==> Echelon(mat[..], i + 1)
    ensures !found ==> mat[..] == old(mat[..]) && mat[i][i] == 0.0 && FirstNonzeroBelow(mat[..], i, i + 1) == mat.Length
  {
    found := true;
    if mat[i][i] == 0.0 {
      ghost var before := mat[..];
      found := SwapRows(i, mat);
      if !found {
        return false;
      }
      ghost var k := FirstNonzeroBelow(before, i, i + 1);
      SwapKeepsEchelon(before, i, k);
      SwapSameSolutions(before, i, k);
      SameSolutionsTrans(mat[..], before, old(mat[..]));
    }

    ghost var before := mat[..];
    ScaleRowWithPivot(i, mat);
    ScaleKeepsEchelon(before, i);
    ScaleSameSolutions(before, i, before[i][i]);
    SameSolutionsTrans(mat[..], before, old(mat[..]));

    for i2 := i + 1 to mat.Length
      invariant Eliminating(mat[..], i, i2)
      invariant SameSolutions(mat[..], old(mat[..]))
    {
      if mat[i2][i] == 0.0 {
        continue;
      }
      var scale := mat[i2][i] / mat[i][i];
      if |mat[i2]| != |mat[i]| {
        assert false;
        return false;
      }
      ghost var prev := mat[..];
      SubtractScaledRow(i2, i, scale, mat);
      EliminateKeepsShape(prev, i, i2);
      SubtractSameSolutions(prev, i2, i, scale);
      SameSolutionsTrans(mat[..], prev, old(mat[..]));
    }
    EliminatedIsEchelon(mat[..], i);
  }

  /**
   * linear_solver: solve mat * x == vec by Gauss-Jordan elimination. On
   * success vec holds the unique solution and mat is the identity augmented
   * with it; the result is false exactly when the sizes differ or the system
   * is singular.
   */
  method LinearSolver(mat: array<seq<real>>, vec: array<real>) returns (ok: bool)
    requires mat.Length == vec.Length ==> mat.Length > 0 && Square(mat[..])
    modifies mat, vec
    ensures mat.Length != vec.Length ==> !ok && mat[..] == old(mat[..]) && vec[..] == old(vec[..])
    ensures !ok ==> vec[..] == old(vec[..])
    ensures mat.Length == vec.Length ==>
      && Augmented(mat[..])
      && SameSolutions(mat[..], Augment(old(mat[..]), old(vec[..])))
      && (ok <==> !Singular(old(mat[..])))
    ensures ok ==> forall x :: IsSolution(old(mat[..]), old(vec[..]), x) <==> x == vec[..]
    ensures ok ==> mat[..] == Augment(Identity(mat.Length), vec[..])
  {
    if mat.Length != vec.Length {
      return false;
    }
    ghost var a0, b0 := mat[..], vec[..];
    ghost var aug := Augment(a0, b0);
    var n := mat.Length;

    // Append vec[i] to row i.
    for i := 0 to n
      invariant forall r :: 0 <= r < i ==> mat[r] == a0[r] + [b0[r]]
      invariant forall r :: i <= r < n ==> mat[r] == a0[r]
      invariant vec[..] == b0
    {
      mat[i] := mat[i] + [vec[i]];
    }
    assert mat[..] == aug;

    // Forward elimination: pivots 0 .. i-1 are finished.
    for i := 0 to n
      invariant Echelon(mat[..], i)
      invariant SameSolutions(mat[..], aug)
      invariant vec[..] == b0
    {
      ghost var before := mat[..];
      var found := EliminateColumn(i, mat);
      if !found {
        NoPivotIsSingular(mat[..], i, a0, b0);
        return false;
      }
      SameSolutionsTrans(mat[..], before, aug);
    }

    ghost var triangular := mat[..];
    BackSubstitution(mat);
    SameSolutionsTrans(mat[..], triangular, aug);

    // Read the solution off the last column.
    for i := 0 to n
      invariant IdentityPart(mat[..])
      invariant forall r :: 0 <= r < i ==> vec[r] == mat[r][n]
      invariant SameSolutions(mat[..], aug)
    {
      vec[i] := mat[i][n];
    }
    assert vec[..] == Column(mat[..], n);
    ReducedIsSolved(mat[..], a0, b0);
    return true;
  }
}
