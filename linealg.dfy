/**
 * vector/linealg.h: `Matrix4 * Vector4` and `Matrix4 * Vector3`. Both read
 * the matrix column-major: entry r + 4 * c is row r of column c. The
 * matrix is passed as its sixteen entries, `mat.m[..]`.
 */
module LinAlg {
  import opened Vec3
  import opened Vec4
  import opened Mat4

  /** Component r of a column-major product: v.x * a[r] + v.y * a[r + 4] + v.z * a[r + 8] + v.w * a[r + 12]. */
  function Row(a: seq<real>, v: Vector4, r: nat): real
    requires |a| == 16 && r < 4
  {
    v.x * a[r] + v.y * a[r + 4] + v.z * a[r + 8] + v.w * a[r + 12]
  }

  /** `operator*(const Matrix4&, const Vector4&)`. */
  function MulVector4(a: seq<real>, v: Vector4): Vector4
    requires |a| == 16
  {
    Vec4.Make(Row(a, v, 0), Row(a, v, 1), Row(a, v, 2), Row(a, v, 3))
  }

  /** Component r of the Vector3 product: the Vector4 row with an implicit w of 1. */
  function AffineRow(a: seq<real>, v: Vector3, r: nat): real
    requires |a| == 16 && r < 4
  {
    v.x * a[r] + v.y * a[r + 4] + v.z * a[r + 8] + a[r + 12]
  }

  /**
   * `operator*(const Matrix4&, const Vector3&)`: a Vector4 is built from the
   * four affine rows and returned as its Vector3 part.
   */
  function MulVector3(a: seq<real>, v: Vector3): Vector3
    requires |a| == 16
  {
    Xyz(Vec4.Make(AffineRow(a, v, 0), AffineRow(a, v, 1), AffineRow(a, v, 2), AffineRow(a, v, 3)))
  }

  /** The identity matrix leaves every Vector4 and every Vector3 unchanged. */
  lemma IdentityFixesVectors(v: Vector4, u: Vector3)
    ensures MulVector4(IdentityEntries(), v) == v
    ensures MulVector3(IdentityEntries(), u) == u
  {
  }

  /** The unit vectors pick out the columns of a matrix built from columns. */
  lemma BasisPicksColumns(c1: Vector4, c2: Vector4, c3: Vector4, c4: Vector4)
    ensures MulVector4(ColumnEntries(c1, c2, c3, c4), Vector4(1.0, 0.0, 0.0, 0.0)) == c1
    ensures MulVector4(ColumnEntries(c1, c2, c3, c4), Vector4(0.0, 1.0, 0.0, 0.0)) == c2
    ensures MulVector4(ColumnEntries(c1, c2, c3, c4), Vector4(0.0, 0.0, 1.0, 0.0)) == c3
    ensures MulVector4(ColumnEntries(c1, c2, c3, c4), Vector4(0.0, 0.0, 0.0, 1.0)) == c4
  {
  }

  /**
   * The Vector3 product is the x, y, z of the Vector4 product with w = 1:
   * the computed w is dropped and nothing is divided by it.
   */
  lemma MulVector3IsSlicedMulVector4(a: seq<real>, v: Vector3)
    requires |a| == 16
    ensures MulVector3(a, v) == Xyz(MulVector4(a, FromVector3(v, 1.0)))
  {
    AffineRowIsRow(a, v, 0);
    AffineRowIsRow(a, v, 1);
    AffineRowIsRow(a, v, 2);
  }

  lemma AffineRowIsRow(a: seq<real>, v: Vector3, r: nat)
    requires |a| == 16 && r < 4
    ensures AffineRow(a, v, r) == Row(a, FromVector3(v, 1.0), r)
  {
  }

  /**
   * Entries 12, 13 and 14 are a translation: for two matrices that agree
   * on entries 0..11, the Vector3 products differ by exactly the difference
   * of those entries, and Vector4 products with w = 0 are equal.
   */
  lemma TranslationColumn(a: seq<real>, b: seq<real>, v: Vector3, d: Vector4)
    requires |a| == 16 && |b| == 16 && a[..12] == b[..12]
    ensures MulVector3(a, v) == Add(MulVector3(b, v), Vector3(a[12] - b[12], a[13] - b[13], a[14] - b[14]))
    ensures d.w == 0.0 ==> MulVector4(a, d) == MulVector4(b, d)
  {
    forall i | 0 <= i < 12
      ensures a[i] == b[i]
    {
      assert a[i] == a[..12][i] && b[i] == b[..12][i];
    }
    TranslationRow(a, b, v, d, 0);
    TranslationRow(a, b, v, d, 1);
    TranslationRow(a, b, v, d, 2);
    TranslationRow(a, b, v, d, 3);
  }

  /** One row of TranslationColumn. */
  lemma TranslationRow(a: seq<real>, b: seq<real>, v: Vector3, d: Vector4, r: nat)
    requires |a| == 16 && |b| == 16 && r < 4
    requires a[r] == b[r] && a[r + 4] == b[r + 4] && a[r + 8] == b[r + 8]
    ensures AffineRow(a, v, r) == AffineRow(b, v, r) + (a[r + 12] - b[r + 12])
    ensures d.w == 0.0 ==> Row(a, d, r) == Row(b, d, r)
  {
  }

  /**
   * The product `a * b` of matrix4.h applied to a vector is b applied after a:
   * (a * b) * v == b * (a * v).
   */
  lemma ProductActsInReverse(a: seq<real>, b: seq<real>, v: Vector4)
    requires |a| == 16 && |b| == 16
    ensures MulVector4(Product(a, b), v) == MulVector4(b, MulVector4(a, v))
  {
    RowReverse(a, b, v, 0, 4, 8, 12);
    RowReverse(a, b, v, 1, 5, 9, 13);
    RowReverse(a, b, v, 2, 6, 10, 14);
    RowReverse(a, b, v, 3, 7, 11, 15);
  }

  /**
   * Entry i == r + 4 * c of the product, with the indices of its four terms
   * given explicitly: k0..k3 run down column c of a, r4, r8, r12 along row r of b.
   */
  lemma ProductEntry(a: seq<real>, b: seq<real>, r: nat, c: nat, i: nat,
                     k0: nat, k1: nat, k2: nat, k3: nat, r4: nat, r8: nat, r12: nat)
    requires |a| == 16 && |b| == 16 && r < 4 && c < 4 && i == r + 4 * c
    requires k0 == 4 * c && k1 == k0 + 1 && k2 == k0 + 2 && k3 == k0 + 3
    requires r4 == r + 4 && r8 == r + 8 && r12 == r + 12
    ensures Product(a, b)[i] == a[k0] * b[r] + a[k1] * b[r4] + a[k2] * b[r8] + a[k3] * b[r12]
  {
    IndexSplit(r, c);
    ProductSumFour(a, b, r, c);
  }

  /** Row r of ProductActsInReverse; r4, r8 and r12 are the indices of row r in columns 1, 2 and 3. */
  lemma RowReverse(a: seq<real>, b: seq<real>, v: Vector4, r: nat, r4: nat, r8: nat, r12: nat)
    requires |a| == 16 && |b| == 16 && r < 4 && r4 == r + 4 && r8 == r + 8 && r12 == r + 12
    ensures Row(Product(a, b), v, r) == Row(b, MulVector4(a, v), r)
  {
    RowOfProduct(a, b, v, r, r4, r8, r12);
    RowOfComposite(a, b, v, r, r4, r8, r12);
  }

  /** Row r of the product, with its entries written out as sums. */
  lemma RowOfProduct(a: seq<real>, b: seq<real>, v: Vector4, r: nat, r4: nat, r8: nat, r12: nat)
    requires |a| == 16 && |b| == 16 && r < 4 && r4 == r + 4 && r8 == r + 8 && r12 == r + 12
    ensures Row(Product(a, b), v, r)
      == v.x * (a[0] * b[r] + a[1] * b[r4] + a[2] * b[r8] + a[3] * b[r12])
       + v.y * (a[4] * b[r] + a[5] * b[r4] + a[6] * b[r8] + a[7] * b[r12])
       + v.z * (a[8] * b[r] + a[9] * b[r4] + a[10] * b[r8] + a[11] * b[r12])
       + v.w * (a[12] * b[r] + a[13] * b[r4] + a[14] * b[r8] + a[15] * b[r12])
  {
    ProductEntry(a, b, r, 0, r, 0, 1, 2, 3, r4, r8, r12);
    ProductEntry(a, b, r, 1, r4, 4, 5, 6, 7, r4, r8, r12);
    ProductEntry(a, b, r, 2, r8, 8, 9, 10, 11, r4, r8, r12);
    ProductEntry(a, b, r, 3, r12, 12, 13, 14, 15, r4, r8, r12);
    RowOfEntries(Product(a, b), v, r,
      a[0] * b[r] + a[1] * b[r4] + a[2] * b[r8] + a[3] * b[r12],
      a[4] * b[r] + a[5] * b[r4] + a[6] * b[r8] + a[7] * b[r12],
      a[8] * b[r] + a[9] * b[r4] + a[10] * b[r8] + a[11] * b[r12],
      a[12] * b[r] + a[13] * b[r4] + a[14] * b[r8] + a[15] * b[r12]);
  }

  /** Row r depends on the four entries of row r only. */
  lemma RowOfEntries(p: seq<real>, v: Vector4, r: nat, s0: real, s1: real, s2: real, s3: real)
    requires |p| == 16 && r < 4 && p[r] == s0 && p[r + 4] == s1 && p[r + 8] == s2 && p[r + 12] == s3
    ensures Row(p, v, r) == v.x * s0 + v.y * s1 + v.z * s2 + v.w * s3
  {
  }

  /** Row r of b applied to a * v, regrouped into the same sums. */
  lemma RowOfComposite(a: seq<real>, b: seq<real>, v: Vector4, r: nat, r4: nat, r8: nat, r12: nat)
    requires |a| == 16 && |b| == 16 && r < 4 && r4 == r + 4 && r8 == r + 8 && r12 == r + 12
    ensures Row(b, MulVector4(a, v), r)
      == v.x * (a[0] * b[r] + a[1] * b[r4] + a[2] * b[r8] + a[3] * b[r12])
       + v.y * (a[4] * b[r] + a[5] * b[r4] + a[6] * b[r8] + a[7] * b[r12])
       + v.z * (a[8] * b[r] + a[9] * b[r4] + a[10] * b[r8] + a[11] * b[r12])
       + v.w * (a[12] * b[r] + a[13] * b[r4] + a[14] * b[r8] + a[15] * b[r12])
  {
    RowAlgebra(v.x, v.y, v.z, v.w, a[0], a[1], a[2], a[3], a[4], a[5], a[6], a[7],
      a[8], a[9], a[10], a[11], a[12], a[13], a[14], a[15],
      b[r], b[r4], b[r8], b[r12]);
  }

  /** The ring identity behind RowReverse, over plain variables. */
  lemma RowAlgebra(v0: real, v1: real, v2: real, v3: real,
                   a0: real, a1: real, a2: real, a3: real, a4: real, a5: real, a6: real, a7: real,
                   a8: real, a9: real, a10: real, a11: real, a12: real, a13: real, a14: real, a15: real,
                   b0: real, b1: real, b2: real, b3: real)
    ensures v0 * (a0 * b0 + a1 * b1 + a2 * b2 + a3 * b3)
          + v1 * (a4 * b0 + a5 * b1 + a6 * b2 + a7 * b3)
          + v2 * (a8 * b0 + a9 * b1 + a10 * b2 + a11 * b3)
          + v3 * (a12 * b0 + a13 * b1 + a14 * b2 + a15 * b3)
      == (v0 * a0 + v1 * a4 + v2 * a8 + v3 * a12) * b0
       + (v0 * a1 + v1 * a5 + v2 * a9 + v3 * a13) * b1
       + (v0 * a2 + v1 * a6 + v2 * a10 + v3 * a14) * b2
       + (v0 * a3 + v1 * a7 + v2 * a11 + v3 * a15) * b3
  {
  }
}
