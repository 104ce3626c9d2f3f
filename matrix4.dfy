/**
 * vector/matrix4.h: `Matrix4<T>`, sixteen scalars in a fixed array `m`.
 * The array is kept: `zero` and `identity` fill it, `operator[]` reads and
 * writes single entries, and `operator*` accumulates into a fresh result
 * in a triple loop. Entries are specified as a `seq<real>` of length 16;
 * entry (r, c) of the column-major reading is index r + 4 * c.
 */
module Mat4 {
  import opened Arith
  import opened Vec4

  /** The entries after `zero()`. */
  function ZeroEntries(): (s: seq<real>)
    ensures |s| == 16
  {
    seq(16, i => 0.0)
  }

  /** The entries after `identity()`: 1 at 0, 5, 10 and 15, 0 elsewhere. */
  function IdentityEntries(): (s: seq<real>)
    ensures |s| == 16
  {
    seq(16, i => if i == 0 || i == 5 || i == 10 || i == 15 then 1.0 else 0.0)
  }

  /** The entries stored by the column constructor: c1 in 0..3, c2 in 4..7, c3 in 8..11, c4 in 12..15. */
  function ColumnEntries(c1: Vector4, c2: Vector4, c3: Vector4, c4: Vector4): (s: seq<real>)
    ensures |s| == 16
  {
    [c1.x, c1.y, c1.z, c1.w,
     c2.x, c2.y, c2.z, c2.w,
     c3.x, c3.y, c3.z, c3.w,
     c4.x, c4.y, c4.z, c4.w]
  }

  /** The first n terms of the sum that `operator*` accumulates at index r + 4 * c. */
  function ProductSum(a: seq<real>, b: seq<real>, r: nat, c: nat, n: nat): real
    requires |a| == 16 && |b| == 16 && r < 4 && c < 4 && n <= 4
  {
    if n == 0 then 0.0 else ProductSum(a, b, r, c, n - 1) + a[(n - 1) + 4 * c] * b[r + 4 * (n - 1)]
  }

  /** The entries of `a * b`: index r + 4 * c holds the sum over k of a[k + 4 * c] * b[r + 4 * k]. */
  function Product(a: seq<real>, b: seq<real>): (p: seq<real>)
    requires |a| == 16 && |b| == 16
    ensures |p| == 16
  {
    seq(16, i requires 0 <= i < 16 => ProductSum(a, b, i % 4, i / 4, 4))
  }

  /** The four terms of an entry of the product, written out. */
  lemma ProductSumFour(a: seq<real>, b: seq<real>, r: nat, c: nat)
    requires |a| == 16 && |b| == 16 && r < 4 && c < 4
    ensures ProductSum(a, b, r, c, 4)
      == a[4 * c] * b[r] + a[1 + 4 * c] * b[r + 4] + a[2 + 4 * c] * b[r + 8] + a[3 + 4 * c] * b[r + 12]
  {
    assert ProductSum(a, b, r, c, 1) == a[4 * c] * b[r];
    assert ProductSum(a, b, r, c, 2) == ProductSum(a, b, r, c, 1) + a[1 + 4 * c] * b[r + 4];
    assert ProductSum(a, b, r, c, 3) == ProductSum(a, b, r, c, 2) + a[2 + 4 * c] * b[r + 8];
  }

  /** Index r + 4 * c splits back into r and c. */
  lemma IndexSplit(r: nat, c: nat)
    requires r < 4 && c < 4
    ensures (r + 4 * c) % 4 == r && (r + 4 * c) / 4 == c
  {
    DivModUnique(r + 4 * c, 4, c, r);
  }

  /** The identity entries are a left and a right unit of the product. */
  lemma IdentityIsUnit(a: seq<real>)
    requires |a| == 16
    ensures Product(IdentityEntries(), a) == a
    ensures Product(a, IdentityEntries()) == a
  {
    var e := IdentityEntries();
    forall i | 0 <= i < 16
      ensures Product(e, a)[i] == a[i] && Product(a, e)[i] == a[i]
    {
      var r, c := i % 4, i / 4;
      assert i == r + 4 * c;
      ProductSumFour(e, a, r, c);
      ProductSumFour(a, e, r, c);
    }
  }

  /** The zero entries annihilate the product on either side. */
  lemma ZeroAnnihilates(a: seq<real>)
    requires |a| == 16
    ensures Product(ZeroEntries(), a) == ZeroEntries()
    ensures Product(a, ZeroEntries()) == ZeroEntries()
  {
    var z := ZeroEntries();
    forall i | 0 <= i < 16
      ensures Product(z, a)[i] == 0.0 && Product(a, z)[i] == 0.0
    {
      var r, c := i % 4, i / 4;
      ProductSumFour(z, a, r, c);
      ProductSumFour(a, z, r, c);
    }
  }

  /**
   * The progress of `operator*`: entries before `cur` hold their full sum,
   * and the rest are still zero.
   */
  predicate Filled(res: seq<real>, a: seq<real>, b: seq<real>, cur: nat)
    requires |a| == 16 && |b| == 16
  {
    && |res| == 16
    && (forall i :: 0 <= i < 16 && i < cur ==> res[i] == ProductSum(a, b, i % 4, i / 4, 4))
    && (forall i :: cur <= i < 16 ==> res[i] == 0.0)
  }

  lemma FilledStart(a: seq<real>, b: seq<real>)
    requires |a| == 16 && |b| == 16
    ensures Filled(ZeroEntries(), a, b, 0)
  {
  }

  /** One step of the inner loop adds term k to the partial sum. */
  lemma SumStep(a: seq<real>, b: seq<real>, r: nat, c: nat, k: nat, term: real)
    requires |a| == 16 && |b| == 16 && r < 4 && c < 4 && k < 4
    requires term == a[k + 4 * c] * b[r + 4 * k]
    ensures ProductSum(a, b, r, c, k + 1) == ProductSum(a, b, r, c, k) + term
  {
  }

  /** Adding the full sum to entry cur, still zero, moves the frontier one index on. */
  lemma FilledEntry(res: seq<real>, res': seq<real>, a: seq<real>, b: seq<real>, r: nat, c: nat)
    requires |a| == 16 && |b| == 16 && r < 4 && c < 4
    requires Filled(res, a, b, r + 4 * c)
    requires res' == res[r + 4 * c := res[r + 4 * c] + ProductSum(a, b, r, c, 4)]
    ensures Filled(res', a, b, r + 4 * c + 1)
  {
    IndexSplit(r, c);
  }

  lemma FilledDone(res: seq<real>, a: seq<real>, b: seq<real>)
    requires |a| == 16 && |b| == 16
    requires Filled(res, a, b, 16)
    ensures res == Product(a, b)
  {
  }

  class Matrix4 {
    const m: array<real>

    predicate Valid() {
      m.Length == 16
    }

    /** Matrix4(): zero(). */
    constructor ()
      ensures Valid() && fresh(m) && m[..] == ZeroEntries()
    {
      m := new real[16];
      new;
      Zero();
    }

    /** Matrix4(c1, c2, c3, c4): the four Vector4 arguments are the columns. */
    constructor Columns(c1: Vector4, c2: Vector4, c3: Vector4, c4: Vector4)
      ensures Valid() && fresh(m) && m[..] == ColumnEntries(c1, c2, c3, c4)
    {
      var a := new real[16];
      a[0], a[1], a[2], a[3] := c1.x, c1.y, c1.z, c1.w;
      a[4], a[5], a[6], a[7] := c2.x, c2.y, c2.z, c2.w;
      a[8], a[9], a[10], a[11] := c3.x, c3.y, c3.z, c3.w;
      a[12], a[13], a[14], a[15] := c4.x, c4.y, c4.z, c4.w;
      m := a;
    }

    /** zero(): fill all sixteen entries with 0. */
    method Zero()
      requires Valid()
      modifies m
      ensures m[..] == ZeroEntries()
    {
      for i := 0 to 16
        invariant forall j :: 0 <= j < i ==> m[j] == 0.0
      {
        m[i] := 0.0;
      }
    }

    /** identity(): fill with 0, then set the diagonal 0, 5, 10, 15 to 1. */
    method Identity()
      requires Valid()
      modifies m
      ensures m[..] == IdentityEntries()
    {
      Zero();
      m[0], m[5], m[10], m[15] := 1.0, 1.0, 1.0, 1.0;
    }

    /** The const `operator[]`. */
    function Get(index: nat): real
      requires Valid() && index < 16
      reads m
    {
      m[index]
    }

    /** Assignment through the mutable `operator[]`: only entry `index` changes. */
    method Set(index: nat, value: real)
      requires Valid() && index < 16
      modifies m
      ensures m[..] == old(m[..])[index := value]
      ensures Get(index) == value
    {
      m[index] := value;
    }

    /** operator*: a fresh matrix holding Product of the two operands' entries; neither operand changes. */
    method Multiply(mat: Matrix4) returns (result: Matrix4)
      requires Valid() && mat.Valid()
      ensures result.Valid() && fresh(result.m)
      ensures result.m[..] == Product(m[..], mat.m[..])
    {
      result := new Matrix4();
      var res := result.m;
      ghost var a, b := m[..], mat.m[..];
      FilledStart(a, b);
      for i := 0 to 4
        invariant Filled(res[..], a, b, 4 * i)
      {
        for j := 0 to 4
          invariant Filled(res[..], a, b, j + 4 * i)
        {
          ghost var before := res[..];
          Accumulate(mat, res, i, j);
          FilledEntry(before, res[..], a, b, j, i);
        }
      }
      FilledDone(res[..], a, b);
    }

    /** The innermost loop of operator*: adds the four terms of entry j + i * 4 into res. */
    method Accumulate(mat: Matrix4, res: array<real>, i: nat, j: nat)
      requires Valid() && mat.Valid() && res.Length == 16 && i < 4 && j < 4
      requires res != m && res != mat.m
      modifies res
      ensures res[..] == old(res[..])[j + 4 * i := old(res[j + 4 * i]) + ProductSum(m[..], mat.m[..], j, i, 4)]
    {
      ghost var a, b := m[..], mat.m[..];
      ghost var start := res[j + 4 * i];
      for k := 0 to 4
        invariant res[..] == old(res[..])[j + 4 * i := start + ProductSum(a, b, j, i, k)]
      {
        var term := m[k + i * 4] * mat.m[j + k * 4];
        res[j + i * 4] := res[j + i * 4] + term;
        SumStep(a, b, j, i, k, term);
      }
    }
  }
}
