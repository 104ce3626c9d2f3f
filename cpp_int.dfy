/**
 * C++ integer operators that differ from Dafny's: `/` truncates toward
 * zero (Dafny's is Euclidean), and the shifts `<<`/`>>` on signed values,
 * written here as multiplication and floor division by a power of two.
 */
module CppInt {
  import opened Arith

  function Abs(x: int): (r: nat)
    ensures r == x || r == -x
  {
    if x < 0 then -x else x
  }

  function Pow2(k: nat): (p: nat)
    ensures p >= 1
  {
    if k == 0 then 1 else 2 * Pow2(k - 1)
  }

  lemma {:induction false} Pow2Add(a: nat, b: nat)
    ensures Pow2(a + b) == Pow2(a) * Pow2(b)
  {
    if a > 0 {
      Pow2Add(a - 1, b);
      assert Pow2(a + b) == 2 * Pow2(a - 1 + b);
    }
  }

  lemma {:induction false} Pow2Monotone(a: nat, b: nat)
    requires a <= b
    ensures Pow2(a) <= Pow2(b)
  {
    if a < b {
      Pow2Monotone(a, b - 1);
    }
  }

  /** C++ `/` on integers: the quotient truncated toward zero. */
  function CDiv(x: int, y: int): (q: int)
    requires y != 0
  {
    if y > 0 then
      (if x >= 0 then x / y else -((-x) / y))
    else
      (if x >= 0 then -(x / -y) else (-x) / (-y))
  }

  /**
   * CDiv is the C++ quotient: the remainder x - q * y is smaller than the
   * divisor in magnitude and is zero or has the sign of the dividend.
   */
  lemma CDivTruncates(x: int, y: int)
    requires y != 0
    ensures var r := x - CDiv(x, y) * y;
      Abs(r) < Abs(y) && (r == 0 || ((r < 0) <==> (x < 0)))
  {
    var ax, ay := Abs(x), Abs(y);
    var q0: int, r0: int := ax / ay, ax % ay;
    assert ax == ay * q0 + r0 && 0 <= r0 < ay;
    var q := CDiv(x, y);
    if (x >= 0) == (y > 0) {
      assert q == q0;
      if x >= 0 {
        assert x - q * y == r0;
      } else {
        assert x - q * y == -(ay * q0 + r0) + q0 * ay;
      }
    } else {
      assert q == -q0;
      if x >= 0 {
        assert x - q * y == (ay * q0 + r0) - q0 * ay;
      } else {
        assert x - q * y == -(ay * q0 + r0) + q0 * ay;
      }
    }
  }

  /** The arithmetic shift `x << k`. */
  function ShiftLeft(x: int, k: nat): (r: int)
    ensures Abs(r) == Abs(x) * Pow2(k)
    ensures (r < 0) <==> (x < 0)
  {
    x * Pow2(k)
  }

  /** The arithmetic shift `x >> k` on a two's-complement value: it rounds toward minus infinity. */
  function ShiftRight(x: int, k: nat): (r: int)
    ensures r * Pow2(k) <= x < r * Pow2(k) + Pow2(k)
  {
    x / Pow2(k)
  }

  /** Truncating division of an exact multiple returns the factor, whatever the signs. */
  lemma CDivExact(x: int, y: int, k: int)
    requires y != 0 && x == y * k
    ensures CDiv(x, y) == k
  {
    if y > 0 {
      if x >= 0 {
        DivMulExact(y, k);
      } else {
        assert -x == y * -k;
        DivMulExact(y, -k);
      }
    } else {
      if x >= 0 {
        assert x == (-y) * -k;
        DivMulExact(-y, -k);
      } else {
        assert -x == (-y) * k;
        DivMulExact(-y, k);
      }
    }
  }

  /** Shifting left then right by the same amount returns the value. */
  lemma ShiftRightLeft(x: int, k: nat)
    ensures ShiftRight(ShiftLeft(x, k), k) == x
  {
    DivMulExact(Pow2(k), x);
    assert ShiftLeft(x, k) == Pow2(k) * x;
  }
}
