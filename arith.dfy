/**
 * Small facts of integer and real arithmetic, each stated on its own so
 * that the solver sees one nonlinear step at a time.
 */
module Arith {

  lemma MulAtLeast(d: int, m: int)
    requires d > 0 && m >= 1
    ensures d * m >= d
  {
  }

  lemma MulAtMost(d: int, m: int)
    requires d > 0 && m <= -1
    ensures d * m <= -d
  {
  }

  lemma MulMonotone(a: int, b: int, p: int)
    requires a <= b && p >= 0
    ensures a * p <= b * p
  {
    assert b * p - a * p == (b - a) * p;
  }

  /** Dafny's Euclidean division is determined by its defining equation. */
  lemma DivModUnique(x: int, d: int, q: int, r: int)
    requires d > 0 && x == d * q + r && 0 <= r < d
    ensures x / d == q && x % d == r
  {
    var q', r' := x / d, x % d;
    assert x == d * q' + r';
    assert d * (q - q') == r' - r by {
      assert d * (q - q') == d * q - d * q';
    }
    if q - q' >= 1 {
      MulAtLeast(d, q - q');
    } else if q - q' <= -1 {
      MulAtMost(d, q - q');
    }
  }

  /** Euclidean division of an exact multiple: the quotient is the factor and the remainder is zero. */
  lemma DivMulExact(d: int, k: int)
    requires d > 0
    ensures (d * k) / d == k && (d * k) % d == 0
  {
    DivModUnique(d * k, d, k, 0);
  }

  lemma CancelFactor(g: int, x: int, y: int)
    requires g != 0 && g * x == g * y
    ensures x == y
  {
    assert g * (x - y) == 0;
  }

  lemma UnitFactor(h: nat, u: int)
    requires h * u == 1
    ensures h == 1
  {
    if h > 1 {
      if u >= 1 {
        MulAtLeast(h, u);
      }
    }
  }

  lemma MulAssoc(a: int, b: int, c: int)
    ensures a * (b * c) == (a * b) * c
  {
  }

  lemma MulSwapInner(p: int, g: int, q: int)
    ensures p * (g * q) == (g * p) * q
  {
  }

  lemma CastMul(x: int, y: int)
    ensures (x * y) as real == x as real * y as real
  {
  }

  /** Equal cross products give equal quotients. */
  lemma RealCross(x: real, y: real, u: real, v: real)
    requires y != 0.0 && v != 0.0 && x * v == u * y
    ensures x / y == u / v
  {
    var q := x / y;
    assert x == q * y;
    assert u * y == q * y * v;
    assert u == q * v;
  }

  /** Equal quotients have equal cross products. */
  lemma RealCrossBack(x: real, y: real, u: real, v: real)
    requires y != 0.0 && v != 0.0 && x / y == u / v
    ensures x * v == u * y
  {
    var q := x / y;
    assert x == q * y;
    assert u == q * v;
  }

  lemma RealCancel(x: real, c: real, y: real)
    requires c != 0.0 && y != 0.0
    ensures (x * c) / (y * c) == x / y
  {
    var q := x / y;
    assert x == q * y;
    assert x * c == q * (y * c);
  }

  lemma RealProduct(a: real, b: real, c: real, d: real)
    requires b != 0.0 && d != 0.0
    ensures (a * c) / (b * d) == (a / b) * (c / d)
  {
    var q1, q2 := a / b, c / d;
    assert a == q1 * b;
    assert c == q2 * d;
    assert a * c == (q1 * q2) * (b * d);
  }
}
