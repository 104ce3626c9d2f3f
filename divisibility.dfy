/**
 * Divisibility and Euclid's algorithm on natural numbers: the mathematical
 * reference that the C++ `gcd`, `lcm` and `Fraction::Simplify` are measured
 * against.
 */
module Divisibility {
  import opened Arith
  import opened CppInt

  ghost predicate Divides(d: int, n: int) {
    exists k :: n == d * k
  }

  /** Euclid's algorithm, by the same remainder step as the C++ loop. */
  function EuclidGcd(a: nat, b: nat): nat
    decreases b
  {
    if b == 0 then a else EuclidGcd(b, a % b)
  }

  lemma DividesSum(d: int, x: int, y: int, s: int, t: int)
    requires Divides(d, x) && Divides(d, y)
    ensures Divides(d, x * s + y * t)
  {
    var k1 :| x == d * k1;
    var k2 :| y == d * k2;
    assert x * s + y * t == d * (k1 * s + k2 * t);
  }

  lemma DividesAbs(d: int, n: int)
    ensures Divides(d, n) <==> Divides(d, Abs(n))
  {
    if Divides(d, n) {
      var k :| n == d * k;
      if n < 0 {
        assert Abs(n) == d * -k;
      }
    }
    if Divides(d, Abs(n)) {
      var k :| Abs(n) == d * k;
      if n < 0 {
        assert n == d * -k;
      }
    }
  }

  /** A nonzero multiple of d is at least as large as d in magnitude. */
  lemma DividesBound(d: int, n: int)
    requires Divides(d, n) && n != 0
    ensures Abs(d) <= Abs(n)
  {
    var k :| n == d * k;
    assert k != 0;
    if d > 0 && k > 0 {
      MulAtLeast(d, k);
    } else if d > 0 && k < 0 {
      MulAtMost(d, k);
    } else if d < 0 && k > 0 {
      MulAtLeast(-d, k);
      assert n == -((-d) * k);
    } else if d < 0 {
      MulAtMost(-d, k);
      assert n == -((-d) * k);
    }
  }

  /** Two positive numbers that divide each other are equal. */
  lemma MutualDivides(a: int, b: int)
    requires a > 0 && b > 0 && Divides(a, b) && Divides(b, a)
    ensures a == b
  {
    DividesBound(a, b);
    DividesBound(b, a);
  }

  lemma {:induction false} GcdDivides(a: nat, b: nat)
    ensures Divides(EuclidGcd(a, b), a) && Divides(EuclidGcd(a, b), b)
    decreases b
  {
    var g := EuclidGcd(a, b);
    if b == 0 {
      assert a == g * 1;
      assert b == g * 0;
    } else {
      GcdDivides(b, a % b);
      assert a == b * (a / b) + (a % b) * 1;
      DividesSum(g, b, a % b, a / b, 1);
    }
  }

  /** Extended Euclid: the gcd is an integer combination of the two numbers. */
  lemma {:induction false} Bezout(a: nat, b: nat) returns (x: int, y: int)
    ensures a * x + b * y == EuclidGcd(a, b)
    decreases b
  {
    if b == 0 {
      x, y := 1, 0;
    } else {
      var x', y' := Bezout(b, a % b);
      assert a % b == a - b * (a / b);
      x, y := y', x' - (a / b) * y';
      calc {
        a * x + b * y;
        a * y' + b * x' - b * (a / b) * y';
        b * x' + (a - b * (a / b)) * y';
        b * x' + (a % b) * y';
      }
    }
  }

  /** Every common divisor divides the gcd, so the gcd is the greatest one. */
  lemma GcdGreatest(a: nat, b: nat, d: int)
    requires Divides(d, a) && Divides(d, b)
    ensures Divides(d, EuclidGcd(a, b))
  {
    var x, y := Bezout(a, b);
    DividesSum(d, a, b, x, y);
  }

  lemma {:induction false} GcdZero(a: nat, b: nat)
    ensures EuclidGcd(a, b) == 0 <==> a == 0 && b == 0
    decreases b
  {
    if b != 0 {
      GcdZero(b, a % b);
    }
  }

  /** Euclid's lemma: a divisor of a product that is coprime to one factor divides the other. */
  lemma CoprimeDividesProduct(a: nat, b: nat, c: int)
    requires EuclidGcd(a, b) == 1 && Divides(a, b * c)
    ensures Divides(a, c)
  {
    var x, y := Bezout(a, b);
    var k :| b * c == a * k;
    CombineMultiple(a, b, c, x, y, k);
  }

  /** From a * x + b * y == 1 and b * c == a * k: c == a * (x * c + k * y). */
  lemma CombineMultiple(a: int, b: int, c: int, x: int, y: int, k: int)
    requires a * x + b * y == 1 && b * c == a * k
    ensures c == a * (x * c + k * y)
  {
    assert c == (a * x + b * y) * c;
    assert (a * x + b * y) * c == a * x * c + (b * c) * y;
    assert (b * c) * y == a * k * y;
    assert a * (x * c + k * y) == a * x * c + a * k * y;
  }

  /** After dividing out their gcd, two numbers are coprime. */
  lemma CofactorsCoprime(a: nat, b: nat, g: nat, p: nat, q: nat)
    requires g == EuclidGcd(a, b) && g > 0 && a == g * p && b == g * q
    ensures EuclidGcd(p, q) == 1
  {
    var h := EuclidGcd(p, q);
    GcdDivides(p, q);
    ScaleDivides(a, g, p, h);
    ScaleDivides(b, g, q, h);
    GcdGreatest(a, b, g * h);
    DividesOwnDivisor(g, h);
  }

  /** If h divides p then g * h divides g * p. */
  lemma ScaleDivides(n: int, g: int, p: int, h: int)
    requires n == g * p && Divides(h, p)
    ensures Divides(g * h, n)
  {
    var s :| p == h * s;
    assert n == (g * h) * s;
  }

  /** g * h divides g > 0 only for h == 1 (among naturals). */
  lemma DividesOwnDivisor(g: int, h: nat)
    requires g > 0 && Divides(g * h, g)
    ensures h == 1
  {
    var u :| g == (g * h) * u;
    assert g * (h * u) == g * 1;
    CancelFactor(g, h * u, 1);
    UnitFactor(h, u);
  }

  lemma GcdWithOne(a: nat)
    ensures EuclidGcd(a, 1) == 1
  {
    assert a % 1 == 0;
  }

  lemma GcdOfZero(b: nat)
    ensures EuclidGcd(0, b) == b
  {
    if b != 0 {
      assert 0 % b == 0;
    }
  }
}
