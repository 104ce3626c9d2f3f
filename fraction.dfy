/**
 * fraction/fraction.hpp with T = int (unbounded): the sign-aware `gcd`, `lcm`,
 * and `Fraction<int>`.
 *
 * A C++ `Fraction` is a value; its fields are private and every constructor
 * and operator leaves them normalised, so `Normalized` is the class
 * invariant and the pure operators below require it of their operands.
 * The members that assign to `*this` (the compound assignments, and
 * `Simplify` that the constructor calls) are methods of `MutableFraction`,
 * whose two fields are the C++ fields.
 */
module Fractions {
  import opened Arith
  import opened CppInt
  import opened Divisibility

  // ---------------------------------------------------------------------
  // gcd and lcm
  // ---------------------------------------------------------------------

  function Sign(x: int): (s: int)
    ensures s == 1 || s == -1
  {
    if x < 0 then -1 else 1
  }

  /** The value the C++ gcd returns: the gcd of the magnitudes with the product of the signs. */
  function SignedGcd(a: int, b: int): int {
    Sign(a) * Sign(b) * EuclidGcd(Abs(a), Abs(b))
  }

  /** gcd: strip the signs, run Euclid's remainder loop, reapply both signs. */
  method Gcd(a: int, b: int) returns (g: int)
    ensures g == SignedGcd(a, b)
  {
    var x, y := a, b;
    var sign1, sign2;
    if x < 0 {
      sign1 := -1;
      x := -x;
    } else {
      sign1 := 1;
    }
    if y < 0 {
      sign2 := -1;
      y := -y;
    } else {
      sign2 := 1;
    }
    while y != 0
      invariant x >= 0 && y >= 0
      invariant EuclidGcd(x, y) == EuclidGcd(Abs(a), Abs(b))
      decreases y
    {
      var c := y;
      y := x % y;
      x := c;
    }
    return x * sign1 * sign2;
  }

  lemma DividesNegated(d: int, n: int)
    ensures Divides(d, n) <==> Divides(-d, n)
  {
    if Divides(d, n) {
      var k :| n == d * k;
      assert n == (-d) * (-k);
    }
    if Divides(-d, n) {
      var k :| n == (-d) * k;
      assert n == d * (-k);
    }
  }

  lemma DividesSigned(d: int, n: int, s: int)
    requires s == 1 || s == -1
    ensures Divides(d, n) <==> Divides(s * d, n)
  {
    DividesNegated(d, n);
  }

  /**
   * The C++ gcd divides both arguments, every common divisor divides it,
   * it is zero only for (0, 0), it is negative exactly when one argument
   * is, and gcd(a, 0) == a.
   */
  lemma GcdIsGreatestCommonDivisor(a: int, b: int)
    ensures var g := SignedGcd(a, b);
      && Divides(g, a) && Divides(g, b)
      && (forall d :: Divides(d, a) && Divides(d, b) ==> Divides(d, g))
      && (g == 0 <==> a == 0 && b == 0)
      && (g < 0 <==> (a < 0) != (b < 0))
      && (b == 0 ==> g == a)
  {
    GcdDivisibility(a, b);
    GcdSign(a, b);
  }

  lemma GcdDivisibility(a: int, b: int)
    ensures var g := SignedGcd(a, b);
      && Divides(g, a) && Divides(g, b)
      && (forall d :: Divides(d, a) && Divides(d, b) ==> Divides(d, g))
  {
    var G := EuclidGcd(Abs(a), Abs(b));
    var s := Sign(a) * Sign(b);
    var g := SignedGcd(a, b);
    assert g == s * G;
    GcdDivides(Abs(a), Abs(b));
    DividesAbs(G, a);
    DividesAbs(G, b);
    DividesSigned(G, a, s);
    DividesSigned(G, b, s);
    forall d | Divides(d, a) && Divides(d, b) ensures Divides(d, g) {
      DividesAbs(d, a);
      DividesAbs(d, b);
      GcdGreatest(Abs(a), Abs(b), d);
      var k :| G == d * k;
      assert g == d * (s * k);
    }
  }

  lemma GcdSign(a: int, b: int)
    ensures var g := SignedGcd(a, b);
      && (g == 0 <==> a == 0 && b == 0)
      && (g < 0 <==> (a < 0) != (b < 0))
      && (b == 0 ==> g == a)
  {
    var G := EuclidGcd(Abs(a), Abs(b));
    GcdZero(Abs(a), Abs(b));
    if (a < 0) == (b < 0) {
      assert Sign(a) * Sign(b) == 1;
      assert SignedGcd(a, b) == G;
    } else {
      assert Sign(a) * Sign(b) == -1;
      assert SignedGcd(a, b) == -(G as int);
    }
    if b == 0 {
      assert EuclidGcd(Abs(a), 0) == Abs(a);
    }
  }

  /** lcm: (a / gcd(a, b)) * b with C++ division; gcd(0, 0) == 0 makes lcm(0, 0) a division by zero. */
  function Lcm(a: int, b: int): int
    requires a != 0 || b != 0
  {
    GcdZero(Abs(a), Abs(b));
    CDiv(a, SignedGcd(a, b)) * b
  }

  /** With |a| == G * p and |b| == G * q for G the gcd: lcm(a, b) == p * |b| == |a| * q. */
  lemma LcmShape(a: int, b: int) returns (G: nat, p: nat, q: nat)
    requires a != 0 || b != 0
    ensures G == EuclidGcd(Abs(a), Abs(b)) && G > 0
    ensures Abs(a) == G * p && Abs(b) == G * q
    ensures Lcm(a, b) == p * Abs(b) && Lcm(a, b) == Abs(a) * q
  {
    var A, B := Abs(a), Abs(b);
    G := EuclidGcd(A, B);
    GcdZero(A, B);
    GcdDivides(A, B);
    var p' :| A == G * p';
    var q' :| B == G * q';
    NonnegativeFactor(G, p', A);
    NonnegativeFactor(G, q', B);
    p, q := p', q';
    assert SignedGcd(a, b) == Sign(a) * Sign(b) * G;
    CofactorQuotient(a, b, G, p);
    MulSwapInner(p, G, q);
  }

  /** a divided by the signed gcd, times b, is the cofactor of a times |b|. */
  lemma CofactorQuotient(a: int, b: int, G: int, p: int)
    requires G > 0 && Abs(a) == G * p
    ensures CDiv(a, Sign(a) * Sign(b) * G) * b == p * Abs(b)
  {
    var g := Sign(a) * Sign(b) * G;
    if a >= 0 && b >= 0 {
      assert g == G;
      CDivExact(a, g, p);
    } else if a < 0 && b >= 0 {
      assert g == -G;
      assert a == g * p;
      CDivExact(a, g, p);
    } else if a >= 0 {
      assert g == -G;
      assert a == g * -p;
      CDivExact(a, g, -p);
    } else {
      assert g == G;
      assert a == g * -p;
      CDivExact(a, g, -p);
    }
  }

  lemma NonnegativeFactor(g: int, p: int, n: int)
    requires g > 0 && n >= 0 && n == g * p
    ensures p >= 0
  {
    if p < 0 {
      MulAtMost(g, p);
    }
  }

  /**
   * lcm is a nonnegative common multiple that divides every common
   * multiple; it is positive when both arguments are nonzero, and times the
   * gcd it is |a| * |b|.
   */
  lemma LcmIsLeastCommonMultiple(a: int, b: int)
    requires a != 0 || b != 0
    ensures var l := Lcm(a, b);
      && l >= 0
      && Divides(a, l) && Divides(b, l)
      && (a != 0 && b != 0 ==> l > 0)
      && l * EuclidGcd(Abs(a), Abs(b)) == Abs(a) * Abs(b)
      && (forall m :: Divides(a, m) && Divides(b, m) ==> Divides(l, m))
  {
    var G, p, q := LcmShape(a, b);
    var A, B := Abs(a), Abs(b);
    var l := Lcm(a, b);
    assert Divides(A, l) by {
      assert l == A * q;
    }
    assert Divides(B, l) by {
      assert l == B * p;
    }
    DividesAbsDivisor(a, l);
    DividesAbsDivisor(b, l);
    assert l * G == A * B by {
      MulAssoc(p, B, G);
      MulSwapInner(p, G, B);
    }
    if q > 0 {
      MulAtLeast(A + 1, q);
    }
    if a != 0 && b != 0 {
      assert q != 0;
      MulAtLeast(A, q);
    }
    forall m | Divides(a, m) && Divides(b, m) ensures Divides(l, m) {
      LcmDividesCommonMultiple(a, b, m, G, p, q, l);
    }
  }

  /** d divides n exactly when |d| does. */
  lemma DividesAbsDivisor(d: int, n: int)
    ensures Divides(d, n) <==> Divides(Abs(d), n)
  {
    DividesNegated(d, n);
  }

  lemma LcmDividesCommonMultiple(a: int, b: int, m: int, G: nat, p: nat, q: nat, l: int)
    requires G == EuclidGcd(Abs(a), Abs(b)) && G > 0
    requires Abs(a) == G * p && Abs(b) == G * q && l == p * Abs(b)
    requires Divides(a, m) && Divides(b, m)
    ensures Divides(l, m)
  {
    var A, B := Abs(a), Abs(b);
    DividesAbsDivisor(a, m);
    DividesAbsDivisor(b, m);
    assert Divides(A, m) && Divides(B, m);
    var s: int :| m == A * s;
    var t: int :| m == B * t;
    CofactorsCoprime(A, B, G, p, q);
    MulAssoc(G, p, s);
    MulAssoc(G, q, t);
    CancelFactor(G, p * s, q * t);
    assert Divides(p, q * t) by {
      assert q * t == p * s;
    }
    CoprimeDividesProduct(p, q, t);
    var w :| t == p * w;
    assert m == l * w by {
      MulAssoc(B, p, w);
    }
  }

  // ---------------------------------------------------------------------
  // Fraction values
  // ---------------------------------------------------------------------

  datatype Fraction = Fraction(num: int, denom: int)

  /** The invariant every constructor and operator establishes: positive denominator, lowest terms. */
  predicate Normalized(f: Fraction) {
    f.denom > 0 && EuclidGcd(Abs(f.num), f.denom) == 1
  }

  /** The rational number a fraction stands for. */
  ghost function Value(f: Fraction): real
    requires f.denom != 0
  {
    f.num as real / f.denom as real
  }

  /**
   * Fraction(n, d): the normal form that `Simplify` computes (d defaults
   * to 1 in C++). A zero denominator gives 0/1;
   * otherwise numerator and denominator are divided by the gcd of their
   * magnitudes and the sign is carried by the numerator.
   */
  function Make(n: int, d: int): (f: Fraction)
    ensures Normalized(f)
    ensures d == 0 || n == 0 ==> f == Fraction(0, 1)
    ensures d != 0 ==> f.num * d == n * f.denom
  {
    if d == 0 then
      GcdWithOne(0);
      Fraction(0, 1)
    else
      var A, B := Abs(n), Abs(d);
      GcdZero(A, B);
      var g := EuclidGcd(A, B);
      MakeFacts(n, d);
      Fraction(if (n < 0) != (d < 0) then -(A / g) else A / g, B / g)
  }

  lemma MakeFacts(n: int, d: int)
    requires d != 0
    ensures var A, B := Abs(n), Abs(d);
      var g := EuclidGcd(A, B);
      && g > 0
      && B / g > 0 && A / g >= 0 && EuclidGcd(A / g, B / g) == 1
      && (n == 0 ==> A / g == 0 && B / g == 1)
      && (if (n < 0) != (d < 0) then -(A / g) else A / g) * d == n * (B / g)
  {
    var A, B := Abs(n), Abs(d);
    var g := EuclidGcd(A, B);
    GcdZero(A, B);
    GcdDivides(A, B);
    var p :| A == g * p;
    var q :| B == g * q;
    NonnegativeFactor(g, p, A);
    NonnegativeFactor(g, q, B);
    DivMulExact(g, p);
    DivMulExact(g, q);
    assert q != 0;
    CofactorsCoprime(A, B, g, p, q);
    if n == 0 {
      GcdOfZero(B);
      assert g * q == g * 1;
      CancelFactor(g, q, 1);
    }
    SignedCross(n, d, g, p, q);
  }

  /** With |n| == g * p and |d| == g * q, the signed cofactor has the cross product of n/d. */
  lemma SignedCross(n: int, d: int, g: int, p: int, q: int)
    requires Abs(n) == g * p && Abs(d) == g * q
    ensures (if (n < 0) != (d < 0) then -p else p) * d == n * q
  {
    MulSwapInner(p, g, q);
    if n < 0 && d < 0 {
      assert p * d == -(p * (g * q));
      assert n * q == -((g * p) * q);
    } else if n < 0 {
      assert -p * d == -(p * (g * q));
      assert n * q == -((g * p) * q);
    } else if d < 0 {
      assert -p * d == p * (g * q);
    }
  }

  lemma GcdCommutes(a: nat, b: nat)
    ensures EuclidGcd(a, b) == EuclidGcd(b, a)
  {
    var g1, g2 := EuclidGcd(a, b), EuclidGcd(b, a);
    GcdDivides(a, b);
    GcdDivides(b, a);
    GcdGreatest(a, b, g2);
    GcdGreatest(b, a, g1);
    GcdZero(a, b);
    GcdZero(b, a);
    if g1 != 0 {
      MutualDivides(g1, g2);
    }
  }

  /** A normalised fraction is determined by its value. */
  lemma NormalizedUnique(f1: Fraction, f2: Fraction)
    requires Normalized(f1) && Normalized(f2)
    requires f1.num * f2.denom == f2.num * f1.denom
    ensures f1 == f2
  {
    DenominatorDivides(f1, f2);
    DenominatorDivides(f2, f1);
    MutualDivides(f1.denom, f2.denom);
    CancelFactor(f1.denom, f1.num, f2.num);
  }

  lemma DenominatorDivides(f1: Fraction, f2: Fraction)
    requires Normalized(f1) && f2.denom > 0
    requires f1.num * f2.denom == f2.num * f1.denom
    ensures Divides(f1.denom, f2.denom)
  {
    var A := Abs(f1.num);
    GcdCommutes(A, f1.denom);
    assert A * f2.denom == f1.denom * (Sign(f1.num) * f2.num) by {
      assert A == Sign(f1.num) * f1.num;
      assert A * f2.denom == Sign(f1.num) * (f1.num * f2.denom);
    }
    CoprimeDividesProduct(f1.denom, A, f2.denom);
  }

  /** Two normalised fractions are equal exactly when their values are. */
  lemma EqualIffSameValue(f1: Fraction, f2: Fraction)
    requires Normalized(f1) && Normalized(f2)
    ensures f1 == f2 <==> Value(f1) == Value(f2)
  {
    if Value(f1) == Value(f2) {
      RealCrossBack(f1.num as real, f1.denom as real, f2.num as real, f2.denom as real);
      CastMul(f1.num, f2.denom);
      CastMul(f2.num, f1.denom);
      NormalizedUnique(f1, f2);
    }
  }

  /** A fraction with the cross product of n/d has the value n/d. */
  lemma CrossValue(f: Fraction, n: int, d: int)
    requires f.denom != 0 && d != 0 && f.num * d == n * f.denom
    ensures Value(f) == n as real / d as real
  {
    CastMul(f.num, d);
    CastMul(n, f.denom);
    RealCross(f.num as real, f.denom as real, n as real, d as real);
  }

  /** The value of a normal form is the quotient it was computed from. */
  lemma MakeValue(n: int, d: int)
    requires d != 0
    ensures Value(Make(n, d)) == n as real / d as real
  {
    CrossValue(Make(n, d), n, d);
  }

  /** Simplify is idempotent: a normalised fraction is its own normal form. */
  lemma MakeIdempotent(f: Fraction)
    requires Normalized(f)
    ensures Make(f.num, f.denom) == f
  {
    var r := Make(f.num, f.denom);
    NormalizedUnique(r, f);
  }

  /** Two normalised fractions for n1/d1 and n2/d2 are equal exactly when n1/d1 and n2/d2 are. */
  lemma CrossIff(f1: Fraction, f2: Fraction, n1: int, d1: int, n2: int, d2: int)
    requires Normalized(f1) && Normalized(f2) && d1 != 0 && d2 != 0
    requires f1.num * d1 == n1 * f1.denom && f2.num * d2 == n2 * f2.denom
    ensures f1 == f2 <==> n1 * d2 == n2 * d1
  {
    var x, y, u, v := n1 as real, d1 as real, n2 as real, d2 as real;
    CrossValue(f1, n1, d1);
    CrossValue(f2, n2, d2);
    EqualIffSameValue(f1, f2);
    CastMul(n1, d2);
    CastMul(n2, d1);
    if n1 * d2 == n2 * d1 {
      RealCross(x, y, u, v);
    }
    if x / y == u / v {
      RealCrossBack(x, y, u, v);
    }
  }

  /** Reducing two quotients gives the same fraction exactly when they are equal rationals. */
  lemma MakeSameIff(n1: int, d1: int, n2: int, d2: int)
    requires d1 != 0 && d2 != 0
    ensures Make(n1, d1) == Make(n2, d2) <==> n1 * d2 == n2 * d1
  {
    CrossIff(Make(n1, d1), Make(n2, d2), n1, d1, n2, d2);
  }

  // ---------------------------------------------------------------------
  // Constructors, accessors and operators
  // ---------------------------------------------------------------------

  /** Fraction(): 0/1, without simplification. */
  function Zero(): (f: Fraction)
    ensures Normalized(f) && Value(f) == 0.0
  {
    GcdWithOne(0);
    Fraction(0, 1)
  }

  /** IsFraction: the denominator is greater than one. */
  function IsFraction(f: Fraction): bool {
    f.denom > 1
  }

  /** A normalised fraction is a proper fraction exactly when its value is not a whole number. */
  lemma IsFractionIffNotWhole(f: Fraction)
    requires Normalized(f)
    ensures IsFraction(f) <==> !Divides(f.denom, f.num)
  {
    if f.denom == 1 {
      assert f.num == 1 * f.num;
    }
    if f.denom > 1 && Divides(f.denom, f.num) {
      var k :| f.num == f.denom * k;
      DividesAbs(f.denom, f.num);
      assert Divides(f.denom, f.denom) by { assert f.denom == f.denom * 1; }
      GcdGreatest(Abs(f.num), f.denom, f.denom);
      var u :| 1 == f.denom * u;
      UnitFactor(f.denom, u);
    }
  }

  lemma LcmScales(d1: int, d2: int)
    requires d1 > 0 && d2 > 0
    ensures Lcm(d1, d2) > 0
    ensures CDiv(Lcm(d1, d2), d1) * d1 == Lcm(d1, d2)
    ensures CDiv(Lcm(d1, d2), d2) * d2 == Lcm(d1, d2)
  {
    var l := Lcm(d1, d2);
    LcmIsLeastCommonMultiple(d1, d2);
    var k1 :| l == d1 * k1;
    var k2 :| l == d2 * k2;
    CDivExact(l, d1, k1);
    CDivExact(l, d2, k2);
  }

  /** operator+: bring both to the lcm of the denominators, add the numerators. */
  function Plus(a: Fraction, b: Fraction): (r: Fraction)
    requires Normalized(a) && Normalized(b)
    ensures Normalized(r)
  {
    LcmScales(a.denom, b.denom);
    var d3 := Lcm(a.denom, b.denom);
    var ma := CDiv(d3, a.denom);
    var mb := CDiv(d3, b.denom);
    Make(a.num * ma + b.num * mb, d3)
  }

  /** operator-: as operator+ with the numerators subtracted. */
  function Minus(a: Fraction, b: Fraction): (r: Fraction)
    requires Normalized(a) && Normalized(b)
    ensures Normalized(r)
  {
    LcmScales(a.denom, b.denom);
    var d3 := Lcm(a.denom, b.denom);
    var ma := CDiv(d3, a.denom);
    var mb := CDiv(d3, b.denom);
    Make(a.num * ma - b.num * mb, d3)
  }

  /** operator*: numerators times numerators over denominators times denominators. */
  function Times(a: Fraction, b: Fraction): (r: Fraction)
    requires Normalized(a) && Normalized(b)
    ensures Normalized(r)
  {
    Make(a.num * b.num, a.denom * b.denom)
  }

  /** operator/: multiply by the reciprocal Fraction(denom, num), itself normalised. */
  function Divide(a: Fraction, b: Fraction): (r: Fraction)
    requires Normalized(a) && Normalized(b)
    ensures Normalized(r)
  {
    var tmp := Make(b.denom, b.num);
    Make(a.num * tmp.num, a.denom * tmp.denom)
  }

  lemma LcmSumReal(n1: real, n2: real, ma: real, mb: real, d1: real, d2: real, d3: real, sub: bool)
    requires d1 != 0.0 && d2 != 0.0 && d3 != 0.0 && ma * d1 == d3 && mb * d2 == d3
    ensures (if sub then n1 * ma - n2 * mb else n1 * ma + n2 * mb) / d3
         == if sub then n1 / d1 - n2 / d2 else n1 / d1 + n2 / d2
  {
    assert ma != 0.0 && mb != 0.0;
    RealCancel(n1, ma, d1);
    RealCancel(n2, mb, d2);
    assert ma * d1 == d1 * ma && mb * d2 == d2 * mb;
  }

  /** A fraction for (n1 * ma -/+ n2 * mb) / d3, with ma * d1 == mb * d2 == d3, has the value n1/d1 -/+ n2/d2. */
  lemma LcmSumValue(f: Fraction, n1: int, d1: int, n2: int, d2: int, ma: int, mb: int, d3: int, sub: bool)
    requires d1 != 0 && d2 != 0 && d3 != 0 && ma * d1 == d3 && mb * d2 == d3 && f.denom != 0
    requires f.num * d3 == (if sub then n1 * ma - n2 * mb else n1 * ma + n2 * mb) * f.denom
    ensures Value(f) == if sub then n1 as real / d1 as real - n2 as real / d2 as real
                        else n1 as real / d1 as real + n2 as real / d2 as real
  {
    var n := if sub then n1 * ma - n2 * mb else n1 * ma + n2 * mb;
    CrossValue(f, n, d3);
    CastMul(ma, d1);
    CastMul(mb, d2);
    CastMul(n1, ma);
    CastMul(n2, mb);
    LcmSumReal(n1 as real, n2 as real, ma as real, mb as real, d1 as real, d2 as real, d3 as real, sub);
  }

  lemma PlusMinusValue(a: Fraction, b: Fraction, sub: bool)
    requires Normalized(a) && Normalized(b)
    ensures Value(if sub then Minus(a, b) else Plus(a, b))
         == if sub then Value(a) - Value(b) else Value(a) + Value(b)
  {
    LcmScales(a.denom, b.denom);
    var d3 := Lcm(a.denom, b.denom);
    var ma := CDiv(d3, a.denom);
    var mb := CDiv(d3, b.denom);
    var n := if sub then a.num * ma - b.num * mb else a.num * ma + b.num * mb;
    var f := if sub then Minus(a, b) else Plus(a, b);
    assert f == Make(n, d3);
    LcmSumValue(f, a.num, a.denom, b.num, b.denom, ma, mb, d3, sub);
  }

  /** operator+ returns the normalised exact sum. */
  lemma PlusIsSum(a: Fraction, b: Fraction)
    requires Normalized(a) && Normalized(b)
    ensures Value(Plus(a, b)) == Value(a) + Value(b)
  {
    PlusMinusValue(a, b, false);
  }

  /** operator- returns the normalised exact difference. */
  lemma MinusIsDifference(a: Fraction, b: Fraction)
    requires Normalized(a) && Normalized(b)
    ensures Value(Minus(a, b)) == Value(a) - Value(b)
  {
    PlusMinusValue(a, b, true);
  }

  /** A fraction for (n1 * n2) / (d1 * d2) has the product of the values. */
  lemma ProductValue(f: Fraction, n1: int, d1: int, n2: int, d2: int)
    requires d1 != 0 && d2 != 0 && f.denom != 0 && f.num * (d1 * d2) == (n1 * n2) * f.denom
    ensures Value(f) == (n1 as real / d1 as real) * (n2 as real / d2 as real)
  {
    CrossValue(f, n1 * n2, d1 * d2);
    CastMul(n1, n2);
    CastMul(d1, d2);
    RealProduct(n1 as real, d1 as real, n2 as real, d2 as real);
  }

  lemma PositiveProduct(x: int, y: int)
    requires x > 0 && y > 0
    ensures x * y > 0
  {
    MulAtLeast(x, y);
  }

  /** operator* returns the normalised exact product. */
  lemma TimesIsProduct(a: Fraction, b: Fraction)
    requires Normalized(a) && Normalized(b)
    ensures Value(Times(a, b)) == Value(a) * Value(b)
  {
    PositiveProduct(a.denom, b.denom);
    ProductValue(Times(a, b), a.num, a.denom, b.num, b.denom);
  }

  /**
   * operator/ by a nonzero fraction returns the normalised exact quotient;
   * by a zero fraction it returns 0/1, because the reciprocal Fraction(d, 0)
   * normalises to 0/1.
   */
  lemma DivideIsQuotient(a: Fraction, b: Fraction)
    requires Normalized(a) && Normalized(b)
    ensures Value(b) != 0.0 ==> Value(Divide(a, b)) == Value(a) / Value(b)
    ensures Value(b) == 0.0 ==> Divide(a, b) == Fraction(0, 1)
  {
    ValueZero(b);
    var tmp := Make(b.denom, b.num);
    if b.num != 0 {
      assert Divide(a, b) == Times(a, tmp);
      CrossValue(tmp, b.denom, b.num);
      TimesIsProduct(a, tmp);
      QuotientStep(Value(a), Value(b), Value(tmp), Value(Times(a, tmp)), b.num as real, b.denom as real);
    }
  }

  /** A fraction with a nonzero denominator has value zero exactly when its numerator is zero. */
  lemma ValueZero(f: Fraction)
    requires f.denom != 0
    ensures Value(f) == 0.0 <==> f.num == 0
  {
    if f.num != 0 {
      assert f.num as real != 0.0;
    }
  }

  /** Multiplying by d/n is dividing by n/d. */
  lemma QuotientStep(va: real, vb: real, vt: real, vq: real, n: real, d: real)
    requires n != 0.0 && d != 0.0 && vb == n / d && vt == d / n && vq == va * vt
    ensures vq == va / vb
  {
  }

  /** operator==: both fields equal. */
  function Eq(a: Fraction, b: Fraction): (r: bool)
    ensures r <==> a == b
  {
    a.num == b.num && a.denom == b.denom
  }

  /** operator!=: some field differs. */
  function Ne(a: Fraction, b: Fraction): (r: bool)
    ensures r <==> !Eq(a, b)
  {
    a.num != b.num || a.denom != b.denom
  }

  /** On normalised fractions `==` is equality of rational values. */
  lemma EqIsValueEquality(a: Fraction, b: Fraction)
    requires Normalized(a) && Normalized(b)
    ensures Eq(a, b) <==> Value(a) == Value(b)
    ensures Ne(a, b) <==> Value(a) != Value(b)
  {
    EqualIffSameValue(a, b);
  }

  // ---------------------------------------------------------------------
  // The members that assign to *this
  // ---------------------------------------------------------------------

  /**
   * The first half of Simplify: a zero denominator becomes 0/1, a zero
   * numerator gets denominator 1, and a negative denominator moves its sign
   * to the numerator; none of this changes the normal form.
   */
  lemma SignStep(n: int, d: int)
    ensures var d1 := if d == 0 || n == 0 then 1 else Abs(d);
      var n1 := if d == 0 then 0 else if n != 0 && d < 0 then -n else n;
      d1 > 0 && Make(n1, d1) == Make(n, d)
  {
    if d != 0 && n != 0 {
      MakeSameIff(if d < 0 then -n else n, Abs(d), n, d);
    }
  }

  /**
   * The second half of Simplify: with a positive denominator, dividing the
   * magnitudes by their gcd g (when g > 1) and restoring the sign gives Make.
   */
  lemma ReducedForm(n: int, d: int, g: int)
    requires d > 0 && g == EuclidGcd(Abs(n), d)
    ensures Fraction((if g > 1 then CDiv(Abs(n), g) else Abs(n)) * (if n < 0 then -1 else 1),
                     if g > 1 then CDiv(d, g) else d)
         == Make(n, d)
  {
    GcdZero(Abs(n), d);
  }

  class MutableFraction {
    var num: int
    var denom: int

    function Frac(): Fraction
      reads this
    {
      Fraction(num, denom)
    }

    ghost predicate Valid()
      reads this
    {
      Normalized(Frac())
    }

    /** Fraction(): 0/1. */
    constructor Default()
      ensures Frac() == Zero() && Valid()
    {
      num, denom := 0, 1;
      GcdWithOne(0);
    }

    /** Fraction(numerator, denominator): store the pair, then Simplify. */
    constructor (numerator: int, denominator: int := 1)
      ensures Frac() == Make(numerator, denominator) && Valid()
    {
      num, denom := numerator, denominator;
      new;
      Simplify();
    }

    /** Simplify: bring the fields to normal form step by step. */
    method Simplify()
      modifies this
      ensures Frac() == Make(old(num), old(denom))
    {
      ghost var n0, d0 := num, denom;
      if denom == 0 {
        num := 0;
        denom := 1;
      } else if num == 0 {
        denom := 1;
      }
      if denom < 0 {
        num := -num;
        denom := -denom;
      }
      // The denominator is now positive and the pair has the same normal form.
      ghost var n1, d1 := num, denom;
      SignStep(n0, d0);
      var sign;
      if num < 0 {
        num := -num;
        sign := -1;
      } else {
        sign := 1;
      }
      var divi := Gcd(num, denom);
      if divi > 1 {
        num := CDiv(num, divi);
        denom := CDiv(denom, divi);
      }
      num := num * sign;
      ReducedForm(n1, d1, divi);
    }

    /** operator+=: *this = *this + right, then Simplify. */
    method AddAssign(right: Fraction)
      requires Valid() && Normalized(right)
      modifies this
      ensures Frac() == Plus(old(Frac()), right) && Valid()
    {
      var r := Plus(Frac(), right);
      num, denom := r.num, r.denom;
      Simplify();
      MakeIdempotent(r);
    }

    /** operator-=: *this = *this - right, then Simplify. */
    method SubAssign(right: Fraction)
      requires Valid() && Normalized(right)
      modifies this
      ensures Frac() == Minus(old(Frac()), right) && Valid()
    {
      var r := Minus(Frac(), right);
      num, denom := r.num, r.denom;
      Simplify();
      MakeIdempotent(r);
    }

    /** operator*=: *this = *this * right, then Simplify. */
    method MulAssign(right: Fraction)
      requires Valid() && Normalized(right)
      modifies this
      ensures Frac() == Times(old(Frac()), right) && Valid()
    {
      var r := Times(Frac(), right);
      num, denom := r.num, r.denom;
      Simplify();
      MakeIdempotent(r);
    }

    /** operator/=: *this = *this / right, then Simplify. */
    method DivAssign(right: Fraction)
      requires Valid() && Normalized(right)
      modifies this
      ensures Frac() == Divide(old(Frac()), right) && Valid()
    {
      var r := Divide(Frac(), right);
      num, denom := r.num, r.denom;
      Simplify();
      MakeIdempotent(r);
    }
  }
}
