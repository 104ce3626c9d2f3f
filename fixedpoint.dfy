/**
 * fixedpoint/fixedpoint.hpp: `Fixed<_Ty, _Pos>`, a signed integer raw value
 * `_val` read as `_val / 2^_Pos`, and the compile-time tables it is built on.
 *
 * The template parameters become ordinary values: `ty` (the C++ integer
 * type, through its width) and `pos`. A C++ `Fixed` is a value, so it is a
 * datatype and its operators are functions; the members that reassign
 * `_val` are methods of `MutableFixed`. Every store into `_val` or into a
 * typed temporary narrows to the storage type by two's-complement
 * wrap-around (`Narrow`). Intermediate arithmetic is exact.
 */
module FixedPoint {
  import opened Arith
  import opened CppInt

  datatype Option<T> = None | Some(value: T)

  /** The integer types the tables mention, by `std::numeric_limits<T>::digits`. */
  datatype IntType = Bool | Int8 | Int16 | Int32 | Int64

  function Digits(t: IntType): nat {
    match t
    case Bool => 1
    case Int8 => 7
    case Int16 => 15
    case Int32 => 31
    case Int64 => 63
  }

  /** 2^digits, written out, so that concrete formats evaluate without unfolding Pow2. */
  function Half(t: IntType): (h: nat)
    ensures h == Pow2(Digits(t))
  {
    Pow2Table();
    match t
    case Bool => 2
    case Int8 => 0x80
    case Int16 => 0x8000
    case Int32 => 0x8000_0000
    case Int64 => 0x8000_0000_0000_0000
  }

  lemma Pow2Table()
    ensures Pow2(1) == 2 && Pow2(7) == 0x80 && Pow2(15) == 0x8000
    ensures Pow2(31) == 0x8000_0000 && Pow2(63) == 0x8000_0000_0000_0000
  {
    assert Pow2(8) == 0x100;
    Pow2Add(7, 8);
    Pow2Add(8, 8);
    Pow2Add(15, 16);
    Pow2Add(16, 16);
    Pow2Add(31, 32);
    Pow2Add(32, 31);
  }

  function MinOf(t: IntType): int {
    if t == Bool then 0 else -(Half(t) as int)
  }

  function MaxOf(t: IntType): int {
    if t == Bool then 1 else Half(t) - 1
  }

  predicate InRange(t: IntType, x: int) {
    MinOf(t) <= x <= MaxOf(t)
  }

  // ---------------------------------------------------------------------
  // Compile-time tables
  // ---------------------------------------------------------------------

  /** Type_Next_Greater_Than: the next wider type; None where C++ has only ERROR_NO_VALID_CAST. */
  function NextGreater(t: IntType): Option<IntType> {
    match t
    case Bool => Some(Int8)
    case Int8 => Some(Int16)
    case Int16 => Some(Int32)
    case Int32 => Some(Int64)
    case Int64 => None
  }

  /** Type_Max: specialised only for pairs of int8, int16 and int32. */
  function TypeMax(a: IntType, b: IntType): Option<IntType> {
    if a in {Int8, Int16, Int32} && b in {Int8, Int16, Int32} then
      Some(if Digits(a) >= Digits(b) then a else b)
    else
      None
  }

  /**
   * Type_Max is defined exactly on {int8, int16, int32}, picks the wider
   * type, and is commutative and idempotent.
   */
  lemma TypeMaxTable(a: IntType, b: IntType)
    ensures TypeMax(a, b).Some? <==> a in {Int8, Int16, Int32} && b in {Int8, Int16, Int32}
    ensures TypeMax(a, b).Some? ==>
      && TypeMax(a, b).value in {a, b}
      && Digits(TypeMax(a, b).value) >= Digits(a)
      && Digits(TypeMax(a, b).value) >= Digits(b)
    ensures TypeMax(a, b) == TypeMax(b, a)
    ensures a in {Int8, Int16, Int32} ==> TypeMax(a, a) == Some(a)
  {
  }

  /**
   * Type_Next_Greater_Than doubles the width, from bool (one digit) to
   * int8, and has no entry beyond int64.
   */
  lemma NextGreaterTable(t: IntType)
    ensures NextGreater(t).None? <==> t == Int64
    ensures t != Bool && t != Int64 ==> Digits(NextGreater(t).value) + 1 == 2 * (Digits(t) + 1)
    ensures t == Bool ==> NextGreater(t) == Some(Int8)
  {
  }

  /** Pos_Min. */
  function PosMin(p: nat, q: nat): (r: nat)
    ensures r <= p && r <= q && (r == p || r == q)
  {
    if p < q then p else q
  }

  /** Pos_Max. */
  function PosMax(p: nat, q: nat): (r: nat)
    ensures r >= p && r >= q && (r == p || r == q)
  {
    if p > q then p else q
  }

  /** Pos_Min_Bool. */
  function PosMinBool(p: nat, q: nat): (b: bool)
    ensures b <==> p < q
  {
    if p < q then true else false
  }

  /** Pos_Max_Bool. */
  function PosMaxBool(p: nat, q: nat): (b: bool)
    ensures b <==> p > q
  {
    if p > q then true else false
  }

  /** The difference Pos_Max - Pos_Min is the distance between the two positions. */
  lemma PosDistance(p: nat, q: nat)
    ensures PosMax(p, q) - PosMin(p, q) == if p > q then p - q else q - p
    ensures PosMinBool(p, q) || PosMaxBool(p, q) || p == q
    ensures !(PosMinBool(p, q) && PosMaxBool(p, q))
  {
  }

  /** EvaluateShift<left>::Shift: `x << k` when `left`, otherwise `x >> k`. */
  function EvaluateShift(left: bool, x: int, k: nat): int {
    if left then ShiftLeft(x, k) else ShiftRight(x, k)
  }

  // ---------------------------------------------------------------------
  // Two's-complement narrowing
  // ---------------------------------------------------------------------

  /** The value an integer takes when stored in a signed type: reduce modulo 2^bits into range. */
  function Narrow(t: IntType, x: int): int
    requires t != Bool
  {
    var h := Half(t);
    var m := 2 * h;
    var u := x % m;
    if u >= h then u - m else u
  }

  /** Narrowing lands in range, leaves in-range values alone, and changes a value by a multiple of 2^bits. */
  lemma NarrowSpec(t: IntType, x: int)
    requires t != Bool
    ensures InRange(t, Narrow(t, x))
    ensures InRange(t, x) ==> Narrow(t, x) == x
    ensures (x - Narrow(t, x)) % Pow2(Digits(t) + 1) == 0
  {
    var h := Half(t);
    var m := 2 * h;
    assert Pow2(Digits(t) + 1) == m;
    var u := x % m;
    if InRange(t, x) {
      if x >= 0 {
        DivModUnique(x, m, 0, x);
      } else {
        DivModUnique(x, m, -1, x + m);
      }
    }
    var r := Narrow(t, x);
    var q := x / m;
    assert x == m * q + u;
    if u >= h {
      assert x - r == m * (q + 1);
      DivMulExact(m, q + 1);
    } else {
      assert x - r == m * q;
      DivMulExact(m, q);
    }
  }

  // ---------------------------------------------------------------------
  // Fixed values
  // ---------------------------------------------------------------------

  /** Fixed<ty, pos> holding the raw value `val`. */
  datatype Fixed = Fixed(ty: IntType, pos: nat, val: int)

  /** The static asserts: a signed integer type with more digits than fraction bits. */
  predicate ValidFormat(ty: IntType, pos: nat) {
    ty != Bool && pos < Digits(ty)
  }

  predicate Valid(f: Fixed) {
    ValidFormat(f.ty, f.pos) && InRange(f.ty, f.val)
  }

  /** Fixed(): raw 0. */
  function Default(ty: IntType, pos: nat): (f: Fixed)
    requires ValidFormat(ty, pos)
    ensures Valid(f) && f.val == 0
  {
    Fixed(ty, pos, 0)
  }

  /** Fixed(char / short / int / long value): static_cast<_Ty>(value << _Pos). */
  function FromInt(ty: IntType, pos: nat, n: int): (f: Fixed)
    requires ValidFormat(ty, pos)
    ensures Valid(f) && f.ty == ty && f.pos == pos
    ensures InRange(ty, n * Pow2(pos)) ==> f.val == n * Pow2(pos)
  {
    NarrowSpec(ty, ShiftLeft(n, pos));
    Fixed(ty, pos, Narrow(ty, ShiftLeft(n, pos)))
  }

  /**
   * _Convert: the raw value of `src` rescaled to position `pos`, shifting
   * left by the difference when `pos` is the larger position and right
   * otherwise, computed in Type_Max and returned as `ty`.
   */
  function ConvertRaw(ty: IntType, pos: nat, src: Fixed): int
    requires ty != Bool && TypeMax(ty, src.ty).Some?
  {
    var tm := TypeMax(ty, src.ty).value;
    var posdiff := PosMax(pos, src.pos) - PosMin(pos, src.pos);
    Narrow(ty, Narrow(tm, EvaluateShift(PosMaxBool(pos, src.pos), src.val, posdiff)))
  }

  /** The converting constructor Fixed<ty, pos>(const Fixed<_Other, _Pos_Other>&). */
  function Convert(ty: IntType, pos: nat, src: Fixed): (f: Fixed)
    requires ValidFormat(ty, pos) && TypeMax(ty, src.ty).Some?
    ensures f.ty == ty && f.pos == pos && Valid(f)
  {
    NarrowSpec(ty, Narrow(TypeMax(ty, src.ty).value, EvaluateShift(PosMaxBool(pos, src.pos), src.val,
      PosMax(pos, src.pos) - PosMin(pos, src.pos))));
    Fixed(ty, pos, ConvertRaw(ty, pos, src))
  }

  /** The shift amounts a conversion uses. */
  lemma ConvertShifts(ty: IntType, pos: nat, src: Fixed)
    requires ValidFormat(ty, pos) && TypeMax(ty, src.ty).Some?
    ensures var tm := TypeMax(ty, src.ty).value;
      && (pos > src.pos ==> ConvertRaw(ty, pos, src) == Narrow(ty, Narrow(tm, src.val * Pow2(pos - src.pos))))
      && (pos <= src.pos ==> ConvertRaw(ty, pos, src) == Narrow(ty, Narrow(tm, src.val / Pow2(src.pos - pos))))
  {
  }

  /** Converting a valid value to its own format changes nothing. */
  lemma ConvertSameFormat(f: Fixed)
    requires Valid(f) && TypeMax(f.ty, f.ty).Some?
    ensures Convert(f.ty, f.pos, f) == f
  {
    assert TypeMax(f.ty, f.ty) == Some(f.ty);
    assert EvaluateShift(false, f.val, 0) == f.val;
    NarrowSpec(f.ty, f.val);
  }

  /**
   * Moving k positions up and back within the same type returns the value,
   * when the widened raw value fits the type.
   */
  lemma ConvertRoundTrip(f: Fixed, k: nat)
    requires Valid(f) && ValidFormat(f.ty, f.pos + k) && f.ty in {Int8, Int16, Int32}
    requires InRange(f.ty, f.val * Pow2(k))
    ensures Convert(f.ty, f.pos, Convert(f.ty, f.pos + k, f)) == f
  {
    var up := Convert(f.ty, f.pos + k, f);
    assert TypeMax(f.ty, f.ty) == Some(f.ty);
    if k > 0 {
      ConvertShifts(f.ty, f.pos + k, f);
      NarrowSpec(f.ty, f.val * Pow2(k));
      assert up.val == f.val * Pow2(k);
    } else {
      ConvertSameFormat(f);
    }
    ConvertShifts(f.ty, f.pos, up);
    ShiftRightLeft(f.val, k);
    assert ShiftLeft(f.val, k) == f.val * Pow2(k);
    NarrowSpec(f.ty, f.val);
  }

  /** _FromInteger: store a raw value into a Fixed<ty, pos> without rescaling. */
  function FromInteger(ty: IntType, pos: nat, value: int): (f: Fixed)
    requires ValidFormat(ty, pos)
    ensures Valid(f) && f.ty == ty && f.pos == pos
    ensures InRange(ty, value) ==> f.val == value
  {
    NarrowSpec(ty, value);
    Fixed(ty, pos, Narrow(ty, value))
  }

  /** Operands of a binary operator: both sides converted to (Type_Max, Pos_Max). */
  predicate Compatible(a: Fixed, b: Fixed) {
    Valid(a) && Valid(b) && TypeMax(a.ty, b.ty).Some?
  }

  function CommonLeft(a: Fixed, b: Fixed): (f: Fixed)
    requires Compatible(a, b)
    ensures Valid(f)
  {
    TypeMaxTable(a.ty, b.ty);
    Convert(TypeMax(a.ty, b.ty).value, PosMax(a.pos, b.pos), a)
  }

  function CommonRight(a: Fixed, b: Fixed): (f: Fixed)
    requires Compatible(a, b)
    ensures Valid(f)
  {
    TypeMaxTable(a.ty, b.ty);
    TypeMaxTable(TypeMax(a.ty, b.ty).value, b.ty);
    Convert(TypeMax(a.ty, b.ty).value, PosMax(a.pos, b.pos), b)
  }

  /** operator+. */
  function Plus(a: Fixed, b: Fixed): (r: Fixed)
    requires Compatible(a, b)
    ensures Valid(r) && r.ty == a.ty && r.pos == a.pos
  {
    FromInteger(a.ty, a.pos, CommonLeft(a, b).val + CommonRight(a, b).val)
  }

  /** operator-. */
  function Minus(a: Fixed, b: Fixed): (r: Fixed)
    requires Compatible(a, b)
    ensures Valid(r) && r.ty == a.ty && r.pos == a.pos
  {
    FromInteger(a.ty, a.pos, CommonLeft(a, b).val - CommonRight(a, b).val)
  }

  /** operator*: the product in the next wider type, shifted right by Pos_Max. */
  function Times(a: Fixed, b: Fixed): (r: Fixed)
    requires Compatible(a, b)
    ensures Valid(r) && r.ty == a.ty && r.pos == a.pos
  {
    FromInteger(a.ty, a.pos, ShiftRight(CommonLeft(a, b).val * CommonRight(a, b).val, PosMax(a.pos, b.pos)))
  }

  /** operator/: the left raw value shifted left by Pos_Max in the next wider type, divided with C++ `/`. */
  function Divide(a: Fixed, b: Fixed): (r: Fixed)
    requires Compatible(a, b) && CommonRight(a, b).val != 0
    ensures Valid(r) && r.ty == a.ty && r.pos == a.pos
  {
    FromInteger(a.ty, a.pos, CDiv(ShiftLeft(CommonLeft(a, b).val, PosMax(a.pos, b.pos)), CommonRight(a, b).val))
  }

  /** The width argument for the wider type: a product of two values of t fits NextGreater(t). */
  lemma NextGreaterHoldsProduct(t: IntType, x: int, y: int)
    requires t in {Int8, Int16, Int32} && InRange(t, x) && InRange(t, y)
    ensures InRange(NextGreater(t).value, x * y)
  {
    var d := Digits(t);
    var h := Pow2(d);
    Pow2Add(d, d);
    assert Digits(NextGreater(t).value) == 2 * d + 1;
    Pow2Monotone(2 * d, 2 * d + 1);
    ProductBound(x, y, h);
  }

  /** The dividend of `/`, a value of t shifted left by fewer than digits(t) places, fits NextGreater(t). */
  lemma NextGreaterHoldsShift(t: IntType, x: int, k: nat)
    requires t in {Int8, Int16, Int32} && InRange(t, x) && k < Digits(t)
    ensures InRange(NextGreater(t).value, x * Pow2(k))
  {
    Pow2Monotone(k + 1, Digits(t));
    NextGreaterHoldsProduct(t, x, Pow2(k));
  }

  lemma ProductBound(x: int, y: int, h: int)
    requires h > 0 && -h <= x < h && -h <= y < h
    ensures -(h * h) <= x * y <= h * h
  {
    var ax, ay := Abs(x), Abs(y);
    MulMonotone(ax, h, ay);
    MulMonotone(ay, h, h);
    AbsMul(x, y);
  }

  lemma AbsMul(x: int, y: int)
    ensures Abs(x * y) == Abs(x) * Abs(y)
  {
    if x < 0 && y >= 0 {
      assert x * y == -((-x) * y);
    } else if x >= 0 && y < 0 {
      assert x * y == -(x * (-y));
    } else if x < 0 && y < 0 {
      assert x * y == (-x) * (-y);
    }
  }

  /** With the same type and position, both operands are used as they are. */
  lemma SameFormatOperands(a: Fixed, b: Fixed)
    requires Compatible(a, b) && a.ty == b.ty && a.pos == b.pos
    ensures CommonLeft(a, b) == a && CommonRight(a, b) == b && PosMax(a.pos, b.pos) == a.pos
  {
    assert TypeMax(a.ty, b.ty) == Some(a.ty);
    ConvertSameFormat(a);
    ConvertSameFormat(b);
  }

  /** Same type and position: `+` and `-` are the raw sum and difference. */
  lemma PlusMinusSameFormat(a: Fixed, b: Fixed)
    requires Compatible(a, b) && a.ty == b.ty && a.pos == b.pos
    ensures Plus(a, b).val == Narrow(a.ty, a.val + b.val)
    ensures Minus(a, b).val == Narrow(a.ty, a.val - b.val)
    ensures InRange(a.ty, a.val + b.val) ==> Plus(a, b).val == a.val + b.val
    ensures InRange(a.ty, a.val - b.val) ==> Minus(a, b).val == a.val - b.val
  {
    SameFormatOperands(a, b);
    assert Plus(a, b) == FromInteger(a.ty, a.pos, a.val + b.val);
    assert Minus(a, b) == FromInteger(a.ty, a.pos, a.val - b.val);
  }

  /**
   * Same type and position: `*` is (a * b) >> pos, the product of the
   * values rounded down to a multiple of 2^-pos.
   */
  lemma TimesSameFormat(a: Fixed, b: Fixed)
    requires Compatible(a, b) && a.ty == b.ty && a.pos == b.pos
    ensures var r := ShiftRight(a.val * b.val, a.pos);
      && Times(a, b).val == Narrow(a.ty, r)
      && (InRange(a.ty, r) ==> Times(a, b).val == r)
      && r * Pow2(a.pos) <= a.val * b.val < r * Pow2(a.pos) + Pow2(a.pos)
  {
    SameFormatOperands(a, b);
    var r := ShiftRight(a.val * b.val, a.pos);
    assert Times(a, b) == FromInteger(a.ty, a.pos, r);
    NarrowSpec(a.ty, r);
  }

  /**
   * Same type and position: `/` is (a << pos) / b with C++ division, the
   * quotient of the values truncated toward zero to a multiple of 2^-pos.
   */
  lemma DivideSameFormat(a: Fixed, b: Fixed)
    requires Compatible(a, b) && a.ty == b.ty && a.pos == b.pos && b.val != 0
    ensures CommonRight(a, b).val == b.val
    ensures var n := ShiftLeft(a.val, a.pos);
      var q := CDiv(n, b.val);
      var rem := n - q * b.val;
      && Divide(a, b).val == Narrow(a.ty, q)
      && (InRange(a.ty, q) ==> Divide(a, b).val == q)
      && Abs(rem) < Abs(b.val) && (rem == 0 || ((rem < 0) <==> (a.val < 0)))
  {
    SameFormatOperands(a, b);
    var n := ShiftLeft(a.val, a.pos);
    var q := CDiv(n, b.val);
    assert Divide(a, b) == FromInteger(a.ty, a.pos, q);
    NarrowSpec(a.ty, q);
    CDivTruncates(n, b.val);
  }

  /**
   * Mixed positions: the sum is formed at the larger position and stored as
   * it is at the left operand's position. 1.0 at position 8 plus 1.0 at
   * position 16 has raw value 2^17, which at position 8 reads 512.0.
   */
  lemma MixedPositionSum()
    ensures Plus(Fixed(Int32, 8, 256), Fixed(Int32, 16, 65536)) == Fixed(Int32, 8, 131072)
  {
    var a, b := Fixed(Int32, 8, 256), Fixed(Int32, 16, 65536);
    assert Pow2(8) == 256;
    assert CommonLeft(a, b).val == 65536 by {
      ConvertShifts(Int32, 16, a);
      NarrowSpec(Int32, 65536);
    }
    assert CommonRight(a, b).val == 65536 by {
      ConvertShifts(Int32, 16, b);
      NarrowSpec(Int32, 65536);
    }
    NarrowSpec(Int32, 131072);
  }

  // ---------------------------------------------------------------------
  // Comparisons and accessors
  // ---------------------------------------------------------------------

  function Lt(a: Fixed, b: Fixed): bool
    requires Compatible(a, b)
  {
    CommonLeft(a, b).val < CommonRight(a, b).val
  }

  function Gt(a: Fixed, b: Fixed): bool
    requires Compatible(a, b)
  {
    CommonLeft(a, b).val > CommonRight(a, b).val
  }

  function Le(a: Fixed, b: Fixed): bool
    requires Compatible(a, b)
  {
    CommonLeft(a, b).val <= CommonRight(a, b).val
  }

  function Ge(a: Fixed, b: Fixed): bool
    requires Compatible(a, b)
  {
    CommonLeft(a, b).val >= CommonRight(a, b).val
  }

  function Eq(a: Fixed, b: Fixed): bool
    requires Compatible(a, b)
  {
    CommonLeft(a, b).val == CommonRight(a, b).val
  }

  function Ne(a: Fixed, b: Fixed): bool
    requires Compatible(a, b)
  {
    CommonLeft(a, b).val != CommonRight(a, b).val
  }

  /** `==`/`!=`, `<`/`>=` and `>`/`<=` are complements, and exactly one of <, ==, > holds. */
  lemma ComparisonsComplement(a: Fixed, b: Fixed)
    requires Compatible(a, b)
    ensures Ne(a, b) == !Eq(a, b)
    ensures Ge(a, b) == !Lt(a, b)
    ensures Le(a, b) == !Gt(a, b)
    ensures (Lt(a, b) || Eq(a, b) || Gt(a, b)) && !(Lt(a, b) && Gt(a, b))
    ensures !(Lt(a, b) && Eq(a, b)) && !(Gt(a, b) && Eq(a, b))
  {
  }

  /** With the same type and position the comparisons are those of the raw values. */
  lemma ComparisonsSameFormat(a: Fixed, b: Fixed)
    requires Compatible(a, b) && a.ty == b.ty && a.pos == b.pos
    ensures Lt(a, b) <==> a.val < b.val
    ensures Gt(a, b) <==> a.val > b.val
    ensures Le(a, b) <==> a.val <= b.val
    ensures Ge(a, b) <==> a.val >= b.val
    ensures Eq(a, b) <==> a == b
    ensures Ne(a, b) <==> a != b
  {
    ConvertSameFormat(a);
    ConvertSameFormat(b);
    SameFormatOperands(a, b);
  }

  /** operator!: the raw value is zero. */
  function Not(a: Fixed): (r: bool)
    ensures r <==> a.val == 0
  {
    !(a.val != 0)
  }

  /** GetFixed. */
  function GetFixed(a: Fixed): int {
    a.val
  }

  /** GetValue: the integer part, val >> pos. */
  function GetValue(a: Fixed): (n: int)
    ensures n * Pow2(a.pos) <= a.val < (n + 1) * Pow2(a.pos)
  {
    ShiftRight(a.val, a.pos)
  }

  /** GetPoint. */
  function GetPoint(a: Fixed): nat {
    a.pos
  }

  /** Construction from an integer and GetValue round-trip whenever n * 2^pos fits the type. */
  lemma GetValueFromInt(ty: IntType, pos: nat, n: int)
    requires ValidFormat(ty, pos) && InRange(ty, n * Pow2(pos))
    ensures GetValue(FromInt(ty, pos, n)) == n
    ensures GetFixed(FromInt(ty, pos, n)) == n * Pow2(pos) && GetPoint(FromInt(ty, pos, n)) == pos
  {
    ShiftRightLeft(n, pos);
  }

  /** One unit, Fixed<ty, pos>(1), always fits: 2^pos is below 2^digits. */
  lemma OneFits(ty: IntType, pos: nat)
    requires ValidFormat(ty, pos)
    ensures FromInt(ty, pos, 1).val == Pow2(pos)
  {
    Pow2Monotone(pos + 1, Digits(ty));
    assert InRange(ty, 1 * Pow2(pos));
  }

  // ---------------------------------------------------------------------
  // floor and ceil
  // ---------------------------------------------------------------------

  /** `x & ~((1 << p) - 1)` on a two's-complement value: clear the p low bits, rounding down. */
  function ClearLowBits(x: int, p: nat): int {
    (x / Pow2(p)) * Pow2(p)
  }

  /** floor() as written: a default temporary, its low bits cleared; `*this` is never read. */
  method FloorAsWritten(x: Fixed) returns (r: Fixed)
    requires Valid(x)
    ensures r == Fixed(x.ty, x.pos, 0)
  {
    var tmpf := Default(x.ty, x.pos);
    DivModUnique(0, Pow2(x.pos), 0, 0);
    tmpf := tmpf.(val := ClearLowBits(tmpf.val, x.pos));
    return tmpf;
  }

  /** ceil() as written: a default temporary, one unit less an ulp added, low bits cleared. */
  method CeilAsWritten(x: Fixed) returns (r: Fixed)
    requires Valid(x)
    ensures r == Fixed(x.ty, x.pos, 0)
  {
    var tmpf := Default(x.ty, x.pos);
    var mask := ShiftLeft(1, x.pos) - 1;
    Pow2Monotone(x.pos + 1, Digits(x.ty));
    NarrowSpec(x.ty, tmpf.val + mask);
    tmpf := tmpf.(val := Narrow(x.ty, tmpf.val + mask));
    DivModUnique(mask, Pow2(x.pos), 0, mask);
    tmpf := tmpf.(val := ClearLowBits(tmpf.val, x.pos));
    return tmpf;
  }

  /** floor() as evidently intended: the temporary starts as a copy of `*this`. */
  function FloorIntended(x: Fixed): (r: Fixed)
    requires Valid(x)
  {
    x.(val := ClearLowBits(x.val, x.pos))
  }

  /** ceil() as evidently intended: add one unit less an ulp to a copy of `*this`, then clear the low bits. */
  function CeilIntended(x: Fixed): (r: Fixed)
    requires Valid(x)
  {
    x.(val := ClearLowBits(Narrow(x.ty, x.val + (Pow2(x.pos) - 1)), x.pos))
  }

  /** The intended floor is the largest whole value not above x. */
  lemma FloorIntendedIsFloor(x: Fixed)
    requires Valid(x)
    ensures var r := FloorIntended(x);
      && Valid(r) && r.ty == x.ty && r.pos == x.pos
      && r.val <= x.val < r.val + Pow2(x.pos)
      && r.val % Pow2(x.pos) == 0
  {
    ClearLowBitsRoundsDown(x.val, x.pos);
    WholeFloorInRange(x.ty, x.pos, x.val, x.val / Pow2(x.pos));
  }

  /** Clearing the p low bits gives the largest multiple of 2^p not above v. */
  lemma ClearLowBitsRoundsDown(v: int, p: nat)
    ensures var r := ClearLowBits(v, p);
      r <= v < r + Pow2(p) && r % Pow2(p) == 0
  {
    var d := Pow2(p);
    var q := v / d;
    assert v == d * q + v % d;
    DivMulExact(d, q);
    assert q * d == d * q;
  }

  /** Rounding a value of the type down to a multiple of 2^pos stays above the type's minimum. */
  lemma WholeFloorInRange(ty: IntType, pos: nat, v: int, q: int)
    requires ValidFormat(ty, pos) && InRange(ty, v)
    requires q * Pow2(pos) <= v < q * Pow2(pos) + Pow2(pos)
    ensures InRange(ty, q * Pow2(pos))
  {
    var p := Pow2(pos);
    var k: nat := Digits(ty) - pos;
    Pow2Add(pos, k);
    MultipleBelowBound(p, Pow2(k), v, q);
  }

  /** A multiple q * p within p above a value not below -(p * c) is itself not below -(p * c). */
  lemma MultipleBelowBound(p: int, c: int, v: int, q: int)
    requires p > 0 && c >= 0 && -(p * c) <= v && q * p <= v < q * p + p
    ensures -(p * c) <= q * p
  {
    if q < -c {
      MulMonotone(q + 1, -c, p);
    }
  }

  /** The intended ceil is the smallest whole value not below x, when that value fits. */
  lemma CeilIntendedIsCeil(x: Fixed)
    requires Valid(x) && InRange(x.ty, x.val + (Pow2(x.pos) - 1))
    ensures var r := CeilIntended(x);
      && Valid(r) && r.ty == x.ty && r.pos == x.pos
      && x.val <= r.val < x.val + Pow2(x.pos)
      && r.val % Pow2(x.pos) == 0
  {
    var w := x.val + (Pow2(x.pos) - 1);
    NarrowSpec(x.ty, w);
    ClearLowBitsRoundsDown(w, x.pos);
    WholeFloorInRange(x.ty, x.pos, w, w / Pow2(x.pos));
  }

  /** 2.5 at position 1 of int8: floor() as written gives 0, the intended floor 2.0 and ceil 3.0. */
  lemma FloorCeilCounterexample()
    ensures Valid(Fixed(Int8, 1, 5))
    ensures FloorIntended(Fixed(Int8, 1, 5)) == Fixed(Int8, 1, 4)
    ensures CeilIntended(Fixed(Int8, 1, 5)) == Fixed(Int8, 1, 6)
  {
    assert Pow2(1) == 2;
    NarrowSpec(Int8, 6);
  }

  // ---------------------------------------------------------------------
  // The members that reassign _val
  // ---------------------------------------------------------------------

  class MutableFixed {
    const ty: IntType
    const pos: nat
    var val: int

    function Get(): Fixed
      reads this
    {
      Fixed(ty, pos, val)
    }

    /** Fixed(const Fixed&): a copy. */
    constructor (f: Fixed)
      ensures Get() == f
    {
      ty, pos, val := f.ty, f.pos, f.val;
    }

    /** operator+=: *this = *this + right. */
    method AddAssign(right: Fixed)
      requires Compatible(Get(), right)
      modifies this
      ensures Get() == Plus(old(Get()), right)
    {
      val := Plus(Get(), right).val;
    }

    /** operator-=: *this = *this - right. */
    method SubAssign(right: Fixed)
      requires Compatible(Get(), right)
      modifies this
      ensures Get() == Minus(old(Get()), right)
    {
      val := Minus(Get(), right).val;
    }

    /** operator*=: *this = *this * right. */
    method MulAssign(right: Fixed)
      requires Compatible(Get(), right)
      modifies this
      ensures Get() == Times(old(Get()), right)
    {
      val := Times(Get(), right).val;
    }

    /** operator/=: *this = *this / right. */
    method DivAssign(right: Fixed)
      requires Compatible(Get(), right) && CommonRight(Get(), right).val != 0
      modifies this
      ensures Get() == Divide(old(Get()), right)
    {
      val := Divide(Get(), right).val;
    }

    /** Prefix ++: add one unit, return the new value. */
    method PreIncrement() returns (r: Fixed)
      requires Valid(Get()) && ty in {Int8, Int16, Int32}
      modifies this
      ensures Get() == Plus(old(Get()), FromInt(ty, pos, 1)) && r == Get()
    {
      val := Plus(Get(), FromInt(ty, pos, 1)).val;
      r := Get();
    }

    /** Postfix ++: add one unit, return the old value. */
    method PostIncrement() returns (r: Fixed)
      requires Valid(Get()) && ty in {Int8, Int16, Int32}
      modifies this
      ensures Get() == Plus(old(Get()), FromInt(ty, pos, 1)) && r == old(Get())
    {
      var tmp := Get();
      val := Plus(Get(), FromInt(ty, pos, 1)).val;
      r := tmp;
    }

    /** Prefix --: subtract one unit, return the new value. */
    method PreDecrement() returns (r: Fixed)
      requires Valid(Get()) && ty in {Int8, Int16, Int32}
      modifies this
      ensures Get() == Minus(old(Get()), FromInt(ty, pos, 1)) && r == Get()
    {
      val := Minus(Get(), FromInt(ty, pos, 1)).val;
      r := Get();
    }

    /** Postfix --: subtract one unit, return the old value. */
    method PostDecrement() returns (r: Fixed)
      requires Valid(Get()) && ty in {Int8, Int16, Int32}
      modifies this
      ensures Get() == Minus(old(Get()), FromInt(ty, pos, 1)) && r == old(Get())
    {
      var tmp := Get();
      val := Minus(Get(), FromInt(ty, pos, 1)).val;
      r := tmp;
    }
  }

  /** ++ and -- move the raw value by one unit, 2^pos, wrapping in the type. */
  lemma IncrementDecrementStep(x: Fixed)
    requires Valid(x) && x.ty in {Int8, Int16, Int32}
    ensures Plus(x, FromInt(x.ty, x.pos, 1)).val == Narrow(x.ty, x.val + Pow2(x.pos))
    ensures Minus(x, FromInt(x.ty, x.pos, 1)).val == Narrow(x.ty, x.val - Pow2(x.pos))
    ensures InRange(x.ty, x.val + Pow2(x.pos)) ==> Plus(x, FromInt(x.ty, x.pos, 1)).val == x.val + Pow2(x.pos)
    ensures InRange(x.ty, x.val - Pow2(x.pos)) ==> Minus(x, FromInt(x.ty, x.pos, 1)).val == x.val - Pow2(x.pos)
  {
    OneFits(x.ty, x.pos);
    PlusMinusSameFormat(x, FromInt(x.ty, x.pos, 1));
  }
}
