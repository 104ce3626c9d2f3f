/**
 * vector/vector2.h: `Vector2<T>`, a pair of scalars with componentwise
 * arithmetic and a dot product. The scalar type is taken as `real`: the
 * `float` and `double` instantiations without rounding. The truncating `/`
 * of the `int` instantiations is not part of this model.
 */
module Vec2 {
  datatype Vector2 = Vector2(x: real, y: real)

  /** Vector2(): both components zero. */
  function Default(): (v: Vector2)
    ensures v.x == 0.0 && v.y == 0.0
  {
    Vector2(0.0, 0.0)
  }

  /** The copy constructor. */
  function Copy(v: Vector2): (r: Vector2)
    ensures r == v
  {
    Vector2(v.x, v.y)
  }

  /** Vector `+`. */
  function Add(u: Vector2, v: Vector2): Vector2 {
    Vector2(u.x + v.x, u.y + v.y)
  }

  /** Vector `-`. */
  function Sub(u: Vector2, v: Vector2): Vector2 {
    Vector2(u.x - v.x, u.y - v.y)
  }

  /** `operator*(const Vector2&)`: the dot product. */
  function Dot(u: Vector2, v: Vector2): real {
    u.x * v.x + u.y * v.y
  }

  /** Scalar `+`, added to both components. */
  function AddScalar(v: Vector2, s: real): Vector2 {
    Vector2(v.x + s, v.y + s)
  }

  /** Scalar `-`. */
  function SubScalar(v: Vector2, s: real): Vector2 {
    Vector2(v.x - s, v.y - s)
  }

  /** Scalar `*`. */
  function Scale(v: Vector2, s: real): Vector2 {
    Vector2(v.x * s, v.y * s)
  }

  /** Scalar `/`. */
  function DivScalar(v: Vector2, s: real): Vector2
    requires s != 0.0
  {
    Vector2(v.x / s, v.y / s)
  }

  /** `+` and `-` are inverse, `+` is commutative, and the default vector is the unit of `+`. */
  lemma AddSubInverse(u: Vector2, v: Vector2)
    ensures Sub(Add(u, v), v) == u && Add(Sub(u, v), v) == u
    ensures Add(u, v) == Add(v, u)
    ensures Add(u, Default()) == u && Sub(u, u) == Default()
  {
  }

  /** The scalar operators undo each other. */
  lemma ScalarInverse(v: Vector2, s: real)
    ensures SubScalar(AddScalar(v, s), s) == v
    ensures s != 0.0 ==> DivScalar(Scale(v, s), s) == v && Scale(DivScalar(v, s), s) == v
  {
  }

  /** The dot product is symmetric and linear in its first argument. */
  lemma DotBilinear(u: Vector2, v: Vector2, w: Vector2, s: real)
    ensures Dot(u, v) == Dot(v, u)
    ensures Dot(Add(u, v), w) == Dot(u, w) + Dot(v, w)
    ensures Dot(Scale(u, s), v) == s * Dot(u, v)
  {
  }
}
