/**
 * vector/vector3.h: `Vector3<T>` with componentwise arithmetic, the free
 * functions `dot` and `cross`, and the z-based `operator<` used for
 * sorting. Scalars are `real`. The binary operators return new values and
 * are functions; the compound assignments reassign `*this` and are methods
 * of `MutableVector3`.
 */
module Vec3 {
  datatype Vector3 = Vector3(x: real, y: real, z: real)

  /** Vector3(): all three components zero. */
  function Default(): (v: Vector3)
    ensures v.x == 0.0 && v.y == 0.0 && v.z == 0.0
  {
    Vector3(0.0, 0.0, 0.0)
  }

  function Neg(v: Vector3): Vector3 {
    Vector3(-v.x, -v.y, -v.z)
  }

  /** Vector `+`. */
  function Add(u: Vector3, v: Vector3): Vector3 {
    Vector3(u.x + v.x, u.y + v.y, u.z + v.z)
  }

  /** Vector `-`. */
  function Sub(u: Vector3, v: Vector3): Vector3 {
    Vector3(u.x - v.x, u.y - v.y, u.z - v.z)
  }

  /** Scalar `+`. */
  function AddScalar(v: Vector3, s: real): Vector3 {
    Vector3(v.x + s, v.y + s, v.z + s)
  }

  /** Scalar `-`. */
  function SubScalar(v: Vector3, s: real): Vector3 {
    Vector3(v.x - s, v.y - s, v.z - s)
  }

  /** Scalar `*`. */
  function Scale(v: Vector3, s: real): Vector3 {
    Vector3(v.x * s, v.y * s, v.z * s)
  }

  /** Scalar `/`. */
  function DivScalar(v: Vector3, s: real): Vector3
    requires s != 0.0
  {
    Vector3(v.x / s, v.y / s, v.z / s)
  }

  /** `operator<`: compares z only, in reverse. */
  function Less(a: Vector3, b: Vector3): bool {
    a.z > b.z
  }

  /** dot. */
  function Dot(u: Vector3, v: Vector3): real {
    u.x * v.x + u.y * v.y + u.z * v.z
  }

  /** cross. */
  function Cross(u: Vector3, v: Vector3): Vector3 {
    Vector3(u.y * v.z - u.z * v.y,
            u.z * v.x - u.x * v.z,
            u.x * v.y - u.y * v.x)
  }

  /** `+` and `-` are inverse, `+` is commutative, and the default vector is the unit. */
  lemma AddSubInverse(u: Vector3, v: Vector3)
    ensures Sub(Add(u, v), v) == u && Add(Sub(u, v), v) == u
    ensures Add(u, v) == Add(v, u)
    ensures Add(u, Default()) == u && Sub(u, u) == Default()
  {
  }

  /** The scalar operators undo each other. */
  lemma ScalarInverse(v: Vector3, s: real)
    ensures SubScalar(AddScalar(v, s), s) == v
    ensures s != 0.0 ==> DivScalar(Scale(v, s), s) == v && Scale(DivScalar(v, s), s) == v
  {
  }

  /** dot is symmetric and linear in its first argument. */
  lemma DotBilinear(u: Vector3, v: Vector3, w: Vector3, s: real)
    ensures Dot(u, v) == Dot(v, u)
    ensures Dot(Add(u, v), w) == Dot(u, w) + Dot(v, w)
    ensures Dot(Scale(u, s), v) == s * Dot(u, v)
  {
  }

  /** cross is antisymmetric and vanishes on equal arguments. */
  lemma CrossAntisymmetric(u: Vector3, v: Vector3)
    ensures Cross(u, v) == Neg(Cross(v, u))
    ensures Cross(u, u) == Default()
  {
  }

  /** cross(u, v) is orthogonal to both u and v. */
  lemma CrossOrthogonal(u: Vector3, v: Vector3)
    ensures Dot(u, Cross(u, v)) == 0.0
    ensures Dot(v, Cross(u, v)) == 0.0
  {
  }

  /**
   * `<` orders by z in reverse, and is a strict weak order: irreflexive,
   * transitive, and incomparability (equal z) is transitive.
   */
  lemma LessIsStrictWeakOrder(a: Vector3, b: Vector3, c: Vector3)
    ensures Less(a, b) <==> a.z > b.z
    ensures !Less(a, a)
    ensures Less(a, b) ==> !Less(b, a)
    ensures Less(a, b) && Less(b, c) ==> Less(a, c)
    ensures !Less(a, b) && !Less(b, a) && !Less(b, c) && !Less(c, b) ==> !Less(a, c) && !Less(c, a)
  {
  }

  /** A Vector3 whose compound assignments reassign its three fields. */
  class MutableVector3 {
    var x: real
    var y: real
    var z: real

    function Get(): Vector3
      reads this
    {
      Vector3(x, y, z)
    }

    /** Vector3(): zero. */
    constructor Zero()
      ensures Get() == Default()
    {
      x, y, z := 0.0, 0.0, 0.0;
    }

    /** Vector3(a, b, c). */
    constructor (a: real, b: real, c: real)
      ensures Get() == Vector3(a, b, c)
    {
      x, y, z := a, b, c;
    }

    method Set(v: Vector3)
      modifies this
      ensures Get() == v
    {
      x, y, z := v.x, v.y, v.z;
    }

    /** `+=` with a vector. */
    method AddAssign(v: Vector3)
      modifies this
      ensures Get() == Add(old(Get()), v)
    {
      Set(Add(Get(), v));
    }

    /** `-=` with a vector. */
    method SubAssign(v: Vector3)
      modifies this
      ensures Get() == Sub(old(Get()), v)
    {
      Set(Sub(Get(), v));
    }

    /** `+=` with a scalar. */
    method AddScalarAssign(s: real)
      modifies this
      ensures Get() == AddScalar(old(Get()), s)
    {
      Set(AddScalar(Get(), s));
    }

    /** `-=` with a scalar. */
    method SubScalarAssign(s: real)
      modifies this
      ensures Get() == SubScalar(old(Get()), s)
    {
      Set(SubScalar(Get(), s));
    }

    /** `*=` with a scalar. */
    method ScaleAssign(s: real)
      modifies this
      ensures Get() == Scale(old(Get()), s)
    {
      Set(Scale(Get(), s));
    }

    /** `/=` with a scalar. */
    method DivScalarAssign(s: real)
      requires s != 0.0
      modifies this
      ensures Get() == DivScalar(old(Get()), s)
    {
      Set(DivScalar(Get(), s));
    }
  }
}
