/**
 * vector/vector4.h: `Vector4<T>`, a `Vector3<T>` with a fourth component
 * `w` that defaults to 1. Only constructors are defined; the Vector3 part
 * is reached by slicing (`Xyz`).
 */
module Vec4 {
  import opened Vec3

  datatype Vector4 = Vector4(x: real, y: real, z: real, w: real)

  /** The Vector3 base of a Vector4, as a slicing copy yields it. */
  function Xyz(v: Vector4): Vector3 {
    Vector3(v.x, v.y, v.z)
  }

  /** Vector4(): the Vector3 default (zero) and w = 1. */
  function Default(): (v: Vector4)
    ensures Xyz(v) == Vec3.Default() && v.w == 1.0
  {
    var base := Vec3.Default();
    Vector4(base.x, base.y, base.z, 1.0)
  }

  /** Vector4(a, b, c, d). */
  function Make(a: real, b: real, c: real, d: real): (v: Vector4)
    ensures Xyz(v) == Vector3(a, b, c) && v.w == d
  {
    var base := Vector3(a, b, c);
    Vector4(base.x, base.y, base.z, d)
  }

  /** Vector4(a, b, c): d takes its default 1. */
  function Make3(a: real, b: real, c: real): (v: Vector4)
    ensures Xyz(v) == Vector3(a, b, c) && v.w == 1.0
  {
    Make(a, b, c, 1.0)
  }

  /** Vector4(const Vector3&, d). */
  function FromVector3(base: Vector3, d: real): (v: Vector4)
    ensures Xyz(v) == base && v.w == d
  {
    Vector4(base.x, base.y, base.z, d)
  }

  /** Vector4(const Vector3&): d takes its default 1. */
  function FromVector3Default(base: Vector3): (v: Vector4)
    ensures Xyz(v) == base && v.w == 1.0
  {
    FromVector3(base, 1.0)
  }

  /** A Vector4 is determined by its Vector3 part and w, so slicing then rebuilding is the identity. */
  lemma SliceRebuild(v: Vector4)
    ensures FromVector3(Xyz(v), v.w) == v
    ensures Make(v.x, v.y, v.z, v.w) == v
  {
  }
}
