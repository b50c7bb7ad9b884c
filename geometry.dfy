/**
 * The small part of the vector/matrix library the core needs, over exact reals.
 * Operations whose meaning depends on f32 rounding or on a square root
 * (normalize, the is_finite test on a length, parsing a float) are not
 * interpreted: they are handed in as a FloatOps value.
 */
module Geometry {
  import opened Wrappers

  datatype Vec2 = Vec2(x: real, y: real)
  datatype Vec3 = Vec3(x: real, y: real, z: real)
  datatype Vec4 = Vec4(x: real, y: real, z: real, w: real)

  const Zero3 := Vec3(0.0, 0.0, 0.0)

  /** A row-major 4x4 matrix, stored as its four rows. */
  datatype Mat4 = Mat4(r0: Vec4, r1: Vec4, r2: Vec4, r3: Vec4)

  function Dot4(a: Vec4, b: Vec4): real
  {
    a.x * b.x + a.y * b.y + a.z * b.z + a.w * b.w
  }

  /** Matrix times column vector: each output component is a row dotted with v. */
  function MulVec(m: Mat4, v: Vec4): Vec4
  {
    Vec4(Dot4(m.r0, v), Dot4(m.r1, v), Dot4(m.r2, v), Dot4(m.r3, v))
  }

  /** A per-vertex triple, the model of the source's `[T; 3]` arrays. */
  datatype Tri<T> = Tri(t0: T, t1: T, t2: T)
  {
    function At(i: nat): T
      requires i < 3
    {
      if i == 0 then t0 else if i == 1 then t1 else t2
    }
  }

  /**
   * The floating-point operations treated as given: `Vec3::normalize`,
   * the `length().is_finite()` test and `str::parse::<f32>`.
   */
  datatype FloatOps = FloatOps(
    normalize: Vec3 -> Vec3,
    finiteLength: Vec3 -> bool,
    parseFloat: string -> Option<real>)
}
