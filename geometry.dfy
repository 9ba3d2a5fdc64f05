/** Symbolic 4x4 transforms, vectors and quaternions.

    The viewer delegates all matrix and quaternion numerics to its `transform`
    helper module (translate, rotate, scale, quaternion_matrix,
    quaternion_slerp, identity).  Here those operations are constructors of a
    free term algebra: a product `a @ b` is kept as the term `Mul(a, b)`, in
    exactly the bracketing the viewer computes.  Every equation proved over
    these terms is syntactic, so it holds under any interpretation of the
    matrix operations. Only linear interpolation is given its arithmetic
    meaning, because the scale track uses it on plain numbers and the
    translation track on vectors, one coordinate at a time. */
module Geometry {

  /** A point or direction with three real coordinates (translation keys). */
  datatype Vec3 = Vec3(x: real, y: real, z: real)

  /** A quaternion given by its coordinates, or the spherical interpolation
      between two quaternions (quaternion_slerp), kept symbolic. */
  datatype Quat =
    | Quat(w: real, x: real, y: real, z: real)
    | Slerp(from: Quat, to: Quat, fraction: real)

  /** Rotation axes used by the interactive controller.
      YAxis is the world up axis (0, 1, 0); Heading(yaw) stands for the unit
      axis (-cos(yaw deg), 0, sin(yaw deg)) computed from a yaw counter. */
  datatype Axis = YAxis | Heading(yaw: int)

  /** A 4x4 affine transform as an unevaluated term. */
  datatype Mat4 =
    | Identity
    | Translate(offset: Vec3)
    | Rotate(axis: Axis, degrees: int)
    | Scale(factor: real)
    | QuatMatrix(q: Quat)
    | Mul(left: Mat4, right: Mat4)

  /** Linear interpolation of numbers: a + fraction * (b - a). */
  function Lerp(a: real, b: real, fraction: real): real
  {
    a + fraction * (b - a)
  }

  /** Linear interpolation of vectors, coordinate by coordinate. */
  function LerpVec(a: Vec3, b: Vec3, fraction: real): Vec3
  {
    Vec3(Lerp(a.x, b.x, fraction), Lerp(a.y, b.y, fraction), Lerp(a.z, b.z, fraction))
  }

  /** Spherical interpolation of rotations, kept as a term. */
  function QuaternionSlerp(a: Quat, b: Quat, fraction: real): Quat
  {
    Slerp(a, b, fraction)
  }

  /** For a fraction in [0, 1] linear interpolation never leaves the
      interval spanned by its two end points. */
  lemma LerpBetween(a: real, b: real, fraction: real)
    requires 0.0 <= fraction <= 1.0
    ensures a <= b ==> a <= Lerp(a, b, fraction) <= b
    ensures b <= a ==> b <= Lerp(a, b, fraction) <= a
  {
    if a <= b {
      LerpRising(a, b, fraction);
    }
    if b <= a {
      LerpFalling(a, b, fraction);
    }
  }

  lemma LerpRising(a: real, b: real, fraction: real)
    requires 0.0 <= fraction <= 1.0 && a <= b
    ensures a <= Lerp(a, b, fraction) <= b
  {
    var d := b - a;
    MulBoundsNonNegative(fraction, d);
    assert Lerp(a, b, fraction) == a + fraction * d;
  }

  lemma LerpFalling(a: real, b: real, fraction: real)
    requires 0.0 <= fraction <= 1.0 && b <= a
    ensures b <= Lerp(a, b, fraction) <= a
  {
    var d := b - a;
    if d < 0.0 {
      MulBoundsNegative(fraction, d);
    } else {
      MulBoundsNonNegative(fraction, d);
    }
    assert Lerp(a, b, fraction) == a + fraction * d;
  }

  /** Linear interpolation moves monotonically with the fraction towards
      the second end point. */
  lemma LerpMonotone(a: real, b: real, f1: real, f2: real)
    requires f1 <= f2
    ensures a <= b ==> Lerp(a, b, f1) <= Lerp(a, b, f2)
    ensures b <= a ==> Lerp(a, b, f2) <= Lerp(a, b, f1)
  {
    var d := b - a;
    if 0.0 <= d {
      MulMonotone(f1, f2, d);
    } else {
      MulAntitone(f1, f2, d);
    }
    assert Lerp(a, b, f1) == a + f1 * d && Lerp(a, b, f2) == a + f2 * d;
  }

  lemma MulBoundsNonNegative(f: real, d: real)
    requires 0.0 <= f <= 1.0 && 0.0 <= d
    ensures 0.0 <= f * d <= d
  {
  }

  lemma MulBoundsNegative(f: real, d: real)
    requires 0.0 <= f <= 1.0 && d < 0.0
    ensures d <= f * d <= 0.0
  {
  }

  lemma MulMonotone(f1: real, f2: real, d: real)
    requires f1 <= f2 && 0.0 <= d
    ensures f1 * d <= f2 * d
  {
    assert f2 * d - f1 * d == (f2 - f1) * d;
  }

  lemma MulAntitone(f1: real, f2: real, d: real)
    requires f1 <= f2 && d < 0.0
    ensures f2 * d <= f1 * d
  {
  }
}
