/**
 * Vectors, quaternions, bounds and rays over exact reals: the parts of
 * Unity's Vector3, Quaternion, Bounds and Ray that the buoyancy code uses.
 */
module Geometry {

  datatype Vec3 = Vec3(x: real, y: real, z: real)

  const Zero := Vec3(0.0, 0.0, 0.0)

  function Add(a: Vec3, b: Vec3): Vec3 {
    Vec3(a.x + b.x, a.y + b.y, a.z + b.z)
  }

  function Sub(a: Vec3, b: Vec3): Vec3 {
    Vec3(a.x - b.x, a.y - b.y, a.z - b.z)
  }

  /** Vector3 * float. */
  function Scale(v: Vec3, s: real): Vec3 {
    Vec3(v.x * s, v.y * s, v.z * s)
  }

  /** Vector3 / int, as in `GetBuoyancyForce() / voxels.Length`. */
  function Div(v: Vec3, n: int): Vec3
    requires n != 0
  {
    Vec3(v.x / n as real, v.y / n as real, v.z / n as real)
  }

  /** A quaternion (x, y, z, w) as Unity stores it. */
  datatype Quat = Quat(x: real, y: real, z: real, w: real)

  /** Quaternion.identity. */
  const Identity := Quat(0.0, 0.0, 0.0, 1.0)

  /** `q * v`: Unity's rotation of a vector by a (unit) quaternion. */
  function Rotate(q: Quat, v: Vec3): Vec3 {
    var x2, y2, z2 := q.x * 2.0, q.y * 2.0, q.z * 2.0;
    var xx, yy, zz := q.x * x2, q.y * y2, q.z * z2;
    var xy, xz, yz := q.x * y2, q.x * z2, q.y * z2;
    var wx, wy, wz := q.w * x2, q.w * y2, q.w * z2;
    Vec3((1.0 - (yy + zz)) * v.x + (xy - wz) * v.y + (xz + wy) * v.z,
         (xy + wz) * v.x + (1.0 - (xx + zz)) * v.y + (yz - wx) * v.z,
         (xz - wy) * v.x + (yz + wx) * v.y + (1.0 - (xx + yy)) * v.z)
  }

  /** The identity rotation leaves every vector where it is. */
  lemma RotateIdentity(v: Vec3)
    ensures Rotate(Identity, v) == v
  {
  }

  /** No rotation turns the zero vector into anything else. */
  lemma RotateZero(q: Quat)
    ensures Rotate(q, Zero) == Zero
  {
  }

  /** An axis-aligned box given by its minimum corner and its size. */
  datatype Bounds = Bounds(min: Vec3, size: Vec3)

  datatype Ray = Ray(origin: Vec3, direction: Vec3)
}
