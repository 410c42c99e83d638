/**
 * Plain geometric values shared by the point store, the octree and the view:
 * three-component vectors and axis-aligned boxes. Coordinates are mathematical
 * reals; single and double precision rounding is not modelled.
 */
module Geometry {

  datatype Vec3 = Vec3(x: real, y: real, z: real)

  /** Axis-aligned box given by its two extreme corners. */
  datatype Box = Box(min: Vec3, max: Vec3)

  /** The origin, which `getPoleAt` returns for an index past the end. */
  const Origin := Vec3(0.0, 0.0, 0.0)

  function Add(a: Vec3, b: Vec3): Vec3
  {
    Vec3(a.x + b.x, a.y + b.y, a.z + b.z)
  }

  /** Box `b` moved by `off`. */
  function Translate(b: Box, off: Vec3): Box
  {
    Box(Add(b.min, off), Add(b.max, off))
  }

  function Sub(a: Vec3, b: Vec3): (r: Vec3)
    ensures Add(r, b) == a
  {
    Vec3(a.x - b.x, a.y - b.y, a.z - b.z)
  }
}
