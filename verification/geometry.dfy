/**
 Positions and rotations as the server stores and relays them: three
 coordinates each.
 */
module Geometry {

  /** A point, or a rotation given by its three Euler angles. */
  datatype Vec3 = Vec3(x: int, y: int, z: int)

  /** The rotation every new player starts with: zero about every axis. */
  const Origin: Vec3 := Vec3(0, 0, 0)

  /** Square of the Euclidean distance between two points. */
  function SquaredDistance(a: Vec3, b: Vec3): int
  {
    (a.x - b.x) * (a.x - b.x) + (a.y - b.y) * (a.y - b.y) + (a.z - b.z) * (a.z - b.z)
  }
}
