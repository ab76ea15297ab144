/** Math.random(), which addBuilding calls twice for each District or Building it
    places, modelled as values the caller supplies. */
module Draws {
  import opened Geometry

  /** A value returned by Math.random(). */
  type Random = r: real | 0.0 <= r < 1.0

  /** The two Math.random() calls that place one new District or Building. */
  datatype Draw = Draw(rx: Random, rz: Random)

  /** The position a Draw gives: each coordinate is Math.random() - 0.5, so it lies within
      half a unit of the parent's origin on each axis. */
  function Offset(draw: Draw): (p: Vertex2d)
    ensures -0.5 <= p.x < 0.5 && -0.5 <= p.z < 0.5
  {
    Vertex2d(draw.rx - 0.5, draw.rz - 0.5)
  }
}
