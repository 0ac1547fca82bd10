/** The spherical-polygon library, seen only through the operations the footprint
    code calls. Its numerics are not part of this model: every operation is a
    parameter of type `Ops`, so every result below holds for any such library. */
module Geometry {
  import opened Wrappers

  /** A spherical polygon; its representation belongs to the geometry library. */
  type Polygon(==, !new)

  /** An area as returned by `area()`: never negative. */
  type Area = a: real | a >= 0.0

  /** The geometry operations used by footprints.
      `union` and `intersection` give `None` where the library raises. */
  datatype Ops = Ops(
    empty: Polygon,                                       // SphericalPolygon([])
    union: (Polygon, Polygon) -> Option<Polygon>,
    intersection: (Polygon, Polygon) -> Option<Polygon>,
    area: Polygon -> Area,
    hasPoints: Polygon -> bool,                           // len(p.points) > 0
    intersects: (Polygon, Polygon) -> bool)               // p.intersects_poly(q)
}
