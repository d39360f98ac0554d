/**
 * Integer grid coordinates and offsets (Unity's `Vector2Int`).
 */
module Geometry {

  datatype Vector2Int = Vector2Int(x: int, y: int)
  {
    /** Component-wise negation. */
    function Negate(): (r: Vector2Int)
      ensures r.x == -x && r.y == -y
    {
      Vector2Int(-x, -y)
    }
  }

  /** The value a `Vector2Int` field holds before it is assigned. */
  const Zero: Vector2Int := Vector2Int(0, 0)

  /** A step of length one along exactly one axis. */
  predicate IsCardinalUnit(v: Vector2Int)
  {
    || (v.x == 0 && (v.y == 1 || v.y == -1))
    || (v.y == 0 && (v.x == 1 || v.x == -1))
  }
}
