/**
 * The four swipe directions and the grid offset each one stands for.
 */
module Direction {
  import opened Geometry

  /** The four members of the `Directions` enumeration, in declaration order. */
  datatype Directions = Up | Down | Left | Right

  /**
   * `GetDirection`: the unit offset of one step in `directions`. Rows grow
   * upwards, so Up is +y. The enumeration is closed here, so the throwing
   * default arm of the source's switch has no counterpart.
   */
  function GetDirection(directions: Directions): (v: Vector2Int)
    ensures IsCardinalUnit(v)
    ensures directions == Up ==> v == Vector2Int(0, 1)
    ensures directions == Down ==> v == Vector2Int(0, -1)
    ensures directions == Left ==> v == Vector2Int(-1, 0)
    ensures directions == Right ==> v == Vector2Int(1, 0)
  {
    match directions
    case Up => Vector2Int(0, 1)
    case Down => Vector2Int(0, -1)
    case Left => Vector2Int(-1, 0)
    case Right => Vector2Int(1, 0)
  }

  /** The direction that undoes a step in `d`. */
  function Opposite(d: Directions): Directions
  {
    match d
    case Up => Down
    case Down => Up
    case Left => Right
    case Right => Left
  }

  /** Up/Down and Left/Right are mapped to negated offsets. */
  lemma OppositeNegates(d: Directions)
    ensures GetDirection(Opposite(d)) == GetDirection(d).Negate()
    ensures Opposite(d) != d && Opposite(Opposite(d)) == d
  {
  }

  /** Four distinct directions give four distinct offsets. */
  lemma GetDirectionInjective(d1: Directions, d2: Directions)
    ensures GetDirection(d1) == GetDirection(d2) <==> d1 == d2
  {
  }

  /** Every cardinal unit offset is produced by some direction. */
  lemma GetDirectionSurjective(v: Vector2Int)
    requires IsCardinalUnit(v)
    ensures exists d :: GetDirection(d) == v
  {
    if v == Vector2Int(0, 1) {
      assert GetDirection(Up) == v;
    } else if v == Vector2Int(0, -1) {
      assert GetDirection(Down) == v;
    } else if v == Vector2Int(-1, 0) {
      assert GetDirection(Left) == v;
    } else {
      assert GetDirection(Right) == v;
    }
  }
}
