/**
 * The authored description of one level (`LevelDataSO`): its size, the
 * node type of every cell and the paint colour.
 */
module Levels {
  import opened Geometry
  import opened Matrices

  /**
   * What an authored cell holds. The declaration order is Cell, Ball, Wall,
   * None, so Cell is the enumeration's default value.
   */
  datatype NodeType = Cell | Ball | Wall | None

  /** The members of `NodeType` in declaration order (`Enum.GetValues`). */
  const AllNodeTypes: seq<NodeType> := [Cell, Ball, Wall, None]

  /** C#'s `default(NodeType)`: the member with ordinal 0. */
  const DefaultNodeType: NodeType := Cell

  /**
   * The level's paint colour. Only the member None is named in the modelled
   * code; the others are distinguished by their ordinal.
   */
  datatype ColorType = NoColor | Colour(ordinal: nat)

  class LevelData {
    var gridCells: Matrix<NodeType>
    var gridSize: Vector2Int
    var colorType: ColorType

    /** A new, empty level asset: no cells, zero size, no colour. */
    constructor ()
      ensures gridCells.Valid() && fresh(gridCells.Repr)
      ensures gridCells.Width() == 0
      ensures gridSize == Zero && colorType == NoColor
    {
      gridCells := new Matrix(0, 0, DefaultNodeType);
      gridSize := Zero;
      colorType := NoColor;
    }

    /** The stored cells as values, column by column. */
    ghost function Cells(): seq<seq<NodeType>>
      reads this, gridCells
    {
      gridCells.Contents
    }
  }
}
