/**
 * The cells of the live board and the pieces placed on them. A cell knows
 * its coordinates, whether it takes part in play, and the node standing on
 * it; a node knows the cell it stands on.
 */
module GridCells {
  import opened Geometry

  /** The kinds of piece that can stand on a cell (the `INode` implementors). */
  datatype NodeKind = BallNode | WallNode

  /** A ball or a wall placed on the board. */
  class Node {
    const kind: NodeKind
    var currentGridCell: GridCell?

    constructor (kind: NodeKind)
      ensures this.kind == kind && currentGridCell == null
    {
      this.kind := kind;
      currentGridCell := null;
    }
  }

  class GridCell {
    var isActive: bool
    var coordinates: Vector2Int
    var currentNode: Node?

    /** A new cell is active, holds no node and sits at the zero vector. */
    constructor ()
      ensures isActive && currentNode == null && coordinates == Zero
    {
      isActive := true;
      coordinates := Zero;
      currentNode := null;
    }

    /** `Setup(x, y)`: records the cell's coordinates and nothing else. */
    method Setup(x: int, y: int)
      modifies this`coordinates
      ensures coordinates == Vector2Int(x, y)
      ensures isActive == old(isActive) && currentNode == old(currentNode)
    {
      coordinates := Vector2Int(x, y);
    }

    /**
     * `SetNode(node)`: links the cell and the node both ways. A node the
     * cell held before is replaced but keeps its own link to this cell.
     */
    method SetNode(node: Node)
      modifies this`currentNode, node`currentGridCell
      ensures currentNode == node && node.currentGridCell == this
      ensures isActive == old(isActive) && coordinates == old(coordinates)
      ensures old(currentNode) != null && old(currentNode) != node ==>
                old(currentNode).currentGridCell == old(currentNode.currentGridCell)
    {
      currentNode := node;
      node.currentGridCell := this;
    }

    /** `DisableCell()`: takes the cell out of play. */
    method DisableCell()
      modifies this`isActive
      ensures !isActive
      ensures coordinates == old(coordinates) && currentNode == old(currentNode)
    {
      isActive := false;
    }
  }
}
