/**
 * Building the live board from a level's authored node types: one fresh
 * cell per coordinate, a ball or a wall placed on the cells that ask for
 * one, and the cells marked None taken out of play.
 */
module GridManagement {
  import opened Geometry
  import opened Matrices
  import opened Levels
  import opened GridCells

  /**
   * The `w` by `h` corner of `grid` exists: `grid` has at least `w` columns
   * of at least `h` entries. A corner with no rows asks nothing of `grid`.
   */
  ghost predicate Covers<T>(grid: seq<seq<T>>, w: nat, h: nat)
  {
    h == 0 || (w <= |grid| && forall x :: 0 <= x < w ==> h <= |grid[x]|)
  }

  /** Number of Ball entries among the first `w` columns of row `y`. */
  ghost function BallsInRow(kinds: seq<seq<NodeType>>, w: nat, y: nat): nat
  {
    if w == 0 then 0
    else BallsInRow(kinds, w - 1, y) + (if w - 1 < |kinds| && y < |kinds[w - 1]| && kinds[w - 1][y] == Ball then 1 else 0)
  }

  /** Number of Ball entries in the `w` by `h` corner of `kinds`. */
  ghost function BallCount(kinds: seq<seq<NodeType>>, w: nat, h: nat): nat
  {
    if h == 0 then 0 else BallCount(kinds, w, h - 1) + BallsInRow(kinds, w, h - 1)
  }

  /** The distinct ball nodes standing in the first `w` columns of row `y`. */
  ghost function RowBallNodes(nodes: seq<seq<Node?>>, w: nat, y: nat): set<Node>
  {
    set x: nat | x < w && x < |nodes| && y < |nodes[x]| && nodes[x][y] != null && nodes[x][y].kind == BallNode :: nodes[x][y]
  }

  /** The distinct ball nodes standing in the `w` by `h` corner of `nodes`. */
  ghost function BallNodes(nodes: seq<seq<Node?>>, w: nat, h: nat): set<Node>
  {
    set x: nat, y: nat | x < w && y < h && x < |nodes| && y < |nodes[x]| && nodes[x][y] != null && nodes[x][y].kind == BallNode :: nodes[x][y]
  }

  /** Ball nodes stand exactly where the authored matrix says Ball. */
  ghost predicate BallsWhereAuthored(nodes: seq<seq<Node?>>, kinds: seq<seq<NodeType>>, w: nat, h: nat)
    requires Covers(nodes, w, h) && Covers(kinds, w, h)
  {
    forall x, y :: 0 <= x < w && 0 <= y < h ==>
      ((nodes[x][y] != null && nodes[x][y].kind == BallNode) <==> kinds[x][y] == Ball)
  }

  /**
   * Every node on the board knows the one coordinate it stands on (as a
   * node's `currentGridCell.coordinates` does), so no node stands on two.
   */
  ghost predicate Located(nodes: seq<seq<Node?>>, at: map<Node, (int, int)>, w: nat, h: nat)
    requires Covers(nodes, w, h)
  {
    forall x, y :: 0 <= x < w && 0 <= y < h && nodes[x][y] != null ==>
      nodes[x][y] in at && at[nodes[x][y]] == (x, y)
  }

  /** Counting one row: one distinct ball node per Ball entry among its first `w` columns. */
  lemma {:induction false} RowBallNodesCount(nodes: seq<seq<Node?>>, at: map<Node, (int, int)>, kinds: seq<seq<NodeType>>, width: nat, height: nat, w: nat, y: nat)
    requires Covers(nodes, width, height) && Covers(kinds, width, height) && w <= width && y < height
    requires BallsWhereAuthored(nodes, kinds, width, height) && Located(nodes, at, width, height)
    ensures |RowBallNodes(nodes, w, y)| == BallsInRow(kinds, w, y)
  {
    if w > 0 {
      RowBallNodesCount(nodes, at, kinds, width, height, w - 1, y);
      var last := nodes[w - 1][y];
      if kinds[w - 1][y] == Ball {
        assert RowBallNodes(nodes, w, y) == RowBallNodes(nodes, w - 1, y) + {last};
        assert last !in RowBallNodes(nodes, w - 1, y);
      } else {
        assert RowBallNodes(nodes, w, y) == RowBallNodes(nodes, w - 1, y);
      }
    }
  }

  /** Counting the first `h` rows of a `width` by `height` board. */
  lemma {:induction false} BallNodesCountRows(nodes: seq<seq<Node?>>, at: map<Node, (int, int)>, kinds: seq<seq<NodeType>>, width: nat, height: nat, h: nat)
    requires Covers(nodes, width, height) && Covers(kinds, width, height) && h <= height
    requires BallsWhereAuthored(nodes, kinds, width, height) && Located(nodes, at, width, height)
    ensures |BallNodes(nodes, width, h)| == BallCount(kinds, width, h)
  {
    if h > 0 {
      BallNodesCountRows(nodes, at, kinds, width, height, h - 1);
      RowBallNodesCount(nodes, at, kinds, width, height, width, h - 1);
      BallNodesSplit(nodes, at, width, height, h);
      var earlier, row := BallNodes(nodes, width, h - 1), RowBallNodes(nodes, width, h - 1);
      assert |earlier + row| == |earlier| + |row| by {
        assert earlier * row == {};
      }
    }
  }

  /**
   * The number of distinct ball nodes on a board equals the number of Ball
   * entries, as long as balls stand exactly on the Ball entries and no node
   * stands on two coordinates.
   */
  lemma BallNodesCount(nodes: seq<seq<Node?>>, at: map<Node, (int, int)>, kinds: seq<seq<NodeType>>, w: nat, h: nat)
    requires Covers(nodes, w, h) && Covers(kinds, w, h)
    requires BallsWhereAuthored(nodes, kinds, w, h) && Located(nodes, at, w, h)
    ensures |BallNodes(nodes, w, h)| == BallCount(kinds, w, h)
  {
    BallNodesCountRows(nodes, at, kinds, w, h, h);
  }

  /** The balls of the first `h` rows are those of the first `h - 1` rows plus those of row `h - 1`, which are new. */
  lemma BallNodesSplit(nodes: seq<seq<Node?>>, at: map<Node, (int, int)>, width: nat, height: nat, h: nat)
    requires Covers(nodes, width, height) && 0 < h <= height && Located(nodes, at, width, height)
    ensures BallNodes(nodes, width, h) == BallNodes(nodes, width, h - 1) + RowBallNodes(nodes, width, h - 1)
    ensures BallNodes(nodes, width, h - 1) !! RowBallNodes(nodes, width, h - 1)
  {
    assert BallNodes(nodes, width, h) == BallNodes(nodes, width, h - 1) + RowBallNodes(nodes, width, h - 1);
  }

  /**
   * The board cell built for coordinates `(x, y)` from node type `t`: it
   * knows its coordinates; a Ball or a Wall entry puts a node of that kind
   * on an active cell, linked back to it; a Cell entry leaves an active
   * empty cell; a None entry leaves an inactive empty cell.
   */
  ghost predicate Placed(cell: GridCell, x: int, y: int, t: NodeType)
    reads cell, cell.currentNode
  {
    && cell.coordinates == Vector2Int(x, y)
    && cell.isActive == (t != None)
    && match t
       case Ball =>
         cell.currentNode != null && cell.currentNode.kind == BallNode
         && cell.currentNode.currentGridCell == cell
       case Wall =>
         cell.currentNode != null && cell.currentNode.kind == WallNode
         && cell.currentNode.currentGridCell == cell
       case _ => cell.currentNode == null
  }

  /**
   * The body of the setup loop for one coordinate: a fresh cell at `(x, y)`,
   * with a fresh ball or wall on it when `t` asks for one, or disabled when
   * `t` is None.
   */
  method CreateCell(x: int, y: int, t: NodeType) returns (cell: GridCell)
    ensures fresh(cell) && Placed(cell, x, y, t)
    ensures cell.currentNode == null || fresh(cell.currentNode)
  {
    cell := new GridCell();
    cell.Setup(x, y);
    if t == Ball {
      var ball := new Node(BallNode);
      cell.SetNode(ball);
    } else if t == Wall {
      var wall := new Node(WallNode);
      cell.SetNode(wall);
    } else if t == None {
      cell.DisableCell();
    }
  }

  class GridManager {
    var gridCells: Matrix<GridCell?>
    var size: Vector2Int

    /** Before any level is set up the board has no cells. */
    constructor ()
      ensures gridCells.Valid() && gridCells.Width() == 0 && size == Zero
    {
      gridCells := new Matrix(0, 0, null);
      size := Zero;
    }

    /** The cells currently on the board. */
    ghost function Board(): set<GridCell>
      reads this, gridCells
    {
      set x, y | 0 <= x < |gridCells.Contents| && 0 <= y < |gridCells.Contents[x]| && gridCells.Contents[x][y] != null
        :: gridCells.Contents[x][y]
    }

    /** The node standing on each coordinate of the board, if any. */
    ghost function NodeGrid(): (nodes: seq<seq<Node?>>)
      reads this, gridCells, Board()
      ensures |nodes| == |gridCells.Contents|
      ensures forall x :: 0 <= x < |nodes| ==> |nodes[x]| == |gridCells.Contents[x]|
      ensures forall x, y :: 0 <= x < |nodes| && 0 <= y < |nodes[x]| ==>
                nodes[x][y] == if gridCells.Contents[x][y] == null then null else gridCells.Contents[x][y].currentNode
    {
      var board, cells := gridCells.Contents, Board();
      seq(|board|, x requires 0 <= x < |board| reads cells =>
        seq(|board[x]|, y requires 0 <= y < |board[x]| reads cells =>
          if board[x][y] == null then null else board[x][y].currentNode))
    }

    /**
     * On a board built by `Setup`, the number of distinct ball nodes equals
     * the number of Ball entries in the authored matrix.
     */
    lemma BallsMatchLevel(kinds: seq<seq<NodeType>>)
      requires gridCells.Valid() && Covers(kinds, gridCells.Width(), gridCells.Height)
      requires forall x, y :: 0 <= x < gridCells.Width() && 0 <= y < gridCells.Height ==>
                 gridCells.Contents[x][y] != null && Placed(gridCells.Contents[x][y], x, y, kinds[x][y])
      ensures |BallNodes(NodeGrid(), gridCells.Width(), gridCells.Height)| == BallCount(kinds, gridCells.Width(), gridCells.Height)
    {
      var w, h := gridCells.Width(), gridCells.Height;
      var nodes := NodeGrid();
      var standing: set<Node> := set x, y | 0 <= x < w && 0 <= y < h && nodes[x][y] != null :: nodes[x][y];
      var at: map<Node, (int, int)> := map n: Node | n in standing :: (n.currentGridCell.coordinates.x, n.currentGridCell.coordinates.y);
      BallNodesCount(nodes, at, kinds, w, h);
    }

    /**
     * `Setup(levelData)`: allocates a `GridSize.x` by `GridSize.y` board and
     * fills it row by row. A negative width, or a negative height under a
     * positive width, fails to allocate; a non-empty board needs the
     * authored matrix to be at least as large. A board with no columns or
     * no rows reads no authored entry and has height `max(GridSize.y, 0)`.
     */
    method Setup(levelData: LevelData)
      requires levelData.gridCells.Valid()
      requires 0 <= levelData.gridSize.x
      requires levelData.gridSize.x > 0 ==> 0 <= levelData.gridSize.y
      requires levelData.gridSize.x > 0 && levelData.gridSize.y > 0 ==>
                 levelData.gridSize.x <= levelData.gridCells.Width() && levelData.gridSize.y <= levelData.gridCells.Height
      modifies this
      ensures size == levelData.gridSize
      ensures gridCells.Valid() && fresh(gridCells.Repr)
      ensures gridCells.Width() == size.x && gridCells.Height == if size.y < 0 then 0 else size.y
      ensures Covers(levelData.Cells(), size.x, gridCells.Height)
      // every coordinate has its own fresh cell, built from the authored entry
      ensures forall x, y :: 0 <= x < size.x && 0 <= y < size.y ==>
                && gridCells.Contents[x][y] != null
                && fresh(gridCells.Contents[x][y])
                && (gridCells.Contents[x][y].currentNode == null || fresh(gridCells.Contents[x][y].currentNode))
                && Placed(gridCells.Contents[x][y], x, y, levelData.Cells()[x][y])
      // one distinct ball node per Ball entry
      ensures |BallNodes(NodeGrid(), size.x, gridCells.Height)| == BallCount(levelData.Cells(), size.x, gridCells.Height)
    {
      size := levelData.gridSize;
      gridCells := new Matrix<GridCell?>(size.x, size.y, null);
      // the rows the loop `y < size.y` visits
      var rows: nat := if size.y < 0 then 0 else size.y;
      FillBoard(gridCells, levelData.gridCells, size.x, rows);
      BallsMatchLevel(levelData.Cells());
    }
  }

  /**
   * The nested loops of the setup: fills every coordinate of `cells` with a
   * fresh cell built from the authored entry at the same coordinate.
   */
  method FillBoard(cells: Matrix<GridCell?>, source: Matrix<NodeType>, w: nat, h: nat)
    requires cells.Valid() && cells.Width() == w && cells.Height == h
    requires source.Valid() && cells.Repr !! source.Repr
    requires w > 0 && h > 0 ==> w <= source.Width() && h <= source.Height
    modifies cells, cells.Columns
    ensures cells.Valid() && cells.Repr == old(cells.Repr) && cells.Columns == old(cells.Columns)
    ensures cells.Width() == w && cells.Height == h
    ensures forall x, y :: 0 <= x < w && 0 <= y < h ==>
              && cells.Contents[x][y] != null
              && fresh(cells.Contents[x][y])
              && (cells.Contents[x][y].currentNode == null || fresh(cells.Contents[x][y].currentNode))
              && Placed(cells.Contents[x][y], x, y, source.Contents[x][y])
  {
    ghost var kinds := source.Contents;
    // rows[y][x] is the cell built for (x, y)
    ghost var rows: seq<seq<GridCell>> := [];
    // every cell and node allocated so far
    ghost var built: set<object> := {};
    for y := 0 to h
      invariant cells.Valid() && cells.Repr == old(cells.Repr) && cells.Columns == old(cells.Columns)
      invariant cells.Width() == w && cells.Height == h
      invariant source.Valid() && source.Contents == kinds
      invariant |rows| == y && forall y' :: 0 <= y' < y ==> |rows[y']| == w
      invariant forall x', y' :: 0 <= x' < w && 0 <= y' < y ==> cells.Contents[x'][y'] == rows[y'][x']
      invariant fresh(built)
      invariant forall x', y' :: 0 <= x' < w && 0 <= y' < y ==>
                  rows[y'][x'] in built && (rows[y'][x'].currentNode == null || rows[y'][x'].currentNode in built)
      invariant forall x', y' :: 0 <= x' < w && 0 <= y' < y ==> Placed(rows[y'][x'], x', y', kinds[x'][y'])
    {
      label Before:
      var row, made := SetupRow(cells, source, w, y);
      forall x', y' | 0 <= x' < w && 0 <= y' < y
        ensures Placed(rows[y'][x'], x', y', kinds[x'][y'])
      {
        assert old@Before(Placed(rows[y'][x'], x', y', kinds[x'][y']));
      }
      rows := rows + [row];
      built := built + made;
    }
    forall x, y | 0 <= x < w && 0 <= y < h
      ensures cells.Contents[x][y] != null && fresh(cells.Contents[x][y])
      ensures cells.Contents[x][y].currentNode == null || fresh(cells.Contents[x][y].currentNode)
      ensures Placed(cells.Contents[x][y], x, y, source.Contents[x][y])
    {
      assert cells.Contents[x][y] == rows[y][x] && rows[y][x] in built;
    }
  }

  /**
   * One pass of the setup's inner loop: builds the cell for `(x, y)` and
   * stores it in the board matrix.
   */
  method PlaceCell(cells: Matrix<GridCell?>, source: Matrix<NodeType>, x: nat, y: nat) returns (cell: GridCell)
    requires cells.Valid() && cells.InRange(x, y)
    requires source.Valid() && source.InRange(x, y) && cells.Repr !! source.Repr
    modifies cells, cells.arrays[x].cells
    ensures cells.Valid() && cells.Repr == old(cells.Repr) && cells.Columns == old(cells.Columns)
    ensures cells.Width() == old(cells.Width()) && cells.Height == old(cells.Height)
    ensures cells.Contents == old(cells.Contents)[x := old(cells.Contents)[x][y := cell]]
    ensures fresh(cell) && (cell.currentNode == null || fresh(cell.currentNode))
    ensures Placed(cell, x, y, source.Contents[x][y])
  {
    cell := CreateCell(x, y, source.Get(x, y));
    cells.Set(x, y, cell);
  }

  /**
   * One pass of the setup's outer loop: fills row `y` of `cells` with fresh
   * cells built from the authored entries of that row, leaving the other
   * rows as they were. The ghost result lists the cells built.
   */
  method SetupRow(cells: Matrix<GridCell?>, source: Matrix<NodeType>, w: nat, y: nat) returns (ghost row: seq<GridCell>, ghost made: set<object>)
    requires cells.Valid() && cells.Width() == w && y < cells.Height
    requires source.Valid() && w <= source.Width() && (w > 0 ==> y < source.Height) && cells.Repr !! source.Repr
    modifies cells, cells.Columns
    ensures cells.Valid() && cells.Repr == old(cells.Repr) && cells.Columns == old(cells.Columns)
    ensures cells.Width() == w && cells.Height == old(cells.Height)
    ensures |row| == w
    ensures forall x :: 0 <= x < w ==> cells.Contents[x] == old(cells.Contents[x])[y := row[x]]
    ensures fresh(made)
    ensures forall x :: 0 <= x < w ==>
              && row[x] in made
              && (row[x].currentNode == null || row[x].currentNode in made)
              && Placed(row[x], x, y, source.Contents[x][y])
  {
    ghost var kinds := source.Contents;
    ghost var start := cells.Contents;
    row, made := [], {};
    for x := 0 to w
      invariant cells.Valid() && cells.Repr == old(cells.Repr) && cells.Columns == old(cells.Columns)
      invariant cells.Width() == w && cells.Height == old(cells.Height)
      invariant source.Valid() && source.Contents == kinds
      invariant |row| == x
      invariant forall x' :: 0 <= x' < x ==> cells.Contents[x'] == start[x'][y := row[x']]
      invariant forall x' :: x <= x' < w ==> cells.Contents[x'] == start[x']
      invariant fresh(made)
      invariant forall x' :: 0 <= x' < x ==>
                  && row[x'] in made
                  && (row[x'].currentNode == null || row[x'].currentNode in made)
                  && Placed(row[x'], x', y, kinds[x'][y])
    {
      label Before:
      var cell := PlaceCell(cells, source, x, y);
      forall x' | 0 <= x' < x
        ensures Placed(row[x'], x', y, kinds[x'][y])
      {
        assert old@Before(Placed(row[x'], x', y, kinds[x'][y]));
      }
      row := row + [cell];
      made := made + {cell} + (if cell.currentNode == null then {} else {cell.currentNode});
    }
  }
}
