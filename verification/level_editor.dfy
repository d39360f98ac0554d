/**
 * The level editor window: an editable matrix of node types together with
 * its width and height, the node type a left click paints, and the level's
 * paint colour. The drawing code is left out; what remains is how each user
 * action changes the editor's state and how a level asset is loaded and
 * saved.
 */
module LevelEditing {
  import opened Geometry
  import opened Matrices
  import opened Levels

  /** The smallest and largest width or height the size fields accept. */
  const MinGridSize: int := 1
  const MaxGridSize: int := 50

  /** Unity's `Mathf.Clamp` on integers. */
  function Clamp(value: int, min: int, max: int): (r: int)
    requires min <= max
    ensures min <= r <= max
    ensures min <= value <= max ==> r == value
    ensures value < min ==> r == min
    ensures max < value ==> r == max
  {
    if value < min then min else if value > max then max else value
  }

  /** The kinds of input event the cell editor reacts to; every other kind is `OtherEvent`. */
  datatype EventKind = MouseDown | MouseDrag | OtherEvent

  /** The mouse button that paints the selected node type. */
  const LeftButton: int := 0
  /** The mouse button that clears a cell back to Cell. */
  const RightButton: int := 1

  /**
   * The node type selected after the selection buttons in `types` are shown
   * in order, starting from `current`: the Cell button is skipped, and each
   * pressed button overrides the selection.
   */
  function Selection(types: seq<NodeType>, pressed: set<NodeType>, current: NodeType): (r: NodeType)
    ensures r == current || (r in types && r in pressed && r != Cell)
    ensures (forall t :: t in types && t in pressed ==> t == Cell) ==> r == current
  {
    if |types| == 0 then current
    else
      var last := types[|types| - 1];
      if last != Cell && last in pressed then last
      else Selection(types[..|types| - 1], pressed, current)
  }

  /**
   * The selection buttons can never select Cell: the selection stays Cell
   * only if it already was Cell and no other button is pressed.
   */
  lemma {:induction false} SelectionNeverCell(types: seq<NodeType>, pressed: set<NodeType>, current: NodeType)
    ensures Selection(types, pressed, current) == Cell <==>
              current == Cell && forall t :: t in types && t in pressed ==> t == Cell
  {
    if |types| > 0 {
      SelectionNeverCell(types[..|types| - 1], pressed, current);
      assert forall t :: t in types ==> t in types[..|types| - 1] || t == types[|types| - 1];
    }
  }

  /** Of several pressed buttons, the one shown last wins. */
  lemma {:induction false} SelectionLastPressedWins(types: seq<NodeType>, pressed: set<NodeType>, current: NodeType, i: nat)
    requires i < |types| && types[i] in pressed && types[i] != Cell
    requires forall j :: i < j < |types| ==> types[j] !in pressed || types[j] == Cell
    ensures Selection(types, pressed, current) == types[i]
  {
    if i < |types| - 1 {
      var prefix := types[..|types| - 1];
      assert forall j :: i < j < |prefix| ==> prefix[j] == types[j];
      SelectionLastPressedWins(prefix, pressed, current, i);
    }
  }

  class LevelEditor {
    var grid: Matrix<NodeType>
    var gridWidth: int
    var gridHeight: int
    var selectedNodeType: NodeType
    var selectedColor: ColorType

    /** The matrix always has the editor's width and height, both positive. */
    ghost predicate Valid()
      reads this, grid, grid.Repr
    {
      && grid.Valid()
      && 1 <= gridWidth && 1 <= gridHeight
      && grid.Width() == gridWidth && grid.Height == gridHeight
    }

    /** Every cell of the matrix holds `t`. */
    ghost predicate AllCells(t: NodeType)
      reads this, grid
    {
      forall x, y :: 0 <= x < |grid.Contents| && 0 <= y < |grid.Contents[x]| ==> grid.Contents[x][y] == t
    }

    /**
     * Opening the window: a 10 by 10 grid of Cell entries, Cell selected and
     * no colour.
     */
    constructor ()
      ensures Valid() && fresh(grid.Repr)
      ensures gridWidth == 10 && gridHeight == 10 && AllCells(Cell)
      ensures selectedNodeType == Cell && selectedColor == NoColor
    {
      gridWidth := 10;
      gridHeight := 10;
      selectedNodeType := Cell;
      selectedColor := NoColor;
      grid := new Matrix(0, 0, DefaultNodeType);
      new;
      InitializeGrid();
    }

    /** `InitializeGrid()`: a fresh `gridWidth` by `gridHeight` matrix filled with Cell. */
    method InitializeGrid()
      requires 0 <= gridWidth && 0 <= gridHeight
      modifies this`grid
      ensures grid.Valid() && fresh(grid.Repr)
      ensures grid.Width() == gridWidth && grid.Height == gridHeight
      ensures AllCells(Cell)
    {
      grid := new Matrix(gridWidth, gridHeight, DefaultNodeType);
      ghost var repr, columns := grid.Repr, grid.Columns;
      for x := 0 to gridWidth
        modifies grid, columns
        invariant grid.Valid() && grid.Repr == repr && grid.Columns == columns
        invariant grid.Width() == gridWidth && grid.Height == gridHeight
        // the columns before `x` are filled
        invariant forall i, j :: 0 <= i < x && 0 <= j < gridHeight ==> grid.Contents[i][j] == Cell
      {
        for y := 0 to gridHeight
          modifies grid, columns
          invariant grid.Valid() && grid.Repr == repr && grid.Columns == columns
          invariant grid.Width() == gridWidth && grid.Height == gridHeight
          invariant forall i, j :: 0 <= i < gridWidth && 0 <= j < gridHeight && (i < x || (i == x && j < y)) ==>
                      grid.Contents[i][j] == Cell
        {
          grid.Set(x, y, Cell);
        }
      }
    }

    /**
     * The size and colour fields of the settings row, given the values the
     * user entered. A changed size is clamped into [1, 50] and the grid is
     * rebuilt with Cell everywhere; an unchanged size keeps the grid and its
     * contents. The colour is taken as entered.
     */
    method DrawGridSettings(newWidth: int, newHeight: int, newColor: ColorType)
      requires Valid()
      modifies this`gridWidth, this`gridHeight, this`grid, this`selectedColor
      ensures Valid() && selectedColor == newColor
      ensures newWidth != old(gridWidth) || newHeight != old(gridHeight) ==>
                && gridWidth == Clamp(newWidth, MinGridSize, MaxGridSize)
                && gridHeight == Clamp(newHeight, MinGridSize, MaxGridSize)
                && fresh(grid.Repr) && AllCells(Cell)
      ensures newWidth == old(gridWidth) && newHeight == old(gridHeight) ==>
                && gridWidth == old(gridWidth) && gridHeight == old(gridHeight)
                && grid == old(grid) && grid.Contents == old(grid.Contents)
    {
      if newWidth != gridWidth || newHeight != gridHeight {
        gridWidth := Clamp(newWidth, MinGridSize, MaxGridSize);
        gridHeight := Clamp(newHeight, MinGridSize, MaxGridSize);
        InitializeGrid();
      }
      selectedColor := newColor;
    }

    /**
     * The selection buttons, shown for the node types in declaration order
     * with Cell skipped; `pressed` holds the buttons clicked this frame.
     */
    method DrawNodeTypeSelection(pressed: set<NodeType>)
      modifies this`selectedNodeType
      ensures selectedNodeType == Selection(AllNodeTypes, pressed, old(selectedNodeType))
    {
      for i := 0 to |AllNodeTypes|
        invariant selectedNodeType == Selection(AllNodeTypes[..i], pressed, old(selectedNodeType))
      {
        var nodeType := AllNodeTypes[i];
        assert AllNodeTypes[..i + 1][..i] == AllNodeTypes[..i];
        if nodeType == Cell {
          continue;
        }
        if nodeType in pressed {
          selectedNodeType := nodeType;
        }
      }
      assert AllNodeTypes[..|AllNodeTypes|] == AllNodeTypes;
    }

    /**
     * The editing branch of `DrawCell(x, y)`: while the pointer is over the
     * cell, a mouse-down or drag with the left button paints the selected
     * node type and with the right button clears the cell to Cell. Nothing
     * else happens for any other event, button or pointer position.
     */
    method DrawCell(x: int, y: int, hovered: bool, event: EventKind, button: int)
      requires Valid() && 0 <= x < gridWidth && 0 <= y < gridHeight
      modifies grid, grid.Columns
      ensures Valid() && grid.Repr == old(grid.Repr)
      ensures var painting := hovered && (event == MouseDown || event == MouseDrag);
              grid.Contents ==
                if painting && button == LeftButton then old(grid.Contents)[x := old(grid.Contents)[x][y := selectedNodeType]]
                else if painting && button == RightButton then old(grid.Contents)[x := old(grid.Contents)[x][y := Cell]]
                else old(grid.Contents)
    {
      if hovered {
        if event == MouseDown || event == MouseDrag {
          if button == LeftButton {
            grid.Set(x, y, selectedNodeType);
          } else if button == RightButton {
            grid.Set(x, y, Cell);
          }
        }
      }
    }

    /**
     * `Load()` from the level asset `level` (no asset selected is `null`).
     * Nothing changes without an asset or when its stored matrix has no
     * cells. Otherwise the editor takes the asset's size and colour, and a
     * new grid of that size receives every stored cell at the same
     * coordinates; cells outside the stored matrix hold Cell. The stored
     * matrix must fit inside the asset's size, since the copy writes to the
     * new grid at every stored coordinate.
     */
    method Load(level: LevelData?)
      requires Valid()
      requires level != null ==> level.gridCells.Valid()
      requires level != null && level.gridCells.Width() > 0 && level.gridCells.Height > 0 ==>
                 level.gridCells.Width() <= level.gridSize.x && level.gridCells.Height <= level.gridSize.y
      modifies this`gridWidth, this`gridHeight, this`grid, this`selectedColor
      ensures Valid() && selectedNodeType == old(selectedNodeType)
      ensures level == null || level.gridCells.Width() == 0 || level.gridCells.Height == 0 ==>
                && gridWidth == old(gridWidth) && gridHeight == old(gridHeight)
                && grid == old(grid) && selectedColor == old(selectedColor)
      ensures level != null && level.gridCells.Width() > 0 && level.gridCells.Height > 0 ==>
                && gridWidth == level.gridSize.x && gridHeight == level.gridSize.y
                && selectedColor == level.colorType
                && fresh(grid.Repr)
                && forall x, y :: 0 <= x < gridWidth && 0 <= y < gridHeight ==>
                     grid.Contents[x][y] ==
                       if x < level.gridCells.Width() && y < level.gridCells.Height then level.Cells()[x][y] else DefaultNodeType
    {
      if level == null {
        return;
      }
      var stored := level.gridCells;
      if stored.GetLength(0) == 0 || stored.GetLength(1) == 0 {
        return;
      }
      gridWidth := level.gridSize.x;
      gridHeight := level.gridSize.y;
      grid := new Matrix(gridWidth, gridHeight, DefaultNodeType);
      selectedColor := level.colorType;
      CopyCells(stored, grid);
    }

    /**
     * `Save()` into the level asset `level`: stores the editor's size and
     * colour, and hands the asset the editor's own matrix (the asset and
     * the editor share it from then on). Without an asset nothing happens.
     */
    method Save(level: LevelData?)
      modifies level
      ensures level != null ==>
                && level.gridSize == Vector2Int(gridWidth, gridHeight)
                && level.gridCells == grid
                && level.colorType == selectedColor
    {
      if level == null {
        return;
      }
      level.gridSize := Vector2Int(gridWidth, gridHeight);
      level.gridCells := grid;
      level.colorType := selectedColor;
    }
  }

  /**
   * The copy loops of `Load`: every cell of `source` is written to the same
   * coordinates of `target`, which is at least as large; the other cells of
   * `target` keep their values.
   */
  method CopyCells(source: Matrix<NodeType>, target: Matrix<NodeType>)
    requires source.Valid() && target.Valid() && target.Repr !! source.Repr
    requires source.Width() > 0
    requires source.Width() <= target.Width() && source.Height <= target.Height
    modifies target, target.Columns
    ensures target.Valid() && target.Repr == old(target.Repr) && target.Columns == old(target.Columns)
    ensures target.Width() == old(target.Width()) && target.Height == old(target.Height)
    ensures forall x, y :: 0 <= x < target.Width() && 0 <= y < target.Height ==>
              target.Contents[x][y] ==
                if x < source.Width() && y < source.Height then source.Contents[x][y] else old(target.Contents[x][y])
  {
    ghost var start := target.Contents;
    for x := 0 to source.GetLength(0)
      invariant target.Valid() && target.Repr == old(target.Repr) && target.Columns == old(target.Columns)
      invariant target.Width() == |start| && target.Height == old(target.Height)
      invariant source.Valid() && source.Contents == old(source.Contents)
      invariant forall i, j :: 0 <= i < target.Width() && 0 <= j < target.Height ==>
                  target.Contents[i][j] == if i < x && j < source.Height then source.Contents[i][j] else start[i][j]
    {
      for y := 0 to source.GetLength(1)
        invariant target.Valid() && target.Repr == old(target.Repr) && target.Columns == old(target.Columns)
        invariant target.Width() == |start| && target.Height == old(target.Height)
        invariant source.Valid() && source.Contents == old(source.Contents)
        invariant forall i, j :: 0 <= i < target.Width() && 0 <= j < target.Height ==>
                    target.Contents[i][j] ==
                      if (i < x || (i == x && j < y)) && j < source.Height then source.Contents[i][j] else start[i][j]
      {
        target.Set(x, y, source.Get(x, y));
      }
    }
  }

  /**
   * Saving into an asset and loading it back restores the editor's size,
   * colour and every cell, though into a new matrix.
   */
  method SaveThenLoad(editor: LevelEditor, level: LevelData)
    requires editor.Valid()
    modifies editor, level
    ensures editor.Valid()
    ensures editor.gridWidth == old(editor.gridWidth) && editor.gridHeight == old(editor.gridHeight)
    ensures editor.selectedColor == old(editor.selectedColor)
    ensures editor.grid.Contents == old(editor.grid.Contents)
  {
    ghost var before := editor.grid.Contents;
    editor.Save(level);
    editor.Load(level);
    forall x | 0 <= x < |before|
      ensures editor.grid.Contents[x] == before[x]
    {
      assert forall y :: 0 <= y < |before[x]| ==> editor.grid.Contents[x][y] == before[x][y];
    }
  }
}
