# Grid puzzle scaffolding — a Dafny model

This project models the grid scaffolding of a Unity maze-painting puzzle game.
It covers six parts:

- **Matrices** (`matrix.dfy`): the generic `Matrix<T>`. It stores a grid as an
  array of separately allocated columns (`GridArray<T>`). It has an `[x, y]`
  indexer and `GetLength`.
- **Direction** (`direction.dfy`, with `geometry.dfy` for Unity's `Vector2Int`):
  maps the four swipe directions to unit grid offsets.
- **GridCells** (`grid_cell.dfy`): a board cell has coordinates, an active flag
  and the node (ball or wall) standing on it. A node links back to its cell.
- **GridManagement** (`grid_manager.dfy`): `GridManager.Setup` builds the live
  board from a level's authored node types.
  - It allocates one fresh cell per coordinate.
  - A Ball or Wall entry puts a node of that kind on its cell.
  - A None entry takes its cell out of play.
- **LevelEditing** (`level_editor.dfy`, with `level_data.dfy` for the level asset):
  the level editor window's state and how each user action changes it:
  - the size fields with their clamping;
  - the node-type selection buttons;
  - painting and clearing single cells;
  - loading from and saving to a level asset.
- **LevelManagement** (`level_manager.dfy`): level cycling.
  - The persisted level number defaults to 1.
  - The level index is `(LevelNo - 1) % levels.Length`, using C#'s truncating `%`.
  - Retry keeps the level number; next-level increments it.

The imperative parts are Dafny classes whose methods update fields and arrays
in place. These are the matrix, the cells, the board setup loops, the editor
and the level manager. Each method is specified against the ghost view
`Contents: seq<seq<T>>` of its matrix. Each matrix method names the column
arrays it writes, so a caller can see what it leaves alone.

The ball-count property of the board is stated over the sequence of nodes
standing on the board. It is proved by pure lemmas on sequences and sets.

## Model

| member | source | states |
|---|---|---|
| Matrices.GridArray.constructor | Assets/Scripts/Utilities/Matrix.cs:45-48 | A new column is a fresh array of `size` cells, each holding the default value. |
| Matrices.GridArray.Set | Assets/Scripts/Utilities/Matrix.cs:39-43 | The indexer: writing index `i` changes exactly element `i` of the column, and the getter `GridArray.Get` then reads back the value written; the index must be in bounds. |
| Matrices.Matrix.constructor | Assets/Scripts/Utilities/Matrix.cs:16-21 | `sizeX` fresh columns of `sizeY` cells, pairwise distinct (no two columns alias), every cell holding the default value; a negative `sizeY` is accepted when no column is allocated, and then gives height 0. |
| Matrices.Matrix.Get | Assets/Scripts/Utilities/Matrix.cs:10-12 | The getter returns the cell at column `x`, row `y`; defined only for in-range coordinates. |
| Matrices.Matrix.GetLength | Assets/Scripts/Utilities/Matrix.cs:23-31 | Dimension 0 is the number of columns, dimension 1 the column length (which needs at least one column), any other dimension 0. |
| Matrices.Matrix.Set | Assets/Scripts/Utilities/Matrix.cs:13 | Writing `(x, y)` makes a later read of `(x, y)` return the value; every other cell, the dimensions and the set of column arrays stay unchanged; only column `x` is written. |
| Direction.GetDirection | Assets/Scripts/Utilities/Direction.cs:8-18 | Up is (0,1), Down (0,-1), Left (-1,0), Right (1,0); every result is a cardinal unit vector. |
| Direction.OppositeNegates | Assets/Scripts/Utilities/Direction.cs:12-15 | Up/Down and Left/Right map to negated vectors. |
| Direction.GetDirectionInjective | Assets/Scripts/Utilities/Direction.cs:12-15 | Two directions give the same vector if and only if they are the same direction. |
| Direction.GetDirectionSurjective | Assets/Scripts/Utilities/Direction.cs:21-27 | Every cardinal unit vector is the offset of one of the four declared directions. |
| GridCells.Node.constructor | Assets/Scripts/GamePlay/Ball.cs:12 | A new ball or wall node is not yet on any cell. |
| GridCells.GridCell.constructor | Assets/Scripts/GridSystem/GridCell.cs:9-11 | A new cell is active and holds no node. |
| GridCells.GridCell.Setup | Assets/Scripts/GridSystem/GridCell.cs:17-20 | Sets the coordinates to `(x, y)`; the active flag and the node are unchanged. |
| GridCells.GridCell.SetNode | Assets/Scripts/GridSystem/GridCell.cs:22-27 | Links cell and node both ways; a replaced node keeps its stale back-link; the flag and coordinates are unchanged. |
| GridCells.GridCell.DisableCell | Assets/Scripts/GridSystem/GridCell.cs:29-33 | Clears the active flag; coordinates and node are unchanged. |
| GridManagement.CreateCell | Assets/Scripts/GridSystem/GridManager.cs:38-58 | A fresh cell at `(x, y)`: Ball or Wall gives an active cell holding a fresh node of that kind linked back to it, None an inactive empty cell, Cell an active empty cell. |
| GridManagement.PlaceCell | Assets/Scripts/GridSystem/GridManager.cs:38-60 | Stores the cell built from the authored entry at `(x, y)` into exactly that coordinate of the board. |
| GridManagement.SetupRow | Assets/Scripts/GridSystem/GridManager.cs:36-61 | One row of the setup: every column gets a fresh cell built from its authored entry at row `y`; the other rows are unchanged. |
| GridManagement.FillBoard | Assets/Scripts/GridSystem/GridManager.cs:34-62 | After the nested loops every in-range coordinate holds its own fresh cell, with fresh nodes, built from the authored entry at the same coordinate. |
| GridManagement.GridManager.constructor | Assets/Scripts/GridSystem/GridManager.cs:10-20 | Before any setup the board has no columns and the size is zero. |
| GridManagement.GridManager.Setup | Assets/Scripts/GridSystem/GridManager.cs:26-63 | The board is `GridSize.x` by `GridSize.y`; each coordinate has its own fresh cell classified by its authored entry; the number of distinct ball nodes equals the number of Ball entries. Requires exactly what the allocation and the entry reads need: a non-negative width, a non-negative height under a positive width, and an authored matrix at least as large as a board that has cells. |
| GridManagement.GridManager.BallsMatchLevel | Assets/Scripts/GridSystem/GridManager.cs:34-48 | On a board where every cell was built from its authored entry, the distinct ball nodes are exactly as many as the Ball entries. |
| GridManagement.BallNodesCount | Assets/Scripts/GridSystem/GridManager.cs:34-48 | If balls stand exactly where the authored matrix says Ball and every node stands on one coordinate only, the distinct ball nodes equal the Ball entries in number. |
| GridManagement.BallNodesCountRows | Assets/Scripts/GridSystem/GridManager.cs:34-48 | The same count for the first `h` rows of the board. |
| GridManagement.RowBallNodesCount | Assets/Scripts/GridSystem/GridManager.cs:36-48 | The same count for the first `w` columns of one row. |
| GridManagement.BallNodesSplit | Assets/Scripts/GridSystem/GridManager.cs:34-36 | The balls of the first `h` rows are those of the earlier rows plus those of row `h - 1`, and no ball is in both. |
| LevelEditing.Clamp | Assets/Scripts/LevelEditor/Editor/LevelEditor.cs:159-160 | The result lies in `[min, max]`: the value itself when inside, the nearer bound otherwise. |
| LevelEditing.Selection | Assets/Scripts/LevelEditor/Editor/LevelEditor.cs:176-185 | The selection after the buttons is the old one or a pressed, non-Cell node type; with no non-Cell button pressed it is unchanged. |
| LevelEditing.SelectionNeverCell | Assets/Scripts/LevelEditor/Editor/LevelEditor.cs:176-185 | The selection is Cell after the buttons if and only if it was Cell before and no other button was pressed. |
| LevelEditing.SelectionLastPressedWins | Assets/Scripts/LevelEditor/Editor/LevelEditor.cs:176-185 | Of several pressed buttons, the one shown last decides the selection. |
| LevelEditing.LevelEditor.constructor | Assets/Scripts/LevelEditor/Editor/LevelEditor.cs:11-36 | A new editor is 10 by 10, all Cell, with Cell selected and no colour; its matrix, column arrays included, is fresh. |
| LevelEditing.LevelEditor.InitializeGrid | Assets/Scripts/LevelEditor/Editor/LevelEditor.cs:38-48 | A fresh `gridWidth` by `gridHeight` matrix, column arrays included, with every cell written to Cell by the loops. |
| LevelEditing.LevelEditor.DrawGridSettings | Assets/Scripts/LevelEditor/Editor/LevelEditor.cs:157-166 | A changed size clamps both dimensions into [1, 50] and rebuilds a fresh all-Cell grid, column arrays included; an unchanged size keeps the grid object and its cells; the colour is taken as entered. |
| LevelEditing.LevelEditor.DrawNodeTypeSelection | Assets/Scripts/LevelEditor/Editor/LevelEditor.cs:171-193 | The loop over the node types leaves exactly the selection that `Selection` describes for the declaration order. |
| LevelEditing.LevelEditor.DrawCell | Assets/Scripts/LevelEditor/Editor/LevelEditor.cs:217-239 | A hovered mouse-down or drag sets exactly cell `(x, y)` to the selected type with the left button, or to Cell with the right; otherwise, and in every other cell, nothing changes; only the editor's own column arrays are written. |
| LevelEditing.LevelEditor.Load | Assets/Scripts/LevelEditor/Editor/LevelEditor.cs:108-125 | With no asset or an empty stored matrix, nothing changes. Otherwise the editor takes the stored size and colour, and a fresh grid (column arrays included) holds every stored cell at the same coordinates and Cell elsewhere. |
| LevelEditing.LevelEditor.Save | Assets/Scripts/LevelEditor/Editor/LevelEditor.cs:127-139 | With an asset, it receives the editor's size, its matrix (shared, not copied) and its colour. |
| LevelEditing.CopyCells | Assets/Scripts/LevelEditor/Editor/LevelEditor.cs:118-124 | Every source cell is written to the same coordinates of the target; the other target cells keep their values. |
| LevelEditing.SaveThenLoad | Assets/Scripts/LevelEditor/Editor/LevelEditor.cs:108-139 | Saving into an asset and loading it back restores width, height, colour and every cell. |
| LevelManagement.CsRemainder | Assets/Scripts/Managers/LevelManager.cs:38 | C#'s `%`: the dividend is divisor times truncated quotient plus remainder; the remainder is smaller than the divisor in magnitude and takes the dividend's sign. |
| LevelManagement.LevelIndex | Assets/Scripts/Managers/LevelManager.cs:38 | For every level number from 1 on, the index lies in `[0, levels.Length)` and equals the mathematical `(LevelNo - 1) mod levels.Length`. |
| LevelManagement.LevelIndexPeriodic | Assets/Scripts/Managers/LevelManager.cs:38 | Level numbers `levels.Length` apart select the same level. |
| LevelManagement.LevelIndexNext | Assets/Scripts/Managers/LevelManager.cs:38 | The next level number selects the next index, wrapping to 0 after the last level. |
| LevelManagement.LevelIndexBelowOne | Assets/Scripts/Managers/LevelManager.cs:38 | Level numbers just below 1 give the negative index `LevelNo - 1`, which the array access rejects. |
| LevelManagement.LevelManager.LevelNo | Assets/Scripts/Managers/LevelManager.cs:12-14 | The level number is 1 when nothing is stored, and the stored value otherwise. |
| LevelManagement.LevelManager.SetLevelNo | Assets/Scripts/Managers/LevelManager.cs:15 | After storing a value, the level number reads back as that value. |
| LevelManagement.LevelManager.constructor | Assets/Scripts/Managers/LevelManager.cs:12-23 | A manager over the given levels and stored level-number entry, with nothing loaded yet. |
| LevelManagement.LevelManager.LoadLevel | Assets/Scripts/Managers/LevelManager.cs:36-40 | The current index is the one the level number selects, and the current data is the level at that index. Needs at least one level and a non-negative index. |
| LevelManagement.LevelManager.RetryLevel | Assets/Scripts/Managers/LevelManager.cs:54-59 | The level number is unchanged, so a loaded level reloads the same index and data. |
| LevelManagement.LevelManager.LoadNextLevel | Assets/Scripts/Managers/LevelManager.cs:61-67 | The level number goes up by exactly one and the selected level is loaded. From a loaded level with a positive number, the index advances by one and wraps after the last level. |

## Left out

- Float layout: cell offsets and world positions in `GridManager.Setup`, the cell size and spacing fields, and object names. They do not affect which cell holds what.
- Unity object handling is not modelled: `Instantiate` becomes `new`, and prefab lookup and transform parenting in `SetNode` are dropped. `Destroy` and `UnloadLevel`'s event are dropped too.
- `GridCell.ChangeColor` and the cell's renderer are presentation only.
- GUI drawing in the editor is not modelled. This covers labels, buttons as widgets, `DrawGrid`'s iteration order, `DrawNodeTypeIndicator`, `DrawCircle`, `DrawX`, `GuiLine` and `ShowWindow`.
- Editor inputs are parameters. The values typed into the size fields, the colour popup, the buttons pressed and the mouse event are passed in.
- Editor asset handling is not modelled. `NewData`, `AssetDatabase` and the `EditorUtility` dirty flags are asset-file side effects.
- The editor's selected asset `levelSO` is a parameter of `Load` and `Save`. Unity's `!levelSO` test is modelled as `null`.
- `PlayerPrefs` persistence behind `LevelNo` is a field holding the stored entry, either missing or a value.
- `LevelManager` leaves out the current `Level` object, `Level.Load`, `StartLevel` and `Play`. It also leaves out the load, start, win and lose events and `PopulateLevels`, which scans a directory.
- `ColorType` is not part of this model beyond its `None` member. Other colours are an opaque ordinal.
- The `NodeType` declaration order is not part of this model's sources. It is taken as Cell, Ball, Wall, None, with Cell first and therefore the default value.
- C#'s `default(T)` has no Dafny counterpart. Matrix constructors take the initial cell value as a parameter: Cell for node types, null for board cells.
- Direction.GetDirection: the enumeration is closed, so the throwing arm for out-of-range enum casts is not modelled.
- LevelManagement.LevelManager.LoadNextLevel: `LevelNo` is an unbounded integer. The 32-bit wrap-around of `LevelNo++` at `int.MaxValue` is not modelled.
- LevelManagement.LevelManager.LoadLevel: the 32-bit wrap-around of `LevelNo - 1` is not modelled either. At `int.MinValue` the source wraps to `int.MaxValue` and gets a valid index, but the model computes a negative index and its precondition rejects this input.
- Crashes are preconditions rather than modelled error paths. They are an out-of-range indexer access, a negative size for an array that is allocated, a stored grid smaller than a non-empty board in `Setup` or larger than `GridSize` in the editor's `Load`, an empty `levels` array, and a negative level index.
- LevelEditing.LevelEditor.InitializeGrid: requires a non-negative width and height. The source also accepts a negative height when the width is 0. The editor never reaches that state, since its width and height stay at least 1.
- The nested loops of `GridManager.Setup` and of the editor's `Load` are split into the helper methods `FillBoard`, `SetupRow`, `PlaceCell`, `CreateCell` and `CopyCells`. The statements and their order are unchanged.
