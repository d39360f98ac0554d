/**
 * The generic two-dimensional grid of the game: a matrix stored as an
 * array of separately allocated columns (`GridArray`), each a fixed-size
 * array of cells. Both the level data (a matrix of `NodeType`) and the live
 * board (a matrix of grid cells) are instances of it.
 *
 * C#'s `default(T)` has no Dafny counterpart, so the constructors take the
 * value a fresh cell holds as a parameter.
 */
module Matrices {

  /** One column of a matrix. */
  class GridArray<T> {
    var cells: array<T>

    constructor (size: nat, defaultValue: T)
      ensures fresh(cells)
      ensures cells.Length == size
      ensures forall i :: 0 <= i < size ==> cells[i] == defaultValue
    {
      cells := new T[size](_ => defaultValue);
    }

    /** The indexer's getter. */
    function Get(index: int): T
      requires 0 <= index < cells.Length
      reads this, cells
    {
      cells[index]
    }

    /** The indexer's setter: exactly one element changes. */
    method Set(index: int, value: T)
      requires 0 <= index < cells.Length
      modifies cells
      ensures cells[..] == old(cells[..])[index := value]
      ensures Get(index) == value
    {
      cells[index] := value;
    }
  }

  class Matrix<T> {
    var arrays: array<GridArray?<T>>

    // abstract view: Contents[x][y] is the cell at column x, row y
    ghost var Contents: seq<seq<T>>
    // length of every column (the second dimension)
    ghost var Height: nat
    ghost var Repr: set<object>
    // the column arrays: all that writing a cell may change besides `this`
    ghost var Columns: set<array<T>>

    ghost predicate Valid()
      reads this, Repr
    {
      && this in Repr
      && arrays in Repr
      && arrays.Length == |Contents|
      && (forall i :: 0 <= i < |Contents| ==> |Contents[i]| == Height)
      && (forall c :: c in Columns ==> c in Repr)
      && (forall i {:trigger arrays[i]} :: 0 <= i < arrays.Length ==>
            && arrays[i] != null
            && arrays[i] in Repr
            && arrays[i].cells in Repr
            && arrays[i].cells in Columns
            && arrays[i].cells as object != arrays
            && arrays[i].cells.Length == Height
            && arrays[i].cells[..] == Contents[i])
      // every column is its own object with its own array: columns never alias
      && (forall i, j {:trigger arrays[i], arrays[j]} :: 0 <= i < j < arrays.Length ==>
            arrays[i] != arrays[j] && arrays[i].cells != arrays[j].cells)
    }

    /** Number of columns. */
    ghost function Width(): nat
      reads this
    {
      |Contents|
    }

    /** `(x, y)` addresses a cell of this matrix. */
    ghost predicate InRange(x: int, y: int)
      reads this
    {
      0 <= x < |Contents| && 0 <= y < Height
    }

    /**
     * Allocates `sizeX` columns of `sizeY` cells, each holding `defaultValue`.
     * A negative `sizeY` is only harmless when no column is allocated; the
     * matrix then has no cells and height 0.
     */
    constructor (sizeX: nat, sizeY: int, defaultValue: T)
      requires sizeX > 0 ==> sizeY >= 0
      ensures Valid() && fresh(Repr) && fresh(Columns)
      ensures |Contents| == sizeX && Height == if sizeY < 0 then 0 else sizeY
      ensures forall x, y :: 0 <= x < sizeX && 0 <= y < sizeY ==> Contents[x][y] == defaultValue
    {
      var a := new GridArray?<T>[sizeX];
      ghost var repr: set<object> := {a};
      ghost var columns: set<array<T>> := {};
      ghost var height: nat := if sizeY < 0 then 0 else sizeY;
      ghost var column0 := seq(height, _ => defaultValue);
      for i := 0 to sizeX
        invariant fresh(repr) && a in repr && fresh(columns)
        invariant forall c :: c in columns ==> c in repr
        invariant forall j :: 0 <= j < i ==>
          && a[j] != null && a[j] in repr && a[j].cells in repr && a[j].cells in columns
          && a[j].cells as object != a
          && a[j].cells.Length == height
          && a[j].cells[..] == column0
        invariant forall j, k :: 0 <= j < k < i ==> a[j] != a[k] && a[j].cells != a[k].cells
      {
        var column := new GridArray(sizeY, defaultValue);
        assert column.cells[..] == column0;
        a[i] := column;
        repr := repr + {column, column.cells};
        columns := columns + {column.cells};
      }
      arrays := a;
      Height := height;
      Contents := seq(sizeX, _ => column0);
      Repr := repr + {this};
      Columns := columns;
    }

    /** The indexer's getter `this[x, y]`. */
    function Get(x: int, y: int): (v: T)
      requires Valid() && InRange(x, y)
      reads this, Repr
      ensures v == Contents[x][y]
    {
      arrays[x].Get(y)
    }

    /** `GetLength(d)`: the number of columns, the length of column 0, or 0. */
    function GetLength(dimension: int): (n: int)
      requires Valid()
      requires dimension == 1 ==> arrays.Length >= 1
      reads this, Repr
      ensures dimension == 0 ==> n == Width()
      ensures dimension == 1 ==> n == Height
      ensures dimension != 0 && dimension != 1 ==> n == 0
    {
      match dimension
      case 0 => arrays.Length
      case 1 => arrays[0].cells.Length
      case _ => 0
    }

    /** The indexer's setter `this[x, y] = value`: writes only column `x`. */
    method Set(x: int, y: int, value: T)
      requires Valid() && InRange(x, y)
      modifies this, arrays[x].cells
      ensures Valid() && Repr == old(Repr) && Columns == old(Columns)
      ensures arrays == old(arrays) && Height == old(Height)
      ensures Contents == old(Contents)[x := old(Contents)[x][y := value]]
      ensures Get(x, y) == value
    {
      arrays[x].Set(y, value);
      Contents := Contents[x := Contents[x][y := value]];
    }
  }
}
