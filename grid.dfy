/** The rectangular grid of a maze: cell coordinates, the linear index the
    union-find uses for a cell, and the list of walls in the order the maze
    builder enumerates them.

    A maze has `rowSize` columns and `colSize` rows (the names describe the
    length of one row and of one column): cell (col, row) exists when
    0 <= col < rowSize and 0 <= row < colSize. */
module Grid {

  import opened Graph

  datatype Coord = Coord(col: int, row: int)

  /** A candidate wall: the cell it starts from and its right or lower neighbour. */
  type Wall = (Coord, Coord)

  predicate InGrid(rowSize: nat, colSize: nat, c: Coord) {
    0 <= c.col < rowSize && 0 <= c.row < colSize
  }

  function Abs(x: int): nat { if x < 0 then -x else x }

  function Manhattan(a: Coord, b: Coord): nat {
    Abs(a.col - b.col) + Abs(a.row - b.row)
  }

  /** The union-find index of a cell: row * rowSize + col. */
  function Index(rowSize: nat, c: Coord): int {
    c.row * rowSize + c.col
  }

  /** The cell whose index is i: the inverse of Index on the grid. */
  function CoordOf(rowSize: nat, i: nat): Coord
    requires rowSize > 0
  {
    Coord(i % rowSize, i / rowSize)
  }

  lemma MulLeftMono(a: nat, b: nat, k: nat)
    requires a <= b
    ensures a * k <= b * k
  {
  }

  lemma DivModOfIndex(rowSize: nat, col: nat, row: nat)
    requires col < rowSize
    ensures (row * rowSize + col) / rowSize == row
    ensures (row * rowSize + col) % rowSize == col
  {
    var i := row * rowSize + col;
    var q, r := i / rowSize, i % rowSize;
    assert i == q * rowSize + r;
    if q < row {
      MulLeftMono(q + 1, row, rowSize);
      assert false;
    } else if q > row {
      MulLeftMono(row + 1, q, rowSize);
      assert false;
    }
  }

  /** Index maps the cells of the grid into [0, rowSize * colSize), and CoordOf
      undoes it. */
  lemma IndexInRange(rowSize: nat, colSize: nat, c: Coord)
    requires InGrid(rowSize, colSize, c)
    ensures 0 <= Index(rowSize, c) < rowSize * colSize
    ensures CoordOf(rowSize, Index(rowSize, c)) == c
  {
    MulLeftMono(c.row + 1, colSize, rowSize);
    DivModOfIndex(rowSize, c.col, c.row);
  }

  /** Every index in [0, rowSize * colSize) is the index of exactly one grid cell. */
  lemma IndexOnto(rowSize: nat, colSize: nat, i: int)
    requires 0 <= i < rowSize * colSize
    ensures rowSize > 0
    ensures InGrid(rowSize, colSize, CoordOf(rowSize, i))
    ensures Index(rowSize, CoordOf(rowSize, i)) == i
  {
    var q := i / rowSize;
    if q >= colSize {
      MulLeftMono(colSize, q, rowSize);
      assert false;
    }
  }

  /** Two grid cells with the same index are the same cell. */
  lemma IndexInjective(rowSize: nat, colSize: nat, a: Coord, b: Coord)
    requires InGrid(rowSize, colSize, a) && InGrid(rowSize, colSize, b)
    requires Index(rowSize, a) == Index(rowSize, b)
    ensures a == b
  {
    IndexInRange(rowSize, colSize, a);
    IndexInRange(rowSize, colSize, b);
  }

  /** The walls pushed while visiting cell (col, row): first the one to the
      right neighbour (unless col is the last column), then the one to the
      lower neighbour (unless row is the last row). */
  function CellWalls(rowSize: nat, colSize: nat, col: int, row: int): seq<Wall> {
    (if col != rowSize - 1 then [(Coord(col, row), Coord(col + 1, row))] else [])
    + (if row != colSize - 1 then [(Coord(col, row), Coord(col, row + 1))] else [])
  }

  /** The walls pushed while visiting rows 0 .. rows-1 of column col. */
  function ColumnWalls(rowSize: nat, colSize: nat, col: int, rows: nat): seq<Wall> {
    if rows == 0 then []
    else ColumnWalls(rowSize, colSize, col, rows - 1) + CellWalls(rowSize, colSize, col, rows - 1)
  }

  /** The walls pushed while visiting columns 0 .. cols-1. */
  function GridWalls(rowSize: nat, colSize: nat, cols: nat): seq<Wall> {
    if cols == 0 then []
    else GridWalls(rowSize, colSize, cols - 1) + ColumnWalls(rowSize, colSize, cols - 1, colSize)
  }

  /** Every wall of the grid, in enumeration order. */
  function Walls(rowSize: nat, colSize: nat): seq<Wall> {
    GridWalls(rowSize, colSize, rowSize)
  }

  /** A wall joins a grid cell to its right or its lower neighbour, which is in the grid too. */
  predicate IsGridWall(rowSize: nat, colSize: nat, w: Wall) {
    InGrid(rowSize, colSize, w.0) && InGrid(rowSize, colSize, w.1)
    && (w.1 == Coord(w.0.col + 1, w.0.row) || w.1 == Coord(w.0.col, w.0.row + 1))
  }

  predicate NoDuplicates<T(==)>(s: seq<T>) {
    forall i, j :: 0 <= i < j < |s| ==> s[i] != s[j]
  }

  lemma {:induction false} ColumnWallsShape(rowSize: nat, colSize: nat, col: int, rows: nat)
    requires 0 <= col < rowSize && rows <= colSize
    ensures forall w :: w in ColumnWalls(rowSize, colSize, col, rows) ==>
      IsGridWall(rowSize, colSize, w) && w.0.col == col && w.0.row < rows
    ensures NoDuplicates(ColumnWalls(rowSize, colSize, col, rows))
  {
    if rows > 0 {
      ColumnWallsShape(rowSize, colSize, col, rows - 1);
      var prev, last := ColumnWalls(rowSize, colSize, col, rows - 1), CellWalls(rowSize, colSize, col, rows - 1);
      DistinctConcat(prev, last);
    }
  }

  lemma {:induction false} GridWallsShape(rowSize: nat, colSize: nat, cols: nat)
    requires cols <= rowSize
    ensures forall w :: w in GridWalls(rowSize, colSize, cols) ==>
      IsGridWall(rowSize, colSize, w) && w.0.col < cols
    ensures NoDuplicates(GridWalls(rowSize, colSize, cols))
  {
    if cols > 0 {
      GridWallsShape(rowSize, colSize, cols - 1);
      ColumnWallsShape(rowSize, colSize, cols - 1, colSize);
      DistinctConcat(GridWalls(rowSize, colSize, cols - 1), ColumnWalls(rowSize, colSize, cols - 1, colSize));
    }
  }

  lemma DistinctConcat<T>(a: seq<T>, b: seq<T>)
    requires NoDuplicates(a) && NoDuplicates(b)
    requires forall x :: x in a ==> x !in b
    ensures NoDuplicates(a + b)
  {
    forall i, j | 0 <= i < j < |a + b|
      ensures (a + b)[i] != (a + b)[j]
    {
      if i < |a| && j >= |a| {
        assert (a + b)[i] in a;
      }
    }
  }

  /** Every enumerated wall pairs a grid cell with its right or lower neighbour
      (so its ends are at Manhattan distance 1), and no wall is enumerated twice. */
  lemma WallsAreGridWalls(rowSize: nat, colSize: nat)
    ensures forall w :: w in Walls(rowSize, colSize) ==>
      IsGridWall(rowSize, colSize, w) && Manhattan(w.0, w.1) == 1
    ensures NoDuplicates(Walls(rowSize, colSize))
  {
    GridWallsShape(rowSize, colSize, rowSize);
  }

  lemma {:induction false} ColumnWallsContain(rowSize: nat, colSize: nat, col: int, rows: nat, row: nat)
    requires row < rows
    ensures forall w :: w in CellWalls(rowSize, colSize, col, row) ==> w in ColumnWalls(rowSize, colSize, col, rows)
  {
    var prev := ColumnWalls(rowSize, colSize, col, rows - 1);
    assert ColumnWalls(rowSize, colSize, col, rows) == prev + CellWalls(rowSize, colSize, col, rows - 1);
    if row < rows - 1 {
      ColumnWallsContain(rowSize, colSize, col, rows - 1, row);
    }
  }

  lemma {:induction false} GridWallsContain(rowSize: nat, colSize: nat, cols: nat, col: nat)
    requires col < cols
    ensures forall w :: w in ColumnWalls(rowSize, colSize, col, colSize) ==> w in GridWalls(rowSize, colSize, cols)
  {
    var prev := GridWalls(rowSize, colSize, cols - 1);
    assert GridWalls(rowSize, colSize, cols) == prev + ColumnWalls(rowSize, colSize, cols - 1, colSize);
    if col < cols - 1 {
      GridWallsContain(rowSize, colSize, cols - 1, col);
    }
  }

  /** Conversely, every pair of a grid cell and its right or lower neighbour is enumerated. */
  lemma WallsComplete(rowSize: nat, colSize: nat, w: Wall)
    requires IsGridWall(rowSize, colSize, w)
    ensures w in Walls(rowSize, colSize)
  {
    var col, row := w.0.col, w.0.row;
    assert w in CellWalls(rowSize, colSize, col, row);
    ColumnWallsContain(rowSize, colSize, col, colSize, row);
    GridWallsContain(rowSize, colSize, rowSize, col);
  }

  lemma {:induction false} ColumnWallsCount(rowSize: nat, colSize: nat, col: int, rows: nat)
    requires 0 <= col < rowSize && 1 <= colSize && rows <= colSize
    ensures |ColumnWalls(rowSize, colSize, col, rows)|
      == (if col != rowSize - 1 then rows else 0) + (if rows == colSize then rows - 1 else rows)
  {
    if rows > 0 {
      ColumnWallsCount(rowSize, colSize, col, rows - 1);
    }
  }

  lemma {:induction false} GridWallsCount(rowSize: nat, colSize: nat, cols: nat)
    requires 1 <= colSize && 1 <= rowSize && cols <= rowSize
    ensures |GridWalls(rowSize, colSize, cols)|
      == cols * colSize - (if cols == rowSize then colSize else 0) + cols * (colSize - 1)
  {
    if cols > 0 {
      GridWallsCount(rowSize, colSize, cols - 1);
      ColumnWallsCount(rowSize, colSize, cols - 1, colSize);
      var h, v := (cols - 1) * colSize, (cols - 1) * (colSize - 1);
      assert cols * colSize == h + colSize;
      assert cols * (colSize - 1) == v + (colSize - 1);
    }
  }

  /** A grid with rowSize columns and colSize rows has (rowSize-1)*colSize
      horizontal and rowSize*(colSize-1) vertical walls. */
  lemma WallCount(rowSize: nat, colSize: nat)
    requires rowSize >= 1 && colSize >= 1
    ensures |Walls(rowSize, colSize)| == (rowSize - 1) * colSize + rowSize * (colSize - 1)
  {
    GridWallsCount(rowSize, colSize, rowSize);
    assert (rowSize - 1) * colSize == rowSize * colSize - colSize;
  }

  /** A wall as an edge between the union-find indices of its two cells. */
  function WallEdge(rowSize: nat, w: Wall): Edge {
    (Index(rowSize, w.0), Index(rowSize, w.1))
  }

  /** The grid graph: one edge per enumerated wall. */
  function WallEdges(rowSize: nat, colSize: nat): (E: seq<Edge>)
    ensures |E| == |Walls(rowSize, colSize)|
  {
    var ws := Walls(rowSize, colSize);
    seq(|ws|, i requires 0 <= i < |ws| => WallEdge(rowSize, ws[i]))
  }

  lemma GridLinked(rowSize: nat, colSize: nat, a: Coord, b: Coord)
    requires IsGridWall(rowSize, colSize, (a, b))
    ensures Linked(WallEdges(rowSize, colSize), Index(rowSize, a), Index(rowSize, b))
  {
    var ws := Walls(rowSize, colSize);
    WallsComplete(rowSize, colSize, (a, b));
    var i :| 0 <= i < |ws| && ws[i] == (a, b);
    assert WallEdges(rowSize, colSize)[i] == (Index(rowSize, a), Index(rowSize, b));
  }

  lemma {:induction false} ColumnConnected(rowSize: nat, colSize: nat, col: int, row: int)
    requires InGrid(rowSize, colSize, Coord(col, row))
    ensures Connected(WallEdges(rowSize, colSize), Index(rowSize, Coord(col, row)), Index(rowSize, Coord(col, 0)))
  {
    var E := WallEdges(rowSize, colSize);
    if row == 0 {
      ConnectedRefl(E, Index(rowSize, Coord(col, 0)));
    } else {
      ColumnConnected(rowSize, colSize, col, row - 1);
      GridLinked(rowSize, colSize, Coord(col, row - 1), Coord(col, row));
      ConnectedLinked(E, Index(rowSize, Coord(col, row - 1)), Index(rowSize, Coord(col, row)));
      ConnectedSym(E, Index(rowSize, Coord(col, row - 1)), Index(rowSize, Coord(col, row)));
      ConnectedTrans(E, Index(rowSize, Coord(col, row)), Index(rowSize, Coord(col, row - 1)), Index(rowSize, Coord(col, 0)));
    }
  }

  lemma {:induction false} TopRowConnected(rowSize: nat, colSize: nat, col: int)
    requires InGrid(rowSize, colSize, Coord(col, 0))
    ensures Connected(WallEdges(rowSize, colSize), Index(rowSize, Coord(col, 0)), 0)
  {
    var E := WallEdges(rowSize, colSize);
    if col == 0 {
      ConnectedRefl(E, 0);
    } else {
      TopRowConnected(rowSize, colSize, col - 1);
      GridLinked(rowSize, colSize, Coord(col - 1, 0), Coord(col, 0));
      ConnectedLinked(E, Index(rowSize, Coord(col - 1, 0)), Index(rowSize, Coord(col, 0)));
      ConnectedSym(E, Index(rowSize, Coord(col - 1, 0)), Index(rowSize, Coord(col, 0)));
      ConnectedTrans(E, Index(rowSize, Coord(col, 0)), Index(rowSize, Coord(col - 1, 0)), 0);
    }
  }

  /** The grid graph is connected: any two cells are joined by a walk along walls. */
  lemma GridConnected(rowSize: nat, colSize: nat)
    ensures forall x, y :: 0 <= x < rowSize * colSize && 0 <= y < rowSize * colSize ==>
      Connected(WallEdges(rowSize, colSize), x, y)
  {
    var E := WallEdges(rowSize, colSize);
    forall x | 0 <= x < rowSize * colSize
      ensures Connected(E, x, 0)
    {
      IndexOnto(rowSize, colSize, x);
      var c := CoordOf(rowSize, x);
      ColumnConnected(rowSize, colSize, c.col, c.row);
      TopRowConnected(rowSize, colSize, c.col);
      ConnectedTrans(E, x, Index(rowSize, Coord(c.col, 0)), 0);
    }
    forall x, y | 0 <= x < rowSize * colSize && 0 <= y < rowSize * colSize
      ensures Connected(E, x, y)
    {
      ConnectedSym(E, y, 0);
      ConnectedTrans(E, x, 0, y);
    }
  }
}
