/** The maze: a grid of cells whose passages are picked by randomised
    Kruskal's algorithm, the exit cell on the last row, and the list of
    dead-ends (cells with exactly one open side).

    Cells are kept column by column: cells[col][row], with col < rowSize and
    row < colSize. A cell's union-find index is row * rowSize + col. */
module Mazes {

  import opened Graph
  import opened Shuffling
  import opened DisjointSets
  import Grid

  datatype Option<T> = None | Some(value: T)

  /** One cell of the maze. Its position never changes; neighborNum counts
      the open sides (passages, plus the exit's opening), and isFinal marks
      the exit. */
  class Cell {
    const col: int
    const row: int
    var neighborNum: int
    var isFinal: bool

    constructor (col: int, row: int)
      ensures this.col == col && this.row == row
      ensures neighborNum == 0 && !isFinal
    {
      this.col := col;
      this.row := row;
      neighborNum := 0;
      isFinal := false;
    }
  }

  /** A wall between two cells, and (once opened) a passage. */
  type CellPair = (Cell, Cell)

  function Coords(c: Cell): Grid.Coord {
    Grid.Coord(c.col, c.row)
  }

  /** The union-find index of a cell. */
  function Node(rowSize: nat, c: Cell): int {
    Grid.Index(rowSize, Coords(c))
  }

  /** The passages as edges between union-find indices. */
  function PassageEdges(rowSize: nat, ps: seq<CellPair>): (E: seq<Edge>)
    ensures |E| == |ps|
    ensures forall k :: 0 <= k < |ps| ==> E[k] == (Node(rowSize, ps[k].0), Node(rowSize, ps[k].1))
  {
    seq(|ps|, k requires 0 <= k < |ps| => (Node(rowSize, ps[k].0), Node(rowSize, ps[k].1)))
  }

  /** The coordinates of each pair's two cells. */
  function CoordPairs(ps: seq<CellPair>): (ws: seq<Grid.Wall>)
    ensures |ws| == |ps|
    ensures forall k :: 0 <= k < |ps| ==> ws[k] == (Coords(ps[k].0), Coords(ps[k].1))
  {
    seq(|ps|, k requires 0 <= k < |ps| => (Coords(ps[k].0), Coords(ps[k].1)))
  }

  /** cells holds rowSize columns of colSize cells each, every cell at its
      own coordinates. */
  predicate CellGrid(cells: seq<seq<Cell>>, rowSize: nat, colSize: nat) {
    |cells| == rowSize
    && (forall c :: 0 <= c < rowSize ==> |cells[c]| == colSize)
    && (forall c, r :: 0 <= c < rowSize && 0 <= r < colSize ==> cells[c][r].col == c && cells[c][r].row == r)
  }

  /** x is the cell of the grid at its coordinates. */
  predicate OnGrid(cells: seq<seq<Cell>>, rowSize: nat, colSize: nat, x: Cell)
    requires CellGrid(cells, rowSize, colSize)
  {
    Grid.InGrid(rowSize, colSize, Coords(x)) && cells[x.col][x.row] == x
  }

  /** p joins a cell of the grid to its right or lower neighbour. */
  predicate GridPassage(cells: seq<seq<Cell>>, rowSize: nat, colSize: nat, p: CellPair)
    requires CellGrid(cells, rowSize, colSize)
  {
    OnGrid(cells, rowSize, colSize, p.0) && OnGrid(cells, rowSize, colSize, p.1)
    && Grid.IsGridWall(rowSize, colSize, (Coords(p.0), Coords(p.1)))
  }

  /** Every cell of the grid, column after column. */
  function Flat(css: seq<seq<Cell>>): (r: seq<Cell>)
    ensures forall c, k :: 0 <= c < |css| && 0 <= k < |css[c]| ==> css[c][k] in r
  {
    if css == [] then [] else css[0] + Flat(css[1..])
  }

  /** Flat lists nothing but the cells of css. */
  lemma {:induction false} FlatOnlyCells(css: seq<seq<Cell>>, x: Cell)
    requires x in Flat(css)
    ensures exists c, k :: 0 <= c < |css| && 0 <= k < |css[c]| && css[c][k] == x
  {
    if x in css[0] {
      var k :| 0 <= k < |css[0]| && css[0][k] == x;
      assert css[0][k] == x;
    } else {
      FlatOnlyCells(css[1..], x);
      var c, k :| 0 <= c < |css[1..]| && 0 <= k < |css[1..][c]| && css[1..][c][k] == x;
      assert css[c + 1][k] == x;
    }
  }

  /** The cells of cs with exactly one open side, in order. */
  function DeadEnds(cs: seq<Cell>): (r: seq<Cell>)
    reads cs
    ensures forall x :: x in r ==> x in cs && x.neighborNum == 1
    ensures forall x :: x in cs && x.neighborNum == 1 ==> x in r
  {
    if cs == [] then []
    else (if cs[0].neighborNum == 1 then [cs[0]] else []) + DeadEnds(cs[1..])
  }

  /** The passages of ps between a and b, in either orientation. */
  function Touching(ps: seq<CellPair>, a: Cell, b: Cell): (r: seq<CellPair>)
    ensures |r| > 0 <==> (a, b) in ps || (b, a) in ps
  {
    if ps == [] then []
    else (if (ps[0].0 == a && ps[0].1 == b) || (ps[0].1 == a && ps[0].0 == b) then [ps[0]] else [])
         + Touching(ps[1..], a, b)
  }

  /** The number of walls of a rowSize by colSize grid. */
  function NumWalls(rowSize: nat, colSize: nat): int {
    (rowSize - 1) * colSize + rowSize * (colSize - 1)
  }

  /** x and y are elements of L with the same label. */
  predicate SameRoot(L: seq<nat>, x: int, y: int) {
    0 <= x < |L| && 0 <= y < |L| && L[x] == L[y]
  }

  /** The labels root name the components of the edges E over the vertices
      [0, n), and E closes no cycle. */
  ghost predicate Partition(E: seq<Edge>, root: seq<nat>, n: nat) {
    |root| == n && EdgesBelow(E, n) && Components(root, E) && Forest(E)
  }

  /** Each of the first n walls of ws joins two cells with the same label. */
  ghost predicate Processed(rowSize: nat, root: seq<nat>, ws: seq<CellPair>, n: nat) {
    n <= |ws| && forall k :: 0 <= k < n ==> SameRoot(root, Node(rowSize, ws[k].0), Node(rowSize, ws[k].1))
  }

  /** One accepting step of Kruskal's algorithm: a wall between two
      different sets becomes a passage. Then the sets are still exactly the
      components of the passages, and the passages still close no cycle. */
  lemma AcceptWall(E: seq<Edge>, root: seq<nat>, depth: seq<nat>, u: int, v: int,
                   root': seq<nat>, depth': seq<nat>)
    requires Partition(E, root, |root|)
    requires 0 <= u < |root| && 0 <= v < |root| && root[u] != root[v]
    requires Relinked(root, depth, root[u], root[v], root', depth')
    ensures Partition(E + [(u, v)], root', |root|)
  {
    var L: seq<int> := root;
    assert root' == Relabel(L, L[v], L[u]);
    MergeComponents(E, L, u, v);
    ForestGrow(E, u, v);
  }

  /** Merging two sets keeps together every pair of cells that was
      together. */
  lemma {:induction false} ProcessedRelinked(rowSize: nat, ws: seq<CellPair>, n: nat, root: seq<nat>, depth: seq<nat>,
                                             r1: nat, r2: nat, root': seq<nat>, depth': seq<nat>)
    requires Processed(rowSize, root, ws, n)
    requires Relinked(root, depth, r1, r2, root', depth')
    ensures Processed(rowSize, root', ws, n)
  {
    forall k | 0 <= k < n
      ensures SameRoot(root', Node(rowSize, ws[k].0), Node(rowSize, ws[k].1))
    {
      assert SameRoot(root, Node(rowSize, ws[k].0), Node(rowSize, ws[k].1));
    }
  }

  /** Once every wall of the grid has been looked at and each joins two cells
      of one set, all cells are in one set: the grid itself is connected. */
  lemma WallsJoinAll(rowSize: nat, colSize: nat, walls: seq<CellPair>, shuffled: seq<CellPair>, root: seq<nat>)
    requires CoordPairs(walls) == Grid.Walls(rowSize, colSize)
    requires multiset(shuffled) == multiset(walls)
    requires |root| == rowSize * colSize
    requires Processed(rowSize, root, shuffled, |shuffled|)
    ensures forall x :: 0 <= x < |root| ==> root[x] == root[0]
  {
    var E := Grid.WallEdges(rowSize, colSize);
    var ws := Grid.Walls(rowSize, colSize);
    forall e | e in E
      ensures 0 <= e.0 < |root| && 0 <= e.1 < |root| && root[e.0] == root[e.1]
    {
      var j :| 0 <= j < |E| && E[j] == e;
      assert E[j] == Grid.WallEdge(rowSize, ws[j]);
      assert CoordPairs(walls)[j] == ws[j];
      assert walls[j] in multiset(shuffled);
      var k :| 0 <= k < |shuffled| && shuffled[k] == walls[j];
      assert SameRoot(root, Node(rowSize, shuffled[k].0), Node(rowSize, shuffled[k].1));
    }
    Grid.GridConnected(rowSize, colSize);
    forall x | 0 <= x < |root|
      ensures root[x] == root[0]
    {
      LabelsAgreeOnConnected(E, root, x, 0);
    }
  }

  /** The cells of a new maze, column by column, each at its own
      coordinates with no open side. */
  method NewCells(rowSize: nat, colSize: nat) returns (cells: seq<seq<Cell>>)
    ensures CellGrid(cells, rowSize, colSize)
    ensures forall c, r :: 0 <= c < rowSize && 0 <= r < colSize ==>
      fresh(cells[c][r]) && cells[c][r].neighborNum == 0 && !cells[c][r].isFinal
  {
    cells := [];
    var col := 0;
    while col < rowSize
      invariant 0 <= col <= rowSize && |cells| == col
      invariant forall c :: 0 <= c < col ==> |cells[c]| == colSize
      invariant forall c, r :: 0 <= c < col && 0 <= r < colSize ==>
        && cells[c][r].col == c && cells[c][r].row == r && fresh(cells[c][r])
        && cells[c][r].neighborNum == 0 && !cells[c][r].isFinal
    {
      cells := cells + [[]];
      var row := 0;
      while row < colSize
        invariant 0 <= row <= colSize && |cells| == col + 1 && |cells[col]| == row
        invariant forall c :: 0 <= c < col ==> |cells[c]| == colSize
        invariant forall c, r :: (0 <= c < col && 0 <= r < colSize) || (c == col && 0 <= r < row) ==>
          && cells[c][r].col == c && cells[c][r].row == r && fresh(cells[c][r])
          && cells[c][r].neighborNum == 0 && !cells[c][r].isFinal
      {
        var cell := new Cell(col, row);
        cells := cells[col := cells[col] + [cell]];
        row := row + 1;
      }
      col := col + 1;
    }
  }

  /** Every wall of the grid, as a pair of cells: for each cell, column by
      column, its right wall (unless it is in the last column), then its
      lower wall (unless it is in the last row). */
  method ListWalls(rowSize: nat, colSize: nat, cells: seq<seq<Cell>>) returns (walls: seq<CellPair>)
    requires CellGrid(cells, rowSize, colSize)
    ensures CoordPairs(walls) == Grid.Walls(rowSize, colSize)
    ensures forall k :: 0 <= k < |walls| ==> GridPassage(cells, rowSize, colSize, walls[k])
  {
    walls := [];
    var col := 0;
    while col < rowSize
      invariant 0 <= col <= rowSize
      invariant CoordPairs(walls) == Grid.GridWalls(rowSize, colSize, col)
      invariant forall k :: 0 <= k < |walls| ==> OnGrid(cells, rowSize, colSize, walls[k].0) && OnGrid(cells, rowSize, colSize, walls[k].1)
    {
      var row := 0;
      while row < colSize
        invariant 0 <= row <= colSize
        invariant CoordPairs(walls) == Grid.GridWalls(rowSize, colSize, col) + Grid.ColumnWalls(rowSize, colSize, col, row)
        invariant forall k :: 0 <= k < |walls| ==> OnGrid(cells, rowSize, colSize, walls[k].0) && OnGrid(cells, rowSize, colSize, walls[k].1)
      {
        walls := PushCellWalls(rowSize, colSize, cells, col, row, walls);
        row := row + 1;
      }
      col := col + 1;
    }
    ListedAreGridPassages(rowSize, colSize, cells, walls);
  }

  /** The pushes made while visiting cell (col, row): its right wall unless
      it is in the last column, then its lower wall unless it is in the last
      row. */
  method PushCellWalls(rowSize: nat, colSize: nat, cells: seq<seq<Cell>>, col: nat, row: nat, walls: seq<CellPair>)
    returns (walls': seq<CellPair>)
    requires CellGrid(cells, rowSize, colSize) && col < rowSize && row < colSize
    requires forall k :: 0 <= k < |walls| ==> OnGrid(cells, rowSize, colSize, walls[k].0) && OnGrid(cells, rowSize, colSize, walls[k].1)
    ensures CoordPairs(walls') == CoordPairs(walls) + Grid.CellWalls(rowSize, colSize, col, row)
    ensures forall k :: 0 <= k < |walls'| ==> OnGrid(cells, rowSize, colSize, walls'[k].0) && OnGrid(cells, rowSize, colSize, walls'[k].1)
  {
    walls' := walls;
    ghost var right: seq<Grid.Wall>, down: seq<Grid.Wall> := [], [];
    if col != rowSize - 1 {
      right := [(Grid.Coord(col, row), Grid.Coord(col + 1, row))];
      assert CoordPairs([(cells[col][row], cells[col + 1][row])]) == right;
      CoordPairsAppend(walls', [(cells[col][row], cells[col + 1][row])]);
      walls' := walls' + [(cells[col][row], cells[col + 1][row])];
    }
    if row != colSize - 1 {
      down := [(Grid.Coord(col, row), Grid.Coord(col, row + 1))];
      assert CoordPairs([(cells[col][row], cells[col][row + 1])]) == down;
      CoordPairsAppend(walls', [(cells[col][row], cells[col][row + 1])]);
      walls' := walls' + [(cells[col][row], cells[col][row + 1])];
    }
    assert Grid.CellWalls(rowSize, colSize, col, row) == right + down;
  }

  lemma ListedAreGridPassages(rowSize: nat, colSize: nat, cells: seq<seq<Cell>>, walls: seq<CellPair>)
    requires CellGrid(cells, rowSize, colSize)
    requires CoordPairs(walls) == Grid.Walls(rowSize, colSize)
    requires forall k :: 0 <= k < |walls| ==> OnGrid(cells, rowSize, colSize, walls[k].0) && OnGrid(cells, rowSize, colSize, walls[k].1)
    ensures forall k :: 0 <= k < |walls| ==> GridPassage(cells, rowSize, colSize, walls[k])
  {
    Grid.WallsAreGridWalls(rowSize, colSize);
    forall k | 0 <= k < |walls|
      ensures GridPassage(cells, rowSize, colSize, walls[k])
    {
      assert CoordPairs(walls)[k] in Grid.Walls(rowSize, colSize);
    }
  }

  lemma PermutedAreGridPassages(rowSize: nat, colSize: nat, cells: seq<seq<Cell>>, walls: seq<CellPair>, shuffled: seq<CellPair>)
    requires CellGrid(cells, rowSize, colSize)
    requires multiset(shuffled) == multiset(walls)
    requires forall k :: 0 <= k < |walls| ==> GridPassage(cells, rowSize, colSize, walls[k])
    ensures forall k :: 0 <= k < |shuffled| ==> GridPassage(cells, rowSize, colSize, shuffled[k])
  {
    forall k | 0 <= k < |shuffled|
      ensures GridPassage(cells, rowSize, colSize, shuffled[k])
    {
      assert shuffled[k] in multiset(walls);
      var j :| 0 <= j < |walls| && walls[j] == shuffled[k];
    }
  }

  lemma CoordPairsAppend(a: seq<CellPair>, b: seq<CellPair>)
    ensures CoordPairs(a + b) == CoordPairs(a) + CoordPairs(b)
  {
  }

  /** When the loop ends, either one set is left or every wall has been
      looked at; either way the passages join all cells, and being a forest
      there is one fewer of them than cells. */
  lemma KruskalDone(rowSize: nat, colSize: nat, walls: seq<CellPair>, shuffled: seq<CellPair>,
                    nodes: seq<int>, root: seq<nat>, depth: seq<nat>, setNum: int, E: seq<Edge>)
    requires rowSize >= 1 && colSize >= 1
    requires Inv(nodes, root, depth, setNum) && |nodes| == rowSize * colSize
    requires Partition(E, root, rowSize * colSize) && |E| + setNum == rowSize * colSize
    requires setNum == 1 || (CoordPairs(walls) == Grid.Walls(rowSize, colSize)
                             && multiset(shuffled) == multiset(walls) && Processed(rowSize, root, shuffled, |shuffled|))
    ensures setNum == 1 && |E| == rowSize * colSize - 1
    ensures forall x, y :: 0 <= x < rowSize * colSize && 0 <= y < rowSize * colSize ==> Connected(E, x, y)
  {
    if setNum != 1 {
      WallsJoinAll(rowSize, colSize, walls, shuffled, root);
      AllJoinedOneSet(nodes, root, depth, setNum);
    }
    OneSetAllJoined(nodes, root, depth, setNum);
  }

  /** A wall whose two cells share a label extends the processed walls. */
  lemma ProcessedNext(rowSize: nat, ws: seq<CellPair>, n: nat, root: seq<nat>, u: nat, v: nat)
    requires Processed(rowSize, root, ws, n) && n < |ws|
    requires u == Node(rowSize, ws[n].0) && v == Node(rowSize, ws[n].1)
    requires u < |root| && v < |root| && root[u] == root[v]
    ensures Processed(rowSize, root, ws, n + 1)
  {
  }

  /** The two cells of a wall of the grid are cells of the grid. */
  lemma PassageInFlat(cells: seq<seq<Cell>>, rowSize: nat, colSize: nat, p: CellPair)
    requires CellGrid(cells, rowSize, colSize) && GridPassage(cells, rowSize, colSize, p)
    ensures p.0 in Flat(cells) && p.1 in Flat(cells)
  {
    assert cells[p.0.col][p.0.row] == p.0 && cells[p.1.col][p.1.row] == p.1;
  }

  /** The passages form a spanning tree of the grid: each joins a cell to
      its right or lower neighbour, there is one fewer of them than cells,
      none closes a cycle, and every two cells are joined by a path. */
  ghost predicate SpanningTree(cells: seq<seq<Cell>>, rowSize: nat, colSize: nat, passages: seq<CellPair>)
    requires CellGrid(cells, rowSize, colSize)
  {
    && (forall k :: 0 <= k < |passages| ==> GridPassage(cells, rowSize, colSize, passages[k]))
    && |passages| == rowSize * colSize - 1
    && Forest(PassageEdges(rowSize, passages))
    && forall x, y :: 0 <= x < rowSize * colSize && 0 <= y < rowSize * colSize ==>
         Connected(PassageEdges(rowSize, passages), x, y)
  }

  /** Each cell of the grid counts as open sides exactly the passages that
      end at it. */
  ghost predicate Degrees(cells: seq<seq<Cell>>, rowSize: nat, colSize: nat, passages: seq<CellPair>)
    requires CellGrid(cells, rowSize, colSize)
    reads Flat(cells)
  {
    forall c, r {:trigger cells[c][r]} :: 0 <= c < rowSize && 0 <= r < colSize ==>
      cells[c][r].neighborNum == Degree(PassageEdges(rowSize, passages), Grid.Index(rowSize, Grid.Coord(c, r)))
  }

  /** Opening a wall whose cells lie in different sets: the wall becomes a
      passage, the two sets are merged and both cells gain an open side. */
  method OpenWall(rowSize: nat, colSize: nat, cells: seq<seq<Cell>>, subtrees: DisjointSet,
                  passages: seq<CellPair>, wall: CellPair, node1: nat, node2: nat)
    returns (passages': seq<CellPair>)
    requires CellGrid(cells, rowSize, colSize) && GridPassage(cells, rowSize, colSize, wall)
    requires node1 == Node(rowSize, wall.0) && node2 == Node(rowSize, wall.1)
    requires subtrees.Valid() && |subtrees.nodes| == rowSize * colSize
    requires node1 < rowSize * colSize && node2 < rowSize * colSize
    requires subtrees.root[node1] != subtrees.root[node2]
    requires Partition(PassageEdges(rowSize, passages), subtrees.root, rowSize * colSize)
    requires Degrees(cells, rowSize, colSize, passages)
    requires forall k :: 0 <= k < |passages| ==> GridPassage(cells, rowSize, colSize, passages[k])
    modifies subtrees, wall.0`neighborNum, wall.1`neighborNum
    ensures passages' == passages + [wall]
    ensures forall k :: 0 <= k < |passages'| ==> GridPassage(cells, rowSize, colSize, passages'[k])
    ensures subtrees.Valid() && |subtrees.nodes| == rowSize * colSize
    ensures subtrees.setNum == old(subtrees.setNum) - 1
    ensures Relinked(old(subtrees.root), old(subtrees.depth), old(subtrees.root[node1]), old(subtrees.root[node2]),
                     subtrees.root, subtrees.depth)
    ensures subtrees.root[node1] == subtrees.root[node2]
    ensures Partition(PassageEdges(rowSize, passages'), subtrees.root, rowSize * colSize)
    ensures Degrees(cells, rowSize, colSize, passages')
  {
    ghost var E, root0, depth0 := PassageEdges(rowSize, passages), subtrees.root, subtrees.depth;
    subtrees.Merge(node1, node2);
    AcceptWall(E, root0, depth0, node1, node2, subtrees.root, subtrees.depth);
    passages' := AddPassage(rowSize, colSize, cells, passages, wall);
  }

  /** A new passage: both of its cells gain an open side, so every cell
      still counts exactly the passages that end at it. */
  method AddPassage(rowSize: nat, colSize: nat, cells: seq<seq<Cell>>, passages: seq<CellPair>, wall: CellPair)
    returns (passages': seq<CellPair>)
    requires CellGrid(cells, rowSize, colSize) && GridPassage(cells, rowSize, colSize, wall)
    requires Degrees(cells, rowSize, colSize, passages)
    requires forall k :: 0 <= k < |passages| ==> GridPassage(cells, rowSize, colSize, passages[k])
    modifies wall.0`neighborNum, wall.1`neighborNum
    ensures passages' == passages + [wall]
    ensures forall k :: 0 <= k < |passages'| ==> GridPassage(cells, rowSize, colSize, passages'[k])
    ensures PassageEdges(rowSize, passages') == PassageEdges(rowSize, passages) + [(Node(rowSize, wall.0), Node(rowSize, wall.1))]
    ensures Degrees(cells, rowSize, colSize, passages')
  {
    ghost var E, node1, node2 := PassageEdges(rowSize, passages), Node(rowSize, wall.0), Node(rowSize, wall.1);
    passages' := passages + [wall];
    assert PassageEdges(rowSize, passages') == E + [(node1, node2)];
    wall.0.neighborNum := wall.0.neighborNum + 1;
    wall.1.neighborNum := wall.1.neighborNum + 1;
    forall c, r | 0 <= c < rowSize && 0 <= r < colSize
      ensures cells[c][r].neighborNum == Degree(PassageEdges(rowSize, passages'), Grid.Index(rowSize, Grid.Coord(c, r)))
    {
      var x := Grid.Index(rowSize, Grid.Coord(c, r));
      DegreeAppend(E, (node1, node2), x);
      if x == node1 {
        Grid.IndexInjective(rowSize, colSize, Grid.Coord(c, r), Coords(wall.0));
      }
      if x == node2 {
        Grid.IndexInjective(rowSize, colSize, Grid.Coord(c, r), Coords(wall.1));
      }
    }
  }

  /** One turn of the Kruskal loop: the wall is skipped when its two cells
      are already in one set, and opened otherwise. The loop's invariant
      holds again with the wall counted as processed. */
  method ConsiderWall(rowSize: nat, colSize: nat, cells: seq<seq<Cell>>, subtrees: DisjointSet,
                      passages: seq<CellPair>, ghost ws: seq<CellPair>, ghost n: nat, wall: CellPair)
    returns (passages': seq<CellPair>, same: bool)
    requires CellGrid(cells, rowSize, colSize) && GridPassage(cells, rowSize, colSize, wall)
    requires subtrees.Valid() && |subtrees.nodes| == rowSize * colSize
    requires |passages| + subtrees.setNum == rowSize * colSize
    requires forall k :: 0 <= k < |passages| ==> GridPassage(cells, rowSize, colSize, passages[k])
    requires Partition(PassageEdges(rowSize, passages), subtrees.root, rowSize * colSize)
    requires Processed(rowSize, subtrees.root, ws, n) && n < |ws| && ws[n] == wall
    requires Degrees(cells, rowSize, colSize, passages)
    modifies subtrees, wall.0`neighborNum, wall.1`neighborNum
    ensures same ==> passages' == passages && subtrees.setNum == old(subtrees.setNum)
    ensures !same ==> passages' == passages + [wall] && subtrees.setNum == old(subtrees.setNum) - 1
    ensures subtrees.Valid() && |subtrees.nodes| == rowSize * colSize
    ensures |passages'| + subtrees.setNum == rowSize * colSize
    ensures forall k :: 0 <= k < |passages'| ==> GridPassage(cells, rowSize, colSize, passages'[k])
    ensures Partition(PassageEdges(rowSize, passages'), subtrees.root, rowSize * colSize)
    ensures Processed(rowSize, subtrees.root, ws, n + 1)
    ensures Degrees(cells, rowSize, colSize, passages')
  {
    Grid.IndexInRange(rowSize, colSize, Coords(wall.0));
    Grid.IndexInRange(rowSize, colSize, Coords(wall.1));
    var node1 := wall.0.row * rowSize + wall.0.col;
    var node2 := wall.1.row * rowSize + wall.1.col;
    same := subtrees.SameSet(node1, node2);
    ghost var root0, depth0 := subtrees.root, subtrees.depth;
    if same {
      passages' := passages;
      ProcessedNext(rowSize, ws, n, subtrees.root, node1, node2);
    } else {
      passages' := OpenWall(rowSize, colSize, cells, subtrees, passages, wall, node1, node2);
      ProcessedRelinked(rowSize, ws, n, root0, depth0, root0[node1], root0[node2], subtrees.root, subtrees.depth);
      ProcessedNext(rowSize, ws, n, subtrees.root, node1, node2);
    }
  }

  /** The Kruskal loop over the shuffled walls: a wall whose cells are in
      different sets is opened; the loop stops once one set is left. The
      passages then form a spanning tree of the grid. */
  method OpenPassages(rowSize: nat, colSize: nat, cells: seq<seq<Cell>>, subtrees: DisjointSet,
                      ghost walls: seq<CellPair>, wallArray: array<CellPair>)
    returns (passages: seq<CellPair>)
    requires rowSize >= 1 && colSize >= 1 && CellGrid(cells, rowSize, colSize)
    requires CoordPairs(walls) == Grid.Walls(rowSize, colSize)
    requires multiset(wallArray[..]) == multiset(walls)
    requires forall k :: 0 <= k < |walls| ==> GridPassage(cells, rowSize, colSize, walls[k])
    requires forall c, r :: 0 <= c < rowSize && 0 <= r < colSize ==> cells[c][r].neighborNum == 0
    requires subtrees.Valid() && |subtrees.nodes| == rowSize * colSize && subtrees.setNum == rowSize * colSize
    requires forall x :: 0 <= x < rowSize * colSize ==> subtrees.root[x] == x
    modifies subtrees, Flat(cells)`neighborNum
    ensures SpanningTree(cells, rowSize, colSize, passages)
    ensures Degrees(cells, rowSize, colSize, passages)
  {
    ghost var shuffled := wallArray[..];
    PermutedAreGridPassages(rowSize, colSize, cells, walls, shuffled);
    passages := [];
    assert PassageEdges(rowSize, passages) == [];
    NoEdgesComponents(subtrees.root);
    var i := 0;
    while i < wallArray.Length
      invariant 0 <= i <= wallArray.Length && wallArray[..] == shuffled
      invariant subtrees.Valid() && |subtrees.nodes| == rowSize * colSize
      invariant |passages| + subtrees.setNum == rowSize * colSize
      invariant forall k :: 0 <= k < |passages| ==> GridPassage(cells, rowSize, colSize, passages[k])
      invariant Partition(PassageEdges(rowSize, passages), subtrees.root, rowSize * colSize)
      invariant Processed(rowSize, subtrees.root, shuffled, i)
      invariant Degrees(cells, rowSize, colSize, passages)
    {
      var wall := wallArray[i];
      PassageInFlat(cells, rowSize, colSize, wall);
      var same;
      passages, same := ConsiderWall(rowSize, colSize, cells, subtrees, passages, shuffled, i, wall);
      i := i + 1;
      if !same && subtrees.setNum == 1 {
        break;
      }
    }
    KruskalDone(rowSize, colSize, walls, shuffled, subtrees.nodes, subtrees.root, subtrees.depth, subtrees.setNum,
                PassageEdges(rowSize, passages));
  }

  /** A new array holding the elements of s. */
  method ToArray<T>(s: seq<T>) returns (a: array<T>)
    ensures fresh(a) && a[..] == s
  {
    a := new T[|s|](k requires 0 <= k < |s| => s[k]);
  }

  /** The first half of createGraph: the cells of a new grid, then every
      wall between two neighbouring cells, listed and then shuffled in place
      with the given draws. */
  method GridAndWalls(rowSize: nat, colSize: nat, draws: seq<nat>)
    returns (cells: seq<seq<Cell>>, walls: seq<CellPair>, wallArray: array<CellPair>)
    requires rowSize >= 1 && colSize >= 1
    requires DrawsFit(NumWalls(rowSize, colSize), draws)
    ensures CellGrid(cells, rowSize, colSize)
    ensures forall c, r :: 0 <= c < rowSize && 0 <= r < colSize ==>
      fresh(cells[c][r]) && cells[c][r].neighborNum == 0 && !cells[c][r].isFinal
    ensures forall i :: 0 <= i < |Flat(cells)| ==> fresh(Flat(cells)[i])
    ensures fresh(wallArray)
    ensures CoordPairs(walls) == Grid.Walls(rowSize, colSize)
    ensures forall k :: 0 <= k < |walls| ==> GridPassage(cells, rowSize, colSize, walls[k])
    ensures multiset(wallArray[..]) == multiset(walls)
  {
    cells := NewCells(rowSize, colSize);
    walls := ListWalls(rowSize, colSize, cells);
    Grid.WallCount(rowSize, colSize);
    wallArray := ToArray(walls);
    Shuffle(wallArray, draws);
    ShufflePermutes(walls, draws);
    forall i | 0 <= i < |Flat(cells)|
      ensures fresh(Flat(cells)[i])
    {
      FlatOnlyCells(cells, Flat(cells)[i]);
    }
  }

  /** A maze of rowSize columns and colSize rows. */
  class Maze {
    const rowSize: nat
    const colSize: nat
    var passages: seq<CellPair>
    var cells: seq<seq<Cell>>
    var emptyDeadends: seq<Cell>

    /** The cells form the grid and the passages a spanning tree of it. */
    ghost predicate Valid()
      reads this
    {
      CellGrid(cells, rowSize, colSize) && SpanningTree(cells, rowSize, colSize, passages)
    }

    /** Builds the maze: the passages by randomised Kruskal's algorithm, then
        the exit in the middle column (rounding down) of the last row, which
        gains one open side (its opening to the outside), and the list of
        dead-ends, the cells with exactly one open side. Every other cell
        counts exactly its passages; on a grid of two or more cells the exit
        is joined to some other cell, so it is never a dead-end. */
    constructor (rowSize: nat, colSize: nat, draws: seq<nat>)
      requires rowSize >= 1 && colSize >= 1
      requires DrawsFit(NumWalls(rowSize, colSize), draws)
      ensures this.rowSize == rowSize && this.colSize == colSize && Valid()
      ensures var exit := cells[rowSize / 2][colSize - 1];
        && exit.isFinal
        && exit.neighborNum == Degree(PassageEdges(rowSize, passages), Grid.Index(rowSize, Grid.Coord(rowSize / 2, colSize - 1))) + 1
      ensures forall c, r :: 0 <= c < rowSize && 0 <= r < colSize && (c != rowSize / 2 || r != colSize - 1) ==>
        && !cells[c][r].isFinal
        && cells[c][r].neighborNum == Degree(PassageEdges(rowSize, passages), Grid.Index(rowSize, Grid.Coord(c, r)))
      ensures forall x :: x in emptyDeadends <==> x in Flat(cells) && x.neighborNum == 1
      ensures rowSize * colSize >= 2 ==> cells[rowSize / 2][colSize - 1] !in emptyDeadends
    {
      this.rowSize := rowSize;
      this.colSize := colSize;
      new;
      var ps, cs := CreateGraph(draws);
      ExitNotDeadEnd(cs, rowSize, colSize, ps);
      OpenExit(rowSize, colSize, cs, ps, cs[rowSize / 2][colSize - 1]);
      passages, cells := ps, cs;
      emptyDeadends := DeadEnds(Flat(cs));
    }

    /** Randomised Kruskal's algorithm. Builds the grid of cells, lists every
        wall, shuffles the list with the given draws, and opens each wall
        whose two cells are not yet joined, until one set is left.

        The passages form a spanning tree of the grid: there are
        rowSize * colSize - 1 of them, none closes a cycle, every two cells
        are joined, and each cell's neighborNum is its number of passages. */
    method CreateGraph(draws: seq<nat>) returns (passages: seq<CellPair>, cells: seq<seq<Cell>>)
      requires rowSize >= 1 && colSize >= 1
      requires DrawsFit(NumWalls(rowSize, colSize), draws)
      ensures CellGrid(cells, rowSize, colSize)
      ensures forall c, r :: 0 <= c < rowSize && 0 <= r < colSize ==> fresh(cells[c][r]) && !cells[c][r].isFinal
      ensures SpanningTree(cells, rowSize, colSize, passages)
      ensures Degrees(cells, rowSize, colSize, passages)
    {
      var subtrees := new DisjointSet(rowSize * colSize);
      var wallArray;
      var walls;
      cells, walls, wallArray := GridAndWalls(rowSize, colSize, draws);
      passages := OpenPassages(rowSize, colSize, cells, subtrees, walls, wallArray);
    }

    /** The cell at column col and row row, or None when there is none. */
    function CellAt(col: int, row: int): (r: Option<Cell>)
      reads this
      ensures Valid() ==> (r.Some? <==> Grid.InGrid(rowSize, colSize, Grid.Coord(col, row)))
      ensures Valid() && r.Some? ==> r.value.col == col && r.value.row == row
    {
      if 0 <= col < |cells| && 0 <= row < |cells[col]| then Some(cells[col][row]) else None
    }

    /** Whether cell1 and cell2 are next to each other with a passage
        between them (in either orientation). */
    function IsNeighbor(cell1: Cell, cell2: Cell): (b: bool)
      reads this
      ensures b <==> Grid.Manhattan(Coords(cell1), Coords(cell2)) == 1
                     && ((cell1, cell2) in passages || (cell2, cell1) in passages)
    {
      if Grid.Abs(cell1.col - cell2.col) + Grid.Abs(cell1.row - cell2.row) != 1 then false
      else |Touching(passages, cell1, cell2)| > 0
    }
  }

  /** The exit cell, in the middle column (rounding down) of the last row,
      gains an open side and is marked final; no other cell changes. */
  method OpenExit(rowSize: nat, colSize: nat, cells: seq<seq<Cell>>, ghost passages: seq<CellPair>, finalCell: Cell)
    requires rowSize >= 1 && colSize >= 1 && CellGrid(cells, rowSize, colSize)
    requires finalCell == cells[rowSize / 2][colSize - 1]
    requires Degrees(cells, rowSize, colSize, passages)
    requires forall c, r :: 0 <= c < rowSize && 0 <= r < colSize ==> !cells[c][r].isFinal
    modifies finalCell`neighborNum, finalCell`isFinal
    ensures finalCell.isFinal
      && finalCell.neighborNum == Degree(PassageEdges(rowSize, passages), Grid.Index(rowSize, Grid.Coord(rowSize / 2, colSize - 1))) + 1
    ensures forall c, r :: 0 <= c < rowSize && 0 <= r < colSize && (c != rowSize / 2 || r != colSize - 1) ==>
      && !cells[c][r].isFinal
      && cells[c][r].neighborNum == Degree(PassageEdges(rowSize, passages), Grid.Index(rowSize, Grid.Coord(c, r)))
  {
    finalCell.neighborNum := finalCell.neighborNum + 1;
    finalCell.isFinal := true;
  }

  /** On a grid of two or more cells every cell, the exit included, has a
      passage: the passages join all cells. */
  lemma ExitNotDeadEnd(cells: seq<seq<Cell>>, rowSize: nat, colSize: nat, passages: seq<CellPair>)
    requires rowSize >= 1 && colSize >= 1 && CellGrid(cells, rowSize, colSize)
    requires SpanningTree(cells, rowSize, colSize, passages)
    ensures rowSize * colSize >= 2 ==>
      Degree(PassageEdges(rowSize, passages), Grid.Index(rowSize, Grid.Coord(rowSize / 2, colSize - 1))) >= 1
  {
    if rowSize * colSize >= 2 {
      var x := Grid.Index(rowSize, Grid.Coord(rowSize / 2, colSize - 1));
      Grid.IndexInRange(rowSize, colSize, Grid.Coord(rowSize / 2, colSize - 1));
      ConnectedHasDegree(PassageEdges(rowSize, passages), rowSize * colSize, x);
    }
  }

  /** Every cell of a valid maze is found at its own coordinates. */
  lemma CellAtFindsCell(m: Maze, x: Cell)
    requires m.Valid() && x in Flat(m.cells)
    ensures m.CellAt(x.col, x.row) == Some(x)
  {
    FlatOnlyCells(m.cells, x);
  }

  /** In a valid maze the distance test of IsNeighbor never rejects a
      passage: two cells are neighbours exactly when a passage joins them,
      and then their indices are linked in the passage graph. */
  lemma NeighborsArePassages(m: Maze, a: Cell, b: Cell)
    requires m.Valid()
    ensures m.IsNeighbor(a, b) <==> (a, b) in m.passages || (b, a) in m.passages
    ensures m.IsNeighbor(a, b) ==> Linked(PassageEdges(m.rowSize, m.passages), Node(m.rowSize, a), Node(m.rowSize, b))
  {
    var E := PassageEdges(m.rowSize, m.passages);
    if (a, b) in m.passages || (b, a) in m.passages {
      var k :| 0 <= k < |m.passages| && (m.passages[k] == (a, b) || m.passages[k] == (b, a));
      assert GridPassage(m.cells, m.rowSize, m.colSize, m.passages[k]);
      assert E[k] == (Node(m.rowSize, m.passages[k].0), Node(m.rowSize, m.passages[k].1));
    }
  }

  /** Being neighbours is symmetric. */
  lemma NeighborSymmetric(m: Maze, a: Cell, b: Cell)
    ensures m.IsNeighbor(a, b) == m.IsNeighbor(b, a)
  {
  }
}
