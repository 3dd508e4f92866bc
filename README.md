# MazeBoard maze generator, modelled in Dafny

MazeBoard draws a random "perfect" maze on a grid. It has exactly one path
between any two cells. The maze is built by randomised Kruskal's algorithm:

1. The builder creates a cell for every grid position.
2. It lists every wall between two neighbouring cells and shuffles the list
   with Fisher–Yates.
3. It walks the shuffled list and opens a wall as a passage when its two
   cells are not yet joined. A union-find (`DisjointSet`) keeps track of
   which cells are joined.
4. When one set is left, the passages form a spanning tree of the grid.
5. Finally the constructor:
   - marks the exit (the middle column, rounding down, of the last row);
   - gives the exit one extra open side, its opening to the outside;
   - collects the dead-ends, the cells with exactly one open side.

This project models that core and proves what it guarantees. It has five
modules:

- `DisjointSets` (`disjointset.dfy`) models the class `DisjointSet`:
  - `nodes` holds a parent link (nonnegative) or minus the set size (negative).
  - `setNum` counts the sets.
  - Ghost fields `root` and `depth` explain the encoding. The depth
    decreases along parent links, which is what makes the recursive find
    terminate.
  - The invariant `Inv` says:
    - the links are acyclic and lead to roots;
    - each root stores minus the number of elements whose root it is;
    - `setNum` is the number of roots.
- `Shuffling` (`shuffle.dfy`) models `shuffle`, the in-place swap loop on
  an array. `randomInt` becomes an oracle: a sequence of draws, each in
  `[0, n)`.
- `Grid` (`grid.dfy`) covers:
  - cell coordinates;
  - the union-find index `row * rowSize + col`;
  - the order in which `createGraph` enumerates walls;
  - the grid graph.

  `rowSize` is the number of columns and `colSize` the number of rows.
- `Graph` (`graph.dfy`) holds the reference notions against which
  passages are judged: walks, connectivity, acyclicity built edge by edge,
  and degree.
- `Mazes` (`maze.dfy`) holds:
  - `Cell` and `Maze`;
  - `createGraph`, split into its phases;
  - the exit and dead-end logic of the constructor;
  - the cell lookup;
  - `isNeighbor`.

The code of `merge` is followed rather than the usual description of the
structure as union-by-size. Both branches of the size comparison
(disjointset.js:38-44) do the same thing: the root of `node2` always goes
under the root of `node1`. So nothing here claims union-by-size or any
bound on tree height.

## Model

| member | source | states |
|---|---|---|
| DisjointSets.DisjointSet.constructor | disjointset.js:5-15 | `size` singleton sets: every entry is -1, every element is its own root, `setNum == size`, and the invariant holds |
| DisjointSets.CountNegAllMinusOne | disjointset.js:10-14 | an array of -1 entries has as many roots as entries, so the initial `setNum` is the number of roots |
| DisjointSets.CountOfIdentity | disjointset.js:10-14 | when every element is its own root, each set has exactly one member, so -1 is the right size |
| DisjointSets.DisjointSet.GetParent | disjointset.js:17-26 | returns the root of `node`, a root of the structure. On a root it returns the node itself and changes nothing; otherwise `nodes[node]` is then the root. The links become the path-compressed links `Compressed`. The invariant, every element's root and `setNum` are unchanged |
| DisjointSets.ChainEndsAtRoot | disjointset.js:17-21 | the chain of parent links the recursive find walks from `i` ends at `i`'s root and stays inside its set, with depth strictly decreasing: the walk terminates |
| DisjointSets.ChainAcyclic | disjointset.js:17-21 | no element is visited twice on that chain: parent links are acyclic |
| DisjointSets.PointAtRoot | disjointset.js:21 | pointing a non-root straight at its root keeps the links acyclic and rooted |
| DisjointSets.CompressKeepsInv | disjointset.js:21 | that single write keeps the whole invariant (sizes and set count included) |
| DisjointSets.CompressedRooted | disjointset.js:19-21 | the links after a whole compressing find are still acyclic and lead to the same roots |
| DisjointSets.CompressedKeepsInv | disjointset.js:19-21 | a compressing find keeps the invariant with the same roots, sizes and `setNum` |
| DisjointSets.CompressedPointwise | disjointset.js:19-21 | after a find from `i`, exactly the non-roots on `i`'s chain point at `i`'s root; every other entry is unchanged |
| DisjointSets.CompressedKeepsRoots | disjointset.js:19-21 | a find never alters a root's (size) entry |
| DisjointSets.DisjointSet.SameSet | disjointset.js:28-30 | true exactly when the two elements have the same root (hence reflexive and symmetric); only compression happens, partition and `setNum` unchanged |
| DisjointSets.DisjointSet.Merge | disjointset.js:32-46 | links become `Merged` (both finds, then the link). On one set: partition and `setNum` unchanged. On two sets: node2's set is relabelled to node1's root and `setNum` drops by 1. Either way the two elements now share a root; the invariant holds |
| DisjointSets.DisjointSet.LinkRoots | disjointset.js:38-45 | on two distinct roots: `nodes[r2] == r1`, `nodes[r1]` is the sum of both negative sizes, `setNum` drops by 1, r2's members now lead to r1; invariant kept |
| DisjointSets.LinkKeepsRooted | disjointset.js:38-44 | linking r2 under r1 keeps the links acyclic and rooted under the relabelled roots |
| DisjointSets.LinkKeepsSized | disjointset.js:39-43 | after the link each root's entry is still minus the size of its set |
| DisjointSets.LinkCount | disjointset.js:38-45 | the link removes exactly one root, matching `setNum--` |
| DisjointSets.LinkKeepsInv | disjointset.js:38-45 | the link keeps the invariant with one set fewer |
| DisjointSets.MergedKeepsInv | disjointset.js:32-45 | a merge of two different sets keeps the invariant with `setNum - 1`; b's root becomes a direct child of a's root, which holds the sum of both sizes; all other roots keep their entries |
| DisjointSets.RelinkedJoins | disjointset.js:38-45 | after a merge two elements are together exactly when they were before or came from the two merged sets: no pair is ever separated |
| DisjointSets.OneSetAllJoined | disjointset.js:45 | when `setNum` is 1, all elements have the same root |
| DisjointSets.AllJoinedOneSet | disjointset.js:45 | conversely, when all elements share a root, `setNum` is 1 |
| DisjointSets.MergeExample | disjointset.js:28-46 | five singletons; after merging 0–1, 2–3, 1–2, elements 0 and 3 are in one set and two sets remain |
| Shuffling.Swap | maze.js:11 | exchanges positions i and j and leaves every other position as it was |
| Shuffling.SwapPermutes | maze.js:11 | a swap keeps the multiset of elements |
| Shuffling.ShuffleFrom | maze.js:9-12 | running the loop from step i on keeps the length and never touches positions before i |
| Shuffling.Shuffle | maze.js:8-13 | the in-place swap loop leaves the array equal to `Shuffled` of its old contents under the draws |
| Shuffling.ShuffleFromPermutes | maze.js:9-12 | the loop from any step keeps the multiset of elements |
| Shuffling.ShufflePermutes | maze.js:8-13 | shuffling keeps length and multiset, and leaves arrays of length 0 or 1 unchanged |
| Shuffling.EveryPermutationReachable | maze.js:4-13 | every rearrangement of the array is produced by some sequence of draws within `[0, n)`: the shuffle can reach every permutation |
| Grid.IndexInRange | maze.js:79-80 | `row * rowSize + col` of a grid cell lies in `[0, rowSize * colSize)` and the cell is recovered from it |
| Grid.IndexOnto | maze.js:79-80 | every union-find index in `[0, rowSize * colSize)` is the index of a grid cell |
| Grid.IndexInjective | maze.js:105-106 | two grid cells with the same index are the same cell |
| Grid.WallsAreGridWalls | maze.js:90-100 | every enumerated wall joins a grid cell to its right or lower neighbour, in bounds, at Manhattan distance 1, and no wall is listed twice |
| Grid.WallsComplete | maze.js:90-100 | every pair of a grid cell and its right or lower neighbour is enumerated |
| Grid.WallCount | maze.js:90-100 | there are `(rowSize-1)*colSize + rowSize*(colSize-1)` walls |
| Grid.GridLinked | maze.js:93-98 | each neighbouring pair is an edge of the grid graph |
| Grid.GridConnected | maze.js:90-100 | the graph of all walls connects every two cells |
| Graph.NoEdgesComponents | maze.js:80 | with no passages every cell is its own component, matching the fresh union-find |
| Graph.MergeComponents | maze.js:107-111 | if the labels are exactly the components of the passages, adding a passage between two components and relabelling one to the other keeps them exactly the components |
| Graph.ForestGrow | maze.js:107-110 | adding a passage between two different components closes no cycle |
| Graph.ForestHasNoRepeatedEdge | maze.js:103-117 | in passages accepted this way no passage repeats (in either orientation) and none is a loop |
| Graph.DegreeAppend | maze.js:112-113 | adding a passage adds one to the degree of each of its ends |
| Graph.ConnectedHasDegree | maze.js:24-28 | in a connected graph of two or more vertices every vertex has a passage |
| Mazes.Cell.constructor | maze.js:189-193 | a new cell has the given col and row, `neighborNum == 0` and is not the exit |
| Mazes.NewCells | maze.js:82-88 | `rowSize` columns of `colSize` fresh cells, each at its own coordinates, with no open side and not final |
| Mazes.PushCellWalls | maze.js:93-98 | the visit of one cell appends its right wall (unless last column), then its lower wall (unless last row) |
| Mazes.ListWalls | maze.js:90-100 | the listed walls are, in order, exactly the enumeration `Grid.Walls`, each a pair of grid cells that are right/lower neighbours |
| Mazes.ListedAreGridPassages | maze.js:90-100 | listed walls with cells on the grid join right/lower neighbours |
| Mazes.PermutedAreGridPassages | maze.js:101 | after the shuffle every wall is still such a pair |
| Mazes.GridAndWalls | maze.js:80-101 | fresh cell grid, the full wall list, and an array holding a permutation of it |
| Mazes.FlatOnlyCells | maze.js:28 | `cells.flat()` holds nothing but the grid's cells |
| Mazes.Flat | maze.js:28 | `cells.flat()` holds every cell of the grid |
| Mazes.DeadEnds | maze.js:28 | the filter keeps exactly the cells with `neighborNum == 1` |
| Mazes.AcceptWall | maze.js:107-111 | opening a wall whose cells are in different sets keeps the sets exactly the components of the passages and the passages a forest |
| Mazes.ProcessedRelinked | maze.js:111 | a merge keeps together every pair of cells whose wall was already looked at |
| Mazes.ProcessedNext | maze.js:107-109 | a wall whose cells share a set counts as processed |
| Mazes.AddPassage | maze.js:110-113 | the wall is appended to the passages; both its cells gain one open side, so every cell still counts exactly its passages |
| Mazes.OpenWall | maze.js:110-113 | the passage is added, the two sets merged (`setNum` drops by 1); sets remain the components, passages a forest, counts correct |
| Mazes.ConsiderWall | maze.js:104-116 | one loop turn: skipped (nothing changes) when the cells are in one set, opened otherwise; the number of passages plus `setNum` stays `rowSize*colSize`, partition, forest and degree invariants are kept |
| Mazes.WallsJoinAll | maze.js:103-117 | if every wall has been looked at and each joins one set, all cells are in one set |
| Mazes.KruskalDone | maze.js:114-118 | whether the loop breaks or runs out of walls, one set is left, there are `rowSize*colSize - 1` passages and they connect every two cells |
| Mazes.OpenPassages | maze.js:103-117 | the passages form a spanning tree of the grid and each cell's `neighborNum` equals its number of passages |
| Mazes.Maze.CreateGraph | maze.js:75-119 | fresh grid of cells, passages a spanning tree (right/lower neighbour pairs, `rowSize*colSize - 1` of them, acyclic, connecting all cells), `neighborNum` = passage count, no cell final |
| Mazes.OpenExit | maze.js:24-26 | exactly the exit cell `cells[rowSize/2][colSize-1]` becomes final with one more open side; every other cell is unchanged |
| Mazes.ExitNotDeadEnd | maze.js:24-28 | on a grid of two or more cells the exit has at least one passage |
| Mazes.Maze.constructor | maze.js:20-28 | the maze holds a spanning tree of passages; only the exit is final, with its passage count + 1 open sides; other cells count their passages; `emptyDeadends` is exactly the cells with one open side; with two or more cells the exit is not a dead-end |
| Mazes.Maze.CellAt | maze.js:159-160 | in a valid maze the lookup finds a cell exactly for in-grid coordinates, and that cell has those coordinates |
| Mazes.CellAtFindsCell | maze.js:159-160 | every cell of the maze is found at its own coordinates |
| Mazes.Touching | maze.js:172 | the filter keeps at least one passage exactly when `{a, b}` is a passage in either orientation |
| Mazes.Maze.IsNeighbor | maze.js:166-173 | true iff the cells are at Manhattan distance 1 and some passage holds them in either order |
| Mazes.NeighborsArePassages | maze.js:166-173 | in a valid maze the distance test never rejects a passage: neighbours exactly when a passage joins them, and then linked in the passage graph |
| Mazes.NeighborSymmetric | maze.js:166-173 | `isNeighbor(a, b) == isNeighbor(b, a)` |

## Left out

- main.js is not part of this model. It covers mouse, DOM and drag-path
  handling driven by browser events.
- Drawing is not modelled:
  - `draw`, `drawWall`, `Cell.draw` and the canvas context;
  - the colour and size constants (maze.js:178-186).
- The letter animation (`initLetters`, `initLetter`, `removeLetter`,
  `redrawLetters` and the `Cell` letter methods) is not modelled. It
  depends on timers and wall-clock time. The constructor's `draw()` and
  `initLetters()` calls (maze.js:30-31) are left out for the same reason.
- `fullDeadends` (maze.js:29) starts empty and is only used by the letter
  animation, so it is left out.
- The constructor's `x`/`y` pixel origin and the cells' `x`, `y`,
  `letter`, `spawnTime` and `highlighted` fields are presentation only.
  Cells carry `col`, `row`, `neighborNum` and `isFinal`.
- `getCellInCoords`: the pixel arithmetic (maze.js:154-158) is left out.
  `Maze.CellAt` models only the lookup at maze.js:159-160, where the
  JavaScript truthiness test on `cells[col]` and `cells[col][row]` becomes
  a bounds check.
- `randomInt` is replaced by an oracle, because floating point and
  `Math.random` are out of scope. `Shuffle` takes `draws`, and `draws[i]`
  is the value `randomInt(length - i)` returned at step i. It must lie in
  `[0, length - i)`.
- Mazes.Cell.constructor: `isFinal` starts as `false`. In the source it is
  left undefined, which JavaScript treats as false everywhere it is read.
- Mazes.Maze.CreateGraph is structured differently from the source, which
  does all of this in one method:
  - The phases are split into helper methods:
    - `GridAndWalls`, `NewCells`, `ListWalls`, `PushCellWalls`;
    - `OpenPassages`, `ConsiderWall`, `OpenWall`, `AddPassage`.
  - The wall list is copied into an array (`ToArray`) so that it can be
    shuffled in place.
  - Within one accepted wall, the merge comes before the push and the
    increments. These effects are independent, so the order does not
    matter.
- Mazes.Maze.constructor:
  - The source never checks `rowSize >= 1` and `colSize >= 1`. It would
    fail at the exit lookup without them, so they are preconditions here.
  - `Valid()` records only the grid and the spanning tree. The cell counts
    after the exit bump are stated in the constructor's own postconditions.
- Union-find indices out of range are a precondition, as the source never
  checks them.
- DisjointSets.Compressed stops when a link does not lead to a smaller
  depth. Under the invariant that never happens; the guard only makes
  termination evident.
- No union-by-size or tree-height property is stated, because the source
  does not implement one (both branches at disjointset.js:38-44 link the
  root of `node2` under the root of `node1`).
- Aliasing of cells is not exercised. Every wall and passage refers to
  the cell objects stored in `cells`, and only the two cells of an accepted
  wall change.
