# Random maze generator — verified model

A Dafny model of the maze carving at the core of `maze.py`. A rows x cols grid
starts with every wall in place and no cell visited. `create_maze` then runs a
randomized depth-first backtracker from the start cell with an explicit stack.
Each round marks the top cell visited and lists its unvisited in-grid
neighbours in the order Up, Down, Left, Right. If there is one, it picks a
neighbour at random, removes the wall between the two cells on both sides and
pushes the neighbour. Otherwise it pops. `update_maze` builds the all-walls
grid and the all-false visited array and carves from cell (0, 0).

The model keeps the source's imperative form:

- the walls are an `array3<int>` of flags, indexed Top = 0, Bottom = 1,
  Left = 2, Right = 3, where 1 means the wall is present;
- the visited flags are an `array2<bool>`;
- the stack is a `seq<Cell>` that the loop appends to and truncates.

`rows` and `cols`, globals in the source, are parameters. The random draw
`np.random.randint(0, n)` becomes an oracle `pick(i, n)` for the i-th draw.
The only thing assumed about it (`HalfOpen`) is that `pick(i, n) < n` whenever
n > 0. Every result holds for every oracle.

Three modules:

- `Lattice` (`lattice.dfy`): cells, the four wall directions, the shared wall
  (`Edge`) that a flag stands for, the cell count of a grid, and connectivity
  of the grid lattice.
- `SpanningTree` (`spanning_tree.dfy`): walks and cycles over open walls. A
  parent/depth witness makes a set of walls a rooted tree. Such a tree is
  connected and has no cycle.
- `Maze` (`maze.dfy`): the arrays, the neighbour scan, the wall removal, the
  carving loop and the grid set-up. The loop's bookkeeping is ghost state: the
  cells marked visited, the cells ever pushed, the walls removed, and the tree
  they form. It is kept sound by small lemmas, one per loop branch.

Proved about the finished maze (`CreateMaze`, `UpdateMaze`):

- every cell is visited;
- every flag is 0 or 1;
- the two flags of each shared wall agree;
- every flag on the outer border is still 1 (so a 1 x 1 grid keeps all four walls);
- exactly rows·cols − 1 shared walls are open;
- every cell is reachable from the start through open walls;
- no cycle of distinct cells runs through open walls;
- in a one-row grid every wall between neighbouring cells is open, so the maze is a straight corridor.

The only write to `visited` is `MarkVisited`, whose contract says no flag is
ever cleared.

The loop terminates by the measure (cells never pushed, stack length).

## Model

| member | source | states |
|---|---|---|
| Lattice.DirectionTo | maze.py:33-44 | the wall of a cell facing an adjacent cell leads to that cell: the four direction tests of the removal step |
| Lattice.StepBack | maze.py:33-44 | stepping through wall d and back through the opposite wall returns to the cell; the wall facing back from the neighbour is the opposite one (bottom/top, top/bottom, right/left, left/right) |
| Lattice.WallShared | maze.py:33-44 | flag d of a cell and the opposite flag of the neighbour across it stand for the same shared wall, whose two sides are exactly those two cells |
| Lattice.WallOwners | maze.py:33-44 | exactly two flags stand for the wall between adjacent cells: the one of each cell facing the other |
| Lattice.CellsCount | maze.py:91-92 | a rows x cols grid has rows·cols cells |
| Lattice.ClosedHoldsAll | maze.py:20-27 | a set of cells that is closed under the four neighbour moves and holds one grid cell holds every grid cell |
| SpanningTree.SingleCellTree | maze.py:13 | the start cell alone, with no open wall, is a rooted tree |
| SpanningTree.GrowTree | maze.py:29-45 | hanging a cell not yet in the tree below an adjacent tree cell, by the wall between them, keeps a rooted tree, and that wall was not open before |
| SpanningTree.WalkFromRoot | maze.py:29-45 | every cell of a rooted tree is reached from the root by a walk through open walls |
| SpanningTree.TreeConnected | maze.py:29-45 | every cell of a rooted tree is reachable from the root |
| SpanningTree.ClosedWalkRepeats | maze.py:29-45 | a closed walk through open walls of a rooted tree visits some cell twice |
| SpanningTree.TreeAcyclic | maze.py:29-45 | a rooted tree has no cycle through distinct cells |
| Maze.MatchedWalls | maze.py:33-44 | flags that are 0 exactly for a set of interior walls are bits, agree across each shared wall, keep the border at 1, and show exactly that set open |
| Maze.CollectAcross | maze.py:20-27 | one neighbour test appends the cell across that wall exactly when it is in the grid and unvisited, keeping the list in wall order |
| Maze.ScanAll | maze.py:20-27 | the four tests in a row list every unvisited in-grid neighbour and nothing else, in the order Up, Down, Left, Right |
| Maze.UnvisitedNeighbours | maze.py:18-27 | the `neighbors` list holds c exactly when c is in the grid, adjacent to the current cell and unvisited; it is in Up, Down, Left, Right order, without repeats, and at most four long |
| Maze.RemoveWallBetween | maze.py:33-44 | clears the flag of the current cell facing the next cell and the next cell's flag facing back, and leaves every other flag unchanged: exactly one of the four tests fires |
| Maze.MarkVisited | maze.py:16 | sets the visited flag of the top cell, never clears a flag, and leaves every other flag unchanged, so the visited flags only grow |
| Maze.FrontierStart | maze.py:13 | at the start, with only the start cell pushed and nothing visited, the traversal state holds |
| Maze.FrontierMark | maze.py:15-16 | marking the top of the stack visited keeps the traversal state |
| Maze.FrontierPush | maze.py:29-45 | an unvisited in-grid cell pushed above the visited top was never pushed before, and the stack stays free of repeats, in the grid, and visited below the top |
| Maze.FrontierPop | maze.py:46-47 | popping a visited top whose neighbours are all visited keeps the traversal state: each cell off the stack was visited with all its neighbours |
| Maze.FrontierDone | maze.py:14 | when the stack is empty the cells ever pushed are the whole grid, and all of them were visited |
| Maze.SpanningWalls | maze.py:29-45 | flags that follow a tree spanning the grid have rows·cols − 1 open walls, symmetric bit flags, an intact border, every cell reachable from the root and no cycle |
| Maze.CarvingStart | maze.py:13 | the all-walls grid with the start cell pushed meets the loop invariant |
| Maze.TraceMark | maze.py:15-16 | marking the top visited keeps the bookkeeping sound |
| Maze.TracePop | maze.py:46-47 | the pop branch keeps the bookkeeping sound: stack distinct and no longer than the number of cells pushed, at most rows·cols cells pushed, one open wall per pushed cell after the first, a rooted tree |
| Maze.TracePush | maze.py:29-45 | the push branch keeps the bookkeeping sound, the pushed cell is new, and the wall removed was not open before |
| Maze.CarvingDone | maze.py:14 | on loop exit every cell is visited and the open walls form a spanning tree with the properties of create_maze |
| Maze.Advance | maze.py:29-45 | the push branch: removes the wall between the top and the chosen neighbour, pushes it, and keeps the loop invariant with one more cell pushed |
| Maze.SingleRowCorridor | maze.py:29-45 | in a one-row grid with agreeing shared walls and cols − 1 open walls, every wall between neighbours in the row is open on both sides: the maze is a straight corridor |
| Maze.CreateMaze | maze.py:12-47 | from an all-walls, unvisited grid and an in-grid start, for every random oracle: terminates with every cell visited, bit flags, agreeing shared walls, intact border, rows·cols − 1 open walls, every cell reachable from the start, no cycle, and a straight corridor when rows = 1 |
| Maze.UpdateMaze | maze.py:91-93 | fails exactly when rows < 1 or cols < 1; otherwise returns fresh rows x cols arrays carved from cell (0, 0) with every property of CreateMaze |

## Left out

- `draw_maze` (maze.py:54-75): matplotlib drawing of the walls and patches, which is presentation only.
- `on_key` (maze.py:78-86): the key handler that grows or shrinks the global size. Its guard keeps rows and cols at 2 or more. The model instead takes any size and reports sizes below 1 as `InvalidDimensions`.
- The figure, subplot and `plt.draw`/`plt.show` calls (maze.py:90, 96-105): windowing I/O.
- The end cell chosen at maze.py:95 is not modelled, because it does not affect generation. Note that `np.random.randint(0, rows - 1)` is half-open, so it never yields the last row or column, and it raises for a one-row or one-column grid.
- NumPy's random generator: modelled as the oracle `pick`, with no claim about the distribution.
- Maze.CreateMaze: requires an all-walls, unvisited grid and an in-grid start, which is what its only caller passes. It says nothing about other arrays.
- Maze.UpdateMaze: numpy's two distinct failures within maze.py:91-93 (a negative size raises while allocating; an empty grid raises at the first visit) are merged into one `InvalidDimensions` result. A third failure comes later: maze.py:95 raises ValueError when rows == 1 or cols == 1, because `randint(0, 0)` draws from an empty range, after the grid has been carved. `UpdateMaze` covers only maze.py:91-93, so for such a size it returns `Built`. The running program never reaches that case: the size starts at 10 x 10 (maze.py:6) and the guard in `on_key` keeps both dimensions at 2 or more.
