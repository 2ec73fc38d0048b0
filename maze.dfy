/**
 * The randomized depth-first backtracker of maze.py: a rows x cols grid of
 * wall flags (1 = wall present, 0 = removed), indexed Top = 0, Bottom = 1,
 * Left = 2, Right = 3, and a rows x cols array of visited flags, carved in
 * place from a start cell with an explicit stack.
 */
module Maze {
  import opened Lattice
  import opened SpanningTree

  /** The finished grid handed to the renderer, or the reason none could be built. */
  datatype Built = Built(walls: array3<int>, visited: array2<bool>) | InvalidDimensions

  predicate WallShape(maze: array3<int>, rows: int, cols: int) {
    maze.Length0 == rows && maze.Length1 == cols && maze.Length2 == 4
  }

  predicate VisitedShape(visited: array2<bool>, rows: int, cols: int) {
    visited.Length0 == rows && visited.Length1 == cols
  }

  /** Every flag of every cell is 1: the grid is fully walled. */
  ghost predicate AllWalls(maze: array3<int>)
    reads maze
  {
    forall x, y, d :: 0 <= x < maze.Length0 && 0 <= y < maze.Length1 && 0 <= d < maze.Length2 ==>
      maze[x, y, d] == 1
  }

  ghost predicate NoneVisited(visited: array2<bool>)
    reads visited
  {
    forall x, y :: 0 <= x < visited.Length0 && 0 <= y < visited.Length1 ==> !visited[x, y]
  }

  ghost predicate AllVisited(visited: array2<bool>)
    reads visited
  {
    forall x, y :: 0 <= x < visited.Length0 && 0 <= y < visited.Length1 ==> visited[x, y]
  }

  /** Every flag is 0 or 1. */
  ghost predicate FlagsAreBits(maze: array3<int>)
    reads maze
  {
    forall x, y, d :: 0 <= x < maze.Length0 && 0 <= y < maze.Length1 && 0 <= d < maze.Length2 ==>
      maze[x, y, d] == 0 || maze[x, y, d] == 1
  }

  /**
   * Wall symmetry: the Bottom flag of a cell equals the Top flag of the cell
   * below it, and the Right flag equals the Left flag of the cell to its right.
   */
  ghost predicate WallsSymmetric(maze: array3<int>, rows: int, cols: int)
    reads maze
    requires WallShape(maze, rows, cols)
  {
    (forall x, y :: 0 <= x < rows - 1 && 0 <= y < cols ==> maze[x, y, Bottom] == maze[x + 1, y, Top]) &&
    (forall x, y :: 0 <= x < rows && 0 <= y < cols - 1 ==> maze[x, y, Right] == maze[x, y + 1, Left])
  }

  /** Every flag on the outer border of the grid is still 1. */
  ghost predicate BorderIntact(maze: array3<int>, rows: int, cols: int)
    reads maze
    requires WallShape(maze, rows, cols)
  {
    (forall y :: 0 <= y < cols && 0 < rows ==> maze[0, y, Top] == 1 && maze[rows - 1, y, Bottom] == 1) &&
    (forall x :: 0 <= x < rows && 0 < cols ==> maze[x, 0, Left] == 1 && maze[x, cols - 1, Right] == 1)
  }

  /** The removed shared walls, read off the Bottom and Right flags. */
  ghost function OpenEdges(maze: array3<int>, rows: int, cols: int): set<Edge>
    reads maze
    requires WallShape(maze, rows, cols)
  {
    (set x: int, y: int | 0 <= x < rows - 1 && 0 <= y < cols && maze[x, y, Bottom] == 0 :: DownFrom(Cell(x, y))) +
    (set x: int, y: int | 0 <= x < rows && 0 <= y < cols - 1 && maze[x, y, Right] == 0 :: RightFrom(Cell(x, y)))
  }

  /** Each flag is 0 exactly when the wall it stands for is in `carved`. */
  ghost predicate WallsMatch(maze: array3<int>, rows: int, cols: int, carved: set<Edge>)
    reads maze
    requires WallShape(maze, rows, cols)
  {
    forall x, y, d: Dir :: 0 <= x < rows && 0 <= y < cols ==>
      maze[x, y, d] == if WallEdge(Cell(x, y), d) in carved then 0 else 1
  }

  /**
   * Flags that follow a set of interior walls are bits, symmetric, intact on
   * the border, and the walls they show open are exactly that set.
   */
  lemma MatchedWalls(maze: array3<int>, rows: int, cols: int, carved: set<Edge>)
    requires WallShape(maze, rows, cols)
    requires WallsMatch(maze, rows, cols, carved)
    requires forall e :: e in carved ==> Interior(rows, cols, e)
    ensures FlagsAreBits(maze)
    ensures WallsSymmetric(maze, rows, cols)
    ensures BorderIntact(maze, rows, cols)
    ensures OpenEdges(maze, rows, cols) == carved
  {
    forall x, y | 0 <= x < rows - 1 && 0 <= y < cols
      ensures maze[x, y, Bottom] == maze[x + 1, y, Top]
    {
      WallShared(Cell(x, y), Bottom);
    }
    forall x, y | 0 <= x < rows && 0 <= y < cols - 1
      ensures maze[x, y, Right] == maze[x, y + 1, Left]
    {
      WallShared(Cell(x, y), Right);
    }
    forall e | e in carved
      ensures e in OpenEdges(maze, rows, cols)
    {
      var c := Lo(e);
      if e.DownFrom? {
        assert WallEdge(c, Bottom) == e;
      } else {
        assert WallEdge(c, Right) == e;
      }
    }
  }

  /**
   * `nb` lists, in increasing direction, the unvisited in-grid neighbours of
   * `cur` across the walls numbered below `upTo`.
   */
  ghost predicate Collected(visited: array2<bool>, rows: int, cols: int, cur: Cell, nb: seq<Cell>, upTo: int)
    reads visited
    requires VisitedShape(visited, rows, cols)
  {
    (forall c :: c in nb <==>
       InGrid(rows, cols, c) && Adjacent(cur, c) && !visited[c.row, c.col] && DirectionTo(cur, c) < upTo) &&
    (forall i, j :: 0 <= i < j < |nb| ==>
       Adjacent(cur, nb[i]) && Adjacent(cur, nb[j]) && DirectionTo(cur, nb[i]) < DirectionTo(cur, nb[j])) &&
    |nb| <= if upTo < 0 then 0 else upTo
  }

  /** `[n]` when `n` is an unvisited cell of the grid, `[]` otherwise. */
  ghost function IfUnvisited(visited: array2<bool>, rows: int, cols: int, n: Cell): seq<Cell>
    reads visited
    requires VisitedShape(visited, rows, cols)
  {
    if InGrid(rows, cols, n) && !visited[n.row, n.col] then [n] else []
  }

  /** Looking across wall `d` of `cur` extends what has been collected across the walls before it. */
  lemma CollectAcross(visited: array2<bool>, rows: int, cols: int, cur: Cell, nb: seq<Cell>, d: Dir)
    requires VisitedShape(visited, rows, cols)
    requires Collected(visited, rows, cols, cur, nb, d)
    ensures Collected(visited, rows, cols, cur, nb + IfUnvisited(visited, rows, cols, Step(cur, d)), d + 1)
  {
    StepBack(cur, d);
    forall c | Adjacent(cur, c) && DirectionTo(cur, c) == d
      ensures c == Step(cur, d)
    {
    }
  }

  /** The neighbours of `cur` in the order Up, Down, Left, Right, keeping the unvisited ones inside the grid. */
  ghost function Scan(visited: array2<bool>, rows: int, cols: int, cur: Cell): seq<Cell>
    reads visited
    requires VisitedShape(visited, rows, cols)
  {
    IfUnvisited(visited, rows, cols, Step(cur, Top)) +
    IfUnvisited(visited, rows, cols, Step(cur, Bottom)) +
    IfUnvisited(visited, rows, cols, Step(cur, Left)) +
    IfUnvisited(visited, rows, cols, Step(cur, Right))
  }

  /**
   * `nb` holds every unvisited in-grid neighbour of `cur` and nothing else,
   * in the order Up, Down, Left, Right (so without repeats and at most four).
   */
  ghost predicate ListsUnvisitedNeighbours(visited: array2<bool>, rows: int, cols: int, cur: Cell, nb: seq<Cell>)
    reads visited
    requires VisitedShape(visited, rows, cols)
  {
    (forall c :: c in nb <==> InGrid(rows, cols, c) && Adjacent(cur, c) && !visited[c.row, c.col]) &&
    (forall i, j :: 0 <= i < j < |nb| ==>
       Adjacent(cur, nb[i]) && Adjacent(cur, nb[j]) && DirectionTo(cur, nb[i]) < DirectionTo(cur, nb[j])) &&
    |nb| <= 4
  }

  /** Having looked across all four walls is having listed every unvisited neighbour. */
  lemma CollectedAll(visited: array2<bool>, rows: int, cols: int, cur: Cell, nb: seq<Cell>)
    requires VisitedShape(visited, rows, cols)
    requires Collected(visited, rows, cols, cur, nb, 4)
    ensures ListsUnvisitedNeighbours(visited, rows, cols, cur, nb)
  {
  }

  /** The scan holds every unvisited in-grid neighbour of `cur` and nothing else, in wall order. */
  lemma ScanAll(visited: array2<bool>, rows: int, cols: int, cur: Cell)
    requires VisitedShape(visited, rows, cols)
    ensures ListsUnvisitedNeighbours(visited, rows, cols, cur, Scan(visited, rows, cols, cur))
  {
    var s1 := IfUnvisited(visited, rows, cols, Step(cur, Top));
    var s2 := IfUnvisited(visited, rows, cols, Step(cur, Bottom));
    var s3 := IfUnvisited(visited, rows, cols, Step(cur, Left));
    var s4 := IfUnvisited(visited, rows, cols, Step(cur, Right));
    CollectAcross(visited, rows, cols, cur, [], Top);
    assert [] + s1 == s1;
    CollectAcross(visited, rows, cols, cur, s1, Bottom);
    CollectAcross(visited, rows, cols, cur, s1 + s2, Left);
    CollectAcross(visited, rows, cols, cur, s1 + s2 + s3, Right);
    CollectedAll(visited, rows, cols, cur, s1 + s2 + s3 + s4);
  }

  /**
   * The unvisited in-grid neighbours of `cur`, listed in the order Up, Down,
   * Left, Right (maze.py builds its `neighbors` list in this order).
   */
  method UnvisitedNeighbours(visited: array2<bool>, rows: int, cols: int, cur: Cell)
    returns (nb: seq<Cell>)
    requires VisitedShape(visited, rows, cols)
    requires InGrid(rows, cols, cur)
    ensures ListsUnvisitedNeighbours(visited, rows, cols, cur, nb)
  {
    var x, y := cur.row, cur.col;
    nb := [];
    if x > 0 && !visited[x - 1, y] {
      nb := nb + [Cell(x - 1, y)];
    }
    assert nb == IfUnvisited(visited, rows, cols, Step(cur, Top));
    if x < rows - 1 && !visited[x + 1, y] {
      nb := nb + [Cell(x + 1, y)];
    }
    assert nb == IfUnvisited(visited, rows, cols, Step(cur, Top)) +
                 IfUnvisited(visited, rows, cols, Step(cur, Bottom));
    if y > 0 && !visited[x, y - 1] {
      nb := nb + [Cell(x, y - 1)];
    }
    assert nb == IfUnvisited(visited, rows, cols, Step(cur, Top)) +
                 IfUnvisited(visited, rows, cols, Step(cur, Bottom)) +
                 IfUnvisited(visited, rows, cols, Step(cur, Left));
    if y < cols - 1 && !visited[x, y + 1] {
      nb := nb + [Cell(x, y + 1)];
    }
    assert nb == Scan(visited, rows, cols, cur);
    ScanAll(visited, rows, cols, cur);
  }

  /** Flag `d` of `c` is one of the two flags standing for the wall between `cur` and `next`. */
  predicate FacesAcross(cur: Cell, next: Cell, c: Cell, d: Dir)
    requires Adjacent(cur, next)
  {
    (c == cur && d == DirectionTo(cur, next)) || (c == next && d == Opposite(DirectionTo(cur, next)))
  }

  /**
   * Removes the wall between `cur` and its neighbour `next` on both sides:
   * the flag of `cur` facing `next` and the flag of `next` facing back.
   * Exactly one of the four tests fires, so exactly these two flags change.
   */
  method RemoveWallBetween(maze: array3<int>, rows: int, cols: int, cur: Cell, next: Cell)
    requires WallShape(maze, rows, cols)
    requires InGrid(rows, cols, cur) && InGrid(rows, cols, next) && Adjacent(cur, next)
    modifies maze
    ensures maze[cur.row, cur.col, DirectionTo(cur, next)] == 0
    ensures maze[next.row, next.col, Opposite(DirectionTo(cur, next))] == 0
    ensures forall x, y, d: Dir :: 0 <= x < rows && 0 <= y < cols && !FacesAcross(cur, next, Cell(x, y), d) ==>
      maze[x, y, d] == old(maze[x, y, d])
  {
    var x, y := cur.row, cur.col;
    if next.row == x + 1 {
      maze[x, y, Bottom] := 0;
      maze[next.row, next.col, Top] := 0;
    }
    if next.row == x - 1 {
      maze[x, y, Top] := 0;
      maze[next.row, next.col, Bottom] := 0;
    }
    if next.col == y + 1 {
      maze[x, y, Right] := 0;
      maze[next.row, next.col, Left] := 0;
    }
    if next.col == y - 1 {
      maze[x, y, Left] := 0;
      maze[next.row, next.col, Right] := 0;
    }
  }

  /** Randomness contract of `pick`: the i-th draw of randint(0, n) lies in [0, n). */
  ghost predicate HalfOpen(pick: (nat, nat) -> nat) {
    forall i: nat, n: nat :: 0 < n ==> pick(i, n) < n
  }

  /** The visited flags are set exactly for the cells of `seen`. */
  ghost predicate Marks(visited: array2<bool>, rows: int, cols: int, seen: set<Cell>)
    reads visited
    requires VisitedShape(visited, rows, cols)
  {
    forall x, y :: 0 <= x < rows && 0 <= y < cols ==> (visited[x, y] <==> Cell(x, y) in seen)
  }

  /** Every in-grid cell across a wall of `c` is in `S`. */
  ghost predicate NeighboursIn(rows: int, cols: int, c: Cell, S: set<Cell>) {
    forall d: Dir :: InGrid(rows, cols, Step(c, d)) ==> Step(c, d) in S
  }

  /**
   * The state of the depth-first traversal, with `seen` the cells marked
   * visited and `reached` the cells ever pushed: the stack holds distinct
   * reached cells, all but its top already seen; every reached cell is in the
   * grid; and a reached cell no longer on the stack was seen and has every
   * neighbour seen (it was popped only once it had no unvisited neighbour).
   */
  ghost predicate Frontier(rows: int, cols: int, stack: seq<Cell>, reached: set<Cell>, seen: set<Cell>) {
    (forall i :: 0 <= i < |stack| ==> stack[i] in reached) &&
    (forall i, j :: 0 <= i < j < |stack| ==> stack[i] != stack[j]) &&
    (forall i :: 0 <= i < |stack| - 1 ==> stack[i] in seen) &&
    (forall c :: c in reached ==> InGrid(rows, cols, c)) &&
    seen <= reached &&
    (forall c :: c in reached && c !in stack ==> c in seen && NeighboursIn(rows, cols, c, seen))
  }

  /** The traversal starts with only the start cell pushed and nothing seen. */
  lemma FrontierStart(rows: int, cols: int, start: Cell)
    requires InGrid(rows, cols, start)
    ensures Frontier(rows, cols, [start], {start}, {})
  {
  }

  /** Marking the top of the stack seen keeps the traversal state. */
  lemma FrontierMark(rows: int, cols: int, stack: seq<Cell>, reached: set<Cell>, seen: set<Cell>)
    requires Frontier(rows, cols, stack, reached, seen)
    requires stack != []
    ensures Frontier(rows, cols, stack, reached, seen + {stack[|stack| - 1]})
  {
  }

  /**
   * Pushing an unseen in-grid cell `next` above a seen top: `next` was never
   * pushed before, and the traversal state is kept.
   */
  lemma FrontierPush(rows: int, cols: int, stack: seq<Cell>, reached: set<Cell>, seen: set<Cell>, next: Cell)
    requires Frontier(rows, cols, stack, reached, seen)
    requires stack != [] && stack[|stack| - 1] in seen
    requires InGrid(rows, cols, next) && next !in seen
    ensures next !in reached
    ensures Frontier(rows, cols, stack + [next], reached + {next}, seen)
  {
    forall i | 0 <= i < |stack|
      ensures stack[i] != next
    {
      if i < |stack| - 1 {
        assert stack[i] in seen;
      }
    }
    var stack' := stack + [next];
    forall i | 0 <= i < |stack'| - 1
      ensures stack'[i] in seen
    {
      assert stack'[i] == stack[i];
    }
    forall c | c in reached + {next} && c !in stack'
      ensures c in seen && NeighboursIn(rows, cols, c, seen)
    {
      assert c !in stack by {
        forall i | 0 <= i < |stack|
          ensures stack[i] != c
        {
          assert stack'[i] == stack[i];
        }
      }
    }
  }

  /** Popping a seen top once every neighbour of it is seen keeps the traversal state. */
  lemma FrontierPop(rows: int, cols: int, stack: seq<Cell>, reached: set<Cell>, seen: set<Cell>)
    requires Frontier(rows, cols, stack, reached, seen)
    requires stack != [] && stack[|stack| - 1] in seen
    requires NeighboursIn(rows, cols, stack[|stack| - 1], seen)
    ensures Frontier(rows, cols, stack[..|stack| - 1], reached, seen)
  {
    var cur := stack[|stack| - 1];
    var rest := stack[..|stack| - 1];
    forall i | 0 <= i < |rest|
      ensures rest[i] == stack[i] && rest[i] != cur
    {
    }
    forall c | c in reached && c !in rest
      ensures c in seen && NeighboursIn(rows, cols, c, seen)
    {
      if c != cur {
        assert c !in stack by {
          forall i | 0 <= i < |stack|
            ensures stack[i] != c
          {
            if i < |stack| - 1 {
              assert stack[i] == rest[i];
            }
          }
        }
      }
    }
  }

  /**
   * With the stack empty, the reached cells are closed under moving to a
   * neighbour, so they are the whole grid, and all of them were seen.
   */
  lemma FrontierDone(rows: int, cols: int, start: Cell, reached: set<Cell>, seen: set<Cell>)
    requires Frontier(rows, cols, [], reached, seen)
    requires InGrid(rows, cols, start) && start in reached
    ensures reached == Cells(rows, cols) && seen == reached
  {
    forall c, d: Dir | c in reached && InGrid(rows, cols, Step(c, d))
      ensures Step(c, d) in reached
    {
      assert NeighboursIn(rows, cols, c, seen);
    }
    assert Closed(rows, cols, reached);
    forall c | InGrid(rows, cols, c)
      ensures c in reached
    {
      ClosedHoldsAll(rows, cols, reached, start, c);
    }
    CellsMembers(rows, cols);
  }

  /**
   * Flags that follow the walls of a tree spanning the whole grid form a
   * perfect maze: bits, symmetric, intact border, rows * cols - 1 open walls,
   * every cell reachable from the root and no cycle.
   */
  lemma SpanningWalls(maze: array3<int>, rows: int, cols: int, start: Cell, carved: set<Edge>,
                      parent: map<Cell, Cell>, depth: map<Cell, nat>)
    requires WallShape(maze, rows, cols)
    requires rows >= 0 && cols >= 0
    requires |carved| + 1 == |Cells(rows, cols)|
    requires WallsMatch(maze, rows, cols, carved)
    requires RootedTree(Cells(rows, cols), carved, start, parent, depth)
    ensures FlagsAreBits(maze) && WallsSymmetric(maze, rows, cols) && BorderIntact(maze, rows, cols)
    ensures |OpenEdges(maze, rows, cols)| == rows * cols - 1
    ensures forall c :: InGrid(rows, cols, c) ==> Reachable(OpenEdges(maze, rows, cols), start, c)
    ensures forall p :: !IsCycle(OpenEdges(maze, rows, cols), p)
  {
    CellsMembers(rows, cols);
    CellsCount(rows, cols);
    forall e | e in carved
      ensures Interior(rows, cols, e)
    {
    }
    MatchedWalls(maze, rows, cols, carved);
    TreeConnected(Cells(rows, cols), carved, start, parent, depth);
    TreeAcyclic(Cells(rows, cols), carved, start, parent, depth);
  }

  /**
   * Bookkeeping of a carving in progress: the cells marked visited, the cells
   * ever pushed, the walls removed, and the tree those walls form (each
   * pushed cell hangs below the cell it was found from).
   */
  datatype Trace = Trace(seen: set<Cell>, reached: set<Cell>, carved: set<Edge>,
                         parent: map<Cell, Cell>, depth: map<Cell, nat>)

  /**
   * The bookkeeping is sound: the traversal state holds, the stack is no
   * longer than the number of cells pushed, which is at most the number of
   * cells of the grid, one wall was removed per pushed cell after the
   * first, and those walls form a tree rooted at the start cell.
   */
  ghost predicate TraceSound(rows: int, cols: int, start: Cell, stack: seq<Cell>, g: Trace) {
    Frontier(rows, cols, stack, g.reached, g.seen) &&
    |stack| <= |g.reached| <= |Cells(rows, cols)| &&
    |g.carved| + 1 == |g.reached| &&
    RootedTree(g.reached, g.carved, start, g.parent, g.depth)
  }

  /** The loop invariant of create_maze apart from the visited flags: sound bookkeeping, and flags that follow it. */
  ghost predicate Carving(maze: array3<int>, rows: int, cols: int, start: Cell, stack: seq<Cell>, g: Trace)
    reads maze
    requires WallShape(maze, rows, cols)
  {
    TraceSound(rows, cols, start, stack, g) && WallsMatch(maze, rows, cols, g.carved)
  }

  /** Before the first step only the start cell is pushed and no wall is removed. */
  lemma CarvingStart(maze: array3<int>, rows: int, cols: int, start: Cell)
    requires WallShape(maze, rows, cols) && AllWalls(maze)
    requires InGrid(rows, cols, start)
    ensures Carving(maze, rows, cols, start, [start], Trace({}, {start}, {}, map[], map[start := 0]))
  {
    FrontierStart(rows, cols, start);
    SingleCellTree(start);
    CellsMembers(rows, cols);
    SubsetSize({start}, Cells(rows, cols));
  }

  /** Marking the top of the stack visited keeps the bookkeeping sound. */
  lemma TraceMark(rows: int, cols: int, start: Cell, stack: seq<Cell>, g: Trace)
    requires TraceSound(rows, cols, start, stack, g)
    requires stack != []
    ensures TraceSound(rows, cols, start, stack, g.(seen := g.seen + {stack[|stack| - 1]}))
  {
    FrontierMark(rows, cols, stack, g.reached, g.seen);
  }

  /** Popping a visited top whose neighbours are all visited keeps the bookkeeping sound. */
  lemma TracePop(rows: int, cols: int, start: Cell, stack: seq<Cell>, g: Trace)
    requires TraceSound(rows, cols, start, stack, g)
    requires stack != [] && stack[|stack| - 1] in g.seen
    requires NeighboursIn(rows, cols, stack[|stack| - 1], g.seen)
    ensures TraceSound(rows, cols, start, stack[..|stack| - 1], g)
  {
    FrontierPop(rows, cols, stack, g.reached, g.seen);
  }

  /**
   * Pushing an unvisited neighbour `next` of a visited top, with the wall
   * between them removed and `next` hung below the top, keeps the
   * bookkeeping sound and pushes one more cell than before.
   */
  lemma TracePush(rows: int, cols: int, start: Cell, stack: seq<Cell>, g: Trace, next: Cell)
    requires TraceSound(rows, cols, start, stack, g)
    requires stack != [] && stack[|stack| - 1] in g.seen
    requires InGrid(rows, cols, next) && Adjacent(stack[|stack| - 1], next) && next !in g.seen
    ensures |g.reached + {next}| == |g.reached| + 1
    ensures EdgeBetween(stack[|stack| - 1], next) !in g.carved
    ensures TraceSound(rows, cols, start, stack + [next],
                       g.(reached := g.reached + {next},
                          carved := g.carved + {EdgeBetween(stack[|stack| - 1], next)},
                          parent := g.parent[next := stack[|stack| - 1]],
                          depth := g.depth[next := g.depth[stack[|stack| - 1]] + 1]))
  {
    var cur := stack[|stack| - 1];
    FrontierPush(rows, cols, stack, g.reached, g.seen, next);
    GrowTree(g.reached, g.carved, start, g.parent, g.depth, cur, next);
    AddNew(g.carved, EdgeBetween(cur, next));
    AddNew(g.reached, next);
    CellsMembers(rows, cols);
    SubsetSize(g.reached + {next}, Cells(rows, cols));
  }

  /**
   * When the stack is empty every cell has been visited and the removed
   * walls form a spanning tree of the grid.
   */
  lemma CarvingDone(maze: array3<int>, visited: array2<bool>, rows: int, cols: int, start: Cell, g: Trace)
    requires WallShape(maze, rows, cols) && VisitedShape(visited, rows, cols)
    requires InGrid(rows, cols, start)
    requires Marks(visited, rows, cols, g.seen)
    requires Carving(maze, rows, cols, start, [], g)
    ensures AllVisited(visited)
    ensures FlagsAreBits(maze) && WallsSymmetric(maze, rows, cols) && BorderIntact(maze, rows, cols)
    ensures |OpenEdges(maze, rows, cols)| == rows * cols - 1
    ensures forall c :: InGrid(rows, cols, c) ==> Reachable(OpenEdges(maze, rows, cols), start, c)
    ensures forall p :: !IsCycle(OpenEdges(maze, rows, cols), p)
    ensures rows == 1 ==> Corridor(maze, cols)
  {
    FrontierDone(rows, cols, start, g.reached, g.seen);
    forall x, y | 0 <= x < rows && 0 <= y < cols
      ensures visited[x, y]
    {
      assert Cell(x, y) in g.seen;
    }
    SpanningWalls(maze, rows, cols, start, g.carved, g.parent, g.depth);
    if rows == 1 {
      SingleRowCorridor(maze, rows, cols);
    }
  }

  /**
   * The branch of create_maze that moves on: removes the wall between the
   * top of the stack and its unvisited neighbour `next`, and pushes `next`.
   */
  method Advance(maze: array3<int>, rows: int, cols: int, start: Cell, stack: seq<Cell>, next: Cell,
                 ghost g: Trace)
    returns (stack': seq<Cell>, ghost g': Trace)
    requires WallShape(maze, rows, cols)
    requires Carving(maze, rows, cols, start, stack, g)
    requires stack != [] && stack[|stack| - 1] in g.seen
    requires InGrid(rows, cols, next) && Adjacent(stack[|stack| - 1], next) && next !in g.seen
    modifies maze
    ensures stack' == stack + [next]
    ensures g' == g.(reached := g.reached + {next},
                     carved := g.carved + {EdgeBetween(stack[|stack| - 1], next)},
                     parent := g.parent[next := stack[|stack| - 1]],
                     depth := g.depth[next := g.depth[stack[|stack| - 1]] + 1])
    ensures |g'.reached| == |g.reached| + 1
    ensures Carving(maze, rows, cols, start, stack', g')
  {
    var cur := stack[|stack| - 1];
    TracePush(rows, cols, start, stack, g, next);
    RemoveWallBetween(maze, rows, cols, cur, next);
    forall x, y, d: Dir | 0 <= x < rows && 0 <= y < cols
      ensures maze[x, y, d] == if WallEdge(Cell(x, y), d) in g.carved + {EdgeBetween(cur, next)} then 0 else 1
    {
      WallOwners(Cell(x, y), d, cur, next);
    }
    stack' := stack + [next];
    g' := g.(reached := g.reached + {next},
             carved := g.carved + {EdgeBetween(cur, next)},
             parent := g.parent[next := cur],
             depth := g.depth[next := g.depth[cur] + 1]);
  }

  /** Marks `cur` visited; no flag is ever cleared, so the visited flags only grow. */
  method MarkVisited(visited: array2<bool>, rows: int, cols: int, cur: Cell)
    requires VisitedShape(visited, rows, cols) && InGrid(rows, cols, cur)
    modifies visited
    ensures visited[cur.row, cur.col]
    ensures forall x, y :: 0 <= x < rows && 0 <= y < cols && old(visited[x, y]) ==> visited[x, y]
    ensures forall x, y :: 0 <= x < rows && 0 <= y < cols && Cell(x, y) != cur ==> visited[x, y] == old(visited[x, y])
  {
    visited[cur.row, cur.col] := true;
  }

  /** In a single row, every wall between neighbouring columns is open on both sides. */
  ghost predicate Corridor(maze: array3<int>, cols: int)
    reads maze
    requires WallShape(maze, 1, cols)
  {
    forall y :: 0 <= y < cols - 1 ==> maze[0, y, Right] == 0 && maze[0, y + 1, Left] == 0
  }

  /**
   * A one-row grid with symmetric flags and cols - 1 open walls is a single
   * corridor: the only shared walls are the cols - 1 walls between
   * neighbouring columns, so all of them are open.
   */
  lemma SingleRowCorridor(maze: array3<int>, rows: int, cols: int)
    requires rows == 1 && cols >= 1 && WallShape(maze, rows, cols)
    requires WallsSymmetric(maze, rows, cols)
    requires |OpenEdges(maze, rows, cols)| == rows * cols - 1
    ensures Corridor(maze, cols)
  {
    var E := OpenEdges(maze, rows, cols);
    forall e | e in E
      ensures e in RowWalls(cols)
    {
      var y :| 0 <= y < cols - 1 && maze[0, y, Right] == 0 && e == RightFrom(Cell(0, y));
    }
    RowWallsCount(cols);
    SubsetSameSize(E, RowWalls(cols));
    forall y | 0 <= y < cols - 1
      ensures maze[0, y, Right] == 0
    {
      assert RightFrom(Cell(0, y)) in RowWalls(cols);
      var x', y' :| 0 <= x' < 1 && 0 <= y' < cols - 1 && maze[x', y', Right] == 0 &&
                    RightFrom(Cell(x', y')) == RightFrom(Cell(0, y));
    }
  }

  /**
   * create_maze: carves a perfect maze from `start` through a fully walled,
   * unvisited grid.  `pick(i, n)` is the i-th random draw from [0, n).
   * On return every cell is visited and the removed walls form a spanning
   * tree of the grid: symmetric flags, an intact border, rows * cols - 1
   * open walls, every cell reachable from `start` and no cycle.
   */
  method CreateMaze(maze: array3<int>, visited: array2<bool>, rows: int, cols: int,
                    start: Cell, pick: (nat, nat) -> nat)
    requires WallShape(maze, rows, cols) && VisitedShape(visited, rows, cols)
    requires AllWalls(maze) && NoneVisited(visited)
    requires InGrid(rows, cols, start)
    requires HalfOpen(pick)
    modifies maze, visited
    ensures AllVisited(visited)
    ensures FlagsAreBits(maze) && WallsSymmetric(maze, rows, cols) && BorderIntact(maze, rows, cols)
    ensures |OpenEdges(maze, rows, cols)| == rows * cols - 1
    ensures forall c :: InGrid(rows, cols, c) ==> Reachable(OpenEdges(maze, rows, cols), start, c)
    ensures forall p :: !IsCycle(OpenEdges(maze, rows, cols), p)
    ensures rows == 1 ==> Corridor(maze, cols)
  {
    var stack := [start];
    var draws: nat := 0;
    ghost var g := Trace({}, {start}, {}, map[], map[start := 0]);
    CarvingStart(maze, rows, cols, start);
    while stack != []
      invariant Marks(visited, rows, cols, g.seen)
      invariant Carving(maze, rows, cols, start, stack, g)
      decreases |Cells(rows, cols)| - |g.reached|, |stack|
    {
      var cur := stack[|stack| - 1];
      MarkVisited(visited, rows, cols, cur);
      TraceMark(rows, cols, start, stack, g);
      g := g.(seen := g.seen + {cur});
      assert Marks(visited, rows, cols, g.seen);
      var nb := UnvisitedNeighbours(visited, rows, cols, cur);
      if nb != [] {
        var next := nb[pick(draws, |nb|)];
        draws := draws + 1;
        assert next in nb;
        stack, g := Advance(maze, rows, cols, start, stack, next, g);
      } else {
        forall d: Dir | InGrid(rows, cols, Step(cur, d))
          ensures Step(cur, d) in g.seen
        {
          StepBack(cur, d);
          assert Step(cur, d) !in nb;
        }
        TracePop(rows, cols, start, stack, g);
        stack := stack[..|stack| - 1];
      }
    }
    CarvingDone(maze, visited, rows, cols, start, g);
  }

  /**
   * update_maze without the drawing: a fresh fully walled, unvisited
   * rows x cols grid carved from the top-left cell.  With fewer than one
   * row or column numpy or the first visit of cell (0, 0) fails, which is
   * InvalidDimensions here.
   */
  method UpdateMaze(rows: int, cols: int, pick: (nat, nat) -> nat) returns (b: Built)
    requires HalfOpen(pick)
    ensures b.InvalidDimensions? <==> rows < 1 || cols < 1
    ensures b.Built? ==>
      fresh(b.walls) && fresh(b.visited) &&
      WallShape(b.walls, rows, cols) && VisitedShape(b.visited, rows, cols) &&
      AllVisited(b.visited) &&
      FlagsAreBits(b.walls) && WallsSymmetric(b.walls, rows, cols) && BorderIntact(b.walls, rows, cols) &&
      |OpenEdges(b.walls, rows, cols)| == rows * cols - 1 &&
      (forall c :: InGrid(rows, cols, c) ==> Reachable(OpenEdges(b.walls, rows, cols), Cell(0, 0), c)) &&
      (forall p :: !IsCycle(OpenEdges(b.walls, rows, cols), p)) &&
      (rows == 1 ==> Corridor(b.walls, cols))
  {
    if rows < 1 || cols < 1 {
      return InvalidDimensions;
    }
    var walls := new int[rows, cols, 4]((_, _, _) => 1);
    var visited := new bool[rows, cols]((_, _) => false);
    CreateMaze(walls, visited, rows, cols, Cell(0, 0), pick);
    b := Built(walls, visited);
  }
}
