/** Cells, wall directions and shared walls of a rows x cols maze lattice. */
module Lattice {

  /** A cell addressed as (row, column); rows grow downwards, columns rightwards. */
  datatype Cell = Cell(row: int, col: int)

  /** Index of one of the four wall flags a cell carries. */
  type Dir = d: int | 0 <= d < 4

  const Top: Dir := 0
  const Bottom: Dir := 1
  const Left: Dir := 2
  const Right: Dir := 3

  predicate InGrid(rows: int, cols: int, c: Cell) {
    0 <= c.row < rows && 0 <= c.col < cols
  }

  /** The cell on the other side of wall `d` of `c`. */
  function Step(c: Cell, d: Dir): Cell {
    if d == Top then Cell(c.row - 1, c.col)
    else if d == Bottom then Cell(c.row + 1, c.col)
    else if d == Left then Cell(c.row, c.col - 1)
    else Cell(c.row, c.col + 1)
  }

  /** The wall facing back: Top and Bottom, Left and Right. */
  function Opposite(d: Dir): Dir {
    if d == Top then Bottom
    else if d == Bottom then Top
    else if d == Left then Right
    else Left
  }

  /** Cells that differ by exactly one in exactly one coordinate. */
  predicate Adjacent(a: Cell, b: Cell) {
    (a.col == b.col && (b.row == a.row + 1 || b.row == a.row - 1)) ||
    (a.row == b.row && (b.col == a.col + 1 || b.col == a.col - 1))
  }

  /** The wall of `a` that faces its neighbour `b`. */
  function DirectionTo(a: Cell, b: Cell): (d: Dir)
    requires Adjacent(a, b)
    ensures Step(a, d) == b
  {
    if b.row == a.row - 1 then Top
    else if b.row == a.row + 1 then Bottom
    else if b.col == a.col - 1 then Left
    else Right
  }

  /** Stepping through a wall and back through the opposite wall returns to the cell. */
  lemma StepBack(c: Cell, d: Dir)
    ensures Adjacent(c, Step(c, d)) && Adjacent(Step(c, d), c)
    ensures DirectionTo(c, Step(c, d)) == d
    ensures DirectionTo(Step(c, d), c) == Opposite(d)
    ensures Step(Step(c, d), Opposite(d)) == c
  {
  }

  /**
   * A wall shared by two adjacent cells, named by its upper cell (a wall
   * between two rows) or by its left cell (a wall between two columns).
   */
  datatype Edge = DownFrom(upper: Cell) | RightFrom(left: Cell)

  /** The upper or left cell beside the wall. */
  function Lo(e: Edge): Cell {
    match e
    case DownFrom(c) => c
    case RightFrom(c) => c
  }

  /** The lower or right cell beside the wall. */
  function Hi(e: Edge): (h: Cell)
    ensures Adjacent(Lo(e), h)
  {
    match e
    case DownFrom(c) => Cell(c.row + 1, c.col)
    case RightFrom(c) => Cell(c.row, c.col + 1)
  }

  /** The shared wall that flag `d` of cell `c` stands for. */
  function WallEdge(c: Cell, d: Dir): Edge {
    if d == Top then DownFrom(Step(c, Top))
    else if d == Bottom then DownFrom(c)
    else if d == Left then RightFrom(Step(c, Left))
    else RightFrom(c)
  }

  /** The shared wall between two adjacent cells. */
  function EdgeBetween(a: Cell, b: Cell): Edge
    requires Adjacent(a, b)
  {
    WallEdge(a, DirectionTo(a, b))
  }

  /** Both cells beside the wall lie inside the grid: the wall is not on the border. */
  predicate Interior(rows: int, cols: int, e: Edge) {
    InGrid(rows, cols, Lo(e)) && InGrid(rows, cols, Hi(e))
  }

  /**
   * The flag of `c` facing `Step(c, d)` and the flag of that neighbour facing
   * back stand for the same wall, whose two sides are exactly the two cells.
   */
  lemma WallShared(c: Cell, d: Dir)
    ensures WallEdge(Step(c, d), Opposite(d)) == WallEdge(c, d)
    ensures (Lo(WallEdge(c, d)) == c && Hi(WallEdge(c, d)) == Step(c, d)) ||
            (Hi(WallEdge(c, d)) == c && Lo(WallEdge(c, d)) == Step(c, d))
  {
  }

  /** The wall between two adjacent cells does not depend on the order they are named in. */
  lemma EdgeBetweenSymmetric(a: Cell, b: Cell)
    requires Adjacent(a, b)
    ensures Adjacent(b, a) && EdgeBetween(a, b) == EdgeBetween(b, a)
  {
  }

  /** The cells beside the wall between `a` and `b` are `a` and `b`. */
  lemma EdgeEnds(a: Cell, b: Cell)
    requires Adjacent(a, b)
    ensures (Lo(EdgeBetween(a, b)) == a && Hi(EdgeBetween(a, b)) == b) ||
            (Lo(EdgeBetween(a, b)) == b && Hi(EdgeBetween(a, b)) == a)
  {
  }

  /**
   * Exactly two flags stand for the wall between adjacent `a` and `b`: the flag
   * of `a` facing `b` and the flag of `b` facing `a`.
   */
  lemma WallOwners(c: Cell, d: Dir, a: Cell, b: Cell)
    requires Adjacent(a, b)
    ensures WallEdge(c, d) == EdgeBetween(a, b) <==>
            (c == a && d == DirectionTo(a, b)) || (c == b && d == Opposite(DirectionTo(a, b)))
  {
  }

  /** All cells of a rows x cols grid. */
  ghost function Cells(rows: int, cols: int): set<Cell> {
    set r: int, c: int | 0 <= r < rows && 0 <= c < cols :: Cell(r, c)
  }

  /** The first `cols` cells of row `r`. */
  ghost function RowCells(r: int, cols: int): set<Cell> {
    set c: int | 0 <= c < cols :: Cell(r, c)
  }

  lemma CellsMembers(rows: int, cols: int)
    ensures forall c :: c in Cells(rows, cols) <==> InGrid(rows, cols, c)
  {
    forall c | InGrid(rows, cols, c)
      ensures c in Cells(rows, cols)
    {
      assert c == Cell(c.row, c.col);
    }
  }

  lemma {:induction false} RowCellsCount(r: int, cols: nat)
    ensures |RowCells(r, cols)| == cols
  {
    if cols > 0 {
      RowCellsCount(r, cols - 1);
      assert RowCells(r, cols) == RowCells(r, cols - 1) + {Cell(r, cols - 1)};
    } else {
      assert RowCells(r, cols) == {};
    }
  }

  /** A rows x cols grid has rows * cols cells. */
  lemma {:induction false} CellsCount(rows: nat, cols: nat)
    ensures |Cells(rows, cols)| == rows * cols
  {
    if rows == 0 {
      assert Cells(rows, cols) == {};
    } else {
      CellsCount(rows - 1, cols);
      RowCellsCount(rows - 1, cols);
      assert Cells(rows, cols) == Cells(rows - 1, cols) + RowCells(rows - 1, cols);
      assert Cells(rows - 1, cols) !! RowCells(rows - 1, cols);
      assert rows * cols == (rows - 1) * cols + cols;
    }
  }

  /** Every in-grid neighbour of a cell of `S` is in `S`. */
  ghost predicate Closed(rows: int, cols: int, S: set<Cell>) {
    forall c, d: Dir :: c in S && InGrid(rows, cols, Step(c, d)) ==> Step(c, d) in S
  }

  function Abs(n: int): nat {
    if n < 0 then -n else n
  }

  /** Number of single steps between two cells. */
  function Dist(a: Cell, b: Cell): nat {
    Abs(a.row - b.row) + Abs(a.col - b.col)
  }

  /**
   * The lattice is connected: a set of cells closed under moving to in-grid
   * neighbours that holds one cell of the grid holds every cell of the grid.
   */
  lemma {:induction false} ClosedHoldsAll(rows: int, cols: int, S: set<Cell>, s: Cell, c: Cell)
    requires Closed(rows, cols, S)
    requires s in S && InGrid(rows, cols, s) && InGrid(rows, cols, c)
    ensures c in S
    decreases Dist(s, c)
  {
    if c != s {
      var d: Dir :=
        if c.row > s.row then Top
        else if c.row < s.row then Bottom
        else if c.col > s.col then Left
        else Right;
      var n := Step(c, d);
      ClosedHoldsAll(rows, cols, S, s, n);
      StepBack(c, d);
      assert Step(n, Opposite(d)) in S;
    }
  }

  /** Adding a new element grows a set by one. */
  lemma AddNew<T>(s: set<T>, x: T)
    requires x !in s
    ensures |s + {x}| == |s| + 1
  {
  }

  lemma SubsetSize<T>(A: set<T>, B: set<T>)
    requires A <= B
    ensures |A| <= |B|
  {
    assert B == A + (B - A);
    assert A !! (B - A);
  }

  lemma {:induction false} SubsetSameSize<T>(A: set<T>, B: set<T>)
    requires A <= B && |A| == |B|
    ensures A == B
  {
    assert B == A + (B - A);
    assert A !! (B - A);
    assert |B - A| == 0;
  }

  /** The walls between neighbouring columns of row 0 in a grid `cols` wide. */
  ghost function RowWalls(cols: int): set<Edge> {
    set y: int | 0 <= y < cols - 1 :: RightFrom(Cell(0, y))
  }

  lemma {:induction false} RowWallsCount(cols: nat)
    ensures |RowWalls(cols)| == if cols == 0 then 0 else cols - 1
  {
    if cols > 1 {
      RowWallsCount(cols - 1);
      assert RowWalls(cols) == RowWalls(cols - 1) + {RightFrom(Cell(0, cols - 2))};
    } else {
      assert RowWalls(cols) == {};
    }
  }
}
