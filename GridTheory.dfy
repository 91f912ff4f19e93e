/** The maze of the path visualizer in logic.c as mathematics: cells of a
    rows x cols character grid, the four moves, which cells may be entered,
    walks between cells and their lengths. Everything here is a value; the
    searches that work on it are in GridPaths. */
module GridTheory {
  import opened Util

  /** Size of the static grid, distance and predecessor tables. */
  const MAX_SIZE: int := 100

  /** A grid position (the Node record of the visualizer): row x, column y. */
  datatype Cell = Cell(x: int, y: int)

  /** The "no predecessor" mark. */
  const NONE: Cell := Cell(-1, -1)

  /** The move tables: up, down, left, right. */
  const DX: seq<int> := [-1, 1, 0, 0]
  const DY: seq<int> := [0, 0, -1, 1]

  /** The maze: its dimensions and its rows of characters. */
  datatype Board = Board(rows: int, cols: int, cells: seq<seq<char>>)

  /** Dimensions within the static tables and one character per cell. */
  predicate WellFormed(b: Board) {
    && 0 <= b.rows <= MAX_SIZE && 0 <= b.cols <= MAX_SIZE
    && |b.cells| == b.rows
    && forall i :: 0 <= i < b.rows ==> |b.cells[i]| == b.cols
  }

  predicate InGrid(b: Board, c: Cell) {
    0 <= c.x < b.rows && 0 <= c.y < b.cols
  }

  /** The character at an in-grid cell. */
  function At(b: Board, c: Cell): char
    requires WellFormed(b) && InGrid(b, c)
  {
    b.cells[c.x][c.y]
  }

  /** A cell a search may enter (isValid): inside the grid and not a wall. */
  predicate Open(b: Board, c: Cell)
    requires WellFormed(b)
  {
    InGrid(b, c) && At(b, c) != '#'
  }

  /** The i-th neighbour of c in the order of the move tables. */
  function Move(c: Cell, i: int): Cell
    requires 0 <= i < 4
  {
    Cell(c.x + DX[i], c.y + DY[i])
  }

  /** The four neighbours are different cells, and none of them is c. */
  lemma MovesDiffer(c: Cell, i: int, j: int)
    requires 0 <= i < 4 && 0 <= j < 4
    ensures Move(c, i) == Move(c, j) <==> i == j
    ensures Move(c, i) != c
  {
  }

  /** One move of a search: to one of the four neighbours, which is open.
      The cell moved from need not be open (the start cell never is checked). */
  predicate GridStep(b: Board, a: Cell, c: Cell)
    requires WellFormed(b)
  {
    (c == Move(a, 0) || c == Move(a, 1) || c == Move(a, 2) || c == Move(a, 3)) && Open(b, c)
  }

  /** Moving to the i-th neighbour, when it is open, is one move. */
  lemma MoveStep(b: Board, c: Cell, i: int)
    requires WellFormed(b) && 0 <= i < 4 && Open(b, Move(c, i))
    ensures GridStep(b, c, Move(c, i))
  {
  }

  ghost predicate GridWalk(b: Board, p: seq<Cell>)
    requires WellFormed(b)
  {
    |p| >= 1 && forall k :: 0 <= k < |p| - 1 ==> GridStep(b, p[k], p[k + 1])
  }

  ghost predicate GridWalkBetween(b: Board, p: seq<Cell>, s: Cell, t: Cell)
    requires WellFormed(b)
  {
    GridWalk(b, p) && p[0] == s && p[|p| - 1] == t
  }

  /** t can be reached from s by a (possibly empty) sequence of moves. */
  ghost predicate GridReachable(b: Board, s: Cell, t: Cell)
    requires WellFormed(b)
  {
    exists p :: GridWalkBetween(b, p, s, t)
  }

  /** Some walk from s to t takes exactly d moves. */
  ghost predicate WalkTakes(b: Board, s: Cell, t: Cell, d: int)
    requires WellFormed(b)
  {
    exists p :: GridWalkBetween(b, p, s, t) && |p| == d + 1
  }

  /** No walk from s to t takes fewer than d moves. */
  ghost predicate NoFewerMoves(b: Board, s: Cell, t: Cell, d: int)
    requires WellFormed(b)
  {
    forall p :: GridWalkBetween(b, p, s, t) ==> |p| - 1 >= d
  }

  lemma StayPut(b: Board, s: Cell)
    requires WellFormed(b)
    ensures WalkTakes(b, s, s, 0) && GridReachable(b, s, s)
  {
    assert GridWalkBetween(b, [s], s, s);
  }

  /** A walk of d moves to u followed by one move to v is a walk of d + 1
      moves to v. */
  lemma TakesStep(b: Board, s: Cell, u: Cell, v: Cell, d: int)
    requires WellFormed(b) && WalkTakes(b, s, u, d) && GridStep(b, u, v)
    ensures WalkTakes(b, s, v, d + 1)
  {
    var p :| GridWalkBetween(b, p, s, u) && |p| == d + 1;
    var q := p + [v];
    assert q[|q| - 2] == u;
    assert GridWalkBetween(b, q, s, v);
  }

  lemma TakesReachable(b: Board, s: Cell, t: Cell, d: int)
    requires WellFormed(b) && WalkTakes(b, s, t, d)
    ensures GridReachable(b, s, t)
  {
  }

  /** A set of cells closed under moves holds the end of every walk that
      starts inside it. */
  lemma {:induction false} ClosedHoldsWalk(b: Board, inside: set<Cell>, p: seq<Cell>)
    requires WellFormed(b) && GridWalk(b, p) && p[0] in inside
    requires forall x, y :: x in inside && GridStep(b, x, y) ==> y in inside
    ensures p[|p| - 1] in inside
  {
    if |p| > 1 {
      assert GridStep(b, p[0], p[1]);
      ClosedHoldsWalk(b, inside, p[1..]);
    }
  }

  /** A set of cells holding s and closed under moves holds every cell
      reachable from s. */
  lemma ClosedHoldsReachable(b: Board, inside: set<Cell>, s: Cell, t: Cell)
    requires WellFormed(b) && s in inside && GridReachable(b, s, t)
    requires forall x, y :: x in inside && GridStep(b, x, y) ==> y in inside
    ensures t in inside
  {
    var p :| GridWalkBetween(b, p, s, t);
    ClosedHoldsWalk(b, inside, p);
  }

  /** Every cell of the grid, row by row. */
  ghost function GridCells(rows: nat, cols: nat): (r: set<Cell>)
    ensures forall c :: c in r <==> 0 <= c.x < rows && 0 <= c.y < cols
    ensures |r| == rows * cols
  {
    if rows == 0 then {} else
      var above := GridCells(rows - 1, cols);
      var row := RowCells(rows - 1, cols);
      assert above !! row;
      assert |above + row| == |above| + |row|;
      assert (rows - 1) * cols + cols == rows * cols;
      above + row
  }

  ghost function RowCells(x: int, cols: nat): (r: set<Cell>)
    ensures forall c :: c in r <==> c.x == x && 0 <= c.y < cols
    ensures |r| == cols
  {
    if cols == 0 then {} else
      var left := RowCells(x, cols - 1);
      assert Cell(x, cols - 1) !in left;
      left + {Cell(x, cols - 1)}
  }

  /** Pigeonhole on the grid: pairwise different in-grid cells number at
      most rows * cols, which is at most the size of the static buffers. */
  lemma CellsBound(b: Board, s: seq<Cell>)
    requires WellFormed(b) && Distinct(s)
    requires forall k :: 0 <= k < |s| ==> InGrid(b, s[k])
    ensures |s| <= b.rows * b.cols <= MAX_SIZE * MAX_SIZE
  {
    DistinctWithin(s, GridCells(b.rows, b.cols));
    assert b.rows * b.cols <= MAX_SIZE * b.cols by {
      MulLeft(b.rows, MAX_SIZE, b.cols);
    }
    MulLeft(b.cols, MAX_SIZE, MAX_SIZE);
  }

  lemma MulLeft(a: nat, a': nat, c: nat)
    requires a <= a'
    ensures a * c <= a' * c
  {
  }
}
