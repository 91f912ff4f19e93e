/** The path visualizer of logic.c: a maze read into a character grid, with
    a start and an end cell, searched by Dijkstra's algorithm, breadth-first
    or depth-first search; each search fills the distance and predecessor
    tables in place, and printPath draws the predecessor chain from the end
    onto a copy of the grid. The queue, the stack and the priority queue
    are buffers of MAX_SIZE * MAX_SIZE cells. */
module GridPaths {
  import opened Util
  import opened GridTheory
  import opened GridSearch

  class Visualizer {
    const rows: int
    const cols: int
    const grid: seq<seq<char>>
    const start: Cell
    const end: Cell
    /** dist and prev, indexed by row and column. */
    const dist: array2<int>
    const prev: array2<Cell>

    function Layout(): Board {
      Board(rows, cols, grid)
    }

    ghost predicate Valid() {
      && WellFormed(Layout()) && InGrid(Layout(), start)
      && dist.Length0 == rows && dist.Length1 == cols
      && prev.Length0 == rows && prev.Length1 == cols
    }

    /** The maze as the grid reader leaves it; the tables start zeroed, as
        static storage does. */
    constructor (rows: int, cols: int, grid: seq<seq<char>>, start: Cell, end: Cell)
      requires WellFormed(Board(rows, cols, grid)) && InGrid(Board(rows, cols, grid), start)
      ensures Valid()
      ensures this.rows == rows && this.cols == cols && this.grid == grid
      ensures this.start == start && this.end == end
      ensures fresh(dist) && fresh(prev)
    {
      this.rows, this.cols, this.grid := rows, cols, grid;
      this.start, this.end := start, end;
      dist := new int[rows, cols]((i, j) => 0);
      prev := new Cell[rows, cols]((i, j) => Cell(0, 0));
    }

    /** The distance table as a map from in-grid cells. */
    ghost function DistMap(): (D: map<Cell, int>)
      requires Valid()
      reads dist
      ensures Covers(Layout(), D)
    {
      map c | c in GridCells(rows, cols) :: dist[c.x, c.y]
    }

    /** The predecessor table as a map from in-grid cells. */
    ghost function PrevMap(): (P: map<Cell, Cell>)
      requires Valid()
      reads prev
      ensures Covers(Layout(), P)
    {
      map c | c in GridCells(rows, cols) :: prev[c.x, c.y]
    }

    /** The tables hold the maps D and P. */
    ghost predicate Shows(D: map<Cell, int>, P: map<Cell, Cell>)
      requires Valid()
      reads dist, prev
    {
      && Covers(Layout(), D) && Covers(Layout(), P)
      && forall c :: InGrid(Layout(), c) ==> dist[c.x, c.y] == D[c] && prev[c.x, c.y] == P[c]
    }

    lemma ShowsMaps(D: map<Cell, int>, P: map<Cell, Cell>)
      requires Valid() && Shows(D, P)
      ensures D == DistMap() && P == PrevMap()
    {
    }

    /** The first nested loop of each search: every cell unreached, without
        predecessor. */
    method ResetMarks() returns (ghost D: map<Cell, int>, ghost P: map<Cell, Cell>)
      requires Valid()
      modifies dist, prev
      ensures Shows(D, P)
      ensures forall c :: InGrid(Layout(), c) ==> D[c] == INF && P[c] == NONE
    {
      for i := 0 to rows
        invariant forall x, y :: 0 <= x < i && 0 <= y < cols ==> dist[x, y] == INF && prev[x, y] == NONE
      {
        for j := 0 to cols
          invariant forall x, y :: 0 <= x < i && 0 <= y < cols ==> dist[x, y] == INF && prev[x, y] == NONE
          invariant forall y :: 0 <= y < j ==> dist[i, y] == INF && prev[i, y] == NONE
        {
          dist[i, j] := INF;
          prev[i, j] := NONE;
        }
      }
      D := map c | c in GridCells(rows, cols) :: INF;
      P := map c | c in GridCells(rows, cols) :: NONE;
    }

    /** The neighbour loop of bfs_visual and dfs_visual: each open neighbour
        of cur still at INF gets distance one more than cur, cur as its
        predecessor, and is appended to the buffer. The buffer, whose first
        size entries are the different reached cells content, never
        overflows. */
    method ExpandUnseen(cur: Cell, buf: array<Cell>, size: int, ghost content: seq<Cell>,
                        ghost D: map<Cell, int>, ghost P: map<Cell, Cell>)
      returns (size': int, ghost D': map<Cell, int>, ghost P': map<Cell, Cell>)
      requires Valid() && buf.Length == MAX_SIZE * MAX_SIZE
      requires InGrid(Layout(), cur) && Shows(D, P) && 0 <= D[cur] < MAX_SIZE * MAX_SIZE
      requires size == |content| && MirrorsPrefix(buf, content) && Distinct(content)
      requires forall c :: c in content ==> InGrid(Layout(), c) && D[c] != INF
      modifies dist, prev, buf
      ensures size' == size + |Fresh(Layout(), D, cur, 4)|
      ensures MirrorsPrefix(buf, content + Fresh(Layout(), D, cur, 4))
      ensures Shows(D', P') && Discovered(Layout(), D, P, cur, Fresh(Layout(), D, cur, 4), D', P')
    {
      size', D', P' := size, D, P;
      ghost var N: seq<Cell> := [];
      for i := 0 to 4
        invariant N == Fresh(Layout(), D, cur, i)
        invariant size' == size + |N| && MirrorsPrefix(buf, content + N)
        invariant Shows(D', P') && Discovered(Layout(), D, P, cur, N, D', P')
      {
        size', N, D', P' := ProbeUnseen(cur, i, buf, size, content, D, P, N, size', D', P');
      }
    }

    /** One round of the neighbour loop of bfs_visual and dfs_visual: the
        i-th neighbour. */
    method ProbeUnseen(cur: Cell, i: int, buf: array<Cell>, size: int, ghost content: seq<Cell>,
                       ghost D: map<Cell, int>, ghost P: map<Cell, Cell>,
                       ghost N: seq<Cell>, size0: int, ghost D0: map<Cell, int>, ghost P0: map<Cell, Cell>)
      returns (size': int, ghost N': seq<Cell>, ghost D': map<Cell, int>, ghost P': map<Cell, Cell>)
      requires Valid() && buf.Length == MAX_SIZE * MAX_SIZE && 0 <= i < 4
      requires InGrid(Layout(), cur) && Covers(Layout(), D) && Covers(Layout(), P) && 0 <= D[cur] < MAX_SIZE * MAX_SIZE
      requires size == |content| && Distinct(content)
      requires forall c :: c in content ==> InGrid(Layout(), c) && D[c] != INF
      requires N == Fresh(Layout(), D, cur, i)
      requires size0 == size + |N| && MirrorsPrefix(buf, content + N)
      requires Shows(D0, P0) && Discovered(Layout(), D, P, cur, N, D0, P0)
      modifies dist, prev, buf
      ensures N' == Fresh(Layout(), D, cur, i + 1)
      ensures size' == size + |N'| && MirrorsPrefix(buf, content + N')
      ensures Shows(D', P') && Discovered(Layout(), D, P, cur, N', D', P')
    {
      var n := Move(cur, i);
      assert InGrid(Layout(), n) ==> dist[n.x, n.y] == D0[n];
      var taken := Open(Layout(), n) && dist[n.x, n.y] == INF;
      Probed(Layout(), D, P, cur, i, content, N, D0, P0, taken);
      size', N', D', P' := size0, N, D0, P0;
      if taken {
        assert dist[cur.x, cur.y] == D0[cur];
        D', P' := Reach(n, dist[cur.x, cur.y] + 1, cur, buf, size0, content + N, D0, P0);
        size', N' := size0 + 1, N + [n];
        AppendOne(content, N, n);
      }
    }

    /** The neighbour loop of dijkstra_visual: the same appends, made when
        one more move than cur is shorter than a neighbour's distance. At a
        least entry of the priority queue that test picks exactly the
        neighbours still at INF. */
    method ExpandCloser(cur: Cell, buf: array<Cell>, size: int, ghost content: seq<Cell>,
                        ghost D: map<Cell, int>, ghost P: map<Cell, Cell>)
      returns (size': int, ghost D': map<Cell, int>, ghost P': map<Cell, Cell>)
      requires Valid() && buf.Length == MAX_SIZE * MAX_SIZE
      requires InGrid(Layout(), cur) && Shows(D, P) && 0 <= D[cur] < MAX_SIZE * MAX_SIZE
      requires forall c :: GridStep(Layout(), cur, c) ==> (D[cur] + 1 < D[c] <==> D[c] == INF)
      requires size == |content| && MirrorsPrefix(buf, content) && Distinct(content)
      requires forall c :: c in content ==> InGrid(Layout(), c) && D[c] != INF
      modifies dist, prev, buf
      ensures size' == size + |Fresh(Layout(), D, cur, 4)|
      ensures MirrorsPrefix(buf, content + Fresh(Layout(), D, cur, 4))
      ensures Shows(D', P') && Discovered(Layout(), D, P, cur, Fresh(Layout(), D, cur, 4), D', P')
    {
      size', D', P' := size, D, P;
      ghost var N: seq<Cell> := [];
      for i := 0 to 4
        invariant N == Fresh(Layout(), D, cur, i)
        invariant size' == size + |N| && MirrorsPrefix(buf, content + N)
        invariant Shows(D', P') && Discovered(Layout(), D, P, cur, N, D', P')
      {
        size', N, D', P' := ProbeCloser(cur, i, buf, size, content, D, P, N, size', D', P');
      }
    }

    /** One round of the neighbour loop of dijkstra_visual: the i-th
        neighbour. */
    method ProbeCloser(cur: Cell, i: int, buf: array<Cell>, size: int, ghost content: seq<Cell>,
                       ghost D: map<Cell, int>, ghost P: map<Cell, Cell>,
                       ghost N: seq<Cell>, size0: int, ghost D0: map<Cell, int>, ghost P0: map<Cell, Cell>)
      returns (size': int, ghost N': seq<Cell>, ghost D': map<Cell, int>, ghost P': map<Cell, Cell>)
      requires Valid() && buf.Length == MAX_SIZE * MAX_SIZE && 0 <= i < 4
      requires InGrid(Layout(), cur) && Covers(Layout(), D) && Covers(Layout(), P) && 0 <= D[cur] < MAX_SIZE * MAX_SIZE
      requires forall c :: GridStep(Layout(), cur, c) ==> (D[cur] + 1 < D[c] <==> D[c] == INF)
      requires size == |content| && Distinct(content)
      requires forall c :: c in content ==> InGrid(Layout(), c) && D[c] != INF
      requires N == Fresh(Layout(), D, cur, i)
      requires size0 == size + |N| && MirrorsPrefix(buf, content + N)
      requires Shows(D0, P0) && Discovered(Layout(), D, P, cur, N, D0, P0)
      modifies dist, prev, buf
      ensures N' == Fresh(Layout(), D, cur, i + 1)
      ensures size' == size + |N'| && MirrorsPrefix(buf, content + N')
      ensures Shows(D', P') && Discovered(Layout(), D, P, cur, N', D', P')
    {
      var n := Move(cur, i);
      assert InGrid(Layout(), n) ==> dist[n.x, n.y] == D0[n];
      assert dist[cur.x, cur.y] == D0[cur];
      var taken := false;
      if Open(Layout(), n) {
        MoveStep(Layout(), cur, i);
        var alt := dist[cur.x, cur.y] + 1;
        taken := alt < dist[n.x, n.y];
      }
      Probed(Layout(), D, P, cur, i, content, N, D0, P0, taken);
      size', N', D', P' := size0, N, D0, P0;
      if taken {
        D', P' := Reach(n, dist[cur.x, cur.y] + 1, cur, buf, size0, content + N, D0, P0);
        size', N' := size0 + 1, N + [n];
        AppendOne(content, N, n);
      }
    }

    /** The three stores of a discovery: n gets distance d and predecessor
        cur, and is appended to the buffer after its first size entries. */
    method Reach(n: Cell, d: int, cur: Cell, buf: array<Cell>, size: int, ghost content: seq<Cell>,
                 ghost D: map<Cell, int>, ghost P: map<Cell, Cell>)
      returns (ghost D': map<Cell, int>, ghost P': map<Cell, Cell>)
      requires Valid() && InGrid(Layout(), n) && Shows(D, P)
      requires size == |content| < buf.Length && MirrorsPrefix(buf, content)
      modifies dist, prev, buf
      ensures D' == D[n := d] && P' == P[n := cur]
      ensures Shows(D', P') && MirrorsPrefix(buf, content + [n])
    {
      dist[n.x, n.y] := d;
      prev[n.x, n.y] := cur;
      buf[size] := n;
      D', P' := D[n := d], P[n := cur];
    }

    /** What one round of a neighbour loop decides: whether the i-th
        neighbour is taken (open and unreached), and then the tables and
        the buffer contents one round further. */
    lemma Probed(b: Board, D: map<Cell, int>, P: map<Cell, Cell>, cur: Cell, i: int, content: seq<Cell>,
                 N: seq<Cell>, D0: map<Cell, int>, P0: map<Cell, Cell>, taken: bool)
      requires WellFormed(b) && 0 <= i < 4
      requires InGrid(b, cur) && Covers(b, D) && Covers(b, P) && 0 <= D[cur] < MAX_SIZE * MAX_SIZE
      requires Distinct(content) && forall c :: c in content ==> InGrid(b, c) && D[c] != INF
      requires N == Fresh(b, D, cur, i) && Discovered(b, D, P, cur, N, D0, P0)
      requires taken <==> Open(b, Move(cur, i)) && D0[Move(cur, i)] == INF
      ensures D0[cur] == D[cur]
      ensures taken ==>
        && |content| + |N| < MAX_SIZE * MAX_SIZE && Fresh(b, D, cur, i + 1) == N + [Move(cur, i)]
        && Discovered(b, D, P, cur, N + [Move(cur, i)], D0[Move(cur, i) := D0[cur] + 1], P0[Move(cur, i) := cur])
      ensures !taken ==> Fresh(b, D, cur, i + 1) == N
    {
      DiscoverMove(b, D, P, cur, i, D0, P0);
      if taken {
        Appendable(b, D, cur, i, content);
      }
    }

    /** There is room for the next fresh cell: with the reached cells and
        the fresh ones before it, it makes different in-grid cells. */
    lemma Appendable(b: Board, D: map<Cell, int>, cur: Cell, i: int, content: seq<Cell>)
      requires WellFormed(b) && Covers(b, D) && 0 <= i < 4
      requires Open(b, Move(cur, i)) && D[Move(cur, i)] == INF
      requires Distinct(content) && forall c :: c in content ==> InGrid(b, c) && D[c] != INF
      ensures |content| + |Fresh(b, D, cur, i)| < MAX_SIZE * MAX_SIZE
    {
      var earlier := Fresh(b, D, cur, i);
      var n := Move(cur, i);
      MovesBefore(cur, i);
      DistinctConcat(content, earlier);
      DistinctConcat(content + earlier, [n]);
      var all := content + earlier + [n];
      forall k | 0 <= k < |all| ensures InGrid(b, all[k]) {
        assert all[k] in content || all[k] in earlier || all[k] == n;
      }
      CellsBound(b, all);
    }

    /** The scan of dijkstra_visual for the first least entry of the priority
        queue pq[..size]. */
    method MinIndex(pq: array<Cell>, size: int) returns (minIndex: int)
      requires Valid() && 0 < size <= pq.Length
      requires forall k :: 0 <= k < size ==> 0 <= pq[k].x < rows && 0 <= pq[k].y < cols
      ensures 0 <= minIndex < size
      ensures forall k :: 0 <= k < size ==> dist[pq[minIndex].x, pq[minIndex].y] <= dist[pq[k].x, pq[k].y]
      ensures forall k :: 0 <= k < minIndex ==> dist[pq[minIndex].x, pq[minIndex].y] < dist[pq[k].x, pq[k].y]
    {
      minIndex := 0;
      for i := 1 to size
        invariant 0 <= minIndex < i
        invariant forall k :: 0 <= k < i ==> dist[pq[minIndex].x, pq[minIndex].y] <= dist[pq[k].x, pq[k].y]
        invariant forall k :: 0 <= k < minIndex ==> dist[pq[minIndex].x, pq[minIndex].y] < dist[pq[k].x, pq[k].y]
      {
        if dist[pq[i].x, pq[i].y] < dist[pq[minIndex].x, pq[minIndex].y] {
          minIndex := i;
        }
      }
    }

    /** bfs_visual: breadth-first search from start, stopping when end is
        dequeued. The tables end as a search tree whose distance for end (for
        every cell, when end is outside the grid) is the least number of
        moves, or INF exactly when it cannot be reached. */
    method BfsVisual()
      requires Valid()
      modifies dist, prev
      ensures SearchTree(Layout(), start, DistMap(), PrevMap())
      ensures ShortestToEnd(Layout(), start, end, DistMap())
    {
      ghost var D, P := ResetMarks();
      D, P := BfsLoop(D, P);
      ShowsMaps(D, P);
    }

    /** The queue loop of bfs_visual, from the tables with every cell
        unreached. */
    method BfsLoop(ghost D0: map<Cell, int>, ghost P0: map<Cell, Cell>)
      returns (ghost D: map<Cell, int>, ghost P: map<Cell, Cell>)
      requires Valid() && Shows(D0, P0)
      requires forall c :: InGrid(Layout(), c) ==> D0[c] == INF && P0[c] == NONE
      modifies dist, prev
      ensures Shows(D, P) && SearchTree(Layout(), start, D, P) && ShortestToEnd(Layout(), start, end, D)
    {
      var queue := new Cell[MAX_SIZE * MAX_SIZE];
      var front, rear := 0, 0;
      queue[rear] := start;
      rear := rear + 1;
      dist[start.x, start.y] := 0;
      D, P := D0[start := 0], P0;
      Initial(Layout(), start, D, P);
      FrontierBound(Layout(), D, [start], []);
      ghost var popped: seq<Cell>, F: seq<Cell>, L := [], [start], 0;
      ghost var met := false;
      while front < rear
        invariant front == |popped| && rear == |popped| + |F| && MirrorsPrefix(queue, popped + F)
        invariant Shows(D, P) && QueueSearch(Layout(), start, D, P, F, popped, L)
        invariant !met
        decreases rows * cols - front
      {
        MirrorsNext(queue, popped, F);
        var current := queue[front];
        front := front + 1;
        if current.x == end.x && current.y == end.y {
          AscendingHead(Layout(), D, F);
          EndMetShortest(Layout(), start, D, P, F, popped, L, current);
          met := true;
          break;
        }
        rear, popped, F, L, D, P := BfsRound(current, queue, rear, popped, F, L, D, P);
      }
      if !met {
        LevelExhausted(Layout(), start, end, D, P, popped, L);
      }
    }

    /** One round of bfs_visual after the head F[0], other than end, was
        dequeued: its unreached neighbours join the back of the queue. */
    method BfsRound(cur: Cell, queue: array<Cell>, rear: int, ghost popped: seq<Cell>, ghost F: seq<Cell>, ghost L: int,
                    ghost D: map<Cell, int>, ghost P: map<Cell, Cell>)
      returns (rear': int, ghost popped': seq<Cell>, ghost F': seq<Cell>, ghost L': int,
               ghost D': map<Cell, int>, ghost P': map<Cell, Cell>)
      requires Valid() && queue.Length == MAX_SIZE * MAX_SIZE && |F| >= 1 && cur == F[0]
      requires rear == |popped| + |F| && MirrorsPrefix(queue, popped + F)
      requires Shows(D, P) && QueueSearch(Layout(), start, D, P, F, popped, L)
      modifies dist, prev, queue
      ensures popped' == popped + [cur] && F' == F[1..] + Fresh(Layout(), D, cur, 4) && L' == D[cur]
      ensures rear' == |popped'| + |F'| && MirrorsPrefix(queue, popped' + F')
      ensures Shows(D', P') && QueueSearch(Layout(), start, D', P', F', popped', L')
    {
      ghost var b := Layout();
      FrontierBound(b, D, F, popped);
      Ends(F);
      forall c | c in popped + F ensures InGrid(b, c) && D[c] != INF {
      }
      rear', D', P' := ExpandUnseen(cur, queue, rear, popped + F, D, P);
      BfsPop(b, start, D, P, F, popped, L, D', P');
      ShiftFront(popped, F, Fresh(b, D, cur, 4));
      popped', F', L' := popped + [cur], F[1..] + Fresh(b, D, cur, 4), D[cur];
      FrontierBound(b, D', F', popped');
    }

    /** dfs_visual: the same search with a stack, stopping when end is
        popped. The tables end as a search tree in which end (every cell,
        when end is outside the grid) is reached exactly when it can be; the
        distances are the depths in that tree, not least ones. */
    method DfsVisual()
      requires Valid()
      modifies dist, prev
      ensures SearchTree(Layout(), start, DistMap(), PrevMap())
      ensures FindsEnd(Layout(), start, end, DistMap())
    {
      ghost var D, P := ResetMarks();
      D, P := DfsLoop(D, P);
      ShowsMaps(D, P);
    }

    /** The stack loop of dfs_visual, from the tables with every cell
        unreached. */
    method DfsLoop(ghost D0: map<Cell, int>, ghost P0: map<Cell, Cell>)
      returns (ghost D: map<Cell, int>, ghost P: map<Cell, Cell>)
      requires Valid() && Shows(D0, P0)
      requires forall c :: InGrid(Layout(), c) ==> D0[c] == INF && P0[c] == NONE
      modifies dist, prev
      ensures Shows(D, P) && SearchTree(Layout(), start, D, P) && FindsEnd(Layout(), start, end, D)
    {
      var stack := new Cell[MAX_SIZE * MAX_SIZE];
      var top := -1;
      top := top + 1;
      stack[top] := start;
      dist[start.x, start.y] := 0;
      D, P := D0[start := 0], P0;
      Initial(Layout(), start, D, P);
      FrontierBound(Layout(), D, [start], []);
      ghost var popped: seq<Cell>, F: seq<Cell> := [], [start];
      ghost var met := false;
      while top >= 0
        invariant top + 1 == |F| && MirrorsPrefix(stack, F)
        invariant Shows(D, P) && DepthSearch(Layout(), start, D, P, F, popped)
        invariant !met
        decreases rows * cols - |popped|
      {
        var found;
        top, found, popped, F, D, P := DfsRound(stack, top, popped, F, D, P);
        if found {
          met := true;
          break;
        }
      }
      if !met {
        Exhausted(Layout(), start, end, D, P, popped);
      }
    }

    /** One round of dfs_visual: the top of the stack F is popped; when it
        is end the search is over, otherwise its unreached neighbours are
        pushed. */
    method DfsRound(stack: array<Cell>, top: int, ghost popped: seq<Cell>, ghost F: seq<Cell>,
                    ghost D: map<Cell, int>, ghost P: map<Cell, Cell>)
      returns (top': int, found: bool, ghost popped': seq<Cell>, ghost F': seq<Cell>,
               ghost D': map<Cell, int>, ghost P': map<Cell, Cell>)
      requires Valid() && stack.Length == MAX_SIZE * MAX_SIZE && top >= 0
      requires top + 1 == |F| && MirrorsPrefix(stack, F)
      requires Shows(D, P) && DepthSearch(Layout(), start, D, P, F, popped)
      modifies dist, prev, stack
      ensures found ==> Shows(D', P') && SearchTree(Layout(), start, D', P') && FindsEnd(Layout(), start, end, D')
      ensures !found ==> popped' == popped + [F[|F| - 1]] && F' == F[..|F| - 1] + Fresh(Layout(), D, F[|F| - 1], 4)
      ensures !found ==> top' + 1 == |F'| && MirrorsPrefix(stack, F')
      ensures !found ==> Shows(D', P') && DepthSearch(Layout(), start, D', P', F', popped')
    {
      ghost var b := Layout();
      MirrorsLast(stack, F);
      var cur := stack[top];
      popped', F', D', P' := popped, F, D, P;
      if cur.x == end.x && cur.y == end.y {
        EndMet(b, start, D, P, F, popped, cur);
        return top - 1, true, popped', F', D', P';
      }
      found := false;
      FrontierBound(b, D, F, popped);
      Ends(F);
      forall c | c in F[..|F| - 1] ensures InGrid(b, c) && D[c] != INF {
      }
      var size;
      size, D', P' := ExpandUnseen(cur, stack, top, F[..|F| - 1], D, P);
      DfsPop(b, start, D, P, F, popped, D', P');
      popped', F' := popped + [cur], F[..|F| - 1] + Fresh(b, D, cur, 4);
      FrontierBound(b, D', F', popped');
      top' := size - 1;
    }

    /** dijkstra_visual: Dijkstra's algorithm over unit moves with the
        priority queue kept as an unsorted buffer: the first least entry is
        found by a scan and replaced by the last one. It stops when end is
        taken out, with the same outcome as bfs_visual. */
    method DijkstraVisual()
      requires Valid()
      modifies dist, prev
      ensures SearchTree(Layout(), start, DistMap(), PrevMap())
      ensures ShortestToEnd(Layout(), start, end, DistMap())
    {
      ghost var D, P := ResetMarks();
      dist[start.x, start.y] := 0;
      D := D[start := 0];
      D, P := DijkstraLoop(D, P);
      ShowsMaps(D, P);
    }

    /** The priority queue loop of dijkstra_visual, from the tables with only
        the start reached. */
    method DijkstraLoop(ghost D0: map<Cell, int>, ghost P0: map<Cell, Cell>)
      returns (ghost D: map<Cell, int>, ghost P: map<Cell, Cell>)
      requires Valid() && Shows(D0, P0)
      requires forall c :: InGrid(Layout(), c) ==> D0[c] == (if c == start then 0 else INF) && P0[c] == NONE
      modifies dist, prev
      ensures Shows(D, P) && SearchTree(Layout(), start, D, P) && ShortestToEnd(Layout(), start, end, D)
    {
      D, P := D0, P0;
      var pq := new Cell[MAX_SIZE * MAX_SIZE];
      var pqSize := 0;
      pq[pqSize] := start;
      pqSize := pqSize + 1;
      Initial(Layout(), start, D, P);
      FrontierBound(Layout(), D, [start], []);
      ghost var popped: seq<Cell>, F: seq<Cell>, L := [], [start], 0;
      ghost var met := false;
      while pqSize > 0
        invariant pqSize == |F| && MirrorsPrefix(pq, F)
        invariant Shows(D, P) && LevelSearch(Layout(), start, D, P, F, popped, L)
        invariant !met
        decreases rows * cols - |popped|
      {
        var current;
        ghost var rest;
        current, rest := TakeMin(pq, pqSize, F, D, P);
        pqSize := pqSize - 1;
        if current.x == end.x && current.y == end.y {
          EndMetShortest(Layout(), start, D, P, F, popped, L, current);
          met := true;
          break;
        }
        pqSize, popped, F, L, D, P := DijkstraRound(current, pq, pqSize, popped, F, L, rest, D, P);
      }
      if !met {
        LevelExhausted(Layout(), start, end, D, P, popped, L);
      }
    }

    /** The scan and removal of dijkstra_visual: the first least entry of
        pq[..size] is taken out and the last entry moved into its place. */
    method TakeMin(pq: array<Cell>, size: int, ghost F: seq<Cell>, ghost D: map<Cell, int>, ghost P: map<Cell, Cell>)
      returns (current: Cell, ghost rest: seq<Cell>)
      requires Valid() && Shows(D, P) && 0 < size == |F| && MirrorsPrefix(pq, F) && Distinct(F)
      requires forall c :: c in F ==> InGrid(Layout(), c)
      modifies pq
      ensures current in F && forall c :: c in F ==> D[current] <= D[c]
      ensures |rest| == size - 1 && MirrorsPrefix(pq, rest)
      ensures Distinct(rest) && forall c :: c in rest <==> c in F && c != current
      ensures exists k :: 0 <= k < size && current == F[k] && (forall j :: 0 <= j < k ==> D[current] < D[F[j]]) &&
                          rest == F[k := F[size - 1]][..size - 1]
    {
      forall k | 0 <= k < size ensures 0 <= pq[k].x < rows && 0 <= pq[k].y < cols {
        assert pq[k] == F[k] && F[k] in F;
      }
      var minIndex := MinIndex(pq, size);
      current := pq[minIndex];
      assert current == F[minIndex];
      forall c | c in F ensures D[current] <= D[c] {
        var k :| 0 <= k < size && F[k] == c;
        assert pq[k] == c;
      }
      forall j | 0 <= j < minIndex ensures D[current] < D[F[j]] {
        assert pq[j] == F[j];
      }
      pq[minIndex] := pq[size - 1];
      rest := F[minIndex := F[size - 1]][..size - 1];
      RemoveAt(F, minIndex);
    }

    /** One round of dijkstra_visual after a least entry cur other than end
        was taken out of the frontier F, leaving rest: cur is settled and its
        closer neighbours appended. */
    method DijkstraRound(cur: Cell, pq: array<Cell>, size: int, ghost popped: seq<Cell>, ghost F: seq<Cell>, ghost L: int,
                         ghost rest: seq<Cell>, ghost D: map<Cell, int>, ghost P: map<Cell, Cell>)
      returns (size': int, ghost popped': seq<Cell>, ghost F': seq<Cell>, ghost L': int,
               ghost D': map<Cell, int>, ghost P': map<Cell, Cell>)
      requires Valid() && pq.Length == MAX_SIZE * MAX_SIZE
      requires Shows(D, P) && LevelSearch(Layout(), start, D, P, F, popped, L)
      requires cur in F && forall c :: c in F ==> D[cur] <= D[c]
      requires size == |rest| && MirrorsPrefix(pq, rest)
      requires Distinct(rest) && forall c :: c in rest <==> c in F && c != cur
      modifies dist, prev, pq
      ensures popped' == popped + [cur] && F' == rest + Fresh(Layout(), D, cur, 4) && L' == D[cur]
      ensures size' == |F'| && MirrorsPrefix(pq, F')
      ensures Shows(D', P') && LevelSearch(Layout(), start, D', P', F', popped', L')
    {
      ghost var b := Layout();
      FrontierBound(b, D, F, popped);
      CloserIsFresh(b, start, D, P, F, popped, L, cur);
      forall c | c in rest ensures InGrid(b, c) && D[c] != INF {
      }
      size', D', P' := ExpandCloser(cur, pq, size, rest, D, P);
      DijkstraPop(b, start, D, P, F, popped, L, cur, rest, D', P');
      popped', F', L' := popped + [cur], rest + Fresh(b, D, cur, 4), D[cur];
      FrontierBound(b, D', F', popped');
    }

    /** printPath after a search: a copy of the grid with every cell of the
        predecessor chain from end marked '*', except the 'S' and 'E' cells.
        The printed rows are returned. */
    method PrintPath() returns (shown: seq<seq<char>>)
      requires Valid() && InGrid(Layout(), end)
      requires SearchTree(Layout(), start, DistMap(), PrevMap())
      ensures |shown| == rows && forall i :: 0 <= i < rows ==> |shown[i]| == cols
      ensures forall i, j :: 0 <= i < rows && 0 <= j < cols ==>
                shown[i][j] == Painted(Layout(), Trail(Layout(), start, DistMap(), PrevMap(), end), Cell(i, j))
    {
      ghost var D, P := DistMap(), PrevMap();
      MapsShown();
      TrailLinks(Layout(), start, D, P, end);
      DistinctTails(Trail(Layout(), start, D, P, end));
      var temp := DrawTrail(D, P, Trail(Layout(), start, D, P, end));
      shown := RowsOf(temp);
    }

    /** The rows of the drawing, as printed. */
    method RowsOf(temp: array2<char>) returns (shown: seq<seq<char>>)
      requires temp.Length0 == rows && temp.Length1 == cols
      ensures |shown| == rows && forall i :: 0 <= i < rows ==> |shown[i]| == cols
      ensures forall i, j :: 0 <= i < rows && 0 <= j < cols ==> shown[i][j] == temp[i, j]
    {
      shown := seq(rows, i requires 0 <= i < rows reads temp => seq(cols, j requires 0 <= j < cols reads temp => temp[i, j]));
    }

    lemma MapsShown()
      requires Valid()
      ensures Shows(DistMap(), PrevMap())
    {
    }

    /** The drawing of printPath: the copy of the grid with the chain T
        marked, followed back from end through the predecessor table P. */
    method DrawTrail(ghost D: map<Cell, int>, ghost P: map<Cell, Cell>, ghost T: seq<Cell>) returns (temp: array2<char>)
      requires Valid() && Shows(D, P)
      requires |T| >= 1 && T[|T| - 1] == end && forall k {:trigger T[k..]} :: 0 < k <= |T| ==> T[k - 1] !in T[k..]
      requires forall j :: 0 <= j < |T| ==> InGrid(Layout(), T[j])
      requires P[T[0]] == NONE && forall j {:trigger P[T[j]]} :: 0 < j < |T| ==> P[T[j]] == T[j - 1]
      ensures temp.Length0 == rows && temp.Length1 == cols
      ensures forall x, y :: 0 <= x < rows && 0 <= y < cols ==> temp[x, y] == Painted(Layout(), T, Cell(x, y))
    {
      ghost var b := Layout();
      temp := CopyGrid();
      var current := end;
      ghost var k := |T|;
      while current.x != -1 && current.y != -1
        invariant 0 <= k <= |T| && (k == 0 <==> current == NONE)
        invariant k > 0 ==> current == T[k - 1]
        invariant forall x, y :: 0 <= x < rows && 0 <= y < cols ==> temp[x, y] == Painted(b, T[k..], Cell(x, y))
        decreases k
      {
        SuffixCons(T, k);
        Mark(temp, current, T[k..]);
        assert prev[current.x, current.y] == P[current];
        assert k > 1 ==> P[current] == T[k - 2] && InGrid(b, T[k - 2]);
        current := prev[current.x, current.y];
        k := k - 1;
      }
    }

    /** The copy printPath draws on. */
    method CopyGrid() returns (temp: array2<char>)
      requires Valid()
      ensures fresh(temp) && temp.Length0 == rows && temp.Length1 == cols
      ensures forall x, y :: 0 <= x < rows && 0 <= y < cols ==> temp[x, y] == grid[x][y]
    {
      temp := new char[rows, cols];
      for i := 0 to rows
        invariant forall x, y :: 0 <= x < i && 0 <= y < cols ==> temp[x, y] == grid[x][y]
      {
        for j := 0 to cols
          invariant forall x, y :: 0 <= x < i && 0 <= y < cols ==> temp[x, y] == grid[x][y]
          invariant forall y :: 0 <= y < j ==> temp[i, y] == grid[i][y]
        {
          temp[i, j] := grid[i][j];
        }
      }
    }

    /** One cell of the chain marked on the copy: the drawing of the chain
        done becomes the drawing of the chain with c in front. */
    method Mark(temp: array2<char>, c: Cell, ghost done: seq<Cell>)
      requires Valid() && temp.Length0 == rows && temp.Length1 == cols && InGrid(Layout(), c) && c !in done
      requires forall x, y :: 0 <= x < rows && 0 <= y < cols ==> temp[x, y] == Painted(Layout(), done, Cell(x, y))
      modifies temp
      ensures forall x, y :: 0 <= x < rows && 0 <= y < cols ==> temp[x, y] == Painted(Layout(), [c] + done, Cell(x, y))
    {
      if temp[c.x, c.y] != 'S' && temp[c.x, c.y] != 'E' {
        temp[c.x, c.y] := '*';
      }
    }
  }
}
