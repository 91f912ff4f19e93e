/** What the three searches of the path visualizer compute, and the state
    they keep while they run. The distance and predecessor tables are seen
    here as maps from in-grid cells; the searches themselves, which update
    the tables in place, are in GridPaths. */
module GridSearch {
  import opened Util
  import opened GridTheory
  import Graphs

  /** The "not reached" distance. */
  const INF: int := Graphs.INT_MAX

  /** M has an entry for exactly the cells of the grid. */
  ghost predicate Covers<V>(b: Board, M: map<Cell, V>) {
    forall c :: c in M <==> InGrid(b, c)
  }

  /** c hangs below its predecessor: one move away, reached, one closer. */
  ghost predicate TreeLink(b: Board, D: map<Cell, int>, P: map<Cell, Cell>, c: Cell)
    requires WellFormed(b) && Covers(b, D) && Covers(b, P) && InGrid(b, c)
  {
    InGrid(b, P[c]) && GridStep(b, P[c], c) && D[P[c]] != INF && D[c] == D[P[c]] + 1
  }

  /** The tables every search leaves behind: the start at distance 0 with no
      predecessor; every other cell either unreached (INF, no predecessor)
      or hung below a reached neighbour one move closer; and each finite
      distance is the length of some walk from the start. */
  ghost predicate SearchTree(b: Board, s: Cell, D: map<Cell, int>, P: map<Cell, Cell>)
    requires WellFormed(b)
  {
    && InGrid(b, s) && Covers(b, D) && Covers(b, P)
    && D[s] == 0 && P[s] == NONE
    && (forall c :: InGrid(b, c) ==> D[c] == INF || 0 <= D[c] < b.rows * b.cols)
    && (forall c :: InGrid(b, c) && c != s ==> (D[c] == INF <==> P[c] == NONE))
    && (forall c :: InGrid(b, c) && c != s && D[c] != INF ==> TreeLink(b, D, P, c))
    && (forall c :: InGrid(b, c) && D[c] != INF ==> WalkTakes(b, s, c, D[c]))
  }

  /** c was reached exactly when it can be reached from s. */
  ghost predicate Found(b: Board, s: Cell, D: map<Cell, int>, c: Cell)
    requires WellFormed(b) && Covers(b, D) && InGrid(b, c)
  {
    D[c] != INF <==> GridReachable(b, s, c)
  }

  /** Found, and a finite distance is the least number of moves. */
  ghost predicate Shortest(b: Board, s: Cell, D: map<Cell, int>, c: Cell)
    requires WellFormed(b) && Covers(b, D) && InGrid(b, c)
  {
    Found(b, s, D, c) && (D[c] != INF ==> NoFewerMoves(b, s, c, D[c]))
  }

  /** The search answers for the end cell; an end outside the grid is never
      met, so the search runs to completion and answers for every cell. */
  ghost predicate FindsEnd(b: Board, s: Cell, e: Cell, D: map<Cell, int>)
    requires WellFormed(b) && Covers(b, D)
  {
    && (InGrid(b, e) ==> Found(b, s, D, e))
    && (!InGrid(b, e) ==> forall c :: InGrid(b, c) ==> Found(b, s, D, c))
  }

  /** FindsEnd with least distances. */
  ghost predicate ShortestToEnd(b: Board, s: Cell, e: Cell, D: map<Cell, int>)
    requires WellFormed(b) && Covers(b, D)
  {
    && (InGrid(b, e) ==> Shortest(b, s, D, e))
    && (!InGrid(b, e) ==> forall c :: InGrid(b, c) ==> Shortest(b, s, D, c))
  }

  // ---------------------------------------------------------------------
  // The state of a running search. F is the frontier (queue, stack or
  // priority queue contents), popped the cells taken out of it so far.

  /** SearchTree while running: predecessors are popped cells. */
  ghost predicate TreeInv(b: Board, s: Cell, D: map<Cell, int>, P: map<Cell, Cell>, popped: seq<Cell>)
    requires WellFormed(b)
  {
    && InGrid(b, s) && Covers(b, D) && Covers(b, P)
    && D[s] == 0 && P[s] == NONE
    && (forall c :: InGrid(b, c) ==> D[c] == INF || 0 <= D[c])
    && (forall c :: InGrid(b, c) && c != s ==> (D[c] == INF <==> P[c] == NONE))
    && (forall c :: InGrid(b, c) && c != s && D[c] != INF ==> TreeLink(b, D, P, c) && P[c] in popped)
    && (forall c :: InGrid(b, c) && D[c] != INF ==> WalkTakes(b, s, c, D[c]))
  }

  /** Frontier and popped cells are different in-grid cells, together
      exactly the reached ones, with distances bounded by the pop count. */
  ghost predicate FrontierInv(b: Board, D: map<Cell, int>, F: seq<Cell>, popped: seq<Cell>)
    requires WellFormed(b) && Covers(b, D)
  {
    && Distinct(F) && Distinct(popped)
    && (forall c :: c in F ==> InGrid(b, c) && c !in popped && D[c] <= |popped|)
    && (forall c :: c in popped ==> InGrid(b, c) && D[c] < |popped|)
    && (forall c :: InGrid(b, c) ==> (D[c] != INF <==> c in F || c in popped))
  }

  /** The breadth-first order: frontier distances within one of the level L
      of the last pop, popped cells at most L and already shortest, and every
      neighbour of a popped cell reached at most one move further. */
  ghost predicate LevelInv(b: Board, s: Cell, D: map<Cell, int>, F: seq<Cell>, popped: seq<Cell>, L: int)
    requires WellFormed(b) && Covers(b, D) && FrontierInv(b, D, F, popped)
  {
    && (forall c :: c in F ==> L <= D[c] <= L + 1)
    && (forall c :: c in popped ==> D[c] <= L && NoFewerMoves(b, s, c, D[c]))
    && (forall x, y :: x in popped && GridStep(b, x, y) ==> D[y] != INF && D[y] <= D[x] + 1)
  }

  /** The depth-first closure: every neighbour of a popped cell is reached. */
  ghost predicate ClosedInv(b: Board, D: map<Cell, int>, popped: seq<Cell>)
    requires WellFormed(b) && Covers(b, D)
  {
    forall x, y :: x in popped && GridStep(b, x, y) ==> D[y] != INF
  }

  /** The queue of a breadth-first search is in ascending distance order. */
  ghost predicate Ascending(b: Board, D: map<Cell, int>, F: seq<Cell>)
    requires WellFormed(b) && Covers(b, D) && forall c :: c in F ==> InGrid(b, c)
  {
    forall i, j :: 0 <= i < j < |F| ==> D[F[i]] <= D[F[j]]
  }

  /** The state of a search in distance order (dijkstra_visual), with the
      frontier and popped cells no more than the grid holds. */
  ghost predicate LevelSearch(b: Board, s: Cell, D: map<Cell, int>, P: map<Cell, Cell>, F: seq<Cell>,
                              popped: seq<Cell>, L: int)
    requires WellFormed(b)
  {
    && TreeInv(b, s, D, P, popped) && FrontierInv(b, D, F, popped) && LevelInv(b, s, D, F, popped, L)
    && |popped| + |F| <= b.rows * b.cols
  }

  /** The state of bfs_visual: a search in distance order whose queue is
      ascending. */
  ghost predicate QueueSearch(b: Board, s: Cell, D: map<Cell, int>, P: map<Cell, Cell>, F: seq<Cell>,
                              popped: seq<Cell>, L: int)
    requires WellFormed(b)
  {
    LevelSearch(b, s, D, P, F, popped, L) && Ascending(b, D, F)
  }

  /** The state of dfs_visual: popped cells have all their neighbours
      reached. */
  ghost predicate DepthSearch(b: Board, s: Cell, D: map<Cell, int>, P: map<Cell, Cell>, F: seq<Cell>,
                              popped: seq<Cell>)
    requires WellFormed(b)
  {
    && TreeInv(b, s, D, P, popped) && FrontierInv(b, D, F, popped) && ClosedInv(b, D, popped)
    && |popped| + |F| <= b.rows * b.cols
  }

  /** Among the first i moves of cur, in table order, the open cells not yet
      reached: the cells a search appends when it expands cur. */
  ghost function Fresh(b: Board, D: map<Cell, int>, cur: Cell, i: int): (r: seq<Cell>)
    requires WellFormed(b) && Covers(b, D) && 0 <= i <= 4
    ensures Distinct(r)
    ensures forall c :: c in r <==> AmongFirst(cur, c, i) && Open(b, c) && D[c] == INF
  {
    if i == 0 then [] else
      var n := Move(cur, i - 1);
      var prior := Fresh(b, D, cur, i - 1);
      MovesBefore(cur, i - 1);
      if Open(b, n) && D[n] == INF then prior + [n] else prior
  }

  /** c is one of the first i moves of cur. */
  predicate AmongFirst(cur: Cell, c: Cell, i: int) {
    || (0 < i && c == Move(cur, 0)) || (1 < i && c == Move(cur, 1))
    || (2 < i && c == Move(cur, 2)) || (3 < i && c == Move(cur, 3))
  }

  /** The i-th move is none of the earlier ones, so a neighbour loop meets
      each neighbour once. */
  lemma MovesBefore(cur: Cell, i: int)
    requires 0 <= i < 4
    ensures !AmongFirst(cur, Move(cur, i), i)
    ensures forall c :: AmongFirst(cur, c, i + 1) <==> AmongFirst(cur, c, i) || c == Move(cur, i)
  {
    forall j | 0 <= j < i ensures Move(cur, j) != Move(cur, i) {
      MovesDiffer(cur, i, j);
    }
  }

  /** The fresh cells of cur are exactly its unreached neighbours. */
  lemma FreshNeighbours(b: Board, D: map<Cell, int>, cur: Cell)
    requires WellFormed(b) && Covers(b, D)
    ensures forall c :: c in Fresh(b, D, cur, 4) <==> GridStep(b, cur, c) && D[c] == INF
  {
    forall c ensures c in Fresh(b, D, cur, 4) <==> GridStep(b, cur, c) && D[c] == INF {
    }
  }

  /** The tables after expanding cur: each cell of N reached one move after
      cur with cur as predecessor, every other cell as before. */
  ghost predicate Discovered(b: Board, D: map<Cell, int>, P: map<Cell, Cell>, cur: Cell, N: seq<Cell>,
                             D': map<Cell, int>, P': map<Cell, Cell>)
    requires WellFormed(b) && Covers(b, D) && Covers(b, P) && InGrid(b, cur)
  {
    && Covers(b, D') && Covers(b, P')
    && forall c :: InGrid(b, c) ==>
         if c in N then D'[c] == D[cur] + 1 && P'[c] == cur else D'[c] == D[c] && P'[c] == P[c]
  }

  /** One turn of a neighbour loop: the i-th neighbour still holds its
      old entry, and the tables with it discovered or left alone (as Fresh
      says) are the expansion over one more move. */
  lemma DiscoverMove(b: Board, D: map<Cell, int>, P: map<Cell, Cell>, cur: Cell, i: int,
                     D': map<Cell, int>, P': map<Cell, Cell>)
    requires WellFormed(b) && Covers(b, D) && Covers(b, P) && InGrid(b, cur) && 0 <= i < 4
    requires Discovered(b, D, P, cur, Fresh(b, D, cur, i), D', P')
    ensures InGrid(b, Move(cur, i)) ==> D'[Move(cur, i)] == D[Move(cur, i)]
    ensures D[cur] != INF ==> D'[cur] == D[cur]
    ensures Fresh(b, D, cur, i + 1) ==
      if Open(b, Move(cur, i)) && D[Move(cur, i)] == INF then Fresh(b, D, cur, i) + [Move(cur, i)] else Fresh(b, D, cur, i)
    ensures Open(b, Move(cur, i)) && D[Move(cur, i)] == INF ==>
      Discovered(b, D, P, cur, Fresh(b, D, cur, i + 1), D'[Move(cur, i) := D[cur] + 1], P'[Move(cur, i) := cur])
    ensures !(Open(b, Move(cur, i)) && D[Move(cur, i)] == INF) ==>
      Discovered(b, D, P, cur, Fresh(b, D, cur, i + 1), D', P')
  {
    MovesBefore(cur, i);
    var n := Move(cur, i);
    assert Fresh(b, D, cur, i + 1) == if Open(b, n) && D[n] == INF then Fresh(b, D, cur, i) + [n] else Fresh(b, D, cur, i);
  }

  // ---------------------------------------------------------------------
  // The start of a search and one pop-and-expand step.

  /** The tables once only the start has been reached and pushed. */
  lemma Initial(b: Board, s: Cell, D: map<Cell, int>, P: map<Cell, Cell>)
    requires WellFormed(b) && InGrid(b, s) && Covers(b, D) && Covers(b, P)
    requires forall c :: InGrid(b, c) ==> D[c] == (if c == s then 0 else INF) && P[c] == NONE
    ensures TreeInv(b, s, D, P, []) && FrontierInv(b, D, [s], [])
    ensures LevelInv(b, s, D, [s], [], 0) && ClosedInv(b, D, []) && Ascending(b, D, [s])
  {
    StayPut(b, s);
  }

  /** Frontier and popped cells together are at most as many as the grid
      has cells. */
  lemma FrontierBound(b: Board, D: map<Cell, int>, F: seq<Cell>, popped: seq<Cell>)
    requires WellFormed(b) && Covers(b, D) && FrontierInv(b, D, F, popped)
    ensures Distinct(popped + F)
    ensures |popped| + |F| <= b.rows * b.cols <= MAX_SIZE * MAX_SIZE
  {
    DistinctConcat(popped, F);
    CellsBound(b, popped + F);
  }

  /** The frontier entry of least distance is already shortest: a shorter
      walk would leave the popped cells somewhere, and the cell it enters
      there would be a frontier entry closer still. */
  lemma PopIsShortest(b: Board, s: Cell, D: map<Cell, int>, P: map<Cell, Cell>,
                      F: seq<Cell>, popped: seq<Cell>, L: int, cur: Cell)
    requires WellFormed(b) && TreeInv(b, s, D, P, popped) && FrontierInv(b, D, F, popped)
    requires LevelInv(b, s, D, F, popped, L)
    requires cur in F && forall c :: c in F ==> D[cur] <= D[c]
    ensures NoFewerMoves(b, s, cur, D[cur])
  {
    forall p | GridWalkBetween(b, p, s, cur) ensures |p| - 1 >= D[cur] {
      var y := WalkEntersFrontier(b, s, D, P, F, popped, L, p);
    }
  }

  /** A walk from the start that ends outside the popped cells meets the
      frontier at a cell no farther than the walk is long. */
  lemma WalkEntersFrontier(b: Board, s: Cell, D: map<Cell, int>, P: map<Cell, Cell>,
                           F: seq<Cell>, popped: seq<Cell>, L: int, p: seq<Cell>) returns (y: Cell)
    requires WellFormed(b) && TreeInv(b, s, D, P, popped) && FrontierInv(b, D, F, popped)
    requires LevelInv(b, s, D, F, popped, L)
    requires GridWalk(b, p) && p[0] == s && p[|p| - 1] !in popped
    ensures y in F && D[y] <= |p| - 1
  {
    var inside := set c | c in popped;
    if s !in inside {
      y := s;
    } else {
      var j := FirstLeavingSet(p, inside);
      var x := p[j - 1];
      y := p[j];
      assert GridStep(b, x, y);
      assert GridWalkBetween(b, p[..j], s, x);
    }
  }

  /** One pop: the tree stays a tree over one more popped cell. */
  lemma TreePop(b: Board, s: Cell, D: map<Cell, int>, P: map<Cell, Cell>, F: seq<Cell>, popped: seq<Cell>,
                cur: Cell, D': map<Cell, int>, P': map<Cell, Cell>)
    requires WellFormed(b) && TreeInv(b, s, D, P, popped) && FrontierInv(b, D, F, popped)
    requires cur in F && Discovered(b, D, P, cur, Fresh(b, D, cur, 4), D', P')
    ensures TreeInv(b, s, D', P', popped + [cur])
  {
    var N := Fresh(b, D, cur, 4);
    FrontierBound(b, D, F, popped);
    assert InGrid(b, cur) && 0 <= D[cur] < MAX_SIZE * MAX_SIZE;
    var popped' := popped + [cur];
    forall c | InGrid(b, c) && c in N
      ensures D'[c] == D[cur] + 1 && P'[c] == cur && D'[cur] == D[cur]
      ensures GridStep(b, cur, c) && c != s
    {
      FreshNeighbours(b, D, cur);
    }
    forall c | InGrid(b, c) && c !in N
      ensures D'[c] == D[c] && P'[c] == P[c]
    {
    }
    forall c | InGrid(b, c) && c != s && D'[c] != INF
      ensures TreeLink(b, D', P', c) && P'[c] in popped'
    {
      if c !in N {
        assert P[c] in popped && InGrid(b, P[c]) && P[c] !in N;
      }
    }
    forall c | InGrid(b, c) && D'[c] != INF ensures WalkTakes(b, s, c, D'[c]) {
      if c in N {
        TakesStep(b, s, cur, c, D[cur]);
      }
    }
  }

  /** One pop: cur moves from the frontier to the popped cells, and the
      fresh cells join the frontier. */
  lemma FrontierPop(b: Board, D: map<Cell, int>, P: map<Cell, Cell>, F: seq<Cell>, popped: seq<Cell>,
                    cur: Cell, rest: seq<Cell>, D': map<Cell, int>, P': map<Cell, Cell>)
    requires WellFormed(b) && Covers(b, D) && Covers(b, P) && FrontierInv(b, D, F, popped)
    requires cur in F && Distinct(rest) && forall c :: c in rest <==> c in F && c != cur
    requires Discovered(b, D, P, cur, Fresh(b, D, cur, 4), D', P')
    ensures FrontierInv(b, D', rest + Fresh(b, D, cur, 4), popped + [cur])
  {
    var N := Fresh(b, D, cur, 4);
    FrontierBound(b, D, F, popped);
    assert InGrid(b, cur) && D[cur] <= |popped|;
    assert |F| >= 1;
    var popped', F' := popped + [cur], rest + N;
    forall c | c in N ensures InGrid(b, c) && D[c] == INF && D'[c] == D[cur] + 1 {
    }
    forall c | InGrid(b, c) && c !in N ensures D'[c] == D[c] {
    }
    DistinctConcat(rest, N);
    DistinctConcat(popped, [cur]);
    forall c | c in F' ensures InGrid(b, c) && c !in popped' && D'[c] <= |popped'| {
      if c in rest {
        assert c in F;
      }
    }
    forall c | c in popped' ensures InGrid(b, c) && D'[c] < |popped'| {
    }
    forall c | InGrid(b, c) ensures D'[c] != INF <==> c in F' || c in popped' {
    }
  }

  /** One pop of a least frontier entry keeps the breadth-first order, at
      the level of the popped cell. */
  lemma LevelPop(b: Board, s: Cell, D: map<Cell, int>, P: map<Cell, Cell>, F: seq<Cell>, popped: seq<Cell>,
                 L: int, cur: Cell, rest: seq<Cell>, D': map<Cell, int>, P': map<Cell, Cell>)
    requires WellFormed(b) && TreeInv(b, s, D, P, popped) && FrontierInv(b, D, F, popped)
    requires LevelInv(b, s, D, F, popped, L)
    requires cur in F && forall c :: c in F ==> D[cur] <= D[c]
    requires Distinct(rest) && forall c :: c in rest <==> c in F && c != cur
    requires Discovered(b, D, P, cur, Fresh(b, D, cur, 4), D', P')
    ensures FrontierInv(b, D', rest + Fresh(b, D, cur, 4), popped + [cur])
    ensures LevelInv(b, s, D', rest + Fresh(b, D, cur, 4), popped + [cur], D[cur])
  {
    FrontierPop(b, D, P, F, popped, cur, rest, D', P');
    PopIsShortest(b, s, D, P, F, popped, L, cur);
    FrontierBound(b, D, F, popped);
    var N := Fresh(b, D, cur, 4);
    var popped', F', L' := popped + [cur], rest + N, D[cur];
    assert InGrid(b, cur) && L <= D[cur] <= |popped|;
    forall c | c in N ensures InGrid(b, c) && D[c] == INF && D'[c] == D[cur] + 1 {
    }
    forall c | InGrid(b, c) && c !in N ensures D'[c] == D[c] {
    }
    forall c | c in F' ensures L' <= D'[c] <= L' + 1 {
      if c in rest {
        assert c in F;
      }
    }
    forall c | c in popped' ensures D'[c] <= L' && NoFewerMoves(b, s, c, D'[c]) {
    }
    forall x, y | x in popped' && GridStep(b, x, y) ensures D'[y] != INF && D'[y] <= D'[x] + 1 {
      assert InGrid(b, y);
      if x == cur && y !in N {
        FreshNeighbours(b, D, cur);
        assert y in F || y in popped;
      }
    }
  }

  /** One pop keeps the depth-first closure: cur's neighbours are all
      reached once it is expanded. */
  lemma ClosedPop(b: Board, D: map<Cell, int>, P: map<Cell, Cell>, popped: seq<Cell>,
                  cur: Cell, D': map<Cell, int>, P': map<Cell, Cell>)
    requires WellFormed(b) && Covers(b, D) && Covers(b, P) && InGrid(b, cur)
    requires 0 <= D[cur] < MAX_SIZE * MAX_SIZE && ClosedInv(b, D, popped)
    requires Discovered(b, D, P, cur, Fresh(b, D, cur, 4), D', P')
    ensures ClosedInv(b, D', popped + [cur])
  {
    var N := Fresh(b, D, cur, 4);
    forall x, y | x in popped + [cur] && GridStep(b, x, y) ensures D'[y] != INF {
      assert InGrid(b, y);
      if y in N {
        assert D'[y] == D[cur] + 1;
      } else if x == cur {
        FreshNeighbours(b, D, cur);
      } else {
        assert x in popped;
      }
    }
  }

  /** At a least frontier entry the priority queue's test "one more move is
      shorter" holds exactly for the unreached neighbours. */
  lemma CloserIsFresh(b: Board, s: Cell, D: map<Cell, int>, P: map<Cell, Cell>, F: seq<Cell>,
                      popped: seq<Cell>, L: int, cur: Cell)
    requires WellFormed(b) && TreeInv(b, s, D, P, popped) && FrontierInv(b, D, F, popped)
    requires LevelInv(b, s, D, F, popped, L)
    requires cur in F && forall c :: c in F ==> D[cur] <= D[c]
    ensures 0 <= D[cur] < MAX_SIZE * MAX_SIZE
    ensures forall c :: GridStep(b, cur, c) ==> (D[cur] + 1 < D[c] <==> D[c] == INF)
  {
    FrontierBound(b, D, F, popped);
  }

  /** The head of an ascending queue has the least distance in it. */
  lemma AscendingHead(b: Board, D: map<Cell, int>, F: seq<Cell>)
    requires WellFormed(b) && Covers(b, D) && |F| >= 1 && forall c :: c in F ==> InGrid(b, c)
    requires Ascending(b, D, F)
    ensures F[0] in F && forall c :: c in F ==> D[F[0]] <= D[c]
  {
    forall c | c in F ensures D[F[0]] <= D[c] {
      var k :| 0 <= k < |F| && F[k] == c;
      assert k == 0 || D[F[0]] <= D[F[k]];
    }
  }

  /** One round of bfs_visual: its queue pops the head F[0], the entry of
      least distance, and appends the fresh cells behind the rest. */
  lemma BfsPop(b: Board, s: Cell, D: map<Cell, int>, P: map<Cell, Cell>, F: seq<Cell>, popped: seq<Cell>,
               L: int, D': map<Cell, int>, P': map<Cell, Cell>)
    requires WellFormed(b) && TreeInv(b, s, D, P, popped) && FrontierInv(b, D, F, popped)
    requires LevelInv(b, s, D, F, popped, L) && Ascending(b, D, F) && |F| >= 1
    requires Discovered(b, D, P, F[0], Fresh(b, D, F[0], 4), D', P')
    ensures TreeInv(b, s, D', P', popped + [F[0]])
    ensures FrontierInv(b, D', F[1..] + Fresh(b, D, F[0], 4), popped + [F[0]])
    ensures LevelInv(b, s, D', F[1..] + Fresh(b, D, F[0], 4), popped + [F[0]], D[F[0]])
    ensures Ascending(b, D', F[1..] + Fresh(b, D, F[0], 4))
  {
    var cur, rest, N := F[0], F[1..], Fresh(b, D, F[0], 4);
    Ends(F);
    AscendingHead(b, D, F);
    TreePop(b, s, D, P, F, popped, cur, D', P');
    LevelPop(b, s, D, P, F, popped, L, cur, rest, D', P');
    AscendingPop(b, D, P, F, cur, rest, L, D', P');
  }

  /** The fresh cells, one move beyond a least entry, go behind the rest of
      an ascending queue whose entries are within one of each other. */
  lemma AscendingPop(b: Board, D: map<Cell, int>, P: map<Cell, Cell>, F: seq<Cell>, cur: Cell, rest: seq<Cell>,
                     L: int, D': map<Cell, int>, P': map<Cell, Cell>)
    requires WellFormed(b) && Covers(b, D) && Covers(b, P) && F == [cur] + rest
    requires forall c :: c in F ==> InGrid(b, c) && D[c] != INF && L <= D[c] <= L + 1
    requires Ascending(b, D, F)
    requires Discovered(b, D, P, cur, Fresh(b, D, cur, 4), D', P')
    ensures Ascending(b, D', rest + Fresh(b, D, cur, 4))
  {
    var N := Fresh(b, D, cur, 4);
    var F' := rest + N;
    forall k | 0 <= k < |rest| ensures rest[k] == F[k + 1] && D'[rest[k]] == D[rest[k]] <= D[cur] + 1 {
      assert rest[k] in F;
    }
    forall k | 0 <= k < |N| ensures InGrid(b, N[k]) && D'[N[k]] == D[cur] + 1 {
      assert N[k] in N;
    }
    forall i, j | 0 <= i < j < |F'| ensures D'[F'[i]] <= D'[F'[j]] {
      if j < |rest| {
        assert F'[i] == rest[i] && F'[j] == rest[j];
        assert D[F[i + 1]] <= D[F[j + 1]];
      } else if i < |rest| {
        assert F'[i] == rest[i] && F'[j] == N[j - |rest|];
      } else {
        assert F'[i] == N[i - |rest|] && F'[j] == N[j - |rest|];
      }
    }
  }

  /** One round of dijkstra_visual: a least entry cur leaves the priority
      queue, whose other entries are rest, and the fresh cells join it. */
  lemma DijkstraPop(b: Board, s: Cell, D: map<Cell, int>, P: map<Cell, Cell>, F: seq<Cell>, popped: seq<Cell>,
                    L: int, cur: Cell, rest: seq<Cell>, D': map<Cell, int>, P': map<Cell, Cell>)
    requires WellFormed(b) && TreeInv(b, s, D, P, popped) && FrontierInv(b, D, F, popped)
    requires LevelInv(b, s, D, F, popped, L)
    requires cur in F && forall c :: c in F ==> D[cur] <= D[c]
    requires Distinct(rest) && forall c :: c in rest <==> c in F && c != cur
    requires Discovered(b, D, P, cur, Fresh(b, D, cur, 4), D', P')
    ensures TreeInv(b, s, D', P', popped + [cur])
    ensures FrontierInv(b, D', rest + Fresh(b, D, cur, 4), popped + [cur])
    ensures LevelInv(b, s, D', rest + Fresh(b, D, cur, 4), popped + [cur], D[cur])
  {
    TreePop(b, s, D, P, F, popped, cur, D', P');
    LevelPop(b, s, D, P, F, popped, L, cur, rest, D', P');
  }

  /** One round of dfs_visual: its stack pops the top entry and pushes the
      fresh cells. */
  lemma DfsPop(b: Board, s: Cell, D: map<Cell, int>, P: map<Cell, Cell>, F: seq<Cell>, popped: seq<Cell>,
               D': map<Cell, int>, P': map<Cell, Cell>)
    requires WellFormed(b) && TreeInv(b, s, D, P, popped) && FrontierInv(b, D, F, popped)
    requires ClosedInv(b, D, popped) && |F| >= 1
    requires Discovered(b, D, P, F[|F| - 1], Fresh(b, D, F[|F| - 1], 4), D', P')
    ensures TreeInv(b, s, D', P', popped + [F[|F| - 1]])
    ensures FrontierInv(b, D', F[..|F| - 1] + Fresh(b, D, F[|F| - 1], 4), popped + [F[|F| - 1]])
    ensures ClosedInv(b, D', popped + [F[|F| - 1]])
  {
    var cur, rest := F[|F| - 1], F[..|F| - 1];
    Ends(F);
    FrontierBound(b, D, F, popped);
    assert InGrid(b, cur) && D[cur] != INF;
    assert 0 <= D[cur] <= |popped|;
    TreePop(b, s, D, P, F, popped, cur, D', P');
    FrontierPop(b, D, P, F, popped, cur, rest, D', P');
    ClosedPop(b, D, P, popped, cur, D', P');
  }

  /** Dropping the first or the last entry of a list of different cells
      removes exactly that entry. */
  lemma Ends(F: seq<Cell>)
    requires Distinct(F) && |F| >= 1
    ensures F == [F[0]] + F[1..] && F == F[..|F| - 1] + [F[|F| - 1]]
    ensures Distinct(F[1..]) && forall c :: c in F[1..] <==> c in F && c != F[0]
    ensures Distinct(F[..|F| - 1]) && forall c :: c in F[..|F| - 1] <==> c in F && c != F[|F| - 1]
  {
    assert F == [F[0]] + F[1..];
    assert F == F[..|F| - 1] + [F[|F| - 1]];
    DistinctConcat([F[0]], F[1..]);
    DistinctConcat(F[..|F| - 1], [F[|F| - 1]]);
  }

  /** Moving the last entry into slot k and dropping the last slot removes
      exactly the entry at k. */
  lemma RemoveAt(F: seq<Cell>, k: int)
    requires Distinct(F) && 0 <= k < |F|
    ensures var rest := F[k := F[|F| - 1]][..|F| - 1];
      Distinct(rest) && forall c :: c in rest <==> c in F && c != F[k]
  {
    var rest := F[k := F[|F| - 1]][..|F| - 1];
    forall c ensures c in rest <==> c in F && c != F[k] {
      if c in F && c != F[k] {
        var i :| 0 <= i < |F| && F[i] == c;
        if i == |F| - 1 { assert rest[k] == c; } else { assert rest[i] == c; }
      }
    }
  }

  // ---------------------------------------------------------------------
  // How a search ends.

  /** While running the tables already form a search tree. */
  lemma InvGivesTree(b: Board, s: Cell, D: map<Cell, int>, P: map<Cell, Cell>, F: seq<Cell>, popped: seq<Cell>)
    requires WellFormed(b) && TreeInv(b, s, D, P, popped) && FrontierInv(b, D, F, popped)
    ensures SearchTree(b, s, D, P)
  {
    FrontierBound(b, D, F, popped);
  }

  /** A pop that meets the end cell: it is shortest in breadth-first order. */
  lemma EndMetShortest(b: Board, s: Cell, D: map<Cell, int>, P: map<Cell, Cell>, F: seq<Cell>,
                       popped: seq<Cell>, L: int, e: Cell)
    requires WellFormed(b) && TreeInv(b, s, D, P, popped) && FrontierInv(b, D, F, popped)
    requires LevelInv(b, s, D, F, popped, L)
    requires e in F && forall c :: c in F ==> D[e] <= D[c]
    ensures SearchTree(b, s, D, P) && ShortestToEnd(b, s, e, D)
  {
    InvGivesTree(b, s, D, P, F, popped);
    PopIsShortest(b, s, D, P, F, popped, L, e);
    TakesReachable(b, s, e, D[e]);
  }

  /** A pop that meets the end cell: it is reached. */
  lemma EndMet(b: Board, s: Cell, D: map<Cell, int>, P: map<Cell, Cell>, F: seq<Cell>, popped: seq<Cell>, e: Cell)
    requires WellFormed(b) && TreeInv(b, s, D, P, popped) && FrontierInv(b, D, F, popped)
    requires e in F
    ensures SearchTree(b, s, D, P) && FindsEnd(b, s, e, D)
  {
    InvGivesTree(b, s, D, P, F, popped);
    TakesReachable(b, s, e, D[e]);
  }

  /** The popped cells of a finished search are closed under moves, so
      every reachable cell was reached. */
  lemma ExhaustedFinds(b: Board, s: Cell, D: map<Cell, int>, P: map<Cell, Cell>, popped: seq<Cell>, c: Cell)
    requires WellFormed(b) && TreeInv(b, s, D, P, popped) && FrontierInv(b, D, [], popped)
    requires ClosedInv(b, D, popped) && InGrid(b, c)
    ensures Found(b, s, D, c)
  {
    var inside := set x | x in popped;
    if GridReachable(b, s, c) {
      ClosedHoldsReachable(b, inside, s, c);
    }
    if D[c] != INF {
      TakesReachable(b, s, c, D[c]);
    }
  }

  /** A depth-first search whose stack ran empty reached every reachable
      cell. */
  lemma Exhausted(b: Board, s: Cell, e: Cell, D: map<Cell, int>, P: map<Cell, Cell>, popped: seq<Cell>)
    requires WellFormed(b) && TreeInv(b, s, D, P, popped) && FrontierInv(b, D, [], popped)
    requires ClosedInv(b, D, popped)
    ensures SearchTree(b, s, D, P) && FindsEnd(b, s, e, D)
  {
    InvGivesTree(b, s, D, P, [], popped);
    forall c | InGrid(b, c) ensures Found(b, s, D, c) {
      ExhaustedFinds(b, s, D, P, popped, c);
    }
  }

  /** A breadth-first search whose frontier ran empty found every reachable
      cell at its least distance. */
  lemma LevelExhausted(b: Board, s: Cell, e: Cell, D: map<Cell, int>, P: map<Cell, Cell>, popped: seq<Cell>, L: int)
    requires WellFormed(b) && TreeInv(b, s, D, P, popped) && FrontierInv(b, D, [], popped)
    requires LevelInv(b, s, D, [], popped, L)
    ensures SearchTree(b, s, D, P) && ShortestToEnd(b, s, e, D)
  {
    InvGivesTree(b, s, D, P, [], popped);
    forall c | InGrid(b, c) ensures Shortest(b, s, D, c) {
      ExhaustedFinds(b, s, D, P, popped, c);
    }
  }

  // ---------------------------------------------------------------------
  // printPath.

  /** The cells printPath visits: from c back along the predecessors until
      a cell that has none, listed from that cell to c. */
  ghost function Trail(b: Board, s: Cell, D: map<Cell, int>, P: map<Cell, Cell>, c: Cell): seq<Cell>
    requires WellFormed(b) && SearchTree(b, s, D, P) && InGrid(b, c)
    decreases D[c]
  {
    if P[c] == NONE then [c] else Trail(b, s, D, P, P[c]) + [c]
  }

  /** One step back along a trail: to the predecessor, which is reached
      one move earlier, or nowhere. */
  lemma TrailBack(b: Board, s: Cell, D: map<Cell, int>, P: map<Cell, Cell>, c: Cell)
    requires WellFormed(b) && SearchTree(b, s, D, P) && InGrid(b, c)
    ensures P[c] == NONE ==> Trail(b, s, D, P, c) == [c]
    ensures P[c] != NONE ==>
      && InGrid(b, P[c]) && 0 <= D[P[c]] && D[c] == D[P[c]] + 1 < INF
      && Trail(b, s, D, P, c) == Trail(b, s, D, P, P[c]) + [c]
  {
    if P[c] != NONE {
      assert c != s && D[c] != INF;
      assert TreeLink(b, D, P, c);
      assert D[c] < b.rows * b.cols;
      CellsBound(b, []);
    }
  }

  /** The trail of a reached cell is a walk from the start of exactly its
      distance (so a shortest one when the distances are least); an
      unreached cell's trail is the cell alone. */
  lemma {:induction false} TrailWalk(b: Board, s: Cell, D: map<Cell, int>, P: map<Cell, Cell>, c: Cell)
    requires WellFormed(b) && SearchTree(b, s, D, P) && InGrid(b, c)
    ensures D[c] == INF ==> Trail(b, s, D, P, c) == [c]
    ensures D[c] != INF ==>
      GridWalkBetween(b, Trail(b, s, D, P, c), s, c) && |Trail(b, s, D, P, c)| == D[c] + 1
    decreases D[c]
  {
    if P[c] != NONE {
      var u := P[c];
      TrailWalk(b, s, D, P, u);
      var t := Trail(b, s, D, P, u);
      assert t[|t| - 1] == u && GridStep(b, u, c);
      assert Trail(b, s, D, P, c) == t + [c];
    }
  }

  /** The trail of c as printPath follows it: it ends at c, each entry
      after the first is the predecessor's successor, the first has no
      predecessor, and no cell appears twice (distances rise along it). */
  lemma {:induction false} TrailLinks(b: Board, s: Cell, D: map<Cell, int>, P: map<Cell, Cell>, c: Cell)
    requires WellFormed(b) && SearchTree(b, s, D, P) && InGrid(b, c)
    ensures |Trail(b, s, D, P, c)| >= 1 && Trail(b, s, D, P, c)[|Trail(b, s, D, P, c)| - 1] == c
    ensures forall j :: 0 <= j < |Trail(b, s, D, P, c)| ==> InGrid(b, Trail(b, s, D, P, c)[j])
    ensures P[Trail(b, s, D, P, c)[0]] == NONE
    ensures forall j :: 0 < j < |Trail(b, s, D, P, c)| ==> P[Trail(b, s, D, P, c)[j]] == Trail(b, s, D, P, c)[j - 1]
    ensures forall j :: 0 <= j < |Trail(b, s, D, P, c)| - 1 ==> D[Trail(b, s, D, P, c)[j]] < D[c]
    ensures Distinct(Trail(b, s, D, P, c))
    decreases D[c]
  {
    TrailBack(b, s, D, P, c);
    if P[c] != NONE {
      var u := P[c];
      TrailLinks(b, s, D, P, u);
      var t := Trail(b, s, D, P, u);
      var T := t + [c];
      assert Trail(b, s, D, P, c) == T;
      forall j | 0 <= j < |T| - 1
        ensures D[T[j]] < D[c]
      {
        assert T[j] == t[j];
      }
      forall j | 0 < j < |T|
        ensures P[T[j]] == T[j - 1]
      {
      }
      forall i, j | 0 <= i < j < |T|
        ensures T[i] != T[j]
      {
        if j == |T| - 1 {
          assert D[T[i]] < D[c];
        } else {
          assert T[i] == t[i] && T[j] == t[j];
        }
      }
    }
  }

  /** How printPath shows cell c: a trail cell as '*', except the start and
      end marks 'S' and 'E', which stay. */
  ghost function Painted(b: Board, trail: seq<Cell>, c: Cell): char
    requires WellFormed(b) && InGrid(b, c)
  {
    if c in trail && At(b, c) != 'S' && At(b, c) != 'E' then '*' else At(b, c)
  }
}
