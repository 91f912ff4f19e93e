/** Shortest paths of logic.c: Dijkstra's algorithm over the unweighted
    directed graph (every edge weighs one), with INT_MAX standing for an
    infinite distance and -1 for "no predecessor", and the recursive printer
    that follows the predecessor links back to the start. */
module ShortestPath {
  import opened Util
  import opened GraphTheory
  import opened Graphs

  /** Some directed walk from s to v uses exactly d edges. */
  ghost predicate WalkOfLength(m: Matrix, s: int, v: int, d: int)
    requires Square(m)
  {
    exists p :: WalkBetween(m, p, s, v, false) && |p| == d + 1
  }

  /** No directed walk from s to v uses fewer than d edges. */
  ghost predicate NoShorterWalk(m: Matrix, s: int, v: int, d: int)
    requires Square(m)
  {
    forall p :: WalkBetween(m, p, s, v, false) ==> |p| - 1 >= d
  }

  /** d is the distance from s to v in the library's encoding: INT_MAX
      exactly when v cannot be reached, otherwise the number of edges of a
      shortest directed walk. */
  ghost predicate IsDistance(m: Matrix, s: int, v: int, d: int)
    requires Square(m)
  {
    && (d != INT_MAX <==> Reachable(m, s, v, false))
    && (d != INT_MAX ==> WalkOfLength(m, s, v, d) && NoShorterWalk(m, s, v, d))
  }

  /** The shape of what the search returns: the start at distance 0 with no
      predecessor; every other node either unreached (INT_MAX, -1) or reached
      from its predecessor along an edge, one step further away; and every
      finite distance is the length of an actual walk. */
  ghost predicate ShortestPathTree(m: Matrix, s: int, dist: seq<int>, pred: seq<int>)
    requires Square(m)
  {
    && |dist| == |m| && |pred| == |m| && 0 <= s < |m|
    && dist[s] == 0 && pred[s] == -1
    && (forall v :: 0 <= v < |m| ==> dist[v] == INT_MAX || 0 <= dist[v] < |m|)
    && (forall v :: 0 <= v < |m| && v != s ==> (dist[v] == INT_MAX <==> pred[v] == -1))
    && (forall v :: 0 <= v < |m| && v != s && dist[v] != INT_MAX ==>
          0 <= pred[v] < |m| && m[pred[v]][v] && dist[pred[v]] != INT_MAX && dist[v] == dist[pred[v]] + 1)
    && (forall v :: 0 <= v < |m| && dist[v] != INT_MAX ==> WalkOfLength(m, s, v, dist[v]))
  }

  /** A walk of d edges to u followed by the edge u -> v. */
  lemma WalkExtends(m: Matrix, s: int, u: int, v: int, d: int)
    requires Square(m) && WalkOfLength(m, s, u, d) && 0 <= u < |m| && 0 <= v < |m| && m[u][v]
    ensures WalkOfLength(m, s, v, d + 1)
  {
    var p :| WalkBetween(m, p, s, u, false) && |p| == d + 1;
    WalkAppend(m, p, v, false);
    assert WalkBetween(m, p + [v], s, v, false);
  }

  /** The shape part of the state of the search: the tree shape, with every
      predecessor already visited. */
  ghost predicate TreeInv(m: Matrix, s: int, dist: seq<int>, pred: seq<int>, visited: seq<bool>)
    requires Square(m)
  {
    && |dist| == |m| && |pred| == |m| && |visited| == |m| && 0 <= s < |m| && |m| < INT_MAX
    && dist[s] == 0 && pred[s] == -1
    && (forall v :: 0 <= v < |m| ==> 0 <= dist[v] <= INT_MAX)
    && (forall v :: 0 <= v < |m| && v != s ==> (dist[v] == INT_MAX <==> pred[v] == -1))
    && (forall v :: 0 <= v < |m| && v != s && dist[v] != INT_MAX ==>
          0 <= pred[v] < |m| && visited[pred[v]] && m[pred[v]][v] && dist[v] == dist[pred[v]] + 1)
    && (forall v :: 0 <= v < |m| && dist[v] != INT_MAX ==> WalkOfLength(m, s, v, dist[v]))
  }

  /** The ordering part of the state of the search. `settled` lists the
      visited nodes in the order they were taken; visited nodes carry their
      final, shortest distance; distances never decrease from visited to
      unvisited nodes, and every edge out of a visited node has been relaxed. */
  ghost predicate OrderInv(m: Matrix, s: int, dist: seq<int>, visited: seq<bool>, settled: seq<int>)
    requires Square(m) && |dist| == |m| && |visited| == |m|
  {
    && Distinct(settled) && AllBelow(settled, |m|) && |settled| <= |m|
    && (forall v :: 0 <= v < |m| ==> (visited[v] <==> v in settled))
    && (forall v :: 0 <= v < |m| && visited[v] ==> dist[v] < |settled| && NoShorterWalk(m, s, v, dist[v]))
    && (forall v :: 0 <= v < |m| && !visited[v] && dist[v] != INT_MAX ==> dist[v] <= |settled|)
    && (forall x, y :: 0 <= x < |m| && 0 <= y < |m| && visited[x] && !visited[y] ==> dist[x] <= dist[y])
    && (forall x, y :: 0 <= x < |m| && 0 <= y < |m| && visited[x] && !visited[y] && m[x][y] ==>
          dist[y] <= dist[x] + 1)
  }

  /** The state of the search between two rounds. */
  ghost predicate DijkstraInv(m: Matrix, s: int, dist: seq<int>, pred: seq<int>, visited: seq<bool>, settled: seq<int>)
    requires Square(m)
  {
    TreeInv(m, s, dist, pred, visited) && OrderInv(m, s, dist, visited, settled)
  }

  /** What the search promises on return, for a given end node. */
  ghost predicate DijkstraOutcome(m: Matrix, s: int, end: int, dist: seq<int>, pred: seq<int>)
    requires Square(m)
  {
    && ShortestPathTree(m, s, dist, pred)
    && (0 <= end < |m| ==> IsDistance(m, s, end, dist[end]))
    && (!(0 <= end < |m|) ==> forall v :: 0 <= v < |m| ==> IsDistance(m, s, v, dist[v]))
  }

  /** One relaxation round from u, as the inner loop performs it: v gets
      distance dist[u] + 1 and predecessor u exactly when u -> v is an edge,
      v is unvisited, u has a finite distance and the new distance is
      strictly smaller; every other entry stays. */
  ghost predicate RelaxedFrom(m: Matrix, u: int, dist: seq<int>, pred: seq<int>, visited: seq<bool>,
                              dist': seq<int>, pred': seq<int>)
    requires Square(m) && 0 <= u < |m| && |dist| == |m| && |pred| == |m| && |visited| == |m|
  {
    && |dist'| == |m| && |pred'| == |m|
    && forall v :: 0 <= v < |m| ==>
         if m[u][v] && !visited[v] && dist[u] != INT_MAX && dist[u] + 1 < dist[v]
         then dist'[v] == dist[u] + 1 && pred'[v] == u
         else dist'[v] == dist[v] && pred'[v] == pred[v]
  }

  /** Before the first round only the start has a distance. */
  lemma InitialState(m: Matrix, s: int, dist: seq<int>, pred: seq<int>, visited: seq<bool>)
    requires Square(m) && 0 <= s < |m| && |m| < INT_MAX
    requires |dist| == |m| && |pred| == |m| && |visited| == |m|
    requires forall v :: 0 <= v < |m| ==> dist[v] == (if v == s then 0 else INT_MAX) && pred[v] == -1 && !visited[v]
    ensures DijkstraInv(m, s, dist, pred, visited, [])
  {
    assert WalkBetween(m, [s], s, s, false);
  }

  /** The unvisited node of least distance already has its shortest
      distance: a shorter walk would have to leave the visited nodes through
      a relaxed edge, reaching an unvisited node that is nearer still. */
  lemma SelectedIsShortest(m: Matrix, s: int, dist: seq<int>, pred: seq<int>, visited: seq<bool>, settled: seq<int>, u: int)
    requires Square(m) && DijkstraInv(m, s, dist, pred, visited, settled)
    requires 0 <= u < |m| && !visited[u] && dist[u] != INT_MAX
    requires forall j :: 0 <= j < |m| && !visited[j] ==> dist[u] <= dist[j]
    ensures NoShorterWalk(m, s, u, dist[u])
  {
    forall p | WalkBetween(m, p, s, u, false) ensures |p| - 1 >= dist[u] {
      WalkNoShorter(m, s, dist, pred, visited, settled, u, p);
    }
  }

  /** One walk from s to the selected node u: where it leaves the visited
      nodes it has already taken at least dist[u] steps. */
  lemma WalkNoShorter(m: Matrix, s: int, dist: seq<int>, pred: seq<int>, visited: seq<bool>, settled: seq<int>,
                      u: int, p: seq<int>)
    requires Square(m) && DijkstraInv(m, s, dist, pred, visited, settled)
    requires 0 <= u < |m| && !visited[u] && dist[u] != INT_MAX
    requires forall j :: 0 <= j < |m| && !visited[j] ==> dist[u] <= dist[j]
    requires WalkBetween(m, p, s, u, false)
    ensures |p| - 1 >= dist[u]
  {
    if visited[s] {
      var j := FirstLeaving(p, visited);
      var x, y := p[j - 1], p[j];
      assert WalkBetween(m, p[..j], s, x, false);
      assert dist[x] <= j - 1;
      assert Step(m, x, y, false);
      assert dist[u] <= dist[y] <= dist[x] + 1;
    } else {
      assert u == s;
    }
  }

  /** Settling u and relaxing its edges keeps the tree shape. */
  lemma SettleTree(m: Matrix, s: int, dist: seq<int>, pred: seq<int>, visited: seq<bool>, u: int,
                   dist': seq<int>, pred': seq<int>)
    requires Square(m) && TreeInv(m, s, dist, pred, visited)
    requires 0 <= u < |m| && !visited[u] && dist[u] != INT_MAX
    requires RelaxedFrom(m, u, dist, pred, visited[u := true], dist', pred')
    ensures TreeInv(m, s, dist', pred', visited[u := true])
  {
    forall v | 0 <= v < |m| && dist'[v] != INT_MAX ensures WalkOfLength(m, s, v, dist'[v]) {
      if dist'[v] != dist[v] {
        WalkExtends(m, s, u, v, dist[u]);
      }
    }
  }

  /** Settling the unvisited node u of least distance and relaxing its edges
      keeps the ordering. */
  lemma SettleOrder(m: Matrix, s: int, dist: seq<int>, pred: seq<int>, visited: seq<bool>, settled: seq<int>, u: int,
                    dist': seq<int>, pred': seq<int>)
    requires Square(m) && DijkstraInv(m, s, dist, pred, visited, settled)
    requires 0 <= u < |m| && !visited[u] && dist[u] != INT_MAX
    requires forall j :: 0 <= j < |m| && !visited[j] ==> dist[u] <= dist[j]
    requires RelaxedFrom(m, u, dist, pred, visited[u := true], dist', pred')
    ensures OrderInv(m, s, dist', visited[u := true], settled + [u])
  {
    var vis', settled' := visited[u := true], settled + [u];
    SelectedIsShortest(m, s, dist, pred, visited, settled, u);
    assert u !in settled;
    forall v | 0 <= v < |m| ensures vis'[v] <==> v in settled' {
      assert v in settled' <==> v in settled || v == u;
    }
    assert Distinct(settled');
    DistinctBelowBound(settled', |m|);
    forall v | 0 <= v < |m| && vis'[v]
      ensures dist'[v] == dist[v] && dist'[v] < |settled'| && NoShorterWalk(m, s, v, dist'[v])
    {
    }
    forall v | 0 <= v < |m| && !vis'[v] && dist'[v] != INT_MAX
      ensures dist[u] <= dist'[v] <= |settled'|
    {
    }
    forall x, y | 0 <= x < |m| && 0 <= y < |m| && vis'[x] && !vis'[y] && m[x][y]
      ensures dist'[y] <= dist'[x] + 1
    {
      if x != u {
        assert dist'[y] <= dist[y] <= dist[x] + 1;
      }
    }
  }

  /** Settling u and relaxing its edges keeps the invariant. */
  lemma SettleStep(m: Matrix, s: int, dist: seq<int>, pred: seq<int>, visited: seq<bool>, settled: seq<int>, u: int,
                   dist': seq<int>, pred': seq<int>)
    requires Square(m) && DijkstraInv(m, s, dist, pred, visited, settled)
    requires 0 <= u < |m| && !visited[u] && dist[u] != INT_MAX
    requires forall j :: 0 <= j < |m| && !visited[j] ==> dist[u] <= dist[j]
    requires RelaxedFrom(m, u, dist, pred, visited[u := true], dist', pred')
    ensures DijkstraInv(m, s, dist', pred', visited[u := true], settled + [u])
  {
    SettleTree(m, s, dist, pred, visited, u, dist', pred');
    SettleOrder(m, s, dist, pred, visited, settled, u, dist', pred');
  }

  /** Whatever the state of the search, the tree shape holds. */
  lemma InvGivesTree(m: Matrix, s: int, dist: seq<int>, pred: seq<int>, visited: seq<bool>, settled: seq<int>)
    requires Square(m) && DijkstraInv(m, s, dist, pred, visited, settled)
    ensures ShortestPathTree(m, s, dist, pred)
  {
    forall v | 0 <= v < |m| && dist[v] != INT_MAX ensures dist[v] < |m| {
      if !visited[v] {
        DistinctBelowBound(settled, |m|);
      }
    }
  }

  /** When every unvisited node has infinite distance the visited nodes are
      closed under edges, so they are exactly the reachable ones and every
      distance is final. */
  lemma Exhausted(m: Matrix, s: int, dist: seq<int>, pred: seq<int>, visited: seq<bool>, settled: seq<int>)
    requires Square(m) && DijkstraInv(m, s, dist, pred, visited, settled)
    requires forall v :: 0 <= v < |m| && !visited[v] ==> dist[v] == INT_MAX
    ensures forall v :: 0 <= v < |m| ==> IsDistance(m, s, v, dist[v])
  {
    var closed := set v | v in settled;
    forall x, y | x in closed && Step(m, x, y, false) ensures y in closed {
      assert visited[x];
    }
    forall v | 0 <= v < |m| ensures IsDistance(m, s, v, dist[v]) {
      if Reachable(m, s, v, false) {
        ClosedSetHoldsReachable(m, closed, s, v, false);
      }
      if dist[v] != INT_MAX {
        var p :| WalkBetween(m, p, s, v, false) && |p| == dist[v] + 1;
      }
    }
  }

  /** The selection scan: the unvisited node of least finite distance,
      the lowest-numbered one among ties, or -1 when every unvisited node
      is at distance INT_MAX. */
  method SelectMin(dist: array<int>, visited: array<bool>) returns (u: int)
    requires dist.Length == visited.Length
    ensures u == -1 ==> forall j :: 0 <= j < dist.Length && !visited[j] ==> dist[j] >= INT_MAX
    ensures u != -1 ==> 0 <= u < dist.Length && !visited[u] && dist[u] < INT_MAX
    ensures u != -1 ==> forall j :: 0 <= j < dist.Length && !visited[j] ==> dist[u] <= dist[j]
    ensures u != -1 ==> forall j :: 0 <= j < u && !visited[j] ==> dist[u] < dist[j]
  {
    var minDist := INT_MAX;
    u := -1;
    for j := 0 to dist.Length
      invariant u == -1 ==> minDist == INT_MAX
      invariant u != -1 ==> 0 <= u < j && !visited[u] && minDist == dist[u] < INT_MAX
      invariant forall k :: 0 <= k < j && !visited[k] ==> minDist <= dist[k]
      invariant u != -1 ==> forall k :: 0 <= k < u && !visited[k] ==> dist[u] < dist[k]
    {
      if !visited[j] && dist[j] < minDist {
        minDist := dist[j];
        u := j;
      }
    }
  }

  /** The relaxation loop over the edges out of u; the ghost sequences
      follow the arrays. */
  method Relax(g: Graph, u: nat, dist: array<int>, pred: array<int>, visited: array<bool>,
               ghost D: seq<int>, ghost P: seq<int>, ghost V: seq<bool>)
    returns (ghost D': seq<int>, ghost P': seq<int>)
    requires g.Valid() && u < g.numnodes && dist != pred
    requires Mirrors(dist, D) && Mirrors(pred, P) && Mirrors(visited, V)
    requires |D| == g.numnodes && |P| == g.numnodes && |V| == g.numnodes && V[u]
    modifies dist, pred
    ensures Mirrors(dist, D') && Mirrors(pred, P')
    ensures RelaxedFrom(g.Adj(), u, D, P, V, D', P')
  {
    ghost var m := g.Adj();
    D', P' := D, P;
    for v := 0 to g.numnodes
      invariant Mirrors(dist, D') && Mirrors(pred, P') && |D'| == |D| && |P'| == |P|
      invariant D'[u] == D[u]
      invariant forall w :: 0 <= w < g.numnodes ==>
                  if w < v && m[u][w] && !V[w] && D[u] != INT_MAX && D[u] + 1 < D[w]
                  then D'[w] == D[u] + 1 && P'[w] == u
                  else D'[w] == D[w] && P'[w] == P[w]
    {
      if g.edges[u, v] && !visited[v] && dist[u] != INT_MAX && dist[u] + 1 < dist[v] {
        dist[v] := dist[u] + 1;
        pred[v] := u;
        D', P' := D'[v := dist[v]], P'[v := u];
      }
    }
  }

  /** After n rounds every node is visited, so every distance is final. */
  lemma AllSettled(m: Matrix, s: int, end: int, dist: seq<int>, pred: seq<int>, visited: seq<bool>, settled: seq<int>)
    requires Square(m) && DijkstraInv(m, s, dist, pred, visited, settled) && |settled| == |m|
    ensures DijkstraOutcome(m, s, end, dist, pred)
  {
    forall v | 0 <= v < |m| ensures visited[v] {
      if !visited[v] {
        DistinctBelowBound(settled, |m|);
      }
    }
    Exhausted(m, s, dist, pred, visited, settled);
    InvGivesTree(m, s, dist, pred, visited, settled);
  }

  /** The search stopping because no unvisited node is reachable ends with
      every distance exact. */
  lemma ExhaustedOutcome(m: Matrix, s: int, end: int, dist: seq<int>, pred: seq<int>, visited: seq<bool>, settled: seq<int>)
    requires Square(m) && DijkstraInv(m, s, dist, pred, visited, settled)
    requires forall v :: 0 <= v < |m| && !visited[v] ==> dist[v] == INT_MAX
    ensures DijkstraOutcome(m, s, end, dist, pred)
  {
    Exhausted(m, s, dist, pred, visited, settled);
    InvGivesTree(m, s, dist, pred, visited, settled);
  }

  /** The search stopping at the selected node u has u's distance exact. */
  lemma SelectedOutcome(m: Matrix, s: int, dist: seq<int>, pred: seq<int>, visited: seq<bool>, settled: seq<int>, u: int)
    requires Square(m) && DijkstraInv(m, s, dist, pred, visited, settled)
    requires 0 <= u < |m| && !visited[u] && dist[u] != INT_MAX
    requires forall j :: 0 <= j < |m| && !visited[j] ==> dist[u] <= dist[j]
    ensures DijkstraOutcome(m, s, u, dist, pred)
  {
    SelectedIsShortest(m, s, dist, pred, visited, settled, u);
    InvGivesTree(m, s, dist, pred, visited, settled);
    assert WalkOfLength(m, s, u, dist[u]);
  }

  /** One round of the outer loop: select the nearest unvisited node; stop
      when there is none or it is end, otherwise visit it and relax its
      edges. The ghost sequences follow the arrays. */
  method Round(g: Graph, start: nat, end: int, dist: array<int>, pred: array<int>, visited: array<bool>,
               ghost D: seq<int>, ghost P: seq<int>, ghost V: seq<bool>, ghost settled: seq<int>)
    returns (stop: bool, ghost D': seq<int>, ghost P': seq<int>, ghost V': seq<bool>, ghost settled': seq<int>)
    requires g.Valid() && dist != pred
    requires Mirrors(dist, D) && Mirrors(pred, P) && Mirrors(visited, V)
    requires DijkstraInv(g.Adj(), start, D, P, V, settled)
    modifies dist, pred, visited
    ensures Mirrors(dist, D') && Mirrors(pred, P') && Mirrors(visited, V')
    ensures stop ==> DijkstraOutcome(g.Adj(), start, end, D', P')
    ensures !stop ==> DijkstraInv(g.Adj(), start, D', P', V', settled')
    ensures !stop ==> |settled'| == |settled| + 1
  {
    ghost var m := g.Adj();
    D', P', V', settled' := D, P, V, settled;
    var u := SelectMin(dist, visited);
    if u == -1 {
      ExhaustedOutcome(m, start, end, D, P, V, settled);
      return true, D', P', V', settled';
    }
    if u == end {
      visited[u] := true;
      V' := V[u := true];
      SelectedOutcome(m, start, D, P, V, settled, u);
      return true, D', P', V', settled';
    }
    D', P', V', settled' := Settle(g, start, u, dist, pred, visited, D, P, V, settled);
    stop := false;
  }

  /** The rest of a round that does not stop: u is visited and its edges
      relaxed. */
  method Settle(g: Graph, start: nat, u: nat, dist: array<int>, pred: array<int>, visited: array<bool>,
                ghost D: seq<int>, ghost P: seq<int>, ghost V: seq<bool>, ghost settled: seq<int>)
    returns (ghost D': seq<int>, ghost P': seq<int>, ghost V': seq<bool>, ghost settled': seq<int>)
    requires g.Valid() && dist != pred
    requires Mirrors(dist, D) && Mirrors(pred, P) && Mirrors(visited, V)
    requires DijkstraInv(g.Adj(), start, D, P, V, settled)
    requires u < |D| && !V[u] && D[u] != INT_MAX
    requires forall j :: 0 <= j < |D| && !V[j] ==> D[u] <= D[j]
    modifies dist, pred, visited
    ensures Mirrors(dist, D') && Mirrors(pred, P') && Mirrors(visited, V')
    ensures DijkstraInv(g.Adj(), start, D', P', V', settled') && |settled'| == |settled| + 1
  {
    visited[u] := true;
    V' := V[u := true];
    D', P' := Relax(g, u, dist, pred, visited, D, P, V');
    SettleStep(g.Adj(), start, D, P, V, settled, u, D', P');
    settled' := settled + [u];
  }

  /** The outer loop of at most n rounds, from the initial state. */
  method Rounds(g: Graph, start: nat, end: int, dist: array<int>, pred: array<int>, visited: array<bool>,
                ghost D: seq<int>, ghost P: seq<int>, ghost V: seq<bool>)
    returns (ghost D': seq<int>, ghost P': seq<int>)
    requires g.Valid() && dist != pred
    requires Mirrors(dist, D) && Mirrors(pred, P) && Mirrors(visited, V)
    requires DijkstraInv(g.Adj(), start, D, P, V, [])
    modifies dist, pred, visited
    ensures Mirrors(dist, D') && Mirrors(pred, P')
    ensures DijkstraOutcome(g.Adj(), start, end, D', P')
  {
    ghost var m := g.Adj();
    ghost var V', settled: seq<int> := V, [];
    D', P' := D, P;
    var stop := false;
    for i := 0 to g.numnodes
      invariant Mirrors(dist, D') && Mirrors(pred, P') && Mirrors(visited, V') && g.Adj() == m
      invariant stop ==> DijkstraOutcome(m, start, end, D', P')
      invariant !stop ==> |settled| == i && DijkstraInv(m, start, D', P', V', settled)
    {
      if !stop {
        stop, D', P', V', settled := Round(g, start, end, dist, pred, visited, D', P', V', settled);
      }
    }
    if !stop {
      AllSettled(m, start, end, D', P', V', settled);
    }
  }

  /** shortest_path_dijkstra: the distances and predecessors from start.
      The result always has the tree shape. The distance of end is exact;
      when end is not a node (the library passes -1), the search never stops
      early and every distance is exact. */
  method Dijkstra(g: Graph, start: nat, end: int) returns (distances: seq<int>, predecessors: seq<int>)
    requires g.Valid() && start < g.numnodes && g.numnodes < INT_MAX
    ensures ShortestPathTree(g.Adj(), start, distances, predecessors)
    ensures 0 <= end < g.numnodes ==> IsDistance(g.Adj(), start, end, distances[end])
    ensures !(0 <= end < g.numnodes) ==>
              forall v :: 0 <= v < g.numnodes ==> IsDistance(g.Adj(), start, v, distances[v])
  {
    var n := g.numnodes;
    var dist := new int[n](_ => INT_MAX);
    var pred := new int[n](_ => -1);
    var visited := new bool[n](_ => false);
    dist[start] := 0;
    InitialState(g.Adj(), start, dist[..], pred[..], visited[..]);
    ghost var D, P := Rounds(g, start, end, dist, pred, visited, dist[..], pred[..], visited[..]);
    distances, predecessors := dist[..], pred[..];
    assert distances == D && predecessors == P;
  }

  /** One item print_path writes: a node number, or the "No path" message. */
  datatype PathToken = NodeId(id: int) | NoPath

  /** The tokens naming the nodes of p in order. */
  function NodeIds(p: seq<int>): (t: seq<PathToken>)
    ensures |t| == |p| && forall i :: 0 <= i < |p| ==> t[i] == NodeId(p[i])
  {
    if p == [] then [] else NodeIds(p[..|p| - 1]) + [NodeId(p[|p| - 1])]
  }

  /** Following a predecessor link leads to a strictly nearer node, so the
      printer's recursion ends; `dist` is a ghost measure. */
  ghost predicate PredDescends(pred: seq<int>, dist: seq<int>, start: int)
  {
    && |dist| == |pred|
    && forall v :: 0 <= v < |pred| && v != start && pred[v] != -1 ==>
         0 <= pred[v] < |pred| && 0 <= dist[pred[v]] < dist[v]
  }

  /** print_path: the start alone when end is the start, "No path" when end
      has no predecessor, otherwise the path to the predecessor followed by
      end itself. When no "No path" is printed, the ids run from start to end
      and each one's predecessor is the id printed before it. */
  function PrintPath(pred: seq<int>, start: int, end: int, ghost dist: seq<int>): (out: seq<PathToken>)
    requires 0 <= end < |pred| && PredDescends(pred, dist, start)
    ensures out == [NoPath] <==> end != start && pred[end] == -1
    ensures out != [NoPath] ==> |out| >= 1 && out[|out| - 1] == NodeId(end)
    ensures NoPath !in out ==>
              && out[0] == NodeId(start)
              && forall k :: 0 < k < |out| ==>
                   out[k].NodeId? && 0 <= out[k].id < |pred| && out[k].id != start && pred[out[k].id] == out[k - 1].id
    decreases dist[end]
  {
    if end == start then [NodeId(start)]
    else if pred[end] == -1 then [NoPath]
    else PrintPath(pred, start, pred[end], dist) + [NodeId(end)]
  }

  /** The tree shape lets the printer run. */
  lemma TreeDescends(m: Matrix, s: int, dist: seq<int>, pred: seq<int>)
    requires Square(m) && ShortestPathTree(m, s, dist, pred)
    ensures PredDescends(pred, dist, s)
  {
  }

  /** On the output of the search, the printer writes the nodes of a
      directed walk from start to end with exactly dist[end] edges (a
      shortest one, when dist[end] is exact), and "No path" alone when end
      was not reached. */
  lemma {:induction false} PrintedWalk(m: Matrix, start: int, dist: seq<int>, pred: seq<int>, end: int)
    returns (p: seq<int>)
    requires Square(m) && ShortestPathTree(m, start, dist, pred) && 0 <= end < |m|
    requires PredDescends(pred, dist, start)
    ensures dist[end] == INT_MAX ==> PrintPath(pred, start, end, dist) == [NoPath]
    ensures dist[end] != INT_MAX ==>
              WalkBetween(m, p, start, end, false) && |p| == dist[end] + 1 &&
              PrintPath(pred, start, end, dist) == NodeIds(p)
    decreases if 0 <= dist[end] then dist[end] else 0
  {
    if end == start {
      p := [start];
    } else if dist[end] != INT_MAX {
      var u := pred[end];
      var q := PrintedWalk(m, start, dist, pred, u);
      p := q + [end];
      assert Step(m, u, end, false);
      WalkAppend(m, q, end, false);
      assert p[..|p| - 1] == q;
    } else {
      p := [];
    }
  }
}
