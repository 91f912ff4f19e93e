/** Breadth- and depth-first traversal and the connectivity test of logic.c.
    Both traversals follow an edge in either direction, so they visit the
    nodes of the undirected closure that are connected to the start node.
    The printed node ids are modelled as the returned sequence. */
module Traversal {
  import opened Util
  import opened GraphTheory
  import opened Graphs

  /** What both traversals promise of the ids they print: the start node
      first, every node at most once, and exactly the nodes connected to
      start when edges are followed in either direction. */
  ghost predicate VisitsComponent(m: Matrix, start: int, order: seq<int>)
    requires Square(m)
  {
    && |order| >= 1 && order[0] == start
    && Distinct(order)
    && forall v :: v in order <==> 0 <= v < |m| && Reachable(m, start, v, true)
  }

  /** order[k] was found from the printed node order[j]: it is a neighbour
      of order[j] (either direction), the least one not printed before it. */
  ghost predicate LeastNewNeighbour(m: Matrix, order: seq<int>, k: int, j: int)
    requires Square(m)
  {
    && 0 <= j < k < |order|
    && Step(m, order[j], order[k], true)
    && forall w :: 0 <= w < order[k] && Step(m, order[j], w, true) ==> w in order[..k]
  }

  /** Every neighbour of order[j] was printed before index k. */
  ghost predicate NeighboursBefore(m: Matrix, order: seq<int>, j: int, k: int)
    requires Square(m) && 0 <= j < |order| && 0 <= k <= |order|
  {
    forall w :: Step(m, order[j], w, true) ==> w in order[..k]
  }

  /** Breadth-first at k: order[k] comes from the earliest printed node that
      still has an unprinted neighbour. */
  ghost predicate BreadthFirstAt(m: Matrix, order: seq<int>, k: int)
    requires Square(m) && 0 < k < |order|
  {
    exists j :: LeastNewNeighbour(m, order, k, j) && forall i :: 0 <= i < j ==> NeighboursBefore(m, order, i, k)
  }

  /** Depth-first at k: order[k] comes from the latest printed node that
      still has an unprinted neighbour. */
  ghost predicate DepthFirstAt(m: Matrix, order: seq<int>, k: int)
    requires Square(m) && 0 < k < |order|
  {
    exists j :: LeastNewNeighbour(m, order, k, j) && forall i :: j < i < k ==> NeighboursBefore(m, order, i, k)
  }

  /** The order in which bfs prints: after the start, each node is the least
      new neighbour of the first printed node that has one. Together with
      VisitsComponent this fixes the order completely. */
  ghost predicate BreadthFirst(m: Matrix, order: seq<int>)
    requires Square(m)
  {
    forall k :: 0 < k < |order| ==> BreadthFirstAt(m, order, k)
  }

  /** The order in which dfs prints: after the start, each node is the least
      new neighbour of the last printed node that has one. */
  ghost predicate DepthFirst(m: Matrix, order: seq<int>)
    requires Square(m)
  {
    forall k :: 0 < k < |order| ==> DepthFirstAt(m, order, k)
  }

  /** Printing one more node leaves the earlier positions' reasons intact. */
  lemma FoundStays(m: Matrix, order: seq<int>, x: int, k: int, j: int)
    requires Square(m) && LeastNewNeighbour(m, order, k, j)
    ensures LeastNewNeighbour(m, order + [x], k, j)
    ensures forall i :: 0 <= i < k && NeighboursBefore(m, order, i, k) ==> NeighboursBefore(m, order + [x], i, k)
  {
    var o := order + [x];
    assert o[..k] == order[..k];
    assert o[j] == order[j] && o[k] == order[k];
    forall i | 0 <= i < k && NeighboursBefore(m, order, i, k) ensures NeighboursBefore(m, o, i, k) {
      assert o[i] == order[i];
    }
  }

  /** Appending x found from order[j] keeps the order breadth-first, when
      every node before order[j] has all its neighbours printed already. */
  lemma BreadthFirstExtend(m: Matrix, order: seq<int>, j: int, x: int)
    requires Square(m) && BreadthFirst(m, order) && 0 <= j < |order|
    requires x !in order && Step(m, order[j], x, true)
    requires forall w :: 0 <= w < x && Step(m, order[j], w, true) ==> w in order
    requires forall i, w :: 0 <= i < j && Step(m, order[i], w, true) ==> w in order
    ensures BreadthFirst(m, order + [x])
  {
    var o := order + [x];
    forall k | 0 < k < |o| ensures BreadthFirstAt(m, o, k) {
      if k < |order| {
        assert BreadthFirstAt(m, order, k);
        var i :| LeastNewNeighbour(m, order, k, i) && forall i' :: 0 <= i' < i ==> NeighboursBefore(m, order, i', k);
        FoundStays(m, order, x, k, i);
      } else {
        assert o[..k] == order && o[j] == order[j];
        forall i | 0 <= i < j ensures NeighboursBefore(m, o, i, k) {
          assert o[i] == order[i];
        }
        assert LeastNewNeighbour(m, o, k, j);
      }
    }
  }

  /** Appending x found from order[j] keeps the order depth-first, when
      every node after order[j] has all its neighbours printed already. */
  lemma DepthFirstExtend(m: Matrix, order: seq<int>, j: int, x: int)
    requires Square(m) && DepthFirst(m, order) && 0 <= j < |order|
    requires x !in order && Step(m, order[j], x, true)
    requires forall w :: 0 <= w < x && Step(m, order[j], w, true) ==> w in order
    requires forall i, w :: j < i < |order| && Step(m, order[i], w, true) ==> w in order
    ensures DepthFirst(m, order + [x])
  {
    var o := order + [x];
    forall k | 0 < k < |o| ensures DepthFirstAt(m, o, k) {
      if k < |order| {
        assert DepthFirstAt(m, order, k);
        var i :| LeastNewNeighbour(m, order, k, i) && forall i' :: i < i' < k ==> NeighboursBefore(m, order, i', k);
        FoundStays(m, order, x, k, i);
      } else {
        assert o[..k] == order && o[j] == order[j];
        forall i | j < i < k ensures NeighboursBefore(m, o, i, k) {
          assert o[i] == order[i];
        }
        assert LeastNewNeighbour(m, o, k, j);
      }
    }
  }

  /** The queue of bfs, queue[..rear], against its visited marks: it starts
      with start, holds each node at most once, holds exactly the visited
      nodes, and only nodes connected to start. */
  ghost predicate QueueInv(m: Matrix, start: int, visited: seq<bool>, queue: seq<int>)
    requires Square(m)
  {
    && |visited| == |m|
    && |queue| >= 1 && queue[0] == start
    && Distinct(queue) && AllBelow(queue, |m|)
    && (forall v :: 0 <= v < |m| ==> (visited[v] <==> v in queue))
    && (forall k :: 0 <= k < |queue| ==> Reachable(m, start, queue[k], true))
  }

  /** The first `done` queue entries have all their neighbours visited. */
  ghost predicate Expanded(m: Matrix, visited: seq<bool>, queue: seq<int>, done: int)
    requires Square(m) && |visited| == |m| && 0 <= done <= |queue|
  {
    forall k, v :: 0 <= k < done && Step(m, queue[k], v, true) ==> visited[v]
  }

  /** Enqueueing an unvisited node connected to start keeps the queue
      invariant, and all expanded entries stay expanded. */
  lemma Enqueue(m: Matrix, start: int, visited: seq<bool>, queue: seq<int>, done: int, i: int)
    requires Square(m) && QueueInv(m, start, visited, queue) && 0 <= done <= |queue|
    requires Expanded(m, visited, queue, done)
    requires 0 <= i < |m| && !visited[i] && Reachable(m, start, i, true)
    ensures QueueInv(m, start, visited[i := true], queue + [i])
    ensures Expanded(m, visited[i := true], queue + [i], done)
    ensures |queue| < |m|
  {
    DistinctBelowBound(queue, |m|);
    var q := queue + [i];
    forall v | 0 <= v < |m| ensures visited[i := true][v] <==> v in q {
      assert v in q <==> v in queue || v == i;
    }
  }

  /** bfs: prints the nodes in first-in first-out order. */
  method Bfs(g: Graph, start: nat) returns (order: seq<int>)
    requires g.Valid() && start < g.numnodes
    ensures VisitsComponent(g.Adj(), start, order)
    ensures BreadthFirst(g.Adj(), order)
  {
    var n := g.numnodes;
    ghost var m := g.Adj();
    var visited := new bool[n](_ => false);
    var queue := new int[n];
    var front, rear := 0, 0;
    visited[start] := true;
    queue[rear] := start;
    rear := rear + 1;
    // the queue and the visited marks as values
    ghost var q, vis := [start], seq(n, v => v == start);
    ReachableSelf(m, start, true);
    order := [];
    while front < rear
      invariant 0 <= front <= rear <= n
      invariant Mirrors(visited, vis) && MirrorsPrefix(queue, q) && |q| == rear
      invariant order == q[..front]
      invariant QueueInv(m, start, vis, q)
      invariant Expanded(m, vis, q, front)
      invariant BreadthFirst(m, q)
      decreases n - front
    {
      var node := queue[front];
      front := front + 1;
      order := order + [node];
      assert order == q[..front];
      ghost var qBefore := q;
      rear, q, vis := BfsEnqueueNeighbours(g, node, visited, queue, front, rear, start, q, vis);
      assert q[..front] == qBefore[..front];
    }
    assert order == q;
    QueueExhausted(m, start, vis, order);
  }

  /** The body of the bfs loop after dequeuing node = queue[front - 1]: every
      unvisited node joined to node by an edge in either direction is marked
      and enqueued, in ascending order. Returns the new rear. */
  method BfsEnqueueNeighbours(g: Graph, node: int, visited: array<bool>, queue: array<int>,
                              front: int, rear: int, ghost start: int,
                              ghost q: seq<int>, ghost vis: seq<bool>)
    returns (rear': int, ghost q': seq<int>, ghost vis': seq<bool>)
    requires g.Valid() && queue.Length == g.numnodes
    requires 0 < front <= rear == |q| && q[front - 1] == node
    requires Mirrors(visited, vis) && MirrorsPrefix(queue, q)
    requires QueueInv(g.Adj(), start, vis, q) && Expanded(g.Adj(), vis, q, front - 1)
    requires BreadthFirst(g.Adj(), q)
    modifies visited, queue
    ensures rear <= rear' == |q'| <= g.numnodes && q'[..rear] == q
    ensures Mirrors(visited, vis') && MirrorsPrefix(queue, q')
    ensures QueueInv(g.Adj(), start, vis', q') && Expanded(g.Adj(), vis', q', front)
    ensures BreadthFirst(g.Adj(), q')
  {
    ghost var m := g.Adj();
    rear', q', vis' := rear, q, vis;
    for i := 0 to g.numnodes
      invariant rear <= rear' == |q'| <= g.numnodes && q'[..rear] == q
      invariant Mirrors(visited, vis') && MirrorsPrefix(queue, q')
      invariant QueueInv(m, start, vis', q') && Expanded(m, vis', q', front - 1)
      invariant forall v :: 0 <= v < i && Step(m, node, v, true) ==> vis'[v]
      invariant BreadthFirst(m, q')
    {
      if (g.edges[node, i] || g.edges[i, node]) && !visited[i] {
        ReachableStep(m, start, node, i, true);
        assert q'[front - 1] == q[front - 1];
        BfsOrderStep(m, start, vis', q', front, i);
        Enqueue(m, start, vis', q', front - 1, i);
        visited[i] := true;
        queue[rear'] := i;
        rear', q', vis' := rear' + 1, q' + [i], vis'[i := true];
      }
    }
  }

  /** Enqueueing i while expanding queue[front - 1] keeps the queue in
      breadth-first order: the earlier entries are expanded, so they have no
      unvisited neighbour, and the smaller neighbours were met first. */
  lemma BfsOrderStep(m: Matrix, start: int, visited: seq<bool>, queue: seq<int>, front: int, i: int)
    requires Square(m) && QueueInv(m, start, visited, queue) && 0 < front <= |queue|
    requires Expanded(m, visited, queue, front - 1) && BreadthFirst(m, queue)
    requires 0 <= i < |m| && !visited[i] && Step(m, queue[front - 1], i, true)
    requires forall v :: 0 <= v < i && Step(m, queue[front - 1], v, true) ==> visited[v]
    ensures BreadthFirst(m, queue + [i])
  {
    BreadthFirstExtend(m, queue, front - 1, i);
  }

  /** Once every queue entry is expanded, the queue is the whole component. */
  lemma QueueExhausted(m: Matrix, start: int, visited: seq<bool>, queue: seq<int>)
    requires Square(m) && QueueInv(m, start, visited, queue)
    requires Expanded(m, visited, queue, |queue|)
    ensures VisitsComponent(m, start, queue)
  {
    var reached := set v | 0 <= v < |m| && visited[v];
    forall v | 0 <= v < |m| && Reachable(m, start, v, true) ensures v in queue {
      ClosedSetHoldsReachable(m, reached, start, v, true);
    }
  }

  /** The state of a depth-first search from start: `visited` marks exactly
      the printed nodes, each printed once, all connected to start; every
      visited node not on the recursion stack has all its neighbours visited. */
  ghost predicate DfsInv(m: Matrix, start: int, visited: seq<bool>, printed: seq<int>, onStack: set<int>)
    requires Square(m)
  {
    && |visited| == |m|
    && Distinct(printed)
    && (forall v :: 0 <= v < |m| ==> (visited[v] <==> v in printed))
    && (forall v :: v in printed ==> 0 <= v < |m| && Reachable(m, start, v, true))
    && (forall u, v :: 0 <= u < |m| && visited[u] && u !in onStack && Step(m, u, v, true) ==> visited[v])
  }

  /** The nodes not yet visited; a recursive call only happens when this set
      has shrunk. */
  ghost function Unvisited(visited: seq<bool>): set<int> {
    set v | 0 <= v < |visited| && !visited[v]
  }

  /** Marking and printing an unvisited node connected to start keeps the
      search state, with node pushed on the recursion stack. */
  lemma MarkVisited(m: Matrix, start: int, visited: seq<bool>, printed: seq<int>, onStack: set<int>, node: int)
    requires Square(m) && DfsInv(m, start, visited, printed, onStack)
    requires 0 <= node < |m| && !visited[node] && Reachable(m, start, node, true)
    ensures DfsInv(m, start, visited[node := true], printed + [node], onStack + {node})
    ensures Unvisited(visited[node := true]) < Unvisited(visited)
  {
    var p := printed + [node];
    forall v | 0 <= v < |m| ensures visited[node := true][v] <==> v in p {
      assert v in p <==> v in printed || v == node;
    }
    assert node in Unvisited(visited) - Unvisited(visited[node := true]);
  }

  /** dfs_helper: marks node visited, prints it, then recurses into every
      unvisited node joined to it by an edge in either direction, in
      ascending order. `order` holds what was printed before the call. The
      ghost `onStack` holds the nodes whose own calls are still running. */
  method DfsHelper(g: Graph, node: nat, visited: array<bool>, order: seq<int>,
                   ghost start: int, ghost onStack: set<int>, ghost vis: seq<bool>)
    returns (printed: seq<int>, ghost vis': seq<bool>)
    requires g.Valid() && node < g.numnodes && visited.Length == g.numnodes && Mirrors(visited, vis)
    requires !vis[node] && Reachable(g.Adj(), start, node, true)
    requires DfsInv(g.Adj(), start, vis, order, onStack)
    requires DepthFirst(g.Adj(), order + [node]) && forall v :: v in onStack ==> v in order
    modifies visited
    ensures |printed| > |order| && printed[..|order|] == order && printed[|order|] == node
    ensures Mirrors(visited, vis') && DfsInv(g.Adj(), start, vis', printed, onStack)
    ensures DepthFirst(g.Adj(), printed)
    ensures Unvisited(vis') <= Unvisited(vis)
    decreases Unvisited(vis)
  {
    ghost var m := g.Adj();
    MarkVisited(m, start, vis, order, onStack, node);
    visited[node] := true;
    printed, vis' := order + [node], vis[node := true];
    for i := 0 to g.numnodes
      invariant |printed| > |order| && printed[..|order|] == order && printed[|order|] == node
      invariant Mirrors(visited, vis') && DfsInv(m, start, vis', printed, onStack + {node})
      invariant Unvisited(vis') < Unvisited(vis)
      invariant vis'[node]
      invariant forall v :: 0 <= v < i && Step(m, node, v, true) ==> vis'[v]
      invariant DepthFirst(m, printed)
    {
      if (g.edges[node, i] || g.edges[i, node]) && !visited[i] {
        ReachableStep(m, start, node, i, true);
        DfsOrderStep(m, start, vis', printed, onStack, |order|, i);
        ghost var before := printed;
        printed, vis' := DfsHelper(g, i, visited, printed, start, onStack + {node}, vis');
        assert printed[..|order|] == before[..|order|];
      }
    }
  }

  /** Calling dfs_helper on i from the loop of the call printed at index j
      keeps the output in depth-first order: every node printed after j has
      returned, so all its neighbours are printed, and the smaller neighbours
      of printed[j] were met first. */
  lemma DfsOrderStep(m: Matrix, start: int, visited: seq<bool>, printed: seq<int>, onStack: set<int>, j: int, i: int)
    requires Square(m) && 0 <= j < |printed|
    requires DfsInv(m, start, visited, printed, onStack + {printed[j]}) && DepthFirst(m, printed)
    requires forall v :: v in onStack ==> v in printed[..j]
    requires 0 <= i < |m| && !visited[i] && Step(m, printed[j], i, true)
    requires forall v :: 0 <= v < i && Step(m, printed[j], v, true) ==> visited[v]
    ensures DepthFirst(m, printed + [i])
  {
    forall k, w | j < k < |printed| && Step(m, printed[k], w, true) ensures w in printed {
      var u := printed[k];
      forall t | 0 <= t < j ensures printed[t] != u {
      }
      assert u !in printed[..j];
      assert u != printed[j];
    }
    DepthFirstExtend(m, printed, j, i);
  }

  /** dfs: the depth-first order from start. */
  method Dfs(g: Graph, start: nat) returns (order: seq<int>)
    requires g.Valid() && start < g.numnodes
    ensures VisitsComponent(g.Adj(), start, order)
    ensures DepthFirst(g.Adj(), order)
  {
    var visited := new bool[g.numnodes](_ => false);
    ReachableSelf(g.Adj(), start, true);
    ghost var vis;
    order, vis := DfsHelper(g, start, visited, [], start, {}, visited[..]);
    DfsReachesComponent(g.Adj(), vis, start, order);
  }

  /** After a complete depth-first search from start, the printed nodes are
      exactly those connected to start. */
  lemma DfsReachesComponent(m: Matrix, visited: seq<bool>, start: int, order: seq<int>)
    requires Square(m) && 0 <= start < |m|
    requires |order| >= 1 && order[0] == start && DfsInv(m, start, visited, order, {})
    ensures VisitsComponent(m, start, order)
  {
    var reached := set v | 0 <= v < |m| && visited[v];
    forall v | 0 <= v < |m| && Reachable(m, start, v, true) ensures v in order {
      ClosedSetHoldsReachable(m, reached, start, v, true);
    }
  }

  /** is_connected: runs dfs_helper from node 0 (which also prints the ids it
      visits) and reports whether every node was visited, that is, whether
      every node is connected to node 0 by edges followed in either direction. */
  method IsConnected(g: Graph) returns (connected: bool, printed: seq<int>)
    requires g.Valid() && g.numnodes > 0
    ensures VisitsComponent(g.Adj(), 0, printed) && DepthFirst(g.Adj(), printed)
    ensures connected <==> forall v :: 0 <= v < g.numnodes ==> Reachable(g.Adj(), 0, v, true)
  {
    var visited := new bool[g.numnodes](_ => false);
    ReachableSelf(g.Adj(), 0, true);
    ghost var vis;
    printed, vis := DfsHelper(g, 0, visited, [], 0, {}, visited[..]);
    DfsReachesComponent(g.Adj(), vis, 0, printed);
    for i := 0 to g.numnodes
      invariant forall v :: 0 <= v < i ==> visited[v]
    {
      if !visited[i] {
        return false, printed;
      }
    }
    return true, printed;
  }
}
