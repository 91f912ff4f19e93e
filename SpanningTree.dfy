/** The minimum spanning tree routine of logic.c: Prim's algorithm from node
    0 with every edge weighing one, following edges in their own direction.
    With unit weights every key is 0 (the root), 1 (an edge from a visited
    node was seen) or INT_MAX, so the result is a tree of first discoveries
    rooted at node 0. */
module SpanningTree {
  import opened Util
  import opened GraphTheory
  import opened Graphs
  import ShortestPath

  /** One output record: the parent, the node and the weight (always 1). */
  datatype Edge = Edge(from: int, to: int, weight: int)

  /** The nodes reachable from node 0 along directed edges. */
  ghost function ReachableFromRoot(m: Matrix): set<int>
    requires Square(m)
  {
    set v | 0 <= v < |m| && Reachable(m, 0, v, false)
  }

  /** What the routine returns for n >= 1: record i - 1 links node i to
      its parent with weight 1; node i has a parent exactly when it is
      reachable from node 0; a parent is itself reachable, has an edge to
      its child and comes strictly earlier in the visit order `rank`. */
  ghost predicate SpanningArborescence(m: Matrix, mst: seq<Edge>, rank: seq<int>)
    requires Square(m)
  {
    && |m| >= 1 && |mst| == |m| - 1 && |rank| == |m|
    && (forall v :: 0 <= v < |m| ==> 0 <= rank[v])
    && (forall k :: 0 <= k < |mst| ==> mst[k].to == k + 1 && mst[k].weight == 1)
    && (forall k :: 0 <= k < |mst| ==> (mst[k].from != -1 <==> Reachable(m, 0, k + 1, false)))
    && (forall k :: 0 <= k < |mst| && mst[k].from != -1 ==>
          0 <= mst[k].from < |m| && m[mst[k].from][k + 1] && Reachable(m, 0, mst[k].from, false) &&
          rank[mst[k].from] < rank[k + 1])
  }

  /** The record for node v names u as its parent. */
  predicate TreeEdge(mst: seq<Edge>, u: int, v: int)
  {
    1 <= v <= |mst| && mst[v - 1].from == u
  }

  /** p runs from parent to child along records of mst. */
  ghost predicate TreePath(mst: seq<Edge>, p: seq<int>)
  {
    forall k :: 0 <= k < |p| - 1 ==> TreeEdge(mst, p[k], p[k + 1])
  }

  /** The records alone connect node 0 to every node reachable from it. */
  lemma {:induction false} TreeReaches(m: Matrix, mst: seq<Edge>, rank: seq<int>, i: int) returns (p: seq<int>)
    requires Square(m) && SpanningArborescence(m, mst, rank)
    requires 0 <= i < |m| && Reachable(m, 0, i, false)
    ensures |p| >= 1 && p[0] == 0 && p[|p| - 1] == i && TreePath(mst, p)
    decreases rank[i]
  {
    if i == 0 {
      p := [0];
    } else {
      var x := mst[i - 1].from;
      var q := TreeReaches(m, mst, rank, x);
      p := q + [i];
      assert forall k :: 0 <= k < |q| ==> p[k] == q[k];
    }
  }

  /** The state of the search between two rounds. `settled` lists the
      visited nodes in the order they were taken and rank[v] is the
      position of v there (n while v is unvisited). */
  ghost predicate PrimInv(m: Matrix, key: seq<int>, parent: seq<int>, visited: seq<bool>, settled: seq<int>, rank: seq<int>)
    requires Square(m)
  {
    && |m| >= 1 && |key| == |m| && |parent| == |m| && |visited| == |m| && |rank| == |m|
    && key[0] == 0 && parent[0] == -1
    && (forall v :: 0 < v < |m| ==> (key[v] == INT_MAX || key[v] == 1) && (key[v] == 1 <==> parent[v] != -1))
    && Distinct(settled) && AllBelow(settled, |m|) && |settled| <= |m|
    && (forall v :: 0 <= v < |m| ==> (visited[v] <==> v in settled))
    && (forall v :: 0 <= v < |m| && visited[v] ==> 0 <= rank[v] < |settled|)
    && (forall v :: 0 <= v < |m| && !visited[v] ==> rank[v] == |m|)
    && (|settled| > 0 ==> visited[0])
    && (forall v :: 0 < v < |m| && visited[v] ==> parent[v] != -1)
    && (forall v :: 0 <= v < |m| && parent[v] != -1 ==>
          0 <= parent[v] < |m| && visited[parent[v]] && m[parent[v]][v] && rank[parent[v]] < rank[v])
    && (forall x, y :: 0 <= x < |m| && 0 <= y < |m| && visited[x] && !visited[y] && m[x][y] ==> key[y] != INT_MAX)
    && (forall v :: 0 <= v < |m| && key[v] != INT_MAX ==> Reachable(m, 0, v, false))
  }

  /** The key update from u as the inner loop performs it. */
  ghost predicate PrimRelaxed(m: Matrix, u: int, key: seq<int>, parent: seq<int>, visited: seq<bool>,
                              key': seq<int>, parent': seq<int>)
    requires Square(m) && 0 <= u < |m| && |key| == |m| && |parent| == |m| && |visited| == |m|
  {
    && |key'| == |m| && |parent'| == |m|
    && forall v :: 0 <= v < |m| ==>
         if m[u][v] && !visited[v] && 1 < key[v]
         then key'[v] == 1 && parent'[v] == u
         else key'[v] == key[v] && parent'[v] == parent[v]
  }

  /** Before the first round only node 0 has a key. */
  lemma PrimInitial(m: Matrix, key: seq<int>, parent: seq<int>, visited: seq<bool>, rank: seq<int>)
    requires Square(m) && |m| >= 1
    requires |key| == |m| && |parent| == |m| && |visited| == |m| && |rank| == |m|
    requires forall v :: 0 <= v < |m| ==>
               key[v] == (if v == 0 then 0 else INT_MAX) && parent[v] == -1 && !visited[v] && rank[v] == |m|
    ensures PrimInv(m, key, parent, visited, [], rank)
  {
    ReachableSelf(m, 0, false);
  }

  /** While fewer nodes are visited than are reachable from node 0, some
      unvisited node has a finite key, so the selection never comes back
      empty. */
  lemma Selectable(m: Matrix, key: seq<int>, parent: seq<int>, visited: seq<bool>, settled: seq<int>, rank: seq<int>)
    requires Square(m) && PrimInv(m, key, parent, visited, settled, rank)
    requires |settled| < |ReachableFromRoot(m)|
    ensures exists v :: 0 <= v < |m| && !visited[v] && key[v] < INT_MAX
  {
    if |settled| == 0 {
      assert !visited[0] && key[0] < INT_MAX;
    } else {
      var elems := set x | x in settled;
      DistinctCard(settled);
      if ReachableFromRoot(m) <= elems {
        CardSubset(ReachableFromRoot(m), elems);
      }
      var r :| r in ReachableFromRoot(m) && r !in elems;
      var p :| WalkBetween(m, p, 0, r, false);
      var j := FirstLeaving(p, visited);
      assert Step(m, p[j - 1], p[j], false);
    }
  }

  /** Visiting the selected node u and updating keys from it keeps the
      invariant. */
  lemma PrimStep(m: Matrix, key: seq<int>, parent: seq<int>, visited: seq<bool>, settled: seq<int>, rank: seq<int>,
                 u: int, key': seq<int>, parent': seq<int>)
    requires Square(m) && PrimInv(m, key, parent, visited, settled, rank)
    requires 0 <= u < |m| && !visited[u] && key[u] < INT_MAX
    requires forall j :: 0 <= j < |m| && !visited[j] ==> key[u] <= key[j]
    requires PrimRelaxed(m, u, key, parent, visited[u := true], key', parent')
    ensures PrimInv(m, key', parent', visited[u := true], settled + [u], rank[u := |settled|])
  {
    var vis', settled', rank' := visited[u := true], settled + [u], rank[u := |settled|];
    assert u !in settled;
    DistinctBelowBound(settled, |m|);
    assert |settled| < |m|;
    forall v | 0 <= v < |m| ensures vis'[v] <==> v in settled' {
      assert v in settled' <==> v in settled || v == u;
    }
    assert Distinct(settled');
    DistinctBelowBound(settled', |m|);
    forall v | 0 <= v < |m| && key'[v] != INT_MAX ensures Reachable(m, 0, v, false) {
      if key'[v] != key[v] {
        ReachableStep(m, 0, u, v, false);
      }
    }
  }

  /** After n - 1 rounds a single node at most is left unvisited, so the
      parents describe every node reachable from node 0. */
  lemma PrimFinal(m: Matrix, key: seq<int>, parent: seq<int>, visited: seq<bool>, settled: seq<int>, rank: seq<int>)
    requires Square(m) && PrimInv(m, key, parent, visited, settled, rank) && |settled| == |m| - 1
    ensures forall i :: 1 <= i < |m| ==> (parent[i] != -1 <==> Reachable(m, 0, i, false))
    ensures forall i :: 1 <= i < |m| && parent[i] != -1 ==> Reachable(m, 0, parent[i], false)
  {
    forall i | 1 <= i < |m| && Reachable(m, 0, i, false) ensures parent[i] != -1 {
      if !visited[i] {
        var p :| WalkBetween(m, p, 0, i, false);
        var j := FirstLeaving(p, visited);
        var y := p[j];
        assert Step(m, p[j - 1], y, false);
        if y != i {
          DistinctMissingTwo(settled, |m|, i, y);
        }
      }
    }
    forall i | 1 <= i < |m| && parent[i] != -1 ensures Reachable(m, 0, parent[i], false) {
      var x := parent[i];
      assert x == 0 || key[x] == 1;
    }
    forall i | 1 <= i < |m| && parent[i] != -1 ensures Reachable(m, 0, i, false) {
      ReachableStep(m, 0, parent[i], i, false);
    }
  }

  /** The key-update loop over the edges out of u; the ghost sequences
      follow the arrays. */
  method PrimRelax(g: Graph, u: nat, key: array<int>, parent: array<int>, visited: array<bool>,
                   ghost K: seq<int>, ghost P: seq<int>, ghost V: seq<bool>)
    returns (ghost K': seq<int>, ghost P': seq<int>)
    requires g.Valid() && u < g.numnodes && key != parent
    requires Mirrors(key, K) && Mirrors(parent, P) && Mirrors(visited, V)
    requires |K| == g.numnodes && |P| == g.numnodes && |V| == g.numnodes
    modifies key, parent
    ensures Mirrors(key, K') && Mirrors(parent, P')
    ensures PrimRelaxed(g.Adj(), u, K, P, V, K', P')
  {
    ghost var m := g.Adj();
    K', P' := K, P;
    for v := 0 to g.numnodes
      invariant Mirrors(key, K') && Mirrors(parent, P') && |K'| == |K| && |P'| == |P|
      invariant forall w :: 0 <= w < g.numnodes ==>
                  if w < v && m[u][w] && !V[w] && 1 < K[w]
                  then K'[w] == 1 && P'[w] == u
                  else K'[w] == K[w] && P'[w] == P[w]
    {
      if g.edges[u, v] && !visited[v] && 1 < key[v] {
        parent[v] := u;
        key[v] := 1;
        K', P' := K'[v := 1], P'[v := u];
      }
    }
  }

  /** One round of the outer loop: take the unvisited node of least key
      and update the keys of its unvisited successors. */
  method PrimRound(g: Graph, key: array<int>, parent: array<int>, visited: array<bool>,
                   ghost K: seq<int>, ghost P: seq<int>, ghost V: seq<bool>, ghost settled: seq<int>, ghost rank: seq<int>)
    returns (ghost K': seq<int>, ghost P': seq<int>, ghost V': seq<bool>, ghost settled': seq<int>, ghost rank': seq<int>)
    requires g.Valid() && key != parent
    requires Mirrors(key, K) && Mirrors(parent, P) && Mirrors(visited, V)
    requires PrimInv(g.Adj(), K, P, V, settled, rank)
    requires |settled| < |ReachableFromRoot(g.Adj())|
    modifies key, parent, visited
    ensures Mirrors(key, K') && Mirrors(parent, P') && Mirrors(visited, V')
    ensures PrimInv(g.Adj(), K', P', V', settled', rank') && |settled'| == |settled| + 1
  {
    ghost var m := g.Adj();
    Selectable(m, K, P, V, settled, rank);
    var u := ShortestPath.SelectMin(key, visited);
    assert u != -1;
    visited[u] := true;
    V', settled', rank' := V[u := true], settled + [u], rank[u := |settled|];
    K', P' := PrimRelax(g, u, key, parent, visited, K, P, V');
    PrimStep(m, K, P, V, settled, rank, u, K', P');
  }

  /** The output loop: record i - 1 is (parent[i], i, 1). */
  method CollectEdges(parent: array<int>) returns (mst: seq<Edge>)
    requires parent.Length >= 1
    ensures |mst| == parent.Length - 1
    ensures forall k :: 0 <= k < |mst| ==> mst[k] == Edge(parent[k + 1], k + 1, 1)
  {
    var edges := new Edge[parent.Length - 1](_ => Edge(-1, 0, 1));
    for i := 1 to parent.Length
      invariant forall k :: 0 <= k < i - 1 ==> edges[k] == Edge(parent[k + 1], k + 1, 1)
    {
      edges[i - 1] := Edge(parent[i], i, 1);
    }
    mst := edges[..];
  }

  /** The records built from the final parents form the tree. */
  lemma TreeFromParents(m: Matrix, key: seq<int>, parent: seq<int>, visited: seq<bool>, settled: seq<int>, rank: seq<int>,
                        mst: seq<Edge>)
    requires Square(m) && PrimInv(m, key, parent, visited, settled, rank) && |settled| == |m| - 1
    requires |mst| == |m| - 1 && forall k :: 0 <= k < |mst| ==> mst[k] == Edge(parent[k + 1], k + 1, 1)
    ensures SpanningArborescence(m, mst, rank)
  {
    PrimFinal(m, key, parent, visited, settled, rank);
  }

  /** The outer loop: n - 1 rounds from the initial state. */
  method PrimRounds(g: Graph, key: array<int>, parent: array<int>, visited: array<bool>,
                    ghost K: seq<int>, ghost P: seq<int>, ghost V: seq<bool>, ghost rank: seq<int>)
    returns (ghost K': seq<int>, ghost P': seq<int>, ghost V': seq<bool>, ghost settled: seq<int>, ghost rank': seq<int>)
    requires g.Valid() && key != parent && g.numnodes >= 1
    requires |ReachableFromRoot(g.Adj())| >= g.numnodes - 1
    requires Mirrors(key, K) && Mirrors(parent, P) && Mirrors(visited, V)
    requires PrimInv(g.Adj(), K, P, V, [], rank)
    modifies key, parent, visited
    ensures Mirrors(key, K') && Mirrors(parent, P') && Mirrors(visited, V')
    ensures PrimInv(g.Adj(), K', P', V', settled, rank') && |settled| == g.numnodes - 1
  {
    ghost var m := g.Adj();
    K', P', V', settled, rank' := K, P, V, [], rank;
    for count := 0 to g.numnodes - 1
      invariant Mirrors(key, K') && Mirrors(parent, P') && Mirrors(visited, V') && g.Adj() == m
      invariant |settled| == count && PrimInv(m, K', P', V', settled, rank')
    {
      K', P', V', settled, rank' := PrimRound(g, key, parent, visited, K', P', V', settled, rank');
    }
  }

  /** get_minimum_spanning_tree: nothing for an empty graph (the size of
      n - 1 records becomes a huge unsigned request, which fails); otherwise the n - 1
      records of a tree rooted at node 0 that reaches every node reachable
      from it. The selection must find a node in each of the n - 1 rounds,
      which holds exactly when at least n - 1 nodes are reachable from 0. */
  method MinimumSpanningTree(g: Graph) returns (mst: Option<seq<Edge>>)
    requires g.Valid()
    requires g.numnodes >= 1 ==> |ReachableFromRoot(g.Adj())| >= g.numnodes - 1
    ensures mst.None? <==> g.numnodes == 0
    ensures mst.Some? ==> exists rank :: SpanningArborescence(g.Adj(), mst.value, rank)
  {
    var n := g.numnodes;
    if n == 0 {
      return None;
    }
    var key := new int[n](_ => INT_MAX);
    var parent := new int[n](_ => -1);
    var visited := new bool[n](_ => false);
    key[0] := 0;
    ghost var rank := seq(n, _ => n);
    PrimInitial(g.Adj(), key[..], parent[..], visited[..], rank);
    ghost var K, P, V, settled;
    K, P, V, settled, rank := PrimRounds(g, key, parent, visited, key[..], parent[..], visited[..], rank);
    var edges := CollectEdges(parent);
    TreeFromParents(g.Adj(), K, P, V, settled, rank, edges);
    return Some(edges);
  }
}
