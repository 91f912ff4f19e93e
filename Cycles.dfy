/** Directed cycle detection of logic.c: a depth-first search that keeps,
    besides the visited marks, a recursion-stack mark for the nodes whose
    calls are still running. Unlike the traversals it follows edges only in
    their own direction. */
module Cycles {
  import opened Util
  import opened GraphTheory
  import opened Graphs
  import opened Traversal

  /** Every successor of a finished node finished before it. */
  ghost predicate FinishedInOrder(m: Matrix, done: seq<int>)
    requires Square(m)
  {
    forall k, w :: 0 <= k < |done| && Step(m, done[k], w, false) ==> w in done[..k]
  }

  /** The state of the search. The ghost `path` is the recursion stack from
      the root, a directed walk; `done` lists the finished nodes (visited and
      no longer on the stack) in the order they finished. */
  ghost predicate SearchInv(m: Matrix, visited: seq<bool>, recStack: seq<bool>, path: seq<int>, done: seq<int>)
    requires Square(m)
  {
    && |visited| == |m| && |recStack| == |m|
    && AllBelow(path, |m|) && AllBelow(done, |m|)
    && (forall v :: 0 <= v < |m| ==> (recStack[v] <==> v in path))
    && (forall v :: 0 <= v < |m| && recStack[v] ==> visited[v])
    && (forall v :: 0 <= v < |m| ==> (visited[v] && !recStack[v] <==> v in done))
    && (forall k :: 0 <= k < |path| - 1 ==> Step(m, path[k], path[k + 1], false))
    && FinishedInOrder(m, done)
  }

  /** Meeting a node that is still on the recursion stack closes a cycle:
      from that node down the stack and back along the edge just followed. */
  lemma BackEdgeCloses(m: Matrix, path: seq<int>, node: int)
    requires Square(m) && AllBelow(path, |m|) && node in path
    requires forall k :: 0 <= k < |path| - 1 ==> Step(m, path[k], path[k + 1], false)
    requires Step(m, path[|path| - 1], node, false)
    ensures HasCycle(m)
  {
    var j :| 0 <= j < |path| && path[j] == node;
    var cycle := path[j..] + [node];
    assert IsWalk(m, cycle, false) by {
      forall k | 0 <= k < |cycle| - 1 ensures Step(m, cycle[k], cycle[k + 1], false) {
        if k < |cycle| - 2 {
          assert cycle[k] == path[j + k] && cycle[k + 1] == path[j + k + 1];
        }
      }
    }
  }

  /** A directed walk of at least one edge leaving done[k] ends at a node that
      finished before done[k]. */
  lemma {:induction false} WalkDescends(m: Matrix, done: seq<int>, p: seq<int>, k: int)
    requires Square(m) && FinishedInOrder(m, done)
    requires IsWalk(m, p, false) && |p| >= 2 && 0 <= k < |done| && done[k] == p[0]
    ensures exists k' :: 0 <= k' < k && done[k'] == p[|p| - 1]
  {
    assert Step(m, done[k], p[1], false);
    assert p[1] in done[..k];
    var k1 :| 0 <= k1 < k && done[k1] == p[1];
    if |p| > 2 {
      WalkDescends(m, done, p[1..], k1);
    }
  }

  /** No cycle passes through a finished node. */
  lemma {:induction false} NoCycleThrough(m: Matrix, done: seq<int>, k: int)
    requires Square(m) && FinishedInOrder(m, done) && 0 <= k < |done|
    ensures forall p :: IsWalk(m, p, false) && |p| >= 2 && p[0] == done[k] ==> p[|p| - 1] != done[k]
    decreases k
  {
    forall p | IsWalk(m, p, false) && |p| >= 2 && p[0] == done[k]
      ensures p[|p| - 1] != done[k]
    {
      WalkDescends(m, done, p, k);
      var k' :| 0 <= k' < k && done[k'] == p[|p| - 1];
      NoCycleThrough(m, done, k');
    }
  }

  /** When every node has finished in order, the graph has no cycle. */
  lemma AllFinishedIsAcyclic(m: Matrix, done: seq<int>)
    requires Square(m) && FinishedInOrder(m, done)
    requires forall v :: 0 <= v < |m| ==> v in done
    ensures !HasCycle(m)
  {
    if HasCycle(m) {
      var p :| IsWalk(m, p, false) && |p| >= 2 && p[0] == p[|p| - 1];
      assert 0 <= p[0] < |m|;
      assert p[0] in done;
      var k :| 0 <= k < |done| && done[k] == p[0];
      NoCycleThrough(m, done, k);
    }
  }

  /** Pushing an unvisited node that the top of the stack has an edge to. */
  lemma Push(m: Matrix, visited: seq<bool>, recStack: seq<bool>, path: seq<int>, done: seq<int>, node: int)
    requires Square(m) && SearchInv(m, visited, recStack, path, done)
    requires 0 <= node < |m| && !visited[node]
    requires |path| > 0 ==> Step(m, path[|path| - 1], node, false)
    ensures SearchInv(m, visited[node := true], recStack[node := true], path + [node], done)
    ensures Unvisited(visited[node := true]) < Unvisited(visited)
  {
    var p := path + [node];
    forall v | 0 <= v < |m| ensures recStack[node := true][v] <==> v in p {
      assert v in p <==> v in path || v == node;
    }
    assert node in Unvisited(visited) - Unvisited(visited[node := true]);
  }

  /** Popping node, all of whose successors have finished: it finishes. */
  lemma Pop(m: Matrix, visited: seq<bool>, recStack: seq<bool>, path: seq<int>, done: seq<int>, node: int)
    requires Square(m) && SearchInv(m, visited, recStack, path + [node], done)
    requires 0 <= node < |m| && node !in path
    requires forall w :: Step(m, node, w, false) ==> w in done
    ensures SearchInv(m, visited, recStack[node := false], path, done + [node])
  {
    var d := done + [node];
    assert d[..|done|] == done;
    forall v | 0 <= v < |m| ensures recStack[node := false][v] <==> v in path {
      assert v in path + [node] <==> v in path || v == node;
    }
    forall v | 0 <= v < |m| ensures visited[v] && !recStack[node := false][v] <==> v in d {
      assert v in d <==> v in done || v == node;
    }
    forall k | 0 <= k < |path| - 1 ensures Step(m, path[k], path[k + 1], false) {
      assert path[k] == (path + [node])[k] && path[k + 1] == (path + [node])[k + 1];
    }
    forall k, w | 0 <= k < |d| && Step(m, d[k], w, false) ensures w in d[..k] {
      assert d[..k] == if k < |done| then done[..k] else done;
    }
    assert AllBelow(path, |m|) by {
      forall k | 0 <= k < |path| ensures 0 <= path[k] < |m| {
        assert path[k] == (path + [node])[k];
      }
    }
  }

  /** is_cyclic_helper: true when a node on the recursion stack is met again;
      otherwise node ends up finished and the search state is kept. */
  method IsCyclicHelper(g: Graph, node: nat, visited: array<bool>, recStack: array<bool>,
                        ghost path: seq<int>, ghost done: seq<int>, ghost vis: seq<bool>, ghost rec: seq<bool>)
    returns (cyclic: bool, ghost done': seq<int>, ghost vis': seq<bool>, ghost rec': seq<bool>)
    requires g.Valid() && node < g.numnodes && visited != recStack
    requires Mirrors(visited, vis) && Mirrors(recStack, rec)
    requires SearchInv(g.Adj(), vis, rec, path, done)
    requires |path| > 0 ==> Step(g.Adj(), path[|path| - 1], node, false)
    modifies visited, recStack
    ensures Mirrors(visited, vis') && Mirrors(recStack, rec')
    ensures cyclic ==> HasCycle(g.Adj())
    ensures !cyclic ==> SearchInv(g.Adj(), vis', rec', path, done') && node in done'
    ensures !cyclic ==> Unvisited(vis') <= Unvisited(vis)
    ensures !cyclic ==> forall v :: 0 <= v < |vis| && vis[v] ==> vis'[v]
    ensures !cyclic ==> forall x :: x in done ==> x in done'
    decreases Unvisited(vis), 1
  {
    ghost var m := g.Adj();
    done', vis', rec' := done, vis, rec;
    if recStack[node] {
      BackEdgeCloses(m, path, node);
      return true, done', vis', rec';
    }
    if visited[node] {
      return false, done', vis', rec';
    }
    Push(m, vis, rec, path, done, node);
    visited[node] := true;
    recStack[node] := true;
    cyclic, done', vis', rec' := Explore(g, node, visited, recStack, path, done, vis[node := true], rec[node := true], Unvisited(vis));
    if cyclic {
      return;
    }
    Pop(m, vis', rec', path, done', node);
    recStack[node] := false;
    rec', done' := rec'[node := false], done' + [node];
  }

  /** The loop of is_cyclic_helper over the successors of node, which is on
      top of the recursion stack: each successor is searched in turn, and
      when none closes a cycle all of them have finished. `bound` is the set
      of unvisited nodes before node was pushed. */
  method Explore(g: Graph, node: nat, visited: array<bool>, recStack: array<bool>,
                 ghost path: seq<int>, ghost done: seq<int>, ghost vis: seq<bool>, ghost rec: seq<bool>,
                 ghost bound: set<int>)
    returns (cyclic: bool, ghost done': seq<int>, ghost vis': seq<bool>, ghost rec': seq<bool>)
    requires g.Valid() && node < g.numnodes && visited != recStack
    requires Mirrors(visited, vis) && Mirrors(recStack, rec)
    requires SearchInv(g.Adj(), vis, rec, path + [node], done)
    requires Unvisited(vis) < bound
    modifies visited, recStack
    ensures Mirrors(visited, vis') && Mirrors(recStack, rec')
    ensures cyclic ==> HasCycle(g.Adj())
    ensures !cyclic ==> SearchInv(g.Adj(), vis', rec', path + [node], done') && rec' == rec
    ensures !cyclic ==> Unvisited(vis') <= Unvisited(vis)
    ensures !cyclic ==> forall v :: 0 <= v < |vis| && vis[v] ==> vis'[v]
    ensures !cyclic ==> forall x :: x in done ==> x in done'
    ensures !cyclic ==> forall w :: Step(g.Adj(), node, w, false) ==> w in done'
    decreases bound, 0
  {
    ghost var m := g.Adj();
    done', vis', rec' := done, vis, rec;
    for i := 0 to g.numnodes
      invariant Mirrors(visited, vis') && Mirrors(recStack, rec')
      invariant SearchInv(m, vis', rec', path + [node], done') && rec' == rec
      invariant Unvisited(vis') <= Unvisited(vis)
      invariant forall v :: 0 <= v < |vis| && vis[v] ==> vis'[v]
      invariant forall x :: x in done ==> x in done'
      invariant forall w :: 0 <= w < i && Step(m, node, w, false) ==> w in done'
    {
      if g.edges[node, i] {
        var found;
        found, done', vis', rec' := IsCyclicHelper(g, i, visited, recStack, path + [node], done', vis', rec');
        if found {
          return true, done', vis', rec';
        }
      }
    }
    return false, done', vis', rec';
  }

  /** is_cyclic: runs the helper from every node not yet visited; true
      exactly when the graph has a directed cycle (a self-loop included). */
  method IsCyclic(g: Graph) returns (cyclic: bool)
    requires g.Valid()
    ensures cyclic <==> HasCycle(g.Adj())
  {
    ghost var m := g.Adj();
    var visited := new bool[g.numnodes](_ => false);
    var recStack := new bool[g.numnodes](_ => false);
    ghost var done: seq<int>, vis, rec := [], visited[..], recStack[..];
    for i := 0 to g.numnodes
      invariant Mirrors(visited, vis) && Mirrors(recStack, rec)
      invariant SearchInv(m, vis, rec, [], done)
      invariant forall v :: 0 <= v < i ==> vis[v]
    {
      if !visited[i] {
        var found;
        found, done, vis, rec := IsCyclicHelper(g, i, visited, recStack, [], done, vis, rec);
        if found {
          return true;
        }
      }
    }
    AllFinishedIsAcyclic(m, done);
    return false;
  }
}
