/** The mathematics the graph algorithms are specified against: a directed
    graph over the nodes 0 .. n-1 given as a square boolean matrix, walks
    along its edges (optionally ignoring their direction), reachability,
    directed cycles, the transpose and the degree counts. */
module GraphTheory {

  /** m[u][v] holds when there is a directed edge u -> v. */
  type Matrix = seq<seq<bool>>

  /** Every row has one cell per node. */
  predicate Square(m: Matrix) {
    forall i :: 0 <= i < |m| ==> |m[i]| == |m|
  }

  /** One step of a walk from u to v: along an edge u -> v or, when the walk
      is undirected, also against an edge v -> u. */
  predicate Step(m: Matrix, u: int, v: int, undirected: bool)
    requires Square(m)
  {
    0 <= u < |m| && 0 <= v < |m| && (m[u][v] || (undirected && m[v][u]))
  }

  /** p is a non-empty sequence of nodes, each a step away from the one before. */
  ghost predicate IsWalk(m: Matrix, p: seq<int>, undirected: bool)
    requires Square(m)
  {
    && |p| >= 1
    && (forall k :: 0 <= k < |p| ==> 0 <= p[k] < |m|)
    && (forall k :: 0 <= k < |p| - 1 ==> Step(m, p[k], p[k + 1], undirected))
  }

  /** p is a walk that starts at s and ends at t. */
  ghost predicate WalkBetween(m: Matrix, p: seq<int>, s: int, t: int, undirected: bool)
    requires Square(m)
  {
    IsWalk(m, p, undirected) && p[0] == s && p[|p| - 1] == t
  }

  /** t can be reached from s by following steps. */
  ghost predicate Reachable(m: Matrix, s: int, t: int, undirected: bool)
    requires Square(m)
  {
    exists p :: WalkBetween(m, p, s, t, undirected)
  }

  /** Some directed walk of at least one edge returns to where it started;
      a self-loop m[i][i] is such a walk. */
  ghost predicate HasCycle(m: Matrix)
    requires Square(m)
  {
    exists p :: IsWalk(m, p, false) && |p| >= 2 && p[0] == p[|p| - 1]
  }

  /** A walk followed by one more step is a walk. */
  lemma WalkAppend(m: Matrix, p: seq<int>, v: int, undirected: bool)
    requires Square(m) && IsWalk(m, p, undirected) && Step(m, p[|p| - 1], v, undirected)
    ensures IsWalk(m, p + [v], undirected) && (p + [v])[0] == p[0]
  {
    var q := p + [v];
    forall k | 0 <= k < |q| - 1 ensures Step(m, q[k], q[k + 1], undirected) {
      if k < |p| - 1 {
        assert q[k] == p[k] && q[k + 1] == p[k + 1];
      }
    }
  }

  lemma ReachableSelf(m: Matrix, s: int, undirected: bool)
    requires Square(m) && 0 <= s < |m|
    ensures Reachable(m, s, s, undirected)
  {
    assert WalkBetween(m, [s], s, s, undirected);
  }

  /** A walk to u extends by one step to a walk to v. */
  lemma ReachableStep(m: Matrix, s: int, u: int, v: int, undirected: bool)
    requires Square(m) && Reachable(m, s, u, undirected) && Step(m, u, v, undirected)
    ensures Reachable(m, s, v, undirected)
  {
    var p :| WalkBetween(m, p, s, u, undirected);
    assert WalkBetween(m, p + [v], s, v, undirected);
  }

  /** A set of nodes that holds the start of a walk and is closed under steps
      holds the whole walk, and in particular its end. */
  lemma {:induction false} ClosedSetHoldsWalk(m: Matrix, closed: set<int>, p: seq<int>, undirected: bool)
    requires Square(m) && IsWalk(m, p, undirected) && p[0] in closed
    requires forall u, v :: u in closed && Step(m, u, v, undirected) ==> v in closed
    ensures p[|p| - 1] in closed
  {
    if |p| > 1 {
      assert Step(m, p[0], p[1], undirected);
      ClosedSetHoldsWalk(m, closed, p[1..], undirected);
    }
  }

  /** The same fact stated for reachability. */
  lemma ClosedSetHoldsReachable(m: Matrix, closed: set<int>, s: int, t: int, undirected: bool)
    requires Square(m) && s in closed && Reachable(m, s, t, undirected)
    requires forall u, v :: u in closed && Step(m, u, v, undirected) ==> v in closed
    ensures t in closed
  {
    var p :| WalkBetween(m, p, s, t, undirected);
    ClosedSetHoldsWalk(m, closed, p, undirected);
  }

  /** The matrix with cell (u, v) set to b. */
  function WithCell(m: Matrix, u: int, v: int, b: bool): (r: Matrix)
    requires Square(m) && 0 <= u < |m| && 0 <= v < |m|
    ensures Square(r) && |r| == |m|
    ensures forall i, j :: 0 <= i < |m| && 0 <= j < |m| ==>
              r[i][j] == if i == u && j == v then b else m[i][j]
  {
    m[u := m[u][v := b]]
  }

  /** Writing a cell with the value it already holds changes nothing. */
  lemma WithCellUnchanged(m: Matrix, u: int, v: int, b: bool)
    requires Square(m) && 0 <= u < |m| && 0 <= v < |m| && m[u][v] == b
    ensures WithCell(m, u, v, b) == m
  {
    assert m[u][v := b] == m[u];
  }

  /** The matrix with every edge reversed. */
  function Transposed(m: Matrix): (t: Matrix)
    requires Square(m)
    ensures Square(t) && |t| == |m|
    ensures forall i, j :: 0 <= i < |m| && 0 <= j < |m| ==> t[j][i] == m[i][j]
  {
    seq(|m|, i requires 0 <= i < |m| => seq(|m|, j requires 0 <= j < |m| => m[j][i]))
  }

  /** Reversing every edge twice gives back the original matrix. */
  lemma TransposeTwice(m: Matrix)
    requires Square(m)
    ensures Transposed(Transposed(m)) == m
  {
    var tt := Transposed(Transposed(m));
    forall i | 0 <= i < |m| ensures tt[i] == m[i] {
      assert |tt[i]| == |m[i]|;
    }
  }

  /** The number of true cells in s. */
  function CountTrue(s: seq<bool>): (c: nat)
    ensures c <= |s|
  {
    if s == [] then 0 else CountTrue(s[..|s| - 1]) + (if s[|s| - 1] then 1 else 0)
  }

  /** CountTrue is the size of the set of positions holding true. */
  lemma {:induction false} CountTrueIsCard(s: seq<bool>)
    ensures CountTrue(s) == |set i | 0 <= i < |s| && s[i]|
  {
    if s != [] {
      var init := s[..|s| - 1];
      CountTrueIsCard(init);
      var before := set i | 0 <= i < |init| && init[i];
      var after := set i | 0 <= i < |s| && s[i];
      if s[|s| - 1] {
        assert after == before + {|s| - 1};
      } else {
        assert after == before;
      }
    }
  }

  /** Column v: for every node u, whether u -> v is an edge. */
  function Column(m: Matrix, v: int): (c: seq<bool>)
    requires Square(m) && 0 <= v < |m|
    ensures |c| == |m| && forall u :: 0 <= u < |m| ==> c[u] == m[u][v]
  {
    seq(|m|, u requires 0 <= u < |m| => m[u][v])
  }

  /** The number of edges u -> v. */
  function InDegreeOf(m: Matrix, v: int): nat
    requires Square(m) && 0 <= v < |m|
  {
    CountTrue(Column(m, v))
  }

  /** The number of edges v -> w. */
  function OutDegreeOf(m: Matrix, v: int): nat
    requires Square(m) && 0 <= v < |m|
  {
    CountTrue(m[v])
  }

  /** Degrees count neighbours: the in-degree is the number of nodes with an
      edge into v, the out-degree the number of nodes v has an edge to, and so
      both lie in [0, n]. */
  lemma DegreesCountNeighbours(m: Matrix, v: int)
    requires Square(m) && 0 <= v < |m|
    ensures InDegreeOf(m, v) == |set u | 0 <= u < |m| && m[u][v]| <= |m|
    ensures OutDegreeOf(m, v) == |set w | 0 <= w < |m| && m[v][w]| <= |m|
  {
    var col := Column(m, v);
    CountTrueIsCard(col);
    assert (set u | 0 <= u < |col| && col[u]) == (set u | 0 <= u < |m| && m[u][v]);
    CountTrueIsCard(m[v]);
  }

  /** Transposing swaps the roles of in- and out-degree. */
  lemma TransposeSwapsDegrees(m: Matrix, v: int)
    requires Square(m) && 0 <= v < |m|
    ensures InDegreeOf(Transposed(m), v) == OutDegreeOf(m, v)
    ensures OutDegreeOf(Transposed(m), v) == InDegreeOf(m, v)
  {
    var t := Transposed(m);
    assert Column(t, v) == m[v];
    assert t[v] == Column(m, v);
  }
}
