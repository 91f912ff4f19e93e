/** The graph container of logic.c: a fixed node count and an n x n boolean
    adjacency matrix updated in place. */
module Graphs {
  import opened GraphTheory

  /** The largest C `int`; the library also uses it as "infinite distance". */
  const INT_MAX: int := 0x7FFF_FFFF

  class Graph {
    /** The node count, fixed at creation (a C `int`). */
    const numnodes: nat
    /** edges[u, v] holds when there is a directed edge u -> v. */
    const edges: array2<bool>

    ghost predicate Valid() {
      edges.Length0 == numnodes && edges.Length1 == numnodes && numnodes <= INT_MAX
    }

    /** The adjacency matrix as a value. */
    ghost function Adj(): (m: Matrix)
      reads edges
      requires Valid()
      ensures Square(m) && |m| == numnodes
      ensures forall i, j :: 0 <= i < numnodes && 0 <= j < numnodes ==> m[i][j] == edges[i, j]
    {
      seq(numnodes, i requires 0 <= i < numnodes reads edges =>
        seq(numnodes, j requires 0 <= j < numnodes reads edges => edges[i, j]))
    }

    /** create_graph: n nodes and no edges. */
    constructor (n: nat)
      requires n <= INT_MAX
      ensures Valid() && numnodes == n && fresh(edges)
      ensures forall i, j :: 0 <= i < n && 0 <= j < n ==> !edges[i, j]
    {
      numnodes := n;
      edges := new bool[n, n]((i, j) => false);
    }

    /** has_edge: whether from -> to is an edge. */
    function HasEdge(from: nat, to: nat): (b: bool)
      reads edges
      requires Valid() && from < numnodes && to < numnodes
      ensures b <==> Adj()[from][to]
    {
      edges[from, to]
    }

    /** add_edge: false and no change when the edge exists; otherwise the
        edge is set, nothing else changes, and the result is true. */
    method AddEdge(from: nat, to: nat) returns (added: bool)
      requires Valid() && from < numnodes && to < numnodes
      modifies edges
      ensures added == !old(Adj()[from][to])
      ensures Adj() == WithCell(old(Adj()), from, to, true)
    {
      if HasEdge(from, to) {
        WithCellUnchanged(Adj(), from, to, true);
        return false;
      }
      edges[from, to] := true;
      AdjIsWithCell(old(Adj()), from, to, true);
      return true;
    }

    /** remove_edge: false and no change when the edge is absent; otherwise
        the edge is cleared, nothing else changes, and the result is true. */
    method RemoveEdge(from: nat, to: nat) returns (removed: bool)
      requires Valid() && from < numnodes && to < numnodes
      modifies edges
      ensures removed == old(Adj()[from][to])
      ensures Adj() == WithCell(old(Adj()), from, to, false)
    {
      if !HasEdge(from, to) {
        WithCellUnchanged(Adj(), from, to, false);
        return false;
      }
      edges[from, to] := false;
      AdjIsWithCell(old(Adj()), from, to, false);
      return true;
    }

    /** The matrix now differs from `before` in cell (u, v) alone, which holds b. */
    lemma AdjIsWithCell(before: Matrix, u: nat, v: nat, b: bool)
      requires Valid() && Square(before) && |before| == numnodes && u < numnodes && v < numnodes
      requires forall i, j :: 0 <= i < numnodes && 0 <= j < numnodes ==>
                 edges[i, j] == if i == u && j == v then b else before[i][j]
      ensures Adj() == WithCell(before, u, v, b)
    {
      var now, want := Adj(), WithCell(before, u, v, b);
      forall i | 0 <= i < numnodes ensures now[i] == want[i] {
        assert |now[i]| == |want[i]|;
      }
    }

    /** get_in_degree: counts the edges into node. */
    method InDegree(node: nat) returns (count: nat)
      requires Valid() && node < numnodes
      ensures count == InDegreeOf(Adj(), node)
      ensures count == |set u | 0 <= u < numnodes && Adj()[u][node]|
      ensures count <= numnodes
    {
      ghost var col := Column(Adj(), node);
      count := 0;
      for i := 0 to numnodes
        invariant count == CountTrue(col[..i])
      {
        assert col[..i + 1][..i] == col[..i];
        if edges[i, node] {
          count := count + 1;
        }
      }
      assert col[..numnodes] == col;
      DegreesCountNeighbours(Adj(), node);
    }

    /** get_out_degree: counts the edges out of node. */
    method OutDegree(node: nat) returns (count: nat)
      requires Valid() && node < numnodes
      ensures count == OutDegreeOf(Adj(), node)
      ensures count == |set w | 0 <= w < numnodes && Adj()[node][w]|
      ensures count <= numnodes
    {
      ghost var row := Adj()[node];
      count := 0;
      for i := 0 to numnodes
        invariant count == CountTrue(row[..i])
      {
        assert row[..i + 1][..i] == row[..i];
        if edges[node, i] {
          count := count + 1;
        }
      }
      assert row[..numnodes] == row;
      DegreesCountNeighbours(Adj(), node);
    }

    /** transpose_graph: a new, independently owned graph with every edge
        reversed. */
    method Transpose() returns (t: Graph)
      requires Valid()
      ensures fresh(t) && fresh(t.edges) && t.Valid() && t.numnodes == numnodes
      ensures t.Adj() == Transposed(Adj())
    {
      t := new Graph(numnodes);
      for i := 0 to numnodes
        invariant t.Valid() && t.numnodes == numnodes
        invariant forall a, b :: 0 <= a < numnodes && 0 <= b < numnodes ==>
                    t.edges[b, a] == (a < i && edges[a, b])
      {
        for j := 0 to numnodes
          invariant t.Valid() && t.numnodes == numnodes
          invariant forall a, b :: 0 <= a < numnodes && 0 <= b < numnodes ==>
                      t.edges[b, a] == ((a < i || (a == i && b < j)) && edges[a, b])
        {
          if edges[i, j] {
            var _ := t.AddEdge(j, i);
          }
        }
      }
      assert t.Adj() == Transposed(Adj()) by {
        var tm, want := t.Adj(), Transposed(Adj());
        forall a | 0 <= a < numnodes ensures tm[a] == want[a] {
          assert |tm[a]| == |want[a]|;
        }
      }
    }

    /** clone_graph: a new, independently owned graph with the same edges. */
    method Clone() returns (c: Graph)
      requires Valid()
      ensures fresh(c) && fresh(c.edges) && c.Valid() && c.numnodes == numnodes
      ensures c.Adj() == Adj()
    {
      c := new Graph(numnodes);
      for i := 0 to numnodes
        invariant c.Valid() && c.numnodes == numnodes
        invariant forall a, b :: 0 <= a < numnodes && 0 <= b < numnodes ==>
                    c.edges[a, b] == (a < i && edges[a, b])
      {
        for j := 0 to numnodes
          invariant c.Valid() && c.numnodes == numnodes
          invariant forall a, b :: 0 <= a < numnodes && 0 <= b < numnodes ==>
                      c.edges[a, b] == ((a < i || (a == i && b < j)) && edges[a, b])
        {
          c.edges[i, j] := edges[i, j];
        }
      }
      assert c.Adj() == Adj() by {
        var cm, m := c.Adj(), Adj();
        forall a | 0 <= a < numnodes ensures cm[a] == m[a] {
          assert |cm[a]| == |m[a]|;
        }
      }
    }
  }
}
