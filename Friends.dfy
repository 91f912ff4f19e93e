/** The friend recommendation of friends_recommendation_system.c: users are
    the nodes of a directed graph and a friendship is an edge. A user is
    recommended every other user that can be reached from them along
    friendships but is not yet their friend, in ascending id order. */
module Friends {
  import opened GraphTheory
  import opened Graphs
  import opened ShortestPath

  /** One line recommend_friends prints. */
  datatype Line =
    | Header(user: int)
    | InvalidUser
    | Recommend(id: int)
    | NoRecommendations

  /** The users below k, in ascending order, that user may be recommended:
      not user themselves, not already a friend, and reachable. */
  ghost function Suggested(m: Matrix, user: int, k: int): (r: seq<int>)
    requires Square(m) && 0 <= user < |m| && 0 <= k <= |m|
    ensures |r| <= k
  {
    if k == 0 then []
    else
      var prior := Suggested(m, user, k - 1);
      if k - 1 != user && !m[user][k - 1] && Reachable(m, user, k - 1, false) then prior + [k - 1] else prior
  }

  /** Exactly the qualifying users below k are suggested. */
  lemma {:induction false} SuggestedMembers(m: Matrix, user: int, k: int)
    requires Square(m) && 0 <= user < |m| && 0 <= k <= |m|
    ensures forall i :: i in Suggested(m, user, k) <==>
              0 <= i < k && i != user && !m[user][i] && Reachable(m, user, i, false)
  {
    if k > 0 {
      SuggestedMembers(m, user, k - 1);
    }
  }

  /** The suggestions come in strictly ascending order, so none repeats. */
  lemma {:induction false} SuggestedAscending(m: Matrix, user: int, k: int)
    requires Square(m) && 0 <= user < |m| && 0 <= k <= |m|
    ensures forall a, b :: 0 <= a < b < |Suggested(m, user, k)| ==>
              Suggested(m, user, k)[a] < Suggested(m, user, k)[b]
  {
    if k > 0 {
      var prior := Suggested(m, user, k - 1);
      SuggestedAscending(m, user, k - 1);
      SuggestedMembers(m, user, k - 1);
      assert forall a :: 0 <= a < |prior| ==> prior[a] in prior;
    }
  }

  /** A recommended user is exactly one whose distance from user is at
      least two moves: reachable, and neither user (no moves) nor a friend
      (one move). */
  lemma TwoMovesAway(m: Matrix, user: int, i: int)
    requires Square(m) && 0 <= user < |m| && 0 <= i < |m|
    ensures i != user && !m[user][i] && Reachable(m, user, i, false) <==>
              Reachable(m, user, i, false) && forall p :: WalkBetween(m, p, user, i, false) ==> |p| - 1 >= 2
  {
    if i == user {
      assert WalkBetween(m, [user], user, i, false);
    } else if m[user][i] {
      assert WalkBetween(m, [user, i], user, i, false);
    } else {
      forall p | WalkBetween(m, p, user, i, false) ensures |p| - 1 >= 2 {
      }
    }
  }

  /** The lines for a list of recommended ids. */
  function Recommendations(ids: seq<int>): (r: seq<Line>)
    ensures |r| == |ids| && forall j :: 0 <= j < |ids| ==> r[j] == Recommend(ids[j])
  {
    if ids == [] then [] else Recommendations(ids[..|ids| - 1]) + [Recommend(ids[|ids| - 1])]
  }

  /** Printing one more id adds one line at the end. */
  lemma RecommendationsAppend(ids: seq<int>, x: int)
    ensures Recommendations(ids + [x]) == Recommendations(ids) + [Recommend(x)]
  {
    assert (ids + [x])[..|ids|] == ids;
  }

  /** recommend_friends: the header; then "invalid user" for an id outside
      the graph; otherwise one line per recommended user in ascending order,
      or the "no recommendations" line when there is none. The distances
      come from shortest_path_dijkstra with no end node. */
  method RecommendFriends(g: Graph, user: int) returns (lines: seq<Line>)
    requires g.Valid() && g.numnodes < INT_MAX
    ensures !(0 <= user < g.numnodes) ==> lines == [Header(user), InvalidUser]
    ensures 0 <= user < g.numnodes ==>
              var ids := Suggested(g.Adj(), user, g.numnodes);
              lines == [Header(user)] + Recommendations(ids) + (if ids == [] then [NoRecommendations] else [])
  {
    lines := [Header(user)];
    if user < 0 || user >= g.numnodes {
      lines := lines + [InvalidUser];
      return;
    }
    var distances, predecessors := Dijkstra(g, user, -1);
    FiniteIsReachable(g.Adj(), user, distances);
    var listed := ListRecommendations(g, user, distances);
    lines := lines + listed;
  }

  /** Dijkstra with no end node leaves a finite distance exactly at the
      reachable nodes. */
  lemma FiniteIsReachable(m: Matrix, user: int, distances: seq<int>)
    requires Square(m) && |distances| == |m|
    requires forall v :: 0 <= v < |m| ==> IsDistance(m, user, v, distances[v])
    ensures forall v :: 0 <= v < |m| ==> (distances[v] != INT_MAX <==> Reachable(m, user, v, false))
  {
    forall v | 0 <= v < |m| ensures distances[v] != INT_MAX <==> Reachable(m, user, v, false) {
      assert IsDistance(m, user, v, distances[v]);
    }
  }

  /** The loop of recommend_friends over all ids, given the distances from
      user: each qualifying id is printed and counted, and the count decides
      the closing line. */
  method ListRecommendations(g: Graph, user: int, distances: seq<int>) returns (lines: seq<Line>)
    requires g.Valid() && 0 <= user < g.numnodes && |distances| == g.numnodes
    requires forall v :: 0 <= v < g.numnodes ==> (distances[v] != INT_MAX <==> Reachable(g.Adj(), user, v, false))
    ensures var ids := Suggested(g.Adj(), user, g.numnodes);
            lines == Recommendations(ids) + (if ids == [] then [NoRecommendations] else [])
  {
    ghost var m := g.Adj();
    var recommendations := 0;
    lines := [];
    for i := 0 to g.numnodes
      invariant recommendations == |Suggested(m, user, i)|
      invariant lines == Recommendations(Suggested(m, user, i))
    {
      if i == user {
        continue;
      }
      if !g.HasEdge(user, i) && distances[i] != INT_MAX {
        RecommendationsAppend(Suggested(m, user, i), i);
        lines := lines + [Recommend(i)];
        recommendations := recommendations + 1;
      }
    }
    if recommendations == 0 {
      lines := lines + [NoRecommendations];
    }
  }
}
