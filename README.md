# Graph-Algorithm-Library in Dafny

A verified model of the algorithmic core of Graph-Algorithm-Library, a small C
library of directed graphs.

- **The graph.** It is stored as an `n x n` boolean adjacency matrix.
- **Graph operations.** The library can:
  - add, remove and query edges;
  - count degrees;
  - transpose and clone a graph;
  - traverse a graph breadth-first and depth-first;
  - detect directed cycles;
  - test connectivity;
  - compute shortest paths (Dijkstra on unit weights) and print them;
  - build a unit-weight Prim spanning tree.
- **The path visualizer.** It is a second part working on a character maze.
  - Three searches (BFS, DFS and a Dijkstra with an unsorted priority buffer) fill a distance table and a predecessor table.
  - `printPath` draws the predecessor chain from the end cell onto a copy of the maze.
- **The friend recommendation.** It recommends to a user every other user reachable along friendships who is not yet a friend.

Modules (one file each):

- `Util`: distinctness, counting, and the ghost "array mirrors sequence" predicates.
- `GraphTheory`: adjacency matrices as values. It defines directed steps and steps that take an edge in either direction, walks, reachability, cycles, the transpose and degree counts.
- `Graphs`: the `Graph` class. It has the node count and the matrix, which is updated in place.
- `Traversal`: `bfs`, `dfs_helper`/`dfs` and `is_connected`.
- `Cycles`: `is_cyclic_helper` and `is_cyclic`.
- `ShortestPath`: `shortest_path_dijkstra` and `print_path`.
- `SpanningTree`: `get_minimum_spanning_tree`.
- `GridTheory`: the maze, the move tables `dx`/`dy`, `isValid`, and walks between cells.
- `GridSearch`: what the three visual searches compute, their running invariants, and the predecessor trail `printPath` follows.
- `GridPaths`: the `Visualizer` class. It holds the maze and the `dist`/`prev` tables, and its searches update those tables in place.
- `Friends`: `recommend_friends`.

The traversals treat an edge as usable in either direction. Cycle detection and the shortest paths use directed edges only. Distances use `INF = INT_MAX` as "unreached", exactly as the C does.

Printed output is modelled as a sequence of values:

- the ids `bfs`/`dfs` print;
- `PathToken`s for `print_path`;
- `Line`s for `recommend_friends`;
- the rows of characters for `printPath`.

## Model

| member | source | states |
|---|---|---|
| Graphs.Graph.constructor | logic.c:9-32 | create_graph: a graph of n nodes with no edge at all |
| Graphs.Graph.HasEdge | logic.c:74-80 | the answer is exactly whether from -> to is in the matrix |
| Graphs.Graph.AddEdge | logic.c:61-71 | returns true exactly when the edge was absent; afterwards the edge is present and every other cell is unchanged |
| Graphs.Graph.RemoveEdge | logic.c:286-296 | returns true exactly when the edge was present; afterwards it is absent and every other cell is unchanged |
| Graphs.Graph.InDegree | logic.c:298-309 | the count is the number of nodes u with an edge u -> node, hence at most n |
| Graphs.Graph.OutDegree | logic.c:311-322 | the count is the number of nodes w with an edge node -> w, hence at most n |
| Graphs.Graph.Transpose | logic.c:268-283 | a fresh graph of the same size whose matrix is the transpose (u -> v exactly when v -> u originally) |
| Graphs.Graph.Clone | logic.c:404-418 | a fresh, separately owned graph with the same edges |
| GraphTheory.TransposeTwice | logic.c:268-283 | transposing twice gives back the original graph |
| GraphTheory.TransposeSwapsDegrees | logic.c:298-322 | in-degree in the transpose equals out-degree in the original and vice versa |
| GraphTheory.DegreesCountNeighbours | logic.c:298-322 | the degree counts equal the sizes of the predecessor and successor sets, both at most n |
| Traversal.Bfs | logic.c:110-140 | the printed order starts at start, repeats no node and holds exactly the nodes connected to start by edges followed in either direction; it is breadth-first: each later node is the least unprinted neighbour of the earliest printed node that still has one, which fixes the order completely |
| Traversal.BreadthFirstExtend | logic.c:122-136 | appending the least new neighbour of a queue entry whose predecessors in the queue have no unprinted neighbour keeps the order breadth-first |
| Traversal.DepthFirstExtend | logic.c:87-94 | appending the least new neighbour of a printed node after which every printed node has all its neighbours printed keeps the order depth-first |
| Traversal.DfsHelper | logic.c:83-95 | the call prints node first, keeps what was printed before, leaves every unvisited neighbour (either direction) of a printed node visited once it returns, and keeps the output in depth-first order |
| Traversal.Dfs | logic.c:98-107 | the same component property as bfs; the order is depth-first: each later node is the least unprinted neighbour of the latest printed node that still has one, which fixes the order completely |
| Traversal.DfsReachesComponent | logic.c:83-107 | a finished depth-first search has printed exactly the component of start |
| Traversal.IsConnected | logic.c:385-402 | true exactly when every node is connected to node 0 by edges followed in either direction; the ids printed on the way are the component of node 0 in depth-first order |
| Cycles.IsCyclicHelper | logic.c:143-169 | a true result means the graph has a directed cycle; a false one leaves node finished after all its successors, with the search state kept |
| Cycles.BackEdgeCloses | logic.c:144-147 | an edge back to a node on the recursion stack closes a directed cycle |
| Cycles.AllFinishedIsAcyclic | logic.c:172-197 | when every node finished after all its successors, there is no directed cycle |
| Cycles.IsCyclic | logic.c:172-197 | true exactly when the graph has a directed cycle, a self-loop included |
| ShortestPath.SelectMin | logic.c:222-230 | -1 exactly when every unvisited node is at INF; otherwise an unvisited node of least finite distance, the lowest-numbered among ties |
| ShortestPath.SelectedIsShortest | logic.c:221-245 | the selected node's distance is the least length of any directed walk from start |
| ShortestPath.Dijkstra | logic.c:202-250 | the tables form a shortest-path tree; the distance of end (of every node when end is -1) is the least walk length, or INF exactly when unreachable |
| ShortestPath.PrintPath | logic.c:253-264 | "No path" exactly when end is not start and has no predecessor; otherwise the printed ids end with end, and when no "No path" appears they start at start with each id's predecessor printed just before it |
| ShortestPath.PrintedWalk | logic.c:253-264 | after Dijkstra, a reached end prints the nodes of a directed walk from start of exactly dist[end] edges, and an unreached end prints "No path" |
| SpanningTree.TreeReaches | logic.c:326-382 | the returned records alone connect node 0 to every node reachable from it |
| SpanningTree.TreeFromParents | logic.c:371-376 | the records built from the final parent table form the rooted tree: weight 1, parent reachable and adjacent, and exactly the reachable nodes have a parent |
| SpanningTree.MinimumSpanningTree | logic.c:326-382 | nothing exactly for an empty graph; otherwise n - 1 records of a tree rooted at node 0 reaching every node reachable from it |
| GridTheory.MovesDiffer | logic.c:428-429 | the four moves of the dx/dy tables lead to four different cells, none of them the cell itself, so a neighbour loop meets each neighbour once |
| GridTheory.MoveStep | logic.c:462-465 | moving to a neighbour that isValid accepts is one step of a walk in the maze |
| GridTheory.CellsBound | logic.c:431-437 | pairwise different in-grid cells number at most rows * cols <= MAX_SIZE * MAX_SIZE, so the static queue and stack never overflow |
| GridPaths.Visualizer.constructor | logic.c:422-437 | the maze, its size, start and end as read, with fresh rows x cols tables |
| GridPaths.Visualizer.ResetMarks | logic.c:469-476 | every cell at INF with no predecessor |
| GridPaths.Visualizer.BfsVisual | logic.c:522-559 | the tables form a search tree from start; end (every cell when end is outside the grid) is at its least number of moves, or INF exactly when it cannot be reached |
| GridPaths.Visualizer.DfsVisual | logic.c:561-598 | the tables form a search tree from start; end (every cell when end is outside the grid) is reached exactly when it can be reached |
| GridPaths.Visualizer.MinIndex | logic.c:486-493 | the index of the first least-distance entry of the priority buffer |
| GridPaths.Visualizer.TakeMin | logic.c:486-496 | removes the first least-distance entry of the buffer and moves the last entry into its slot, so the other entries remain, with no repeats |
| GridPaths.Visualizer.DijkstraVisual | logic.c:467-520 | the same outcome as bfs_visual: a search tree with least distances for end, or for every cell when end is outside the grid |
| GridSearch.TrailWalk | logic.c:600-624 | the predecessor chain of a reached cell is a maze walk from start of exactly its distance; an unreached cell's chain is the cell alone |
| GridSearch.TrailLinks | logic.c:609-614 | the chain ends at the cell, follows predecessors, starts at a cell without one, and repeats no cell, so the loop that follows it ends |
| GridPaths.Visualizer.DrawTrail | logic.c:600-624 | every cell of the copy is '*' on the chain, except 'S' and 'E', and the maze character elsewhere |
| GridPaths.Visualizer.PrintPath | logic.c:600-624 | the printed rows are the maze with the predecessor chain of end marked '*', except the 'S' and 'E' cells |
| Friends.SuggestedMembers | friends_recommendation_system.c:27-35 | an id is recommended exactly when it is not the user, not already a friend and reachable from the user |
| Friends.SuggestedAscending | friends_recommendation_system.c:27-35 | recommendations come in strictly ascending id order, so none is repeated |
| Friends.TwoMovesAway | friends_recommendation_system.c:28-31 | being recommended is the same as being reachable with every walk from the user at least two edges long |
| Friends.FiniteIsReachable | friends_recommendation_system.c:18-31 | after Dijkstra with no end node, a finite distance marks exactly the reachable users |
| Friends.ListRecommendations | friends_recommendation_system.c:26-39 | one "Recommend" line per qualifying id in order, then the "no recommendations" line exactly when there were none |
| Friends.RecommendFriends | friends_recommendation_system.c:6-43 | the header; "invalid user" alone for an id outside the graph; otherwise the recommendation lines, or the "no recommendations" line when there are none |

## Left out

- Console I/O is not modelled. That covers the menus, `print_graph`, `initGrid`'s reading of the maze, and the interleaving of `printf` output. Each printing routine instead returns what it would print.
- `destroy_graph` and every `free` are left out; Dafny's memory is managed.
- Allocation failures are left out. That covers the `NULL` returns of `create_graph`, `clone_graph` and `transpose_graph`, and `recommend_friends`' "Failed to compute shortest paths" branch. The exception is `get_minimum_spanning_tree` on an empty graph, where the model returns `None`. There the C computes the record buffer size `(numnodes - 1) * sizeof(edge)` from an `int` count of 0; the -1 converts to a huge unsigned size, `malloc` fails, and the routine returns `NULL`.
- SpanningTree.MinimumSpanningTree: for a graph of one node the model returns an empty record list. The C then calls `malloc(0)`, which may return `NULL` (implementation-defined), in which case the C returns `NULL` instead.
- `has_path` is only declared in `header.h`, without a body, so it is not part of this model.
- Traversal.IsConnected: requires `numnodes > 0`. With no node, the C calls `dfs_helper` on node 0 of an empty matrix.
- SpanningTree.MinimumSpanningTree: requires at least `n - 1` nodes reachable from node 0. Otherwise a selection round finds no node and the C writes `visited[-1]`. Under this precondition the only such record is the one for a single unreachable node, and its `from` is -1.
- ShortestPath.Dijkstra: requires `numnodes < INT_MAX`, so that no relaxed distance `d + 1` can reach `INF` or overflow a C `int`.
- Friends.RecommendFriends: requires `numnodes < INT_MAX`, for the same reason, since it calls Dijkstra.
- ShortestPath.Dijkstra: the predecessor chosen among several equally short ones is not stated, only that it is adjacent and one edge closer.
- GridPaths.Visualizer.DfsVisual: the distances are depths in the search tree, not least numbers of moves, so only reachability of the end is stated.
- GridPaths.Visualizer.PrintPath: requires a finished search (the tree shape of the tables) and an end cell inside the grid. Called on tables that are not a tree (for instance the zeroed static tables before any search), the C loop need not end.
- GridPaths.Visualizer.constructor: requires `rows` and `cols` to be at most `MAX_SIZE`, every row of the maze to be exactly `cols` characters long, and the start cell inside the grid. The C reads the maze without checks.
- The grid tables are sized `rows x cols` per visualizer rather than the static `MAX_SIZE x MAX_SIZE`. The BFS queue, DFS stack and priority buffer are local arrays of `MAX_SIZE * MAX_SIZE` cells rather than globals. As in the C, where each search resets front, rear and top, no counter carries over between calls.
- The exact wording of the printed messages is abstracted as `Line` and `PathToken` constructors.
