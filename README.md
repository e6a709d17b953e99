# Kruskal's minimum spanning tree over a disjoint-set union

This project models `algorithm.py` of a small Kruskal visualiser. That file holds two things:

- **`DSU`, the disjoint-set-union structure.** It keeps two lists over the node ids `0 .. n-1`, `parent` and `rank`.
  - `find` follows parent pointers recursively to the root. On the way back it points every visited node straight at the root (path compression).
  - `union` finds both roots. If they differ, it hangs the lower-ranked root below the other. On a tie, `j`'s root goes below `i`'s.
- **`kruskal`, the driver.** It sorts a copy of the `(weight, u, v)` triples and offers each edge in turn to `union`. Every edge that merges two components is kept as `(u, v, weight)` and its weight is added to the total. The loop stops once `n - 1` edges are kept.

The Dafny files:

- `counting.dfy`: the set of node ids, and a counting fact about sets.
- `edges.dfy`: the input triple `Edge` and the output triple `TreeEdge`. It also holds Python's lexicographic tuple order and `SortEdges`, the sorted copy `sorted(edges)` takes, which is proved sorted and a permutation of its input.
- `unionfind.dfy`: the `DSU` class.
  - It has two arrays, `parent` and `rank`, as in the source.
  - A ghost distance sequence witnesses that the parent graph has no cycle.
  - Its meaning (the representative of every node, and the set of roots) is defined over values, and the methods are proved against it.
- `connectivity.dfy`: an independent reference for which nodes a list of edges connects, namely a quick-find relabelling. It is shown to be the finest partition that agrees on every edge. It also holds facts about forests: component count, size bound, spanning.
- `kruskal.dfy`:
  - `KruskalSpec`, the greedy choice stated as a function over values, and the lemmas saying what its result is;
  - the method `Kruskal`, whose loop over the sorted copy drives a real `DSU`. It is proved to return `KruskalSpec` and the weight of it. Its loop keeps the union-find partition equal to the reference partition of the edges accepted so far.
- `scenarios.dfy`: the graphs from `test-algorithm.py`, with the result `KruskalSpec` gives on each.

Where the code departs from the textbook algorithm, the model follows the code:

- **Rank update.** Textbook union by rank raises a rank only when two roots of equal rank are linked. Here `rank[root_i] += 1` (`algorithm.py:24`) runs after every merge, including the one that hangs `root_i` below `root_j`. A parent's rank can therefore equal its child's. Rank does not grow strictly toward the root and cannot serve as the decreasing measure of `find`, so acyclicity is carried by the separate ghost distance witness.
- **Cycle check.** `kruskal` does not query `find` before merging. It calls `union` directly and uses its result as the cycle check (`algorithm.py:35`).

## Model

| member | source | states |
|---|---|---|
| Edges.LeTotalOrder | algorithm.py:29 | The lexicographic order on `(weight, u, v)` is reflexive, total, antisymmetric and transitive. |
| Edges.Insert | algorithm.py:29 | Inserting an edge into a sorted list keeps it sorted and adds exactly that edge, as a multiset. |
| Edges.SortEdges | algorithm.py:29 | The copy is sorted and is a permutation of the input, with the same length. |
| Edges.SortedUnique | algorithm.py:29 | Any two sorted permutations of the same edges are equal, so the stability of the sort does not matter. |
| UnionFind.RootOf | algorithm.py:8-12 | Following parents from `x` ends at a root (`p[r] == r`), and the witness distance strictly drops below a non-root. |
| UnionFind.RepsAreRoots | algorithm.py:8-12 | The representatives are exactly the roots. The representative of a representative is itself, so `find(find(i)) == find(i)`. A node is its own representative iff it is a root. |
| UnionFind.Compress | algorithm.py:11 | Pointing a node at its root keeps the parent graph acyclic and leaves every node's representative unchanged. |
| UnionFind.Link | algorithm.py:19-23 | Hanging root `a` below root `b` keeps the graph acyclic. The two classes merge under `b` and every other representative stays. `a` stops being a root and the root count drops by one. |
| UnionFind.Singletons | algorithm.py:5 | The identity parent list is acyclic. Every node is its own representative, and the roots are all `n` nodes. |
| UnionFind.DSU.constructor | algorithm.py:4-6 | Both arrays have length `n`, with `parent[x] == x` and `rank[x] == 0`. There are `n` singleton components. |
| UnionFind.DSU.Find | algorithm.py:8-12 | Returns the old representative `r` of `i`, a root that represents itself, and leaves `parent[i] == r`. Representatives and roots are unchanged, and only entries rewritten to `r` change. |
| UnionFind.DSU.Union | algorithm.py:14-26 | Returns true iff `i` and `j` had different representatives. On false, the partition, the roots and `rank` are unchanged. On true, the loser root (lower rank, else `j`'s) points at the winner, the two classes merge, one root disappears, and `rank[root_i]` grows by one. In every case, only entries rewritten to one of the two old representatives change in `parent`. |
| Connectivity.EdgeJoins | algorithm.py:35-36 | An accepted edge connects its endpoints. |
| Connectivity.ConnectedGrows | algorithm.py:35-36 | Adding edges never disconnects two nodes. |
| Connectivity.MemberConnected | algorithm.py:35-36 | The endpoints of every listed edge are connected. |
| Connectivity.LeastPartition | algorithm.py:35 | The reference connectivity is the finest labelling in which every edge's endpoints agree. |
| Connectivity.Subsumes | algorithm.py:35 | If one edge list connects the endpoints of every edge of another, it connects everything the other does. |
| Connectivity.RelabelCount | algorithm.py:35-36 | Joining two different components removes exactly one label. |
| Connectivity.ForestExtend | algorithm.py:35-36 | Appending an edge between unconnected nodes keeps the edges a forest. |
| Connectivity.ForestComponents | algorithm.py:35-38 | A forest of `m` edges on `n` nodes has `n - m` components. |
| Connectivity.ForestSize | algorithm.py:38-39 | A forest on at least one node has at most `n - 1` edges. |
| Connectivity.ForestNoSelfLoop | algorithm.py:35-36 | A forest holds no self-loop. |
| Connectivity.SpanningTree | algorithm.py:38-39 | A forest of `n - 1` edges connects every pair of nodes. |
| Kruskal.Greedy | algorithm.py:34-39 | The greedy pass only appends to what was accepted before, and every endpoint stays a node id. |
| Kruskal.SortedIn | algorithm.py:29 | The sorted copy holds exactly the input edges, all with node ids in range. |
| Kruskal.GreedyForest | algorithm.py:34-39 | Starting from a forest, the greedy pass yields a forest. |
| Kruskal.GreedyFromInput | algorithm.py:34-36 | Every edge the greedy pass adds is one of the offered edges, reordered as `(u, v, weight)`. |
| Kruskal.GreedySpans | algorithm.py:34-39 | The result connects the endpoints of every edge still to be offered, whether that edge was accepted, rejected as closing a cycle, or skipped by the early stop. |
| Kruskal.GreedyAscending | algorithm.py:34-36 | Over a sorted list, edges are accepted in ascending `(weight, u, v)` order. |
| Kruskal.KruskalSpecForest | algorithm.py:35-39 | The accepted edges form a forest without self-loops, of at most `n - 1` edges when `n >= 1`. |
| Kruskal.KruskalSpecFromInput | algorithm.py:36 | Every accepted edge is an input edge. |
| Kruskal.KruskalSpecSpans | algorithm.py:34-39 | The accepted edges connect the endpoints of every input edge. |
| Kruskal.KruskalSpecAscending | algorithm.py:29-36 | Accepted edges come out in ascending `(weight, u, v)` order. |
| Kruskal.KruskalSpecSpanningIff | algorithm.py:38-39 | On at least one node, exactly `n - 1` edges are accepted iff the input graph is connected. |
| Kruskal.MergeKeepsPartition | algorithm.py:35-36 | Merging the union-find classes of `u` and `v` keeps them equal to the reference partition after the edge `(u, v)` is added. |
| Kruskal.SumAppend | algorithm.py:37 | Appending an edge adds its weight to the total. |
| Kruskal.OfferStep | algorithm.py:35-39 | One pass of the loop. Accepting when the union-find merges (or skipping when it does not) is the greedy step, and the reference partition stays equal to the union-find one. |
| Kruskal.KruskalSpecProperties | algorithm.py:28-40 | The result is a forest of input edges without self-loops. It connects the endpoints of every input edge and comes in ascending order. It has at most `n - 1` edges, and exactly `n - 1` iff the graph is connected. |
| Kruskal.Offer | algorithm.py:35-39 | One loop iteration on a real `DSU`. `union` merges iff the endpoints were not yet connected by the accepted edges. The edge is appended iff it merged and its weight is added; the union-find partition stays equal to the reference one, and the step is one step of `Greedy`. |
| Kruskal.Kruskal | algorithm.py:28-40 | Returns `KruskalSpec(n, edges)` and the sum of its weights. |
| Scenarios.NoEdges | test-algorithm.py:84-99 | Without edges nothing is accepted and the total is 0, for any number of nodes. |
| Scenarios.ConnectedSorted | test-algorithm.py:12-18 | The connected test graph is sorted into weight order. |
| Scenarios.ConnectedRun | test-algorithm.py:20-22 | Over that order the greedy pass keeps (0,1,1), (1,2,2) and (1,3,4). |
| Scenarios.ConnectedGraph | test-algorithm.py:24-33 | On the connected test graph, three edges of total weight 7 are accepted. |
| Scenarios.DisconnectedRun | test-algorithm.py:47-50 | On the two separate pairs, both edges are accepted. |
| Scenarios.DisconnectedGraph | test-algorithm.py:53-56 | Two edges, fewer than `n - 1`, of total weight 11. |
| Scenarios.TriangleRun | test-algorithm.py:61-65 | Over the triangle, the greedy pass keeps (0,1,1) and (1,2,2). |
| Scenarios.TriangleSkipsCycle | test-algorithm.py:67-81 | Two edges of total weight 3, and the cycle edge (0,2,5) is not among them. |
| Scenarios.EqualWeightsSorted | test-algorithm.py:104-109 | Equal weights are ordered by `u`, then `v`. |
| Scenarios.EqualWeightsRun | test-algorithm.py:104-110 | Over that order, (0,1,10), (0,3,10) and (1,2,10) are kept. |
| Scenarios.EqualWeights | test-algorithm.py:112-114 | Ties are broken by `(u, v)`: three edges of total weight 30 are kept, and (2,3,10) is not among them. |

## Left out

- The step trace. `app.py:61` and `test-algorithm.py:27` unpack three values from `kruskal`, but `algorithm.py:40` returns two: the edges and the weight. No code producing the trace exists, so none is modelled.
- app.py is not part of this model (Streamlit widgets, warnings, and parsing weights and node ids with `int()`). Its range filter on node ids (`app.py:36`) is the precondition `EdgesIn` of `Kruskal`. Weights are unbounded integers.
- utils.py is not part of this model: drawing with networkx and matplotlib.
- Minimality of the total weight (the cut property) is not proved. The properties proved are the forest, spanning, ordering, size and weight-sum facts above.
- UnionFind.DSU.Union: no bound on `rank` is stated. Because of the increment on every merge, the usual bound of rank by the base-2 logarithm of the tree size does not hold: `union(0, 1)`, `union(0, 2)` and `union(0, 3)` leave node 0 with rank 3 on four nodes. Neither that bound nor the weaker facts that still hold (a parent's rank is at least its child's, and a tree is no taller than its root's rank) are modelled.
- Kruskal.Kruskal: its postcondition is that it returns `KruskalSpec(n, edges)` and the sum of its weights. The properties of that result are stated once, in `Kruskal.KruskalSpecProperties`.
- Python's `sorted` is modelled by an insertion sort. `Edges.SortedUnique` shows that any sorted permutation is that same sequence.
