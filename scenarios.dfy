/** The graphs the repository's test suite runs `kruskal` on, with the
    result `KruskalSpec` gives for each. `Kruskal` returns
    `KruskalSpec(n, edges)` and its weight, so these are the algorithm's
    outputs on those graphs. Each scenario is split into the sorted order of
    its literal input and the greedy run over that order, which Dafny
    evaluates, and a lemma that puts the two together.

    The lemmas about a whole scenario take the test's edge list as a
    parameter fixed by their precondition rather than writing the literal
    into the conclusion: with the literal there, the verifier would try to
    evaluate the sort on it directly, which is far more costly than the
    proof through `SortedUnique`. */
module Scenarios {
  import opened Edges
  import opened Connectivity
  import opened Kruskal

  /** Without edges nothing is accepted, whatever the number of nodes: a
      single node, or five isolated ones. */
  lemma NoEdges(n: nat)
    ensures EdgesIn(n, []) && KruskalSpec(n, []) == [] && Sum(KruskalSpec(n, [])) == 0
  {
  }

  /** The total weight of a two-edge forest. */
  lemma SumTwo(a: TreeEdge, b: TreeEdge)
    ensures Sum([a, b]) == a.weight + b.weight
  {
    assert [a][..0] == [];
    assert Sum([a]) == a.weight;
    assert [a, b][..1] == [a];
  }

  /** The total weight of a three-edge tree. */
  lemma SumThree(a: TreeEdge, b: TreeEdge, c: TreeEdge)
    ensures Sum([a, b, c]) == a.weight + b.weight + c.weight
  {
    SumTwo(a, b);
    assert [a, b, c][..2] == [a, b];
  }

  // Four nodes, five edges: a connected graph.

  /** The input reordered by weight: a sorted permutation of it. */
  lemma ConnectedOrder()
    ensures Sorted([Edge(1, 0, 1), Edge(2, 1, 2), Edge(3, 0, 2), Edge(4, 1, 3), Edge(5, 2, 3)])
  {
  }

  lemma ConnectedPermutation()
    ensures multiset([Edge(1, 0, 1), Edge(3, 0, 2), Edge(2, 1, 2), Edge(4, 1, 3), Edge(5, 2, 3)]) == multiset([Edge(1, 0, 1), Edge(2, 1, 2), Edge(3, 0, 2), Edge(4, 1, 3), Edge(5, 2, 3)])
  {
  }

  lemma ConnectedSorted(edges: seq<Edge>)
    requires edges == [Edge(1, 0, 1), Edge(3, 0, 2), Edge(2, 1, 2), Edge(4, 1, 3), Edge(5, 2, 3)]
    ensures SortEdges(edges) == [Edge(1, 0, 1), Edge(2, 1, 2), Edge(3, 0, 2), Edge(4, 1, 3), Edge(5, 2, 3)]
  {
    ConnectedOrder();
    ConnectedPermutation();
    SortedUnique(SortEdges(edges), [Edge(1, 0, 1), Edge(2, 1, 2), Edge(3, 0, 2), Edge(4, 1, 3), Edge(5, 2, 3)]);
  }

  lemma ConnectedRun()
    ensures EdgesIn(4, [Edge(1, 0, 1), Edge(2, 1, 2), Edge(3, 0, 2), Edge(4, 1, 3), Edge(5, 2, 3)])
    ensures Greedy(4, [Edge(1, 0, 1), Edge(2, 1, 2), Edge(3, 0, 2), Edge(4, 1, 3), Edge(5, 2, 3)], 0, []) ==
      [TreeEdge(0, 1, 1), TreeEdge(1, 2, 2), TreeEdge(1, 3, 4)]
  {
  }

  /** Three edges, total weight 7; (0, 2, 3) closes a cycle and (2, 3, 5)
      comes after the tree is complete. */
  lemma ConnectedGraph(edges: seq<Edge>)
    requires edges == [Edge(1, 0, 1), Edge(3, 0, 2), Edge(2, 1, 2), Edge(4, 1, 3), Edge(5, 2, 3)]
    ensures var mst := KruskalSpec(4, edges);
      mst == [TreeEdge(0, 1, 1), TreeEdge(1, 2, 2), TreeEdge(1, 3, 4)] &&
      |mst| == 4 - 1 && Sum(mst) == 7
  {
    ConnectedSorted(edges);
    ConnectedRun();
    SumThree(TreeEdge(0, 1, 1), TreeEdge(1, 2, 2), TreeEdge(1, 3, 4));
  }

  // Four nodes in two separate pairs.

  lemma DisconnectedOrder()
    ensures Sorted([Edge(1, 0, 1), Edge(10, 2, 3)])
  {
  }

  /** The input is already in order. */
  lemma DisconnectedSorted(edges: seq<Edge>)
    requires edges == [Edge(1, 0, 1), Edge(10, 2, 3)]
    ensures SortEdges(edges) == edges
  {
    DisconnectedOrder();
    SortedUnique(SortEdges(edges), edges);
  }

  lemma DisconnectedRun()
    ensures EdgesIn(4, [Edge(1, 0, 1), Edge(10, 2, 3)])
    ensures Greedy(4, [Edge(1, 0, 1), Edge(10, 2, 3)], 0, []) ==
      [TreeEdge(0, 1, 1), TreeEdge(2, 3, 10)]
  {
  }

  /** Both edges are accepted, total weight 11, fewer than `n - 1` edges. */
  lemma DisconnectedGraph(edges: seq<Edge>)
    requires edges == [Edge(1, 0, 1), Edge(10, 2, 3)]
    ensures var mst := KruskalSpec(4, edges);
      mst == [TreeEdge(0, 1, 1), TreeEdge(2, 3, 10)] &&
      |mst| < 4 - 1 && Sum(mst) == 11
  {
    DisconnectedSorted(edges);
    DisconnectedRun();
    SumTwo(TreeEdge(0, 1, 1), TreeEdge(2, 3, 10));
  }

  // A triangle whose heaviest edge closes a cycle.

  lemma TriangleOrder()
    ensures Sorted([Edge(1, 0, 1), Edge(2, 1, 2), Edge(5, 0, 2)])
  {
  }

  /** The input is already in order. */
  lemma TriangleSorted(edges: seq<Edge>)
    requires edges == [Edge(1, 0, 1), Edge(2, 1, 2), Edge(5, 0, 2)]
    ensures SortEdges(edges) == edges
  {
    TriangleOrder();
    SortedUnique(SortEdges(edges), edges);
  }

  lemma TriangleRun()
    ensures EdgesIn(3, [Edge(1, 0, 1), Edge(2, 1, 2), Edge(5, 0, 2)])
    ensures Greedy(3, [Edge(1, 0, 1), Edge(2, 1, 2), Edge(5, 0, 2)], 0, []) ==
      [TreeEdge(0, 1, 1), TreeEdge(1, 2, 2)]
  {
  }

  /** The cycle edge (0, 2, 5) is not among the kept ones. */
  lemma TriangleSkips()
    ensures TreeEdge(0, 2, 5) !in [TreeEdge(0, 1, 1), TreeEdge(1, 2, 2)]
  {
  }

  /** Two edges, total weight 3; the cycle edge (0, 2, 5) is not accepted. */
  lemma TriangleSkipsCycle(edges: seq<Edge>)
    requires edges == [Edge(1, 0, 1), Edge(2, 1, 2), Edge(5, 0, 2)]
    ensures var mst := KruskalSpec(3, edges);
      mst == [TreeEdge(0, 1, 1), TreeEdge(1, 2, 2)] &&
      |mst| == 3 - 1 && Sum(mst) == 3 && TreeEdge(0, 2, 5) !in mst
  {
    TriangleSorted(edges);
    TriangleRun();
    TriangleSkips();
    SumTwo(TreeEdge(0, 1, 1), TreeEdge(1, 2, 2));
  }

  // A four-cycle whose edges all weigh 10.

  /** Equal weights are ordered by u, then v. */
  lemma EqualWeightsOrder()
    ensures Sorted([Edge(10, 0, 1), Edge(10, 0, 3), Edge(10, 1, 2), Edge(10, 2, 3)])
  {
  }

  lemma EqualWeightsPermutation()
    ensures multiset([Edge(10, 0, 1), Edge(10, 1, 2), Edge(10, 2, 3), Edge(10, 0, 3)]) == multiset([Edge(10, 0, 1), Edge(10, 0, 3), Edge(10, 1, 2), Edge(10, 2, 3)])
  {
  }

  lemma EqualWeightsSorted(edges: seq<Edge>)
    requires edges == [Edge(10, 0, 1), Edge(10, 1, 2), Edge(10, 2, 3), Edge(10, 0, 3)]
    ensures SortEdges(edges) == [Edge(10, 0, 1), Edge(10, 0, 3), Edge(10, 1, 2), Edge(10, 2, 3)]
  {
    EqualWeightsOrder();
    EqualWeightsPermutation();
    SortedUnique(SortEdges(edges), [Edge(10, 0, 1), Edge(10, 0, 3), Edge(10, 1, 2), Edge(10, 2, 3)]);
  }

  lemma EqualWeightsRun()
    ensures EdgesIn(4, [Edge(10, 0, 1), Edge(10, 0, 3), Edge(10, 1, 2), Edge(10, 2, 3)])
    ensures Greedy(4, [Edge(10, 0, 1), Edge(10, 0, 3), Edge(10, 1, 2), Edge(10, 2, 3)], 0, []) ==
      [TreeEdge(0, 1, 10), TreeEdge(0, 3, 10), TreeEdge(1, 2, 10)]
  {
  }

  /** The edge (2, 3, 10) is not among the kept ones. */
  lemma EqualWeightsSkips()
    ensures TreeEdge(2, 3, 10) !in [TreeEdge(0, 1, 10), TreeEdge(0, 3, 10), TreeEdge(1, 2, 10)]
  {
  }

  /** Ties are broken by (u, v): (0, 1), (0, 3) and (1, 2) are kept, three
      edges of total weight 30; (2, 3, 10) comes after the tree is complete. */
  lemma EqualWeights(edges: seq<Edge>)
    requires edges == [Edge(10, 0, 1), Edge(10, 1, 2), Edge(10, 2, 3), Edge(10, 0, 3)]
    ensures var mst := KruskalSpec(4, edges);
      mst == [TreeEdge(0, 1, 10), TreeEdge(0, 3, 10), TreeEdge(1, 2, 10)] &&
      |mst| == 4 - 1 && Sum(mst) == 30 && TreeEdge(2, 3, 10) !in mst
  {
    EqualWeightsSorted(edges);
    EqualWeightsRun();
    EqualWeightsSkips();
    SumThree(TreeEdge(0, 1, 10), TreeEdge(0, 3, 10), TreeEdge(1, 2, 10));
  }
}
