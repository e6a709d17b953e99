/** Kruskal's minimum-spanning-tree driver. It sorts a copy of the edges,
    offers each one to the union-find structure in that order, keeps the
    ones that merge two components, adds up their weights and stops once
    `n - 1` edges are kept.

    `KruskalSpec` states the same greedy choice as a function over values,
    with connectivity taken from the relabelling reference rather than from
    the union-find structure; the method `Kruskal` is proved to compute it,
    and the lemmas below state what the result is. */
module Kruskal {
  import opened Edges
  import opened Connectivity
  import opened UnionFind

  /** Every endpoint is a node id: the range check the caller applies to
      each edge before the algorithm runs. */
  predicate EdgesIn(n: int, edges: seq<Edge>) {
    forall e :: e in edges ==> 0 <= e.u < n && 0 <= e.v < n
  }

  /** The total weight of a list of accepted edges. */
  function Sum(es: seq<TreeEdge>): int {
    if es == [] then 0 else Sum(es[..|es| - 1]) + es[|es| - 1].weight
  }

  /** The input edges as an undirected graph. */
  function Graph(edges: seq<Edge>): (g: seq<TreeEdge>)
    ensures |g| == |edges|
    ensures forall k :: 0 <= k < |edges| ==> g[k] == Accept(edges[k])
  {
    seq(|edges|, k requires 0 <= k < |edges| => Accept(edges[k]))
  }

  /** All nodes are connected by the input edges. */
  predicate GraphConnected(n: nat, edges: seq<Edge>)
    requires EdgesIn(n, edges)
  {
    var g := Graph(edges);
    assert InRange(n, g) by {
      forall t | t in g ensures 0 <= t.u < n && 0 <= t.v < n {
        var k :| 0 <= k < |g| && g[k] == t;
        assert edges[k] in edges;
      }
    }
    forall x, y :: 0 <= x < n && 0 <= y < n ==> Connected(n, g, x, y)
  }

  /** Accepted edges appear in ascending (weight, u, v) order. */
  predicate Ascending(es: seq<TreeEdge>) {
    forall i, j :: 0 <= i < j < |es| ==> Le(Key(es[i]), Key(es[j]))
  }

  /** The greedy choice over the edges `es[k..]` still to be offered, given
      the edges `acc` accepted so far: an edge is accepted when the accepted
      edges do not yet connect its endpoints, and the choice ends with the
      edge that brings the count to `n - 1`. */
  function Greedy(n: nat, es: seq<Edge>, k: nat, acc: seq<TreeEdge>): (r: seq<TreeEdge>)
    requires EdgesIn(n, es) && k <= |es| && InRange(n, acc)
    ensures InRange(n, r) && acc <= r
    decreases |es| - k
  {
    if k == |es| then acc
    else
      var e := es[k];
      assert e in es;
      if Connected(n, acc, e.u, e.v) then
        Greedy(n, es, k + 1, acc)
      else
        var acc' := acc + [Accept(e)];
        if |acc'| == n - 1 then acc' else Greedy(n, es, k + 1, acc')
  }

  lemma SortedIn(n: nat, edges: seq<Edge>)
    requires EdgesIn(n, edges)
    ensures EdgesIn(n, SortEdges(edges))
    ensures forall e :: e in SortEdges(edges) <==> e in edges
  {
    var s := SortEdges(edges);
    forall e
      ensures e in s <==> e in edges
    {
      assert e in s <==> e in multiset(s);
      assert e in edges <==> e in multiset(edges);
    }
  }

  /** The edges `kruskal(n_nodes, edges)` returns. */
  function KruskalSpec(n: nat, edges: seq<Edge>): seq<TreeEdge>
    requires EdgesIn(n, edges)
  {
    SortedIn(n, edges);
    Greedy(n, SortEdges(edges), 0, [])
  }

  lemma {:induction false} GreedyForest(n: nat, es: seq<Edge>, k: nat, acc: seq<TreeEdge>)
    requires EdgesIn(n, es) && k <= |es| && IsForest(n, acc)
    ensures IsForest(n, Greedy(n, es, k, acc))
    decreases |es| - k
  {
    if k < |es| {
      var e := es[k];
      assert e in es;
      if !Connected(n, acc, e.u, e.v) {
        ForestExtend(n, acc, Accept(e));
        var acc' := acc + [Accept(e)];
        if |acc'| != n - 1 {
          GreedyForest(n, es, k + 1, acc');
        }
      } else {
        GreedyForest(n, es, k + 1, acc);
      }
    }
  }

  lemma {:induction false} GreedyFromInput(n: nat, es: seq<Edge>, k: nat, acc: seq<TreeEdge>)
    requires EdgesIn(n, es) && k <= |es| && InRange(n, acc)
    ensures forall i :: |acc| <= i < |Greedy(n, es, k, acc)| ==> Key(Greedy(n, es, k, acc)[i]) in es
    decreases |es| - k
  {
    if k < |es| {
      var e := es[k];
      assert e in es;
      if !Connected(n, acc, e.u, e.v) {
        var acc' := acc + [Accept(e)];
        assert InRange(n, acc');
        if |acc'| != n - 1 {
          GreedyFromInput(n, es, k + 1, acc');
          var r := Greedy(n, es, k + 1, acc');
          assert r[|acc|] == acc'[|acc|] == Accept(e);
        }
      } else {
        GreedyFromInput(n, es, k + 1, acc);
      }
    }
  }

  /** The accepted edges connect the endpoints of every offered edge: an edge
      is either accepted or already connected when it is offered, and the
      greedy choice stops early only when the forest spans all nodes. */
  lemma {:induction false} GreedySpans(n: nat, es: seq<Edge>, k: nat, acc: seq<TreeEdge>)
    requires EdgesIn(n, es) && k <= |es| && IsForest(n, acc)
    ensures forall i :: k <= i < |es| ==>
      es[i] in es && Connected(n, Greedy(n, es, k, acc), es[i].u, es[i].v)
    decreases |es| - k
  {
    if k < |es| {
      var r := Greedy(n, es, k, acc);
      var e := es[k];
      assert e in es;
      var joined := Connected(n, acc, e.u, e.v);
      var acc' := if joined then acc else acc + [Accept(e)];
      assert IsForest(n, acc') && Connected(n, acc', e.u, e.v) by {
        if !joined {
          ForestExtend(n, acc, Accept(e));
          EdgeJoins(n, acc, Accept(e));
        }
      }
      if !joined && |acc'| == n - 1 {
        assert r == acc';
        SpanningTree(n, acc');
      } else {
        assert r == Greedy(n, es, k + 1, acc');
        GreedySpans(n, es, k + 1, acc');
        ConnectedPrefix(n, acc', r, e.u, e.v);
        forall i | k <= i < |es|
          ensures es[i] in es && Connected(n, r, es[i].u, es[i].v)
        {
          if i > k {
            assert Connected(n, Greedy(n, es, k + 1, acc'), es[i].u, es[i].v);
          }
        }
      }
    }
  }

  lemma {:induction false} GreedyAscending(n: nat, es: seq<Edge>, k: nat, acc: seq<TreeEdge>)
    requires EdgesIn(n, es) && k <= |es| && InRange(n, acc)
    requires Sorted(es) && Ascending(acc)
    requires forall i, j :: 0 <= i < |acc| && k <= j < |es| ==> Le(Key(acc[i]), es[j])
    ensures Ascending(Greedy(n, es, k, acc))
    decreases |es| - k
  {
    if k < |es| {
      var e := es[k];
      assert e in es;
      if Connected(n, acc, e.u, e.v) {
        GreedyAscending(n, es, k + 1, acc);
      } else {
        var acc' := acc + [Accept(e)];
        assert Key(acc'[|acc|]) == e;
        assert Ascending(acc');
        if |acc'| != n - 1 {
          GreedyAscending(n, es, k + 1, acc');
        }
      }
    }
  }

  /** The accepted edges form a forest: each one joined two components that
      were separate when it was offered, so no edge closes a cycle and no
      self-loop is ever accepted. On at least one node there are at most
      `n - 1` of them. */
  lemma KruskalSpecForest(n: nat, edges: seq<Edge>)
    requires EdgesIn(n, edges)
    ensures IsForest(n, KruskalSpec(n, edges))
    ensures forall t :: t in KruskalSpec(n, edges) ==> t.u != t.v
    ensures n >= 1 ==> |KruskalSpec(n, edges)| <= n - 1
  {
    SortedIn(n, edges);
    GreedyForest(n, SortEdges(edges), 0, []);
    var mst := KruskalSpec(n, edges);
    ForestNoSelfLoop(n, mst);
    if n >= 1 {
      ForestSize(n, mst);
    }
  }

  /** Every accepted edge is an input edge, reported as (u, v, weight). */
  lemma KruskalSpecFromInput(n: nat, edges: seq<Edge>)
    requires EdgesIn(n, edges)
    ensures forall t :: t in KruskalSpec(n, edges) ==> Key(t) in edges
  {
    SortedIn(n, edges);
    GreedyFromInput(n, SortEdges(edges), 0, []);
  }

  /** The accepted edges connect the endpoints of every input edge: they
      span every connected component of the input graph. */
  lemma KruskalSpecSpans(n: nat, edges: seq<Edge>)
    requires EdgesIn(n, edges)
    ensures forall e :: e in edges ==> Connected(n, KruskalSpec(n, edges), e.u, e.v)
  {
    SortedIn(n, edges);
    var sorted := SortEdges(edges);
    GreedySpans(n, sorted, 0, []);
    forall e | e in edges
      ensures Connected(n, KruskalSpec(n, edges), e.u, e.v)
    {
      assert e in sorted;
      var i :| 0 <= i < |sorted| && sorted[i] == e;
    }
  }

  /** Edges are accepted in ascending (weight, u, v) order. */
  lemma KruskalSpecAscending(n: nat, edges: seq<Edge>)
    requires EdgesIn(n, edges)
    ensures Ascending(KruskalSpec(n, edges))
  {
    SortedIn(n, edges);
    GreedyAscending(n, SortEdges(edges), 0, []);
  }

  /** On at least one node, exactly `n - 1` edges are accepted if and only if
      the input graph is connected. */
  lemma KruskalSpecSpanningIff(n: nat, edges: seq<Edge>)
    requires EdgesIn(n, edges) && n >= 1
    ensures |KruskalSpec(n, edges)| == n - 1 <==> GraphConnected(n, edges)
  {
    var mst := KruskalSpec(n, edges);
    var g := Graph(edges);
    KruskalSpecForest(n, edges);
    KruskalSpecSpans(n, edges);
    KruskalSpecFromInput(n, edges);
    assert InRange(n, g) by {
      forall t | t in g ensures 0 <= t.u < n && 0 <= t.v < n {
        var k :| 0 <= k < |g| && g[k] == t;
        assert edges[k] in edges;
      }
    }
    if |mst| == n - 1 {
      SpanningTree(n, mst);
      forall k | 0 <= k < |mst|
        ensures Connected(n, g, mst[k].u, mst[k].v)
      {
        assert mst[k] in mst;
        var i :| 0 <= i < |edges| && edges[i] == Key(mst[k]);
        assert g[i] == mst[k];
        MemberConnected(n, g, i);
      }
      Subsumes(n, mst, g);
    }
    if GraphConnected(n, edges) {
      forall k | 0 <= k < |g|
        ensures Connected(n, mst, g[k].u, g[k].v)
      {
        assert edges[k] in edges;
      }
      Subsumes(n, g, mst);
      ForestComponents(n, mst);
      var labels := Labels(n, mst);
      assert LabelSet(labels) == {labels[0]} by {
        forall l | l in LabelSet(labels) ensures l == labels[0] {
          var x :| 0 <= x < n && labels[x] == l;
          assert Connected(n, g, x, 0);
        }
      }
    }
  }

  /** The union-find representatives `reps` and the reference labels
      `labels` describe the same partition of the nodes. */
  ghost predicate SamePartition(reps: seq<int>, labels: seq<int>) {
    |reps| == |labels| &&
    forall x, y :: 0 <= x < |reps| && 0 <= y < |reps| ==> (reps[x] == reps[y] <==> labels[x] == labels[y])
  }

  /** Merging the components of `u` and `v` in the union-find structure
      and in the reference labels keeps the two partitions equal. */
  lemma MergeKeepsPartition(reps: seq<int>, labels: seq<int>, u: int, v: int, w: int)
    requires SamePartition(reps, labels) && 0 <= u < |reps| && 0 <= v < |reps|
    requires reps[u] != reps[v] && (w == reps[u] || w == reps[v])
    ensures SamePartition(MergeReps(reps, reps[u], reps[v], w), Relabel(labels, u, v))
  {
    var reps', labels' := MergeReps(reps, reps[u], reps[v], w), Relabel(labels, u, v);
    forall x, y | 0 <= x < |reps| && 0 <= y < |reps|
      ensures reps'[x] == reps'[y] <==> labels'[x] == labels'[y]
    {
      assert reps[x] == reps[u] <==> labels[x] == labels[u];
      assert reps[x] == reps[v] <==> labels[x] == labels[v];
      assert reps[y] == reps[u] <==> labels[y] == labels[u];
      assert reps[y] == reps[v] <==> labels[y] == labels[v];
    }
  }

  lemma SumAppend(es: seq<TreeEdge>, t: TreeEdge)
    ensures Sum(es + [t]) == Sum(es) + t.weight
  {
    assert (es + [t])[..|es|] == es;
  }

  /** One pass of the loop: edge `k` of the sorted list is offered. The
      union-find structure merged its endpoints' components (from `reps` to
      `reps'`) exactly when the reference labels say they were separate, the
      accepted list grows by that edge exactly then, and the greedy choice
      over the rest is unchanged. */
  lemma OfferStep(n: nat, sorted: seq<Edge>, k: nat, acc: seq<TreeEdge>, reps: seq<int>,
                  reps': seq<int>, merged: bool, w: int)
    requires EdgesIn(n, sorted) && k < |sorted| && InRange(n, acc)
    requires SamePartition(reps, Labels(n, acc))
    requires merged <==> reps[sorted[k].u] != reps[sorted[k].v]
    requires !merged ==> reps' == reps
    requires merged ==> (w == reps[sorted[k].u] || w == reps[sorted[k].v]) &&
                        reps' == MergeReps(reps, reps[sorted[k].u], reps[sorted[k].v], w)
    ensures var acc' := if merged then acc + [Accept(sorted[k])] else acc;
      InRange(n, acc') &&
      SamePartition(reps', Labels(n, acc')) &&
      Greedy(n, sorted, k, acc) ==
        if merged && |acc'| == n - 1 then acc' else Greedy(n, sorted, k + 1, acc')
  {
    var e := sorted[k];
    assert e in sorted;
    if merged {
      assert InRange(n, acc + [Accept(e)]);
      LabelsAppend(n, acc, Accept(e));
      MergeKeepsPartition(reps, Labels(n, acc), e.u, e.v, w);
    }
  }

  /** Everything the lemmas above say about `KruskalSpec`, together. */
  lemma KruskalSpecProperties(n: nat, edges: seq<Edge>, mst: seq<TreeEdge>)
    requires EdgesIn(n, edges) && mst == KruskalSpec(n, edges)
    ensures IsForest(n, mst)
    ensures forall t :: t in mst ==> Key(t) in edges && t.u != t.v
    ensures forall e :: e in edges ==> Connected(n, mst, e.u, e.v)
    ensures Ascending(mst)
    ensures n >= 1 ==> |mst| <= n - 1
    ensures n >= 1 ==> (|mst| == n - 1 <==> GraphConnected(n, edges))
  {
    KruskalSpecForest(n, edges);
    KruskalSpecFromInput(n, edges);
    KruskalSpecSpans(n, edges);
    KruskalSpecAscending(n, edges);
    if n >= 1 {
      KruskalSpecSpanningIff(n, edges);
    }
  }

  /** The body of the loop over the sorted edges: edge `k` is offered to
      the union-find structure, and when it merges two components it is
      appended to the accepted edges and its weight added to the total. The
      new state is the next step of `Greedy`, and the union-find structure
      still describes the components of the accepted edges. */
  method Offer(dsu: DSU, ghost n: nat, sorted: seq<Edge>, k: nat, mst: seq<TreeEdge>, total: int)
    returns (merged: bool, mst': seq<TreeEdge>, total': int)
    requires dsu.Valid() && dsu.parent.Length == n
    requires EdgesIn(n, sorted) && k < |sorted| && InRange(n, mst)
    requires SamePartition(dsu.Reps(), Labels(n, mst)) && total == Sum(mst)
    modifies dsu, dsu.parent, dsu.rank
    ensures dsu.Valid() && dsu.parent.Length == n
    ensures sorted[k] in sorted && (merged <==> !Connected(n, mst, sorted[k].u, sorted[k].v))
    ensures mst' == if merged then mst + [Accept(sorted[k])] else mst
    ensures InRange(n, mst') && SamePartition(dsu.Reps(), Labels(n, mst'))
    ensures total' == Sum(mst')
    ensures Greedy(n, sorted, k, mst) ==
      if merged && |mst'| == n - 1 then mst' else Greedy(n, sorted, k + 1, mst')
  {
    var e := sorted[k];
    ghost var reps := dsu.Reps();
    merged := dsu.Union(e.u, e.v);
    OfferStep(n, sorted, k, mst, reps, dsu.Reps(), merged, dsu.Reps()[e.u]);
    if merged {
      SumAppend(mst, Accept(e));
      mst' := mst + [Accept(e)];
      total' := total + e.weight;
    } else {
      mst', total' := mst, total;
    }
  }

  /** `kruskal(n_nodes, edges)`: the accepted edges as (u, v, weight) and
      their total weight. The result is the greedy choice `KruskalSpec`, whose
      properties `KruskalSpecProperties` states. */
  method Kruskal(n: nat, edges: seq<Edge>) returns (mst: seq<TreeEdge>, total: int)
    requires EdgesIn(n, edges)
    ensures mst == KruskalSpec(n, edges)
    ensures total == Sum(mst)
  {
    var sorted := SortEdges(edges);
    SortedIn(n, edges);
    ghost var spec := KruskalSpec(n, edges);
    var dsu := new DSU(n);
    mst := [];
    total := 0;
    var k := 0;
    while k < |sorted|
      invariant 0 <= k <= |sorted|
      invariant dsu.Valid() && dsu.parent.Length == n
      invariant fresh(dsu.parent) && fresh(dsu.rank)
      invariant InRange(n, mst)
      invariant SamePartition(dsu.Reps(), Labels(n, mst))
      invariant Greedy(n, sorted, k, mst) == spec
      invariant total == Sum(mst)
    {
      var merged;
      merged, mst, total := Offer(dsu, n, sorted, k, mst, total);
      if merged && |mst| == n - 1 {
        break;
      }
      k := k + 1;
    }
  }
}
