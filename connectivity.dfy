/** Which nodes a list of edges connects, defined independently of the
    union-find structure: start with every node labelled by itself and, for
    each edge in turn, relabel the whole class of one endpoint with the label
    of the other. Two nodes are connected when they end with the same label.
    `LeastPartition` shows this is the finest labelling in which every
    edge's endpoints agree, that is, the connected components of the graph. */
module Connectivity {
  import opened Edges
  import opened Counting

  /** Every endpoint is a node id of a graph with `n` nodes. */
  predicate InRange(n: int, es: seq<TreeEdge>) {
    forall t :: t in es ==> 0 <= t.u < n && 0 <= t.v < n
  }

  /** Merges the class of `v` into the class of `u`. */
  function Relabel(labels: seq<int>, u: int, v: int): (r: seq<int>)
    requires 0 <= u < |labels| && 0 <= v < |labels|
    ensures |r| == |labels|
  {
    seq(|labels|, x requires 0 <= x < |labels| =>
      if labels[x] == labels[v] then labels[u] else labels[x])
  }

  function Labels(n: nat, es: seq<TreeEdge>): (labels: seq<int>)
    requires InRange(n, es)
    ensures |labels| == n
    decreases |es|
  {
    if es == [] then seq(n, x => x)
    else
      var last := es[|es| - 1];
      assert last in es;
      Relabel(Labels(n, es[..|es| - 1]), last.u, last.v)
  }

  predicate Connected(n: nat, es: seq<TreeEdge>, x: int, y: int)
    requires InRange(n, es) && 0 <= x < n && 0 <= y < n
  {
    Labels(n, es)[x] == Labels(n, es)[y]
  }

  /** The labels in use, one per component. */
  function LabelSet(labels: seq<int>): set<int> {
    set x | 0 <= x < |labels| :: labels[x]
  }

  function NumComponents(n: nat, es: seq<TreeEdge>): nat
    requires InRange(n, es)
  {
    |LabelSet(Labels(n, es))|
  }

  /** Edge `k` joins two nodes the edges before it left unconnected. */
  predicate JoinsNew(n: nat, es: seq<TreeEdge>, k: int)
    requires InRange(n, es) && 0 <= k < |es|
  {
    assert es[k] in es;
    assert InRange(n, es[..k]) by {
      forall t | t in es[..k] ensures t in es { }
    }
    !Connected(n, es[..k], es[k].u, es[k].v)
  }

  /** Every edge joins two nodes the edges before it left unconnected: the
      edges form a forest, with no cycle and no self-loop. */
  predicate IsForest(n: nat, es: seq<TreeEdge>) {
    InRange(n, es) && forall k :: 0 <= k < |es| ==> JoinsNew(n, es, k)
  }

  lemma LabelsAppend(n: nat, es: seq<TreeEdge>, t: TreeEdge)
    requires InRange(n, es + [t])
    ensures InRange(n, es) && 0 <= t.u < n && 0 <= t.v < n
    ensures Labels(n, es + [t]) == Relabel(Labels(n, es), t.u, t.v)
  {
    assert (es + [t])[..|es|] == es;
    assert (es + [t])[|es|] == t;
    assert forall s :: s in es ==> s in es + [t];
  }

  /** An edge connects its endpoints. */
  lemma EdgeJoins(n: nat, es: seq<TreeEdge>, t: TreeEdge)
    requires InRange(n, es + [t])
    ensures Connected(n, es + [t], t.u, t.v)
  {
    LabelsAppend(n, es, t);
  }

  /** Adding edges never disconnects two nodes. */
  lemma {:induction false} ConnectedGrows(n: nat, a: seq<TreeEdge>, b: seq<TreeEdge>, x: int, y: int)
    requires InRange(n, a + b) && 0 <= x < n && 0 <= y < n
    ensures InRange(n, a)
    ensures Connected(n, a, x, y) ==> Connected(n, a + b, x, y)
    decreases |b|
  {
    assert forall s :: s in a ==> s in a + b;
    if b != [] {
      var b', t := b[..|b| - 1], b[|b| - 1];
      assert a + b == (a + b') + [t];
      LabelsAppend(n, a + b', t);
      ConnectedGrows(n, a, b', x, y);
    } else {
      assert a + b == a;
    }
  }

  /** The same, for edges `a` that are a prefix of `b`. */
  lemma ConnectedPrefix(n: nat, a: seq<TreeEdge>, b: seq<TreeEdge>, x: int, y: int)
    requires InRange(n, b) && a <= b && 0 <= x < n && 0 <= y < n
    ensures InRange(n, a)
    ensures Connected(n, a, x, y) ==> Connected(n, b, x, y)
  {
    assert b == a + b[|a|..];
    ConnectedGrows(n, a, b[|a|..], x, y);
  }

  /** The endpoints of every listed edge are connected. */
  lemma MemberConnected(n: nat, es: seq<TreeEdge>, k: int)
    requires InRange(n, es) && 0 <= k < |es|
    ensures es[k] in es && Connected(n, es, es[k].u, es[k].v)
  {
    var a := es[..k];
    assert es == (a + [es[k]]) + es[k + 1..];
    assert forall s :: s in a + [es[k]] ==> s in es;
    EdgeJoins(n, a, es[k]);
    ConnectedGrows(n, a + [es[k]], es[k + 1..], es[k].u, es[k].v);
  }

  /** `Connected` is the finest labelling that agrees on the endpoints of
      every edge: any labelling `m` that does so gives connected nodes the
      same label. */
  lemma {:induction false} LeastPartition(n: nat, es: seq<TreeEdge>, m: seq<int>, x: int, y: int)
    requires InRange(n, es) && |m| == n && 0 <= x < n && 0 <= y < n
    requires forall k :: 0 <= k < |es| ==> m[es[k].u] == m[es[k].v]
    ensures Connected(n, es, x, y) ==> m[x] == m[y]
    decreases |es|
  {
    if es != [] {
      var a, t := es[..|es| - 1], es[|es| - 1];
      assert es == a + [t];
      LabelsAppend(n, a, t);
      assert m[t.u] == m[t.v];
      var labels := Labels(n, a);
      assert forall k :: 0 <= k < |a| ==> m[a[k].u] == m[a[k].v] by {
        forall k | 0 <= k < |a| ensures m[a[k].u] == m[a[k].v] {
          assert a[k] == es[k];
        }
      }
      LeastPartition(n, a, m, x, y);
      LeastPartition(n, a, m, x, t.v);
      LeastPartition(n, a, m, y, t.v);
      LeastPartition(n, a, m, x, t.u);
      LeastPartition(n, a, m, y, t.u);
    }
  }

  /** If every edge of `g` joins nodes that `h` connects, then `h` connects
      everything `g` connects. */
  lemma Subsumes(n: nat, g: seq<TreeEdge>, h: seq<TreeEdge>)
    requires InRange(n, g) && InRange(n, h)
    requires forall k :: 0 <= k < |g| ==> Connected(n, h, g[k].u, g[k].v)
    ensures forall x, y :: 0 <= x < n && 0 <= y < n && Connected(n, g, x, y) ==> Connected(n, h, x, y)
  {
    forall x, y | 0 <= x < n && 0 <= y < n && Connected(n, g, x, y)
      ensures Connected(n, h, x, y)
    {
      assert forall k :: 0 <= k < |g| ==> g[k] in g;
      LeastPartition(n, g, Labels(n, h), x, y);
    }
  }

  /** Merging two different classes leaves one label fewer. */
  lemma RelabelCount(labels: seq<int>, u: int, v: int)
    requires 0 <= u < |labels| && 0 <= v < |labels| && labels[u] != labels[v]
    ensures LabelSet(Relabel(labels, u, v)) == LabelSet(labels) - {labels[v]}
    ensures |LabelSet(Relabel(labels, u, v))| == |LabelSet(labels)| - 1
  {
    var r := Relabel(labels, u, v);
    forall l | l in LabelSet(labels) - {labels[v]}
      ensures l in LabelSet(r)
    {
      var x :| 0 <= x < |labels| && labels[x] == l;
      assert r[x] == l;
    }
    forall l | l in LabelSet(r)
      ensures l in LabelSet(labels) - {labels[v]}
    {
      var x :| 0 <= x < |r| && r[x] == l;
      if labels[x] == labels[v] {
        assert labels[u] == l;
      } else {
        assert labels[x] == l;
      }
    }
    assert labels[v] in LabelSet(labels);
    RemoveOne(LabelSet(labels), labels[v]);
  }

  /** Appending an edge between unconnected nodes to a forest keeps it a
      forest. */
  lemma ForestExtend(n: nat, es: seq<TreeEdge>, t: TreeEdge)
    requires IsForest(n, es) && 0 <= t.u < n && 0 <= t.v < n
    requires !Connected(n, es, t.u, t.v)
    ensures IsForest(n, es + [t])
  {
    var es' := es + [t];
    assert InRange(n, es');
    forall k | 0 <= k < |es'|
      ensures JoinsNew(n, es', k)
    {
      if k < |es| {
        assert es'[..k] == es[..k] && es'[k] == es[k];
        assert JoinsNew(n, es, k);
      } else {
        assert es'[..k] == es;
      }
    }
  }

  /** A forest of `m` edges on `n` nodes has `n - m` components. */
  lemma {:induction false} ForestComponents(n: nat, es: seq<TreeEdge>)
    requires IsForest(n, es)
    ensures NumComponents(n, es) == n - |es|
    decreases |es|
  {
    if es == [] {
      assert LabelSet(seq(n, x => x)) == Nodes(n) by {
        forall l | l in Nodes(n) ensures l in LabelSet(seq(n, x => x)) {
          assert seq(n, x => x)[l] == l;
        }
      }
    } else {
      var a, t := es[..|es| - 1], es[|es| - 1];
      assert es == a + [t];
      LabelsAppend(n, a, t);
      assert IsForest(n, a) by {
        forall k | 0 <= k < |a|
          ensures JoinsNew(n, a, k)
        {
          assert a[..k] == es[..k] && a[k] == es[k];
          assert JoinsNew(n, es, k);
        }
      }
      assert !Connected(n, a, t.u, t.v) by {
        assert es[..|es| - 1] == a;
        assert JoinsNew(n, es, |es| - 1);
      }
      ForestComponents(n, a);
      RelabelCount(Labels(n, a), t.u, t.v);
    }
  }

  /** A forest on at least one node has fewer edges than nodes. */
  lemma ForestSize(n: nat, es: seq<TreeEdge>)
    requires IsForest(n, es) && n >= 1
    ensures |es| <= n - 1
  {
    ForestComponents(n, es);
    assert Labels(n, es)[0] in LabelSet(Labels(n, es));
  }

  /** A forest never holds a self-loop. */
  lemma ForestNoSelfLoop(n: nat, es: seq<TreeEdge>)
    requires IsForest(n, es)
    ensures forall k :: 0 <= k < |es| ==> es[k].u != es[k].v
  {
    forall k | 0 <= k < |es|
      ensures es[k].u != es[k].v
    {
      assert JoinsNew(n, es, k);
    }
  }

  /** A forest with `n - 1` edges connects every pair of nodes. */
  lemma SpanningTree(n: nat, es: seq<TreeEdge>)
    requires IsForest(n, es) && |es| == n - 1
    ensures forall x, y :: 0 <= x < n && 0 <= y < n ==> Connected(n, es, x, y)
  {
    ForestComponents(n, es);
    var labels := Labels(n, es);
    forall x, y | 0 <= x < n && 0 <= y < n
      ensures labels[x] == labels[y]
    {
      OneMember(LabelSet(labels), labels[x], labels[y]);
    }
  }

  lemma OneMember<T>(s: set<T>, a: T, b: T)
    requires |s| == 1 && a in s && b in s
    ensures a == b
  {
    RemoveOne(s, a);
    assert s - {a} == {};
  }
}
