/** Edges of the weighted undirected graph and the order Kruskal's algorithm
    processes them in. Edges arrive as triples (weight, u, v) and the
    algorithm works on a sorted copy: Python compares such tuples
    lexicographically, weight first, then u, then v. */
module Edges {

  /** An input edge, the triple (weight, u, v). */
  datatype Edge = Edge(weight: int, u: int, v: int)

  /** An accepted edge as the algorithm reports it, the triple (u, v, weight). */
  datatype TreeEdge = TreeEdge(u: int, v: int, weight: int)

  /** The output form of an input edge. */
  function Accept(e: Edge): TreeEdge {
    TreeEdge(e.u, e.v, e.weight)
  }

  /** The input form an output edge came from: the inverse of `Accept`. */
  function Key(t: TreeEdge): Edge {
    Edge(t.weight, t.u, t.v)
  }

  /** Lexicographic comparison of (weight, u, v), as Python orders tuples. */
  predicate Le(a: Edge, b: Edge) {
    a.weight < b.weight ||
    (a.weight == b.weight && (a.u < b.u || (a.u == b.u && a.v <= b.v)))
  }

  /** `Le` is a total order, and equal keys are equal edges. */
  lemma LeTotalOrder(a: Edge, b: Edge, c: Edge)
    ensures Le(a, a)
    ensures Le(a, b) || Le(b, a)
    ensures Le(a, b) && Le(b, a) ==> a == b
    ensures Le(a, b) && Le(b, c) ==> Le(a, c)
  {
  }

  predicate Sorted(s: seq<Edge>) {
    forall i, j :: 0 <= i < j < |s| ==> Le(s[i], s[j])
  }

  /** A sorted sequence stays sorted when an edge no greater than its head
      is put in front. */
  lemma SortedCons(x: Edge, s: seq<Edge>)
    requires Sorted(s) && (s == [] || Le(x, s[0]))
    ensures Sorted([x] + s)
  {
    var r := [x] + s;
    forall i, j | 0 <= i < j < |r|
      ensures Le(r[i], r[j])
    {
      if i == 0 {
        LeTotalOrder(x, s[0], s[j - 1]);
      }
    }
  }

  /** Inserts `e` into the sorted sequence `s` before the first element it
      does not exceed. */
  function Insert(e: Edge, s: seq<Edge>): (r: seq<Edge>)
    requires Sorted(s)
    ensures Sorted(r)
    ensures multiset(r) == multiset(s) + multiset{e}
    decreases |s|
  {
    if s == [] || Le(e, s[0]) then
      SortedCons(e, s);
      [e] + s
    else
      var t := Insert(e, s[1..]);
      assert t[0] in multiset(t);
      assert Le(s[0], t[0]) by {
        if t[0] != e {
          assert t[0] in multiset(s[1..]);
        }
      }
      SortedCons(s[0], t);
      assert s == [s[0]] + s[1..];
      [s[0]] + t
  }

  /** The sorted copy `sorted(edges)` takes of its input: the caller's
      sequence is a value and is left as it was. */
  function SortEdges(s: seq<Edge>): (r: seq<Edge>)
    ensures Sorted(r)
    ensures multiset(r) == multiset(s)
    ensures |r| == |s|
    decreases |s|
  {
    if s == [] then []
    else
      assert s == [s[0]] + s[1..];
      Insert(s[0], SortEdges(s[1..]))
  }

  /** Two sorted sequences holding the same edges are equal. Equal triples
      cannot be told apart, so whether the sort is stable does not matter,
      and any sort of the input yields `SortEdges` of it. */
  lemma {:induction false} SortedUnique(a: seq<Edge>, b: seq<Edge>)
    requires Sorted(a) && Sorted(b)
    requires multiset(a) == multiset(b)
    ensures a == b
  {
    if a != [] {
      assert a[0] in multiset(b);
      assert b != [];
      assert b[0] in multiset(a);
      assert Le(a[0], b[0]) by {
        var k :| 0 <= k < |a| && a[k] == b[0];
      }
      assert Le(b[0], a[0]) by {
        var k :| 0 <= k < |b| && b[k] == a[0];
      }
      assert a[0] == b[0];
      assert a == [a[0]] + a[1..];
      assert b == [b[0]] + b[1..];
      assert multiset(a) == multiset{a[0]} + multiset(a[1..]);
      assert multiset(b) == multiset{b[0]} + multiset(b[1..]);
      assert multiset(a[1..]) == multiset(a) - multiset{a[0]};
      assert multiset(b[1..]) == multiset(b) - multiset{b[0]};
      SortedUnique(a[1..], b[1..]);
    } else {
      assert |multiset(b)| == 0;
    }
  }
}
