/** Small facts about finite sets of node ids, shared by the union-find
    structure and the connectivity reference. */
module Counting {

  /** The node ids of a graph with `n` nodes. */
  function Nodes(n: nat): (s: set<int>)
    ensures forall x :: x in s <==> 0 <= x < n
    ensures |s| == n
  {
    if n == 0 then {} else Nodes(n - 1) + {n - 1}
  }

  /** Removing one member of a finite set lowers its size by exactly one. */
  lemma RemoveOne<T>(s: set<T>, a: T)
    requires a in s
    ensures |s - {a}| == |s| - 1
  {
    assert s == (s - {a}) + {a};
  }
}
