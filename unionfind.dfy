/** The disjoint-set-union structure: a forest of parent pointers over the
    node ids 0 .. n-1, with path compression in `Find` and linking by rank in
    `Union`.

    The parent forest is described as a value first (a parent sequence `p`
    and a ghost distance sequence `d` that witnesses acyclicity), and the
    class keeps its arrays in step with that description. `rank` cannot
    serve as the witness: `Union` raises the rank of the first root on every
    merge, also when that root is hung below the other one, so a parent's
    rank can equal its child's: rank does not grow strictly toward the root
    and cannot be the decreasing measure of `Find`. */
module UnionFind {
  import opened Counting

  /** `d` ranks the parent graph `p`: every pointer stays among the nodes and
      every node that is not a root is farther from its root than its parent
      is. A parent graph has such a ranking exactly when it has no cycle other
      than the self-loops at the roots. */
  ghost predicate Ranked(p: seq<int>, d: seq<nat>) {
    |d| == |p| &&
    (forall x :: 0 <= x < |p| ==> 0 <= p[x] < |p|) &&
    (forall x :: 0 <= x < |p| && p[x] != x ==> d[p[x]] < d[x])
  }

  /** The representative of `x`: the root reached by following parent
      pointers. */
  ghost function RootOf(p: seq<int>, d: seq<nat>, x: int): (r: int)
    requires Ranked(p, d) && 0 <= x < |p|
    ensures 0 <= r < |p| && p[r] == r
    ensures d[r] <= d[x]
    ensures p[x] != x ==> d[r] < d[x]
    decreases d[x]
  {
    if p[x] == x then x else RootOf(p, d, p[x])
  }

  /** The representative of every node. */
  ghost function RepsOf(p: seq<int>, d: seq<nat>): (reps: seq<int>)
    requires Ranked(p, d)
    ensures |reps| == |p|
    ensures forall x :: 0 <= x < |p| ==> reps[x] == RootOf(p, d, x)
  {
    seq(|p|, x requires 0 <= x < |p| => RootOf(p, d, x))
  }

  /** The roots of the forest: one per component. */
  function RootsOf(p: seq<int>): set<int> {
    set x | 0 <= x < |p| && p[x] == x
  }

  /** The representatives that occur. */
  ghost function RepSetOf(p: seq<int>, d: seq<nat>): set<int>
    requires Ranked(p, d)
  {
    set x | 0 <= x < |p| :: RootOf(p, d, x)
  }

  /** The representatives are exactly the roots, so the number of components
      is the number of roots; and the representative of a representative is
      itself, which is why `find(find(i)) == find(i)`. */
  lemma RepsAreRoots(p: seq<int>, d: seq<nat>)
    requires Ranked(p, d)
    ensures RepSetOf(p, d) == RootsOf(p)
    ensures forall x :: 0 <= x < |p| ==> RootOf(p, d, RootOf(p, d, x)) == RootOf(p, d, x)
    ensures forall x :: 0 <= x < |p| ==> (RootOf(p, d, x) == x <==> p[x] == x)
  {
    var image := RepSetOf(p, d);
    forall r | r in RootsOf(p)
      ensures r in image
    {
      assert RootOf(p, d, r) == r;
      assert RootOf(p, d, r) in image;
    }
    forall r | r in image
      ensures r in RootsOf(p)
    {
      var x :| 0 <= x < |p| && RootOf(p, d, x) == r;
    }
    assert image == RootsOf(p);
  }

  /** Representatives after two components with representatives `a` and `b`
      are merged into one represented by `w`. */
  function MergeReps(reps: seq<int>, a: int, b: int, w: int): (r: seq<int>)
    ensures |r| == |reps|
  {
    seq(|reps|, x requires 0 <= x < |reps| => if reps[x] == a || reps[x] == b then w else reps[x])
  }

  /** Path compression at one node: pointing `i` straight at its root keeps
      the forest ranked by the same distances. */
  lemma CompressRanked(p: seq<int>, d: seq<nat>, i: int)
    requires Ranked(p, d) && 0 <= i < |p|
    ensures Ranked(p[i := RootOf(p, d, i)], d)
  {
  }

  /** Path compression at `i` leaves the representative of every node as it
      was. */
  lemma {:induction false} CompressAt(p: seq<int>, d: seq<nat>, i: int, x: int)
    requires Ranked(p, d) && 0 <= i < |p| && 0 <= x < |p|
    ensures Ranked(p[i := RootOf(p, d, i)], d)
    ensures RootOf(p[i := RootOf(p, d, i)], d, x) == RootOf(p, d, x)
    decreases d[x]
  {
    CompressRanked(p, d, i);
    var r := RootOf(p, d, i);
    var q := p[i := r];
    if p[x] == x {
      assert q[x] == x;
    } else if x == i {
      assert q[r] == r;
    } else {
      CompressAt(p, d, i, p[x]);
    }
  }

  lemma Compress(p: seq<int>, d: seq<nat>, i: int)
    requires Ranked(p, d) && 0 <= i < |p|
    ensures Ranked(p[i := RootOf(p, d, i)], d)
    ensures RepsOf(p[i := RootOf(p, d, i)], d) == RepsOf(p, d)
  {
    CompressRanked(p, d, i);
    forall x | 0 <= x < |p|
      ensures RootOf(p[i := RootOf(p, d, i)], d, x) == RootOf(p, d, x)
    {
      CompressAt(p, d, i, x);
    }
  }

  /** The distances after root `a` is hung below root `b`: every node of
      `a`'s tree moves `d[b] + 1` farther from its new root. */
  ghost function Lift(p: seq<int>, d: seq<nat>, a: int, b: int): (e: seq<nat>)
    requires Ranked(p, d) && 0 <= b < |p|
    ensures |e| == |d|
  {
    seq(|p|, x requires 0 <= x < |p| => if RootOf(p, d, x) == a then d[x] + d[b] + 1 else d[x])
  }

  lemma LinkRanked(p: seq<int>, d: seq<nat>, a: int, b: int)
    requires Ranked(p, d) && 0 <= a < |p| && 0 <= b < |p|
    requires p[a] == a && p[b] == b && a != b
    ensures Ranked(p[a := b], Lift(p, d, a, b))
  {
    var q, e := p[a := b], Lift(p, d, a, b);
    forall x | 0 <= x < |q| && q[x] != x
      ensures e[q[x]] < e[x]
    {
      if x != a {
        assert RootOf(p, d, x) == RootOf(p, d, p[x]);
      }
    }
  }

  /** The forest where every node is its own parent: every node is a root
      and its own representative. */
  lemma Singletons(n: nat)
    ensures Ranked(seq(n, x => x), seq(n, _ => 0))
    ensures RepsOf(seq(n, x => x), seq(n, _ => 0)) == seq(n, x => x)
    ensures RootsOf(seq(n, x => x)) == Nodes(n)
  {
    var p: seq<int> := seq(n, x => x);
    assert RootsOf(p) == Nodes(n);
  }

  /** Linking root `a` below root `b` gives every node of `a`'s tree the
      representative `b` and leaves every other node's as it was. */
  lemma {:induction false} LinkAt(p: seq<int>, d: seq<nat>, a: int, b: int, x: int)
    requires Ranked(p, d) && 0 <= a < |p| && 0 <= b < |p| && 0 <= x < |p|
    requires p[a] == a && p[b] == b && a != b
    ensures Ranked(p[a := b], Lift(p, d, a, b))
    ensures RootOf(p[a := b], Lift(p, d, a, b), x) == if RootOf(p, d, x) == a then b else RootOf(p, d, x)
    decreases d[x]
  {
    LinkRanked(p, d, a, b);
    var q, e := p[a := b], Lift(p, d, a, b);
    if x == a {
      assert RootOf(q, e, b) == b;
    } else if p[x] != x {
      LinkAt(p, d, a, b, p[x]);
    }
  }

  lemma Link(p: seq<int>, d: seq<nat>, a: int, b: int)
    requires Ranked(p, d) && 0 <= a < |p| && 0 <= b < |p|
    requires p[a] == a && p[b] == b && a != b
    ensures Ranked(p[a := b], Lift(p, d, a, b))
    ensures RepsOf(p[a := b], Lift(p, d, a, b)) == MergeReps(RepsOf(p, d), a, b, b)
    ensures RootsOf(p[a := b]) == RootsOf(p) - {a}
    ensures |RootsOf(p[a := b])| == |RootsOf(p)| - 1
  {
    LinkRanked(p, d, a, b);
    forall x | 0 <= x < |p|
      ensures RootOf(p[a := b], Lift(p, d, a, b), x) == MergeReps(RepsOf(p, d), a, b, b)[x]
    {
      LinkAt(p, d, a, b, x);
    }
    assert a in RootsOf(p);
    RemoveOne(RootsOf(p), a);
  }

  class DSU {
    /** `parent[i]` is the parent of node i; a root is its own parent. */
    const parent: array<int>
    /** The rank of each node, consulted when two roots are linked. */
    const rank: array<int>
    /** Proof-only witness that the parent graph has no cycle. */
    ghost var dist: seq<nat>

    ghost predicate Valid()
      reads this, parent
    {
      parent != rank && parent.Length == rank.Length && Ranked(parent[..], dist)
    }

    /** The representative of every node: the partition the structure holds. */
    ghost function Reps(): seq<int>
      reads this, parent
      requires Valid()
    {
      RepsOf(parent[..], dist)
    }

    /** The roots, one per component. */
    ghost function Roots(): set<int>
      reads parent
    {
      RootsOf(parent[..])
    }

    /** Every node is its own parent with rank 0: n singleton components. */
    constructor (n: nat)
      ensures Valid() && fresh(parent) && fresh(rank)
      ensures parent.Length == n && rank.Length == n
      ensures forall x :: 0 <= x < n ==> parent[x] == x && rank[x] == 0
      ensures forall x :: 0 <= x < n ==> Reps()[x] == x
      ensures Roots() == Nodes(n) && |Roots()| == n
    {
      parent := new int[n](x => x);
      rank := new int[n](_ => 0);
      dist := seq(n, _ => 0);
      new;
      assert parent[..] == seq(n, x => x);
      Singletons(n);
    }

    /** The representative of node `i`. On the way back from the root every
        node of the path is pointed straight at it. */
    method Find(i: int) returns (r: int)
      requires Valid() && 0 <= i < parent.Length
      modifies parent
      ensures Valid()
      ensures r == old(Reps())[i]
      ensures parent[r] == r && parent[i] == r
      ensures Reps() == old(Reps()) && Roots() == old(Roots())
      ensures Reps()[r] == r
      ensures forall x :: 0 <= x < parent.Length && parent[x] != old(parent[x]) ==> parent[x] == r
      decreases dist[i]
    {
      if parent[i] == i {
        return i;
      }
      ghost var p0 := parent[..];
      assert RootOf(p0, dist, i) == RootOf(p0, dist, parent[i]);
      var root := Find(parent[i]);
      ghost var p1 := parent[..];
      assert RootOf(p1, dist, i) == root;
      Compress(p1, dist, i);
      parent[i] := root;
      assert parent[..] == p1[i := root];
      RepsAreRoots(p0, dist);
      RepsAreRoots(parent[..], dist);
      r := parent[i];
    }

    /** Merges the components of `i` and `j` and tells whether they were
        different. The lower-ranked root goes below the other one, `j`'s root
        below `i`'s on a tie; the rank of `i`'s root then grows by one
        whichever way the link went. */
    method Union(i: int, j: int) returns (merged: bool)
      requires Valid() && 0 <= i < parent.Length && 0 <= j < parent.Length
      modifies this, parent, rank
      ensures Valid()
      ensures merged <==> old(Reps())[i] != old(Reps())[j]
      ensures !merged ==> Reps() == old(Reps()) && Roots() == old(Roots()) && rank[..] == old(rank[..])
      ensures merged ==>
        var ri, rj := old(Reps())[i], old(Reps())[j];
        var winner := if old(rank[ri]) < old(rank[rj]) then rj else ri;
        var loser := if old(rank[ri]) < old(rank[rj]) then ri else rj;
        parent[loser] == winner &&
        Reps() == MergeReps(old(Reps()), ri, rj, winner) &&
        Roots() == old(Roots()) - {loser} &&
        rank[..] == old(rank[..])[ri := old(rank[ri]) + 1]
      ensures |Roots()| == if merged then |old(Roots())| - 1 else |old(Roots())|
      ensures forall x :: 0 <= x < parent.Length && parent[x] != old(parent[x]) ==>
        parent[x] == old(Reps())[i] || parent[x] == old(Reps())[j]
    {
      var rootI := Find(i);
      var rootJ := Find(j);
      if rootI != rootJ {
        // The ghost witness `dist` is lifted over the tree that is hung
        // under the other root.
        ghost var p := parent[..];
        ghost var loser := if rank[rootI] < rank[rootJ] then rootI else rootJ;
        ghost var winner := if rank[rootI] < rank[rootJ] then rootJ else rootI;
        Link(p, dist, loser, winner);
        dist := Lift(p, dist, loser, winner);
        if rank[rootI] < rank[rootJ] {
          parent[rootI] := rootJ;
        } else if rank[rootJ] < rank[rootI] {
          parent[rootJ] := rootI;
        } else {
          parent[rootJ] := rootI;
        }
        assert parent[..] == p[loser := winner];
        assert rank[..] == old(rank[..]);
        rank[rootI] := rank[rootI] + 1;
        return true;
      }
      return false;
    }
  }
}
