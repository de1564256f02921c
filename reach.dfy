/**
 * Reachability along the successor index of a graph (`downEdges`), the
 * relation the component search explores.
 */
module Reachability {
  import opened Edges
  import opened Graphs

  /** The successors of `u`; a vertex without an entry has none. */
  function Succ(down: map<Vertex, set<Vertex>>, u: Vertex): set<Vertex>
  {
    Lookup(down, u)
  }

  /** Every vertex of `p` after the first is a successor of the one before it. */
  ghost predicate IsPath(down: map<Vertex, set<Vertex>>, p: seq<Vertex>)
  {
    forall i :: 0 <= i < |p| - 1 ==> p[i + 1] in Succ(down, p[i])
  }

  /** `y` can be reached from `x` by following zero or more successor links. */
  ghost predicate Reachable(down: map<Vertex, set<Vertex>>, x: Vertex, y: Vertex)
  {
    exists p :: IsPath(down, p) && |p| > 0 && p[0] == x && p[|p| - 1] == y
  }

  /** Each of `x` and `y` can be reached from the other. */
  ghost predicate Mutual(down: map<Vertex, set<Vertex>>, x: Vertex, y: Vertex)
  {
    Reachable(down, x, y) && Reachable(down, y, x)
  }

  /** No successor link leaves `X`. */
  ghost predicate Closed(down: map<Vertex, set<Vertex>>, X: set<Vertex>)
  {
    forall u, z :: u in X && z in Succ(down, u) ==> z in X
  }

  lemma ReachRefl(down: map<Vertex, set<Vertex>>, x: Vertex)
    ensures Reachable(down, x, x)
  {
    assert IsPath(down, [x]);
  }

  lemma ReachEdge(down: map<Vertex, set<Vertex>>, x: Vertex, y: Vertex)
    requires y in Succ(down, x)
    ensures Reachable(down, x, y)
  {
    assert IsPath(down, [x, y]);
  }

  lemma ReachTrans(down: map<Vertex, set<Vertex>>, x: Vertex, y: Vertex, z: Vertex)
    requires Reachable(down, x, y) && Reachable(down, y, z)
    ensures Reachable(down, x, z)
  {
    var p :| IsPath(down, p) && |p| > 0 && p[0] == x && p[|p| - 1] == y;
    var q :| IsPath(down, q) && |q| > 0 && q[0] == y && q[|q| - 1] == z;
    var r := p + q[1..];
    forall i | 0 <= i < |r| - 1 ensures r[i + 1] in Succ(down, r[i]) {
      if i < |p| - 1 {
        assert r[i] == p[i] && r[i + 1] == p[i + 1];
      } else {
        assert r[i] == q[i - |p| + 1] && r[i + 1] == q[i - |p| + 2];
      }
    }
    assert IsPath(down, r);
  }

  /** A step followed by a path is a path. */
  lemma ReachStep(down: map<Vertex, set<Vertex>>, x: Vertex, y: Vertex, z: Vertex)
    requires y in Succ(down, x) && Reachable(down, y, z)
    ensures Reachable(down, x, z)
  {
    ReachEdge(down, x, y);
    ReachTrans(down, x, y, z);
  }

  lemma MutualTrans(down: map<Vertex, set<Vertex>>, x: Vertex, y: Vertex, z: Vertex)
    requires Mutual(down, x, y) && Mutual(down, y, z)
    ensures Mutual(down, x, z)
  {
    ReachTrans(down, x, y, z);
    ReachTrans(down, z, y, x);
  }

  /** Every vertex of a path that starts in a closed set lies in that set. */
  lemma {:induction false} PathStaysIn(down: map<Vertex, set<Vertex>>, X: set<Vertex>, p: seq<Vertex>, k: nat)
    requires Closed(down, X) && IsPath(down, p) && |p| > 0 && p[0] in X
    requires k < |p|
    ensures p[k] in X
  {
    if k > 0 {
      PathStaysIn(down, X, p, k - 1);
      assert p[k] in Succ(down, p[k - 1]);
    }
  }

  /** Nothing outside a closed set can be reached from inside it. */
  lemma ReachClosed(down: map<Vertex, set<Vertex>>, X: set<Vertex>, x: Vertex, y: Vertex)
    requires Closed(down, X) && x in X && Reachable(down, x, y)
    ensures y in X
  {
    var p :| IsPath(down, p) && |p| > 0 && p[0] == x && p[|p| - 1] == y;
    PathStaysIn(down, X, p, |p| - 1);
  }

  /** A set is at most as large as any set that contains it. */
  lemma {:induction false} SubsetCard<X>(A: set<X>, B: set<X>)
    requires A <= B
    ensures |A| <= |B|
  {
    if A != {} {
      var a :| a in A;
      SubsetCard(A - {a}, B - {a});
    }
  }

  /** Removing a member strictly shrinks a set's remainder. */
  lemma ShrinkCard<X>(A: set<X>, B: set<X>, x: X)
    requires A <= B && x in B && x !in A
    ensures |A| < |B|
  {
    SubsetCard(A, B - {x});
  }
}
