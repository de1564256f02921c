/**
 * The component searches of the repository's tests, stated on the result
 * promised by `Tarjan.StronglyConnected`: whatever order the search visits
 * the vertices in, the components it emits have these members.
 */
module SccExamples {
  import opened Edges
  import opened Seqs
  import opened Graphs
  import opened Reachability
  import opened Scc
  import opened Tarjan

  /** The members of a component. */
  function Members(c: seq<Vertex>): set<Vertex>
  {
    set y | y in c
  }

  /** The component sets of a decomposition. */
  function Classes(sccs: seq<seq<Vertex>>): set<set<Vertex>>
  {
    set i | 0 <= i < |sccs| :: Members(sccs[i])
  }

  /** A component holding `x` has as members exactly the vertices mutually reachable with `x`. */
  lemma ClassOf(down: map<Vertex, set<Vertex>>, roots: set<Vertex>, sccs: seq<seq<Vertex>>,
                i: int, x: Vertex, C: set<Vertex>)
    requires IsSccDecomposition(down, roots, sccs)
    requires 0 <= i < |sccs| && x in sccs[i]
    requires forall y :: Mutual(down, x, y) <==> y in C
    ensures Members(sccs[i]) == C
  {
  }

  /** A vertex reached from a root lies in some component. */
  lemma Placed(down: map<Vertex, set<Vertex>>, roots: set<Vertex>, sccs: seq<seq<Vertex>>, x: Vertex)
    requires IsSccDecomposition(down, roots, sccs)
    requires x in roots
    ensures exists i :: 0 <= i < |sccs| && x in sccs[i]
  {
    ReachRefl(down, x);
    InFlatten(sccs, x);
  }

  /** Whether a sequence of components is a decomposition depends on the successor sets alone. */
  lemma SameSuccessors(d1: map<Vertex, set<Vertex>>, d2: map<Vertex, set<Vertex>>,
                       roots: set<Vertex>, sccs: seq<seq<Vertex>>)
    requires forall u :: Succ(d1, u) == Succ(d2, u)
    requires IsSccDecomposition(d1, roots, sccs)
    ensures IsSccDecomposition(d2, roots, sccs)
  {
    forall x, y ensures Reachable(d1, x, y) <==> Reachable(d2, x, y) {
      assert forall p :: IsPath(d1, p) <==> IsPath(d2, p);
    }
    forall x, y ensures Mutual(d1, x, y) <==> Mutual(d2, x, y) {
    }
  }

  /** Vertices 1 and 2 linked both ways, and 3 on its own. */
  function PairAndSingle(): map<Vertex, set<Vertex>>
  {
    map["1" := {"2"}, "2" := {"1"}]
  }

  /** In the graph 1 <-> 2, 3: the vertices mutually reachable with each vertex. */
  lemma PairAndSingleMutual()
    ensures forall y :: Mutual(PairAndSingle(), "1", y) <==> y in {"1", "2"}
    ensures forall y :: Mutual(PairAndSingle(), "2", y) <==> y in {"1", "2"}
    ensures forall y :: Mutual(PairAndSingle(), "3", y) <==> y in {"3"}
  {
    var down := PairAndSingle();
    assert Closed(down, {"1", "2"});
    assert Closed(down, {"3"});
    ReachEdge(down, "1", "2");
    ReachEdge(down, "2", "1");
    ReachRefl(down, "1");
    ReachRefl(down, "2");
    ReachRefl(down, "3");
    forall x: Vertex, y | x in {"1", "2"} ensures Mutual(down, x, y) <==> y in {"1", "2"} {
      if Mutual(down, x, y) {
        ReachClosed(down, {"1", "2"}, x, y);
      }
    }
    forall y ensures Mutual(down, "3", y) <==> y in {"3"} {
      if Mutual(down, "3", y) {
        ReachClosed(down, {"3"}, "3", y);
      }
    }
  }

  /** The graph 1 <-> 2 with the isolated vertex 3 splits into {1, 2} and {3}. */
  lemma PairAndSingleClasses(sccs: seq<seq<Vertex>>)
    requires IsSccDecomposition(PairAndSingle(), {"1", "2", "3"}, sccs)
    ensures Classes(sccs) == {{"1", "2"}, {"3"}}
  {
    var down := PairAndSingle();
    var roots: set<Vertex> := {"1", "2", "3"};
    PairAndSingleMutual();
    assert Closed(down, {"1", "2"});
    assert Closed(down, {"3"});
    forall c | c in Classes(sccs) ensures c == {"1", "2"} || c == {"3"} {
      var i :| 0 <= i < |sccs| && c == Members(sccs[i]);
      var x := sccs[i][0];
      assert x in Flatten(sccs) by {
        InFlatten(sccs, x);
      }
      var r :| r in roots && Reachable(down, r, x);
      if r == "3" {
        ReachClosed(down, {"3"}, r, x);
        ClassOf(down, roots, sccs, i, x, {"3"});
      } else {
        ReachClosed(down, {"1", "2"}, r, x);
        ClassOf(down, roots, sccs, i, x, {"1", "2"});
      }
    }
    Placed(down, roots, sccs, "1");
    var i1 :| 0 <= i1 < |sccs| && "1" in sccs[i1];
    ClassOf(down, roots, sccs, i1, "1", {"1", "2"});
    Placed(down, roots, sccs, "3");
    var i3 :| 0 <= i3 < |sccs| && "3" in sccs[i3];
    ClassOf(down, roots, sccs, i3, "3", {"3"});
    assert Members(sccs[i1]) in Classes(sccs) && Members(sccs[i3]) in Classes(sccs);
  }

  /**
   * Builds the graph 1 <-> 2, 3 through `Add` and `Connect` and searches it:
   * the components found are {1, 2} and {3}.
   */
  method PairAndSingleSearch() returns (sccs: seq<seq<Vertex>>)
    ensures Classes(sccs) == {{"1", "2"}, {"3"}}
  {
    var g := BuildPairAndSingle();
    sccs := StronglyConnected(g);
    SameSuccessors(g.downEdges, PairAndSingle(), g.vertices, sccs);
    PairAndSingleClasses(sccs);
  }

  /** The graph 1 <-> 2, 3, built through `Add` and `Connect`. */
  method BuildPairAndSingle() returns (g: Graph)
    ensures g.Valid() && g.vertices == {"1", "2", "3"}
    ensures forall u :: Succ(g.downEdges, u) == Succ(PairAndSingle(), u)
  {
    g := new Graph();
    var _ := g.Add("1");
    var _ := g.Add("2");
    var _ := g.Add("3");
    g.Connect(BasicEdge("1", "2"));
    assert g.EdgeSet() == {BasicEdge("1", "2")};
    g.Connect(BasicEdge("2", "1"));
    PairAndSingleIndex(g.edges, g.downEdges, g.upEdges);
  }

  /** Indices in agreement with the stored edges 1 -> 2 and 2 -> 1 have the successor sets of `PairAndSingle`. */
  lemma PairAndSingleIndex(edges: map<string, Edge>, down: map<Vertex, set<Vertex>>, up: map<Vertex, set<Vertex>>)
    requires Agree(edges, down, up)
    requires edges.Values == {BasicEdge("1", "2"), BasicEdge("2", "1")}
    ensures forall u :: Succ(down, u) == Succ(PairAndSingle(), u)
  {
    forall u ensures Succ(down, u) == Succ(PairAndSingle(), u) {
      forall t ensures t in Succ(down, u) <==> t in Succ(PairAndSingle(), u) {
        AgreeIff(edges, down, up, u, t);
      }
    }
  }

  /** Vertex 1 with an edge to itself, and vertex 2 on its own. */
  function SelfLoop(): map<Vertex, set<Vertex>>
  {
    map["1" := {"1"}]
  }

  /** A self-loop does not enlarge a component: the vertex on it forms a component of its own. */
  lemma SelfLoopClasses(sccs: seq<seq<Vertex>>)
    requires IsSccDecomposition(SelfLoop(), {"1", "2"}, sccs)
    ensures Classes(sccs) == {{"1"}, {"2"}}
  {
    var down := SelfLoop();
    var roots: set<Vertex> := {"1", "2"};
    assert Closed(down, {"1"});
    assert Closed(down, {"2"});
    ReachRefl(down, "1");
    ReachRefl(down, "2");
    forall y ensures Mutual(down, "1", y) <==> y in {"1"} {
      if Mutual(down, "1", y) {
        ReachClosed(down, {"1"}, "1", y);
      }
    }
    forall y ensures Mutual(down, "2", y) <==> y in {"2"} {
      if Mutual(down, "2", y) {
        ReachClosed(down, {"2"}, "2", y);
      }
    }
    forall c | c in Classes(sccs) ensures c == {"1"} || c == {"2"} {
      var i :| 0 <= i < |sccs| && c == Members(sccs[i]);
      var x := sccs[i][0];
      assert x in Flatten(sccs) by {
        InFlatten(sccs, x);
      }
      var r :| r in roots && Reachable(down, r, x);
      if r == "1" {
        ReachClosed(down, {"1"}, r, x);
        ClassOf(down, roots, sccs, i, x, {"1"});
      } else {
        ReachClosed(down, {"2"}, r, x);
        ClassOf(down, roots, sccs, i, x, {"2"});
      }
    }
    Placed(down, roots, sccs, "1");
    var i1 :| 0 <= i1 < |sccs| && "1" in sccs[i1];
    ClassOf(down, roots, sccs, i1, "1", {"1"});
    Placed(down, roots, sccs, "2");
    var i2 :| 0 <= i2 < |sccs| && "2" in sccs[i2];
    ClassOf(down, roots, sccs, i2, "2", {"2"});
    assert Members(sccs[i1]) in Classes(sccs) && Members(sccs[i2]) in Classes(sccs);
  }
}
