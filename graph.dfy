/**
 * The mutable directed graph: a vertex set, an edge set keyed by edge hash
 * key, and two adjacency indices, `downEdges` (successors by source key) and
 * `upEdges` (predecessors by target key).
 */
module Graphs {
  import opened Edges
  import opened Seqs
  import opened Order

  /** The edge with every endpoint `original` replaced by `replacement`. */
  function Rename(e: Edge, original: Vertex, replacement: Vertex): Edge
  {
    BasicEdge(if e.S == original then replacement else e.S,
              if e.T == original then replacement else e.T)
  }

  /** An adjacency entry; a missing key reads as the empty set. */
  function Lookup(index: map<Vertex, set<Vertex>>, v: Vertex): set<Vertex>
  {
    if v in index then index[v] else {}
  }

  /** `index` with `x` taken out of the entry of `k`, when there is one. */
  function DeleteFrom(index: map<Vertex, set<Vertex>>, k: Vertex, x: Vertex): map<Vertex, set<Vertex>>
  {
    if k in index then index[k := index[k] - {x}] else index
  }

  /** `index` with `x` added to the entry of `k`, creating the entry when missing. */
  function AddTo(index: map<Vertex, set<Vertex>>, k: Vertex, x: Vertex): map<Vertex, set<Vertex>>
  {
    index[k := Lookup(index, k) + {x}]
  }

  /** Every edge is stored under its own hash key. */
  ghost predicate Keyed(edges: map<string, Edge>)
  {
    forall h :: h in edges ==> edges[h].Hashcode() == h
  }

  /**
   * The edge set and both indices describe the same edges: an edge is stored
   * iff its target is among its source's successors iff its source is among
   * its target's predecessors.
   */
  ghost predicate Agree(edges: map<string, Edge>, down: map<Vertex, set<Vertex>>, up: map<Vertex, set<Vertex>>)
  {
    && Keyed(edges)
    && (forall e :: e in edges.Values ==> e.T in Lookup(down, e.S) && e.S in Lookup(up, e.T))
    && (forall u, t :: u in down && t in down[u] ==> BasicEdge(u, t) in edges.Values)
    && (forall t, u :: t in up && u in up[t] ==> BasicEdge(u, t) in edges.Values)
  }

  /** Looking an edge up by its hash key finds exactly the stored edges. */
  lemma KeyedLookup(edges: map<string, Edge>, e: Edge)
    requires Keyed(edges)
    ensures e.Hashcode() in edges <==> e in edges.Values
  {
    if e.Hashcode() in edges {
      HashcodeInjective(e, edges[e.Hashcode()]);
    }
  }

  /** Under agreement, each index entry lists exactly the stored edges at that vertex. */
  lemma IndexesOf(edges: map<string, Edge>, down: map<Vertex, set<Vertex>>,
                  up: map<Vertex, set<Vertex>>, v: Vertex)
    requires Agree(edges, down, up)
    ensures forall t :: t in Lookup(down, v) <==> BasicEdge(v, t) in edges.Values
    ensures forall s :: s in Lookup(up, v) <==> BasicEdge(s, v) in edges.Values
  {
    forall t | BasicEdge(v, t) in edges.Values ensures t in Lookup(down, v) {
      assert BasicEdge(v, t).T in Lookup(down, BasicEdge(v, t).S);
    }
    forall s | BasicEdge(s, v) in edges.Values ensures s in Lookup(up, v) {
      assert BasicEdge(s, v).S in Lookup(up, BasicEdge(s, v).T);
    }
  }

  /** The three-way agreement, for one endpoint pair. */
  lemma AgreeIff(edges: map<string, Edge>, down: map<Vertex, set<Vertex>>,
                 up: map<Vertex, set<Vertex>>, u: Vertex, t: Vertex)
    requires Agree(edges, down, up)
    ensures BasicEdge(u, t) in edges.Values <==> t in Lookup(down, u)
    ensures t in Lookup(down, u) <==> u in Lookup(up, t)
  {
    IndexesOf(edges, down, up, u);
    IndexesOf(edges, down, up, t);
  }

  /** The edges from `v` to each of `targets`. */
  function OutEdges(v: Vertex, targets: set<Vertex>): set<Edge>
  {
    set t | t in targets :: BasicEdge(v, t)
  }

  /** The edges from each of `sources` to `v`. */
  function InEdges(sources: set<Vertex>, v: Vertex): set<Edge>
  {
    set s | s in sources :: BasicEdge(s, v)
  }

  lemma OutEdgesAdd(v: Vertex, targets: set<Vertex>, t: Vertex)
    ensures OutEdges(v, targets + {t}) == OutEdges(v, targets) + {BasicEdge(v, t)}
  {
  }

  lemma InEdgesAdd(sources: set<Vertex>, v: Vertex, s: Vertex)
    ensures InEdges(sources + {s}, v) == InEdges(sources, v) + {BasicEdge(s, v)}
  {
  }

  /** Cutting `v` off from all its successors leaves exactly the edges not out of `v`. */
  lemma CutOut(edges: map<string, Edge>, down: map<Vertex, set<Vertex>>,
               up: map<Vertex, set<Vertex>>, v: Vertex)
    requires Agree(edges, down, up)
    ensures edges.Values - OutEdges(v, Lookup(down, v)) == set e | e in edges.Values && e.S != v
  {
    IndexesOf(edges, down, up, v);
    forall e | e in edges.Values && e.S == v ensures e in OutEdges(v, Lookup(down, v)) {
      assert e == BasicEdge(v, e.T);
    }
  }

  /** Cutting `v` off from all its predecessors leaves exactly the edges not into `v`. */
  lemma CutIn(edges: map<string, Edge>, down: map<Vertex, set<Vertex>>,
              up: map<Vertex, set<Vertex>>, v: Vertex)
    requires Agree(edges, down, up)
    ensures edges.Values - InEdges(Lookup(up, v), v) == set e | e in edges.Values && e.T != v
  {
    IndexesOf(edges, down, up, v);
    forall e | e in edges.Values && e.T == v ensures e in InEdges(Lookup(up, v), v) {
      assert e == BasicEdge(e.S, v);
    }
  }

  /** One step of dropping the edges out of `v`, one target at a time. */
  lemma DropOutStep(E0: set<Edge>, E: set<Edge>, E': set<Edge>, v: Vertex,
                    all: set<Vertex>, rest: set<Vertex>, t: Vertex)
    requires t in rest && rest <= all
    requires E == E0 - OutEdges(v, all - rest) && E' == E - {BasicEdge(v, t)}
    ensures E' == E0 - OutEdges(v, all - (rest - {t}))
  {
    OutEdgesAdd(v, all - rest, t);
    assert all - (rest - {t}) == (all - rest) + {t};
  }

  /** One step of dropping the edges into `v`, one source at a time. */
  lemma DropInStep(E0: set<Edge>, E: set<Edge>, E': set<Edge>, v: Vertex,
                   all: set<Vertex>, rest: set<Vertex>, s: Vertex)
    requires s in rest && rest <= all
    requires E == E0 - InEdges(all - rest, v) && E' == E - {BasicEdge(s, v)}
    ensures E' == E0 - InEdges(all - (rest - {s}), v)
  {
    InEdgesAdd(all - rest, v, s);
    assert all - (rest - {s}) == (all - rest) + {s};
  }

  /** One step of copying edges out of `v`, one target at a time. */
  lemma AddOutStep(E0: set<Edge>, E: set<Edge>, E': set<Edge>, v: Vertex,
                   all: set<Vertex>, rest: set<Vertex>, t: Vertex)
    requires t in rest && rest <= all
    requires E == E0 + OutEdges(v, all - rest) && E' == E + {BasicEdge(v, t)}
    ensures E' == E0 + OutEdges(v, all - (rest - {t}))
  {
    OutEdgesAdd(v, all - rest, t);
    assert all - (rest - {t}) == (all - rest) + {t};
  }

  /** One step of copying edges into `v`, one source at a time. */
  lemma AddInStep(E0: set<Edge>, E: set<Edge>, E': set<Edge>, v: Vertex,
                  all: set<Vertex>, rest: set<Vertex>, s: Vertex)
    requires s in rest && rest <= all
    requires E == E0 + InEdges(all - rest, v) && E' == E + {BasicEdge(s, v)}
    ensures E' == E0 + InEdges(all - (rest - {s}), v)
  {
    InEdgesAdd(all - rest, v, s);
    assert all - (rest - {s}) == (all - rest) + {s};
  }

  /** Dropping the edges out of `v`, then those into `v`, drops every edge at `v`. */
  lemma FilterTwice(E: set<Edge>, v: Vertex)
    ensures (set e | e in (set e | e in E && e.S != v) && e.T != v)
            == set e | e in E && e.S != v && e.T != v
  {
  }

  /** Deleting an absent entry changes nothing. */
  lemma DeleteAbsent(index: map<Vertex, set<Vertex>>, k: Vertex, x: Vertex)
    requires x !in Lookup(index, k)
    ensures DeleteFrom(index, k, x) == index
  {
    if k in index {
      assert index[k] - {x} == index[k];
    }
  }

  /** Storing and indexing an absent edge keeps the structures in agreement. */
  lemma AgreeConnect(edges: map<string, Edge>, down: map<Vertex, set<Vertex>>,
                     up: map<Vertex, set<Vertex>>, e: Edge)
    requires Agree(edges, down, up) && e !in edges.Values
    ensures edges[e.Hashcode() := e].Values == edges.Values + {e}
    ensures Agree(edges[e.Hashcode() := e], AddTo(down, e.S, e.T), AddTo(up, e.T, e.S))
  {
    KeyedLookup(edges, e);
    InsertValues(edges, e.Hashcode(), e);
  }

  /** Storing a value under a fresh key adds exactly that value. */
  lemma InsertValues(edges: map<string, Edge>, h: string, e: Edge)
    requires h !in edges
    ensures edges[h := e].Values == edges.Values + {e}
  {
    var edges' := edges[h := e];
    forall x | x in edges.Values ensures x in edges'.Values {
      var k :| k in edges && edges[k] == x;
      assert edges'[k] == x;
    }
    assert edges'[h] == e;
  }

  /** Deleting an edge by key and from both indices keeps the structures in agreement. */
  lemma AgreeRemoveEdge(edges: map<string, Edge>, down: map<Vertex, set<Vertex>>,
                        up: map<Vertex, set<Vertex>>, e: Edge)
    requires Agree(edges, down, up)
    ensures (edges - {e.Hashcode()}).Values == edges.Values - {e}
    ensures Agree(edges - {e.Hashcode()}, DeleteFrom(down, e.S, e.T), DeleteFrom(up, e.T, e.S))
  {
    var edges' := edges - {e.Hashcode()};
    assert edges'.Values == edges.Values - {e} by {
      forall x | x in edges.Values ensures x in edges'.Values <==> x != e {
        HashcodeInjective(x, e);
        var h :| h in edges && edges[h] == x;
        if x != e {
          assert edges'[h] == x;
        }
      }
    }
  }

  /** The names of the members of `S`. */
  function Names(name: Vertex -> string, S: set<Vertex>): set<string>
  {
    set x | x in S :: name(x)
  }

  /** No two members of `S` share a name. */
  ghost predicate InjectiveOn(name: Vertex -> string, S: set<Vertex>)
  {
    forall x, y :: x in S && y in S && name(x) == name(y) ==> x == y
  }

  /** One line per string of `ds`, in order, each indented by two spaces. */
  function Indented(ds: seq<string>): string
  {
    if ds == [] then "" else Indented(ds[..|ds| - 1]) + "  " + ds[|ds| - 1] + "\n"
  }

  /** The names of the vertices of `xs`, in the order of `xs`. */
  function Image(name: Vertex -> string, xs: seq<Vertex>): seq<string>
  {
    if xs == [] then [] else Image(name, xs[..|xs| - 1]) + [name(xs[|xs| - 1])]
  }

  /**
   * The table from names to vertices after recording the vertices of `xs`
   * in order: every collected name is a key, and the last vertex with a
   * name wins.
   */
  function LastOwner(name: Vertex -> string, xs: seq<Vertex>): (m: map<string, Vertex>)
    ensures forall n :: n in m <==> n in Image(name, xs)
  {
    if xs == [] then map[]
    else LastOwner(name, xs[..|xs| - 1])[name(xs[|xs| - 1]) := xs[|xs| - 1]]
  }

  /** The names of the members of `S`, one per member, in ascending order. */
  ghost function SortedNames(name: Vertex -> string, S: set<Vertex>): (r: seq<string>)
    ensures Ascending(r)
  {
    Enumerate(S);
    var xs :| NoDup(xs) && (forall x :: x in xs <==> x in S);
    Sort(Image(name, xs))
  }

  /** The block of `v` in a listing: its name on a line, then one indented line per successor, by ascending name. */
  ghost function Block(name: Vertex -> string, down: map<Vertex, set<Vertex>>, v: Vertex): string
  {
    name(v) + "\n" + Indented(SortedNames(name, Lookup(down, v)))
  }

  /** The blocks of the vertices that `owner` gives for the names `ns`, in the order of `ns`. */
  ghost function Blocks(name: Vertex -> string, down: map<Vertex, set<Vertex>>, owner: map<string, Vertex>,
                        ns: seq<string>): string
    requires forall n :: n in ns ==> n in owner
  {
    if ns == [] then ""
    else Blocks(name, down, owner, ns[..|ns| - 1]) + Block(name, down, owner[ns[|ns| - 1]])
  }

  /**
   * The listing written when the vertices are enumerated in the order `xs`:
   * the collected names in ascending order, each with the block of the
   * vertex the name table holds for it.
   */
  ghost function ListingFrom(name: Vertex -> string, xs: seq<Vertex>, down: map<Vertex, set<Vertex>>): string
  {
    var ns := Sort(Image(name, xs));
    assert forall n :: n in ns ==> n in multiset(Image(name, xs));
    Blocks(name, down, LastOwner(name, xs), ns)
  }

  /** A member of `vs` named `n`. */
  ghost function Owner(name: Vertex -> string, vs: set<Vertex>, n: string): (v: Vertex)
    requires n in Names(name, vs)
    ensures v in vs && name(v) == n
  {
    var v :| v in vs && name(v) == n; v
  }

  /** For each name of a member of `vs`, a member with that name. */
  ghost function OwnerMap(name: Vertex -> string, vs: set<Vertex>): map<string, Vertex>
  {
    map n | n in Names(name, vs) :: Owner(name, vs, n)
  }

  /** The human-readable listing of a graph whose vertices have distinct names: the block of every vertex, by ascending name. */
  ghost function Listing(name: Vertex -> string, vs: set<Vertex>, down: map<Vertex, set<Vertex>>): string
  {
    Blocks(name, down, OwnerMap(name, vs), SortedSet(Names(name, vs)))
  }

  class Graph {
    var vertices: set<Vertex>
    var edges: map<string, Edge>
    var downEdges: map<Vertex, set<Vertex>>
    var upEdges: map<Vertex, set<Vertex>>

    /** The edges, as a set of endpoint pairs. */
    ghost function EdgeSet(): set<Edge>
      reads this
    {
      edges.Values
    }

    /** The edge set is keyed by edge hash key and agrees with both indices. */
    ghost predicate Valid()
      reads this
    {
      Agree(edges, downEdges, upEdges)
    }

    /** The live successor set of `v`: in a valid graph, the targets of the edges out of `v`. */
    function DownEdgesNoCopy(v: Vertex): (r: set<Vertex>)
      reads this
      ensures Valid() ==> forall t :: t in r <==> BasicEdge(v, t) in EdgeSet()
    {
      var r := Lookup(downEdges, v);
      assert Valid() ==> forall t :: t in r <==> BasicEdge(v, t) in EdgeSet() by {
        if Valid() {
          forall t ensures t in r <==> BasicEdge(v, t) in EdgeSet() {
            AgreeIff(edges, downEdges, upEdges, v, t);
          }
        }
      }
      r
    }

    /** The live predecessor set of `v`: in a valid graph, the sources of the edges into `v`. */
    function UpEdgesNoCopy(v: Vertex): (r: set<Vertex>)
      reads this
      ensures Valid() ==> forall u :: u in r <==> BasicEdge(u, v) in EdgeSet()
    {
      var r := Lookup(upEdges, v);
      assert Valid() ==> forall u :: u in r <==> BasicEdge(u, v) in EdgeSet() by {
        if Valid() {
          forall u ensures u in r <==> BasicEdge(u, v) in EdgeSet() {
            AgreeIff(edges, downEdges, upEdges, u, v);
          }
        }
      }
      r
    }

    /** The three-way agreement between the edge set and the two indices. */
    lemma Agreement(u: Vertex, t: Vertex)
      requires Valid()
      ensures BasicEdge(u, t) in EdgeSet() <==> t in DownEdgesNoCopy(u)
      ensures t in DownEdgesNoCopy(u) <==> u in UpEdgesNoCopy(t)
    {
      AgreeIff(edges, downEdges, upEdges, u, t);
    }

    /** An empty graph; Go allocates the maps on first use, which is not observable here. */
    constructor ()
      ensures Valid()
      ensures vertices == {} && edges == map[] && downEdges == map[] && upEdges == map[]
    {
      vertices := {};
      edges := map[];
      downEdges := map[];
      upEdges := map[];
    }

    /** The vertices, in unspecified order. */
    method Vertices() returns (result: seq<Vertex>)
      ensures NoDup(result)
      ensures forall v :: v in result <==> v in vertices
    {
      result := [];
      var rest := vertices;
      while rest != {}
        invariant rest <= vertices
        invariant NoDup(result)
        invariant forall v :: v in result <==> v in vertices - rest
        decreases rest
      {
        var v :| v in rest;
        NoDupSnoc(result, v);
        result := result + [v];
        rest := rest - {v};
      }
    }

    /** The edges, in unspecified order. */
    method Edges() returns (result: seq<Edge>)
      requires Valid()
      ensures NoDup(result)
      ensures forall e :: e in result <==> e in EdgeSet()
    {
      result := [];
      var rest := edges.Keys;
      while rest != {}
        invariant rest <= edges.Keys
        invariant NoDup(result)
        invariant forall e :: e in result <==> e in edges.Values && e.Hashcode() !in rest
        decreases rest
      {
        var h :| h in rest;
        var e := edges[h];
        NoDupSnoc(result, e);
        result := result + [e];
        rest := rest - {h};
      }
    }

    /** The edges whose source is `v`. */
    method EdgesFrom(v: Vertex) returns (result: seq<Edge>)
      requires Valid()
      ensures NoDup(result)
      ensures forall e :: e in result <==> e in EdgeSet() && e.S == v
    {
      result := [];
      var all := Edges();
      for i := 0 to |all|
        invariant NoDup(result)
        invariant forall e :: e in result <==> e in all[..i] && e.S == v
      {
        assert all[..i + 1] == all[..i] + [all[i]];
        if all[i].Source() == v {
          NoDupSnoc(result, all[i]);
          result := result + [all[i]];
        }
      }
      assert all[..|all|] == all;
    }

    /** The edges whose target is `v`. */
    method EdgesTo(v: Vertex) returns (result: seq<Edge>)
      requires Valid()
      ensures NoDup(result)
      ensures forall e :: e in result <==> e in EdgeSet() && e.T == v
    {
      result := [];
      var all := Edges();
      for i := 0 to |all|
        invariant NoDup(result)
        invariant forall e :: e in result <==> e in all[..i] && e.T == v
      {
        assert all[..i + 1] == all[..i] + [all[i]];
        if all[i].Target() == v {
          NoDupSnoc(result, all[i]);
          result := result + [all[i]];
        }
      }
      assert all[..|all|] == all;
    }

    /** Membership of a vertex, by key. */
    function HasVertex(v: Vertex): (r: bool)
      reads this
      ensures r <==> v in vertices
    {
      v in vertices
    }

    /** Membership of an edge, by edge key: it finds exactly the stored endpoint pairs. */
    function HasEdge(e: Edge): (r: bool)
      reads this
      requires Valid()
      ensures r <==> e in EdgeSet()
    {
      KeyedLookup(edges, e);
      e.Hashcode() in edges
    }

    /** A copy of the predecessors of `v`: the sources of the edges into `v`. */
    function UpEdges(v: Vertex): (r: set<Vertex>)
      reads this
      requires Valid()
      ensures r == set e | e in EdgeSet() && e.T == v :: e.S
    {
      UpEdgesNoCopy(v)
    }

    /** A copy of the successors of `v`: the targets of the edges out of `v`. */
    function DownEdges(v: Vertex): (r: set<Vertex>)
      reads this
      requires Valid()
      ensures r == set e | e in EdgeSet() && e.S == v :: e.T
    {
      DownEdgesNoCopy(v)
    }

    /** Adds a vertex; adding it again changes nothing. */
    method Add(v: Vertex) returns (r: Vertex)
      requires Valid()
      modifies this
      ensures Valid() && r == v && HasVertex(v)
      ensures vertices == old(vertices) + {v}
      ensures edges == old(edges) && downEdges == old(downEdges) && upEdges == old(upEdges)
    {
      vertices := vertices + {v};
      r := v;
    }

    /** Adds an edge and indexes it; when the target is already a successor, nothing changes. */
    method Connect(edge: Edge)
      requires Valid()
      modifies this
      ensures Valid()
      ensures vertices == old(vertices)
      ensures EdgeSet() == old(EdgeSet()) + {edge}
      ensures old(edge in EdgeSet()) ==>
                edges == old(edges) && downEdges == old(downEdges) && upEdges == old(upEdges)
    {
      var source := edge.Source();
      var target := edge.Target();
      AgreeIff(edges, downEdges, upEdges, source, target);
      if source in downEdges && target in downEdges[source] {
        return;
      }
      AgreeConnect(edges, downEdges, upEdges, edge);
      edges := edges[edge.Hashcode() := edge];
      var s := if source in downEdges then downEdges[source] else {};
      downEdges := downEdges[source := s + {target}];
      s := if target in upEdges then upEdges[target] else {};
      upEdges := upEdges[target := s + {source}];
    }

    /** Removes one edge from the edge set and both indices; absent, nothing changes. */
    method RemoveEdge(edge: Edge)
      requires Valid()
      modifies this
      ensures Valid()
      ensures vertices == old(vertices)
      ensures EdgeSet() == old(EdgeSet()) - {edge}
      ensures old(edge !in EdgeSet()) ==>
                edges == old(edges) && downEdges == old(downEdges) && upEdges == old(upEdges)
    {
      AgreeRemoveEdge(edges, downEdges, upEdges, edge);
      AgreeIff(edges, downEdges, upEdges, edge.S, edge.T);
      KeyedLookup(edges, edge);
      if edge !in EdgeSet() {
        DeleteAbsent(downEdges, edge.S, edge.T);
        DeleteAbsent(upEdges, edge.T, edge.S);
      }
      edges := edges - {edge.Hashcode()};
      if edge.S in downEdges {
        downEdges := downEdges[edge.S := downEdges[edge.S] - {edge.T}];
      }
      if edge.T in upEdges {
        upEdges := upEdges[edge.T := upEdges[edge.T] - {edge.S}];
      }
    }

    /** Removes a vertex and every edge into or out of it, member or not. */
    method Remove(v: Vertex)
      requires Valid()
      modifies this
      ensures Valid()
      ensures vertices == old(vertices) - {v}
      ensures EdgeSet() == set e | e in old(EdgeSet()) && e.S != v && e.T != v
    {
      vertices := vertices - {v};
      ghost var E0 := EdgeSet();
      RemoveOutEdges(v);
      RemoveInEdges(v);
      FilterTwice(E0, v);
    }

    /** The first loop of `Remove`: removes every edge out of `v`, one successor at a time. */
    method RemoveOutEdges(v: Vertex)
      requires Valid()
      modifies this
      ensures Valid()
      ensures vertices == old(vertices)
      ensures EdgeSet() == set e | e in old(EdgeSet()) && e.S != v
    {
      ghost var E0 := EdgeSet();
      var targets := DownEdgesNoCopy(v);
      ghost var down0 := targets;
      CutOut(edges, downEdges, upEdges, v);
      while targets != {}
        invariant Valid()
        invariant vertices == old(vertices)
        invariant targets <= down0
        invariant EdgeSet() == E0 - OutEdges(v, down0 - targets)
        decreases targets
      {
        var target :| target in targets;
        ghost var before := EdgeSet();
        RemoveEdge(BasicEdge(v, target));
        DropOutStep(E0, before, EdgeSet(), v, down0, targets, target);
        targets := targets - {target};
      }
      assert targets == {} && down0 - targets == down0;
    }

    /** The second loop of `Remove`: removes every edge into `v`, one predecessor at a time. */
    method RemoveInEdges(v: Vertex)
      requires Valid()
      modifies this
      ensures Valid()
      ensures vertices == old(vertices)
      ensures EdgeSet() == set e | e in old(EdgeSet()) && e.T != v
    {
      ghost var E1 := EdgeSet();
      var sources := UpEdgesNoCopy(v);
      ghost var up1 := sources;
      CutIn(edges, downEdges, upEdges, v);
      while sources != {}
        invariant Valid()
        invariant vertices == old(vertices)
        invariant sources <= up1
        invariant EdgeSet() == E1 - InEdges(up1 - sources, v)
        decreases sources
      {
        var source :| source in sources;
        ghost var before := EdgeSet();
        RemoveEdge(BasicEdge(source, v));
        DropInStep(E1, before, EdgeSet(), v, up1, sources, source);
        sources := sources - {source};
      }
      assert sources == {} && up1 - sources == up1;
    }

    /**
     * Moves every edge of `original` onto `replacement` and removes `original`.
     * Returns false, changing nothing, when `original` is not a member.
     */
    method Replace(original: Vertex, replacement: Vertex) returns (ok: bool)
      requires Valid()
      modifies this
      ensures Valid()
      ensures ok == (original in old(vertices))
      ensures !ok || original == replacement ==>
                vertices == old(vertices) && edges == old(edges) &&
                downEdges == old(downEdges) && upEdges == old(upEdges)
      ensures ok && original != replacement ==>
                vertices == old(vertices) - {original} + {replacement} &&
                EdgeSet() == set e | e in old(EdgeSet()) :: Rename(e, original, replacement)
    {
      if original !in vertices {
        return false;
      }
      if original == replacement {
        return true;
      }
      var _ := Add(replacement);
      ghost var E0 := EdgeSet();
      var targets := DownEdgesNoCopy(original);
      ghost var down0 := targets;
      IndexesOf(edges, downEdges, upEdges, original);
      while targets != {}
        invariant Valid()
        invariant vertices == old(vertices) + {replacement}
        invariant targets <= down0
        invariant EdgeSet() == E0 + OutEdges(replacement, down0 - targets)
        decreases targets
      {
        var target :| target in targets;
        ghost var before := EdgeSet();
        Connect(BasicEdge(replacement, target));
        AddOutStep(E0, before, EdgeSet(), replacement, down0, targets, target);
        targets := targets - {target};
      }
      assert targets == {} && down0 - targets == down0;
      ghost var E1 := EdgeSet();
      var sources := UpEdgesNoCopy(original);
      ghost var up1 := sources;
      IndexesOf(edges, downEdges, upEdges, original);
      while sources != {}
        invariant Valid()
        invariant vertices == old(vertices) + {replacement}
        invariant sources <= up1
        invariant EdgeSet() == E1 + InEdges(up1 - sources, replacement)
        decreases sources
      {
        var source :| source in sources;
        ghost var before := EdgeSet();
        Connect(BasicEdge(source, replacement));
        AddInStep(E1, before, EdgeSet(), replacement, up1, sources, source);
        sources := sources - {source};
      }
      assert sources == {} && up1 - sources == up1;
      assert EdgeSet() == E0 + OutEdges(replacement, down0) + InEdges(up1, replacement);
      Remove(original);
      RenameImage(E0, down0, up1, original, replacement);
      return true;
    }

    /**
     * The listing of the graph, with `name` giving each vertex's name: the
     * vertex names in ascending order, each followed by its successors'
     * names in ascending order, indented by two spaces, one per line. When
     * two vertices share a name, each occurrence of the name carries the
     * block of the vertex enumerated last with it.
     */
    method String(name: Vertex -> string) returns (r: string)
      ensures exists xs :: NoDup(xs) && (forall v :: v in xs <==> v in vertices) && r == ListingFrom(name, xs, downEdges)
      ensures InjectiveOn(name, vertices) ==> r == Listing(name, vertices, downEdges)
    {
      var vs := Vertices();
      var names, mapping := NameVertices(name, vs);
      names := Sort(names);
      assert forall n :: n in names ==> n in multiset(Image(name, vs));
      r := WriteBlocks(name, names, mapping);
      assert r == ListingFrom(name, vs, downEdges);
      if InjectiveOn(name, vertices) {
        ListingFromInjective(name, vertices, vs, downEdges);
      }
    }

    /** Appends the blocks of the vertices `mapping` gives for `names`, in the order of `names`. */
    method WriteBlocks(name: Vertex -> string, names: seq<string>, mapping: map<string, Vertex>) returns (r: string)
      requires forall n :: n in names ==> n in mapping
      ensures r == Blocks(name, downEdges, mapping, names)
    {
      r := "";
      for k := 0 to |names|
        invariant r == Blocks(name, downEdges, mapping, names[..k])
      {
        var v := mapping[names[k]];
        r := WriteBlock(name, v, r);
        assert names[..k + 1][..k] == names[..k];
      }
      assert names[..|names|] == names;
    }

    /** Appends to `buf` the block of `v`: its name on a line, then its successors' names, indented. */
    method WriteBlock(name: Vertex -> string, v: Vertex, buf: string) returns (r: string)
      ensures r == buf + Block(name, downEdges, v)
    {
      r := buf + name(v) + "\n";
      var deps := SuccessorNames(name, v);
      ghost var r1 := r;
      for j := 0 to |deps|
        invariant r == r1 + Indented(deps[..j])
      {
        IndentedSnoc(r1, deps, j);
        r := r + "  " + deps[j] + "\n";
      }
      assert deps[..|deps|] == deps;
      Regroup(buf, name(v), "\n", Indented(deps));
    }

    /** The names of the successors of `v`, one per successor, in ascending order. */
    method SuccessorNames(name: Vertex -> string, v: Vertex) returns (deps: seq<string>)
      ensures Ascending(deps)
      ensures exists xs :: NoDup(xs) && (forall t :: t in xs <==> t in Lookup(downEdges, v)) &&
                           multiset(deps) == multiset(Image(name, xs))
      ensures deps == SortedNames(name, Lookup(downEdges, v))
    {
      var targets := Lookup(downEdges, v);
      deps := [];
      var rest := targets;
      ghost var xs: seq<Vertex> := [];
      while rest != {}
        invariant forall t :: t in xs <==> t in targets && t !in rest
        invariant rest <= targets
        invariant NoDup(xs)
        invariant deps == Image(name, xs)
        decreases rest
      {
        var target :| target in rest;
        NoDupSnoc(xs, target);
        assert (xs + [target])[..|xs|] == xs;
        deps := deps + [name(target)];
        xs := xs + [target];
        rest := rest - {target};
      }
      deps := Sort(deps);
      SortedNamesOf(name, targets, xs);
    }
  }

  /**
   * The edge set `Replace` builds, less the edges at `original`, is the
   * original edge set with `original` renamed to `replacement`.
   */
  lemma RenameImage(E0: set<Edge>, down0: set<Vertex>, up1: set<Vertex>,
                    original: Vertex, replacement: Vertex)
    requires original != replacement
    requires forall t :: t in down0 <==> BasicEdge(original, t) in E0
    requires forall s :: s in up1 <==> BasicEdge(s, original) in E0 + OutEdges(replacement, down0)
    ensures (set e | e in E0 + OutEdges(replacement, down0) + InEdges(up1, replacement)
                   && e.S != original && e.T != original)
            == set e | e in E0 :: Rename(e, original, replacement)
  {
    var E2 := E0 + OutEdges(replacement, down0) + InEdges(up1, replacement);
    var lhs := set e | e in E2 && e.S != original && e.T != original;
    var rhs := set e | e in E0 :: Rename(e, original, replacement);
    forall e | e in lhs ensures e in rhs {
      if e in E0 {
        assert Rename(e, original, replacement) == e;
      } else if e in OutEdges(replacement, down0) {
        assert Rename(BasicEdge(original, e.T), original, replacement) == e;
      } else if BasicEdge(e.S, original) in E0 {
        assert Rename(BasicEdge(e.S, original), original, replacement) == e;
      } else {
        assert e.S == replacement;
        assert Rename(BasicEdge(original, original), original, replacement) == e;
      }
    }
    forall e0 | e0 in E0 ensures Rename(e0, original, replacement) in lhs {
      if e0.S == original && e0.T == original {
        assert BasicEdge(replacement, original) in OutEdges(replacement, down0);
        assert replacement in up1;
        assert BasicEdge(replacement, replacement) in InEdges(up1, replacement);
      } else if e0.S == original {
        assert e0.T in down0;
        assert BasicEdge(replacement, e0.T) in OutEdges(replacement, down0);
      } else if e0.T == original {
        assert e0.S in up1;
        assert BasicEdge(e0.S, replacement) in InEdges(up1, replacement);
      }
    }
  }

  /** The names of the vertices of `vs`, in order, and the table from each name to the last vertex of `vs` with it. */
  method NameVertices(name: Vertex -> string, vs: seq<Vertex>) returns (names: seq<string>, mapping: map<string, Vertex>)
    ensures names == Image(name, vs)
    ensures mapping == LastOwner(name, vs)
  {
    names := [];
    mapping := map[];
    for i := 0 to |vs|
      invariant names == Image(name, vs[..i])
      invariant mapping == LastOwner(name, vs[..i])
    {
      var v := vs[i];
      var n := name(v);
      assert vs[..i + 1][..i] == vs[..i];
      names := names + [n];
      mapping := mapping[n := v];
    }
    assert vs[..|vs|] == vs;
  }

  /** The names collected from a listing are the names of its vertices, each once when no two of them share a name. */
  lemma ImageFacts(name: Vertex -> string, xs: seq<Vertex>)
    ensures |Image(name, xs)| == |xs|
    ensures forall n :: n in Image(name, xs) <==> n in Names(name, set v | v in xs)
    ensures InjectiveOn(name, set v | v in xs) && NoDup(xs) ==> NoDup(Image(name, xs))
  {
    ImageNames(name, xs);
    if InjectiveOn(name, set v | v in xs) && NoDup(xs) {
      ImageNoDup(name, xs);
    }
  }

  lemma {:induction false} ImageNames(name: Vertex -> string, xs: seq<Vertex>)
    ensures |Image(name, xs)| == |xs|
    ensures forall n :: n in Image(name, xs) <==> n in Names(name, set v | v in xs)
  {
    if xs != [] {
      var ys := xs[..|xs| - 1];
      var x := xs[|xs| - 1];
      ImageNames(name, ys);
      assert xs == ys + [x];
      assert (set v | v in xs) == (set v | v in ys) + {x};
      assert Names(name, set v | v in xs) == Names(name, set v | v in ys) + {name(x)};
    }
  }

  lemma {:induction false} ImageNoDup(name: Vertex -> string, xs: seq<Vertex>)
    requires InjectiveOn(name, set v | v in xs) && NoDup(xs)
    ensures NoDup(Image(name, xs))
  {
    if xs != [] {
      var ys := xs[..|xs| - 1];
      var x := xs[|xs| - 1];
      assert xs == ys + [x];
      NoDupAppend(ys, [x]);
      assert InjectiveOn(name, set v | v in ys);
      ImageNoDup(name, ys);
      ImageNames(name, ys);
      forall v | v in ys ensures name(v) != name(x) {
        assert v in xs;
      }
      NoDupSnoc(Image(name, ys), name(x));
    }
  }

  /** The names of a concatenation are the names of its parts, concatenated. */
  lemma {:induction false} ImageAppend(name: Vertex -> string, a: seq<Vertex>, b: seq<Vertex>)
    ensures Image(name, a + b) == Image(name, a) + Image(name, b)
  {
    if b == [] {
      assert a + b == a;
    } else {
      var b' := b[..|b| - 1];
      ImageAppend(name, a, b');
      assert (a + b)[..|a + b| - 1] == a + b';
      assert (a + b)[|a + b| - 1] == b[|b| - 1];
    }
  }

  /** Enumerations with the same elements collect the same names, as often. */
  lemma {:induction false} ImagePerm(name: Vertex -> string, xs: seq<Vertex>, ys: seq<Vertex>)
    requires multiset(xs) == multiset(ys)
    ensures multiset(Image(name, xs)) == multiset(Image(name, ys))
  {
    if xs != [] {
      var xs' := xs[..|xs| - 1];
      var x := xs[|xs| - 1];
      assert xs == xs' + [x];
      assert x in multiset(ys);
      var k :| 0 <= k < |ys| && ys[k] == x;
      var ys' := ys[..k] + ys[k + 1..];
      assert ys == ys[..k] + [x] + ys[k + 1..];
      assert multiset(xs') == multiset(xs) - multiset{x};
      assert multiset(ys') == multiset(ys) - multiset{x};
      ImagePerm(name, xs', ys');
      ImageRemove(name, ys[..k], x, ys[k + 1..]);
    } else {
      assert ys == [];
    }
  }

  /** Taking a vertex out of an enumeration takes its name out of the collected names. */
  lemma ImageRemove(name: Vertex -> string, a: seq<Vertex>, x: Vertex, b: seq<Vertex>)
    ensures multiset(Image(name, a + [x] + b)) == multiset(Image(name, a + b)) + multiset{name(x)}
  {
    var A, B := Image(name, a), Image(name, b);
    assert Image(name, a + [x] + b) == A + [name(x)] + B by {
      ImageAppend(name, a, [x]);
      ImageAppend(name, a + [x], b);
      ImageOne(name, x);
    }
    assert Image(name, a + b) == A + B by {
      ImageAppend(name, a, b);
    }
    MultisetMiddle(A, name(x), B);
  }

  lemma MultisetMiddle(A: seq<string>, n: string, B: seq<string>)
    ensures multiset(A + [n] + B) == multiset(A + B) + multiset{n}
  {
  }

  lemma ImageOne(name: Vertex -> string, x: Vertex)
    ensures Image(name, [x]) == [name(x)]
  {
    assert [x][..0] == [];
  }

  /** Sorting the names of any duplicate-free enumeration of `S` gives `SortedNames(name, S)`. */
  lemma SortedNamesOf(name: Vertex -> string, S: set<Vertex>, xs: seq<Vertex>)
    requires NoDup(xs) && (forall x :: x in xs <==> x in S)
    ensures Sort(Image(name, xs)) == SortedNames(name, S)
  {
    Enumerate(S);
    var ys :| NoDup(ys) && (forall x :: x in ys <==> x in S) && Sort(Image(name, ys)) == SortedNames(name, S);
    SameElems(xs, ys);
    ImagePerm(name, xs, ys);
    AscendingUnique(Sort(Image(name, xs)), Sort(Image(name, ys)));
  }

  /** Sorting keeps the length and the elements. */
  lemma SortFacts(s: seq<string>)
    ensures |Sort(s)| == |s|
    ensures forall n :: n in Sort(s) <==> n in s
  {
    assert |multiset(Sort(s))| == |multiset(s)|;
    assert forall n :: n in Sort(s) <==> n in multiset(s);
  }

  /** `SortedNames(name, S)` holds one name per member of `S`, and exactly the names of `S`. */
  lemma SortedNamesCount(name: Vertex -> string, S: set<Vertex>)
    ensures |SortedNames(name, S)| == |S|
    ensures forall n :: n in SortedNames(name, S) <==> n in Names(name, S)
  {
    Enumerate(S);
    var xs :| NoDup(xs) && (forall x :: x in xs <==> x in S);
    var ns := Image(name, xs);
    SortedNamesOf(name, S, xs);
    ImageFacts(name, xs);
    NoDupCard(xs, S);
    SortFacts(ns);
    assert (set v | v in xs) == S;
  }

  /** When no two members of `S` share a name, `SortedNames(name, S)` is the sorted set of their names. */
  lemma SortedNamesInjective(name: Vertex -> string, S: set<Vertex>)
    requires InjectiveOn(name, S)
    ensures SortedNames(name, S) == SortedSet(Names(name, S))
  {
    Enumerate(S);
    var xs :| NoDup(xs) && (forall x :: x in xs <==> x in S);
    SortedNamesOf(name, S, xs);
    assert (set v | v in xs) == S;
    ImageFacts(name, xs);
    SortMatches(Names(name, S), Image(name, xs));
  }

  /** A single vertex contributes its own name. */
  lemma SortedNamesOne(name: Vertex -> string, v: Vertex)
    ensures SortedNames(name, {v}) == [name(v)]
  {
    SortedNamesOf(name, {v}, [v]);
    assert [v][..0] == [];
    AscendingUnique(Sort(Image(name, [v])), [name(v)]);
  }

  /** Every entry of the name table is a vertex of the enumeration with that name. */
  lemma {:induction false} LastOwnerFacts(name: Vertex -> string, xs: seq<Vertex>)
    ensures forall n :: n in LastOwner(name, xs) ==> LastOwner(name, xs)[n] in xs && name(LastOwner(name, xs)[n]) == n
  {
    if xs != [] {
      LastOwnerFacts(name, xs[..|xs| - 1]);
      assert forall v :: v in xs[..|xs| - 1] ==> v in xs;
    }
  }

  /** When no two vertices of `vs` share a name, the name table of any enumeration of `vs` is `OwnerMap(name, vs)`. */
  lemma LastOwnerIsOwner(name: Vertex -> string, vs: set<Vertex>, xs: seq<Vertex>)
    requires (forall v :: v in xs <==> v in vs) && InjectiveOn(name, vs)
    ensures LastOwner(name, xs) == OwnerMap(name, vs)
  {
    LastOwnerFacts(name, xs);
    ImageFacts(name, xs);
    assert (set v | v in xs) == vs;
    var m := LastOwner(name, xs);
    assert m.Keys == OwnerMap(name, vs).Keys;
    forall n | n in m ensures m[n] == OwnerMap(name, vs)[n] {
      assert Owner(name, vs, n) in vs;
    }
  }

  /**
   * When no two vertices share a name, the listing does not depend on the
   * order in which the vertices are enumerated.
   */
  lemma ListingFromInjective(name: Vertex -> string, vs: set<Vertex>, xs: seq<Vertex>, down: map<Vertex, set<Vertex>>)
    requires NoDup(xs) && (forall v :: v in xs <==> v in vs) && InjectiveOn(name, vs)
    ensures ListingFrom(name, xs, down) == Listing(name, vs, down)
  {
    ImageFacts(name, xs);
    assert (set v | v in xs) == vs;
    SortMatches(Names(name, vs), Image(name, xs));
    LastOwnerIsOwner(name, vs, xs);
  }

  /** Writing one more indented line extends the indented listing by that line. */
  lemma IndentedSnoc(pre: string, ds: seq<string>, j: nat)
    requires j < |ds|
    ensures pre + Indented(ds[..j]) + "  " + ds[j] + "\n" == pre + Indented(ds[..j + 1])
  {
    assert ds[..j + 1][..j] == ds[..j];
    Regroup(pre, Indented(ds[..j]) + "  ", ds[j], "\n");
    Regroup(pre, Indented(ds[..j]), "  ", ds[j]);
  }

  lemma Regroup(a: string, b: string, c: string, d: string)
    ensures a + b + c + d == a + (b + c + d)
  {
  }

  /** Names every vertex by its key. */
  function KeyName(v: Vertex): string
  {
    v
  }

  /** The successor index of the graph 1 -> 2 -> 3. */
  function Chain(): map<Vertex, set<Vertex>>
  {
    map["1" := {"2"}, "2" := {"3"}]
  }

  lemma {:induction false} ChainBlockOne()
    ensures Block(KeyName, Chain(), "1") == "1\n  2\n"
  {
    assert Lookup(Chain(), "1") == {"2"};
    SortedNamesOne(KeyName, "2");
    assert Indented(["2"]) == "  2\n";
  }

  lemma {:induction false} ChainBlockTwo()
    ensures Block(KeyName, Chain(), "2") == "2\n  3\n"
  {
    assert Lookup(Chain(), "2") == {"3"};
    SortedNamesOne(KeyName, "3");
    assert Indented(["3"]) == "  3\n";
  }

  lemma {:induction false} ChainBlockThree()
    ensures Block(KeyName, Chain(), "3") == "3\n"
  {
    assert Lookup(Chain(), "3") == {};
    SortedNamesOf(KeyName, {}, []);
  }

  /** The vertex names of the graph 1 -> 2 -> 3, in order. */
  lemma {:induction false} ChainNames()
    ensures SortedSet(Names(KeyName, {"1", "2", "3"})) == ["1", "2", "3"]
  {
    assert Names(KeyName, {"1", "2", "3"}) == {"1", "2", "3"};
    assert LessEq("1", "2") && LessEq("2", "3") && LessEq("1", "3");
    SortedSetIs(Names(KeyName, {"1", "2", "3"}), ["1", "2", "3"]);
  }

  /** The blocks of the graph 1 -> 2 -> 3 follow one another in name order. */
  lemma {:induction false} ChainBlocks()
    ensures Blocks(KeyName, Chain(), OwnerMap(KeyName, {"1", "2", "3"}), ["1", "2", "3"])
            == Block(KeyName, Chain(), "1") + Block(KeyName, Chain(), "2") + Block(KeyName, Chain(), "3")
  {
    var vs: set<Vertex> := {"1", "2", "3"};
    var ns := ["1", "2", "3"];
    assert Names(KeyName, vs) == {"1", "2", "3"};
    var owner := OwnerMap(KeyName, vs);
    assert owner["1"] == "1" && owner["2"] == "2" && owner["3"] == "3";
    assert ns[..2] == ["1", "2"] && ns[..2][..1] == ["1"] && ns[..2][..1][..0] == [];
    assert Blocks(KeyName, Chain(), owner, ["1"]) == Block(KeyName, Chain(), "1");
    assert Blocks(KeyName, Chain(), owner, ["1", "2"]) == Block(KeyName, Chain(), "1") + Block(KeyName, Chain(), "2");
  }

  lemma ChainText()
    ensures "1\n  2\n" + "2\n  3\n" + "3\n" == "1\n  2\n2\n  3\n3\n"
  {
  }

  /**
   * The listing of the graph 1 -> 2 -> 3, with every vertex named by its
   * key: the format of the expected outputs of the graph tests.
   */
  lemma {:induction false} ListingExample()
    ensures Listing(KeyName, {"1", "2", "3"}, Chain()) == "1\n  2\n2\n  3\n3\n"
  {
    ChainNames();
    ChainBlocks();
    ChainBlockOne();
    ChainBlockTwo();
    ChainBlockThree();
    ChainText();
  }
}
