# DAGG graph store and strongly connected components, in Dafny

This project models the core of the DAGG Go library in Dafny and proves properties of the model. The core has three parts:

- **Edge identity.** A `BasicEdge` keeps the source and target it was built with. Its hash key is the source's key, a `-`, then the target's key (`edge.go`).
- **The mutable graph.** A `Graph` holds a vertex set, an edge set and two adjacency indices (`graph.go`):
  - the edge set is keyed by edge hash key;
  - `downEdges` gives the successors of each source key;
  - `upEdges` gives the predecessors of each target key.

  `Add`, `Connect`, `RemoveEdge`, `Remove` and `Replace` update these in place. The queries are `Vertices`, `Edges`, `EdgesFrom`, `EdgesTo`, `HasVertex`, `HasEdge`, `UpEdges`, `DownEdges` and the `NoCopy` accessors. `String` renders a sorted, human-readable listing.
- **Tarjan's search for strongly connected components** over the successor index (`tarjan.go`). It keeps its bookkeeping in an `sccAcct` object: the next discovery index, the index of every visited vertex, the stack, and the components emitted so far.

Modules, one per file:

- `Edges` (`edge.dfy`): the edge hash key, which splits back into its endpoint keys, and its injectivity.
- `Seqs` (`seqs.dfy`): sequences without duplicates, and reversal.
- `Order` (`order.dfy`): Go's string order, and the ascending sort `sort.Strings` promises.
- `Graphs` (`graph.dfy`):
  - the class `Graph`, with the same four fields as the Go `Graph`;
  - `Valid()`, the agreement invariant: an edge is stored under its own key iff its target is in its source's `downEdges` entry iff its source is in its target's `upEdges` entry;
  - the listing that `String` produces, as the specification function `ListingFrom` of an enumeration of the vertices, and `Listing` when no two vertices share a name.
- `Reachability` (`reach.dfy`): paths along the successor index.
- `Scc` (`scc.dfy`):
  - the search's bookkeeping as a value (`Acct`);
  - the invariant the search keeps, with one lemma per step of the search;
  - `IsSccDecomposition`, the promised result. Components are non-empty. They hold each vertex reachable from a vertex of the graph exactly once. Two vertices share a component iff each reaches the other. No edge leads from a component to a later one.
- `Tarjan` (`tarjan.dfy`): the class `SccAcct`, the recursive search and its driver, as methods with loops.
- `SccExamples` (`scc_examples.dfy`): the component sets of the repository's test graphs, derived from `IsSccDecomposition`.

A vertex is identified by its hash key, and the model takes a vertex to be that key. The key is a string without `-`; see the `JoinKeys` lemmas. An adjacency entry that is missing and one that is empty are read alike (`Lookup`), because `Remove` leaves empty entries behind. Adjacency targets need not be vertices of the graph: the search follows them, and the decomposition then covers every vertex reachable from a vertex of the graph.

## Model

| member | source | states |
|---|---|---|
| Edges.SplitJoin | edge.go:27-29 | When the source key has no '-', splitting an edge key at its first '-' gives back both endpoint keys. |
| Edges.JoinKeysInjective | edge.go:27-29 | For dash-free source keys, two edge keys are equal iff both endpoint keys are equal. |
| Edges.JoinKeysCollide | edge.go:27-29 | Without that restriction, two different endpoint pairs ("a-b","c") and ("a","b-c") share the edge key "a-b-c". |
| Edges.Edge.Source | edge.go:31-33 | Rebuilding a `BasicEdge` from the returned source and the edge's target gives back the same edge. |
| Edges.Edge.Target | edge.go:35-37 | Rebuilding a `BasicEdge` from the edge's source and the returned target gives back the same edge. |
| Edges.HashcodeSplit | edge.go:27-29 | Splitting an edge's hash key at its first '-' gives back exactly its source and target keys. |
| Edges.Accessors | edge.go:17-19 | `Source()` and `Target()` return exactly the arguments `BasicEdge` was built with. |
| Edges.FirstDash | edge.go:28 | The position found is a '-', or the end of the key, and no '-' comes before it. |
| Edges.HashcodeInjective | edge.go:27-37 | Two edges have the same hash key iff they have the same endpoints, so edges built separately from equal endpoints are the same member of an edge set. |
| Graphs.KeyedLookup | graph.go:94-97 | In an edge set keyed by hash key, an edge's key is present iff that edge is stored. |
| Graphs.AgreeIff | graph.go:9-15 | Under agreement, (u,t) is stored iff t is among u's successors iff u is among t's predecessors. |
| Graphs.IndexesOf | graph.go:180-194 | Under agreement, `downEdges` of v lists exactly the targets of stored edges out of v, and `upEdges` of v exactly the sources of stored edges into v. |
| Graphs.AgreeConnect | graph.go:213-230 | Storing a new edge under its key and adding it to both indices adds exactly that edge and keeps the agreement. |
| Graphs.AgreeRemoveEdge | graph.go:157-166 | Deleting an edge's key and its two index entries removes exactly that edge and keeps the agreement. |
| Graphs.CutOut | graph.go:114-116 | Taking away the edges from v to each of v's successors leaves exactly the edges whose source is not v. |
| Graphs.CutIn | graph.go:117-119 | Taking away the edges to v from each of v's predecessors leaves exactly the edges whose target is not v. |
| Graphs.RenameImage | graph.go:138-148 | Copying v's out- and in-edges onto the replacement, then removing v's edges, gives the edge set with `original` renamed to `replacement`, self-loops included. |
| Graphs.Graph.Agreement | graph.go:9-15 | The three-way agreement of `Valid()`, for one endpoint pair of the graph. |
| Graphs.Graph.constructor | graph.go:314-327 | A new graph is empty in all four structures and satisfies the invariant. |
| Graphs.Graph.Vertices | graph.go:43-51 | Lists every vertex exactly once. |
| Graphs.Graph.Edges | graph.go:53-61 | Lists every stored edge exactly once. |
| Graphs.Graph.EdgesFrom | graph.go:63-74 | Lists, once each, exactly the stored edges whose source is v. |
| Graphs.Graph.EdgesTo | graph.go:76-87 | Lists, once each, exactly the stored edges whose target is v. |
| Graphs.Graph.HasVertex | graph.go:89-92 | True iff v is a vertex. |
| Graphs.Graph.HasEdge | graph.go:94-97 | True iff an edge with the same endpoints is stored (lookup by edge key). |
| Graphs.Graph.DownEdgesNoCopy | graph.go:180-186 | In a valid graph, the live successor entry of v holds exactly the targets of the stored edges out of v. |
| Graphs.Graph.UpEdgesNoCopy | graph.go:188-194 | In a valid graph, the live predecessor entry of v holds exactly the sources of the stored edges into v. |
| Graphs.Graph.UpEdges | graph.go:169-173 | Is the set of sources of the stored edges into v. |
| Graphs.Graph.DownEdges | graph.go:175-178 | Is the set of targets of the stored edges out of v. |
| Graphs.Graph.Add | graph.go:99-105 | Adds v to the vertices (idempotent), returns v, afterwards `HasVertex(v)`; edges and both indices unchanged. |
| Graphs.Graph.Connect | graph.go:196-231 | Keeps agreement. The edge set becomes the old one plus this edge. When the target was already a successor, all structures are unchanged, so connecting twice gives one edge. Vertices unchanged. |
| Graphs.Graph.RemoveEdge | graph.go:153-167 | Keeps agreement. The edge set loses exactly this edge; when it was absent, all structures are unchanged. Vertices unchanged. |
| Graphs.Graph.Remove | graph.go:107-122 | Keeps agreement and deletes v from the vertices. The edges remaining are exactly the old ones with neither endpoint v, whether or not v was a vertex. |
| Graphs.Graph.RemoveOutEdges | graph.go:114-116 | The first loop of `Remove`: keeps agreement and removes exactly the edges out of v. |
| Graphs.Graph.RemoveInEdges | graph.go:117-119 | The second loop of `Remove`: keeps agreement and removes exactly the edges into v. |
| Graphs.Graph.Replace | graph.go:124-151 | Returns false, changing nothing, when `original` is not a vertex. Returns true, changing nothing, when the two are equal. Otherwise returns true: the vertices lose `original` and gain `replacement`, and the edge set is the old one with every endpoint `original` renamed to `replacement`. Agreement is kept. |
| Graphs.Graph.String | graph.go:276-312 | For some duplicate-free enumeration of the vertices, the result is `ListingFrom` of it: every collected name (one per vertex) in ascending order, each followed by the block of the vertex that the name table holds for it. When no two vertices share a name, the result is `Listing`, which does not depend on the enumeration. |
| Graphs.Graph.WriteBlocks | graph.go:291-309 | For any names, all present in the name table, writes the blocks of the vertices the table gives for them, one after another, in the order of the names. |
| Graphs.Graph.WriteBlock | graph.go:293-308 | For any vertex, appends its block: its name, a newline, then one line "  name\n" per successor, in ascending name order. |
| Graphs.Graph.SuccessorNames | graph.go:294-303 | Returns one name per successor of v, in ascending order: the result is the sort of the names of some duplicate-free enumeration of the successors, which is `SortedNames` of the successor set. |
| Graphs.NameVertices | graph.go:281-288 | Collects the names of the listed vertices, in listing order, and builds the name table in which each name maps to the last listed vertex that has it. |
| Graphs.ImageFacts | graph.go:281-289 | One name is collected per vertex, the collected names are exactly the names of the vertices, and they are duplicate-free when no two listed vertices share a name. |
| Graphs.ImageNames | graph.go:284-288 | One name is collected per listed vertex, and the collected names are exactly the names of the listed vertices. |
| Graphs.ImageNoDup | graph.go:284-288 | A duplicate-free listing in which no two vertices share a name yields duplicate-free names. |
| Graphs.ImageRemove | graph.go:298-303 | Taking one vertex out of an enumeration takes exactly one copy of its name out of the collected names. |
| Graphs.ImageAppend | graph.go:284-288 | The names collected from two runs of vertices, one after the other, are the names of the first run followed by those of the second. |
| Graphs.ImagePerm | graph.go:298-303 | Enumerating the same vertices in another order collects the same names, each as often. |
| Graphs.SortedNamesOf | graph.go:298-303 | Sorting the names of any duplicate-free enumeration of a set gives the same sequence, so the sorted names do not depend on Go's map iteration order. |
| Graphs.SortedNamesCount | graph.go:298-303 | The sorted names of a set hold one entry per member and exactly the names of its members, shared names included. |
| Graphs.SortedNamesInjective | graph.go:298-303 | When no two members of a set share a name, its sorted names are the ascending list of its distinct names. |
| Graphs.SortedNamesOne | graph.go:298-303 | A single vertex contributes exactly its own name. |
| Graphs.LastOwnerFacts | graph.go:284-288 | Every entry of the name table maps a name to a listed vertex that has that name. |
| Graphs.LastOwnerIsOwner | graph.go:284-288 | When no two vertices share a name, the name table is the same for every enumeration of the vertices. |
| Graphs.ListingFromInjective | graph.go:276-312 | When no two vertices share a name, the listing written for any duplicate-free enumeration of the vertices is `Listing`, so it does not depend on the enumeration order. |
| Graphs.ListingExample | dag_test.go:409-415 | The listing of the graph 1 -> 2 -> 3, named by key, is "1\n  2\n2\n  3\n3\n". |
| Order.Sort | graph.go:289 | The result is in ascending Go string order and is a permutation of the input. |
| Order.AscendingUnique | graph.go:289 | Two ascending orders of the same multiset are equal, so the sorted output does not depend on the enumeration order of the vertices. |
| Order.SortMatches | graph.go:289 | Sorting any duplicate-free enumeration of a set gives that set's unique ascending listing. |
| Order.LessEqTotal | graph.go:289 | Go's string order is total. |
| Order.LessEqTrans | graph.go:289 | Go's string order is transitive. |
| Order.LessEqAntisym | graph.go:289 | Go's string order is antisymmetric. |
| Seqs.ReverseSuffix | tarjan.go:44-50 | Popping one more element extends the popped run, read in pop order, by that element. |
| Scc.Min | tarjan.go:58-63 | The result is one of the arguments and no larger than either. |
| Scc.InitOk | tarjan.go:9-12 | The fresh accounting (next index 1, nothing visited, empty stack, no components) satisfies the search invariant. |
| Scc.VisitOk | tarjan.go:74-81 | Visiting an unvisited vertex with the next index keeps the invariant. Indices stay 1 .. next-1, each with exactly one vertex. The stack stays in index order. |
| Scc.ChildOk | tarjan.go:32-33 | Recursing on an unvisited successor and taking the minimum with its low-link keeps the successor loop's invariant. |
| Scc.OnStackOk | tarjan.go:34-36 | Taking the index of a successor that is still on the stack keeps the loop invariant. This covers a self-loop, whose own index is taken this way. |
| Scc.EmittedTargetOk | tarjan.go:29-37 | A visited successor no longer on the stack leaves the low-link unchanged and keeps the invariant. |
| Scc.ReturnOk | tarjan.go:55 | When the low-link is below `v`'s index, returning leaves `v` on the stack and keeps the invariant for the caller. |
| Scc.EmitShape | tarjan.go:42-50 | The popped component is duplicate-free and non-empty, its members are the stack above the old height, and the vertex popped last is its root v. |
| Scc.EmitMutual | tarjan.go:42-52 | At a root, the vertices above it on the stack, the root included, are exactly those mutually reachable with the root. |
| Scc.EmitTopological | tarjan.go:42-52 | Emitting at a root keeps every edge from a component pointing to the same or an earlier component. |
| Scc.EmitPartition | tarjan.go:42-52 | Emitting moves the popped vertices from the stack into the new component, each exactly once. |
| Scc.EmitOk | tarjan.go:40-55 | Emitting at a root keeps the invariant and restores the stack height the call started with. |
| Scc.IdleStackEmpty | tarjan.go:13-19 | Between searches from the roots, the stack is empty. |
| Scc.FinalOk | tarjan.go:7-20 | Once every vertex has an index, the emitted components form a decomposition (`IsSccDecomposition`). |
| Scc.ComponentClasses | tarjan.go:3-6 | Every component is the mutual-reachability class of each of its members. |
| Tarjan.SccAcct.constructor | tarjan.go:9-12 | The accounting starts at index 1, with no indices, stack or components. |
| Tarjan.SccAcct.Visit | tarjan.go:74-81 | Returns the old next index, records it for v, increments the next index, and pushes v. |
| Tarjan.SccAcct.Push | tarjan.go:83-86 | Appends the vertex to the stack; nothing else changes. |
| Tarjan.SccAcct.Pop | tarjan.go:88-97 | On an empty stack returns nothing and changes nothing. Otherwise returns the top and removes it. |
| Tarjan.SccAcct.InStack | tarjan.go:99-107 | True iff the vertex is on the stack. |
| Tarjan.SccAcct.EmitComponent | tarjan.go:42-52 | Pops down to and including v, collecting the popped vertices in pop order, and appends them as one component. |
| Tarjan.VisitSuccessors | tarjan.go:27-38 | After the successor loop the low-link is valid and all successors are handled, with the invariant kept. |
| Tarjan.StronglyConnectedFrom | tarjan.go:22-56 | From an unvisited vertex: keeps the invariant, only extends the accounting, and returns a valid low-link. When v is a root, its component is emitted and the stack is as it was. |
| Tarjan.StronglyConnected | tarjan.go:7-20 | The result is a decomposition into strongly connected components. Components are non-empty and hold each vertex reachable from a graph vertex exactly once. Members are exactly the mutually reachable vertices. Components are emitted in reverse topological order. |
| SccExamples.PairAndSingleClasses | tarjan_test.go:23-36 | For 1 <-> 2 with the isolated vertex 3, the components are {1, 2} and {3}. |
| SccExamples.PairAndSingleMutual | tarjan_test.go:77-80 | In that graph, 1 and 2 are mutually reachable with exactly {1, 2}, and 3 with exactly {3}. |
| SccExamples.SameSuccessors | tarjan.go:7-20 | Whether components form a decomposition depends only on the successor sets, not on how the index stores empty entries. |
| SccExamples.PairAndSingleIndex | graph.go:9-15 | Indices in agreement with the stored edges 1 -> 2 and 2 -> 1 give exactly the successor sets of 1 <-> 2. |
| SccExamples.PairAndSingleSearch | tarjan_test.go:23-36 | Building 1 <-> 2 and 3 with `Add` and `Connect` and then searching it yields exactly the components {1, 2} and {3}. |
| SccExamples.SelfLoopClasses | tarjan.go:34-36 | A vertex whose only cycle is a self-loop forms a singleton component. Component size alone does not reveal the self-loop. |

## Left out

- Vertices are their hash keys, and keys contain no '-'. Go compares vertices with `==` but looks edges up by hash key. With arbitrary keys, two distinct endpoint pairs can share an edge key (`Edges.JoinKeysCollide`), which the model excludes by the `Vertex` type.
- Dash-carrying keys, first consequence: in Go, `Connect(BasicEdge("a-b", "c"))` followed by `Connect(BasicEdge("a", "b-c"))` leaves one entry "a-b-c" in the edge set but entries for both edges in `downEdges` and `upEdges` (graph.go:209-230). After the first call alone, `HasEdge(BasicEdge("a", "b-c"))` already returns true (graph.go:95-96). The model keeps every index entry backed by a stored edge, so it does not capture either.
- Dash-carrying keys, second consequence: Go's `Connect` accepts any `Edge` implementation (graph.go:200), but `Remove` deletes edges under the `BasicEdge` key (graph.go:114-119). A custom edge whose hash key is not source key + "-" + target key remains in the edge set after `Remove` of an endpoint. The model has only `BasicEdge`.
- `Set` and `Hashable` are not part of this model. A vertex set or adjacency entry is a `set`, and the edge set is a `map` from edge key to edge.
- `AcyclicGraph` and its walks, `Dot`, and `StringWithNodeTypes` (which prints Go type names) are not modelled. Neither are `Subgrapher`, `Grapher` and `DirectedGraph`, which are interface plumbing without logic.
- `VertexName`'s runtime type switch is not modelled. The name of a vertex is a function parameter `name` of `String`.
- Edges.Edge.Hashcode: its contract is stated as the lemma `Edges.HashcodeSplit`, to keep the many edge-set proofs that unfold it small.
- `init`'s lazy creation of nil maps is not modelled separately. A `Graph` is always initialised by its constructor.
- Graphs.Graph.String: when two vertices share a name, the name is written once per vertex, each time with the block of the vertex enumerated last under it, so the output can depend on the order in which `Vertices` returns the vertices. The model states the result for that enumeration (`ListingFrom`), which it leaves unknown. Shared names among successors alone do not make the output order-dependent (`SortedNamesOf`).
- Graphs.Graph.UpEdges / Graphs.Graph.DownEdges: Dafny sets are values, so the returned copy cannot alias the index. The copy-versus-live distinction of the `NoCopy` accessors is therefore not captured.
- Graphs.Graph.Remove: the Go method returns nil. Here the method returns nothing.
- Graphs.Graph.Remove: the deletion loop runs over a snapshot of each index entry. Go removes only the current entry of the set it ranges over, so every entry is visited, which the snapshot matches.
- Graphs.Graph.Replace: with a self-loop on `original`, the new edge (replacement, original) is added to `original`'s predecessor entry before the second loop ranges over it. Go evaluates that range after the first loop, so the model visits it deterministically, and the self-loop moves to `replacement`.
- The loops of `stronglyConnected`, `Remove` and `String` are separate methods: `Tarjan.VisitSuccessors`, `Tarjan.SccAcct.EmitComponent` (which also appends the component), `Graphs.Graph.RemoveOutEdges`, `Graphs.Graph.RemoveInEdges`, `Graphs.NameVertices`, `Graphs.Graph.WriteBlocks`, `Graphs.Graph.WriteBlock` and `Graphs.Graph.SuccessorNames`.
- `sort.Strings` is the function `Order.Sort`, an insertion sort proved to give the unique ascending permutation. The sorting algorithm of the Go library is not modelled.
- Strings are sequences of characters. For well-formed UTF-8, Go's byte order equals code point order, so the model compares characters.
- `pop`'s nil result on an empty stack is `None`.
- `bytes.Buffer` is an immutable string that is extended by concatenation.
- Go's `int` is unbounded here. Discovery indices never come near overflow, since they count visited vertices.
- The test graph 4 -> 5 -> 6 -> 4 (tarjan_test.go:38-57) has no example lemma. `Tarjan.StronglyConnected`'s decomposition contract covers it.
