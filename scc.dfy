/**
 * The bookkeeping of Tarjan's strongly-connected-components search, as a
 * value: the next discovery index, the discovery index of every visited
 * vertex, the stack of vertices whose component is still open, and the
 * components emitted so far. The invariant the search keeps, and one lemma
 * per step of the search showing that the step keeps it, are stated here
 * on values so that the search itself only has to chain them.
 */
module Scc {
  import opened Edges
  import opened Seqs
  import opened Graphs
  import opened Reachability

  datatype Acct = Acct(next: int, index: map<Vertex, int>, stack: seq<Vertex>, sccs: seq<seq<Vertex>>)

  /** The smaller of two low-link candidates. */
  function Min(a: int, b: int): (r: int)
    ensures r <= a && r <= b
    ensures r == a || r == b
  {
    if a <= b then a else b
  }

  /** The discovery index of `x`, or 0 ("not visited") when it has none. */
  function IndexOf(a: Acct, x: Vertex): int
  {
    if x in a.index then a.index[x] else 0
  }

  /** The accounting after visiting `v`: it takes the next index and goes on the stack. */
  function Visited(a: Acct, v: Vertex): Acct
  {
    Acct(a.next + 1, a.index[v := a.next], a.stack + [v], a.sccs)
  }

  /** The emitted components, concatenated in emission order. */
  function Flatten(sccs: seq<seq<Vertex>>): seq<Vertex>
  {
    if sccs == [] then [] else Flatten(sccs[..|sccs| - 1]) + sccs[|sccs| - 1]
  }

  lemma FlattenSnoc(sccs: seq<seq<Vertex>>, c: seq<Vertex>)
    ensures Flatten(sccs + [c]) == Flatten(sccs) + c
  {
    assert (sccs + [c])[..|sccs|] == sccs;
  }

  /** A vertex is among the emitted ones iff some component holds it. */
  lemma {:induction false} InFlatten(sccs: seq<seq<Vertex>>, x: Vertex)
    ensures x in Flatten(sccs) <==> exists j :: 0 <= j < |sccs| && x in sccs[j]
  {
    if sccs != [] {
      var init := sccs[..|sccs| - 1];
      InFlatten(init, x);
      assert forall j :: 0 <= j < |init| ==> init[j] == sccs[j];
      if x in Flatten(sccs) && x !in sccs[|sccs| - 1] {
        var j :| 0 <= j < |init| && x in init[j];
        assert x in sccs[j];
      }
    }
  }

  /** Every vertex the search may visit: the roots and every successor entry. */
  ghost function Universe(roots: set<Vertex>, down: map<Vertex, set<Vertex>>): set<Vertex>
  {
    roots + set u, t | u in down && t in down[u] :: t
  }

  // ---------------------------------------------------------------------
  // The invariant
  // ---------------------------------------------------------------------

  /** Indices 1 .. next-1 are handed out, each to exactly one vertex. */
  ghost predicate IndexOk(a: Acct)
  {
    && (forall x :: x in a.index ==> 1 <= a.index[x] < a.next)
    && (forall x, y :: x in a.index && y in a.index && x != y ==> a.index[x] != a.index[y])
    && |a.index.Keys| == a.next - 1
  }

  /** The stack holds visited vertices in increasing index order. */
  ghost predicate StackOk(a: Acct)
  {
    && (forall i :: 0 <= i < |a.stack| ==> a.stack[i] in a.index)
    && (forall i, j :: 0 <= i < j < |a.stack| ==> IndexOf(a, a.stack[i]) < IndexOf(a, a.stack[j]))
  }

  /** A visited vertex is either on the stack or in exactly one emitted component. */
  ghost predicate PartitionOk(a: Acct)
  {
    && (forall x :: x in a.index <==> x in a.stack || x in Flatten(a.sccs))
    && NoDup(Flatten(a.sccs))
    && (forall x :: x in a.stack ==> x !in Flatten(a.sccs))
    && (forall k :: 0 <= k < |a.sccs| ==> a.sccs[k] != [])
  }

  /** No edge leads from a component to a later one. */
  ghost predicate Topological(down: map<Vertex, set<Vertex>>, sccs: seq<seq<Vertex>>)
  {
    forall i, u, z :: 0 <= i < |sccs| && u in sccs[i] && z in Succ(down, u) ==>
      exists j :: 0 <= j <= i && z in sccs[j]
  }

  /** Each component is the mutual-reachability class of its last vertex. */
  ghost predicate Components(down: map<Vertex, set<Vertex>>, sccs: seq<seq<Vertex>>)
  {
    forall i :: 0 <= i < |sccs| ==>
      (sccs[i] != [] && forall y :: y in sccs[i] <==> Mutual(down, sccs[i][|sccs[i]| - 1], y))
  }

  /** A visited vertex whose call has returned has all its successors visited. */
  ghost predicate FinishedOk(down: map<Vertex, set<Vertex>>, a: Acct, active: set<Vertex>)
  {
    forall u, z :: u in a.index && u !in active && z in Succ(down, u) ==> z in a.index
  }

  /** `x` reaches an active vertex discovered no later than itself. */
  ghost predicate Anchored(down: map<Vertex, set<Vertex>>, a: Acct, active: set<Vertex>, x: Vertex)
  {
    exists y :: y in active && IndexOf(a, y) <= IndexOf(a, x) && Reachable(down, x, y)
  }

  /**
   * Every stacked vertex is anchored. The trigger keeps the solver from
   * chaining anchors through the active vertices, which are stacked too.
   */
  ghost predicate StackReach(down: map<Vertex, set<Vertex>>, a: Acct, active: set<Vertex>)
  {
    forall x {:trigger Anchored(down, a, active, x)} :: x in a.stack ==> Anchored(down, a, active, x)
  }

  /** An active vertex reaches every vertex discovered after it. */
  ghost predicate ActiveReach(down: map<Vertex, set<Vertex>>, a: Acct, active: set<Vertex>)
  {
    forall y, x :: y in active && x in a.index && IndexOf(a, y) <= IndexOf(a, x) ==> Reachable(down, y, x)
  }

  /** Some root reaches `x`. */
  ghost predicate FromRoot(down: map<Vertex, set<Vertex>>, roots: set<Vertex>, x: Vertex)
  {
    exists r :: r in roots && Reachable(down, r, x)
  }

  /**
   * Every visited vertex is reachable from a root and may be visited at all.
   * As with `StackReach`, the trigger stops the solver from chaining roots,
   * which are visited vertices themselves.
   */
  ghost predicate RootedOk(down: map<Vertex, set<Vertex>>, roots: set<Vertex>, a: Acct)
  {
    && (forall x {:trigger FromRoot(down, roots, x)} :: x in a.index ==> FromRoot(down, roots, x))
    && (forall x :: x in a.index ==> x in Universe(roots, down))
  }

  /**
   * The invariant of the search, with `active` the vertices whose calls are
   * in progress.
   */
  ghost predicate Inv(down: map<Vertex, set<Vertex>>, roots: set<Vertex>, a: Acct, active: set<Vertex>)
  {
    && IndexOk(a)
    && StackOk(a)
    && PartitionOk(a)
    && Topological(down, a.sccs)
    && Components(down, a.sccs)
    && FinishedOk(down, a, active)
    && StackReach(down, a, active)
    && ActiveReach(down, a, active)
    && (forall y :: y in active ==> y in a.stack)
    && RootedOk(down, roots, a)
  }

  /** `b` is a later state than `a`: indices kept, new ones fresh, stack and components extended. */
  ghost predicate Extends(a: Acct, b: Acct)
  {
    && a.next <= b.next
    && (forall x :: x in a.index ==> x in b.index && b.index[x] == a.index[x])
    && (forall x :: x in b.index && x !in a.index ==> b.index[x] >= a.next)
    && |a.stack| <= |b.stack| && b.stack[..|a.stack|] == a.stack
    && |a.sccs| <= |b.sccs| && b.sccs[..|a.sccs|] == a.sccs
  }

  /** Every successor of `u` is visited, and those in `below` have index at least `low`. */
  ghost predicate Covered(down: map<Vertex, set<Vertex>>, a: Acct, below: seq<Vertex>, low: int, u: Vertex)
  {
    forall z :: z in Succ(down, u) ==> z in a.index && (z in below ==> low <= a.index[z])
  }

  /** `low` is `v`'s own index, or the index of a vertex in `below` that `v` reaches. */
  ghost predicate LowOk(down: map<Vertex, set<Vertex>>, a: Acct, below: seq<Vertex>, v: Vertex, low: int)
  {
    && v in a.index && low <= a.index[v]
    && (low == a.index[v] || exists w :: w in below && IndexOf(a, w) == low && Reachable(down, v, w))
  }

  /**
   * What a call on `v` that started in state `a0` and ends in `a` with
   * low-link `low` promises: the value is `v`'s index or the index of an
   * older stacked vertex that `v` reaches; every vertex it left on the stack
   * has no edge to an older stacked vertex below `low`; when `v` is the root
   * of its component, the stack is as it was.
   */
  ghost predicate CallPost(down: map<Vertex, set<Vertex>>, a0: Acct, a: Acct, v: Vertex, low: int)
  {
    && LowOk(down, a, a0.stack, v, low)
    && |a0.stack| <= |a.stack|
    && (forall u :: u in a.stack[|a0.stack|..] ==> Covered(down, a, a0.stack, low, u))
    && (low == a.index[v] ==> a.stack == a0.stack)
  }

  /**
   * The state of `v`'s successor loop: `v` sits just above `below` on the
   * stack, `low` is a valid low-link so far, and the vertices above `v` and
   * the successors of `v` handled so far (`done`) respect it.
   */
  ghost predicate LoopOk(down: map<Vertex, set<Vertex>>, a: Acct, below: seq<Vertex>, v: Vertex,
                         low: int, done: set<Vertex>)
  {
    && |below| < |a.stack| && a.stack[..|below|] == below && a.stack[|below|] == v
    && LowOk(down, a, below, v, low)
    && (forall u :: u in a.stack[|below| + 1..] ==> Covered(down, a, below, low, u))
    && (forall z :: z in done ==> z in a.index && (z in below ==> low <= a.index[z]))
  }

  /** The result of the whole search, as the classical algorithm promises it. */
  ghost predicate IsSccDecomposition(down: map<Vertex, set<Vertex>>, roots: set<Vertex>, sccs: seq<seq<Vertex>>)
  {
    && (forall i :: 0 <= i < |sccs| ==> sccs[i] != [])
    && NoDup(Flatten(sccs))
    && (forall y :: y in Flatten(sccs) <==> exists r :: r in roots && Reachable(down, r, y))
    && (forall i, x, y :: 0 <= i < |sccs| && x in sccs[i] ==> (y in sccs[i] <==> Mutual(down, x, y)))
    && Topological(down, sccs)
  }

  // ---------------------------------------------------------------------
  // One lemma per step of the search
  // ---------------------------------------------------------------------

  lemma ExtendsTrans(a: Acct, b: Acct, c: Acct)
    requires Extends(a, b) && Extends(b, c)
    ensures Extends(a, c)
  {
    assert c.stack[..|a.stack|] == c.stack[..|b.stack|][..|a.stack|];
    assert c.sccs[..|a.sccs|] == c.sccs[..|b.sccs|][..|a.sccs|];
  }

  /** The fresh accounting satisfies the invariant with nothing active. */
  lemma InitOk(down: map<Vertex, set<Vertex>>, roots: set<Vertex>)
    ensures Inv(down, roots, Acct(1, map[], [], []), {})
  {
  }

  /** With no call in progress nothing is left on the stack. */
  lemma IdleStackEmpty(down: map<Vertex, set<Vertex>>, a: Acct)
    requires StackReach(down, a, {})
    ensures forall x :: x !in a.stack
  {
    forall x ensures x in a.stack ==> Anchored(down, a, {}, x) {
    }
  }

  /** The emitted vertices are closed under successors. */
  lemma EmittedClosed(down: map<Vertex, set<Vertex>>, sccs: seq<seq<Vertex>>)
    requires Topological(down, sccs)
    ensures Closed(down, set x | x in Flatten(sccs))
  {
    forall u, z | u in Flatten(sccs) && z in Succ(down, u) ensures z in Flatten(sccs) {
      InFlatten(sccs, u);
      var i :| 0 <= i < |sccs| && u in sccs[i];
      var j :| 0 <= j <= i && z in sccs[j];
      InFlatten(sccs, z);
    }
  }

  /** Visiting keeps indices distinct and consecutive. */
  lemma VisitIndexOk(a: Acct, v: Vertex)
    requires IndexOk(a) && v !in a.index
    ensures IndexOk(Visited(a, v))
  {
    var b := Visited(a, v);
    assert b.index.Keys == a.index.Keys + {v};
    forall x, y | x in b.index && y in b.index && x != y ensures b.index[x] != b.index[y] {
      if x != v && y != v {
        assert b.index[x] == a.index[x] && b.index[y] == a.index[y];
      }
    }
  }

  /** Visiting keeps the stack in index order and the partition. */
  lemma VisitStackOk(a: Acct, v: Vertex)
    requires IndexOk(a) && StackOk(a) && PartitionOk(a) && v !in a.index
    ensures StackOk(Visited(a, v)) && PartitionOk(Visited(a, v))
  {
    var b := Visited(a, v);
    forall i, j | 0 <= i < j < |b.stack| ensures IndexOf(b, b.stack[i]) < IndexOf(b, b.stack[j]) {
      assert b.stack[i] == a.stack[i];
      if j < |a.stack| {
        assert b.stack[j] == a.stack[j];
      }
    }
  }

  /** Visiting keeps the reachability facts, with `v` now active. */
  lemma VisitReachOk(down: map<Vertex, set<Vertex>>, a: Acct, active: set<Vertex>, v: Vertex)
    requires IndexOk(a) && StackOk(a) && v !in a.index
    requires StackReach(down, a, active) && ActiveReach(down, a, active)
    requires forall y :: y in active ==> y in a.index
    requires forall y :: y in active ==> Reachable(down, y, v)
    ensures StackReach(down, Visited(a, v), active + {v})
    ensures ActiveReach(down, Visited(a, v), active + {v})
  {
    var b := Visited(a, v);
    assert forall x :: x in a.index ==> IndexOf(b, x) == IndexOf(a, x);
    forall x | x in b.stack ensures Anchored(down, b, active + {v}, x) {
      if x == v {
        ReachRefl(down, v);
      } else {
        assert x in a.stack;
        assert Anchored(down, a, active, x);
        var y :| y in active && IndexOf(a, y) <= IndexOf(a, x) && Reachable(down, x, y);
        assert IndexOf(b, y) <= IndexOf(b, x);
      }
    }
    forall y, x | y in active + {v} && x in b.index && IndexOf(b, y) <= IndexOf(b, x)
      ensures Reachable(down, y, x)
    {
      if y == v {
        assert x == v;
        ReachRefl(down, v);
      } else if x != v {
        assert IndexOf(a, y) <= IndexOf(a, x);
      }
    }
  }

  /** Visiting keeps the emitted components, the finished vertices and the roots. */
  lemma VisitRestOk(down: map<Vertex, set<Vertex>>, roots: set<Vertex>, a: Acct, active: set<Vertex>, v: Vertex)
    requires FinishedOk(down, a, active) && RootedOk(down, roots, a)
    requires (forall y :: y in active ==> y in a.stack)
    requires v in Universe(roots, down)
    requires FromRoot(down, roots, v)
    ensures FinishedOk(down, Visited(a, v), active + {v}) && RootedOk(down, roots, Visited(a, v))
    ensures forall y :: y in active + {v} ==> y in Visited(a, v).stack
  {
    assert Visited(a, v).index.Keys == a.index.Keys + {v};
  }

  /** Visiting only adds: the new state extends the old one, and `v`'s loop starts. */
  lemma VisitExtends(down: map<Vertex, set<Vertex>>, a: Acct, v: Vertex)
    requires v !in a.index
    ensures Extends(a, Visited(a, v))
    ensures LoopOk(down, Visited(a, v), a.stack, v, a.next, {})
  {
    var b := Visited(a, v);
    assert b.stack[..|a.stack|] == a.stack;
    assert b.stack[|a.stack| + 1..] == [];
    assert b.sccs[..|a.sccs|] == a.sccs;
  }

  /** Visiting a vertex the search may reach keeps the invariant, with `v` now active. */
  lemma VisitOk(down: map<Vertex, set<Vertex>>, roots: set<Vertex>, a: Acct, b: Acct, active: set<Vertex>, v: Vertex)
    requires Inv(down, roots, a, active)
    requires v !in a.index && v in Universe(roots, down)
    requires forall y :: y in active ==> Reachable(down, y, v)
    requires FromRoot(down, roots, v)
    requires b == Visited(a, v)
    ensures Inv(down, roots, b, active + {v})
    ensures Extends(a, b)
    ensures LoopOk(down, b, a.stack, v, a.next, {})
  {
    VisitIndexOk(a, v);
    VisitStackOk(a, v);
    VisitReachOk(down, a, active, v);
    VisitRestOk(down, roots, a, active, v);
    VisitExtends(down, a, v);
  }

  /** A sequence that starts with `below` and then `v` is `below`, `v` and the rest. */
  lemma DropMembers(T: seq<Vertex>, below: seq<Vertex>, v: Vertex)
    requires |below| < |T| && T[..|below|] == below && T[|below|] == v
    ensures forall x :: x in T <==> x in below || x in T[|below|..]
    ensures forall x :: x in T[|below|..] <==> x == v || x in T[|below| + 1..]
  {
    assert T == below + T[|below|..];
    assert T[|below|..] == [v] + T[|below| + 1..];
  }

  /** The stack, ordered by index, holds no vertex twice. */
  lemma StackNoDup(a: Acct)
    requires StackOk(a)
    ensures NoDup(a.stack)
  {
  }

  /** Index order splits the stack at `v`: older vertices below it, newer ones above. */
  lemma StackSplit(a: Acct, below: seq<Vertex>, v: Vertex)
    requires StackOk(a)
    requires |below| < |a.stack| && a.stack[..|below|] == below && a.stack[|below|] == v
    ensures NoDup(a.stack)
    ensures forall x :: x in below ==> x in a.stack && IndexOf(a, x) < IndexOf(a, v)
    ensures forall x :: x in a.stack && x !in below ==> IndexOf(a, v) <= IndexOf(a, x)
    ensures forall x :: x in a.stack[|below|..] <==> x in a.stack && x !in below
    ensures forall x :: x in a.stack[|below| + 1..] <==> x in a.stack && x !in below && x != v
  {
    StackNoDup(a);
    DropMembers(a.stack, below, v);
    BelowOlder(a, below, v);
    AboveNewer(a, below, v);
  }

  lemma BelowOlder(a: Acct, below: seq<Vertex>, v: Vertex)
    requires StackOk(a)
    requires |below| < |a.stack| && a.stack[..|below|] == below && a.stack[|below|] == v
    ensures forall x :: x in below ==> IndexOf(a, x) < IndexOf(a, v)
  {
    forall x | x in below ensures IndexOf(a, x) < IndexOf(a, v) {
      var i :| 0 <= i < |below| && below[i] == x;
      assert a.stack[i] == x;
    }
  }

  lemma AboveNewer(a: Acct, below: seq<Vertex>, v: Vertex)
    requires StackOk(a)
    requires |below| < |a.stack| && a.stack[..|below|] == below && a.stack[|below|] == v
    ensures forall x :: x in a.stack[|below|..] ==> IndexOf(a, v) <= IndexOf(a, x)
    ensures forall x :: x in a.stack[|below|..] ==> x !in below
    ensures v !in a.stack[|below| + 1..]
  {
    var T := a.stack;
    var k := |below|;
    forall x | x in T[k..] ensures IndexOf(a, v) <= IndexOf(a, x) && x !in below {
      var i :| k <= i < |T| && T[i] == x;
    }
  }

  /** The side conditions of the recursive call on a successor `c` of `v`. */
  lemma ChildPre(down: map<Vertex, set<Vertex>>, roots: set<Vertex>, a: Acct, active: set<Vertex>,
                 below: seq<Vertex>, v: Vertex, c: Vertex)
    requires StackOk(a) && ActiveReach(down, a, active + {v}) && RootedOk(down, roots, a)
    requires |below| < |a.stack| && a.stack[..|below|] == below && a.stack[|below|] == v
    requires forall y :: y in active ==> y in below
    requires c in Succ(down, v)
    ensures forall y :: y in active + {v} ==> Reachable(down, y, c)
    ensures FromRoot(down, roots, c)
    ensures c in Universe(roots, down)
  {
    StackSplit(a, below, v);
    ReachEdge(down, v, c);
    forall y | y in active + {v} ensures Reachable(down, y, c) {
      if y != v {
        assert IndexOf(a, y) <= IndexOf(a, v);
        ReachTrans(down, y, v, c);
      }
    }
    assert v in a.index by { assert a.stack[|below|] == v; }
    assert FromRoot(down, roots, v);
    var r :| r in roots && Reachable(down, r, v);
    ReachTrans(down, r, v, c);
  }

  /** After the recursive call the stack still holds `below` and then `v`. */
  lemma ChildFrame(a1: Acct, a2: Acct, below: seq<Vertex>, v: Vertex)
    requires |below| < |a1.stack| && a1.stack[..|below|] == below && a1.stack[|below|] == v
    requires |a1.stack| <= |a2.stack| && a2.stack[..|a1.stack|] == a1.stack
    ensures |below| < |a2.stack| && a2.stack[..|below|] == below && a2.stack[|below|] == v
    ensures forall u :: u in a2.stack[|below| + 1..] ==> u in a1.stack[|below| + 1..] || u in a2.stack[|a1.stack|..]
  {
    assert a2.stack[..|below|] == a2.stack[..|a1.stack|][..|below|];
    assert a2.stack[|below|] == a2.stack[..|a1.stack|][|below|];
    forall u | u in a2.stack[|below| + 1..]
      ensures u in a1.stack[|below| + 1..] || u in a2.stack[|a1.stack|..]
    {
      var i :| |below| + 1 <= i < |a2.stack| && a2.stack[i] == u;
      if i < |a1.stack| {
        assert a1.stack[i] == a2.stack[..|a1.stack|][i];
        assert a1.stack[|below| + 1..][i - |below| - 1] == u;
      } else {
        assert a2.stack[|a1.stack|..][i - |a1.stack|] == u;
      }
    }
  }

  /** After a recursive call on `c`, the smaller of the two low-links is a valid one for `v`. */
  lemma ChildLow(down: map<Vertex, set<Vertex>>, a1: Acct, a2: Acct, below: seq<Vertex>, v: Vertex,
                 low: int, c: Vertex, n: int)
    requires IndexOk(a1) && StackOk(a1)
    requires |below| < |a1.stack| && a1.stack[..|below|] == below && a1.stack[|below|] == v
    requires LowOk(down, a1, below, v, low)
    requires c in Succ(down, v) && c !in a1.index
    requires Extends(a1, a2) && LowOk(down, a2, a1.stack, c, n)
    ensures LowOk(down, a2, below, v, Min(low, n))
  {
    StackSplit(a1, below, v);
    if Min(low, n) != low {
      assert n != a2.index[c];
      var w :| w in a1.stack && IndexOf(a2, w) == n && Reachable(down, c, w);
      assert IndexOf(a2, w) == IndexOf(a1, w);
      ReachStep(down, v, c, w);
    } else if low != a1.index[v] {
      var w :| w in below && IndexOf(a1, w) == low && Reachable(down, v, w);
      assert IndexOf(a2, w) == low;
    }
  }

  /** After a recursive call on `c`, everything above `v` respects the new low-link. */
  lemma ChildCovered(down: map<Vertex, set<Vertex>>, a1: Acct, a2: Acct, below: seq<Vertex>, v: Vertex,
                     low: int, low': int, c: Vertex, n: int)
    requires |below| < |a1.stack| <= |a2.stack| && a1.stack[..|below|] == below
    requires low' <= low && low' <= n
    requires forall u :: u in a1.stack[|below| + 1..] ==> Covered(down, a1, below, low, u)
    requires forall u :: u in a2.stack[|a1.stack|..] ==> Covered(down, a2, a1.stack, n, u)
    requires forall u :: u in a2.stack[|below| + 1..] ==> u in a1.stack[|below| + 1..] || u in a2.stack[|a1.stack|..]
    requires forall x :: x in a1.index ==> x in a2.index && a2.index[x] == a1.index[x]
    ensures forall u :: u in a2.stack[|below| + 1..] ==> Covered(down, a2, below, low', u)
  {
    assert forall z :: z in below ==> z in a1.stack;
    forall u | u in a2.stack[|below| + 1..] ensures Covered(down, a2, below, low', u) {
      if u in a1.stack[|below| + 1..] {
        assert Covered(down, a1, below, low, u);
      } else {
        assert Covered(down, a2, a1.stack, n, u);
      }
    }
  }

  /** A recursive call on the unvisited successor `c` keeps the loop state of `v`. */
  lemma ChildOk(down: map<Vertex, set<Vertex>>, a1: Acct, a2: Acct, below: seq<Vertex>, v: Vertex,
                low: int, done: set<Vertex>, c: Vertex, n: int)
    requires IndexOk(a1) && StackOk(a1)
    requires LoopOk(down, a1, below, v, low, done)
    requires c in Succ(down, v) && c !in a1.index
    requires Extends(a1, a2) && CallPost(down, a1, a2, c, n)
    ensures LoopOk(down, a2, below, v, Min(low, n), done + {c})
  {
    ChildFrame(a1, a2, below, v);
    ChildLow(down, a1, a2, below, v, low, c, n);
    ChildCovered(down, a1, a2, below, v, low, Min(low, n), c, n);
    StackSplit(a1, below, v);
    assert c !in below;
  }

  /** A successor already on the stack lowers the low-link to at most its index. */
  lemma OnStackOk(down: map<Vertex, set<Vertex>>, a: Acct, below: seq<Vertex>, v: Vertex,
                  low: int, done: set<Vertex>, z: Vertex)
    requires StackOk(a)
    requires LoopOk(down, a, below, v, low, done)
    requires z in Succ(down, v) && z in a.stack
    ensures LoopOk(down, a, below, v, Min(low, IndexOf(a, z)), done + {z})
  {
    StackSplit(a, below, v);
    var low' := Min(low, IndexOf(a, z));
    if low' != low {
      assert z in below;
      ReachEdge(down, v, z);
    }
    forall u | u in a.stack[|below| + 1..] ensures Covered(down, a, below, low', u) {
      assert Covered(down, a, below, low, u);
    }
  }

  /** A successor already in an emitted component changes nothing. */
  lemma EmittedTargetOk(down: map<Vertex, set<Vertex>>, a: Acct, below: seq<Vertex>, v: Vertex,
                        low: int, done: set<Vertex>, z: Vertex)
    requires StackOk(a)
    requires LoopOk(down, a, below, v, low, done)
    requires z in a.index && z !in a.stack
    ensures LoopOk(down, a, below, v, low, done + {z})
  {
    StackSplit(a, below, v);
  }

  /** A stacked vertex that reached `v` now reaches an older active vertex. */
  lemma ReturnReach(down: map<Vertex, set<Vertex>>, a: Acct, active: set<Vertex>,
                    below: seq<Vertex>, v: Vertex, n: int)
    requires StackOk(a) && StackReach(down, a, active + {v})
    requires |below| < |a.stack| && a.stack[..|below|] == below && a.stack[|below|] == v
    requires LowOk(down, a, below, v, n) && n != a.index[v]
    ensures StackReach(down, a, active)
  {
    StackSplit(a, below, v);
    var w :| w in below && IndexOf(a, w) == n && Reachable(down, v, w);
    assert w in a.stack && Anchored(down, a, active + {v}, w);
    var t :| t in active + {v} && IndexOf(a, t) <= IndexOf(a, w) && Reachable(down, w, t);
    assert IndexOf(a, w) < IndexOf(a, v);
    ReachTrans(down, v, w, t);
    Reanchor(down, a, active, v, t);
  }

  /** Once `v` reaches an older active vertex `t`, whatever was anchored at `v` is anchored at `t`. */
  lemma Reanchor(down: map<Vertex, set<Vertex>>, a: Acct, active: set<Vertex>, v: Vertex, t: Vertex)
    requires StackReach(down, a, active + {v})
    requires t in active && IndexOf(a, t) <= IndexOf(a, v) && Reachable(down, v, t)
    ensures StackReach(down, a, active)
  {
    forall x | x in a.stack ensures Anchored(down, a, active, x) {
      assert Anchored(down, a, active + {v}, x);
      var y :| y in active + {v} && IndexOf(a, y) <= IndexOf(a, x) && Reachable(down, x, y);
      if y == v {
        ReachTrans(down, x, v, t);
      }
    }
  }

  /** When `v`'s loop is over, `v` and everything above it respect its low-link. */
  lemma ReturnCovered(down: map<Vertex, set<Vertex>>, a: Acct, below: seq<Vertex>, v: Vertex, n: int)
    requires StackOk(a)
    requires LoopOk(down, a, below, v, n, Succ(down, v))
    ensures forall u :: u in a.stack[|below|..] ==> Covered(down, a, below, n, u)
  {
    StackSplit(a, below, v);
    forall u | u in a.stack[|below|..] ensures Covered(down, a, below, n, u) {
      if u != v {
        assert u in a.stack[|below| + 1..];
      }
    }
  }

  /**
   * Returning from a call on `v` that is not the root of its component: `v`
   * stays on the stack, no longer active, and the call's promise holds.
   */
  lemma ReturnOk(down: map<Vertex, set<Vertex>>, roots: set<Vertex>, a0: Acct, a: Acct,
                 active: set<Vertex>, v: Vertex, n: int)
    requires Inv(down, roots, a, active + {v})
    requires forall y :: y in active ==> y in a0.stack
    requires LoopOk(down, a, a0.stack, v, n, Succ(down, v))
    requires n != a.index[v]
    ensures Inv(down, roots, a, active)
    ensures CallPost(down, a0, a, v, n)
  {
    ReturnReach(down, a, active, a0.stack, v, n);
    ReturnCovered(down, a, a0.stack, v, n);
  }

  /**
   * The accounting after popping everything from `v` up, `below` being what
   * remains, and emitting the popped vertices, in pop order, as a component.
   */
  function Emitted(a: Acct, below: seq<Vertex>): Acct
    requires |below| <= |a.stack|
  {
    Acct(a.next, a.index, below, a.sccs + [Reverse(a.stack[|below|..])])
  }

  /** Popping `v` and everything above it: what is popped and what remains. */
  lemma EmitShape(a: Acct, below: seq<Vertex>, v: Vertex)
    requires StackOk(a) && PartitionOk(a)
    requires |below| < |a.stack| && a.stack[..|below|] == below && a.stack[|below|] == v
    ensures NoDup(Reverse(a.stack[|below|..]))
    ensures forall x :: x in Reverse(a.stack[|below|..]) <==> x in a.stack[|below|..]
    ensures Reverse(a.stack[|below|..]) != []
    ensures Reverse(a.stack[|below|..])[|a.stack| - |below| - 1] == v
    ensures StackOk(Emitted(a, below))
  {
    var K := a.stack[|below|..];
    StackNoDup(a);
    assert NoDup(K) by {
      forall i, j | 0 <= i < j < |K| ensures K[i] != K[j] {
        assert K[i] == a.stack[|below| + i] && K[j] == a.stack[|below| + j];
      }
    }
    ReverseElems(K);
    ReverseAt(K);
    var b := Emitted(a, below);
    forall i, j | 0 <= i < j < |below| ensures IndexOf(b, below[i]) < IndexOf(b, below[j]) {
      assert below[i] == a.stack[i] && below[j] == a.stack[j];
    }
    forall i | 0 <= i < |below| ensures below[i] in b.index {
      assert below[i] == a.stack[i];
    }
  }

  /**
   * When `v`'s low-link is its own index, the vertices from `v` up the stack
   * together with the emitted ones have no edge leaving them.
   */
  lemma EmitClosed(down: map<Vertex, set<Vertex>>, a: Acct, below: seq<Vertex>, v: Vertex, n: int)
    requires StackOk(a) && PartitionOk(a) && Topological(down, a.sccs)
    requires LoopOk(down, a, below, v, n, Succ(down, v))
    requires n == a.index[v]
    ensures Closed(down, set x | x in a.stack[|below|..] + Flatten(a.sccs))
  {
    var K := a.stack[|below|..];
    var X := set x | x in K + Flatten(a.sccs);
    StackSplit(a, below, v);
    EmittedClosed(down, a.sccs);
    forall u, z | u in X && z in Succ(down, u) ensures z in X {
      if u in K {
        if u == v {
          assert z in a.index && (z in below ==> n <= IndexOf(a, z));
        } else {
          assert u in a.stack[|below| + 1..];
          assert Covered(down, a, below, n, u);
        }
        assert z !in below;
        assert z in a.stack || z in Flatten(a.sccs);
        assert z in K + Flatten(a.sccs);
      } else {
        var F := set x | x in Flatten(a.sccs);
        assert u in F;
        assert z in F;
        assert z in K + Flatten(a.sccs);
      }
    }
  }

  /** The popped vertices are exactly those mutually reachable with `v`. */
  lemma EmitMutual(down: map<Vertex, set<Vertex>>, a: Acct, active: set<Vertex>,
                   below: seq<Vertex>, v: Vertex)
    requires StackOk(a) && PartitionOk(a) && Topological(down, a.sccs)
    requires StackReach(down, a, active + {v}) && ActiveReach(down, a, active + {v})
    requires forall y :: y in active ==> y in below
    requires |below| < |a.stack| && a.stack[..|below|] == below && a.stack[|below|] == v
    requires Closed(down, set x | x in a.stack[|below|..] + Flatten(a.sccs))
    ensures forall y :: y in a.stack[|below|..] <==> Mutual(down, v, y)
  {
    var K := a.stack[|below|..];
    var X := set x | x in K + Flatten(a.sccs);
    StackSplit(a, below, v);
    EmittedClosed(down, a.sccs);
    forall y | y in K ensures Mutual(down, v, y) {
      assert IndexOf(a, v) <= IndexOf(a, y);
      assert Anchored(down, a, active + {v}, y);
      var y' :| y' in active + {v} && IndexOf(a, y') <= IndexOf(a, y) && Reachable(down, y, y');
      if y' != v {
        ReachClosed(down, X, y, y');
        assert false;
      }
    }
    forall y | Mutual(down, v, y) ensures y in K {
      assert v in X;
      ReachClosed(down, X, v, y);
      if y !in K {
        var F := set x | x in Flatten(a.sccs);
        ReachClosed(down, F, y, v);
        assert false;
      }
    }
  }

  /** Emitting moves the popped vertices from the stack into the new component. */
  lemma EmitPartition(a: Acct, below: seq<Vertex>, v: Vertex)
    requires StackOk(a) && PartitionOk(a)
    requires |below| < |a.stack| && a.stack[..|below|] == below && a.stack[|below|] == v
    ensures PartitionOk(Emitted(a, below))
  {
    var K := a.stack[|below|..];
    var C := Reverse(K);
    var b := Emitted(a, below);
    EmitShape(a, below, v);
    StackSplit(a, below, v);
    FlattenSnoc(a.sccs, C);
    NoDupAppend(Flatten(a.sccs), C);
    assert Flatten(b.sccs) == Flatten(a.sccs) + C;
    forall x ensures x in b.index <==> x in b.stack || x in Flatten(b.sccs) {
      if x in a.stack && x !in below {
        assert x in K;
      }
    }
  }

  /** The new component has no edge to a later one: every edge out of it stays in it or goes to an older one. */
  lemma EmitTopological(down: map<Vertex, set<Vertex>>, a: Acct, below: seq<Vertex>, v: Vertex, n: int)
    requires StackOk(a) && PartitionOk(a) && Topological(down, a.sccs)
    requires LoopOk(down, a, below, v, n, Succ(down, v))
    requires n == a.index[v]
    ensures Topological(down, Emitted(a, below).sccs)
  {
    var K := a.stack[|below|..];
    var C := Reverse(K);
    var S := a.sccs + [C];
    var X := set x | x in K + Flatten(a.sccs);
    EmitShape(a, below, v);
    EmitClosed(down, a, below, v, n);
    forall i, u, z | 0 <= i < |S| && u in S[i] && z in Succ(down, u)
      ensures exists j :: 0 <= j <= i && z in S[j]
    {
      if i < |a.sccs| {
        assert S[i] == a.sccs[i];
        var j :| 0 <= j <= i && z in a.sccs[j];
        assert S[j] == a.sccs[j];
      } else {
        assert u in K;
        assert u in X;
        assert z in X;
        if z in K {
          assert z in S[|a.sccs|];
        } else {
          InFlatten(a.sccs, z);
          var j :| 0 <= j < |a.sccs| && z in a.sccs[j];
          assert S[j] == a.sccs[j];
        }
      }
    }
  }

  /** The new component is the mutual-reachability class of its last vertex, `v`. */
  lemma EmitComponents(down: map<Vertex, set<Vertex>>, a: Acct, below: seq<Vertex>, v: Vertex)
    requires StackOk(a) && PartitionOk(a) && Components(down, a.sccs)
    requires |below| < |a.stack| && a.stack[..|below|] == below && a.stack[|below|] == v
    requires forall y :: y in a.stack[|below|..] <==> Mutual(down, v, y)
    ensures Components(down, Emitted(a, below).sccs)
  {
    var K := a.stack[|below|..];
    var C := Reverse(K);
    var S := a.sccs + [C];
    assert C != [] && C[|C| - 1] == v && forall y :: y in C <==> Mutual(down, v, y) by {
      assert K != [] && K[0] == v;
      ReverseElems(K);
      ReverseAt(K);
    }
    forall i | 0 <= i < |S|
      ensures S[i] != [] && forall y :: y in S[i] <==> Mutual(down, S[i][|S[i]| - 1], y)
    {
      if i < |a.sccs| {
        assert S[i] == a.sccs[i];
      } else {
        assert S[i] == C;
      }
    }
  }

  /** Emitting keeps the facts about the calls still in progress, now without `v`. */
  lemma EmitActive(down: map<Vertex, set<Vertex>>, roots: set<Vertex>, a: Acct, active: set<Vertex>,
                   below: seq<Vertex>, v: Vertex)
    requires StackOk(a) && RootedOk(down, roots, a)
    requires FinishedOk(down, a, active + {v})
    requires StackReach(down, a, active + {v}) && ActiveReach(down, a, active + {v})
    requires forall z :: z in Succ(down, v) ==> z in a.index
    requires forall y :: y in active ==> y in below
    requires |below| < |a.stack| && a.stack[..|below|] == below && a.stack[|below|] == v
    ensures FinishedOk(down, Emitted(a, below), active)
    ensures StackReach(down, Emitted(a, below), active)
    ensures ActiveReach(down, Emitted(a, below), active)
    ensures forall y :: y in active ==> y in Emitted(a, below).stack
    ensures RootedOk(down, roots, Emitted(a, below))
  {
    EmitAnchored(down, a, active, below, v);
  }

  /** The vertices left on the stack are anchored without `v`, which is newer than all of them. */
  lemma EmitAnchored(down: map<Vertex, set<Vertex>>, a: Acct, active: set<Vertex>, below: seq<Vertex>, v: Vertex)
    requires StackOk(a) && StackReach(down, a, active + {v})
    requires |below| < |a.stack| && a.stack[..|below|] == below && a.stack[|below|] == v
    ensures StackReach(down, Emitted(a, below), active)
  {
    var b := Emitted(a, below);
    StackSplit(a, below, v);
    forall x | x in below ensures Anchored(down, b, active, x) {
      assert Anchored(down, a, active + {v}, x);
      var y :| y in active + {v} && IndexOf(a, y) <= IndexOf(a, x) && Reachable(down, x, y);
      assert y != v;
      assert IndexOf(b, y) <= IndexOf(b, x);
    }
  }

  /** Emitting keeps the invariant, with `v` no longer active. */
  lemma EmitInv(down: map<Vertex, set<Vertex>>, roots: set<Vertex>, a: Acct, active: set<Vertex>,
                below: seq<Vertex>, v: Vertex, n: int)
    requires Inv(down, roots, a, active + {v})
    requires forall y :: y in active ==> y in below
    requires LoopOk(down, a, below, v, n, Succ(down, v))
    requires n == a.index[v]
    ensures Inv(down, roots, Emitted(a, below), active)
  {
    EmitClosed(down, a, below, v, n);
    EmitMutual(down, a, active, below, v);
    EmitShape(a, below, v);
    EmitPartition(a, below, v);
    EmitTopological(down, a, below, v, n);
    EmitComponents(down, a, below, v);
    EmitActive(down, roots, a, active, below, v);
  }

  /** Emitting leaves the stack as the call found it, so the call's promise holds. */
  lemma EmitFrame(down: map<Vertex, set<Vertex>>, a0: Acct, a: Acct, v: Vertex, n: int)
    requires Extends(a0, a)
    requires LoopOk(down, a, a0.stack, v, n, Succ(down, v))
    requires n == a.index[v]
    ensures Extends(a0, Emitted(a, a0.stack))
    ensures CallPost(down, a0, Emitted(a, a0.stack), v, n)
  {
    var b := Emitted(a, a0.stack);
    assert b.sccs[..|a0.sccs|] == a.sccs[..|a0.sccs|];
    assert b.stack[..|a0.stack|] == a0.stack;
  }

  /** When `v` is the root of its component: `v` sits just above `below` and nowhere higher. */
  lemma EmitPre(down: map<Vertex, set<Vertex>>, roots: set<Vertex>, a0: Acct, a: Acct,
                active: set<Vertex>, v: Vertex, n: int)
    requires Inv(down, roots, a, active + {v})
    requires LoopOk(down, a, a0.stack, v, n, Succ(down, v))
    ensures |a0.stack| < |a.stack| && a.stack[..|a0.stack|] == a0.stack && a.stack[|a0.stack|] == v
    ensures forall i :: |a0.stack| < i < |a.stack| ==> a.stack[i] != v
  {
    StackNoDup(a);
  }

  /**
   * Returning from a call on `v` that is the root of its component: the
   * component is emitted, `v` is no longer active, and the call's promise
   * holds.
   */
  lemma EmitOk(down: map<Vertex, set<Vertex>>, roots: set<Vertex>, a0: Acct, a: Acct, b: Acct,
               active: set<Vertex>, v: Vertex, n: int)
    requires Inv(down, roots, a, active + {v})
    requires forall y :: y in active ==> y in a0.stack
    requires Extends(a0, a)
    requires LoopOk(down, a, a0.stack, v, n, Succ(down, v))
    requires n == a.index[v]
    requires b == Emitted(a, a0.stack)
    ensures Inv(down, roots, b, active)
    ensures Extends(a0, b)
    ensures CallPost(down, a0, b, v, n)
  {
    EmitInv(down, roots, a, active, a0.stack, v, n);
    EmitFrame(down, a0, a, v, n);
  }

  /** Each component, being the class of its last vertex, is the class of each of its vertices. */
  lemma ComponentClasses(down: map<Vertex, set<Vertex>>, sccs: seq<seq<Vertex>>)
    requires Components(down, sccs)
    ensures forall i, x, y :: 0 <= i < |sccs| && x in sccs[i] ==> (y in sccs[i] <==> Mutual(down, x, y))
  {
    forall i, x, y | 0 <= i < |sccs| && x in sccs[i] ensures y in sccs[i] <==> Mutual(down, x, y) {
      var c := sccs[i][|sccs[i]| - 1];
      assert Mutual(down, c, x);
      if y in sccs[i] {
        MutualTrans(down, x, c, y);
      }
      if Mutual(down, x, y) {
        MutualTrans(down, c, x, y);
      }
    }
  }

  /** With no call in progress, the visited vertices are closed under successors. */
  lemma IdleClosed(down: map<Vertex, set<Vertex>>, a: Acct)
    requires FinishedOk(down, a, {})
    ensures Closed(down, a.index.Keys)
  {
  }

  /**
   * Once no call is in progress and every root is visited, the emitted
   * components are exactly the strongly connected components of what the
   * roots reach, each emitted after every component it has an edge to.
   */
  lemma FinalOk(down: map<Vertex, set<Vertex>>, roots: set<Vertex>, a: Acct)
    requires Inv(down, roots, a, {})
    requires forall r :: r in roots ==> r in a.index
    ensures IsSccDecomposition(down, roots, a.sccs)
  {
    IdleStackEmpty(down, a);
    IdleClosed(down, a);
    ComponentClasses(down, a.sccs);
    IdleResult(down, roots, a);
  }

  lemma IdleResult(down: map<Vertex, set<Vertex>>, roots: set<Vertex>, a: Acct)
    requires PartitionOk(a) && RootedOk(down, roots, a)
    requires forall x :: x !in a.stack
    requires Closed(down, a.index.Keys)
    requires forall r :: r in roots ==> r in a.index
    ensures forall y :: y in Flatten(a.sccs) <==> exists r :: r in roots && Reachable(down, r, y)
  {
    forall y ensures y in Flatten(a.sccs) <==> exists r :: r in roots && Reachable(down, r, y) {
      if exists r :: r in roots && Reachable(down, r, y) {
        var r :| r in roots && Reachable(down, r, y);
        ReachClosed(down, a.index.Keys, r, y);
      }
      if y in Flatten(a.sccs) {
        assert FromRoot(down, roots, y);
      }
    }
  }
}
