/**
 * Tarjan's strongly-connected-components search over a graph's successor
 * index, with its bookkeeping kept in an object that the recursive search
 * updates in place.
 *
 * Each step of the search is justified by the matching lemma of module
 * `Scc`, stated on the value `SccAcct.State()`; the set `active` of
 * vertices whose calls are in progress exists only for the proof.
 */
module Tarjan {
  import opened Edges
  import opened Seqs
  import opened Graphs
  import opened Reachability
  import opened Scc

  datatype Option<X> = None | Some(value: X)

  /** The accounting passed around the search. */
  class SccAcct {
    var nextIndex: int
    var vertexIndex: map<Vertex, int>
    var stack: seq<Vertex>
    var sccs: seq<seq<Vertex>>

    /** The accounting as a value. */
    ghost function State(): Acct
      reads this
    {
      Acct(nextIndex, vertexIndex, stack, sccs)
    }

    /** Fresh accounting: index 1 comes next, nothing visited, stacked or emitted. */
    constructor ()
      ensures State() == Acct(1, map[], [], [])
    {
      nextIndex := 1;
      vertexIndex := map[];
      stack := [];
      sccs := [];
    }

    /** Gives `v` the next index and pushes it; returns that index. */
    method Visit(v: Vertex) returns (idx: int)
      modifies this
      ensures idx == old(nextIndex)
      ensures State() == Visited(old(State()), v)
    {
      idx := nextIndex;
      vertexIndex := vertexIndex[v := idx];
      nextIndex := nextIndex + 1;
      Push(v);
    }

    /** Puts `n` on top of the stack. */
    method Push(n: Vertex)
      modifies this
      ensures stack == old(stack) + [n]
      ensures nextIndex == old(nextIndex) && vertexIndex == old(vertexIndex) && sccs == old(sccs)
    {
      stack := stack + [n];
    }

    /** Takes the top of the stack off and returns it; on an empty stack, returns nothing. */
    method Pop() returns (r: Option<Vertex>)
      modifies this
      ensures old(stack) == [] ==> r == None && stack == []
      ensures old(stack) != [] ==>
        r == Some(old(stack)[|old(stack)| - 1]) && stack == old(stack)[..|old(stack)| - 1]
      ensures nextIndex == old(nextIndex) && vertexIndex == old(vertexIndex) && sccs == old(sccs)
    {
      var n := |stack|;
      if n == 0 {
        return None;
      }
      r := Some(stack[n - 1]);
      stack := stack[..n - 1];
    }

    /**
     * Pops vertices until `v` comes off, `below` being what then remains,
     * and emits the popped vertices, in pop order, as a component.
     */
    method EmitComponent(v: Vertex, ghost below: seq<Vertex>)
      modifies this
      requires |below| < |stack| && stack[..|below|] == below && stack[|below|] == v
      requires forall i :: |below| < i < |stack| ==> stack[i] != v
      ensures State() == Emitted(old(State()), below)
    {
      ghost var s0 := stack;
      var scc := [];
      while true
        invariant |below| < |stack| <= |s0|
        invariant stack == s0[..|stack|]
        invariant scc == Reverse(s0[|stack|..])
        invariant nextIndex == old(nextIndex) && vertexIndex == old(vertexIndex) && sccs == old(sccs)
        decreases |stack|
      {
        ghost var p := |stack| - 1;
        var r := Pop();
        match r {
          case None =>
            assert false;
          case Some(v2) =>
            ReverseSuffix(s0, p);
            scc := scc + [v2];
            if v2 == v {
              break;
            }
            assert p != |below|;
        }
      }
      sccs := sccs + [scc];
    }

    /** Whether `needle` is on the stack, by a scan from the bottom. */
    method InStack(needle: Vertex) returns (r: bool)
      ensures r <==> needle in stack
    {
      var i := 0;
      while i < |stack|
        invariant 0 <= i <= |stack|
        invariant needle !in stack[..i]
      {
        if stack[i] == needle {
          return true;
        }
        assert stack[..i + 1] == stack[..i] + [stack[i]];
        i := i + 1;
      }
      assert stack[..i] == stack;
      return false;
    }
  }

  /** Moving one element from the pending part to the handled part keeps the split of `all`. */
  lemma MoveOne<X>(all: set<X>, done: set<X>, pending: set<X>, x: X)
    requires done + pending == all && done !! pending && x in pending
    ensures (done + {x}) + (pending - {x}) == all && (done + {x}) !! (pending - {x})
  {
  }

  /**
   * The search from the unvisited vertex `v`: visits it, handles its
   * successors, and, if `v` turns out to be the root of its component, pops
   * the component off the stack and emits it. Returns `v`'s low-link.
   */
  method StronglyConnectedFrom(acct: SccAcct, g: Graph, v: Vertex, ghost down: map<Vertex, set<Vertex>>,
                               ghost roots: set<Vertex>, ghost active: set<Vertex>) returns (minIdx: int)
    modifies acct
    requires g.downEdges == down
    requires Inv(down, roots, acct.State(), active)
    requires v !in acct.vertexIndex && v in Universe(roots, down)
    requires forall y :: y in active ==> Reachable(down, y, v)
    requires FromRoot(down, roots, v)
    ensures Inv(down, roots, acct.State(), active)
    ensures Extends(old(acct.State()), acct.State())
    ensures CallPost(down, old(acct.State()), acct.State(), v, minIdx)
    decreases |Universe(roots, down) - acct.vertexIndex.Keys|, 1
  {
    var index := acct.Visit(v);
    VisitOk(down, roots, old(acct.State()), acct.State(), active, v);
    ShrinkCard(Universe(roots, down) - acct.vertexIndex.Keys, Universe(roots, down) - old(acct.vertexIndex).Keys, v);
    minIdx := VisitSuccessors(acct, g, v, index, down, roots, active, old(acct.State()));

    if index == minIdx {
      ghost var a := acct.State();
      EmitPre(down, roots, old(acct.State()), a, active, v, minIdx);
      acct.EmitComponent(v, old(acct.stack));
      EmitOk(down, roots, old(acct.State()), a, acct.State(), active, v, minIdx);
    } else {
      ReturnOk(down, roots, old(acct.State()), acct.State(), active, v, minIdx);
    }
  }

  /**
   * The successor loop of the search from `v`, whose index is `index`:
   * searches from each unvisited successor and takes the low-link of that
   * search, or the index of a successor still on the stack, into `v`'s
   * low-link, which it returns.
   */
  method VisitSuccessors(acct: SccAcct, g: Graph, v: Vertex, index: int, ghost down: map<Vertex, set<Vertex>>,
                         ghost roots: set<Vertex>, ghost active: set<Vertex>, ghost a0: Acct)
    returns (minIdx: int)
    modifies acct
    requires g.downEdges == down
    requires Inv(down, roots, acct.State(), active + {v})
    requires forall y :: y in active ==> y in a0.stack
    requires Extends(a0, acct.State())
    requires LoopOk(down, acct.State(), a0.stack, v, index, {})
    requires acct.vertexIndex[v] == index
    ensures Inv(down, roots, acct.State(), active + {v})
    ensures Extends(a0, acct.State())
    ensures LoopOk(down, acct.State(), a0.stack, v, minIdx, Succ(down, v))
    ensures acct.vertexIndex[v] == index
    decreases |Universe(roots, down) - acct.vertexIndex.Keys|, 2
  {
    minIdx := index;
    var targets := g.DownEdgesNoCopy(v);
    ghost var done: set<Vertex> := {};
    while targets != {}
      invariant g.downEdges == down
      invariant done + targets == Succ(down, v) && done !! targets
      invariant Inv(down, roots, acct.State(), active + {v})
      invariant Extends(a0, acct.State())
      invariant old(acct.vertexIndex).Keys <= acct.vertexIndex.Keys
      invariant LoopOk(down, acct.State(), a0.stack, v, minIdx, done)
      invariant acct.vertexIndex[v] == index
      decreases targets
    {
      var target :| target in targets;
      var targetIdx := if target in acct.vertexIndex then acct.vertexIndex[target] else 0;
      if targetIdx == 0 {
        ChildPre(down, roots, acct.State(), active, a0.stack, v, target);
        SubsetCard(Universe(roots, down) - acct.vertexIndex.Keys, Universe(roots, down) - old(acct.vertexIndex).Keys);
        ghost var a1 := acct.State();
        var m := StronglyConnectedFrom(acct, g, target, down, roots, active + {v});
        ChildOk(down, a1, acct.State(), a0.stack, v, minIdx, done, target, m);
        ExtendsTrans(a0, a1, acct.State());
        minIdx := Min(minIdx, m);
      } else {
        var onStack := acct.InStack(target);
        if onStack {
          OnStackOk(down, acct.State(), a0.stack, v, minIdx, done, target);
          minIdx := Min(minIdx, targetIdx);
        } else {
          EmittedTargetOk(down, acct.State(), a0.stack, v, minIdx, done, target);
        }
      }
      MoveOne(Succ(down, v), done, targets, target);
      done := done + {target};
      targets := targets - {target};
    }
  }

  /**
   * The strongly connected components of `g`, each emitted after every
   * component it has an edge to; every vertex is searched from unless an
   * earlier search already reached it.
   */
  method StronglyConnected(g: Graph) returns (sccs: seq<seq<Vertex>>)
    ensures IsSccDecomposition(g.downEdges, g.vertices, sccs)
  {
    var vs := g.Vertices();
    var acct := new SccAcct();
    ghost var down := g.downEdges;
    ghost var roots := g.vertices;
    InitOk(down, roots);
    var i := 0;
    while i < |vs|
      invariant 0 <= i <= |vs|
      invariant g.downEdges == down
      invariant Inv(down, roots, acct.State(), {})
      invariant forall j :: 0 <= j < i ==> vs[j] in acct.vertexIndex
    {
      var v := vs[i];
      if (if v in acct.vertexIndex then acct.vertexIndex[v] else 0) == 0 {
        ReachRefl(down, v);
        assert FromRoot(down, roots, v);
        var _ := StronglyConnectedFrom(acct, g, v, down, roots, {});
      }
      i := i + 1;
    }
    FinalOk(down, roots, acct.State());
    sccs := acct.sccs;
  }
}
