/**
 * Edge identity.
 *
 * A vertex is identified by its hash key, so the model takes a vertex to be
 * that key. An edge records its two endpoints, and its hash key is the
 * source key, a '-', then the target key; edge sets are keyed by it.
 */
module Edges {

  /** The hash key of an edge whose endpoints have the keys `src` and `tgt`. */
  function JoinKeys(src: string, tgt: string): string
  {
    src + "-" + tgt
  }

  /** Position of the first '-' in `h`, or `|h|` when there is none. */
  function FirstDash(h: string): (i: nat)
    ensures i <= |h|
    ensures i < |h| ==> h[i] == '-'
    ensures forall j :: 0 <= j < i ==> h[j] != '-'
  {
    if h == [] then 0
    else if h[0] == '-' then 0
    else 1 + FirstDash(h[1..])
  }

  /** Splits an edge key at its first '-': the inverse of `JoinKeys` on dash-free sources. */
  function SplitKey(h: string): (string, string)
  {
    var i := FirstDash(h);
    if i == |h| then (h, "") else (h[..i], h[i + 1..])
  }

  lemma {:induction false} SplitJoin(src: string, tgt: string)
    requires '-' !in src
    ensures SplitKey(JoinKeys(src, tgt)) == (src, tgt)
  {
    var h := JoinKeys(src, tgt);
    var i := FirstDash(h);
    assert h[|src|] == '-';
    assert i == |src|;
    assert h[..i] == src;
    assert h[i + 1..] == tgt;
  }

  /** Edge keys determine both endpoint keys as long as the source keys contain no '-'. */
  lemma JoinKeysInjective(a: string, b: string, c: string, d: string)
    requires '-' !in a && '-' !in c
    ensures JoinKeys(a, b) == JoinKeys(c, d) <==> a == c && b == d
  {
    if JoinKeys(a, b) == JoinKeys(c, d) {
      SplitJoin(a, b);
      SplitJoin(c, d);
    }
  }

  /** Without that restriction two different endpoint pairs can share an edge key. */
  lemma JoinKeysCollide()
    ensures JoinKeys("a-b", "c") == JoinKeys("a", "b-c")
    ensures ("a-b", "c") != ("a", "b-c")
  {
    assert "a-b" != "a" by { assert |"a-b"| != |"a"|; }
  }

  /** A vertex, identified by its key; keys are dash-free so that edge keys are unambiguous. */
  type Vertex = k: string | '-' !in k

  /** An edge that tracks its source and target as given. */
  datatype Edge = BasicEdge(S: Vertex, T: Vertex)
  {
    /** The source the edge was built with. */
    function Source(): (s: Vertex)
      ensures BasicEdge(s, T) == this
    {
      S
    }

    /** The target the edge was built with. */
    function Target(): (t: Vertex)
      ensures BasicEdge(S, t) == this
    {
      T
    }

    /** The source key, a '-' and the target key. */
    function Hashcode(): string
    {
      JoinKeys(S, T)
    }
  }

  lemma Accessors(source: Vertex, target: Vertex)
    ensures BasicEdge(source, target).Source() == source
    ensures BasicEdge(source, target).Target() == target
  {
  }

  /** Splitting an edge's hash key at its first '-' gives back the source and target keys. */
  lemma HashcodeSplit(e: Edge)
    ensures SplitKey(e.Hashcode()) == (e.Source(), e.Target())
  {
    SplitJoin(e.S, e.T);
  }

  /** Two edges have the same hash key exactly when they have the same endpoints. */
  lemma HashcodeInjective(e1: Edge, e2: Edge)
    ensures e1.Hashcode() == e2.Hashcode() <==> e1 == e2
  {
    JoinKeysInjective(e1.S, e1.T, e2.S, e2.T);
  }
}
