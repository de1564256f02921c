/** Small facts about sequences used by the graph and the component search. */
module Seqs {

  /** No element occurs twice. */
  ghost predicate NoDup<X>(s: seq<X>)
  {
    forall i, j :: 0 <= i < j < |s| ==> s[i] != s[j]
  }

  /** Appending an element that is not yet present keeps a sequence duplicate-free. */
  lemma NoDupSnoc<X>(s: seq<X>, x: X)
    requires NoDup(s) && x !in s
    ensures NoDup(s + [x])
  {
  }

  /** A concatenation is duplicate-free iff both parts are and they share nothing. */
  lemma NoDupAppend<X>(a: seq<X>, b: seq<X>)
    ensures NoDup(a + b) <==> NoDup(a) && NoDup(b) && (forall x :: x in a ==> x !in b)
  {
    if NoDup(a + b) {
      forall x | x in a ensures x !in b {
        var i :| 0 <= i < |a| && a[i] == x;
        forall j | 0 <= j < |b| ensures b[j] != x {
          assert (a + b)[i] == a[i] && (a + b)[|a| + j] == b[j];
        }
      }
      assert NoDup(a) by {
        forall i, j | 0 <= i < j < |a| ensures a[i] != a[j] {
          assert (a + b)[i] == a[i] && (a + b)[j] == a[j];
        }
      }
      assert NoDup(b) by {
        forall i, j | 0 <= i < j < |b| ensures b[i] != b[j] {
          assert (a + b)[|a| + i] == b[i] && (a + b)[|a| + j] == b[j];
        }
      }
    } else if NoDup(a) && NoDup(b) && (forall x :: x in a ==> x !in b) {
      forall i, j | 0 <= i < j < |a + b| ensures (a + b)[i] != (a + b)[j] {
        if j < |a| {
          assert (a + b)[i] == a[i] && (a + b)[j] == a[j];
        } else if i >= |a| {
          assert (a + b)[i] == b[i - |a|] && (a + b)[j] == b[j - |a|];
        } else {
          assert (a + b)[i] == a[i] && (a + b)[j] == b[j - |a|];
          assert a[i] in a;
        }
      }
    }
  }

  /** A duplicate-free enumeration of `S` has as many positions as `S` has elements. */
  lemma {:induction false} NoDupCard<X>(s: seq<X>, S: set<X>)
    requires NoDup(s) && (forall x :: x in s <==> x in S)
    ensures |S| == |s|
  {
    if s != [] {
      var t := s[..|s| - 1];
      var x := s[|s| - 1];
      assert s == t + [x];
      assert NoDup(t);
      assert x !in t;
      NoDupCard(t, S - {x});
    } else {
      assert S == {};
    }
  }

  /** The elements of `s` in the opposite order. */
  function Reverse<X>(s: seq<X>): (r: seq<X>)
    ensures |r| == |s|
  {
    if s == [] then [] else Reverse(s[1..]) + [s[0]]
  }

  /** Position `i` of the reversal holds the element `i` places from the end. */
  lemma {:induction false} ReverseAt<X>(s: seq<X>)
    ensures forall i :: 0 <= i < |s| ==> Reverse(s)[i] == s[|s| - 1 - i]
  {
    if s != [] {
      ReverseAt(s[1..]);
      forall i | 0 <= i < |s| ensures Reverse(s)[i] == s[|s| - 1 - i] {
        if i < |s| - 1 {
          assert Reverse(s)[i] == Reverse(s[1..])[i];
        }
      }
    }
  }

  /** Reversing a suffix that starts one position earlier puts that position's element last. */
  lemma ReverseSuffix<X>(s: seq<X>, p: nat)
    requires p < |s|
    ensures Reverse(s[p..]) == Reverse(s[p + 1..]) + [s[p]]
    ensures s[..p + 1][..p] == s[..p]
  {
    assert s[p..][1..] == s[p + 1..];
  }

  /** Reversal keeps the elements and their distinctness. */
  lemma ReverseElems<X>(s: seq<X>)
    ensures forall x :: x in Reverse(s) <==> x in s
    ensures NoDup(s) ==> NoDup(Reverse(s))
  {
    var r := Reverse(s);
    ReverseAt(s);
    forall x | x in s ensures x in r {
      var i :| 0 <= i < |s| && s[i] == x;
      assert r[|s| - 1 - i] == x;
    }
  }

  /** A sequence is duplicate-free iff no element is counted twice. */
  lemma {:induction false} NoDupMultiset<X>(s: seq<X>)
    ensures NoDup(s) <==> forall x :: multiset(s)[x] <= 1
  {
    if s != [] {
      var t := s[..|s| - 1];
      var y := s[|s| - 1];
      assert s == t + [y];
      NoDupMultiset(t);
      NoDupAppend(t, [y]);
      assert multiset(s) == multiset(t) + multiset{y};
      if forall x :: multiset(s)[x] <= 1 {
        assert multiset(s)[y] <= 1;
        forall x ensures multiset(t)[x] <= 1 {
          assert multiset(s)[x] >= multiset(t)[x];
        }
      }
    }
  }

  /** Two duplicate-free sequences with the same elements hold them equally often. */
  lemma SameElems<X>(a: seq<X>, b: seq<X>)
    requires NoDup(a) && NoDup(b) && (forall x :: x in a <==> x in b)
    ensures multiset(a) == multiset(b)
  {
    NoDupMultiset(a);
    NoDupMultiset(b);
    forall x ensures multiset(a)[x] == multiset(b)[x] {
      assert x in a <==> x in multiset(a);
      assert x in b <==> x in multiset(b);
    }
  }

  /** Every finite set has a duplicate-free listing. */
  lemma {:induction false} Enumerate<X>(S: set<X>)
    ensures exists xs :: NoDup(xs) && (forall x :: x in xs <==> x in S)
  {
    if S == {} {
      assert NoDup<X>([]);
    } else {
      var y :| y in S;
      Enumerate(S - {y});
      var xs :| NoDup(xs) && (forall x :: x in xs <==> x in S - {y});
      NoDupSnoc(xs, y);
      assert forall x :: x in xs + [y] <==> x in S;
    }
  }
}
