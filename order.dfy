/**
 * Go's ordering of strings (byte by byte, a proper prefix first) and the
 * ascending sort of a string slice that the graph listing uses.
 *
 * Strings are sequences of characters here; for well-formed UTF-8 the order
 * of code points is the order of the encoded bytes, so comparing characters
 * gives Go's byte order.
 */
module Order {
  import opened Seqs

  /** `a` sorts no later than `b`. */
  predicate LessEq(a: string, b: string)
  {
    |a| == 0 || (|b| > 0 && (a[0] < b[0] || (a[0] == b[0] && LessEq(a[1..], b[1..]))))
  }

  lemma {:induction false} LessEqRefl(a: string)
    ensures LessEq(a, a)
  {
    if |a| > 0 {
      LessEqRefl(a[1..]);
    }
  }

  lemma {:induction false} LessEqTotal(a: string, b: string)
    ensures LessEq(a, b) || LessEq(b, a)
  {
    if |a| > 0 && |b| > 0 && a[0] == b[0] {
      LessEqTotal(a[1..], b[1..]);
    }
  }

  lemma {:induction false} LessEqAntisym(a: string, b: string)
    requires LessEq(a, b) && LessEq(b, a)
    ensures a == b
  {
    if |a| > 0 {
      LessEqAntisym(a[1..], b[1..]);
      assert a == [a[0]] + a[1..] && b == [b[0]] + b[1..];
    }
  }

  lemma {:induction false} LessEqTrans(a: string, b: string, c: string)
    requires LessEq(a, b) && LessEq(b, c)
    ensures LessEq(a, c)
  {
    if |a| > 0 && a[0] == b[0] && b[0] == c[0] {
      LessEqTrans(a[1..], b[1..], c[1..]);
    }
  }

  /** `x` sorts no later than any member of `s`. */
  ghost predicate LowerBound(x: string, s: seq<string>)
  {
    forall y :: y in s ==> LessEq(x, y)
  }

  /** Every element sorts no later than every element after it. */
  ghost predicate Ascending(s: seq<string>)
  {
    s == [] || (LowerBound(s[0], s[1..]) && Ascending(s[1..]))
  }

  /** `x` placed into `s` before the first element it sorts no later than. */
  function Insert(x: string, s: seq<string>): (r: seq<string>)
    ensures multiset(r) == multiset(s) + multiset{x}
  {
    if s == [] then [x]
    else if LessEq(x, s[0]) then [x] + s
    else
      assert s == [s[0]] + s[1..];
      [s[0]] + Insert(x, s[1..])
  }

  /** Inserting into an ascending sequence keeps it ascending. */
  lemma {:induction false} InsertAscending(x: string, s: seq<string>)
    requires Ascending(s)
    ensures Ascending(Insert(x, s))
  {
    if s == [] {
    } else if LessEq(x, s[0]) {
      forall y | y in s ensures LessEq(x, y) {
        if y != s[0] {
          assert y in s[1..] by {
            assert s == [s[0]] + s[1..];
          }
          LessEqTrans(x, s[0], y);
        }
      }
      assert Insert(x, s)[1..] == s;
    } else {
      LessEqTotal(x, s[0]);
      InsertAscending(x, s[1..]);
      var t := Insert(x, s[1..]);
      forall y | y in t ensures LessEq(s[0], y) {
        assert y in multiset(t);
      }
      assert Insert(x, s)[1..] == t;
    }
  }

  /**
   * The strings of `s` in ascending order: the promise of sort.Strings,
   * which sorts the slice in place.
   */
  function Sort(s: seq<string>): (r: seq<string>)
    ensures Ascending(r)
    ensures multiset(r) == multiset(s)
  {
    if s == [] then []
    else
      assert s == [s[0]] + s[1..];
      var t := Sort(s[1..]);
      InsertAscending(s[0], t);
      Insert(s[0], t)
  }

  /** An ascending order of the same strings is unique: sorting does not depend on the input's order. */
  lemma {:induction false} AscendingUnique(a: seq<string>, b: seq<string>)
    requires Ascending(a) && Ascending(b) && multiset(a) == multiset(b)
    ensures a == b
  {
    if a != [] {
      assert a == [a[0]] + a[1..] && b == [b[0]] + b[1..] by {
        assert a[0] in multiset(b);
      }
      assert b[0] in multiset(a);
      if a[0] != b[0] {
        assert b[0] in a[1..] && a[0] in b[1..];
        LessEqAntisym(a[0], b[0]);
      }
      assert multiset(a) == multiset{a[0]} + multiset(a[1..]);
      assert multiset(b) == multiset{b[0]} + multiset(b[1..]);
      assert multiset(a[1..]) == multiset(a) - multiset{a[0]};
      assert multiset(b[1..]) == multiset(b) - multiset{b[0]};
      AscendingUnique(a[1..], b[1..]);
    }
  }

  /** The members of `S`, each once, in ascending order. */
  ghost function SortedSet(S: set<string>): (r: seq<string>)
    ensures Ascending(r) && NoDup(r)
    ensures forall x :: x in r <==> x in S
  {
    Enumerate(S);
    var xs :| NoDup(xs) && (forall x :: x in xs <==> x in S);
    var r := Sort(xs);
    assert forall x :: x in r <==> x in multiset(xs);
    NoDupMultiset(xs);
    NoDupMultiset(r);
    r
  }

  /** Sorting any duplicate-free listing of `S` gives `SortedSet(S)`. */
  lemma SortMatches(S: set<string>, xs: seq<string>)
    requires NoDup(xs) && (forall x :: x in xs <==> x in S)
    ensures Sort(xs) == SortedSet(S)
  {
    var r := SortedSet(S);
    SameElems(xs, r);
    AscendingUnique(Sort(xs), r);
  }

  /** An ascending, duplicate-free listing of `S` is `SortedSet(S)`. */
  lemma SortedSetIs(S: set<string>, ys: seq<string>)
    requires Ascending(ys) && NoDup(ys) && (forall x :: x in ys <==> x in S)
    ensures SortedSet(S) == ys
  {
    SameElems(ys, SortedSet(S));
    AscendingUnique(ys, SortedSet(S));
  }
}
