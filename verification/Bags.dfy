/** Sequences without their order. */
module Bags {

  /** The results of a function over a sequence, without their order. */
  function Bag<T, U>(s: seq<T>, f: T -> U): multiset<U> {
    if s == [] then multiset{} else Bag(s[..|s| - 1], f) + multiset{f(s[|s| - 1])}
  }

  lemma {:induction false} BagMembers<T, U>(s: seq<T>, f: T -> U, y: U)
    ensures y in Bag(s, f) <==> exists x :: x in s && f(x) == y
  {
    if s != [] {
      var n := |s| - 1;
      BagMembers(s[..n], f, y);
      assert s == s[..n] + [s[n]];
    }
  }

  lemma {:induction false} BagAppend<T, U>(s: seq<T>, t: seq<T>, f: T -> U)
    ensures Bag(s + t, f) == Bag(s, f) + Bag(t, f)
    decreases |t|
  {
    if t == [] {
      assert s + t == s;
    } else {
      assert (s + t)[..|s + t| - 1] == s + t[..|t| - 1];
      BagAppend(s, t[..|t| - 1], f);
    }
  }

  lemma BagOne<T, U>(x: T, f: T -> U)
    ensures Bag([x], f) == multiset{f(x)}
  {
    assert [x][..0] == [];
  }

  lemma BagMiddle<T, U>(a: seq<T>, x: T, b: seq<T>, f: T -> U)
    ensures Bag(a + ([x] + b), f) == Bag(a + b, f) + multiset{f(x)}
  {
    BagAppend(a, b, f);
    BagAppend(a, [x] + b, f);
    BagAppend([x], b, f);
    BagOne(x, f);
  }

  lemma Parts<T>(t: seq<T>, x: T) returns (a: seq<T>, b: seq<T>)
    requires x in t
    ensures t == a + ([x] + b)
  {
    var i :| 0 <= i < |t| && t[i] == x;
    a, b := t[..i], t[i + 1..];
  }

  lemma {:induction false} BagReordered<T, U>(s: seq<T>, t: seq<T>, f: T -> U)
    requires multiset(s) == multiset(t)
    ensures Bag(s, f) == Bag(t, f)
    decreases |s|
  {
    if s == [] {
      assert |multiset(t)| == 0;
    } else {
      var before, last := s[..|s| - 1], s[|s| - 1];
      assert s == before + [last];
      assert last in multiset(t);
      var a, b := Parts(t, last);
      BagMiddle(a, last, b, f);
      SameRest(before, last, a, b);
      BagReordered(before, a + b, f);
    }
  }

  lemma SameRest<T>(before: seq<T>, x: T, a: seq<T>, b: seq<T>)
    requires multiset(before + [x]) == multiset(a + ([x] + b))
    ensures multiset(before) == multiset(a + b)
  {
    var m, n := multiset(before), multiset(a + b);
    assert m + multiset{x} == n + multiset{x};
    assert m == (m + multiset{x}) - multiset{x};
    assert n == (n + multiset{x}) - multiset{x};
  }

  /** Sequences whose elements have the same images have the same images as bags. */
  lemma {:induction false} BagPointwise<T, U>(s: seq<T>, t: seq<T>, f: T -> U)
    requires |s| == |t| && forall i :: 0 <= i < |s| ==> f(s[i]) == f(t[i])
    ensures Bag(s, f) == Bag(t, f)
    decreases |s|
  {
    if s != [] {
      BagPointwise(s[..|s| - 1], t[..|t| - 1], f);
    }
  }

  /** The same holds when they are reordered besides. */
  lemma BagRearranged<T, U>(s: seq<T>, middle: seq<T>, t: seq<T>, f: T -> U)
    requires |s| == |middle| && forall i :: 0 <= i < |s| ==> f(s[i]) == f(middle[i])
    requires multiset(middle) == multiset(t)
    ensures Bag(s, f) == Bag(t, f)
  {
    BagPointwise(s, middle, f);
    BagReordered(middle, t, f);
  }
}
