/** `list.sort` by a small number: stable, so the elements of one key stay in their order. */
module StableSort {
  import opened Bags

  function Map<T, U>(s: seq<T>, f: T -> U): (r: seq<U>)
    ensures |r| == |s|
    ensures forall k :: 0 <= k < |s| ==> r[k] == f(s[k])
  {
    if s == [] then [] else Map(s[..|s| - 1], f) + [f(s[|s| - 1])]
  }

  lemma MapOneMore<T, U>(s: seq<T>, x: T, f: T -> U)
    ensures Map(s + [x], f) == Map(s, f) + [f(x)]
  {
    assert (s + [x])[..|s + [x]| - 1] == s;
  }

  lemma {:induction false} MapBag<T, U>(s: seq<T>, f: T -> U)
    ensures multiset(Map(s, f)) == Bag(s, f)
  {
    if s != [] { MapBag(s[..|s| - 1], f); }
  }

  lemma MapReordered<T, U>(s: seq<T>, t: seq<T>, f: T -> U)
    requires multiset(s) == multiset(t)
    ensures multiset(Map(s, f)) == multiset(Map(t, f))
  {
    MapBag(s, f);
    MapBag(t, f);
    BagReordered(s, t, f);
  }

  /** The elements of key `k`, in their order. */
  function Bucket<T>(s: seq<T>, key: T -> nat, k: nat): seq<T> {
    if s == [] then []
    else
      var before := Bucket(s[..|s| - 1], key, k);
      if key(s[|s| - 1]) == k then before + [s[|s| - 1]] else before
  }

  /** The elements of keys below `n` in order of key. */
  function InOrder<T>(s: seq<T>, key: T -> nat, n: nat): seq<T> {
    if n == 0 then [] else InOrder(s, key, n - 1) + Bucket(s, key, n - 1)
  }

  ghost predicate Ascending<T>(s: seq<T>, key: T -> nat) {
    forall i, j :: 0 <= i < j < |s| ==> key(s[i]) <= key(s[j])
  }

  lemma {:induction false} BucketKeys<T>(s: seq<T>, key: T -> nat, k: nat)
    ensures forall x :: x in Bucket(s, key, k) ==> key(x) == k
  {
    if s != [] { BucketKeys(s[..|s| - 1], key, k); }
  }

  lemma {:induction false} InOrderKeys<T>(s: seq<T>, key: T -> nat, n: nat)
    ensures forall x :: x in InOrder(s, key, n) ==> key(x) < n
  {
    if n > 0 {
      InOrderKeys(s, key, n - 1);
      BucketKeys(s, key, n - 1);
    }
  }

  lemma AscendingJoin<T>(low: seq<T>, high: seq<T>, key: T -> nat, k: nat)
    requires Ascending(low, key) && forall x :: x in low ==> key(x) < k
    requires forall x :: x in high ==> key(x) == k
    ensures Ascending(low + high, key)
  {
    forall i | 0 <= i < |low| ensures key(low[i]) < k { assert low[i] in low; }
    forall i | 0 <= i < |high| ensures key(high[i]) == k { assert high[i] in high; }
  }

  lemma {:induction false} InOrderAscends<T>(s: seq<T>, key: T -> nat, n: nat)
    ensures Ascending(InOrder(s, key, n), key)
  {
    if n > 0 {
      InOrderAscends(s, key, n - 1);
      InOrderKeys(s, key, n - 1);
      BucketKeys(s, key, n - 1);
      AscendingJoin(InOrder(s, key, n - 1), Bucket(s, key, n - 1), key, n - 1);
    }
  }

  lemma {:induction false} BucketAppend<T>(s: seq<T>, t: seq<T>, key: T -> nat, k: nat)
    ensures Bucket(s + t, key, k) == Bucket(s, key, k) + Bucket(t, key, k)
    decreases |t|
  {
    if t == [] {
      assert s + t == s;
    } else {
      assert (s + t)[..|s + t| - 1] == s + t[..|t| - 1];
      BucketAppend(s, t[..|t| - 1], key, k);
    }
  }

  lemma {:induction false} BucketWhole<T>(s: seq<T>, key: T -> nat, k: nat)
    ensures (forall x :: x in s ==> key(x) == k) ==> Bucket(s, key, k) == s
    ensures (forall x :: x in s ==> key(x) != k) ==> Bucket(s, key, k) == []
  {
    if s != [] {
      BucketWhole(s[..|s| - 1], key, k);
      assert s == s[..|s| - 1] + [s[|s| - 1]];
    }
  }

  lemma BucketOfBucket<T>(s: seq<T>, key: T -> nat, m: nat, k: nat)
    ensures Bucket(Bucket(s, key, m), key, k) == if k == m then Bucket(s, key, k) else []
  {
    BucketKeys(s, key, m);
    BucketWhole(Bucket(s, key, m), key, k);
  }

  /** The sort is stable. */
  lemma {:induction false} InOrderKeepsBuckets<T>(s: seq<T>, key: T -> nat, n: nat, k: nat)
    ensures Bucket(InOrder(s, key, n), key, k) == if k < n then Bucket(s, key, k) else []
  {
    if n > 0 {
      InOrderKeepsBuckets(s, key, n - 1, k);
      BucketOfBucket(s, key, n - 1, k);
      BucketAppend(InOrder(s, key, n - 1), Bucket(s, key, n - 1), key, k);
    }
  }

  lemma {:induction false} InOrderGrows<T>(s: seq<T>, x: T, key: T -> nat, n: nat)
    ensures multiset(InOrder(s + [x], key, n)) ==
            multiset(InOrder(s, key, n)) + if key(x) < n then multiset{x} else multiset{}
  {
    if n > 0 {
      InOrderGrows(s, x, key, n - 1);
      assert (s + [x])[..|s + [x]| - 1] == s;
    }
  }

  lemma {:induction false} InOrderEmpty<T>(key: T -> nat, n: nat)
    ensures InOrder([], key, n) == []
  {
    if n > 0 { InOrderEmpty(key, n - 1); }
  }

  /** The sort loses and adds nothing. */
  lemma {:induction false} InOrderPermutes<T>(s: seq<T>, key: T -> nat, n: nat)
    requires forall x :: x in s ==> key(x) < n
    ensures multiset(InOrder(s, key, n)) == multiset(s)
    decreases |s|
  {
    if s == [] {
      InOrderEmpty(key, n);
    } else {
      var before, x := s[..|s| - 1], s[|s| - 1];
      assert s == before + [x];
      InOrderPermutes(before, key, n);
      InOrderGrows(before, x, key, n);
    }
  }

  function After<T, U>(f: T -> U, key: U -> nat): T -> nat { (x: T) => key(f(x)) }

  lemma {:induction false} MapAppend<T, U>(s: seq<T>, t: seq<T>, f: T -> U)
    ensures Map(s + t, f) == Map(s, f) + Map(t, f)
  {}

  lemma {:induction false} BucketOfMap<T, U>(s: seq<T>, f: T -> U, key: U -> nat, k: nat)
    ensures Bucket(Map(s, f), key, k) == Map(Bucket(s, After(f, key), k), f)
  {
    if s != [] {
      var before, x := s[..|s| - 1], s[|s| - 1];
      BucketOfMap(before, f, key, k);
      MapOneMore(Bucket(before, After(f, key), k), x, f);
      assert Map(s, f)[..|s| - 1] == Map(before, f);
    }
  }

  /** Sorting images is sorting what they are images of. */
  lemma {:induction false} InOrderOfMap<T, U>(s: seq<T>, f: T -> U, key: U -> nat, n: nat)
    ensures InOrder(Map(s, f), key, n) == Map(InOrder(s, After(f, key), n), f)
  {
    if n > 0 {
      InOrderOfMap(s, f, key, n - 1);
      OneMoreBucket(s, f, key, n - 1, InOrder(s, After(f, key), n - 1));
    }
  }

  lemma OneMoreBucket<T, U>(s: seq<T>, f: T -> U, key: U -> nat, k: nat, low: seq<T>)
    ensures Map(low, f) + Bucket(Map(s, f), key, k) == Map(low + Bucket(s, After(f, key), k), f)
  {
    BucketOfMap(s, f, key, k);
    MapAppend(low, Bucket(s, After(f, key), k), f);
  }
}
