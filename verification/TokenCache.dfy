/** The cache of validated tokens: a dictionary in order of last use, with expiry and a size limit. */
module TokenCache {
  import opened PyText
  import opened DualControl

  /** Entries from least to most recently used; each sits under its own hash. */
  type Entries = seq<Token>

  ghost predicate Distinct(es: Entries) {
    forall i, j :: 0 <= i < j < |es| ==> es[i].hash != es[j].hash
  }

  function Find(es: Entries, hash: string): (r: Option<Token>)
    ensures r.Some? ==> r.value in es && r.value.hash == hash
    ensures r.None? ==> forall e :: e in es ==> e.hash != hash
  {
    if es == [] then None
    else if es[0].hash == hash then Some(es[0])
    else Find(es[1..], hash)
  }

  function Filter(es: Entries, keep: Token -> bool): (r: Entries)
    ensures forall e :: e in r <==> e in es && keep(e)
    ensures |r| <= |es|
    ensures Distinct(es) ==> Distinct(r)
  {
    if es == [] then []
    else
      var rest := Filter(es[1..], keep);
      assert forall e :: e in es ==> e == es[0] || e in es[1..];
      assert Distinct(es) ==> Distinct(es[1..]) && forall e :: e in es[1..] ==> e.hash != es[0].hash;
      if keep(es[0]) then [es[0]] + rest else rest
  }

  function Without(es: Entries, hash: string): Entries { Filter(es, (e: Token) => e.hash != hash) }

  /** `clock` gives the reading of the expiry test of each entry. */
  function Live(es: Entries, clock: string -> Time): Entries {
    Filter(es, (e: Token) => !e.IsExpired(clock(e.hash)))
  }

  /** What a put chooses from: the live entries and the new one, which counts as just used. */
  function Candidates(es: Entries, token: Token, clock: string -> Time): Entries {
    Without(Live(es, clock), token.hash) + [token]
  }

  /** The last `max` entries; none when `max` is negative. */
  function Newest(es: Entries, max: int): Entries {
    if max < 0 then [] else if |es| <= max then es else es[|es| - max..]
  }

  lemma AppendDistinct(es: Entries, e: Token)
    requires Distinct(es) && forall x :: x in es ==> x.hash != e.hash
    ensures Distinct(es + [e])
  {}

  datatype Op = Get(hash: string, now: Time) | Put(token: Token, clock: string -> Time) | Cleanup(clock: string -> Time)

  predicate Hit(es: Entries, op: Op) {
    op.Get? && Find(es, op.hash).Some? && !Find(es, op.hash).value.IsExpired(op.now)
  }

  function Apply(es: Entries, max: int, op: Op): Entries {
    match op
    case Get(hash, now) =>
      var found := Find(es, hash);
      if found.None? then es
      else if found.value.IsExpired(now) then Without(es, hash)
      else Without(es, hash) + [found.value]
    case Put(token, clock) => Newest(Candidates(es, token, clock), max)
    case Cleanup(clock) => Live(es, clock)
  }

  /** An operation adds nothing but the entry it puts. */
  lemma EntriesAfterOp(es: Entries, max: int, op: Op, e: Token)
    requires e in Apply(es, max, op)
    ensures e in es || (op.Put? && e == op.token)
  {
    if op.Put? {
      assert e in Candidates(es, op.token, op.clock);
    }
  }

  function NotAmong(gone: seq<string>): Token -> bool { (e: Token) => e.hash !in gone }

  lemma OneMoreGone(es: Entries, gone: seq<string>, hash: string)
    ensures Without(Filter(es, NotAmong(gone)), hash) == Filter(es, NotAmong(gone + [hash]))
  {
    if es != [] {
      OneMoreGone(es[1..], gone, hash);
    }
  }

  lemma FilterSame(es: Entries, p: Token -> bool, q: Token -> bool)
    requires forall e :: e in es ==> p(e) == q(e)
    ensures Filter(es, p) == Filter(es, q)
  {}

  lemma FilterNone(es: Entries, p: Token -> bool)
    requires forall e :: e in es ==> p(e)
    ensures Filter(es, p) == es
  {}

  function ExpiredHashes(es: Entries, clock: string -> Time): (r: seq<string>)
    ensures forall h :: h in r <==> exists e :: e in es && e.hash == h && e.IsExpired(clock(h))
  {
    if es == [] then []
    else
      var rest := ExpiredHashes(es[1..], clock);
      assert forall e :: e in es ==> e == es[0] || e in es[1..];
      if es[0].IsExpired(clock(es[0].hash)) then [es[0].hash] + rest else rest
  }

  class TokenCache {
    var entries: Entries
    const maxEntries: int

    ghost predicate Valid()
      reads this
    {
      Distinct(entries)
    }

    constructor (maxEntries: int)
      ensures Valid() && entries == [] && this.maxEntries == maxEntries
    {
      entries := [];
      this.maxEntries := maxEntries;
    }

    method Get(hash: string, now: Time) returns (r: Option<Token>)
      requires Valid()
      modifies this
      ensures Valid() && entries == Apply(old(entries), maxEntries, Op.Get(hash, now))
      ensures r == if Hit(old(entries), Op.Get(hash, now)) then Find(old(entries), hash) else None
    {
      var entry := Find(entries, hash);
      if entry.None? {
        return None;
      }
      entries := Without(entries, hash);
      if entry.value.IsExpired(now) {
        return None;
      }
      AppendDistinct(entries, entry.value);
      entries := entries + [entry.value];
      r := entry;
    }

    method Cleanup(clock: string -> Time) returns (removed: nat)
      requires Valid()
      modifies this
      ensures Valid() && entries == Live(old(entries), clock)
      ensures removed == |old(entries)| - |entries|
    {
      var expired := ExpiredHashes(entries, clock);
      ghost var before, gone: seq<string> := entries, [];
      FilterNone(entries, NotAmong(gone));
      for i := 0 to |expired|
        invariant gone == expired[..i] && entries == Filter(before, NotAmong(gone))
      {
        OneMoreGone(before, gone, expired[i]);
        entries := Without(entries, expired[i]);
        gone := gone + [expired[i]];
      }
      assert gone == expired;
      FilterSame(before, NotAmong(gone), (e: Token) => !e.IsExpired(clock(e.hash)));
      removed := |expired|;
      ExpiredCount(before, clock);
    }

    /** False when evicting raised: with a negative limit the loop empties the cache and then pops from nothing. */
    method Put(token: Token, clock: string -> Time) returns (ok: bool)
      requires Valid()
      modifies this
      ensures Valid() && entries == Apply(old(entries), maxEntries, Op.Put(token, clock))
      ensures ok <==> maxEntries >= 0
    {
      var _ := Cleanup(clock);
      AppendDistinct(Without(entries, token.hash), token);
      entries := Without(entries, token.hash) + [token];
      ghost var all := entries;
      while |entries| > maxEntries
        invariant |entries| <= |all| && entries == all[|all| - |entries|..]
        invariant |entries| == |all| || |entries| >= maxEntries
      {
        if entries == [] {
          return false;
        }
        entries := entries[1..];
      }
      ok := true;
    }
  }

  lemma ExpiredCount(es: Entries, clock: string -> Time)
    ensures |ExpiredHashes(es, clock)| == |es| - |Live(es, clock)|
  {}

  // ---- Order of last use, over every run

  predicate Touches(es: Entries, op: Op, hash: string) {
    (op.Put? && op.token.hash == hash) || (Hit(es, op) && op.hash == hash)
  }

  /** The entries after a run of operations on an empty cache. */
  function RunOps(ops: seq<Op>, max: int): Entries {
    if ops == [] then [] else Apply(RunOps(ops[..|ops| - 1], max), max, ops[|ops| - 1])
  }

  /** The position of the last operation that used or stored `hash`. */
  function LastTouch(ops: seq<Op>, max: int, hash: string): (at: int)
    ensures -1 <= at < |ops|
  {
    if ops == [] then -1
    else
      var before := ops[..|ops| - 1];
      if Touches(RunOps(before, max), ops[|ops| - 1], hash) then |ops| - 1 else LastTouch(before, max, hash)
  }

  ghost predicate OrderedBy(es: Entries, rank: string -> int) {
    forall i, j :: 0 <= i < j < |es| ==> rank(es[i].hash) < rank(es[j].hash)
  }

  lemma FilterOrdered(es: Entries, keep: Token -> bool, rank: string -> int)
    requires OrderedBy(es, rank)
    ensures OrderedBy(Filter(es, keep), rank)
  {
    if es != [] {
      assert OrderedBy(es[1..], rank);
      assert forall e :: e in es[1..] ==> rank(es[0].hash) < rank(e.hash);
      FilterOrdered(es[1..], keep, rank);
    }
  }

  lemma AppendOrdered(es: Entries, e: Token, rank: string -> int)
    requires OrderedBy(es, rank) && forall x :: x in es ==> rank(x.hash) < rank(e.hash)
    ensures OrderedBy(es + [e], rank)
  {}

  lemma RankOnly(es: Entries, rank: string -> int, rank': string -> int)
    requires OrderedBy(es, rank) && forall e :: e in es ==> rank'(e.hash) == rank(e.hash)
    ensures OrderedBy(es, rank')
  {}

  lemma CandidatesOrdered(es: Entries, token: Token, clock: string -> Time, rank: string -> int, rank': string -> int)
    requires OrderedBy(es, rank)
    requires forall e :: e in es && e.hash != token.hash ==> rank'(e.hash) == rank(e.hash) < rank'(token.hash)
    ensures OrderedBy(Candidates(es, token, clock), rank')
  {
    var live := Live(es, clock);
    FilterOrdered(es, (e: Token) => !e.IsExpired(clock(e.hash)), rank);
    FilterOrdered(live, (e: Token) => e.hash != token.hash, rank);
    RankOnly(Without(live, token.hash), rank, rank');
    AppendOrdered(Without(live, token.hash), token, rank');
  }

  /** After any run, the entries stand in order of last use. */
  lemma {:induction false} RunInOrderOfUse(ops: seq<Op>, max: int)
    ensures OrderedBy(RunOps(ops, max), h => LastTouch(ops, max, h))
    decreases |ops|
  {
    if ops != [] {
      var n := |ops| - 1;
      var before, op := ops[..n], ops[n];
      var es := RunOps(before, max);
      var rank, rank' := (h: string) => LastTouch(before, max, h), (h: string) => LastTouch(ops, max, h);
      RunInOrderOfUse(before, max);
      match op {
        case Get(hash, now) =>
          FilterOrdered(es, (e: Token) => e.hash != hash, rank);
          if Hit(es, op) {
            RankOnly(Without(es, hash), rank, rank');
            AppendOrdered(Without(es, hash), Find(es, hash).value, rank');
          } else {
            RankOnly(es, rank, rank');
            RankOnly(Without(es, hash), rank, rank');
          }
        case Put(token, clock) =>
          CandidatesOrdered(es, token, clock, rank, rank');
        case Cleanup(clock) =>
          FilterOrdered(es, (e: Token) => !e.IsExpired(clock(e.hash)), rank);
          RankOnly(Live(es, clock), rank, rank');
      }
    }
  }

  lemma NewestAreLast(es: Entries, max: nat, rank: string -> int)
    requires OrderedBy(es, rank)
    ensures forall e, k :: e in es && e !in Newest(es, max) && k in Newest(es, max) ==> rank(e.hash) < rank(k.hash)
  {
    var kept := Newest(es, max);
    forall e, k | e in es && e !in kept && k in kept ensures rank(e.hash) < rank(k.hash) {
      var i := IndexOf(es, e);
      var j := IndexOf(kept, k);
      var cut := |es| - |kept|;
      assert es[cut + j] == k;
      if i >= cut {
        LastIsKept(es, max, i);
      }
    }
  }

  lemma LastIsKept(es: Entries, max: nat, i: nat)
    requires |es| - |Newest(es, max)| <= i < |es|
    ensures es[i] in Newest(es, max)
  {
    assert Newest(es, max)[i - (|es| - |Newest(es, max)|)] == es[i];
  }

  lemma IndexOf(es: Entries, e: Token) returns (i: nat)
    requires e in es
    ensures i < |es| && es[i] == e
  {
    i :| 0 <= i < |es| && es[i] == e;
  }

  /** A put keeps, of the new entry and the live ones, as many as fit, and those the most recently used. */
  lemma PutKeepsMostRecent(ops: seq<Op>, max: nat, token: Token, clock: string -> Time)
    ensures var all := ops + [Put(token, clock)];
            var candidates := Candidates(RunOps(ops, max), token, clock);
            var kept := RunOps(all, max);
            && |kept| == (if |candidates| <= max then |candidates| else max)
            && (forall e :: e in kept ==> e in candidates)
            && (forall e, k :: e in candidates && e !in kept && k in kept ==>
                  LastTouch(all, max, e.hash) < LastTouch(all, max, k.hash))
  {
    var all := ops + [Put(token, clock)];
    assert all[..|ops|] == ops;
    var es, rank := RunOps(ops, max), (h: string) => LastTouch(all, max, h);
    RunInOrderOfUse(ops, max);
    CandidatesOrdered(es, token, clock, h => LastTouch(ops, max, h), rank);
    NewestAreLast(Candidates(es, token, clock), max, rank);
  }

  // ---- What an operation leaves to be found

  lemma FindIs(es: Entries, hash: string, e: Token)
    requires Distinct(es)
    ensures Find(es, hash) == Some(e) <==> e in es && e.hash == hash
  {}

  lemma ApplyDistinct(es: Entries, max: int, op: Op)
    requires Distinct(es)
    ensures Distinct(Apply(es, max, op))
  {
    match op {
      case Get(hash, now) =>
        if Hit(es, op) { AppendDistinct(Without(es, hash), Find(es, hash).value); }
      case Put(token, clock) =>
        AppendDistinct(Without(Live(es, clock), token.hash), token);
      case Cleanup(clock) =>
    }
  }

  /** A get leaves every entry to be found but the one it was asked for, and that one unless it has expired. */
  lemma GetLeaves(es: Entries, max: int, hash: string, now: Time, h: string, e: Token)
    requires Distinct(es)
    ensures Find(Apply(es, max, Get(hash, now)), h) == Some(e) <==>
            Find(es, h) == Some(e) && (h == hash ==> now < e.expiresAt)
  {
    ApplyDistinct(es, max, Get(hash, now));
    FindIs(es, h, e);
    FindIs(Apply(es, max, Get(hash, now)), h, e);
  }

  /** A cleanup leaves exactly what has not expired. */
  lemma CleanupLeaves(es: Entries, max: int, clock: string -> Time, h: string, e: Token)
    requires Distinct(es)
    ensures Find(Apply(es, max, Cleanup(clock)), h) == Some(e) <==> Find(es, h) == Some(e) && clock(h) < e.expiresAt
  {
    FindIs(es, h, e);
    FindIs(Live(es, clock), h, e);
  }

  lemma CandidatesAre(es: Entries, token: Token, clock: string -> Time, e: Token)
    ensures e in Candidates(es, token, clock) <==>
            e == token || (e in es && clock(e.hash) < e.expiresAt && e.hash != token.hash)
  {}

  lemma NewestAre(es: Entries, max: int, e: Token)
    ensures e in Newest(es, max) ==> e in es
    ensures |es| <= max ==> Newest(es, max) == es
    ensures max <= 0 ==> Newest(es, max) == []
    ensures max >= 1 && es != [] ==> es[|es| - 1] in Newest(es, max)
  {
    if max >= 1 && es != [] {
      assert Newest(es, max)[|Newest(es, max)| - 1] == es[|es| - 1];
    }
  }

  /** A put with room for one entry leaves the token to be found; of the others, none but those that have not expired,
      and all of those where there is room for all. */
  lemma PutLeaves(es: Entries, max: int, token: Token, clock: string -> Time, h: string, e: Token)
    requires Distinct(es)
    ensures var after := Apply(es, max, Put(token, clock));
            && (max >= 1 ==> Find(after, token.hash) == Some(token))
            && (max <= 0 ==> after == [])
            && (h != token.hash && Find(after, h) == Some(e) ==> Find(es, h) == Some(e) && clock(h) < e.expiresAt)
            && (h != token.hash && |es| < max ==>
                  (Find(after, h) == Some(e) <==> Find(es, h) == Some(e) && clock(h) < e.expiresAt))
  {
    var all, after := Candidates(es, token, clock), Apply(es, max, Put(token, clock));
    ApplyDistinct(es, max, Put(token, clock));
    NewestAre(all, max, e);
    CandidatesAre(es, token, clock, e);
    FindIs(es, h, e);
    FindIs(after, h, e);
    FindIs(after, token.hash, token);
  }
}
