/** Collecting one report per component from checks that run concurrently under a deadline. */
module Collector {
  import opened PyText
  import opened Doctor
  import opened Bags
  import opened StableSort

  /** `cli` is the first word of the component's doctor command. */
  datatype Component = Component(ident: string, tier: Tier, cli: string)

  /** How one submitted check ends: with a report on its own component, or with an exception. */
  datatype Outcome = Yields(status: Status, ok: bool, detail: string) | Raises(message: string)

  function Finished(c: Component, o: Outcome): Report {
    match o
    case Yields(status, ok, detail) => Report(c.ident, c.tier, status, ok, detail)
    case Raises(message) => Report(c.ident, c.tier, Unreachable, false, c.cli + " doctor raised: " + message)
  }

  function Overdue(c: Component): Report {
    Report(c.ident, c.tier, Unreachable, false, c.cli + " doctor exceeded probe deadline")
  }

  /** Everything one collection depends on: the checks that completed before the deadline, in order of completion. */
  datatype Run = Run(components: seq<Component>, outcomes: seq<Outcome>, completed: seq<nat>) {
    predicate Valid() {
      && |outcomes| == |components|
      && (forall k :: 0 <= k < |completed| ==> completed[k] < |components|)
      && (forall j, k :: 0 <= j < k < |completed| ==> completed[j] != completed[k])
    }

    /** The report due for component `i`. */
    function Due(i: nat): Report
      requires Valid() && i < |components|
    {
      if i in completed then Finished(components[i], outcomes[i]) else Overdue(components[i])
    }

    function Idents(): set<string>
      requires Valid()
    {
      set i | i in completed :: components[i].ident
    }
  }

  ghost predicate Below(ix: seq<nat>, n: nat) { forall k :: 0 <= k < |ix| ==> ix[k] < n }

  /** The indexes up to `n` whose ident has not been collected. */
  function Uncollected(r: Run, n: nat): (ix: seq<nat>)
    requires r.Valid() && n <= |r.components|
    ensures Below(ix, n)
    ensures forall i: nat :: i in ix <==> i < n && r.components[i].ident !in r.Idents()
  {
    if n == 0 then []
    else
      var before := Uncollected(r, n - 1);
      if r.components[n - 1].ident in r.Idents() then before else before + [n - 1]
  }

  /** The components up to `n` that get a report, in the order the reports are appended. */
  function AppendedUpTo(r: Run, n: nat): (ix: seq<nat>)
    requires r.Valid() && n <= |r.components|
    ensures Below(ix, |r.components|)
  {
    r.completed + Uncollected(r, n)
  }

  function Appended(r: Run): seq<nat>
    requires r.Valid()
  {
    AppendedUpTo(r, |r.components|)
  }

  /** The first component named `ident`, or 0. */
  function Position(components: seq<Component>, ident: string): (k: nat)
    ensures components != [] ==> k < |components|
    ensures (forall c :: c in components ==> c.ident != ident) ==> k == 0
    ensures forall i :: 0 <= i < |components| && components[i].ident == ident ==>
              k <= i && components[k].ident == ident
  {
    if components == [] then 0
    else if components[0].ident == ident then 0
    else if exists c :: c in components && c.ident == ident then 1 + Position(components[1..], ident)
    else 0
  }

  // ---- The collected reports

  function Key(components: seq<Component>): Report -> nat {
    (x: Report) => Position(components, x.component)
  }

  /** The report due for a component, by index. */
  function DueAt(r: Run): nat -> Report {
    (i: nat) => if r.Valid() && i < |r.components| then r.Due(i) else Report("", Plumbing, Unreachable, false, "")
  }

  function Final(r: Run): seq<Report>
    requires r.Valid()
  {
    InOrder(Map(Appended(r), DueAt(r)), Key(r.components), |r.components|)
  }

  function Indexes(n: nat): (ix: seq<nat>)
    ensures |ix| == n && Below(ix, n) && forall i :: 0 <= i < n ==> ix[i] == i
  {
    if n == 0 then [] else Indexes(n - 1) + [n - 1]
  }

  /** One report per component, in descriptor order. */
  function Expected(r: Run): seq<Report> { Map(Indexes(|r.components|), DueAt(r)) }

  /** The collector's loops; a pool for no component at all is refused. */
  method Collect(r: Run) returns (result: Option<seq<Report>>)
    requires r.Valid()
    ensures result == if r.components == [] then None else Some(Final(r))
  {
    if r.components == [] {
      return None;
    }
    var reports, collected := TakeCompleted(r);
    assert AppendedUpTo(r, 0) == r.completed;
    reports := AddOverdue(r, reports, collected);
    result := Some(InOrder(reports, Key(r.components), |r.components|));
  }

  function ReportsUpTo(r: Run, n: nat): seq<Report>
    requires r.Valid() && n <= |r.components|
  {
    Map(AppendedUpTo(r, n), DueAt(r))
  }

  lemma OneMoreLate(r: Run, i: nat)
    requires r.Valid() && i < |r.components|
    ensures ReportsUpTo(r, i + 1)
         == ReportsUpTo(r, i) + if r.components[i].ident in r.Idents() then [] else [Overdue(r.components[i])]
  {
    if r.components[i].ident !in r.Idents() {
      NotCompleted(r, i);
      assert AppendedUpTo(r, i + 1) == AppendedUpTo(r, i) + [i];
      MapOneMore<nat, Report>(AppendedUpTo(r, i), i, DueAt(r));
    } else {
      assert AppendedUpTo(r, i + 1) == AppendedUpTo(r, i);
    }
  }

  method AddOverdue(r: Run, reports: seq<Report>, collected: set<string>) returns (all: seq<Report>)
    requires r.Valid() && reports == ReportsUpTo(r, 0) && collected == r.Idents()
    ensures all == ReportsUpTo(r, |r.components|)
  {
    all := reports;
    for i := 0 to |r.components|
      invariant all == ReportsUpTo(r, i)
    {
      OneMoreLate(r, i);
      if r.components[i].ident !in collected {
        all := all + [Overdue(r.components[i])];
      }
    }
  }

  method TakeCompleted(r: Run) returns (reports: seq<Report>, collected: set<string>)
    requires r.Valid()
    ensures reports == Map(r.completed, DueAt(r)) && collected == r.Idents()
  {
    reports, collected := [], {};
    ghost var done: seq<nat> := [];
    for k := 0 to |r.completed|
      invariant done == r.completed[..k]
      invariant reports == Map(done, DueAt(r))
      invariant collected == IdentsAt(r.components, done)
    {
      var i := r.completed[k];
      assert i in r.completed;
      reports := reports + [Finished(r.components[i], r.outcomes[i])];
      collected := collected + {r.components[i].ident};
      MapOneMore(done, i, DueAt(r));
      OneMoreIdent(r.components, done, i);
      done := done + [i];
    }
    IdentsAtMeaning(r.components, r.completed);
    assert done == r.completed;
  }

  ghost function IdentsAt(components: seq<Component>, ix: seq<nat>): set<string> {
    if ix == [] then {}
    else
      var i := ix[|ix| - 1];
      IdentsAt(components, ix[..|ix| - 1]) + if i < |components| then {components[i].ident} else {}
  }

  lemma OneMoreIdent(components: seq<Component>, ix: seq<nat>, i: nat)
    requires i < |components|
    ensures IdentsAt(components, ix + [i]) == IdentsAt(components, ix) + {components[i].ident}
  {
    assert (ix + [i])[..|ix + [i]| - 1] == ix;
  }

  lemma {:induction false} IdentsAtMeaning(components: seq<Component>, ix: seq<nat>)
    requires Below(ix, |components|)
    ensures IdentsAt(components, ix) == set i | i in ix && 0 <= i < |components| :: components[i].ident
  {
    if ix != [] {
      IdentsAtMeaning(components, ix[..|ix| - 1]);
      assert ix == ix[..|ix| - 1] + [ix[|ix| - 1]];
    }
  }

  lemma NotCompleted(r: Run, i: nat)
    requires r.Valid() && i < |r.components| && r.components[i].ident !in r.Idents()
    ensures i !in r.completed
  {}

  lemma FinalPermutes(r: Run)
    requires r.Valid() && r.components != []
    ensures multiset(Final(r)) == multiset(Map(Appended(r), DueAt(r)))
    ensures |Final(r)| == |Appended(r)|
  {
    var reports := Map(Appended(r), DueAt(r));
    InOrderPermutes(reports, Key(r.components), |r.components|);
    SameSize(Final(r), reports);
  }

  lemma SameSize(s: seq<Report>, t: seq<Report>)
    ensures multiset(s) == multiset(t) ==> |s| == |t|
  {
    assert |multiset(s)| == |s| && |multiset(t)| == |t|;
  }

  lemma FinalMembers(r: Run, x: Report)
    requires r.Valid() && r.components != []
    ensures x in Final(r) <==> exists k :: 0 <= k < |Appended(r)| && x == r.Due(Appended(r)[k])
  {
    var reports := Map(Appended(r), DueAt(r));
    FinalPermutes(r);
    assert x in Final(r) <==> x in multiset(Final(r));
    assert x in reports <==> x in multiset(reports);
    assert x in reports <==> exists k :: 0 <= k < |reports| && reports[k] == x;
  }

  /** Some component with the ident of `i` gets a report. */
  lemma SomeoneSpeaks(r: Run, i: nat) returns (k: nat)
    requires r.Valid() && i < |r.components|
    ensures k < |Appended(r)| && r.components[Appended(r)[k]].ident == r.components[i].ident
  {
    if r.components[i].ident in r.Idents() {
      var j: nat :| j in r.completed && r.components[j].ident == r.components[i].ident;
      k :| 0 <= k < |r.completed| && r.completed[k] == j;
    } else {
      var late := Uncollected(r, |r.components|);
      var m :| 0 <= m < |late| && late[m] == i;
      k := |r.completed| + m;
    }
  }

  lemma DueToSomeone(r: Run, x: Report)
    requires r.Valid() && r.components != [] && x in Final(r)
    ensures exists j: nat :: j < |r.components| && x == r.Due(j)
  {
    FinalMembers(r, x);
    var k :| 0 <= k < |Appended(r)| && x == r.Due(Appended(r)[k]);
    assert Appended(r)[k] < |r.components|;
  }

  lemma AppendedInFinal(r: Run, k: nat)
    requires r.Valid() && r.components != [] && k < |Appended(r)|
    ensures r.Due(Appended(r)[k]) in Final(r)
  {
    FinalMembers(r, r.Due(Appended(r)[k]));
  }

  lemma IdentReported(r: Run, i: nat)
    requires r.Valid() && i < |r.components|
    ensures exists x :: x in Final(r) && x.component == r.components[i].ident
  {
    var k := SomeoneSpeaks(r, i);
    AppendedInFinal(r, k);
    assert r.Due(Appended(r)[k]).component == r.components[i].ident;
  }

  /** Whatever completes, no ident is left without a report, every report is the one due for some component, and they
      are in the order of the descriptors. */
  lemma EveryIdentReported(r: Run)
    requires r.Valid() && r.components != []
    ensures forall i :: 0 <= i < |r.components| ==> exists x :: x in Final(r) && x.component == r.components[i].ident
    ensures forall x :: x in Final(r) ==> exists j: nat :: j < |r.components| && x == r.Due(j)
    ensures Ascending(Final(r), Key(r.components))
  {
    InOrderAscends(ReportsUpTo(r, |r.components|), Key(r.components), |r.components|);
    forall i | 0 <= i < |r.components| ensures exists x :: x in Final(r) && x.component == r.components[i].ident {
      IdentReported(r, i);
    }
    forall x | x in Final(r) ensures exists j: nat :: j < |r.components| && x == r.Due(j) {
      DueToSomeone(r, x);
    }
  }

  // ---- One report per component

  /** No component that did not complete shares its ident with one that did. */
  ghost predicate NoneShadowed(r: Run)
    requires r.Valid()
  {
    forall i: nat :: i < |r.components| && r.components[i].ident in r.Idents() ==> i in r.completed
  }

  ghost predicate Distinct(ix: seq<nat>) { forall j, k :: 0 <= j < k < |ix| ==> ix[j] != ix[k] }

  lemma {:induction false} UncollectedDistinct(r: Run, n: nat)
    requires r.Valid() && n <= |r.components|
    ensures Distinct(Uncollected(r, n))
  {
    if n > 0 { UncollectedDistinct(r, n - 1); }
  }

  lemma AppendedDistinct(r: Run)
    requires r.Valid()
    ensures Distinct(Appended(r))
  {
    var late := Uncollected(r, |r.components|);
    UncollectedDistinct(r, |r.components|);
    forall i, j | 0 <= i < |r.completed| && 0 <= j < |late| ensures r.completed[i] != late[j] {
      assert late[j] in late;
      NotCompleted(r, late[j]);
    }
  }

  lemma NothingBelowZero(ix: seq<nat>)
    ensures ix != [] ==> !Below(ix, 0)
  {
    if ix != [] { assert ix[0] >= 0; }
  }

  /** Distinct numbers below `n` are `n` in number only when they are all of them. */
  lemma {:induction false} CountsBelow(ix: seq<nat>, n: nat)
    requires Distinct(ix) && Below(ix, n)
    ensures |ix| <= n
    ensures |ix| == n <==> forall i: nat :: i < n ==> i in ix
    decreases n
  {
    if n > 0 {
      if n - 1 in ix {
        var a: seq<nat>, b: seq<nat> := Parts<nat>(ix, n - 1);
        Removed(a, n - 1, b, n);
        CountsBelow(a + b, n - 1);
      } else {
        CountsBelow(ix, n - 1);
      }
    } else {
      NothingBelowZero(ix);
    }
  }

  lemma {:induction false} AllBelow(ix: seq<nat>, n: nat)
    requires Distinct(ix) && Below(ix, n) && |ix| == n
    ensures multiset(ix) == multiset(Indexes(n))
    decreases n
  {
    if n > 0 {
      CountsBelow(ix, n);
      var a: seq<nat>, b: seq<nat> := Parts<nat>(ix, n - 1);
      Removed(a, n - 1, b, n);
      AllBelow(a + b, n - 1);
    }
  }

  lemma Removed(a: seq<nat>, x: nat, b: seq<nat>, n: nat)
    requires Distinct(a + ([x] + b)) && Below(a + ([x] + b), n) && n == x + 1
    ensures Distinct(a + b) && Below(a + b, n - 1)
    ensures forall i :: i in a + ([x] + b) <==> i == x || i in a + b
    ensures multiset(a + ([x] + b)) == multiset(a + b) + multiset{x}
  {
    var whole := a + ([x] + b);
    assert forall k :: 0 <= k < |a| ==> whole[k] == a[k];
    assert whole[|a|] == x;
    assert forall k :: 0 <= k < |b| ==> whole[|a| + 1 + k] == b[k];
  }

  lemma AppendedMembers(r: Run)
    requires r.Valid()
    ensures NoneShadowed(r) <==> forall i: nat :: i < |r.components| ==> i in Appended(r)
  {
    forall i: nat | i < |r.components|
      ensures i in Appended(r) <==> i in r.completed || r.components[i].ident !in r.Idents()
    {
      assert i in Appended(r) <==> i in r.completed || i in Uncollected(r, |r.components|);
    }
  }

  /** There is exactly one report per component exactly when no unfinished check shares the ident of a finished one. */
  lemma OneReportEachIffNoneShadowed(r: Run)
    requires r.Valid() && r.components != []
    ensures |Final(r)| <= |r.components|
    ensures |Final(r)| == |r.components| <==> NoneShadowed(r)
    ensures multiset(Final(r)) == multiset(Expected(r)) <==> NoneShadowed(r)
  {
    var n := |r.components|;
    FinalPermutes(r);
    AppendedDistinct(r);
    AppendedMembers(r);
    CountsBelow(Appended(r), n);
    if NoneShadowed(r) {
      AllBelow(Appended(r), n);
      MapReordered(Appended(r), Indexes(n), DueAt(r));
    }
    SameSize(Final(r), Expected(r));
  }

  ghost predicate Unique(components: seq<Component>) {
    forall i, j :: 0 <= i < j < |components| ==> components[i].ident != components[j].ident
  }

  lemma {:induction false} PositionOf(components: seq<Component>, i: nat)
    requires Unique(components) && i < |components|
    ensures Position(components, components[i].ident) == i
  {}

  function Pos(r: Run): nat -> nat { After(DueAt(r), Key(r.components)) }

  lemma PosIsIndex(r: Run, i: nat)
    requires r.Valid() && Unique(r.components) && i < |r.components|
    ensures Pos(r)(i) == i
  {
    PositionOf(r.components, i);
  }

  lemma {:induction false} OwnBucket(ix: seq<nat>, key: nat -> nat, n: nat, k: nat)
    requires Distinct(ix) && Below(ix, n) && forall i: nat :: i < n ==> key(i) == i
    ensures Bucket(ix, key, k) == if k in ix then [k] else []
    decreases |ix|
  {
    if ix != [] {
      var before, last := ix[..|ix| - 1], ix[|ix| - 1];
      assert ix == before + [last];
      OwnBucket(before, key, n, k);
    }
  }

  lemma {:induction false} OwnPlaces(ix: seq<nat>, key: nat -> nat, n: nat, m: nat)
    requires Distinct(ix) && Below(ix, n) && (forall i: nat :: i < n ==> key(i) == i)
    requires m <= n && forall i: nat :: i < n ==> i in ix
    ensures InOrder(ix, key, m) == Indexes(m)
  {
    if m > 0 {
      OwnPlaces(ix, key, n, m - 1);
      OwnBucket(ix, key, n, m - 1);
    }
  }

  lemma EachInItsPlace(r: Run, i: nat)
    requires r.Valid() && Unique(r.components) && i < |r.components|
    ensures Pos(r)(i) == i && i in Appended(r)
  {
    PosIsIndex(r, i);
    var k := SomeoneSpeaks(r, i);
  }

  lemma FinalIsExpected(r: Run)
    requires r.Valid() && Unique(r.components)
    ensures Final(r) == Expected(r)
  {
    var n := |r.components|;
    AppendedDistinct(r);
    forall i: nat | i < n ensures Pos(r)(i) == i && i in Appended(r) { EachInItsPlace(r, i); }
    OwnPlaces(Appended(r), Pos(r), n, n);
    InOrderOfMap(Appended(r), DueAt(r), Key(r.components), n);
  }

  /** Where an ident is shared, the first to finish can leave the other without a report. */
  lemma SharedIdentLosesOne(components: seq<Component>, i: nat, j: nat) returns (r: Run)
    requires i < j < |components| && components[i].ident == components[j].ident
    ensures r.components == components && r.Valid() && |Final(r)| < |components|
  {
    r := Run(components, seq(|components|, _ => Raises("")), [i]);
    assert i in r.completed && j !in r.completed;
    assert components[j].ident in r.Idents();
    OneReportEachIffNoneShadowed(r);
  }

  /** Unique idents are exactly what it takes for every order of completion and every deadline to leave one report per
      component, in descriptor order. */
  lemma OneReportEachIffUnique(components: seq<Component>)
    requires components != []
    ensures Unique(components) <==> forall r: Run :: r.components == components && r.Valid() ==> Final(r) == Expected(r)
  {
    if Unique(components) {
      forall r: Run | r.components == components && r.Valid() ensures Final(r) == Expected(r) {
        FinalIsExpected(r);
      }
    } else {
      var i, j :| 0 <= i < j < |components| && components[i].ident == components[j].ident;
      var r := SharedIdentLosesOne(components, i, j);
      assert |Final(r)| != |Expected(r)|;
    }
  }

  // ---- The verdict on what was collected

  /** The check of component `i` finished before the deadline with a report the profile can accept. */
  ghost predicate Delivered(r: Run, needed: set<string>, i: nat)
    requires r.Valid() && i < |r.components|
  {
    && i in r.completed && r.outcomes[i].Yields?
    && var status := r.outcomes[i].status;
       && status != Unreachable && status != Failed
       && (r.components[i].ident in needed ==> status != Absent && status != NotConfigured)
  }

  function IdentsOf(components: seq<Component>): set<string> { set c | c in components :: c.ident }

  lemma ExpectedNames(r: Run)
    requires r.Valid()
    ensures Reported(Expected(r)) == IdentsOf(r.components)
  {
    var reports := Expected(r);
    forall name | name in IdentsOf(r.components) ensures name in Reported(reports) {
      var i :| 0 <= i < |r.components| && r.components[i].ident == name;
      assert reports[i] in reports;
    }
  }

  /** A report that the verdict accepts. */
  ghost predicate Acceptable(x: Report, needed: set<string>) {
    !Unhealthy(x.status) && (x.component in needed ==> !NotHere(x.status))
  }

  lemma DeliveredIffAcceptable(r: Run, needed: set<string>, i: nat)
    requires r.Valid() && i < |r.components|
    ensures Delivered(r, needed, i) <==> Acceptable(Expected(r)[i], needed)
  {}

  lemma VerdictByReport(reports: seq<Report>, needed: set<string>)
    ensures SuiteOk(reports, Some(needed)) <==>
            (forall i: nat :: i < |reports| ==> Acceptable(reports[i], needed)) && needed <= Reported(reports)
  {
    ScopedVerdict(reports, needed);
    forall i: nat | i < |reports| ensures reports[i] in reports {}
  }

  /** The verdict is green exactly when every check finished in time, none raised or found its component broken, and
      everything required is there: no deadline and no exception can turn a verdict green. */
  lemma GreenIffAllDelivered(r: Run, needed: set<string>)
    requires r.Valid() && r.components != [] && Unique(r.components)
    ensures SuiteOk(Final(r), Some(needed)) <==>
            (forall i: nat :: i < |r.components| ==> Delivered(r, needed, i)) && needed <= IdentsOf(r.components)
  {
    FinalIsExpected(r);
    VerdictByReport(Expected(r), needed);
    ExpectedNames(r);
    forall i: nat | i < |r.components| ensures Delivered(r, needed, i) <==> Acceptable(Expected(r)[i], needed) {
      DeliveredIffAcceptable(r, needed, i);
    }
  }

  /** What a report says of its check: the status it gave, or that it raised, or that it was too late. */
  ghost predicate Tells(x: Report, c: Component, completed: bool, outcome: Outcome) {
    && x.component == c.ident && x.tier == c.tier
    && (completed && outcome.Yields? ==>
          x.status == outcome.status && x.ok == outcome.ok && x.detail == outcome.detail)
    && (completed && outcome.Raises? ==>
          x.status == Unreachable && !x.ok && x.detail == c.cli + " doctor raised: " + outcome.message)
    && (!completed ==> x.status == Unreachable && !x.ok && x.detail == c.cli + " doctor exceeded probe deadline")
  }

  /** With unique idents, the reports tell of the components one by one. */
  lemma ReportsTell(r: Run)
    requires r.Valid() && r.components != [] && Unique(r.components)
    ensures |Final(r)| == |r.components|
    ensures forall i: nat :: i < |r.components| ==>
              Tells(Final(r)[i], r.components[i], i in r.completed, r.outcomes[i])
  {
    FinalIsExpected(r);
    forall i: nat | i < |r.components|
      ensures Tells(Expected(r)[i], r.components[i], i in r.completed, r.outcomes[i])
    {}
  }

  /** Two components of one ident: the one that did not finish is lost, and the verdict is green without it. */
  lemma SharedIdentLosesAReport() returns (r: Run)
    ensures r.Valid() && |r.components| == 2 && r.components[0].ident == r.components[1].ident
    ensures 1 !in r.completed && |Final(r)| == 1 && SuiteOk(Final(r), None)
  {
    var c := Component("regista", Spine, "regista");
    r := Run([c, c], [Yields(Ok, true, ""), Raises("")], [0]);
    OnlyFirstAppended(r);
    FinalPermutes(r);
    FinalMembers(r, Final(r)[0]);
    assert Final(r)[0].status == Ok;
  }

  lemma OnlyFirstAppended(r: Run)
    requires r.Valid() && |r.components| == 2 && r.components[0].ident == r.components[1].ident && r.completed == [0]
    ensures Appended(r) == [0]
  {
    assert 0 in r.completed;
    assert Uncollected(r, 2) == Uncollected(r, 1) == [];
  }
}
