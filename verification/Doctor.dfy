/** The doctor's verdict over component reports, and the profile it is scoped by. */
module Doctor {
  import opened PyText
  import opened Sorting

  datatype Tier = Spine | Face | Plumbing

  datatype Status = Ok | Degraded | Remote | Absent | NotConfigured | Unreachable | Failed

  datatype Report = Report(component: string, tier: Tier, status: Status, ok: bool, detail: string)

  datatype Profile = A | B | C

  const PROVENANCE_CORE := {"regista", "agent-notes", "agent-provenance"}
  const TEAM_WORKFLOW := PROVENANCE_CORE + {"dossier"}
  const FULL_SUITE := TEAM_WORKFLOW + {"agent-capability-broker", "agent-wake"}

  function Requirements(p: Profile): set<string> {
    match p
    case A => PROVENANCE_CORE
    case B => TEAM_WORKFLOW
    case C => FULL_SUITE
  }

  function Rank(p: Profile): nat {
    match p
    case A => 0
    case B => 1
    case C => 2
  }

  /** Installed but broken. */
  predicate Unhealthy(s: Status) { s.Unreachable? || s.Failed? }

  predicate NotHere(s: Status) { s.Absent? || s.NotConfigured? }

  predicate Counts(s: Status, broken: bool) { if broken then Unhealthy(s) else NotHere(s) }

  function Reported(reports: seq<Report>): set<string> { set r | r in reports :: r.component }

  /** The verdict; `required` is None where no profile is asserted. */
  predicate SuiteOk(reports: seq<Report>, required: Option<set<string>>) {
    && (forall r :: r in reports ==> !Unhealthy(r.status))
    && match required
       case Some(needed) =>
         && !(exists r :: r in reports && r.component in needed && NotHere(r.status))
         && needed - Reported(reports) == {}
       case None =>
         && !(exists r :: r in reports && r.tier.Spine? && r.status.Absent?)
         && !(forall r :: r in reports ==> NotHere(r.status))
  }

  datatype Scope = Scope(required: seq<string>, inProfileFailures: seq<string>, outOfProfileFailures: seq<string>,
                         outOfProfileAbsent: seq<string>)

  /** The components of the reports that fall outside `needed` and are broken, or are not here. */
  function Outside(reports: seq<Report>, needed: set<string>, broken: bool): (r: seq<string>)
    ensures forall name :: name in r <==>
              name !in needed
              && exists q :: q in reports && q.component == name && Counts(q.status, broken)
  {
    if reports == [] then []
    else
      var q := reports[0];
      var rest := Outside(reports[1..], needed, broken);
      assert reports == [q] + reports[1..];
      if q.component !in needed && Counts(q.status, broken) then [q.component] + rest
      else rest
  }

  /** The required components that are broken, not here, or not reported. */
  function Inside(reports: seq<Report>, needed: set<string>): set<string> {
    var unavailable := set r | r in reports && (Unhealthy(r.status) || NotHere(r.status)) :: r.component;
    (unavailable * needed) + (needed - Reported(reports))
  }

  function ProfileScope(reports: seq<Report>, p: Profile): Scope {
    var needed := Requirements(p);
    Scope(Sorted(needed), Sorted(Inside(reports, needed)),
          SortedList(Outside(reports, needed, true)), SortedList(Outside(reports, needed, false)))
  }

  /** No required component is missing, absent, or unconfigured. */
  ghost predicate Deployed(reports: seq<Report>, needed: set<string>) {
    needed <= Reported(reports) && forall r :: r in reports && r.component in needed ==> !NotHere(r.status)
  }

  ghost predicate NoneBroken(reports: seq<Report>) { forall r :: r in reports ==> !Unhealthy(r.status) }

  lemma ScopedVerdict(reports: seq<Report>, needed: set<string>)
    ensures SuiteOk(reports, Some(needed)) <==> NoneBroken(reports) && Deployed(reports, needed)
  {
    var missing := needed - Reported(reports);
    if missing == {} {
      forall name | name in needed ensures name in Reported(reports) {
        assert name !in missing;
      }
    }
  }

  lemma InsideEmpty(reports: seq<Report>, needed: set<string>)
    ensures Inside(reports, needed) == {} <==>
            Deployed(reports, needed) && forall r :: r in reports && r.component in needed ==> !Unhealthy(r.status)
  {
    var inside := Inside(reports, needed);
    if inside == {} {
      forall name ensures name !in inside {}
      forall r | r in reports && r.component in needed ensures !Unhealthy(r.status) && !NotHere(r.status) {
        assert r.component !in inside;
      }
      forall name | name in needed ensures name in Reported(reports) {
        assert name !in inside;
      }
    } else {
      var name :| name in inside;
    }
  }

  lemma OutsideEmpty(reports: seq<Report>, needed: set<string>)
    ensures Outside(reports, needed, true) == [] <==>
            forall r :: r in reports && r.component !in needed ==> !Unhealthy(r.status)
  {
    var names := Outside(reports, needed, true);
    if names != [] {
      assert names[0] in names;
    } else {
      forall r | r in reports && r.component !in needed ensures !Unhealthy(r.status) {
        assert r.component !in names;
      }
    }
  }

  lemma SortedListEmpty(s: seq<string>)
    ensures SortedList(s) == [] <==> s == []
  {
    if s != [] { assert s[0] in SortedList(s); }
  }

  /** The verdict and the scope printed beside it never disagree. */
  lemma VerdictIffNoFailureListed(reports: seq<Report>, p: Profile)
    ensures SuiteOk(reports, Some(Requirements(p))) <==>
            var scope := ProfileScope(reports, p);
            scope.inProfileFailures == [] && scope.outOfProfileFailures == []
  {
    var needed := Requirements(p);
    ScopedVerdict(reports, needed);
    InsideEmpty(reports, needed);
    OutsideEmpty(reports, needed);
    SortedListEmpty(Outside(reports, needed, true));
    assert Sorted(Inside(reports, needed)) == [] <==> Inside(reports, needed) == {};
  }

  predicate Listed(r: Report, needed: set<string>, broken: bool, name: string) {
    r.component == name && name !in needed && Counts(r.status, broken)
  }

  /** Which reports put a component on a list outside the profile. */
  function Listing(reports: seq<Report>, needed: set<string>, broken: bool, name: string): set<nat> {
    set i: nat | i < |reports| && Listed(reports[i], needed, broken, name)
  }

  lemma ListingGrows(reports: seq<Report>, last: Report, needed: set<string>, broken: bool, name: string)
    ensures |Listing(reports + [last], needed, broken, name)| == |Listing(reports, needed, broken, name)|
            + if Listed(last, needed, broken, name) then 1 else 0
  {
    var before, after := Listing(reports, needed, broken, name), Listing(reports + [last], needed, broken, name);
    assert forall i: nat :: i < |reports| ==> (reports + [last])[i] == reports[i];
    assert after == before + if Listed(last, needed, broken, name) then {|reports|} else {};
  }

  lemma {:induction false} OutsideCounts(reports: seq<Report>, needed: set<string>, broken: bool, name: string)
    ensures multiset(Outside(reports, needed, broken))[name] == |Listing(reports, needed, broken, name)|
  {
    if reports != [] {
      var n := |reports| - 1;
      OutsideCounts(reports[..n], needed, broken, name);
      OutsideLast(reports[..n], reports[n], needed, broken);
      assert reports == reports[..n] + [reports[n]];
      ListingGrows(reports[..n], reports[n], needed, broken, name);
    }
  }

  lemma {:induction false} OutsideLast(reports: seq<Report>, last: Report, needed: set<string>, broken: bool)
    ensures Outside(reports + [last], needed, broken) ==
            Outside(reports, needed, broken) + Outside([last], needed, broken)
  {
    if reports == [] {
      assert reports + [last] == [last];
    } else {
      assert (reports + [last])[1..] == reports[1..] + [last];
      OutsideLast(reports[1..], last, needed, broken);
    }
  }

  /** The two lists outside the profile are sorted, and name each component once for each of its reports that counts. */
  lemma OutsideListsAreSorted(reports: seq<Report>, p: Profile, name: string)
    ensures var scope, needed := ProfileScope(reports, p), Requirements(p);
            && NonDescending(scope.outOfProfileFailures) && NonDescending(scope.outOfProfileAbsent)
            && multiset(scope.outOfProfileFailures)[name] == |Listing(reports, needed, true, name)|
            && multiset(scope.outOfProfileAbsent)[name] == |Listing(reports, needed, false, name)|
  {
    var needed := Requirements(p);
    SortedListSorts(Outside(reports, needed, true));
    SortedListSorts(Outside(reports, needed, false));
    OutsideCounts(reports, needed, true, name);
    OutsideCounts(reports, needed, false, name);
  }

  // ---- The profile a host looks like

  /** The last report of each component. */
  function Statuses(reports: seq<Report>): map<string, Status> {
    if reports == [] then map[]
    else
      var n := |reports| - 1;
      Statuses(reports[..n])[reports[n].component := reports[n].status]
  }

  function InstalledIdents(statuses: map<string, Status>): set<string> {
    set name | name in statuses && !NotHere(statuses[name])
  }

  function ProfileFor(idents: set<string>): Option<Profile> {
    if Requirements(C) <= idents then Some(C)
    else if Requirements(B) <= idents then Some(B)
    else if Requirements(A) <= idents then Some(A)
    else None
  }

  function Detected(reports: seq<Report>): Option<Profile> { ProfileFor(InstalledIdents(Statuses(reports))) }

  lemma RequirementsGrow(p: Profile, q: Profile)
    ensures Rank(p) <= Rank(q) <==> Requirements(p) <= Requirements(q)
  {
    assert "dossier" in Requirements(B) && "dossier" !in Requirements(A);
    assert "agent-wake" in Requirements(C) && "agent-wake" !in Requirements(B);
  }

  lemma DetectedCovers(idents: set<string>, p: Profile)
    ensures Requirements(p) <= idents <==> ProfileFor(idents).Some? && Rank(p) <= Rank(ProfileFor(idents).value)
  {
    RequirementsGrow(A, B);
    RequirementsGrow(B, C);
    RequirementsGrow(A, C);
  }

  ghost predicate OnePerComponent(reports: seq<Report>) {
    forall i, j :: 0 <= i < j < |reports| ==> reports[i].component != reports[j].component
  }

  lemma {:induction false} StatusesMeaning(reports: seq<Report>)
    ensures Statuses(reports).Keys == Reported(reports)
    ensures forall name :: name in Statuses(reports) ==>
              exists r :: r in reports && r.component == name && r.status == Statuses(reports)[name]
  {
    if reports != [] {
      var n := |reports| - 1;
      StatusesMeaning(reports[..n]);
      assert reports == reports[..n] + [reports[n]];
    }
  }

  lemma DeployedIsInstalled(reports: seq<Report>, needed: set<string>)
    ensures Deployed(reports, needed) ==> needed <= InstalledIdents(Statuses(reports))
    ensures OnePerComponent(reports) && needed <= InstalledIdents(Statuses(reports)) ==> Deployed(reports, needed)
  {
    var statuses := Statuses(reports);
    StatusesMeaning(reports);
    if Deployed(reports, needed) {
      forall name | name in needed ensures name in InstalledIdents(statuses) {
        var r :| r in reports && r.component == name && r.status == statuses[name];
      }
    }
    if OnePerComponent(reports) && needed <= InstalledIdents(statuses) {
      forall r | r in reports && r.component in needed ensures !NotHere(r.status) {
        var q :| q in reports && q.component == r.component && q.status == statuses[r.component];
        assert q == r;
      }
    }
  }

  /** A profile's verdict is green exactly when nothing is broken and the host looks like that profile or a broader
      one. */
  lemma GreenIffDetected(reports: seq<Report>, p: Profile)
    ensures SuiteOk(reports, Some(Requirements(p))) ==>
              Detected(reports).Some? && Rank(p) <= Rank(Detected(reports).value)
    ensures OnePerComponent(reports) ==>
              (SuiteOk(reports, Some(Requirements(p))) <==>
               NoneBroken(reports) && Detected(reports).Some? && Rank(p) <= Rank(Detected(reports).value))
  {
    ScopedVerdict(reports, Requirements(p));
    DeployedIsInstalled(reports, Requirements(p));
    DetectedCovers(InstalledIdents(Statuses(reports)), p);
  }

  /** Asserting a narrower profile than the detected one hides no failure. */
  lemma NothingHidden(reports: seq<Report>, p: Profile)
    requires OnePerComponent(reports) && SuiteOk(reports, Some(Requirements(p)))
    ensures Detected(reports).Some? && SuiteOk(reports, Some(Requirements(Detected(reports).value)))
  {
    GreenIffDetected(reports, p);
    GreenIffDetected(reports, Detected(reports).value);
  }

  /** Where the profile requires every spine component, its green verdict is green without a profile as well. */
  lemma ProfileIsStricter(reports: seq<Report>, p: Profile)
    requires SuiteOk(reports, Some(Requirements(p)))
    requires forall r :: r in reports && r.tier.Spine? ==> r.component in Requirements(p)
    ensures SuiteOk(reports, None)
  {
    ScopedVerdict(reports, Requirements(p));
    assert "regista" in Requirements(p);
    var r :| r in reports && r.component == "regista";
  }

  // ---- Status by status

  /** Some report finds the component broken. */
  ghost predicate IsDown(reports: seq<Report>, name: string) {
    exists r :: r in reports && r.component == name && (r.status == Unreachable || r.status == Failed)
  }

  /** Some report finds it missing or not set up. */
  ghost predicate IsMissing(reports: seq<Report>, name: string) {
    exists r :: r in reports && r.component == name && (r.status == Absent || r.status == NotConfigured)
  }

  /** It is reported, and every report of it finds it working, if only in part or elsewhere. */
  ghost predicate InPlace(reports: seq<Report>, name: string) {
    && (exists r :: r in reports && r.component == name)
    && forall r :: r in reports && r.component == name ==>
         r.status == Ok || r.status == Degraded || r.status == Remote
  }

  ghost predicate NothingDown(reports: seq<Report>) {
    forall r :: r in reports ==> r.status != Unreachable && r.status != Failed
  }

  lemma InPlaceMeaning(reports: seq<Report>, needed: set<string>)
    requires NothingDown(reports)
    ensures Deployed(reports, needed) <==> forall name :: name in needed ==> InPlace(reports, name)
  {
    if Deployed(reports, needed) {
      forall name | name in needed ensures InPlace(reports, name) {
        assert name in Reported(reports);
      }
    }
  }

  /** With a profile, any broken component turns the verdict red, and so does one of these that is not in place. */
  lemma ProfileVerdict(reports: seq<Report>, p: Profile)
    ensures SuiteOk(reports, Some(Requirements(p))) <==>
            && NothingDown(reports)
            && InPlace(reports, "regista") && InPlace(reports, "agent-notes") && InPlace(reports, "agent-provenance")
            && (p == B || p == C ==> InPlace(reports, "dossier"))
            && (p == C ==> InPlace(reports, "agent-capability-broker") && InPlace(reports, "agent-wake"))
  {
    ScopedVerdict(reports, Requirements(p));
    if NothingDown(reports) {
      InPlaceMeaning(reports, Requirements(p));
    }
  }

  /** Without one, it is red for anything broken, for an absent spine component, and where nothing at all works. */
  lemma UnscopedVerdict(reports: seq<Report>)
    ensures SuiteOk(reports, None) <==>
            && NothingDown(reports)
            && (forall r :: r in reports && r.tier == Spine ==> r.status != Absent)
            && exists r :: r in reports && (r.status == Ok || r.status == Degraded || r.status == Remote)
  {}

  lemma InsideMeaning(reports: seq<Report>, needed: set<string>, name: string)
    ensures name in Inside(reports, needed) <==> name in needed && !InPlace(reports, name)
  {
    assert name in Reported(reports) <==> exists r :: r in reports && r.component == name;
  }

  lemma OutsideMeaning(reports: seq<Report>, needed: set<string>, name: string)
    ensures name in Outside(reports, needed, true) <==> name !in needed && IsDown(reports, name)
    ensures name in Outside(reports, needed, false) <==> name !in needed && IsMissing(reports, name)
  {}

  /** What the three lists of a profile name. */
  lemma ScopeMeaning(reports: seq<Report>, p: Profile, name: string)
    ensures var scope, needed := ProfileScope(reports, p), Requirements(p);
            && (name in scope.required <==> name in needed)
            && (name in scope.outOfProfileFailures <==> name !in needed && IsDown(reports, name))
            && (name in scope.outOfProfileAbsent <==> name !in needed && IsMissing(reports, name))
            && (name in scope.inProfileFailures <==> name in needed && !InPlace(reports, name))
  {
    InsideMeaning(reports, Requirements(p), name);
    OutsideMeaning(reports, Requirements(p), name);
  }
}
