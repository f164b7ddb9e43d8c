/** What the genesis gate admits, stated on reports without any order of probes, checks, or project rows. */
module GateSpec {
  import opened PyText
  import opened GenesisGate
  import opened Bags

  /** A check with its project rows as a bag; `rows` is None where the field is no list. */
  datatype Check = NotAnObject | Check(fields: Fields, rows: Option<multiset<Json>>)

  datatype ProbeBag = ProbeBag(component: Json, status: Status, checks: multiset<Check>)

  datatype ReportBag = ReportBag(ok: bool, probes: multiset<ProbeBag>)

  function CheckOf(check: Json): Check {
    if !check.Obj? then NotAnObject
    else
      var projects := GenesisGate.Get(check.fields, "projects");
      Check(check.fields - {"projects"}, if projects.List? then Some(multiset(projects.items)) else None)
  }

  function ChecksOf(checks: seq<Json>): multiset<Check> { Bag(checks, CheckOf) }

  function ProbeOf(p: Probe): ProbeBag { ProbeBag(p.component, p.status, ChecksOf(p.checks)) }

  function ProbesOf(probes: seq<Probe>): multiset<ProbeBag> { Bag(probes, ProbeOf) }

  function BagOf(r: Report): ReportBag { ReportBag(r.ok, ProbesOf(r.probes)) }

  // ---- The specification

  function IdOf(c: Check): Json { if c.NotAnObject? then Null else Get(c.fields, "id") }

  /** Every component has a name of its own. */
  ghost predicate ComponentsDistinct(probes: multiset<ProbeBag>) {
    && (forall p :: p in probes ==> NamesComponent(p.component) && probes[p] == 1)
    && (forall p, q :: p in probes && q in probes && p.component == q.component ==> p == q)
  }

  ghost predicate ChecksWellFormed(p: ProbeBag) {
    && p.component.Str?
    && (forall c :: c in p.checks ==> c.Check? && CheckOk(p.component.s, c.fields) && p.checks[c] == 1)
    && (forall c, d :: c in p.checks && d in p.checks && IdOf(c) == IdOf(d) ==> c == d)
  }

  ghost predicate Has(p: ProbeBag, id: Json) { exists c :: c in p.checks && IdOf(c) == id }

  /** No id is used by two components. */
  ghost predicate IdsDisjoint(probes: multiset<ProbeBag>) {
    forall p, q, id: Json :: p in probes && q in probes && id.Str? && Has(p, id) && Has(q, id) ==> p == q
  }

  ghost predicate ContractHolds(probes: multiset<ProbeBag>) {
    ComponentsDistinct(probes) && (forall p :: p in probes ==> ChecksWellFormed(p)) && IdsDisjoint(probes)
  }

  /** Exactly one row of the project, and that one an empty population with a snapshot. */
  ghost predicate OneEmptyRow(rows: multiset<Json>, project: string) {
    exists row :: IsOnlyRow(rows, Some(project), row) && RowOk(row.fields)
  }

  ghost predicate Measured(c: Check, store: Option<string>, project: Option<string>) {
    && c.Check? && Get(c.fields, "status") == Str("measured") && IsEmptyList(Get(c.fields, "errors"))
    && store.Some? && Get(c.fields, "store_fingerprint") == Str(store.value)
    && project.Some? && c.rows.Some? && OneEmptyRow(c.rows.value, project.value)
  }

  /** The check `id` reported by its owner. */
  ghost predicate Reports(probes: multiset<ProbeBag>, owner: string, id: string, p: ProbeBag, c: Check) {
    p in probes && p.component == Str(owner) && c in p.checks && IdOf(c) == Str(id)
  }

  ghost predicate GateOpen(r: ReportBag, store: Option<string>, project: Option<string>) {
    && r.ok && r.probes != multiset{} && (forall p :: p in r.probes ==> p.status == Pass)
    && ContractHolds(r.probes)
    && StoreMeasured(r.probes, store, project)
    && forall q :: q in REQUIRED ==> RequirementMet(r.probes, q)
  }

  ghost predicate StoreMeasured(probes: multiset<ProbeBag>, store: Option<string>, project: Option<string>) {
    exists p, c :: Reports(probes, "regista", MEASUREMENTS, p, c) && Measured(c, store, project)
  }

  ghost predicate RequirementMet(probes: multiset<ProbeBag>, q: Required) {
    exists p, c :: Reports(probes, q.owner, q.id, p, c) && c.Check? && Satisfies(c.fields, q.id)
  }

  // ---- Members of the bags

  lemma ChecksMembers(checks: seq<Json>, c: Check)
    ensures c in ChecksOf(checks) <==> exists j :: j in checks && CheckOf(j) == c
  {
    BagMembers(checks, CheckOf, c);
  }

  lemma ProbesMembers(probes: seq<Probe>, b: ProbeBag)
    ensures b in ProbesOf(probes) <==> exists p :: p in probes && ProbeOf(p) == b
  {
    BagMembers(probes, ProbeOf, b);
  }

  lemma FieldsKept(j: Json, key: string)
    requires j.Obj? && key != "projects"
    ensures Get(CheckOf(j).fields, key) == Get(j.fields, key)
  {}

  lemma CheckOkKept(component: string, j: Json)
    requires j.Obj?
    ensures CheckOk(component, CheckOf(j).fields) <==> CheckOk(component, j.fields)
  {
    FieldsKept(j, "id");
    FieldsKept(j, "status");
  }

  lemma SatisfiesKept(j: Json, id: string)
    requires j.Obj?
    ensures Satisfies(CheckOf(j).fields, id) <==> Satisfies(j.fields, id)
  {
    FieldsKept(j, "status");
    FieldsKept(j, "claim");
    FieldsKept(j, "basis");
    FieldsKept(j, "paths_proven");
    FieldsKept(j, "shared_boundary_consumers");
    FieldsKept(j, "excluded_paths");
    FieldsKept(j, "exclusion_reason");
  }

  // ---- The contract loops compute the contract

  lemma IdsAreKept(checks: seq<Json>, id: string)
    ensures id in IdsOf(checks) <==> exists c :: c in ChecksOf(checks) && IdOf(c) == Str(id)
  {
    if id in IdsOf(checks) {
      var j :| j in checks && j.Obj? && GenesisGate.Get(j.fields, "id") == Str(id);
      FieldsKept(j, "id");
      ChecksMembers(checks, CheckOf(j));
    }
    if c :| c in ChecksOf(checks) && IdOf(c) == Str(id) {
      ChecksMembers(checks, c);
      var j :| j in checks && CheckOf(j) == c;
      FieldsKept(j, "id");
    }
  }

  ghost predicate NoneSeen(seen: set<string>, checks: seq<Json>) { forall id :: id in seen ==> id !in IdsOf(checks) }

  ghost predicate SharesNoId(probes: multiset<ProbeBag>, y: ProbeBag) {
    forall p, id: Json :: p in probes && id.Str? && Has(p, id) ==> !Has(y, id)
  }

  /** The checks of one component are well formed among themselves. */
  ghost predicate BagOk(component: string, checks: multiset<Check>) {
    && (forall c :: c in checks ==> c.Check? && CheckOk(component, c.fields) && checks[c] == 1)
    && (forall c, d :: c in checks && d in checks && IdOf(c) == IdOf(d) ==> c == d)
  }

  lemma BagOkGrows(component: string, checks: multiset<Check>, x: Check)
    requires BagOk(component, checks) && x.Check? && CheckOk(component, x.fields)
    requires forall c :: c in checks ==> IdOf(c) != IdOf(x)
    ensures BagOk(component, checks + multiset{x})
  {
    var more := checks + multiset{x};
    assert x !in checks;
    forall c | c in more ensures c.Check? && CheckOk(component, c.fields) && more[c] == 1 {
      if c != x { assert c in checks; }
    }
  }

  lemma BagOkShrinks(component: string, checks: multiset<Check>, x: Check)
    requires BagOk(component, checks + multiset{x})
    ensures BagOk(component, checks) && x.Check? && CheckOk(component, x.fields)
    ensures forall c :: c in checks ==> IdOf(c) != IdOf(x)
  {
    var more := checks + multiset{x};
    assert x in more && more[x] == checks[x] + 1;
    forall c | c in checks ensures c in more && c != x && checks[c] == 1 {
      assert c in more;
    }
  }

  /** One identified check more. */
  lemma BagStep(component: string, before: seq<Json>, last: Json)
    requires last.Obj? && CheckOk(component, last.fields)
    ensures BagOk(component, ChecksOf(before) + multiset{CheckOf(last)}) <==>
            BagOk(component, ChecksOf(before)) && GenesisGate.Get(last.fields, "id").s !in IdsOf(before)
  {
    var x, id := CheckOf(last), GenesisGate.Get(last.fields, "id").s;
    CheckOkKept(component, last);
    FieldsKept(last, "id");
    IdsAreKept(before, id);
    if BagOk(component, ChecksOf(before) + multiset{x}) {
      BagOkShrinks(component, ChecksOf(before), x);
    } else if BagOk(component, ChecksOf(before)) && id !in IdsOf(before) {
      BagOkGrows(component, ChecksOf(before), x);
    }
  }

  lemma SeenStep(before: seq<Json>, last: Json, seen: set<string>)
    requires last.Obj? && GenesisGate.Get(last.fields, "id").Str?
    ensures NoneSeen(seen, before + [last]) <==> NoneSeen(seen, before) && GenesisGate.Get(last.fields, "id").s !in seen
  {
    var checks := before + [last];
    assert last in checks && forall c :: c in checks <==> c in before || c == last;
    assert IdsOf(checks) == IdsOf(before) + {GenesisGate.Get(last.fields, "id").s};
  }

  lemma {:induction false} ChecksOkMeaning(component: string, checks: seq<Json>, seen: set<string>)
    ensures ChecksOk(component, checks, seen) <==> BagOk(component, ChecksOf(checks)) && NoneSeen(seen, checks)
    decreases |checks|
  {
    if checks != [] {
      var before, last := checks[..|checks| - 1], checks[|checks| - 1];
      assert checks == before + [last];
      ChecksOkMeaning(component, before, seen);
      if last.Obj? && CheckOk(component, last.fields) {
        BagStep(component, before, last);
        SeenStep(before, last, seen);
      } else {
        BrokenCheckShows(component, ChecksOf(before), last);
      }
    }
  }

  lemma BrokenCheckShows(component: string, checks: multiset<Check>, last: Json)
    requires !last.Obj? || !CheckOk(component, last.fields)
    ensures !BagOk(component, checks + multiset{CheckOf(last)})
  {
    assert CheckOf(last) in checks + multiset{CheckOf(last)};
    if last.Obj? {
      CheckOkKept(component, last);
    }
  }

  lemma AllIdsAreKept(probes: seq<Probe>, id: string)
    ensures id in AllIds(probes) <==> exists p :: p in ProbesOf(probes) && Has(p, Str(id))
  {
    if id in AllIds(probes) {
      var p :| p in probes && id in IdsOf(p.checks);
      IdsAreKept(p.checks, id);
      ProbesMembers(probes, ProbeOf(p));
      assert Has(ProbeOf(p), Str(id));
    }
    if b :| b in ProbesOf(probes) && Has(b, Str(id)) {
      ProbesMembers(probes, b);
      var p :| p in probes && ProbeOf(p) == b;
      IdsAreKept(p.checks, id);
    }
  }

  ghost predicate NewComponent(probes: multiset<ProbeBag>, y: ProbeBag) {
    NamesComponent(y.component) && forall p :: p in probes ==> p.component != y.component
  }

  lemma ComponentsGrow(probes: multiset<ProbeBag>, y: ProbeBag)
    requires ComponentsDistinct(probes) && NewComponent(probes, y)
    ensures ComponentsDistinct(probes + multiset{y})
  {
    var more := probes + multiset{y};
    assert y !in probes;
    forall p | p in more ensures NamesComponent(p.component) && more[p] == 1 {
      if p != y { assert p in probes; }
    }
  }

  lemma ComponentsShrink(probes: multiset<ProbeBag>, y: ProbeBag)
    requires ComponentsDistinct(probes + multiset{y})
    ensures ComponentsDistinct(probes) && NewComponent(probes, y)
  {
    var more := probes + multiset{y};
    assert y in more && more[y] == probes[y] + 1;
    forall p | p in probes ensures p in more && p != y && probes[p] == 1 {
      assert p in more;
    }
  }

  lemma ComponentsAppend(probes: multiset<ProbeBag>, y: ProbeBag)
    ensures ComponentsDistinct(probes + multiset{y}) <==> ComponentsDistinct(probes) && NewComponent(probes, y)
  {
    if ComponentsDistinct(probes + multiset{y}) {
      ComponentsShrink(probes, y);
    } else if ComponentsDistinct(probes) && NewComponent(probes, y) {
      ComponentsGrow(probes, y);
    }
  }

  lemma DisjointAppend(probes: multiset<ProbeBag>, y: ProbeBag)
    requires y !in probes
    ensures IdsDisjoint(probes + multiset{y}) <==>
            IdsDisjoint(probes) && SharesNoId(probes, y)
  {
    var more := probes + multiset{y};
    assert forall p :: p in more <==> p in probes || p == y;
  }

  lemma ContractAppend(probes: multiset<ProbeBag>, y: ProbeBag)
    ensures ContractHolds(probes + multiset{y}) <==>
            && ContractHolds(probes) && NewComponent(probes, y)
            && ChecksWellFormed(y)
            && SharesNoId(probes, y)
  {
    ComponentsAppend(probes, y);
    assert forall p :: p in probes + multiset{y} <==> p in probes || p == y;
    if y !in probes {
      DisjointAppend(probes, y);
    }
  }

  lemma WellFormedIsBagOk(p: ProbeBag)
    requires p.component.Str?
    ensures ChecksWellFormed(p) <==> BagOk(p.component.s, p.checks)
  {}

  lemma LastProbeOk(before: seq<Probe>, last: Probe)
    requires NamesComponent(last.component)
    ensures ChecksOk(last.component.s, last.checks, AllIds(before)) <==>
            ChecksWellFormed(ProbeOf(last)) && SharesNoId(ProbesOf(before), ProbeOf(last))
  {
    ChecksOkMeaning(last.component.s, last.checks, AllIds(before));
    NoSharedIds(before, last);
    WellFormedIsBagOk(ProbeOf(last));
  }

  /** The probe loop finds nothing exactly when the contract holds. */
  lemma {:induction false} ProbesOkMeaning(probes: seq<Probe>)
    ensures ProbesOk(probes) <==> ContractHolds(ProbesOf(probes))
    decreases |probes|
  {
    if probes != [] {
      var n := |probes| - 1;
      var before, last := probes[..n], probes[n];
      ProbesOkMeaning(before);
      ContractAppend(ProbesOf(before), ProbeOf(last));
      NoSharedComponent(before, last);
      if NamesComponent(last.component) {
        LastProbeOk(before, last);
      }
    }
  }

  lemma NoSharedComponent(before: seq<Probe>, last: Probe)
    ensures (forall p :: p in before ==> p.component != last.component) <==>
            forall b :: b in ProbesOf(before) ==> b.component != last.component
  {
    forall p | p in before ensures ProbeOf(p) in ProbesOf(before) { ProbesMembers(before, ProbeOf(p)); }
    forall b | b in ProbesOf(before) ensures exists p :: p in before && p.component == b.component {
      ProbesMembers(before, b);
      var p :| p in before && ProbeOf(p) == b;
      assert p.component == b.component;
    }
    assert forall p :: p in before ==> ProbeOf(p).component == p.component;
  }

  lemma NoSharedIds(before: seq<Probe>, last: Probe)
    ensures NoneSeen(AllIds(before), last.checks) <==> SharesNoId(ProbesOf(before), ProbeOf(last))
  {
    forall id: string ensures id in AllIds(before) <==> exists b :: b in ProbesOf(before) && Has(b, Str(id)) {
      AllIdsAreKept(before, id);
    }
    forall id: string ensures id in IdsOf(last.checks) <==> Has(ProbeOf(last), Str(id)) {
      IdsAreKept(last.checks, id);
    }
    if NoneSeen(AllIds(before), last.checks) {
      forall b, id: Json | b in ProbesOf(before) && id.Str? && Has(b, id) ensures !Has(ProbeOf(last), id) {
        assert id == Str(id.s);
        assert id.s in AllIds(before);
      }
    }
  }

  // ---- The indexes are unambiguous

  /** Where the contract holds, looking up an id at its owner finds the one check there is. */
  lemma LookupFinds(probes: seq<Probe>, owner: string, id: string)
    requires ContractHolds(ProbesOf(probes))
    ensures Lookup(probes, owner, id).Some? ==>
              var p := FindProbe(probes, owner).value;
              Reports(ProbesOf(probes), owner, id, ProbeOf(p), CheckOf(Obj(Lookup(probes, owner, id).value)))
    ensures forall b, c :: Reports(ProbesOf(probes), owner, id, b, c) ==>
              Lookup(probes, owner, id).Some? && b == ProbeOf(FindProbe(probes, owner).value)
              && c == CheckOf(Obj(Lookup(probes, owner, id).value))
  {
    if Lookup(probes, owner, id).Some? {
      LookupIsReported(probes, owner, id);
    }
    forall b, c | Reports(ProbesOf(probes), owner, id, b, c)
      ensures Lookup(probes, owner, id).Some? && b == ProbeOf(FindProbe(probes, owner).value)
              && c == CheckOf(Obj(Lookup(probes, owner, id).value))
    {
      ReportedIsLookedUp(probes, owner, id, b, c);
    }
  }

  lemma LookupIsReported(probes: seq<Probe>, owner: string, id: string)
    requires Lookup(probes, owner, id).Some?
    ensures var p := FindProbe(probes, owner).value;
            Reports(ProbesOf(probes), owner, id, ProbeOf(p), CheckOf(Obj(Lookup(probes, owner, id).value)))
  {
    var p := FindProbe(probes, owner).value;
    var j := Obj(Lookup(probes, owner, id).value);
    ProbesMembers(probes, ProbeOf(p));
    ChecksMembers(p.checks, CheckOf(j));
    FieldsKept(j, "id");
  }

  lemma OwnerIsFound(probes: seq<Probe>, owner: string, b: ProbeBag)
    requires ComponentsDistinct(ProbesOf(probes)) && b in ProbesOf(probes) && b.component == Str(owner)
    ensures FindProbe(probes, owner).Some? && b == ProbeOf(FindProbe(probes, owner).value)
  {
    ProbesMembers(probes, b);
    var p0 :| p0 in probes && ProbeOf(p0) == b;
    var p := FindProbe(probes, owner).value;
    ProbesMembers(probes, ProbeOf(p));
  }

  lemma CheckIsFound(checks: seq<Json>, id: string, c: Check)
    requires c in ChecksOf(checks) && IdOf(c) == Str(id)
    requires forall d :: d in ChecksOf(checks) && IdOf(d) == Str(id) ==> d == c
    ensures FindCheck(checks, id).Some? && c == CheckOf(Obj(FindCheck(checks, id).value))
  {
    ChecksMembers(checks, c);
    var j :| j in checks && CheckOf(j) == c;
    FieldsKept(j, "id");
    var found := Obj(FindCheck(checks, id).value);
    ChecksMembers(checks, CheckOf(found));
    FieldsKept(found, "id");
  }

  lemma ReportedIsLookedUp(probes: seq<Probe>, owner: string, id: string, b: ProbeBag, c: Check)
    requires ContractHolds(ProbesOf(probes)) && Reports(ProbesOf(probes), owner, id, b, c)
    ensures Lookup(probes, owner, id).Some? && b == ProbeOf(FindProbe(probes, owner).value)
    ensures c == CheckOf(Obj(Lookup(probes, owner, id).value))
  {
    OwnerIsFound(probes, owner, b);
    assert ChecksWellFormed(b);
    CheckIsFound(FindProbe(probes, owner).value.checks, id, c);
  }

  // ---- The project row

  ghost predicate NoRow(rows: multiset<Json>, project: Option<string>) {
    forall row :: row in rows ==> !IsRowOf(row, project)
  }

  ghost predicate IsOnlyRow(rows: multiset<Json>, project: Option<string>, row: Json) {
    && row in rows && rows[row] == 1 && IsRowOf(row, project)
    && forall other :: other in rows && IsRowOf(other, project) ==> other == row
  }

  ghost predicate OneRow(rows: multiset<Json>, project: Option<string>) { exists row :: IsOnlyRow(rows, project, row) }

  lemma RowOfAnother(rows: multiset<Json>, project: Option<string>, last: Json)
    requires !IsRowOf(last, project)
    ensures NoRow(rows + multiset{last}, project) <==> NoRow(rows, project)
    ensures OneRow(rows + multiset{last}, project) <==> OneRow(rows, project)
  {
    var more := rows + multiset{last};
    assert forall row :: row != last ==> more[row] == rows[row];
    forall row | IsRowOf(row, project) ensures IsOnlyRow(more, project, row) <==> IsOnlyRow(rows, project, row) {
      assert more[row] == rows[row];
    }
  }

  lemma RowOfTheProject(rows: multiset<Json>, project: Option<string>, last: Json)
    requires IsRowOf(last, project)
    ensures !NoRow(rows + multiset{last}, project)
    ensures OneRow(rows + multiset{last}, project) <==> NoRow(rows, project)
  {
    var more := rows + multiset{last};
    assert last in more && more[last] == rows[last] + 1;
    if OneRow(more, project) {
      var row :| IsOnlyRow(more, project, row);
      assert row == last && rows[last] == 0;
      forall other | other in rows ensures !IsRowOf(other, project) {
        assert other in more;
      }
    } else if NoRow(rows, project) {
      assert IsOnlyRow(more, project, last);
    }
  }

  lemma {:induction false} RowsOfCount(rows: seq<Json>, project: Option<string>)
    ensures |RowsOf(rows, project)| == 0 <==> NoRow(multiset(rows), project)
    ensures |RowsOf(rows, project)| == 1 <==> OneRow(multiset(rows), project)
    decreases |rows|
  {
    if rows != [] {
      var before, last := rows[..|rows| - 1], rows[|rows| - 1];
      assert rows == before + [last];
      assert multiset(rows) == multiset(before) + multiset{last};
      RowsOfCount(before, project);
      if IsRowOf(last, project) {
        RowOfTheProject(multiset(before), project, last);
      } else {
        RowOfAnother(multiset(before), project, last);
      }
    }
  }

  lemma {:induction false} RowsOfMembers(rows: seq<Json>, project: Option<string>, fields: Fields)
    requires fields in RowsOf(rows, project)
    ensures Obj(fields) in multiset(rows) && IsRowOf(Obj(fields), project)
    decreases |rows|
  {
    var before, last := rows[..|rows| - 1], rows[|rows| - 1];
    assert rows == before + [last];
    if fields in RowsOf(before, project) {
      RowsOfMembers(before, project, fields);
    }
  }

  lemma MeasurementKept(fields: Fields, store: Option<string>, project: Option<string>)
    ensures MeasurementOk(fields, store, project) <==> Measured(CheckOf(Obj(fields)), store, project)
  {
    FieldsKept(Obj(fields), "status");
    FieldsKept(Obj(fields), "errors");
    FieldsKept(Obj(fields), "store_fingerprint");
    var projects := GenesisGate.Get(fields, "projects");
    if projects.List? && project.Some? {
      RowKept(projects.items, project.value);
    }
  }

  lemma RowKept(rows: seq<Json>, project: string)
    ensures |RowsOf(rows, Some(project))| == 1 && RowOk(RowsOf(rows, Some(project))[0]) <==>
            OneEmptyRow(multiset(rows), project)
  {
    var found := RowsOf(rows, Some(project));
    RowsOfCount(rows, Some(project));
    if |found| == 1 {
      assert found[0] in found;
      RowsOfMembers(rows, Some(project), found[0]);
      var row :| IsOnlyRow(multiset(rows), Some(project), row);
      assert row == Obj(found[0]);
    }
  }

  // ---- The theorem

  lemma HealthKept(report: Report)
    ensures Healthy(report) <==>
            && report.ok && ProbesOf(report.probes) != multiset{}
            && forall p :: p in ProbesOf(report.probes) ==> p.status == Pass
  {
    var probes := report.probes;
    forall p | p in probes ensures ProbeOf(p) in ProbesOf(probes) { ProbesMembers(probes, ProbeOf(p)); }
    forall b | b in ProbesOf(probes) ensures exists p :: p in probes && p.status == b.status {
      ProbesMembers(probes, b);
      var p :| p in probes && ProbeOf(p) == b;
      assert p.status == b.status;
    }
    if probes != [] {
      assert probes[0] in probes;
    }
    assert forall p :: p in probes ==> ProbeOf(p).status == p.status;
  }

  lemma RequiredKept(report: Report, r: Required)
    requires Healthy(report) && ContractHolds(ProbesOf(report.probes))
    ensures RequiredPasses(report.probes, r) <==> RequirementMet(ProbesOf(report.probes), r)
  {
    var probes := report.probes;
    LookupFinds(probes, r.owner, r.id);
    if Lookup(probes, r.owner, r.id).Some? {
      SatisfiesKept(Obj(Lookup(probes, r.owner, r.id).value), r.id);
    }
  }

  lemma StoreKept(probes: seq<Probe>, store: Option<string>, project: Option<string>)
    requires ContractHolds(ProbesOf(probes))
    ensures StoreMeasured(ProbesOf(probes), store, project) <==> StoreOk(probes, store, project)
  {
    LookupFinds(probes, "regista", MEASUREMENTS);
    if Lookup(probes, "regista", MEASUREMENTS).Some? {
      MeasurementKept(Lookup(probes, "regista", MEASUREMENTS).value, store, project);
    }
  }

  /** The verdict is the specification's, so no order of probes, checks, or project rows can change it. */
  lemma GateIsItsSpecification(report: Report, store: Option<string>, project: Option<string>)
    ensures VerdictOf(report, store, project) <==> GateOpen(BagOf(report), store, project)
  {
    HealthKept(report);
    ProbesOkMeaning(report.probes);
    if Healthy(report) && ContractHolds(ProbesOf(report.probes)) {
      StoreKept(report.probes, store, project);
      forall r | r in REQUIRED
        ensures RequiredPasses(report.probes, r) <==> RequirementMet(ProbesOf(report.probes), r)
      {
        RequiredKept(report, r);
      }
    }
  }

  // ---- Reordering

  /** A check and the same check with its project rows permuted. */
  ghost predicate RowsPermuted(c: Json, d: Json) {
    c == d
    || (&& c.Obj? && d.Obj? && c.fields - {"projects"} == d.fields - {"projects"}
        && var rows, rows' := GenesisGate.Get(c.fields, "projects"), GenesisGate.Get(d.fields, "projects");
        rows.List? && rows'.List? && multiset(rows.items) == multiset(rows'.items))
  }

  /** A probe and the same probe with its checks permuted, and the rows of each of them. */
  ghost predicate ChecksPermuted(p: Probe, q: Probe) {
    q == p.(checks := q.checks) && exists middle :: ChecksPermutedBy(p.checks, middle, q.checks)
  }

  ghost predicate ChecksPermutedBy(s: seq<Json>, middle: seq<Json>, t: seq<Json>) {
    && |s| == |middle| && (forall i :: 0 <= i < |s| ==> RowsPermuted(s[i], middle[i]))
    && multiset(middle) == multiset(t)
  }

  /** A report and the same report with its probes permuted, and the checks of each of them, and their rows. */
  ghost predicate Permuted(a: Report, b: Report) {
    a.ok == b.ok && exists middle :: ProbesPermutedBy(a.probes, middle, b.probes)
  }

  ghost predicate ProbesPermutedBy(s: seq<Probe>, middle: seq<Probe>, t: seq<Probe>) {
    && |s| == |middle| && (forall i :: 0 <= i < |s| ==> ChecksPermuted(s[i], middle[i]))
    && multiset(middle) == multiset(t)
  }

  lemma PermutedRowsSameCheck(c: Json, d: Json)
    requires RowsPermuted(c, d)
    ensures CheckOf(c) == CheckOf(d)
  {}

  lemma PermutedChecksSameProbe(p: Probe, q: Probe)
    requires ChecksPermuted(p, q)
    ensures ProbeOf(p) == ProbeOf(q)
  {
    var middle :| ChecksPermutedBy(p.checks, middle, q.checks);
    forall i | 0 <= i < |middle| ensures CheckOf(p.checks[i]) == CheckOf(middle[i]) {
      PermutedRowsSameCheck(p.checks[i], middle[i]);
    }
    BagRearranged(p.checks, middle, q.checks, CheckOf);
  }

  /** Permuting probes, checks, and project rows, all at once, keeps the bag of a report. */
  lemma PermutedSameBag(a: Report, b: Report)
    requires Permuted(a, b)
    ensures BagOf(a) == BagOf(b)
  {
    var middle :| ProbesPermutedBy(a.probes, middle, b.probes);
    forall i | 0 <= i < |middle| ensures ProbeOf(a.probes[i]) == ProbeOf(middle[i]) {
      PermutedChecksSameProbe(a.probes[i], middle[i]);
    }
    BagRearranged(a.probes, middle, b.probes, ProbeOf);
  }

  /** So no such permutation changes the verdict. */
  lemma OrderDoesNotMatter(a: Report, b: Report, store: Option<string>, project: Option<string>)
    requires Permuted(a, b)
    ensures VerdictOf(a, store, project) <==> VerdictOf(b, store, project)
  {
    PermutedSameBag(a, b);
    GateIsItsSpecification(a, store, project);
    GateIsItsSpecification(b, store, project);
  }
}
