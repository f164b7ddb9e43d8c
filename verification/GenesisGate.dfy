/** The pre-genesis admission verdict over the reports of the component probes. */
module GenesisGate {
  import opened PyText

  /** A value of the interchange format. */
  datatype Json =
    | Null | Bool(b: bool) | Int(n: int) | Float(r: real) | Str(s: string) | List(items: seq<Json>)
    | Obj(fields: Fields)
  {
    /** Equal to the number zero; truth values and floats count. */
    predicate EqualsZero() { this == Int(0) || this == Float(0.0) || this == Bool(false) }
  }

  type Fields = map<string, Json>

  function Get(fields: Fields, key: string): Json { if key in fields then fields[key] else Null }

  datatype Status = Pass | Fail | Missing | MalformedReport | Error

  datatype Probe = Probe(component: Json, status: Status, checks: seq<Json>)

  datatype Report = Report(ok: bool, probes: seq<Probe>)

  datatype Finding = Finding(checkId: string, passed: bool)

  predicate AllPassed(findings: seq<Finding>) { forall f :: f in findings ==> f.passed }

  const MEASUREMENTS := "regista.store_invariant_measurements"
  const BOUNDARY := "regista.actor_boundary_signing"

  datatype Required = Required(id: string, owner: string)

  const REQUIRED: seq<Required> := [
    Required("agent_notes.session_identity_resolvable", "agent-notes"),
    Required("cairn.observation_failure_nonblocking", "cairn"),
    Required("cairn.runtime_model_observed", "cairn"),
    Required("cairn.unavailable_model_named", "cairn"),
    Required("regista.actor_boundary_signing", "regista"),
    Required("regista.closed_lineage_registry", "regista"),
    Required("regista.first_write_admission", "regista"),
    Required("regista.load_bearing_fields_refused", "regista")]

  // ---- One check

  function Namespace(component: string): string {
    seq(|component|, i requires 0 <= i < |component| => if component[i] == '-' then '_' else component[i]) + "."
  }

  predicate NamesComponent(component: Json) { component.Str? && Strip(component.s) != "" }

  /** A tidy id in the component's own namespace, and a known status. */
  predicate Identified(component: string, fields: Fields) {
    var id, status := Get(fields, "id"), Get(fields, "status");
    && id.Str? && id.s != "" && Strip(id.s) == id.s && StartsWith(id.s, Namespace(component))
    && status.Str? && status.s in {"pass", "measured", "fail"}
  }

  predicate CheckOk(component: string, fields: Fields) {
    Identified(component, fields) && Get(fields, "status") != Str("fail")
  }

  // ---- The boundary claim

  const PATHS := {"regista._genesis.append_v6_genesis", "regista._v6_writer.append_v6_event"}
  const CONSUMERS := {"regista._trust_log_writer.append_trust_log_event"}
  const EXCLUSIONS := {"regista._cli.cmd_trust_init_log", "regista._cli.cmd_trust_delegate_registrar",
                       "regista._cli._resolve_trust_root_actor", "regista._trust_log_writer.write_trust_genesis"}

  /** A list of exactly these strings, in any order, none twice. */
  predicate Lists(value: Json, expected: set<string>) {
    && value.List? && (forall j :: j in value.items ==> j.Str?)
    && (set j | j in value.items && j.Str? :: j.s) == expected && |value.items| == |expected|
  }

  predicate BoundaryOk(fields: Fields) {
    && Get(fields, "claim") == Str("r10.project_v6.boundary_rejects_mismatched_binding")
    && Get(fields, "basis") == Str("behavioral_attempt_ephemeral_epoch")
    && Lists(Get(fields, "paths_proven"), PATHS)
    && Lists(Get(fields, "shared_boundary_consumers"), CONSUMERS)
    && Lists(Get(fields, "excluded_paths"), EXCLUSIONS)
    && Get(fields, "exclusion_reason").Str? && Infix("WI-320", Get(fields, "exclusion_reason").s)
  }

  // ---- The store measurements

  predicate IsEmptyList(j: Json) { j.List? && j.items == [] }

  predicate IsEmptyObject(j: Json) { j.Obj? && j.fields == map[] }

  predicate StoreEmpty(row: Fields) { Get(row, "event_count") == Int(0) }

  predicate LineagePopulationEmpty(row: Fields) {
    var coverage := Get(row, "lineage_coverage");
    && Get(row, "declared_lineage_event_count") == Int(0)
    && coverage.Obj? && coverage.fields.Keys == {"numerator", "denominator"}
    && coverage.fields["numerator"].EqualsZero() && coverage.fields["denominator"].EqualsZero()
    && IsEmptyList(Get(row, "distinct_lineage_tokens"))
  }

  predicate LineageTokensResolvable(row: Fields) {
    IsEmptyList(Get(row, "unresolvable_lineage_tokens")) && Get(row, "unresolvable_lineage_value_count") == Int(0)
  }

  predicate LineageUnambiguous(row: Fields) { Get(row, "ambiguous_lineage_event_count") == Int(0) }

  predicate AsymmetricOnly(row: Fields) { IsEmptyObject(Get(row, "scheme_counts")) }

  predicate AuthorsDeclared(row: Fields) { Get(row, "undeclared_agent_author_event_count") == Int(0) }

  predicate ModelObservationsEmpty(row: Fields) { IsEmptyObject(Get(row, "model_observation_status_counts")) }

  predicate PopulationEmpty(row: Fields) {
    && StoreEmpty(row) && LineagePopulationEmpty(row) && LineageTokensResolvable(row) && LineageUnambiguous(row)
    && AsymmetricOnly(row) && AuthorsDeclared(row) && ModelObservationsEmpty(row)
  }

  predicate HasSnapshot(row: Fields) { Get(row, "snapshot_id").Str? && Strip(Get(row, "snapshot_id").s) != "" }

  predicate IsRowOf(row: Json, project: Option<string>) {
    row.Obj? && Get(row.fields, "project") == match project case None => Null case Some(p) => Str(p)
  }

  function RowsOf(rows: seq<Json>, project: Option<string>): (r: seq<Fields>) {
    if rows == [] then []
    else
      var n := |rows| - 1;
      RowsOf(rows[..n], project) + if IsRowOf(rows[n], project) then [rows[n].fields] else []
  }

  // ---- The loops of the evaluator

  /** The ids of the checks taken so far, over the checks of one probe. */
  function IdsOf(checks: seq<Json>): set<string> {
    set c | c in checks && c.Obj? && Get(c.fields, "id").Str? :: Get(c.fields, "id").s
  }

  predicate ChecksOk(component: string, checks: seq<Json>, seen: set<string>) {
    checks == [] ||
    var n := |checks| - 1;
    var last := checks[n];
    && ChecksOk(component, checks[..n], seen)
    && last.Obj? && CheckOk(component, last.fields)
    && Get(last.fields, "id").s !in seen + IdsOf(checks[..n])
  }

  function AllIds(probes: seq<Probe>): set<string> {
    set p, id | p in probes && id in IdsOf(p.checks) :: id
  }

  predicate ProbesOk(probes: seq<Probe>) {
    probes == [] ||
    var n := |probes| - 1;
    var last := probes[n];
    && ProbesOk(probes[..n])
    && NamesComponent(last.component)
    && (forall p :: p in probes[..n] ==> p.component != last.component)
    && ChecksOk(last.component.s, last.checks, AllIds(probes[..n]))
  }

  // ---- The findings of those loops

  const CHECK_CONTRACT := Finding("probe.check_contract", false)
  const CHECK_STATUS := Finding("probe.check_status", false)
  const COMPONENT_CONTRACT := Finding("probe.component_contract", false)

  /** The id of a check that has a tidy one; None for any other. */
  function IdentityOf(component: string, check: Json): Option<string> {
    if check.Obj? && Identified(component, check.fields) then Some(Get(check.fields, "id").s) else None
  }

  predicate SaysFail(check: Json) { check.Obj? && Get(check.fields, "status") == Str("fail") }

  predicate NonePasses(findings: seq<Finding>) { forall i :: 0 <= i < |findings| ==> !findings[i].passed }

  function CheckFindings(component: string, check: Json, seen: set<string>): (r: seq<Finding>)
    ensures NonePasses(r)
  {
    match IdentityOf(component, check)
    case None => [CHECK_CONTRACT]
    case Some(id) => (if SaysFail(check) then [CHECK_STATUS] else []) + if id in seen then [CHECK_CONTRACT] else []
  }

  function Taken(id: Option<string>): set<string> { match id case None => {} case Some(s) => {s} }

  /** The ids that the first `n` checks bring with them. */
  function TakenIds(component: string, checks: seq<Json>, n: nat): set<string>
    requires n <= |checks|
  {
    if n == 0 then {} else TakenIds(component, checks, n - 1) + Taken(IdentityOf(component, checks[n - 1]))
  }

  function ChecksFindings(component: string, checks: seq<Json>, n: nat, seen: set<string>): (r: seq<Finding>)
    requires n <= |checks|
    ensures NonePasses(r)
  {
    if n == 0 then []
    else
      ChecksFindings(component, checks, n - 1, seen)
      + CheckFindings(component, checks[n - 1], seen + TakenIds(component, checks, n - 1))
  }

  function ComponentFindings(probe: Probe, components: set<Json>): seq<Finding> {
    if !NamesComponent(probe.component) || probe.component in components then [COMPONENT_CONTRACT] else []
  }

  function ProbeFindings(probe: Probe, components: set<Json>, seen: set<string>): (r: seq<Finding>)
    ensures NonePasses(r)
  {
    ComponentFindings(probe, components)
    + if NamesComponent(probe.component)
      then ChecksFindings(probe.component.s, probe.checks, |probe.checks|, seen) else []
  }

  function Named(probe: Probe): set<Json> { if NamesComponent(probe.component) then {probe.component} else {} }

  function TakenOf(probe: Probe): set<string> {
    if NamesComponent(probe.component) then TakenIds(probe.component.s, probe.checks, |probe.checks|) else {}
  }

  function NamedComponents(probes: seq<Probe>, n: nat): set<Json>
    requires n <= |probes|
  {
    if n == 0 then {} else NamedComponents(probes, n - 1) + Named(probes[n - 1])
  }

  function AllTaken(probes: seq<Probe>, n: nat): set<string>
    requires n <= |probes|
  {
    if n == 0 then {} else AllTaken(probes, n - 1) + TakenOf(probes[n - 1])
  }

  /** What is found in the first `n` probes. */
  function ContractFindings(probes: seq<Probe>, n: nat): (r: seq<Finding>)
    requires n <= |probes|
    ensures NonePasses(r)
  {
    if n == 0 then []
    else
      ContractFindings(probes, n - 1)
      + ProbeFindings(probes[n - 1], NamedComponents(probes, n - 1), AllTaken(probes, n - 1))
  }

  /** One turn of the loop over the checks of a probe. */
  method FindInCheck(component: string, check: Json, seen: set<string>)
    returns (findings: seq<Finding>, seen': set<string>)
    ensures findings == CheckFindings(component, check, seen) && seen' == seen + Taken(IdentityOf(component, check))
  {
    findings, seen' := [], seen;
    if !check.Obj? || !Identified(component, check.fields) {
      return [CHECK_CONTRACT], seen;
    }
    var id := Get(check.fields, "id").s;
    if Get(check.fields, "status") == Str("fail") {
      findings := findings + [CHECK_STATUS];
    }
    if id in seen {
      findings := findings + [CHECK_CONTRACT];
    } else {
      seen' := seen' + {id};
    }
  }

  method ProbeChecksFindings(component: string, checks: seq<Json>, seen: set<string>)
    returns (findings: seq<Finding>, seen': set<string>)
    ensures findings == ChecksFindings(component, checks, |checks|, seen)
    ensures seen' == seen + TakenIds(component, checks, |checks|)
  {
    findings, seen' := [], seen;
    for i := 0 to |checks|
      invariant findings == ChecksFindings(component, checks, i, seen)
      invariant seen' == seen + TakenIds(component, checks, i)
    {
      var more: seq<Finding>;
      more, seen' := FindInCheck(component, checks[i], seen');
      findings := findings + more;
    }
  }

  /** One turn of the loop over the probes. */
  method FindInProbe(probe: Probe, components: set<Json>, seen: set<string>)
    returns (findings: seq<Finding>, components': set<Json>, seen': set<string>)
    ensures findings == ProbeFindings(probe, components, seen)
    ensures components' == components + Named(probe) && seen' == seen + TakenOf(probe)
  {
    findings, components', seen' := [], components, seen;
    if !NamesComponent(probe.component) {
      return [COMPONENT_CONTRACT], components, seen;
    }
    if probe.component in components {
      findings := findings + [COMPONENT_CONTRACT];
    } else {
      components' := components' + {probe.component};
    }
    var more: seq<Finding>;
    more, seen' := ProbeChecksFindings(probe.component.s, probe.checks, seen);
    findings := findings + more;
  }

  method ProbeContractFindings(report: Report) returns (findings: seq<Finding>)
    ensures findings == ContractFindings(report.probes, |report.probes|)
  {
    var probes := report.probes;
    findings := [];
    var seen: set<string>, seenComponents: set<Json> := {}, {};
    for i := 0 to |probes|
      invariant findings == ContractFindings(probes, i)
      invariant seen == AllTaken(probes, i) && seenComponents == NamedComponents(probes, i)
    {
      var more: seq<Finding>;
      more, seenComponents, seen := FindInProbe(probes[i], seenComponents, seen);
      findings := findings + more;
    }
  }

  // ---- When they find nothing

  lemma CheckFindsNothing(component: string, check: Json, seen: set<string>)
    ensures CheckFindings(component, check, seen) == [] <==>
            check.Obj? && CheckOk(component, check.fields) && Get(check.fields, "id").s !in seen
  {}

  lemma IdsOfAppend(checks: seq<Json>, check: Json)
    requires check.Obj? && Get(check.fields, "id").Str?
    ensures IdsOf(checks + [check]) == IdsOf(checks) + {Get(check.fields, "id").s}
  {
    assert forall c :: c in checks + [check] <==> c in checks || c == check;
  }

  lemma TakenStep(component: string, checks: seq<Json>, n: nat, before: seq<Json>, last: Json, seen: set<string>)
    requires 0 < n <= |checks| && last == checks[n - 1] && ChecksOk(component, before + [last], seen)
    requires ChecksOk(component, before, seen) ==> TakenIds(component, checks, n - 1) == IdsOf(before)
    ensures TakenIds(component, checks, n) == IdsOf(before + [last])
  {
    ChecksOkStep(component, before, last, seen);
  }

  lemma {:induction false} TakenAreIds(component: string, checks: seq<Json>, n: nat, seen: set<string>)
    requires n <= |checks| && ChecksOk(component, checks[..n], seen)
    ensures TakenIds(component, checks, n) == IdsOf(checks[..n])
  {
    if n > 0 {
      PrefixStep(checks, n);
      var before, last := checks[..n - 1], checks[n - 1];
      ChecksOkStep(component, before, last, seen);
      TakenAreIds(component, checks, n - 1, seen);
      TakenStep(component, checks, n, before, last, seen);
    }
  }

  lemma FindingsStep(component: string, before: seq<Json>, last: Json, seen: set<string>, taken: set<string>,
                     found: seq<Finding>)
    requires found == [] <==> ChecksOk(component, before, seen)
    requires ChecksOk(component, before, seen) ==> taken == IdsOf(before)
    ensures found + CheckFindings(component, last, seen + taken) == [] <==> ChecksOk(component, before + [last], seen)
  {
    CheckFindsNothing(component, last, seen + taken);
    NothingInBoth(found, CheckFindings(component, last, seen + taken));
    ChecksOkStep(component, before, last, seen);
  }

  lemma PrefixStep<T>(s: seq<T>, n: nat)
    requires 0 < n <= |s|
    ensures s[..n] == s[..n - 1] + [s[n - 1]]
  {}

  lemma {:induction false} ChecksFindNothing(component: string, checks: seq<Json>, n: nat, seen: set<string>)
    requires n <= |checks|
    ensures ChecksFindings(component, checks, n, seen) == [] <==> ChecksOk(component, checks[..n], seen)
  {
    if n > 0 {
      ChecksFindNothing(component, checks, n - 1, seen);
      OneMoreFindsNothing(component, checks, n, seen);
    }
  }

  lemma OneMoreFindsNothing(component: string, checks: seq<Json>, n: nat, seen: set<string>)
    requires 0 < n <= |checks|
    requires ChecksFindings(component, checks, n - 1, seen) == [] <==> ChecksOk(component, checks[..n - 1], seen)
    ensures ChecksFindings(component, checks, n, seen) == [] <==> ChecksOk(component, checks[..n], seen)
  {
    var before, last, taken := checks[..n - 1], checks[n - 1], TakenIds(component, checks, n - 1);
    var found := ChecksFindings(component, checks, n - 1, seen);
    if ChecksOk(component, before, seen) {
      TakenAreIds(component, checks, n - 1, seen);
    }
    FindingsStep(component, before, last, seen, taken, found);
    FindingsUnfold(component, checks, n, seen, found + CheckFindings(component, last, seen + taken));
    PrefixStep(checks, n);
  }

  lemma FindingsUnfold(component: string, checks: seq<Json>, n: nat, seen: set<string>, findings: seq<Finding>)
    requires 0 < n <= |checks|
    requires findings == ChecksFindings(component, checks, n - 1, seen)
                         + CheckFindings(component, checks[n - 1], seen + TakenIds(component, checks, n - 1))
    ensures ChecksFindings(component, checks, n, seen) == findings
  {}

  lemma NothingInBoth(a: seq<Finding>, b: seq<Finding>)
    ensures a + b == [] <==> a == [] && b == []
  {}

  lemma ChecksOkStep(component: string, before: seq<Json>, last: Json, seen: set<string>)
    ensures ChecksOk(component, before + [last], seen) <==>
            && ChecksOk(component, before, seen) && last.Obj? && CheckOk(component, last.fields)
            && Get(last.fields, "id").s !in seen + IdsOf(before)
    ensures last.Obj? && CheckOk(component, last.fields) ==>
              IdsOf(before + [last]) == IdsOf(before) + Taken(IdentityOf(component, last))
  {
    assert (before + [last])[..|before + [last]| - 1] == before;
    if last.Obj? && CheckOk(component, last.fields) {
      IdsOfAppend(before, last);
    }
  }

  lemma {:induction false} NamedMeaning(probes: seq<Probe>, n: nat, component: Json)
    requires n <= |probes| && NamesComponent(component)
    ensures component in NamedComponents(probes, n) <==> exists p :: p in probes[..n] && p.component == component
  {
    if n > 0 {
      NamedMeaning(probes, n - 1, component);
      assert probes[..n] == probes[..n - 1] + [probes[n - 1]];
    }
  }

  lemma ProbeFindsNothing(probe: Probe, components: set<Json>, seen: set<string>)
    ensures ProbeFindings(probe, components, seen) == [] <==>
            && NamesComponent(probe.component) && probe.component !in components
            && ChecksOk(probe.component.s, probe.checks, seen)
    ensures ProbeFindings(probe, components, seen) == [] ==> TakenOf(probe) == IdsOf(probe.checks)
  {
    if NamesComponent(probe.component) {
      ChecksFindNothing(probe.component.s, probe.checks, |probe.checks|, seen);
      assert probe.checks[..|probe.checks|] == probe.checks;
      if ChecksOk(probe.component.s, probe.checks, seen) {
        TakenAreIds(probe.component.s, probe.checks, |probe.checks|, seen);
      }
    }
  }

  lemma ProbesOkStep(before: seq<Probe>, last: Probe)
    ensures ProbesOk(before + [last]) <==>
            && ProbesOk(before) && NamesComponent(last.component)
            && (forall p :: p in before ==> p.component != last.component)
            && ChecksOk(last.component.s, last.checks, AllIds(before))
  {
    assert (before + [last])[..|before + [last]| - 1] == before;
  }

  lemma {:induction false} ContractFindsNothing(probes: seq<Probe>, n: nat)
    requires n <= |probes|
    ensures ContractFindings(probes, n) == [] <==> ProbesOk(probes[..n])
    ensures ProbesOk(probes[..n]) ==> AllTaken(probes, n) == AllIds(probes[..n])
  {
    if n > 0 {
      var before, last := probes[..n - 1], probes[n - 1];
      assert probes[..n] == before + [last];
      ContractFindsNothing(probes, n - 1);
      ProbesOkStep(before, last);
      ProbeFindsNothing(last, NamedComponents(probes, n - 1), AllTaken(probes, n - 1));
      AllIdsAppend(before, last);
      if NamesComponent(last.component) {
        NamedMeaning(probes, n - 1, last.component);
      }
    }
  }

  /** The probe contract holds exactly when every finding of its loops passes: there is none. */
  lemma ContractFindingsMeaning(probes: seq<Probe>)
    ensures AllPassed(ContractFindings(probes, |probes|)) <==> ProbesOk(probes)
  {
    var findings := ContractFindings(probes, |probes|);
    ContractFindsNothing(probes, |probes|);
    assert probes[..|probes|] == probes;
    if findings != [] {
      assert findings[0] in findings;
    }
  }

  lemma AllIdsAppend(probes: seq<Probe>, last: Probe)
    ensures AllIds(probes + [last]) == AllIds(probes) + IdsOf(last.checks)
  {
    forall id ensures id in AllIds(probes + [last]) <==> id in AllIds(probes) + IdsOf(last.checks) {
      if id in IdsOf(last.checks) {
        assert last in probes + [last];
      }
      if id in AllIds(probes) {
        var p :| p in probes && id in IdsOf(p.checks);
        assert p in probes + [last];
      }
    }
  }

  predicate RowOk(row: Fields) { HasSnapshot(row) && PopulationEmpty(row) }

  lemma AllPassedAppend(a: seq<Finding>, b: seq<Finding>)
    ensures AllPassed(a + b) <==> AllPassed(a) && AllPassed(b)
  {
    assert forall f :: f in a + b <==> f in a || f in b;
  }

  lemma AllPassedOne(f: Finding)
    ensures AllPassed([f]) <==> f.passed
  {
    assert f in [f];
  }

  /** The predicates a project's row must meet, by name. */
  function RowFindings(row: Fields, project: string): seq<Finding> {
    [Finding("regista.observation_snapshot_bound", HasSnapshot(row)),
     Finding("regista.store_empty:" + project, StoreEmpty(row)),
     Finding("regista.lineage_population_empty:" + project, LineagePopulationEmpty(row)),
     Finding("regista.lineage_tokens_resolvable:" + project, LineageTokensResolvable(row)),
     Finding("regista.lineage_unambiguous:" + project, LineageUnambiguous(row)),
     Finding("regista.asymmetric_only:" + project, AsymmetricOnly(row)),
     Finding("regista.authors_declared:" + project, AuthorsDeclared(row)),
     Finding("regista.model_observation_population_empty:" + project, ModelObservationsEmpty(row))]
  }

  lemma RowFindingsMeanRowOk(row: Fields, project: string)
    ensures AllPassed(RowFindings(row, project)) <==> RowOk(row)
  {
    var fs := RowFindings(row, project);
    if AllPassed(fs) {
      assert fs[0] in fs && fs[1] in fs && fs[2] in fs && fs[3] in fs;
      assert fs[4] in fs && fs[5] in fs && fs[6] in fs && fs[7] in fs;
    }
  }

  /** The store and the project are the configured ones, and the one row of the project is an empty population. */
  predicate MeasurementOk(fields: Fields, store: Option<string>, project: Option<string>) {
    var projects := Get(fields, "projects");
    && Get(fields, "status") == Str("measured") && IsEmptyList(Get(fields, "errors"))
    && store.Some? && Get(fields, "store_fingerprint") == Str(store.value)
    && projects.List? && project.Some?
    && |RowsOf(projects.items, project)| == 1
    && RowOk(RowsOf(projects.items, project)[0])
  }

  /** What is found about the store, the project, and the project's row, as far as each can be looked at. */
  function MeasurementList(check: Option<Fields>, store: Option<string>, project: Option<string>): seq<Finding> {
    if check.None? || Get(check.value, "status") != Str("measured") || !IsEmptyList(Get(check.value, "errors")) then
      [Finding(MEASUREMENTS, false)]
    else
      var projects := Get(check.value, "projects");
      var bound := store.Some? && Get(check.value, "store_fingerprint") == Str(store.value);
      [Finding("regista.target_store_bound", bound)] + ProjectFindings(projects, project)
  }

  function ProjectFindings(projects: Json, project: Option<string>): seq<Finding> {
    if !projects.List? || projects.items == [] then [Finding(MEASUREMENTS, false)]
    else
      var matching := RowsOf(projects.items, project);
      var bound := project.Some? && |matching| == 1;
      [Finding("regista.target_project_bound", bound)] + if bound then RowFindings(matching[0], project.value) else []
  }

  lemma ProjectFindingsMeaning(projects: Json, project: Option<string>)
    ensures AllPassed(ProjectFindings(projects, project)) <==>
            && projects.List? && project.Some? && |RowsOf(projects.items, project)| == 1
            && RowOk(RowsOf(projects.items, project)[0])
  {
    if !projects.List? || projects.items == [] {
      AllPassedOne(Finding(MEASUREMENTS, false));
    } else {
      var matching := RowsOf(projects.items, project);
      var bound := project.Some? && |matching| == 1;
      AllPassedOne(Finding("regista.target_project_bound", bound));
      if bound {
        RowFindingsMeanRowOk(matching[0], project.value);
        AllPassedAppend([Finding("regista.target_project_bound", bound)], RowFindings(matching[0], project.value));
      }
    }
  }

  /** All of it passes exactly when the measurement is as it must be. */
  lemma MeasurementListMeaning(check: Option<Fields>, store: Option<string>, project: Option<string>)
    ensures AllPassed(MeasurementList(check, store, project)) <==>
            check.Some? && MeasurementOk(check.value, store, project)
  {
    if check.None? || Get(check.value, "status") != Str("measured") || !IsEmptyList(Get(check.value, "errors")) {
      AllPassedOne(Finding(MEASUREMENTS, false));
    } else {
      var bound := store.Some? && Get(check.value, "store_fingerprint") == Str(store.value);
      AllPassedOne(Finding("regista.target_store_bound", bound));
      AllPassedAppend([Finding("regista.target_store_bound", bound)],
          ProjectFindings(Get(check.value, "projects"), project));
      ProjectFindingsMeaning(Get(check.value, "projects"), project);
    }
  }

  /** The snapshot that the one row of the project gives. */
  function BoundSnapshot(projects: Json, project: Option<string>): Option<string> {
    if projects.List? && project.Some? && |RowsOf(projects.items, project)| == 1
       && HasSnapshot(RowsOf(projects.items, project)[0])
    then Some(Get(RowsOf(projects.items, project)[0], "snapshot_id").s) else None
  }

  method FindInProjects(projects: Json, project: Option<string>)
    returns (findings: seq<Finding>, snapshot: Option<string>)
    ensures findings == ProjectFindings(projects, project) && snapshot == BoundSnapshot(projects, project)
  {
    snapshot := None;
    if !projects.List? || projects.items == [] {
      return [Finding(MEASUREMENTS, false)], None;
    }
    var matching := RowsOf(projects.items, project);
    var projectBound := project.Some? && |matching| == 1;
    findings := [Finding("regista.target_project_bound", projectBound)];
    if !projectBound {
      return;
    }
    var row := matching[0];
    findings := findings + RowFindings(row, project.value);
    snapshot := if HasSnapshot(row) then Some(Get(row, "snapshot_id").s) else None;
  }

  method MeasurementFindings(check: Option<Fields>, store: Option<string>, project: Option<string>)
    returns (findings: seq<Finding>, snapshot: Option<string>)
    ensures findings == MeasurementList(check, store, project)
    ensures snapshot.Some? ==> check.Some? && snapshot == BoundSnapshot(Get(check.value, "projects"), project)
    ensures check.Some? && MeasurementOk(check.value, store, project) ==> snapshot.Some?
  {
    if check.None? || Get(check.value, "status") != Str("measured") || !IsEmptyList(Get(check.value, "errors")) {
      return [Finding(MEASUREMENTS, false)], None;
    }
    var bound := store.Some? && Get(check.value, "store_fingerprint") == Str(store.value);
    findings, snapshot := FindInProjects(Get(check.value, "projects"), project);
    findings := [Finding("regista.target_store_bound", bound)] + findings;
  }

  // ---- The last-wins indexes

  function FindProbe(probes: seq<Probe>, owner: string): (r: Option<Probe>)
    ensures r.Some? ==> r.value in probes && r.value.component == Str(owner)
    ensures r.None? ==> forall p :: p in probes ==> p.component != Str(owner)
  {
    if probes == [] then None
    else
      var n := |probes| - 1;
      assert probes == probes[..n] + [probes[n]];
      if probes[n].component == Str(owner) then Some(probes[n]) else FindProbe(probes[..n], owner)
  }

  function FindCheck(checks: seq<Json>, id: string): (r: Option<Fields>)
    ensures r.Some? ==> Obj(r.value) in checks && Get(r.value, "id") == Str(id)
    ensures r.None? ==> forall c :: c in checks && c.Obj? ==> Get(c.fields, "id") != Str(id)
  {
    if checks == [] then None
    else
      var n := |checks| - 1;
      assert checks == checks[..n] + [checks[n]];
      if checks[n].Obj? && Get(checks[n].fields, "id") == Str(id) then Some(checks[n].fields)
      else FindCheck(checks[..n], id)
  }

  function Lookup(probes: seq<Probe>, owner: string, id: string): Option<Fields> {
    match FindProbe(probes, owner) case None => None case Some(p) => FindCheck(p.checks, id)
  }

  predicate Satisfies(fields: Fields, id: string) {
    Get(fields, "status") == Str("pass") && (id == BOUNDARY ==> BoundaryOk(fields))
  }

  predicate RequiredPasses(probes: seq<Probe>, r: Required) {
    var owner, check := FindProbe(probes, r.owner), Lookup(probes, r.owner, r.id);
    owner.Some? && owner.value.status == Pass && check.Some? && Satisfies(check.value, r.id)
  }

  method RequiredFindings(probes: seq<Probe>) returns (findings: seq<Finding>)
    ensures |findings| == |REQUIRED|
    ensures forall i :: 0 <= i < |REQUIRED| ==>
            findings[i] == Finding(REQUIRED[i].id, RequiredPasses(probes, REQUIRED[i]))
  {
    var required := REQUIRED;
    findings := FindRequired(probes, required);
  }

  method FindRequired(probes: seq<Probe>, required: seq<Required>) returns (findings: seq<Finding>)
    ensures |findings| == |required|
    ensures forall i :: 0 <= i < |required| ==>
            findings[i] == Finding(required[i].id, RequiredPasses(probes, required[i]))
  {
    findings := [];
    for i := 0 to |required|
      invariant |findings| == i
      invariant forall k :: 0 <= k < i ==> findings[k] == Finding(required[k].id, RequiredPasses(probes, required[k]))
    {
      findings := findings + [Finding(required[i].id, RequiredPasses(probes, required[i]))];
    }
  }

  lemma RequiredMeaning(probes: seq<Probe>, required: seq<Required>, findings: seq<Finding>)
    requires |findings| == |required|
    requires forall i :: 0 <= i < |required| ==>
             findings[i] == Finding(required[i].id, RequiredPasses(probes, required[i]))
    ensures AllPassed(findings) <==> forall r :: r in required ==> RequiredPasses(probes, r)
  {
    forall i | 0 <= i < |findings| ensures findings[i] in findings && required[i] in required {}
  }

  predicate Healthy(report: Report) {
    report.probes != [] && report.ok && forall p :: p in report.probes ==> p.status == Pass
  }

  /** What the evaluator computes over its indexes. */
  predicate VerdictOf(report: Report, store: Option<string>, project: Option<string>) {
    && Healthy(report) && ProbesOk(report.probes) && StoreOk(report.probes, store, project)
    && AllRequiredPass(report.probes)
  }

  predicate StoreOk(probes: seq<Probe>, store: Option<string>, project: Option<string>) {
    var check := Lookup(probes, "regista", MEASUREMENTS);
    check.Some? && MeasurementOk(check.value, store, project)
  }

  predicate AllRequiredPass(probes: seq<Probe>) { forall r :: r in REQUIRED ==> RequiredPasses(probes, r) }

  lemma Concludes(report: Report, store: Option<string>, project: Option<string>, contract: seq<Finding>,
                  measured: seq<Finding>, required: seq<Finding>)
    requires AllPassed(contract) <==> ProbesOk(report.probes)
    requires AllPassed(measured) <==> StoreOk(report.probes, store, project)
    requires AllPassed(required) <==> AllRequiredPass(report.probes)
    ensures VerdictOf(report, store, project) <==> Healthy(report) && AllPassed(contract + measured + required)
  {
    AllPassedAppend(contract, measured);
    AllPassedAppend(contract + measured, required);
  }

  method EvaluateGenesisGate(report: Report, store: Option<string>, project: Option<string>)
    returns (ok: bool, findings: seq<Finding>, snapshot: Option<string>)
    ensures ok <==> VerdictOf(report, store, project)
    ensures ok <==> AllPassed(findings)
    ensures ok ==> snapshot.Some?
  {
    findings := ProbeContractFindings(report);
    ContractFindingsMeaning(report.probes);
    var measured, required: seq<Finding>;
    measured, snapshot := MeasurementFindings(Lookup(report.probes, "regista", MEASUREMENTS), store, project);
    MeasurementListMeaning(Lookup(report.probes, "regista", MEASUREMENTS), store, project);
    required := RequiredFindings(report.probes);
    RequiredMeaning(report.probes, REQUIRED, required);
    Concludes(report, store, project, findings, measured, required);
    findings := findings + measured + required;
    var healthy := Healthy(report);
    ok := healthy && AllPassed(findings);
    if !healthy {
      AllPassedOne(Finding("probe.report", false));
      AllPassedAppend(findings, [Finding("probe.report", false)]);
      findings := findings + [Finding("probe.report", false)];
    }
  }
}
