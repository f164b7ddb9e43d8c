/** What a report must say, field by field, for the genesis gate to open. */
module OpenGate {
  import opened PyText
  import opened GenesisGate
  import GateSpec

  ghost predicate Says(fields: Fields, key: string, value: Json) { key in fields && fields[key] == value }

  ghost predicate NotBlank(s: string) { exists i :: 0 <= i < |s| && !IsSpace(s[i]) }

  // ---- Probes and their checks

  ghost predicate IsNamed(component: Json) { component.Str? && NotBlank(component.s) }

  /** The component with underscores for hyphens. */
  ghost predicate Underscored(space: string, component: string) {
    |space| == |component|
    && forall i :: 0 <= i < |space| ==> space[i] == if component[i] == '-' then '_' else component[i]
  }

  /** No white space at either end, and the component's namespace in front. */
  ghost predicate IsTidy(component: string, id: string) {
    && id != "" && !IsSpace(id[0]) && !IsSpace(id[|id| - 1])
    && Begins(id, component)
  }

  ghost predicate Begins(id: string, component: string) {
    exists space, rest :: Underscored(space, component) && id == space + ("." + rest)
  }

  ghost predicate IsSound(component: string, check: Json) {
    && check.Obj? && (exists id :: Says(check.fields, "id", Str(id)) && IsTidy(component, id))
    && (Says(check.fields, "status", Str("pass")) || Says(check.fields, "status", Str("measured")))
  }

  ghost predicate SameId(c: Json, d: Json) {
    c.Obj? && d.Obj? && exists id :: Says(c.fields, "id", Str(id)) && Says(d.fields, "id", Str(id))
  }

  ghost predicate ChecksSound(component: string, checks: seq<Json>) {
    && (forall i :: 0 <= i < |checks| ==> IsSound(component, checks[i]))
    && forall i, j :: 0 <= i < j < |checks| ==> !SameId(checks[i], checks[j])
  }

  ghost predicate Apart(p: Probe, q: Probe) {
    p.component != q.component && forall c, d :: c in p.checks && d in q.checks ==> !SameId(c, d)
  }

  /** Named components with sound checks, none named twice, and no id used twice. */
  ghost predicate ProbesSound(probes: seq<Probe>) {
    && (forall i :: 0 <= i < |probes| ==>
          IsNamed(probes[i].component) && ChecksSound(probes[i].component.s, probes[i].checks))
    && forall i, j :: 0 <= i < j < |probes| ==> Apart(probes[i], probes[j])
  }

  // ---- The row of the project

  predicate IsZero(j: Json) { j == Int(0) || j == Float(0.0) || j == Bool(false) }

  ghost predicate NoLineage(row: Fields) {
    && Says(row, "declared_lineage_event_count", Int(0))
    && (exists n, d :: Says(row, "lineage_coverage", Obj(map["numerator" := n, "denominator" := d]))
                       && IsZero(n) && IsZero(d))
    && Says(row, "distinct_lineage_tokens", List([]))
    && Says(row, "unresolvable_lineage_tokens", List([])) && Says(row, "unresolvable_lineage_value_count", Int(0))
    && Says(row, "ambiguous_lineage_event_count", Int(0))
  }

  /** A snapshot of a population in which nothing was ever counted. */
  ghost predicate EmptyRow(row: Fields) {
    && (exists snapshot :: Says(row, "snapshot_id", Str(snapshot)) && NotBlank(snapshot))
    && Says(row, "event_count", Int(0)) && NoLineage(row)
    && Says(row, "scheme_counts", Obj(map[])) && Says(row, "undeclared_agent_author_event_count", Int(0))
    && Says(row, "model_observation_status_counts", Obj(map[]))
  }

  ghost predicate OnlyRow(rows: multiset<Json>, project: string, row: Fields) {
    && rows[Obj(row)] == 1 && Says(row, "project", Str(project))
    && forall other :: Obj(other) in rows && Says(other, "project", Str(project)) ==> other == row
  }

  /** The store and the project are those the gate was asked about, and the project has one row, an empty one. */
  ghost predicate Measures(check: Fields, store: Option<string>, project: Option<string>) {
    && Says(check, "status", Str("measured")) && Says(check, "errors", List([]))
    && store.Some? && Says(check, "store_fingerprint", Str(store.value)) && project.Some?
    && OneEmptyRow(check, project.value)
  }

  ghost predicate OneEmptyRow(check: Fields, project: string) {
    exists rows, row :: Says(check, "projects", List(rows)) && OnlyRow(multiset(rows), project, row) && EmptyRow(row)
  }

  // ---- The boundary claim

  /** Exactly these names, each once. */
  ghost predicate Names(j: Json, names: multiset<Json>) { j.List? && multiset(j.items) == names }

  ghost predicate ClaimsBoundary(check: Fields) {
    && Says(check, "claim", Str("r10.project_v6.boundary_rejects_mismatched_binding"))
    && Says(check, "basis", Str("behavioral_attempt_ephemeral_epoch"))
    && ClaimsPaths(check)
    && exists before, behind :: Says(check, "exclusion_reason", Str(before + ("WI-320" + behind)))
  }

  ghost predicate ClaimsPaths(check: Fields) {
    && (exists j :: Says(check, "paths_proven", j)
                    && Names(j, multiset{Str("regista._genesis.append_v6_genesis"),
                                         Str("regista._v6_writer.append_v6_event")}))
    && Says(check, "shared_boundary_consumers", List([Str("regista._trust_log_writer.append_trust_log_event")]))
    && (exists j :: Says(check, "excluded_paths", j)
                    && Names(j, multiset{Str("regista._cli.cmd_trust_init_log"),
                                         Str("regista._cli.cmd_trust_delegate_registrar"),
                                         Str("regista._cli._resolve_trust_root_actor"),
                                         Str("regista._trust_log_writer.write_trust_genesis")}))
  }

  // ---- The gate

  ghost predicate Reported(probes: seq<Probe>, owner: string, id: string, check: Fields) {
    exists p :: p in probes && p.component == Str(owner) && Obj(check) in p.checks && Says(check, "id", Str(id))
  }

  ghost predicate Passes(probes: seq<Probe>, owner: string, id: string) {
    exists check :: Reported(probes, owner, id, check) && Says(check, "status", Str("pass"))
  }

  ghost predicate Opens(report: Report, store: Option<string>, project: Option<string>) {
    var probes := report.probes;
    && report.ok && probes != [] && (forall p :: p in probes ==> p.status == Pass) && ProbesSound(probes)
    && StoreMeasures(probes, store, project) && AllPass(probes) && BoundaryPasses(probes)
  }

  ghost predicate StoreMeasures(probes: seq<Probe>, store: Option<string>, project: Option<string>) {
    exists check :: Reported(probes, "regista", "regista.store_invariant_measurements", check)
                    && Measures(check, store, project)
  }

  ghost predicate BoundaryPasses(probes: seq<Probe>) {
    exists check :: Reported(probes, "regista", "regista.actor_boundary_signing", check) && IsBoundaryPass(check)
  }

  ghost predicate IsBoundaryPass(check: Fields) { Says(check, "status", Str("pass")) && ClaimsBoundary(check) }

  ghost predicate AllPass(probes: seq<Probe>) {
    && Passes(probes, "regista", "regista.load_bearing_fields_refused")
    && Passes(probes, "regista", "regista.closed_lineage_registry")
    && Passes(probes, "regista", "regista.first_write_admission")
    && Passes(probes, "cairn", "cairn.runtime_model_observed")
    && Passes(probes, "cairn", "cairn.unavailable_model_named")
    && Passes(probes, "cairn", "cairn.observation_failure_nonblocking")
    && Passes(probes, "agent-notes", "agent_notes.session_identity_resolvable")
  }

  // ---- The evaluator's predicates say the same

  lemma NotBlankMeaning(s: string)
    ensures Strip(s) != "" <==> NotBlank(s)
  {
    var lead, trail := StripLeaves(s);
    if Strip(s) != "" {
      assert s[|lead|] == Strip(s)[0];
    }
  }

  lemma NamespaceIs(component: string, space: string)
    ensures Underscored(space, component) <==> Namespace(component) == space + "."
  {
    var n := Namespace(component);
    assert n == n[..|component|] + ".";
    if n == space + "." {
      assert n[..|component|] == space;
    }
    if Underscored(space, component) {
      assert n[..|component|] == space;
    }
  }

  lemma BeginsMeaning(component: string, id: string)
    ensures StartsWith(id, Namespace(component)) <==> Begins(id, component)
  {
    var n := Namespace(component);
    var space := n[..|component|];
    assert n == space + ".";
    NamespaceIs(component, space);
    if StartsWith(id, n) {
      assert id == (space + ".") + id[|n|..];
      assert id == space + ("." + id[|n|..]);
    }
    if space', rest :| Underscored(space', component) && id == space' + ("." + rest) {
      NamespaceIs(component, space');
      assert id == (space' + ".") + rest;
    }
  }

  lemma TidyMeaning(component: string, id: string)
    ensures id != "" && Strip(id) == id && StartsWith(id, Namespace(component)) <==> IsTidy(component, id)
  {
    BeginsMeaning(component, id);
    if id != "" && !IsSpace(id[0]) && !IsSpace(id[|id| - 1]) {
      StripTakesSpace("", id, "");
      assert "" + (id + "") == id;
    }
  }

  lemma SoundMeaning(component: string, check: Json)
    ensures check.Obj? && CheckOk(component, check.fields) <==> IsSound(component, check)
  {
    if check.Obj? {
      var id := Get(check.fields, "id");
      if id.Str? {
        TidyMeaning(component, id.s);
      }
    }
  }

  lemma IdMeaning(component: string, check: Json, checks: seq<Json>)
    requires IsSound(component, check)
    ensures Get(check.fields, "id").Str?
    ensures Get(check.fields, "id").s in IdsOf(checks) <==> exists c :: c in checks && SameId(c, check)
  {
    var id := Get(check.fields, "id").s;
    if id in IdsOf(checks) {
      var c :| c in checks && c.Obj? && Get(c.fields, "id") == Str(id);
      assert SameId(c, check);
    }
  }

  ghost predicate NoneIn(seen: set<string>, checks: seq<Json>) {
    forall c :: c in checks && c.Obj? && Get(c.fields, "id").Str? ==> Get(c.fields, "id").s !in seen
  }

  lemma {:induction false} ChecksOkIs(component: string, checks: seq<Json>, seen: set<string>)
    ensures ChecksOk(component, checks, seen) <==> ChecksSound(component, checks) && NoneIn(seen, checks)
    decreases |checks|
  {
    if checks != [] {
      var before, last := checks[..|checks| - 1], checks[|checks| - 1];
      assert checks == before + [last];
      ChecksOkIs(component, before, seen);
      SoundMeaning(component, last);
      ChecksSoundStep(component, before, last);
      if IsSound(component, last) {
        IdMeaning(component, last, before);
        NoneInStep(seen, before, last);
      }
    }
  }

  lemma NoneInStep(seen: set<string>, before: seq<Json>, last: Json)
    requires last.Obj? && Get(last.fields, "id").Str?
    ensures NoneIn(seen, before + [last]) <==> NoneIn(seen, before) && Get(last.fields, "id").s !in seen
  {
    assert forall c :: c in before + [last] <==> c in before || c == last;
  }

  lemma ChecksSoundStep(component: string, before: seq<Json>, last: Json)
    ensures ChecksSound(component, before + [last]) <==>
            && ChecksSound(component, before) && IsSound(component, last)
            && forall c :: c in before ==> !SameId(c, last)
  {
    var checks := before + [last];
    var n := |before|;
    assert checks[n] == last && forall i :: 0 <= i < n ==> checks[i] == before[i];
    if ChecksSound(component, checks) {
      forall c | c in before ensures !SameId(c, last) {
        var i :| 0 <= i < n && before[i] == c;
        assert !SameId(checks[i], checks[n]);
      }
    }
  }

  lemma ProbesSoundStep(before: seq<Probe>, last: Probe)
    ensures ProbesSound(before + [last]) <==>
            && ProbesSound(before) && IsNamed(last.component) && ChecksSound(last.component.s, last.checks)
            && forall p :: p in before ==> Apart(p, last)
  {
    var probes := before + [last];
    var n := |before|;
    assert probes[n] == last && forall i :: 0 <= i < n ==> probes[i] == before[i];
    if ProbesSound(probes) {
      forall p | p in before ensures Apart(p, last) {
        var i :| 0 <= i < n && before[i] == p;
        assert Apart(probes[i], probes[n]);
      }
    }
  }

  lemma ApartMeaning(before: seq<Probe>, last: Probe)
    requires IsNamed(last.component) && ChecksSound(last.component.s, last.checks)
    ensures (forall p :: p in before ==> p.component != last.component) && NoneIn(AllIds(before), last.checks) <==>
            forall p :: p in before ==> Apart(p, last)
  {
    forall c | c in last.checks
      ensures c.Obj? && Get(c.fields, "id").Str?
      ensures Get(c.fields, "id").s in AllIds(before) <==> exists p, d :: p in before && d in p.checks && SameId(d, c)
    {
      assert IsSound(last.component.s, c);
      forall p | p in before
        ensures Get(c.fields, "id").s in IdsOf(p.checks) <==> exists d :: d in p.checks && SameId(d, c)
      {
        IdMeaning(last.component.s, c, p.checks);
      }
    }
  }

  lemma {:induction false} ProbesOkIs(probes: seq<Probe>)
    ensures ProbesOk(probes) <==> ProbesSound(probes)
    decreases |probes|
  {
    if probes != [] {
      var before, last := probes[..|probes| - 1], probes[|probes| - 1];
      assert probes == before + [last];
      ProbesOkIs(before);
      ProbesSoundStep(before, last);
      if last.component.Str? {
        NotBlankMeaning(last.component.s);
        ChecksOkIs(last.component.s, last.checks, AllIds(before));
        if IsNamed(last.component) && ChecksSound(last.component.s, last.checks) {
          ApartMeaning(before, last);
        }
      }
    }
  }

  lemma LookupIs(probes: seq<Probe>, owner: string, id: string, check: Fields)
    requires ProbesSound(probes)
    ensures Lookup(probes, owner, id) == Some(check) <==> Reported(probes, owner, id, check)
  {
    var found := FindProbe(probes, owner);
    if Reported(probes, owner, id, check) {
      var p :| p in probes && p.component == Str(owner) && Obj(check) in p.checks && Says(check, "id", Str(id));
      SameProbe(probes, p, found.value);
      var other := Obj(FindCheck(p.checks, id).value);
      SameCheck(p.component.s, p.checks, Obj(check), other);
    }
  }

  lemma SameProbe(probes: seq<Probe>, p: Probe, q: Probe)
    requires ProbesSound(probes) && p in probes && q in probes && p.component == q.component
    ensures p == q && ChecksSound(p.component.s, p.checks)
  {
    var i :| 0 <= i < |probes| && probes[i] == p;
    var j :| 0 <= j < |probes| && probes[j] == q;
    assert i < j ==> Apart(probes[i], probes[j]);
    assert j < i ==> Apart(probes[j], probes[i]);
  }

  lemma SameCheck(component: string, checks: seq<Json>, c: Json, d: Json)
    requires ChecksSound(component, checks) && c in checks && d in checks && SameId(c, d)
    ensures c == d
  {
    var i :| 0 <= i < |checks| && checks[i] == c;
    var j :| 0 <= j < |checks| && checks[j] == d;
    assert SameId(d, c);
  }

  lemma CoverageMeaning(row: Fields)
    ensures var coverage := Get(row, "lineage_coverage");
            (coverage.Obj? && coverage.fields.Keys == {"numerator", "denominator"}
             && coverage.fields["numerator"].EqualsZero() && coverage.fields["denominator"].EqualsZero())
            <==> exists n, d :: Says(row, "lineage_coverage", Obj(map["numerator" := n, "denominator" := d]))
                                && IsZero(n) && IsZero(d)
  {
    var coverage := Get(row, "lineage_coverage");
    if coverage.Obj? && coverage.fields.Keys == {"numerator", "denominator"} {
      var n, d := coverage.fields["numerator"], coverage.fields["denominator"];
      assert coverage.fields == map["numerator" := n, "denominator" := d];
    }
    if n, d :| Says(row, "lineage_coverage", Obj(map["numerator" := n, "denominator" := d])) && IsZero(n) && IsZero(d) {
      assert map["numerator" := n, "denominator" := d].Keys == {"numerator", "denominator"};
    }
  }

  lemma LineageMeaning(row: Fields)
    ensures LineagePopulationEmpty(row) && LineageTokensResolvable(row) && LineageUnambiguous(row) <==> NoLineage(row)
  {
    CoverageMeaning(row);
  }

  /** The row the evaluator admits is the empty one. */
  lemma RowMeaning(row: Fields)
    ensures RowOk(row) <==> EmptyRow(row)
  {
    LineageMeaning(row);
    if Get(row, "snapshot_id").Str? {
      NotBlankMeaning(Get(row, "snapshot_id").s);
    }
  }

  lemma OnlyRowMeaning(rows: multiset<Json>, project: string)
    ensures GateSpec.OneEmptyRow(rows, project) <==> exists row :: OnlyRow(rows, project, row) && EmptyRow(row)
  {
    forall row: Fields ensures GateSpec.IsOnlyRow(rows, Some(project), Obj(row)) <==> OnlyRow(rows, project, row) {
      assert forall f: Fields :: IsRowOf(Obj(f), Some(project)) <==> Says(f, "project", Str(project));
    }
    forall row: Fields ensures RowOk(row) <==> EmptyRow(row) { RowMeaning(row); }
    if GateSpec.OneEmptyRow(rows, project) {
      var row :| GateSpec.IsOnlyRow(rows, Some(project), row) && RowOk(row.fields);
      assert row == Obj(row.fields);
    }
    if row :| OnlyRow(rows, project, row) && EmptyRow(row) {
      assert GateSpec.IsOnlyRow(rows, Some(project), Obj(row)) && RowOk(Obj(row).fields);
    }
  }

  lemma ProjectMeaning(check: Fields, project: string)
    ensures OneEmptyRow(check, project) <==>
            var projects := Get(check, "projects");
            && projects.List? && |RowsOf(projects.items, Some(project))| == 1
            && RowOk(RowsOf(projects.items, Some(project))[0])
  {
    var projects := Get(check, "projects");
    if projects.List? {
      GateSpec.RowKept(projects.items, project);
      OnlyRowMeaning(multiset(projects.items), project);
    }
  }

  /** What the measurements must say. */
  lemma MeasurementMeaning(check: Fields, store: Option<string>, project: Option<string>)
    ensures MeasurementOk(check, store, project) <==> Measures(check, store, project)
  {
    if project.Some? {
      ProjectMeaning(check, project.value);
    }
  }

  // ---- Lists of names

  function Texts(items: seq<Json>): set<string> { set j | j in items && j.Str? :: j.s }

  function AsBag(names: set<string>): multiset<Json> { multiset(set n | n in names :: Str(n)) }

  ghost predicate Once(items: seq<Json>) { forall j :: j in items ==> multiset(items)[j] == 1 }

  lemma OnceStep(before: seq<Json>, last: Json)
    ensures Once(before + [last]) <==> Once(before) && last !in before
  {
    var items := before + [last];
    assert multiset(items) == multiset(before) + multiset{last};
    if Once(items) {
      assert last in items;
      forall j | j in before ensures multiset(before)[j] == 1 {
        assert j in items;
      }
    }
  }

  lemma {:induction false} TextsCount(items: seq<Json>)
    requires forall j :: j in items ==> j.Str?
    ensures |Texts(items)| <= |items| && (|Texts(items)| == |items| <==> Once(items))
    decreases |items|
  {
    if items != [] {
      var before, last := items[..|items| - 1], items[|items| - 1];
      assert items == before + [last];
      TextsCount(before);
      OnceStep(before, last);
      assert Texts(items) == Texts(before) + {last.s};
      assert last.s in Texts(before) <==> last in before;
    }
  }

  lemma BagIs(items: seq<Json>, names: set<string>)
    ensures multiset(items) == AsBag(names) <==>
            (forall j :: j in items ==> j.Str?) && Once(items) && Texts(items) == names
  {
    var bag := AsBag(names);
    if multiset(items) == bag {
      forall j | j in items ensures j.Str? && multiset(items)[j] == 1 { assert j in bag; }
      forall n ensures n in Texts(items) <==> n in names { assert Str(n) in items <==> Str(n) in bag; }
    } else if (forall j :: j in items ==> j.Str?) && Once(items) && Texts(items) == names {
      forall j ensures multiset(items)[j] == bag[j] {
        assert j in items <==> j.Str? && j.s in names;
      }
    }
  }

  lemma ListsMeaning(value: Json, expected: set<string>)
    ensures Lists(value, expected) <==> Names(value, AsBag(expected))
  {
    if value.List? {
      BagIs(value.items, expected);
      if forall j :: j in value.items ==> j.Str? {
        TextsCount(value.items);
      }
    }
  }

  lemma NamesOfPaths()
    ensures AsBag(PATHS) == multiset{Str("regista._genesis.append_v6_genesis"),
                                     Str("regista._v6_writer.append_v6_event")}
  {}

  lemma NamesOfConsumers(value: Json)
    ensures Names(value, AsBag(CONSUMERS)) <==> value == List([Str("regista._trust_log_writer.append_trust_log_event")])
  {
    var one := Str("regista._trust_log_writer.append_trust_log_event");
    assert AsBag(CONSUMERS) == multiset{one};
    if Names(value, multiset{one}) {
      assert |value.items| == |multiset(value.items)| == 1;
      assert value.items[0] in multiset(value.items);
      assert value.items == [one];
    }
  }

  lemma NamesOfExclusions()
    ensures AsBag(EXCLUSIONS) ==
            multiset{Str("regista._cli.cmd_trust_init_log"), Str("regista._cli.cmd_trust_delegate_registrar"),
                     Str("regista._cli._resolve_trust_root_actor"),
                     Str("regista._trust_log_writer.write_trust_genesis")}
  {}

  lemma ReasonMeaning(check: Fields)
    ensures Get(check, "exclusion_reason").Str? && Infix("WI-320", Get(check, "exclusion_reason").s) <==>
            exists before, behind :: Says(check, "exclusion_reason", Str(before + ("WI-320" + behind)))
  {
    if Get(check, "exclusion_reason").Str? {
      InfixStands("WI-320", Get(check, "exclusion_reason").s);
    }
  }

  lemma PathsMeaning(check: Fields)
    ensures ClaimsPaths(check) <==>
            && Lists(Get(check, "paths_proven"), PATHS) && Lists(Get(check, "excluded_paths"), EXCLUSIONS)
            && Lists(Get(check, "shared_boundary_consumers"), CONSUMERS)
  {
    ListsMeaning(Get(check, "paths_proven"), PATHS);
    ListsMeaning(Get(check, "shared_boundary_consumers"), CONSUMERS);
    ListsMeaning(Get(check, "excluded_paths"), EXCLUSIONS);
    NamesOfPaths();
    NamesOfConsumers(Get(check, "shared_boundary_consumers"));
    NamesOfExclusions();
  }

  /** What the boundary check must claim. */
  lemma BoundaryMeaning(check: Fields)
    ensures BoundaryOk(check) <==> ClaimsBoundary(check)
  {
    PathsMeaning(check);
    ReasonMeaning(check);
  }

  // ---- The verdict

  lemma PassMeaning(probes: seq<Probe>, r: Required)
    requires ProbesSound(probes) && forall p :: p in probes ==> p.status == Pass
    requires r.id != BOUNDARY
    ensures RequiredPasses(probes, r) <==> Passes(probes, r.owner, r.id)
  {
    var found := Lookup(probes, r.owner, r.id);
    if found.Some? {
      LookupIs(probes, r.owner, r.id, found.value);
    }
    if check :| Reported(probes, r.owner, r.id, check) && Says(check, "status", Str("pass")) {
      LookupIs(probes, r.owner, r.id, check);
    }
  }

  /** Looking a check up, or asking for a reported one. */
  lemma LookupSuch(probes: seq<Probe>, owner: string, id: string, good: Fields -> bool)
    requires ProbesSound(probes)
    ensures (exists check :: Reported(probes, owner, id, check) && good(check)) <==>
            Lookup(probes, owner, id).Some? && good(Lookup(probes, owner, id).value)
  {
    var found := Lookup(probes, owner, id);
    if found.Some? {
      LookupIs(probes, owner, id, found.value);
    }
    if check :| Reported(probes, owner, id, check) && good(check) {
      LookupIs(probes, owner, id, check);
    }
  }

  lemma BoundarySatisfied(check: Fields)
    ensures Satisfies(check, BOUNDARY) <==> IsBoundaryPass(check)
  {
    BoundaryMeaning(check);
  }

  lemma BoundaryPassMeaning(probes: seq<Probe>)
    requires ProbesSound(probes) && forall p :: p in probes ==> p.status == Pass
    ensures RequiredPasses(probes, Required(BOUNDARY, "regista")) <==> BoundaryPasses(probes)
  {
    var found := Lookup(probes, "regista", BOUNDARY);
    LookupSuch(probes, "regista", BOUNDARY, check => IsBoundaryPass(check));
    if found.Some? {
      BoundarySatisfied(found.value);
    }
  }

  lemma StoreMeaning(probes: seq<Probe>, store: Option<string>, project: Option<string>)
    requires ProbesSound(probes)
    ensures StoreMeasures(probes, store, project) <==> StoreOk(probes, store, project)
  {
    var found := Lookup(probes, "regista", MEASUREMENTS);
    LookupSuch(probes, "regista", MEASUREMENTS, check => Measures(check, store, project));
    if found.Some? {
      MeasurementMeaning(found.value, store, project);
    }
  }

  ghost predicate PassesOf(probes: seq<Probe>, r: Required) { Passes(probes, r.owner, r.id) }

  lemma MembersPass(probes: seq<Probe>, required: seq<Required>)
    ensures (forall r :: r in required ==> RequiredPasses(probes, r)) <==>
            forall i :: 0 <= i < |required| ==> RequiredPasses(probes, required[i])
  {}

  /** Whatever the names are. */
  lemma EightRequired(probes: seq<Probe>, required: seq<Required>)
    requires ProbesSound(probes) && forall p :: p in probes ==> p.status == Pass
    requires |required| == 8 && required[4] == Required(BOUNDARY, "regista")
    requires forall i :: 0 <= i < 8 && i != 4 ==> required[i].id != BOUNDARY
    ensures (forall r :: r in required ==> RequiredPasses(probes, r)) <==>
            && RequiredPasses(probes, required[4])
            && forall i :: 0 <= i < 8 && i != 4 ==> PassesOf(probes, required[i])
  {
    MembersPass(probes, required);
    forall i | 0 <= i < 8 && i != 4 ensures RequiredPasses(probes, required[i]) <==> PassesOf(probes, required[i]) {
      PassMeaning(probes, required[i]);
    }
  }

  lemma RequiredNames()
    ensures |REQUIRED| == 8 && REQUIRED[4] == Required(BOUNDARY, "regista")
    ensures REQUIRED[0] == Required("agent_notes.session_identity_resolvable", "agent-notes")
    ensures REQUIRED[1] == Required("cairn.observation_failure_nonblocking", "cairn")
    ensures REQUIRED[2] == Required("cairn.runtime_model_observed", "cairn")
    ensures REQUIRED[3] == Required("cairn.unavailable_model_named", "cairn")
    ensures REQUIRED[5] == Required("regista.closed_lineage_registry", "regista")
    ensures REQUIRED[6] == Required("regista.first_write_admission", "regista")
    ensures REQUIRED[7] == Required("regista.load_bearing_fields_refused", "regista")
  {}

  lemma OtherIds(i: nat)
    requires i < 8 && i != 4
    ensures REQUIRED[i].id != BOUNDARY
  {}

  lemma SevenNames(probes: seq<Probe>, required: seq<Required>)
    requires required == REQUIRED && |required| == 8
    ensures AllPass(probes) <==>
            && PassesOf(probes, required[0]) && PassesOf(probes, required[1]) && PassesOf(probes, required[2])
            && PassesOf(probes, required[3]) && PassesOf(probes, required[5]) && PassesOf(probes, required[6])
            && PassesOf(probes, required[7])
  {
    RequiredNames();
  }

  lemma SevenPass(probes: seq<Probe>, required: seq<Required>)
    requires required == REQUIRED && |required| == 8
    ensures (forall i :: 0 <= i < 8 && i != 4 ==> PassesOf(probes, required[i])) <==> AllPass(probes)
  {
    SevenNames(probes, required);
    Seven(seq(8, i requires 0 <= i < 8 => PassesOf(probes, required[i])));
  }

  lemma Seven(b: seq<bool>)
    requires |b| == 8
    ensures (forall i :: 0 <= i < 8 && i != 4 ==> b[i]) <==> b[0] && b[1] && b[2] && b[3] && b[5] && b[6] && b[7]
  {}

  lemma AllRequired(probes: seq<Probe>)
    requires ProbesSound(probes) && forall p :: p in probes ==> p.status == Pass
    ensures AllRequiredPass(probes) <==> AllPass(probes) && BoundaryPasses(probes)
  {
    var required := REQUIRED;
    RequiredNames();
    forall i | 0 <= i < 8 && i != 4 ensures required[i].id != BOUNDARY { OtherIds(i); }
    EightRequired(probes, required);
    BoundaryPassMeaning(probes);
    SevenPass(probes, required);
  }

  lemma VerdictIs(report: Report, store: Option<string>, project: Option<string>, measured: bool, required: bool)
    requires measured == StoreOk(report.probes, store, project) && required == AllRequiredPass(report.probes)
    ensures VerdictOf(report, store, project) <==> Healthy(report) && ProbesOk(report.probes) && measured && required
  {}

  lemma OpensIs(report: Report, store: Option<string>, project: Option<string>, measured: bool, required: bool)
    requires measured == StoreMeasures(report.probes, store, project)
    requires required == (AllPass(report.probes) && BoundaryPasses(report.probes))
    ensures Opens(report, store, project) <==> Healthy(report) && ProbesSound(report.probes) && measured && required
  {}

  /** The gate opens exactly for a report that says all this. */
  lemma OpensIff(report: Report, store: Option<string>, project: Option<string>)
    ensures VerdictOf(report, store, project) <==> Opens(report, store, project)
  {
    var probes := report.probes;
    ProbesOkIs(probes);
    VerdictIs(report, store, project, StoreOk(probes, store, project), AllRequiredPass(probes));
    OpensIs(report, store, project, StoreMeasures(probes, store, project), AllPass(probes) && BoundaryPasses(probes));
    if ProbesSound(probes) {
      StoreMeaning(probes, store, project);
      if Healthy(report) {
        AllRequired(probes);
      }
    }
  }
}
