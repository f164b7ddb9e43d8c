/** The verdict on a whole host: every constituent of the manifest, and the wheel files of those not installed. */
module HostAttestation {
  import opened Attestation
  import opened AttestationOutcome

  function Weaker(s: Strength): nat {
    match s
    case WheelHashChain => 0
    case RecordedArchiveHash => 1
    case InstallRecordOnly => 2
    case VersionOnly => 3
    case NoProvenance => 4
    case NotApplicable => 5
  }

  const STRENGTH_ORDER :=
      [WheelHashChain, RecordedArchiveHash, InstallRecordOnly, VersionOnly, NoProvenance, NotApplicable]

  lemma OrderedByWeakness()
    ensures forall s :: 0 <= Weaker(s) < |STRENGTH_ORDER| && STRENGTH_ORDER[Weaker(s)] == s
    ensures Weaker(WheelHashChain) < Weaker(RecordedArchiveHash) < Weaker(InstallRecordOnly) < Weaker(VersionOnly)
    ensures Weaker(VersionOnly) < Weaker(NoProvenance) < Weaker(NotApplicable)
  {}

  /** The weakest strength present; NotApplicable when there is none. */
  method Weakest(strengths: seq<Strength>) returns (r: Strength)
    ensures strengths == [] ==> r == NotApplicable
    ensures strengths != [] ==> r in strengths
    ensures forall s :: s in strengths ==> Weaker(s) <= Weaker(r)
  {
    OrderedByWeakness();
    assert strengths != [] ==> strengths[0] in strengths;
    var i := |STRENGTH_ORDER|;
    while i > 0
      invariant 0 <= i <= |STRENGTH_ORDER|
      invariant forall s :: s in strengths ==> Weaker(s) < i
    {
      i := i - 1;
      if STRENGTH_ORDER[i] in strengths {
        return STRENGTH_ORDER[i];
      }
    }
    r := NotApplicable;
  }

  function AttestOne(expected: Constituent, provenance: map<string, Provenance>, wheels: WheelDir): Attested {
    if expected.ident !in provenance then Terminal(expected, NoProvenance)
    else Attest(expected, provenance[expected.ident], wheels)
  }

  function AttestAll(all: seq<Constituent>, provenance: map<string, Provenance>, wheels: WheelDir): seq<Attested> {
    seq(|all|, i requires 0 <= i < |all| => AttestOne(all[i], provenance, wheels))
  }

  predicate Considered(a: Attested) { a.strength != NotApplicable }

  predicate AnyConsidered(components: seq<Attested>) { exists a :: a in components && Considered(a) }

  predicate AllBind(components: seq<Attested>) { forall a :: a in components && Considered(a) ==> a.Binds() }

  predicate AllOk(components: seq<Attested>) { forall a :: a in components ==> a.Ok() }

  /** Attested from an install on this host, with whatever result. */
  predicate AttestedHere(components: seq<Attested>, ident: string) {
    exists a :: a in components && a.component == ident && a.strength != NotApplicable && a.strength != NoProvenance
  }

  predicate WheelFileMatches(expected: Constituent, wheels: WheelDir) {
    && wheels.Some? && wheels.value(expected.wheelFilename).Present?
    && wheels.value(expected.wheelFilename).sha256 == expected.wheelSha256
  }

  /** Which constituents have their wheel file read and compared. */
  function ReadWheelFiles(all: seq<Constituent>, components: seq<Attested>, wheels: WheelDir): set<nat> {
    set i: nat | i < |all| && all[i].wheelSha256 != "" && !AttestedHere(components, all[i].ident)
                 && wheels.Some? && wheels.value(all[i].wheelFilename).Present?
  }

  datatype Report = Report(ok: bool, strength: Strength, components: seq<Attested>, unbound: seq<string>,
                           wheelFilesChecked: nat, wheelFileMismatches: seq<string>)

  /** `umbrella` is the last of `all` where the manifest has one. */
  method VerifyInstalledArtifacts(all: seq<Constituent>, provenance: map<string, Provenance>, wheels: WheelDir,
                                  requireBinding: bool) returns (report: Report)
    ensures report.components == AttestAll(all, provenance, wheels)
    // the verdict
    ensures report.ok <==> AllOk(report.components) && report.wheelFileMismatches == []
                           && (requireBinding ==> AnyConsidered(report.components) && AllBind(report.components))
    // who does not bind
    ensures forall c :: c in report.unbound <==>
              exists a :: a in report.components && Considered(a) && !a.Binds() && a.component == c
    // the reported strength is the weakest one attained
    ensures AnyConsidered(report.components) ==>
              exists a :: a in report.components && Considered(a) && a.strength == report.strength
    ensures forall a :: a in report.components && Considered(a) ==> Weaker(a.strength) <= Weaker(report.strength)
    ensures !AnyConsidered(report.components) ==> report.strength == NotApplicable
    // the wheel files of what is not attested here
    ensures wheels.Some? ==>
              (report.wheelFileMismatches == [] <==>
               forall e :: e in all && e.wheelSha256 != "" && !AttestedHere(report.components, e.ident) ==>
                   WheelFileMatches(e, wheels))
    ensures wheels.None? ==> report.wheelFileMismatches == []
    ensures report.wheelFilesChecked == |ReadWheelFiles(all, report.components, wheels)|
  {
    var components: seq<Attested> := [];
    for i := 0 to |all|
      invariant components == AttestAll(all[..i], provenance, wheels)
    {
      var expected := all[i];
      var attested := Terminal(expected, NoProvenance);
      if expected.ident in provenance {
        attested := AttestComponent(expected, provenance[expected.ident], wheels);
      }
      components := components + [attested];
    }
    assert all[..|all|] == all;
    var checked, wheelMismatches := CheckWheelFiles(all, components, wheels);
    var strengths, unbound, failed := Fold(components);
    var strength := Weakest(strengths);
    var ok := failed == 0 && wheelMismatches == [] && !(requireBinding && (unbound != [] || strengths == []));
    report := Report(ok, strength, components, unbound, checked, wheelMismatches);
  }

  lemma OneMoreWheelFile(all: seq<Constituent>, e: Constituent, components: seq<Attested>, wheels: WheelDir)
    ensures |ReadWheelFiles(all + [e], components, wheels)| == |ReadWheelFiles(all, components, wheels)|
            + if e.wheelSha256 != "" && !AttestedHere(components, e.ident) && wheels.Some?
                 && wheels.value(e.wheelFilename).Present? then 1 else 0
  {
    var before, after := ReadWheelFiles(all, components, wheels), ReadWheelFiles(all + [e], components, wheels);
    assert forall i: nat :: i < |all| ==> (all + [e])[i] == all[i];
    assert after == before + if |all| in after then {|all|} else {};
  }

  method CheckWheelFiles(all: seq<Constituent>, components: seq<Attested>, wheels: WheelDir)
    returns (checked: nat, mismatches: seq<string>)
    ensures checked == |ReadWheelFiles(all, components, wheels)|
    ensures wheels.None? ==> mismatches == []
    ensures wheels.Some? ==>
              (mismatches == [] <==>
               forall e :: e in all && e.wheelSha256 != "" && !AttestedHere(components, e.ident) ==>
                   WheelFileMatches(e, wheels))
  {
    checked, mismatches := 0, [];
    if wheels.None? {
      return;
    }
    for i := 0 to |all|
      invariant checked == |ReadWheelFiles(all[..i], components, wheels)|
      invariant mismatches == [] <==>
                forall e :: e in all[..i] && e.wheelSha256 != "" && !AttestedHere(components, e.ident) ==>
                    WheelFileMatches(e, wheels)
    {
      var expected := all[i];
      assert all[..i + 1] == all[..i] + [expected];
      OneMoreWheelFile(all[..i], expected, components, wheels);
      if AttestedHere(components, expected.ident) || expected.wheelSha256 == "" {
        continue;
      }
      match wheels.value(expected.wheelFilename) {
        case NotThere => mismatches := mismatches + [expected.ident];
        case UnreadableFile => mismatches := mismatches + [expected.ident];
        case Present(sha256, _) =>
          checked := checked + 1;
          if sha256 != expected.wheelSha256 {
            mismatches := mismatches + [expected.ident];
          }
      }
    }
    assert all[..|all|] == all;
  }

  /** The strengths of what is considered, who among them does not bind, and how many mismatches there are. */
  method Fold(components: seq<Attested>) returns (strengths: seq<Strength>, unbound: seq<string>, mismatches: nat)
    ensures forall s :: s in strengths <==> exists a :: a in components && Considered(a) && a.strength == s
    ensures forall c :: c in unbound <==> exists a :: a in components && Considered(a) && !a.Binds() && a.component == c
    ensures strengths != [] <==> AnyConsidered(components)
    ensures unbound == [] <==> AllBind(components)
    ensures mismatches == 0 <==> AllOk(components)
  {
    strengths, unbound, mismatches := [], [], 0;
    for i := 0 to |components|
      invariant forall s :: s in strengths <==> exists a :: a in components[..i] && Considered(a) && a.strength == s
      invariant forall c :: c in unbound <==>
                exists a :: a in components[..i] && Considered(a) && !a.Binds() && a.component == c
      invariant strengths != [] <==> AnyConsidered(components[..i])
      invariant unbound == [] <==> AllBind(components[..i])
      invariant mismatches == 0 <==> AllOk(components[..i])
    {
      var a := components[i];
      assert components[..i + 1] == components[..i] + [a];
      assert forall x :: x in components[..i + 1] <==> x in components[..i] || x == a;
      assert AllOk(components[..i + 1]) <==> AllOk(components[..i]) && |a.mismatches| == 0 by {
        assert a in components[..i + 1];
      }
      mismatches := mismatches + |a.mismatches|;
      if Considered(a) {
        strengths := strengths + [a.strength];
        if !a.Binds() {
          unbound := unbound + [a.component];
        }
      }
    }
    assert components[..|components|] == components;
  }

  // ---- What a verdict under required binding says

  /** Nothing of the manifest's is expected to be installed here from a release wheel. */
  predicate OutOfScope(expected: Constituent, provenance: map<string, Provenance>) {
    && expected.ident in provenance
    && var p := provenance[expected.ident];
       p.mode.ModeAbsent? || (p.mode.ModeKnown? && p.source in {Editable, Local, Vcs})
  }

  /** The constituent is bound to the manifest: by its files, or by the hash its installer recorded. */
  ghost predicate Bound(expected: Constituent, provenance: map<string, Provenance>, wheels: WheelDir) {
    && expected.ident in provenance
    && var p := provenance[expected.ident]; ChainHolds(expected, p, wheels) || ArchiveHolds(expected, p, wheels)
  }

  lemma OneBinds(expected: Constituent, provenance: map<string, Provenance>, wheels: WheelDir)
    ensures var a := AttestOne(expected, provenance, wheels);
            && (Considered(a) <==> !OutOfScope(expected, provenance))
            && (a.Binds() <==> Bound(expected, provenance, wheels))
  {
    if expected.ident in provenance {
      BindsIffChainOrArchive(expected, provenance[expected.ident], wheels);
      ConsideredIffInScope(expected, provenance[expected.ident], wheels);
    }
  }

  lemma ConsideredIffInScope(expected: Constituent, p: Provenance, wheels: WheelDir)
    ensures Attest(expected, p, wheels).strength == NotApplicable <==>
            p.mode.ModeAbsent? || (p.mode.ModeKnown? && p.source in {Editable, Local, Vcs})
  {}

  /** What the verdict asks when binding is required: something in scope, and all of it bound. */
  lemma RequiredBindingMeaning(all: seq<Constituent>, provenance: map<string, Provenance>, wheels: WheelDir)
    ensures var components := AttestAll(all, provenance, wheels);
            && (AnyConsidered(components) <==> exists e :: e in all && !OutOfScope(e, provenance))
            && (AllBind(components) <==>
                forall e :: e in all && !OutOfScope(e, provenance) ==> Bound(e, provenance, wheels))
  {
    var components := AttestAll(all, provenance, wheels);
    forall e | e in all
      ensures AttestOne(e, provenance, wheels) in components
      ensures Considered(AttestOne(e, provenance, wheels)) <==> !OutOfScope(e, provenance)
      ensures AttestOne(e, provenance, wheels).Binds() <==> Bound(e, provenance, wheels)
    {
      var i :| 0 <= i < |all| && all[i] == e;
      assert components[i] == AttestOne(e, provenance, wheels);
      OneBinds(e, provenance, wheels);
    }
    forall a | a in components ensures exists e :: e in all && a == AttestOne(e, provenance, wheels) {
      var i :| 0 <= i < |components| && components[i] == a;
      assert all[i] in all;
    }
  }

  /** Nothing known of the constituent is contradicted; what is not here, or is no release wheel, contradicts
      nothing. */
  ghost predicate Uncontradicted(expected: Constituent, provenance: map<string, Provenance>, wheels: WheelDir) {
    expected.ident in provenance && Attestable(provenance[expected.ident]) ==>
      && IdentityHolds(expected, provenance[expected.ident], wheels)
      && TreeOk(expected, provenance[expected.ident], wheels)
  }

  lemma OneOk(expected: Constituent, provenance: map<string, Provenance>, wheels: WheelDir)
    ensures AttestOne(expected, provenance, wheels).Ok() <==> Uncontradicted(expected, provenance, wheels)
  {
    if expected.ident in provenance {
      OkIffNothingContradicts(expected, provenance[expected.ident], wheels);
    }
  }

  /** What the verdict asks in any case: no constituent is contradicted. */
  lemma VerdictMeaning(all: seq<Constituent>, provenance: map<string, Provenance>, wheels: WheelDir)
    ensures AllOk(AttestAll(all, provenance, wheels)) <==>
            forall e :: e in all ==> Uncontradicted(e, provenance, wheels)
  {
    var components := AttestAll(all, provenance, wheels);
    forall e | e in all
      ensures AttestOne(e, provenance, wheels) in components
      ensures AttestOne(e, provenance, wheels).Ok() <==> Uncontradicted(e, provenance, wheels)
    {
      var i :| 0 <= i < |all| && all[i] == e;
      assert components[i] == AttestOne(e, provenance, wheels);
      OneOk(e, provenance, wheels);
    }
    forall a | a in components ensures exists e :: e in all && a == AttestOne(e, provenance, wheels) {
      var i :| 0 <= i < |components| && components[i] == a;
      assert all[i] in all;
    }
  }
}
