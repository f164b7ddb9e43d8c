/** What the result of an attestation says: when nothing mismatches, which rung is reached, and what is named. */
module AttestationOutcome {
  import opened PyText
  import opened Coverage
  import opened Attestation
  import Sorting

  // ---- Nothing mismatches

  /** The row is not contradicted: it gives no digest, describes no place on disk, or matches its file. */
  ghost predicate RowHolds(host: Host, recordName: string, relative: string, expected: Option<string>) {
    relative == recordName || Relocated(relative) || expected.None? || FileMatches(host, relative, expected)
  }

  ghost predicate RowsHold(host: Host, rows: Rows, recordName: string) {
    forall k :: k in rows ==> RowHolds(host, recordName, k, rows[k])
  }

  /** A script that is there and shows its target imports one that the wheel declares, if it declares any. */
  ghost predicate ScriptDeclared(host: Host, declared: set<(string, string)>, row: string) {
    host.resolve(row).Some? && host.isFile(host.resolve(row).value) && declared != {} ==>
      host.script(host.resolve(row).value).Imports? ==> host.script(host.resolve(row).value).target in declared
  }

  ghost predicate ScriptsDeclared(host: Host, declared: set<(string, string)>, record: Rows) {
    forall r :: r in record && IsScriptRow(r) ==> ScriptDeclared(host, declared, r)
  }

  lemma FateFails(host: Host, recordName: string, relative: string, expected: Option<string>)
    ensures RowFate(host, recordName, relative, expected).Failed? <==> !RowHolds(host, recordName, relative, expected)
  {
    VerifiedIffMatches(host, recordName, relative, expected);
    InfixStands(".data/", relative);
  }

  lemma {:induction false} RowsFail(host: Host, recordName: string, rows: Rows, keys: seq<string>, account: Account)
    requires forall k :: k in keys ==> k in rows
    ensures TakeRows(host, recordName, rows, keys, account).mismatches == [] <==>
            account.mismatches == [] && forall k :: k in keys ==> RowHolds(host, recordName, k, rows[k])
    decreases |keys|
  {
    if keys != [] {
      var before, k := keys[..|keys| - 1], keys[|keys| - 1];
      RowsFail(host, recordName, rows, before, account);
      FateFails(host, recordName, k, rows[k]);
      assert keys == before + [k];
    }
  }

  lemma AllRowsFail(host: Host, recordName: string, rows: Rows, account: Account)
    ensures TakeAllRows(host, recordName, rows, account).mismatches == [] <==>
            account.mismatches == [] && RowsHold(host, rows, recordName)
  {
    RowsFail(host, recordName, rows, Sorting.Sorted(rows.Keys), account);
  }

  lemma ScriptFails(host: Host, declared: set<(string, string)>, row: string, account: Account)
    ensures TakeScript(host, declared, row, account).mismatches == [] <==>
            account.mismatches == [] && ScriptDeclared(host, declared, row)
  {}

  lemma {:induction false} ScriptsFail(host: Host, declared: set<(string, string)>, rows: seq<string>, account: Account)
    ensures TakeScripts(host, declared, rows, account).mismatches == [] <==>
            account.mismatches == [] && forall r :: r in rows ==> ScriptDeclared(host, declared, r)
    decreases |rows|
  {
    if rows != [] {
      var before, r := rows[..|rows| - 1], rows[|rows| - 1];
      ScriptsFail(host, declared, before, account);
      ScriptFails(host, declared, r, TakeScripts(host, declared, before, account));
      assert rows == before + [r];
    }
  }

  lemma RecordScriptsFail(host: Host, declared: set<(string, string)>, record: Rows, account: Account)
    ensures TakeScripts(host, declared, Sorting.Sorted(ConsoleScriptRows(record)), account).mismatches == [] <==>
            account.mismatches == [] && ScriptsDeclared(host, declared, record)
  {
    ScriptsFail(host, declared, Sorting.Sorted(ConsoleScriptRows(record)), account);
    forall r ensures r in ConsoleScriptRows(record) <==> r in record && IsScriptRow(r) { ScriptRowsMeaning(record, r); }
  }

  /** The rows of the checked tree hold: the wheel's before the install's, where there is a right wheel. */
  ghost predicate TreeHolds(install: Install, record: Rows, lookup: WheelLookup) {
    match lookup
    case RightWheel(wheel) =>
      && RowsHold(install.host, wheel.record, wheel.recordName)
      && (forall k :: k in record && k !in wheel.record ==> RowHolds(install.host, install.recordName, k, record[k]))
      && ScriptsDeclared(install.host, wheel.declared, record)
    case _ => RowsHold(install.host, record, install.recordName)
  }

  lemma InstallOnlyHolds(install: Install, record: Rows, wheel: Wheel)
    ensures RowsHold(install.host, InstallOnly(record, wheel), install.recordName) <==>
            forall k :: k in record && k !in wheel.record ==> RowHolds(install.host, install.recordName, k, record[k])
  {
    assert forall k :: k in InstallOnly(record, wheel) <==> k in record && k !in wheel.record;
  }

  lemma InstallFails(install: Install, record: Rows, lookup: WheelLookup, account: Account)
    ensures TakeInstall(install, record, lookup, account).mismatches == [] <==>
            account.mismatches == [] && TreeHolds(install, record, lookup)
  {
    match lookup {
      case RightWheel(wheel) =>
        var a := TakeAllRows(install.host, wheel.recordName, wheel.record, account);
        var b := TakeAllRows(install.host, install.recordName, InstallOnly(record, wheel), a);
        AllRowsFail(install.host, wheel.recordName, wheel.record, account);
        AllRowsFail(install.host, install.recordName, InstallOnly(record, wheel), a);
        InstallOnlyHolds(install, record, wheel);
        RecordScriptsFail(install.host, wheel.declared, record, b);
      case _ => AllRowsFail(install.host, install.recordName, record, account);
    }
  }

  /** Version, file name, archive hash, wheel and record are what they must be, as far as they are known. */
  ghost predicate IdentityHolds(expected: Constituent, p: Provenance, wheels: WheelDir) {
    && p.version == Some(expected.version)
    && (p.installedFrom.Some? && expected.wheelFilename != "" ==> p.installedFrom.value == expected.wheelFilename)
    && (expected.wheelSha256 != "" && p.archiveSha256 != "" ==> p.archiveSha256 == expected.wheelSha256)
    && (p.install.Some? ==> p.install.value.record.Some?)
    && NoBadWheel(expected, wheels)
  }

  ghost predicate WheelAtHand(expected: Constituent, wheels: WheelDir) {
    exists wheel :: HasRightWheel(expected, wheels, wheel)
  }

  /** Where there is a tree, its rows hold, with those of the wheel the manifest names where that is at hand. */
  ghost predicate TreeOk(expected: Constituent, p: Provenance, wheels: WheelDir) {
    forall install, record :: IsTree(p, install, record) ==>
      && (forall wheel :: HasRightWheel(expected, wheels, wheel) ==> TreeHolds(install, record, RightWheel(wheel)))
      && (WheelAtHand(expected, wheels) || RowsHold(install.host, record, install.recordName))
  }

  lemma TreeOkIs(expected: Constituent, p: Provenance, wheels: WheelDir)
    ensures TreeOk(expected, p, wheels) <==>
            TreeChecked(p) ==>
              TreeHolds(p.install.value, p.install.value.record.value, LookUpWheel(expected, wheels))
  {
    var lookup := LookUpWheel(expected, wheels);
    forall wheel ensures HasRightWheel(expected, wheels, wheel) <==> lookup == RightWheel(wheel) {
      RightWheelIsLookedUp(expected, wheels, wheel);
    }
    if TreeChecked(p) {
      TreeIs(p, p.install.value, p.install.value.record.value);
    }
  }

  lemma IdentityFails(expected: Constituent, p: Provenance, wheels: WheelDir)
    ensures IdentityHolds(expected, p, wheels) <==>
            && Account0(expected, p, wheels).mismatches == []
            && (ArchiveCompared(expected, p) ==> p.archiveSha256 == expected.wheelSha256)
  {
    NoBadWheelMeaning(expected, wheels);
  }

  lemma ConcludeOk(expected: Constituent, p: Provenance, lookup: WheelLookup, tree: Strength, all: Account)
    ensures Conclude(expected, p, lookup, tree, all).Ok() <==>
            all.mismatches == [] && (ArchiveCompared(expected, p) ==> p.archiveSha256 == expected.wheelSha256)
  {}

  lemma TreeAccountOk(p: Provenance, lookup: WheelLookup, first: Account)
    requires TreeChecked(p)
    ensures Account1(p, lookup, first).mismatches == [] <==>
            first.mismatches == [] && TreeHolds(p.install.value, p.install.value.record.value, lookup)
  {
    var install, record := p.install.value, p.install.value.record.value;
    SurroundingsFailNothing(install, record, TakeInstall(install, record, lookup, first));
    InstallFails(install, record, lookup, first);
  }

  /** A component is ok exactly when nothing known about it is contradicted, or when there is nothing to attest. */
  lemma OkIffNothingContradicts(expected: Constituent, p: Provenance, wheels: WheelDir)
    ensures Attest(expected, p, wheels).Ok() <==>
            !Attestable(p) || (IdentityHolds(expected, p, wheels) && TreeOk(expected, p, wheels))
  {
    if Attestable(p) {
      var lookup, first := LookUpWheel(expected, wheels), Account0(expected, p, wheels);
      IdentityFails(expected, p, wheels);
      TreeOkIs(expected, p, wheels);
      if TreeChecked(p) {
        var all := Account1(p, lookup, first);
        var tree := if all.mismatches != [] then VersionOnly
                    else if lookup.RightWheel? then WheelHashChain else InstallRecordOnly;
        TreeConcludes(expected, p, wheels);
        ConcludeOk(expected, p, lookup, tree, all);
        TreeAccountOk(p, lookup, first);
      } else {
        ConcludeOk(expected, p, lookup, VersionOnly, first);
      }
    }
  }

  // ---- Which rung is reached

  ghost predicate HasTree(p: Provenance) { exists install, record :: IsTree(p, install, record) }

  lemma HasTreeIs(p: Provenance)
    ensures HasTree(p) <==> TreeChecked(p)
  {
    if TreeChecked(p) {
      TreeIs(p, p.install.value, p.install.value.record.value);
    }
  }

  /** The rung, by what could be compared and whether anything mismatched. */
  ghost function Rung(expected: Constituent, p: Provenance, wheels: WheelDir, ok: bool): Strength {
    if p.mode == ModeUnknown then NoProvenance
    else if p.mode == ModeAbsent || p.source in {Editable, Local, Vcs} then NotApplicable
    else if !ok then VersionOnly
    else if HasTree(p) && WheelAtHand(expected, wheels) then WheelHashChain
    else if expected.wheelSha256 != "" && p.archiveSha256 != "" then RecordedArchiveHash
    else if HasTree(p) then InstallRecordOnly
    else VersionOnly
  }

  lemma ConcludedStrength(expected: Constituent, p: Provenance, lookup: WheelLookup, tree: Strength, all: Account)
    requires all.mismatches != [] ==> tree == VersionOnly
    ensures var r := Conclude(expected, p, lookup, tree, all);
            r.strength == if !r.Ok() then VersionOnly
                          else if tree == WheelHashChain || !ArchiveCompared(expected, p) then tree
                          else RecordedArchiveHash
  {}

  lemma RungIs(expected: Constituent, p: Provenance, wheels: WheelDir, ok: bool, tree: bool, wheel: bool)
    requires Attestable(p) && tree == HasTree(p) && wheel == WheelAtHand(expected, wheels)
    ensures Rung(expected, p, wheels, ok) ==
            if !ok then VersionOnly
            else if tree && wheel then WheelHashChain
            else if ArchiveCompared(expected, p) then RecordedArchiveHash
            else if tree then InstallRecordOnly else VersionOnly
  {}

  lemma StrengthOfTree(expected: Constituent, p: Provenance, wheels: WheelDir)
    requires Attestable(p) && TreeChecked(p)
    ensures Attest(expected, p, wheels).strength == Rung(expected, p, wheels, Attest(expected, p, wheels).Ok())
  {
    var lookup := LookUpWheel(expected, wheels);
    var all := Account1(p, lookup, Account0(expected, p, wheels));
    var tree := if all.mismatches != [] then VersionOnly
                else if lookup.RightWheel? then WheelHashChain else InstallRecordOnly;
    TreeConcludes(expected, p, wheels);
    ConcludedStrength(expected, p, lookup, tree, all);
    ConcludeOk(expected, p, lookup, tree, all);
    NoBadWheelMeaning(expected, wheels);
    HasTreeIs(p);
    RungIs(expected, p, wheels, Attest(expected, p, wheels).Ok(), true, lookup.RightWheel?);
  }

  lemma StrengthWithoutTree(expected: Constituent, p: Provenance, wheels: WheelDir)
    requires Attestable(p) && !TreeChecked(p)
    ensures Attest(expected, p, wheels).strength == Rung(expected, p, wheels, Attest(expected, p, wheels).Ok())
  {
    ConcludedStrength(expected, p, LookUpWheel(expected, wheels), VersionOnly, Account0(expected, p, wheels));
    HasTreeIs(p);
    RungIs(expected, p, wheels, Attest(expected, p, wheels).Ok(), false, WheelAtHand(expected, wheels));
  }

  /** The reported strength is the rung, for every install. */
  lemma StrengthIsRung(expected: Constituent, p: Provenance, wheels: WheelDir)
    ensures Attest(expected, p, wheels).strength == Rung(expected, p, wheels, Attest(expected, p, wheels).Ok())
  {
    if Attestable(p) {
      if TreeChecked(p) {
        StrengthOfTree(expected, p, wheels);
      } else {
        StrengthWithoutTree(expected, p, wheels);
      }
    }
  }

  // ---- What no digest covers is named

  ghost predicate Named(account: Account, kind: Kind, example: string) {
    kind in account.unattested && example in account.unattested[kind]
  }

  lemma {:induction false} RowsName(host: Host, recordName: string, rows: Rows, keys: seq<string>, account: Account,
                                    kind: Kind, example: string)
    requires forall k :: k in keys ==> k in rows
    requires || Named(account, kind, example)
             || (example in keys && RowFate(host, recordName, example, rows[example]) == Noted(kind))
    ensures Named(TakeRows(host, recordName, rows, keys, account), kind, example)
    decreases |keys|
  {
    if keys != [] {
      var before, k := keys[..|keys| - 1], keys[|keys| - 1];
      assert keys == before + [k];
      if Named(account, kind, example) || example in before {
        RowsName(host, recordName, rows, before, account, kind, example);
      }
    }
  }

  lemma AllRowsName(host: Host, recordName: string, rows: Rows, account: Account, kind: Kind, example: string)
    requires || Named(account, kind, example)
             || (example in rows && RowFate(host, recordName, example, rows[example]) == Noted(kind))
    ensures Named(TakeAllRows(host, recordName, rows, account), kind, example)
  {
    RowsName(host, recordName, rows, Sorting.Sorted(rows.Keys), account, kind, example);
  }

  /** The kind a file without a row is named under: byte code by its suffix, or else just a file. */
  ghost predicate IsByteCode(relative: string) {
    exists stem :: relative == stem + ".pyc" && stem != "" && stem[|stem| - 1] != '/'
  }

  lemma EndsBehindSlash(stem: string)
    requires stem != ""
    ensures EndsWith(stem + ".pyc", "/.pyc") <==> stem[|stem| - 1] == '/'
  {
    var path := stem + ".pyc";
    var c := stem[|stem| - 1];
    assert path[|path| - 5..] == [c] + ".pyc" && ([c] + ".pyc")[0] == c;
    assert "/.pyc" == ['/'] + ".pyc";
  }

  lemma PycSuffixMeaning(relative: string)
    ensures HasPycSuffix(relative) <==> IsByteCode(relative)
  {
    if HasPycSuffix(relative) {
      var stem := relative[..|relative| - 4];
      assert relative == stem + ".pyc";
      EndsBehindSlash(stem);
    }
    forall stem | relative == stem + ".pyc" && stem != "" && stem[|stem| - 1] != '/' ensures HasPycSuffix(relative) {
      assert relative[|relative| - 4..] == ".pyc";
      EndsBehindSlash(stem);
    }
  }

  ghost predicate Strays(rows: Rows, item: Found, kind: Kind) {
    && item.isFile == Some(true) && item.relative.Some? && item.relative.value !in rows
    && kind == if IsByteCode(item.relative.value) then BytecodeCache else UnrecordedFile
  }

  lemma {:induction false} WalkNames(rows: Rows, items: seq<Found>, account: Account, kind: Kind, example: string)
    requires Named(account, kind, example)
             || exists item :: item in items && Strays(rows, item, kind) && item.relative.value == example
    ensures Named(TakeWalk(rows, items, account), kind, example)
    decreases |items|
  {
    if items != [] {
      var before, last := items[..|items| - 1], items[|items| - 1];
      assert items == before + [last];
      if last.relative.Some? {
        PycSuffixMeaning(last.relative.value);
      }
      if Named(account, kind, example)
         || exists item :: item in before && Strays(rows, item, kind) && item.relative.value == example {
        WalkNames(rows, before, account, kind, example);
      }
    }
  }

  ghost predicate StraysIn(rows: Rows, host: Host, directory: string, kind: Kind, example: string) {
    && host.walk(directory).Some?
    && exists item :: item in host.walk(directory).value && Strays(rows, item, kind) && item.relative.value == example
  }

  lemma {:induction false} TreeNames(rows: Rows, host: Host, directories: seq<string>, account: Account,
                                     kind: Kind, example: string)
    requires Named(account, kind, example) || exists d :: d in directories && StraysIn(rows, host, d, kind, example)
    ensures Named(TakeTree(rows, host, directories, account), kind, example)
    decreases |directories|
  {
    if directories != [] {
      var before, last := directories[..|directories| - 1], directories[|directories| - 1];
      assert directories == before + [last];
      if Named(account, kind, example) || exists d :: d in before && StraysIn(rows, host, d, kind, example) {
        TreeNames(rows, host, before, account, kind, example);
      }
      if host.walk(last).Some? && (StraysIn(rows, host, last, kind, example)
                                   || Named(TakeTree(rows, host, before, account), kind, example)) {
        WalkNames(rows, host.walk(last).value, TakeTree(rows, host, before, account), kind, example);
      }
    }
  }

  lemma {:induction false} NoteAllNames(account: Account, with: Kind, names: seq<string>, kind: Kind, example: string)
    requires Named(account, kind, example) || (kind == with && example in names)
    ensures Named(NoteAll(account, with, names), kind, example)
    decreases |names|
  {
    if names != [] {
      var before, last := names[..|names| - 1], names[|names| - 1];
      assert names == before + [last];
      if Named(account, kind, example) || example in before {
        NoteAllNames(account, with, before, kind, example);
      }
    }
  }

  lemma SurroundingsName(install: Install, record: Rows, account: Account, kind: Kind, example: string,
                         directory: string)
    requires Named(account, kind, example)
             || (Owns(record, install.host, directory) && StraysIn(record, install.host, directory, kind, example))
    ensures Named(TakeSurroundings(install, record, account), kind, example)
  {
    var host := install.host;
    OwnedMeaning(record, host, directory);
    TreeNames(record, host, Sorting.Sorted(OwnedDirectories(record, host)), account, kind, example);
    NoteAllNames(TakeOwnedTree(record, host, account), SiteCustomization, StrayStartupFiles(host, host.startupFiles),
                 kind, example);
  }

  lemma ConcludeNames(expected: Constituent, p: Provenance, lookup: WheelLookup, tree: Strength, all: Account,
                      kind: Kind, example: string)
    requires Named(all, kind, example)
    ensures var r := Conclude(expected, p, lookup, tree, all);
            kind in r.unattested && example in r.unattested[kind]
  {}

  /** Every file in an owned directory that has no row is named in the result: a stray byte code file as such. */
  lemma StrayFileIsNamed(expected: Constituent, p: Provenance, wheels: WheelDir, install: Install, record: Rows,
                         directory: string, item: Found)
    requires Attestable(p) && IsTree(p, install, record) && Owns(record, install.host, directory)
    requires install.host.walk(directory).Some? && item in install.host.walk(directory).value
    requires item.isFile == Some(true) && item.relative.Some? && item.relative.value !in record
    ensures var r := Attest(expected, p, wheels);
            var kind := if IsByteCode(item.relative.value) then BytecodeCache else UnrecordedFile;
            kind in r.unattested && item.relative.value in r.unattested[kind] && !r.Binds()
  {
    var lookup, first, example := LookUpWheel(expected, wheels), Account0(expected, p, wheels), item.relative.value;
    var kind := if IsByteCode(example) then BytecodeCache else UnrecordedFile;
    assert Strays(record, item, kind);
    SurroundingsName(install, record, TakeInstall(install, record, lookup, first), kind, example, directory);
    var all := Account1(p, lookup, first);
    TreeConcludes(expected, p, wheels);
    var tree := if all.mismatches != [] then VersionOnly
                else if lookup.RightWheel? then WheelHashChain else InstallRecordOnly;
    ConcludeNames(expected, p, lookup, tree, all, kind, example);
  }

  /** Every row of the install's record without a digest, if no wheel speaks for it, is named in the result. */
  lemma BlankRowIsNamed(expected: Constituent, p: Provenance, wheels: WheelDir, install: Install, record: Rows,
                        row: string)
    requires Attestable(p) && IsTree(p, install, record) && !WheelAtHand(expected, wheels)
    requires row in record && record[row].None? && row != install.recordName && !Relocated(row)
    ensures var r := Attest(expected, p, wheels);
            var kind := if exists stem :: row == stem + ".pyc" then BytecodeCache else BlankDigest;
            kind in r.unattested && row in r.unattested[kind]
  {
    var lookup, first := LookUpWheel(expected, wheels), Account0(expected, p, wheels);
    var kind := if exists stem :: row == stem + ".pyc" then BytecodeCache else BlankDigest;
    NoBadWheelMeaning(expected, wheels);
    InfixStands(".data/", row);
    assert EndsWith(row, ".pyc") ==> row == row[..|row| - 4] + ".pyc";
    forall stem | row == stem + ".pyc" ensures EndsWith(row, ".pyc") { assert row[|row| - 4..] == ".pyc"; }
    AllRowsName(install.host, install.recordName, record, first, kind, row);
    SurroundingsName(install, record, TakeInstall(install, record, lookup, first), kind, row, "");
    var all := Account1(p, lookup, first);
    TreeConcludes(expected, p, wheels);
    ConcludeNames(expected, p, lookup, if all.mismatches != [] then VersionOnly else InstallRecordOnly, all, kind, row);
  }
}
