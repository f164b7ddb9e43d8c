/** Attesting one installed component, and a whole host, against a release manifest. */
module Attestation {
  import opened PyText
  import opened Coverage
  import Sorting

  datatype Strength =
    | WheelHashChain | RecordedArchiveHash | InstallRecordOnly | VersionOnly | NoProvenance | NotApplicable

  predicate RungBinds(s: Strength) { s.WheelHashChain? || s.RecordedArchiveHash? }

  /** Text fields are empty where the manifest gives none. */
  datatype Constituent = Constituent(ident: string, version: string, wheelFilename: string, wheelSha256: string)

  datatype Mode = ModeAbsent | ModeUnknown | ModeKnown

  datatype Source = Unrecorded | Vcs | Editable | Local | Archive | Unknown

  /** Installs that are no release wheel. */
  const NO_RELEASE := {Editable, Local, Vcs}

  /** The install's own record, as found beside its files; `root` is None when it cannot be resolved. */
  datatype Install = Install(recordName: string, rootResolved: bool, record: Option<Rows>, host: Host)

  /** `installedFrom` is the file name of the recorded archive URL, where there is one. */
  datatype Provenance = Provenance(mode: Mode, source: Source, version: Option<string>, installedFrom: Option<string>,
                                   archiveSha256: string, install: Option<Install>)

  datatype Wheel = Wheel(record: Rows, recordName: string, declared: set<(string, string)>)

  /** A file's digest, and what it holds when it can be read as a wheel. */
  datatype WheelFile = NotThere | UnreadableFile | Present(sha256: string, content: Option<Wheel>)

  /** The directory of release wheels, when one was given. */
  type WheelDir = Option<string -> WheelFile>

  datatype Attested = Attested(component: string, strength: Strength, mismatches: seq<Mismatch>,
                               unattested: map<Kind, seq<string>>, filesVerified: nat) {
    predicate Ok() { mismatches == [] }

    predicate Binds() { RungBinds(strength) && unattested == map[] }
  }

  // ---- The walk of the owned tree

  predicate IsSlash(c: char) { c == '/' }

  function Head(relative: string): string { relative[..WordLength(relative, IsSlash)] }

  /** Top-level directories the record's rows name. */
  function OwnedDirectories(rows: Rows, host: Host): set<string> {
    set r | r in rows && '/' in r && Head(r) != "" && Head(r) != "." && !StartsWith(Head(r), "..")
        && host.isDirectory(Head(r))
      :: Head(r)
  }

  /** Whether a path's last component has the suffix ".pyc" behind a stem. */
  predicate HasPycSuffix(path: string) { EndsWith(path, ".pyc") && path != ".pyc" && !EndsWith(path, "/.pyc") }

  function TakeFound(rows: Rows, item: Found, account: Account): Account {
    if item.isFile != Some(true) || item.relative.None? || item.relative.value in rows then account
    else account.Note(if HasPycSuffix(item.relative.value) then BytecodeCache else UnrecordedFile, item.relative.value)
  }

  function TakeWalk(rows: Rows, items: seq<Found>, account: Account): Account {
    if items == [] then account
    else TakeFound(rows, items[|items| - 1], TakeWalk(rows, items[..|items| - 1], account))
  }

  function TakeTree(rows: Rows, host: Host, directories: seq<string>, account: Account): Account {
    if directories == [] then account
    else
      var n := |directories| - 1;
      var before := TakeTree(rows, host, directories[..n], account);
      TakeDirectory(rows, host, directories[n], before)
  }

  function TakeDirectory(rows: Rows, host: Host, directory: string, account: Account): Account {
    match host.walk(directory)
    case None => account
    case Some(items) => TakeWalk(rows, items, account)
  }

  function TakeOwnedTree(rows: Rows, host: Host, account: Account): Account {
    TakeTree(rows, host, Sorting.Sorted(OwnedDirectories(rows, host)), account)
  }

  lemma WalkOneMore(rows: Rows, items: seq<Found>, item: Found, account: Account)
    ensures TakeWalk(rows, items + [item], account) == TakeFound(rows, item, TakeWalk(rows, items, account))
  {
    assert (items + [item])[..|items + [item]| - 1] == items;
  }

  lemma TreeOneMore(rows: Rows, host: Host, directories: seq<string>, directory: string, account: Account)
    ensures TakeTree(rows, host, directories + [directory], account)
         == TakeDirectory(rows, host, directory, TakeTree(rows, host, directories, account))
  {
    assert (directories + [directory])[..|directories + [directory]| - 1] == directories;
  }

  method ScanDirectory(rows: Rows, host: Host, directory: string, coverage: Coverage)
    modifies coverage
    ensures coverage.Value() == TakeDirectory(rows, host, directory, old(coverage.Value()))
  {
    var walked := host.walk(directory);
    if walked.None? {
      return;
    }
    var items := walked.value;
    ghost var start, done: seq<Found> := coverage.Value(), [];
    for i := 0 to |items|
      invariant done == items[..i] && coverage.Value() == TakeWalk(rows, done, start)
    {
      var item := items[i];
      WalkOneMore(rows, done, item, start);
      if item.isFile == Some(true) && item.relative.Some? && item.relative.value !in rows {
        coverage.NoteUnattested(if HasPycSuffix(item.relative.value) then BytecodeCache else UnrecordedFile,
                                item.relative.value);
      }
      done := done + [item];
    }
    assert done == items;
  }

  method ScanOwnedTree(rows: Rows, host: Host, coverage: Coverage)
    modifies coverage
    ensures coverage.Value() == TakeOwnedTree(rows, host, old(coverage.Value()))
    ensures coverage.Value().Clean() <==> old(coverage.Value()).Clean() && TreeRecorded(host, rows)
  {
    OwnedTreeClean(rows, host, coverage.Value());
    ScanDirectories(rows, host, Sorting.Sorted(OwnedDirectories(rows, host)), coverage);
  }

  method ScanDirectories(rows: Rows, host: Host, directories: seq<string>, coverage: Coverage)
    modifies coverage
    ensures coverage.Value() == TakeTree(rows, host, directories, old(coverage.Value()))
  {
    ghost var start, done: seq<string> := coverage.Value(), [];
    for i := 0 to |directories|
      invariant done == directories[..i] && coverage.Value() == TakeTree(rows, host, done, start)
    {
      TreeOneMore(rows, host, done, directories[i], start);
      ScanDirectory(rows, host, directories[i], coverage);
      done := done + [directories[i]];
    }
    assert done == directories;
  }

  // ---- Start-up files and console scripts

  function StrayStartupFiles(host: Host, names: seq<string>): seq<string> {
    if names == [] then []
    else StrayStartupFiles(host, names[..|names| - 1])
         + if names[|names| - 1] in host.accounted then [] else [names[|names| - 1]]
  }

  function NoteAll(account: Account, kind: Kind, names: seq<string>): Account {
    if names == [] then account else NoteAll(account, kind, names[..|names| - 1]).Note(kind, names[|names| - 1])
  }

  function ConsoleScriptRows(rows: Rows): set<string> {
    set r | r in rows && StartsWith(r, "../") && ("bin" in Words(r, IsSlash) || "Scripts" in Words(r, IsSlash))
  }

  function TakeScript(host: Host, declared: set<(string, string)>, relative: string, account: Account): Account {
    match host.resolve(relative)
    case None => account
    case Some(path) =>
      if !host.isFile(path) then account
      else
        var noted := account.Note(InstallerGenerated, relative);
        if declared != {} && host.script(path).Imports? && host.script(path).target !in declared
        then noted.Fail(UndeclaredScript(relative, host.script(path).target)) else noted
  }

  function TakeScripts(host: Host, declared: set<(string, string)>, rows: seq<string>, account: Account): Account {
    if rows == [] then account
    else TakeScript(host, declared, rows[|rows| - 1], TakeScripts(host, declared, rows[..|rows| - 1], account))
  }

  method CheckConsoleScripts(rows: seq<string>, host: Host, declared: set<(string, string)>, coverage: Coverage)
    modifies coverage
    ensures coverage.Value() == TakeScripts(host, declared, rows, old(coverage.Value()))
  {
    for i := 0 to |rows|
      invariant coverage.Value() == TakeScripts(host, declared, rows[..i], old(coverage.Value()))
    {
      assert rows[..i + 1][..i] == rows[..i];
      var resolved := host.resolve(rows[i]);
      if resolved.None? || !host.isFile(resolved.value) {
        continue;
      }
      coverage.NoteUnattested(InstallerGenerated, rows[i]);
      if declared == {} {
        continue;
      }
      var script := host.script(resolved.value);
      if script.Imports? && script.target !in declared {
        coverage.AddMismatch(UndeclaredScript(rows[i], script.target));
      }
    }
    assert rows[..|rows|] == rows;
  }

  method NoteStartupFiles(names: seq<string>, coverage: Coverage)
    modifies coverage
    ensures coverage.Value() == NoteAll(old(coverage.Value()), SiteCustomization, names)
  {
    for i := 0 to |names|
      invariant coverage.Value() == NoteAll(old(coverage.Value()), SiteCustomization, names[..i])
    {
      assert names[..i + 1][..i] == names[..i];
      coverage.NoteUnattested(SiteCustomization, names[i]);
    }
    assert names[..|names|] == names;
  }

  // ---- One component

  /** The wheel the manifest names: the one whose digest is right, why there is none, and whether it is absent. */
  datatype WheelLookup = RightWheel(wheel: Wheel) | BadWheel(mismatch: Mismatch) | AbsentWheel(name: string) | NoWheel

  function LookUpWheel(expected: Constituent, wheels: WheelDir): WheelLookup {
    if expected.wheelSha256 == "" then NoWheel
    else if expected.wheelFilename == "" || wheels.None? then
      AbsentWheel(if expected.wheelFilename == "" then "(unnamed)" else expected.wheelFilename)
    else match wheels.value(expected.wheelFilename)
         case NotThere => AbsentWheel(expected.wheelFilename)
         case UnreadableFile => BadWheel(WheelMalformed)
         case Present(sha256, content) =>
           if content.None? then BadWheel(WheelMalformed)
           else if sha256 != expected.wheelSha256 then BadWheel(WheelDigestDiffers)
           else RightWheel(content.value)
  }

  /** What version, file name, install record and wheel lookup contribute before the tree is looked at. */
  function FirstFindings(expected: Constituent, p: Provenance, wheels: WheelDir): seq<Mismatch> {
    (if p.version != Some(expected.version) then [VersionDiffers] else [])
    + (if p.installedFrom.Some? && expected.wheelFilename != "" && p.installedFrom.value != expected.wheelFilename
       then [InstalledFromOther] else [])
    + (if p.install.Some? && p.install.value.record.None? then [RecordUnreadable] else [])
    + (match LookUpWheel(expected, wheels) case BadWheel(m) => [m] case _ => [])
  }

  function InstallOnly(record: Rows, wheel: Wheel): Rows { record - wheel.record.Keys }

  /** The rows and the scripts: against the wheel's record first, where there is a wheel. */
  function TakeInstall(install: Install, record: Rows, lookup: WheelLookup, account: Account): Account {
    var host := install.host;
    match lookup
    case RightWheel(wheel) =>
      TakeScripts(host, wheel.declared, Sorting.Sorted(ConsoleScriptRows(record)),
                  TakeAllRows(host, install.recordName, InstallOnly(record, wheel),
                              TakeAllRows(host, wheel.recordName, wheel.record, account)))
    case _ => TakeAllRows(host, install.recordName, record, account)
  }

  /** The owned tree and the start-up files. */
  function TakeSurroundings(install: Install, record: Rows, account: Account): Account {
    NoteAll(TakeOwnedTree(record, install.host, account), SiteCustomization,
            StrayStartupFiles(install.host, install.host.startupFiles))
  }

  predicate TreeChecked(p: Provenance) {
    p.install.Some? && p.install.value.rootResolved && p.install.value.record.Some?
  }

  function Terminal(expected: Constituent, strength: Strength): Attested {
    Attested(expected.ident, strength, [], map[], 0)
  }

  function WithoutDuplicates(messages: seq<Mismatch>): (r: seq<Mismatch>)
    ensures r == [] <==> messages == []
    ensures forall m :: m in r <==> m in messages
  {
    if messages == [] then []
    else
      var rest := WithoutDuplicates(messages[..|messages| - 1]);
      var last := messages[|messages| - 1];
      assert messages == messages[..|messages| - 1] + [last];
      if last in rest then rest else rest + [last]
  }

  /** The rung reached by the tree alone. */
  function TreeStrength(p: Provenance, lookup: WheelLookup, rows: Account): Strength {
    if !TreeChecked(p) || rows.mismatches != [] then VersionOnly
    else if lookup.RightWheel? then WheelHashChain else InstallRecordOnly
  }

  predicate ArchiveCompared(expected: Constituent, p: Provenance) {
    expected.wheelSha256 != "" && p.archiveSha256 != ""
  }

  function Attest(expected: Constituent, p: Provenance, wheels: WheelDir): Attested {
    if p.mode.ModeAbsent? then Terminal(expected, NotApplicable)
    else if p.mode.ModeUnknown? then Terminal(expected, NoProvenance)
    else if p.source in NO_RELEASE then Terminal(expected, NotApplicable)
    else
      var lookup := LookUpWheel(expected, wheels);
      var first := Account(FirstFindings(expected, p, wheels), 0, map[]);
      var rows := if TreeChecked(p)
                  then TakeInstall(p.install.value, p.install.value.record.value, lookup, first) else first;
      var all := if TreeChecked(p)
                 then TakeSurroundings(p.install.value, p.install.value.record.value, rows) else rows;
      Conclude(expected, p, lookup, TreeStrength(p, lookup, rows), all)
  }

  /** The archive hash, the collapse on any mismatch, and the missing wheel. */
  function Conclude(expected: Constituent, p: Provenance, lookup: WheelLookup, tree: Strength, all: Account): Attested {
    var compared := if ArchiveCompared(expected, p) && p.archiveSha256 != expected.wheelSha256
                    then all.Fail(ArchiveDigestDiffers) else all;
    var strength := if compared.mismatches != [] then VersionOnly
                    else if ArchiveCompared(expected, p) && tree != WheelHashChain then RecordedArchiveHash else tree;
    var final := if lookup.AbsentWheel? && !RungBinds(strength)
                 then compared.Note(WheelUnavailable, lookup.name) else compared;
    Attested(expected.ident, strength, WithoutDuplicates(final.mismatches), final.unattested,
             if final.mismatches == [] then final.verified else 0)
  }

  method CheckInstall(install: Install, record: Rows, lookup: WheelLookup, coverage: Coverage)
    returns (strength: Strength)
    modifies coverage
    ensures var rows := TakeInstall(install, record, lookup, old(coverage.Value()));
            && coverage.Value() == TakeSurroundings(install, record, rows)
            && strength == if rows.mismatches != [] then VersionOnly
                           else if lookup.RightWheel? then WheelHashChain else InstallRecordOnly
  {
    strength := VersionOnly;
    if lookup.RightWheel? {
      var wheel := lookup.wheel;
      VerifyEntries(wheel.record, install.host, coverage, wheel.recordName);
      VerifyEntries(InstallOnly(record, wheel), install.host, coverage, install.recordName);
      CheckConsoleScripts(Sorting.Sorted(ConsoleScriptRows(record)), install.host, wheel.declared, coverage);
      if coverage.mismatches == [] {
        strength := WheelHashChain;
      }
    } else {
      VerifyEntries(record, install.host, coverage, install.recordName);
      if coverage.mismatches == [] {
        strength := InstallRecordOnly;
      }
    }
    ScanOwnedTree(record, install.host, coverage);
    NoteStartupFiles(StrayStartupFiles(install.host, install.host.startupFiles), coverage);
  }

  method ConcludeFrom(expected: Constituent, p: Provenance, lookup: WheelLookup, tree: Strength, coverage: Coverage)
    returns (r: Attested)
    modifies coverage
    ensures r == Conclude(expected, p, lookup, tree, old(coverage.Value()))
  {
    var strength := tree;
    if ArchiveCompared(expected, p) {
      if p.archiveSha256 != expected.wheelSha256 {
        coverage.AddMismatch(ArchiveDigestDiffers);
      } else if strength != WheelHashChain {
        strength := RecordedArchiveHash;
      }
    }
    if coverage.mismatches != [] {
      strength := VersionOnly;
    }
    if lookup.AbsentWheel? && !RungBinds(strength) {
      coverage.NoteUnattested(WheelUnavailable, lookup.name);
    }
    r := Attested(expected.ident, strength, WithoutDuplicates(coverage.mismatches), coverage.unattested,
                  if coverage.mismatches == [] then coverage.verified else 0);
  }

  method CheckIdentity(expected: Constituent, p: Provenance, wheels: WheelDir, coverage: Coverage)
    returns (lookup: WheelLookup)
    requires coverage.Value() == Account([], 0, map[])
    modifies coverage
    ensures lookup == LookUpWheel(expected, wheels)
    ensures coverage.Value() == Account(FirstFindings(expected, p, wheels), 0, map[])
  {
    if p.version != Some(expected.version) {
      coverage.AddMismatch(VersionDiffers);
    }
    if p.installedFrom.Some? && expected.wheelFilename != "" && p.installedFrom.value != expected.wheelFilename {
      coverage.AddMismatch(InstalledFromOther);
    }
    if p.install.Some? && p.install.value.record.None? {
      coverage.AddMismatch(RecordUnreadable);
    }
    lookup := LookUpWheel(expected, wheels);
    if lookup.BadWheel? {
      coverage.AddMismatch(lookup.mismatch);
    }
  }

  method AttestComponent(expected: Constituent, p: Provenance, wheels: WheelDir) returns (r: Attested)
    ensures r == Attest(expected, p, wheels)
    ensures r.strength == WheelHashChain && r.Binds() <==> ChainHolds(expected, p, wheels)
  {
    BindsIffChainHolds(expected, p, wheels);
    if p.mode.ModeAbsent? {
      return Terminal(expected, NotApplicable);
    }
    if p.mode.ModeUnknown? {
      return Terminal(expected, NoProvenance);
    }
    if p.source in NO_RELEASE {
      return Terminal(expected, NotApplicable);
    }
    var coverage := new Coverage();
    var lookup := CheckIdentity(expected, p, wheels, coverage);
    var strength := VersionOnly;
    if TreeChecked(p) {
      strength := CheckInstall(p.install.value, p.install.value.record.value, lookup, coverage);
    }
    r := ConcludeFrom(expected, p, lookup, strength, coverage);
  }

  // ---- When each part leaves the account clean

  lemma {:induction false} WalkClean(rows: Rows, items: seq<Found>, account: Account)
    ensures TakeWalk(rows, items, account).Clean() <==>
            account.Clean() && forall item :: item in items ==> Recorded(rows, item)
    decreases |items|
  {
    if items != [] {
      var n := |items| - 1;
      WalkClean(rows, items[..n], account);
      assert items == items[..n] + [items[n]];
      var before := TakeWalk(rows, items[..n], account);
      if !Recorded(rows, items[n]) {
        var relative := items[n].relative.value;
        NoteCounts(before, if HasPycSuffix(relative) then BytecodeCache else UnrecordedFile, relative);
      }
    }
  }

  /** A file met on the walk has a row in the record; what is no file does not need one. */
  predicate Recorded(rows: Rows, item: Found) {
    item.isFile == Some(true) && item.relative.Some? ==> item.relative.value in rows
  }

  predicate DirectoryRecorded(rows: Rows, host: Host, directory: string) {
    host.walk(directory).Some? ==> forall item :: item in host.walk(directory).value ==> Recorded(rows, item)
  }

  lemma DirectoryClean(rows: Rows, host: Host, directory: string, account: Account)
    ensures TakeDirectory(rows, host, directory, account).Clean() <==>
            account.Clean() && DirectoryRecorded(rows, host, directory)
  {
    if host.walk(directory).Some? {
      WalkClean(rows, host.walk(directory).value, account);
    }
  }

  lemma {:induction false} TreeClean(rows: Rows, host: Host, directories: seq<string>, account: Account)
    ensures TakeTree(rows, host, directories, account).Clean() <==>
            account.Clean() && forall d :: d in directories ==> DirectoryRecorded(rows, host, d)
    decreases |directories|
  {
    if directories != [] {
      var n := |directories| - 1;
      TreeClean(rows, host, directories[..n], account);
      assert directories == directories[..n] + [directories[n]];
      DirectoryClean(rows, host, directories[n], TakeTree(rows, host, directories[..n], account));
    }
  }

  lemma {:induction false} NoteAllClean(account: Account, kind: Kind, names: seq<string>)
    ensures NoteAll(account, kind, names).Clean() <==> account.Clean() && names == []
    ensures NoteAll(account, kind, names).mismatches == account.mismatches
  {
    if names != [] {
      NoteAllClean(account, kind, names[..|names| - 1]);
      NoteCounts(NoteAll(account, kind, names[..|names| - 1]), kind, names[|names| - 1]);
    }
  }

  lemma {:induction false} NoStrayIffAccounted(host: Host, names: seq<string>)
    ensures StrayStartupFiles(host, names) == [] <==> forall n :: n in names ==> n in host.accounted
  {
    if names != [] {
      NoStrayIffAccounted(host, names[..|names| - 1]);
      assert names == names[..|names| - 1] + [names[|names| - 1]];
    }
  }

  predicate ScriptPresent(host: Host, relative: string) {
    host.resolve(relative).Some? && host.isFile(host.resolve(relative).value)
  }

  lemma ScriptClean(host: Host, declared: set<(string, string)>, row: string, account: Account)
    ensures TakeScript(host, declared, row, account).Clean() <==> account.Clean() && !ScriptPresent(host, row)
  {
    NoteCounts(account, InstallerGenerated, row);
  }

  lemma {:induction false} ScriptsClean(host: Host, declared: set<(string, string)>, rows: seq<string>,
                                        account: Account)
    ensures TakeScripts(host, declared, rows, account).Clean() <==>
            account.Clean() && forall r :: r in rows ==> !ScriptPresent(host, r)
    decreases |rows|
  {
    if rows != [] {
      var n := |rows| - 1;
      ScriptsClean(host, declared, rows[..n], account);
      assert rows == rows[..n] + [rows[n]];
      ScriptClean(host, declared, rows[n], TakeScripts(host, declared, rows[..n], account));
    }
  }

  // ---- What binding by the wheel hash chain means

  /** There is an install, of a kind that can be held against a release wheel. */
  predicate Attestable(p: Provenance) { p.mode.ModeKnown? && p.source !in {Editable, Local, Vcs} }

  ghost predicate RightVersionAndName(expected: Constituent, p: Provenance) {
    && Attestable(p) && p.version == Some(expected.version)
    && (p.installedFrom.Some? && expected.wheelFilename != "" ==> p.installedFrom.value == expected.wheelFilename)
    && (p.archiveSha256 != "" ==> p.archiveSha256 == expected.wheelSha256)
  }

  /** The wheel the manifest names is there, with the digest the manifest gives. */
  ghost predicate HasRightWheel(expected: Constituent, wheels: WheelDir, wheel: Wheel) {
    && expected.wheelSha256 != "" && expected.wheelFilename != "" && wheels.Some?
    && wheels.value(expected.wheelFilename) == Present(expected.wheelSha256, Some(wheel))
  }

  /** Every row of both records, the wheel's taking precedence, matches its file; the records themselves are exempt. */
  ghost predicate RowsMatch(install: Install, record: Rows, wheel: Wheel) {
    && AllMatch(install.host, wheel.record, wheel.recordName)
    && AllMatch(install.host, InstallOnly(record, wheel), install.recordName)
  }

  /** The row installs a script outside site-packages: it leads upwards and through a "bin" or "Scripts" directory. */
  ghost predicate IsScriptRow(row: string) {
    "../" <= row && exists part, a, b :: (part == "bin" || part == "Scripts") && IsPathPart(row, part, a, b)
  }

  ghost predicate IsPathPart(path: string, part: string, a: string, b: string) {
    path == a + (part + b) && (a == "" || a[|a| - 1] == '/') && (b == "" || b[0] == '/')
  }

  /** No script of the record is there. */
  ghost predicate NoScripts(host: Host, record: Rows) {
    forall r :: r in record && IsScriptRow(r) ==> host.resolve(r).None? || !host.isFile(host.resolve(r).value)
  }

  /** A directory at the top of site-packages that a row of the record leads into. */
  ghost predicate Owns(record: Rows, host: Host, directory: string) {
    && (exists r :: r in record && directory + "/" <= r)
    && directory != "" && '/' !in directory && directory != "." && !(".." <= directory)
    && host.isDirectory(directory)
  }

  /** Every file met in an owned directory has a row. */
  ghost predicate TreeRecorded(host: Host, record: Rows) {
    forall directory :: Owns(record, host, directory) ==> DirectoryRecorded(record, host, directory)
  }

  lemma PartIsWord(row: string, part: string)
    requires part != "" && '/' !in part
    ensures part in Words(row, IsSlash) <==> exists a, b :: IsPathPart(row, part, a, b)
  {
    forall i | 0 <= i < |part| ensures !IsSlash(part[i]) { assert part[i] in part; }
    if part in Words(row, IsSlash) {
      var a, b := WordStands(row, IsSlash, part);
      assert IsPathPart(row, part, a, b);
    }
    forall a, b | IsPathPart(row, part, a, b) ensures part in Words(row, IsSlash) {
      StandingIsWord(row, IsSlash, part, a, b);
    }
  }

  lemma ScriptRowsMeaning(record: Rows, row: string)
    ensures row in ConsoleScriptRows(record) <==> row in record && IsScriptRow(row)
  {
    PartIsWord(row, "bin");
    PartIsWord(row, "Scripts");
  }

  lemma HeadLeads(row: string, directory: string)
    ensures '/' in row && Head(row) == directory <==> directory + "/" <= row && '/' !in directory
  {
    if '/' in row {
      var i :| 0 <= i < |row| && row[i] == '/';
      assert IsSlash(row[i]);
      var n := WordLength(row, IsSlash);
      assert row[..n] + "/" == row[..n + 1];
    }
    if directory + "/" <= row && '/' !in directory {
      var rest := row[|directory|..];
      assert row == directory + rest && rest[0] == '/';
      forall i | 0 <= i < |directory| ensures !IsSlash(directory[i]) { assert directory[i] in directory; }
      WordLengthIs(directory, rest, IsSlash);
      assert row[|directory|] == '/';
    }
  }

  lemma OwnedMeaning(record: Rows, host: Host, directory: string)
    ensures directory in OwnedDirectories(record, host) <==> Owns(record, host, directory)
  {
    forall r | r in record
      ensures '/' in r && Head(r) == directory <==> directory + "/" <= r && '/' !in directory
    {
      HeadLeads(r, directory);
    }
  }

  /** The walk of the owned directories stays clean exactly when they hold no file without a row. */
  lemma OwnedTreeClean(record: Rows, host: Host, account: Account)
    ensures TakeOwnedTree(record, host, account).Clean() <==> account.Clean() && TreeRecorded(host, record)
  {
    TreeClean(record, host, Sorting.Sorted(OwnedDirectories(record, host)), account);
    forall d ensures d in OwnedDirectories(record, host) <==> Owns(record, host, d) { OwnedMeaning(record, host, d); }
  }

  /** Nothing else is there: no unrecorded file, no console script, no start-up file of unknown origin. */
  ghost predicate NothingElse(install: Install, record: Rows) {
    && TreeRecorded(install.host, record)
    && NoScripts(install.host, record)
    && AllAccounted(install.host)
  }

  /** There is a tree to check: an install whose root resolves, and its record. */
  ghost predicate IsTree(p: Provenance, install: Install, record: Rows) {
    p.install == Some(install) && install.rootResolved && install.record == Some(record)
  }

  lemma TreeIs(p: Provenance, install: Install, record: Rows)
    ensures IsTree(p, install, record) <==>
            TreeChecked(p) && install == p.install.value && record == p.install.value.record.value
  {}

  ghost predicate ChainHolds(expected: Constituent, p: Provenance, wheels: WheelDir) {
    && RightVersionAndName(expected, p)
    && exists install, record, wheel :: IsTree(p, install, record) && HasRightWheel(expected, wheels, wheel)
         && RowsMatch(install, record, wheel) && NothingElse(install, record)
  }

  lemma NoScriptsLeft(host: Host, declared: set<(string, string)>, record: Rows, account: Account)
    ensures TakeScripts(host, declared, Sorting.Sorted(ConsoleScriptRows(record)), account).Clean() <==>
            account.Clean() && NoScripts(host, record)
  {
    ScriptsClean(host, declared, Sorting.Sorted(ConsoleScriptRows(record)), account);
    forall r ensures r in ConsoleScriptRows(record) <==> r in record && IsScriptRow(r) { ScriptRowsMeaning(record, r); }
  }

  lemma InstallClean(install: Install, record: Rows, wheel: Wheel, account: Account)
    ensures TakeInstall(install, record, RightWheel(wheel), account).Clean() <==>
            account.Clean() && RowsMatch(install, record, wheel) && NoScripts(install.host, record)
  {
    var host := install.host;
    var a := TakeAllRows(host, wheel.recordName, wheel.record, account);
    var b := TakeAllRows(host, install.recordName, InstallOnly(record, wheel), a);
    AllRowsClean(host, wheel.recordName, wheel.record, account);
    AllRowsClean(host, install.recordName, InstallOnly(record, wheel), a);
    NoScriptsLeft(host, wheel.declared, record, b);
  }

  lemma SurroundingsClean(install: Install, record: Rows, account: Account)
    ensures TakeSurroundings(install, record, account).Clean() <==>
            && account.Clean()
            && TreeRecorded(install.host, record)
            && AllAccounted(install.host)
  {
    var host := install.host;
    OwnedTreeClean(record, host, account);
    NoteAllClean(TakeOwnedTree(record, host, account), SiteCustomization, StrayStartupFiles(host, host.startupFiles));
    NoStrayIffAccounted(host, host.startupFiles);
  }

  lemma ConcludeBinds(expected: Constituent, p: Provenance, lookup: WheelLookup, tree: Strength, all: Account)
    ensures var r := Conclude(expected, p, lookup, tree, all);
            r.strength == WheelHashChain && r.Binds() <==>
            && tree == WheelHashChain && all.Clean()
            && (ArchiveCompared(expected, p) ==> p.archiveSha256 == expected.wheelSha256)
  {}

  ghost predicate AllAccounted(host: Host) { forall n :: n in host.startupFiles ==> n in host.accounted }

  /** The whole account of an install, from its first findings on. */
  function Account0(expected: Constituent, p: Provenance, wheels: WheelDir): Account {
    Account(FirstFindings(expected, p, wheels), 0, map[])
  }

  lemma FirstFindingsClean(expected: Constituent, p: Provenance, wheels: WheelDir)
    requires TreeChecked(p) && Attestable(p) && LookUpWheel(expected, wheels).RightWheel?
    ensures Account0(expected, p, wheels).Clean()
            && (ArchiveCompared(expected, p) ==> p.archiveSha256 == expected.wheelSha256)
            <==> RightVersionAndName(expected, p)
    ensures HasRightWheel(expected, wheels, LookUpWheel(expected, wheels).wheel)
  {}

  lemma RightWheelIsLookedUp(expected: Constituent, wheels: WheelDir, wheel: Wheel)
    ensures HasRightWheel(expected, wheels, wheel) <==> LookUpWheel(expected, wheels) == RightWheel(wheel)
  {}

  /** What is accounted for of a tree, all told. */
  function Account1(p: Provenance, lookup: WheelLookup, first: Account): Account
    requires TreeChecked(p)
  {
    var install, record := p.install.value, p.install.value.record.value;
    TakeSurroundings(install, record, TakeInstall(install, record, lookup, first))
  }

  lemma SurroundingsFailNothing(install: Install, record: Rows, account: Account)
    ensures TakeSurroundings(install, record, account).mismatches == account.mismatches
  {
    var host := install.host;
    var owned := Sorting.Sorted(OwnedDirectories(record, host));
    TreeFailsNothing(record, host, owned, account);
    NoteAllClean(TakeTree(record, host, owned, account), SiteCustomization, StrayStartupFiles(host, host.startupFiles));
  }

  lemma {:induction false} TreeFailsNothing(rows: Rows, host: Host, directories: seq<string>, account: Account)
    ensures TakeTree(rows, host, directories, account).mismatches == account.mismatches
    decreases |directories|
  {
    if directories != [] {
      var n := |directories| - 1;
      TreeFailsNothing(rows, host, directories[..n], account);
      var before := TakeTree(rows, host, directories[..n], account);
      if host.walk(directories[n]).Some? {
        WalkFailsNothing(rows, host.walk(directories[n]).value, before);
      }
    }
  }

  lemma {:induction false} WalkFailsNothing(rows: Rows, items: seq<Found>, account: Account)
    ensures TakeWalk(rows, items, account).mismatches == account.mismatches
    decreases |items|
  {
    if items != [] { WalkFailsNothing(rows, items[..|items| - 1], account); }
  }

  /** The conclusion drawn from the account of a checked tree. */
  lemma TreeConcludes(expected: Constituent, p: Provenance, wheels: WheelDir)
    requires TreeChecked(p) && Attestable(p)
    ensures var lookup := LookUpWheel(expected, wheels);
            var all := Account1(p, lookup, Account0(expected, p, wheels));
            var tree := if all.mismatches != [] then VersionOnly
                        else if lookup.RightWheel? then WheelHashChain else InstallRecordOnly;
            Attest(expected, p, wheels) == Conclude(expected, p, lookup, tree, all)
  {
    var install, record := p.install.value, p.install.value.record.value;
    var lookup, first := LookUpWheel(expected, wheels), Account0(expected, p, wheels);
    SurroundingsFailNothing(install, record, TakeInstall(install, record, lookup, first));
  }

  lemma WheelTreeClean(p: Provenance, wheel: Wheel, first: Account)
    requires TreeChecked(p)
    ensures Account1(p, RightWheel(wheel), first).Clean() <==>
            && first.Clean() && RowsMatch(p.install.value, p.install.value.record.value, wheel)
            && NothingElse(p.install.value, p.install.value.record.value)
  {
    var install, record := p.install.value, p.install.value.record.value;
    SurroundingsClean(install, record, TakeInstall(install, record, RightWheel(wheel), first));
    InstallClean(install, record, wheel, first);
  }

  lemma RightWheelConcludes(expected: Constituent, p: Provenance, wheels: WheelDir, wheel: Wheel)
    requires TreeChecked(p) && Attestable(p) && LookUpWheel(expected, wheels) == RightWheel(wheel)
    ensures Attest(expected, p, wheels).strength == WheelHashChain && Attest(expected, p, wheels).Binds() <==>
            && Account1(p, RightWheel(wheel), Account0(expected, p, wheels)).Clean()
            && (ArchiveCompared(expected, p) ==> p.archiveSha256 == expected.wheelSha256)
  {
    var all := Account1(p, RightWheel(wheel), Account0(expected, p, wheels));
    TreeConcludes(expected, p, wheels);
    ConcludeBinds(expected, p, RightWheel(wheel), if all.mismatches != [] then VersionOnly else WheelHashChain, all);
  }

  /** With the right wheel at hand, the conclusion binds exactly when all parts are clean. */
  lemma RightWheelBinds(expected: Constituent, p: Provenance, wheels: WheelDir, wheel: Wheel)
    requires TreeChecked(p) && Attestable(p) && LookUpWheel(expected, wheels) == RightWheel(wheel)
    ensures Attest(expected, p, wheels).strength == WheelHashChain && Attest(expected, p, wheels).Binds() <==>
            && RightVersionAndName(expected, p)
            && RowsMatch(p.install.value, p.install.value.record.value, wheel)
            && NothingElse(p.install.value, p.install.value.record.value)
  {
    RightWheelConcludes(expected, p, wheels, wheel);
    WheelTreeClean(p, wheel, Account0(expected, p, wheels));
    FirstFindingsClean(expected, p, wheels);
  }

  lemma WrongWheelBindsNothing(expected: Constituent, p: Provenance, wheels: WheelDir)
    requires !LookUpWheel(expected, wheels).RightWheel?
    ensures Attest(expected, p, wheels).strength != WheelHashChain
  {}

  /** A component attests at the wheel hash chain and binds exactly when the chain holds of its files. */
  lemma BindsIffChainHolds(expected: Constituent, p: Provenance, wheels: WheelDir)
    ensures Attest(expected, p, wheels).strength == WheelHashChain && Attest(expected, p, wheels).Binds()
            <==> ChainHolds(expected, p, wheels)
  {
    var lookup := LookUpWheel(expected, wheels);
    forall wheel ensures HasRightWheel(expected, wheels, wheel) <==> lookup == RightWheel(wheel) {
      RightWheelIsLookedUp(expected, wheels, wheel);
    }
    if TreeChecked(p) {
      TreeIs(p, p.install.value, p.install.value.record.value);
    }
    if !(Attestable(p) && TreeChecked(p)) {
      ConcludeNeedsTree(expected, p, wheels);
    } else if lookup.RightWheel? {
      RightWheelBinds(expected, p, wheels, lookup.wheel);
    } else {
      WrongWheelBindsNothing(expected, p, wheels);
    }
  }

  lemma ConcludeNeedsTree(expected: Constituent, p: Provenance, wheels: WheelDir)
    requires !(Attestable(p) && TreeChecked(p))
    ensures Attest(expected, p, wheels).strength != WheelHashChain
  {}

  /** Then every file the walk meets is a record or was checked, against the wheel's row whenever the wheel has one. */
  lemma EveryOwnedFileChecked(expected: Constituent, p: Provenance, wheels: WheelDir, install: Install, record: Rows,
                              wheel: Wheel, directory: string, item: Found)
    requires ChainHolds(expected, p, wheels) && IsTree(p, install, record) && HasRightWheel(expected, wheels, wheel)
    requires Owns(record, install.host, directory)
    requires install.host.walk(directory).Some? && item in install.host.walk(directory).value
    requires item.isFile == Some(true) && item.relative.Some?
    ensures var relative := item.relative.value;
            && relative in record
            && (relative in wheel.record ==>
                  relative == wheel.recordName || FileMatches(install.host, relative, wheel.record[relative]))
            && (relative !in wheel.record ==>
                  relative == install.recordName || FileMatches(install.host, relative, record[relative]))
  {
    var relative := item.relative.value;
    assert DirectoryRecorded(record, install.host, directory);
    assert Recorded(record, item);
    var w :| HasRightWheel(expected, wheels, w) && RowsMatch(install, record, w);
    assert w == wheel;
    assert relative !in wheel.record ==> relative in InstallOnly(record, wheel);
  }

  // ---- What binding by a recorded archive hash means

  /** Nothing is wrong with the wheel the manifest names, should it be there. */
  ghost predicate NoBadWheel(expected: Constituent, wheels: WheelDir) {
    expected.wheelSha256 != "" && expected.wheelFilename != "" && wheels.Some? ==>
      var file := wheels.value(expected.wheelFilename);
      file.NotThere? || (file.Present? && file.content.Some? && file.sha256 == expected.wheelSha256)
  }

  /** The install's own record holds of its files, and nothing else is there. */
  ghost predicate SelfConsistent(install: Install, record: Rows) {
    && AllMatch(install.host, record, install.recordName)
    && TreeRecorded(install.host, record) && AllAccounted(install.host)
  }

  /**
   * The installer recorded the manifest's hash, and no right wheel is there to check the tree against. Where there
   * is no tree to check, this says nothing about any file.
   */
  ghost predicate ArchiveHolds(expected: Constituent, p: Provenance, wheels: WheelDir) {
    && RightVersionAndName(expected, p) && NoBadWheel(expected, wheels)
    && expected.wheelSha256 != "" && p.archiveSha256 != ""
    && (p.install.Some? ==> p.install.value.record.Some?)
    && forall install, record :: IsTree(p, install, record) ==>
         !(exists wheel :: HasRightWheel(expected, wheels, wheel)) && SelfConsistent(install, record)
  }

  lemma NoBadWheelMeaning(expected: Constituent, wheels: WheelDir)
    ensures NoBadWheel(expected, wheels) <==> !LookUpWheel(expected, wheels).BadWheel?
    ensures (exists wheel :: HasRightWheel(expected, wheels, wheel)) <==> LookUpWheel(expected, wheels).RightWheel?
  {
    if LookUpWheel(expected, wheels).RightWheel? {
      RightWheelIsLookedUp(expected, wheels, LookUpWheel(expected, wheels).wheel);
    }
  }

  lemma ConcludeByArchive(expected: Constituent, p: Provenance, lookup: WheelLookup, tree: Strength, all: Account)
    requires tree != RecordedArchiveHash
    ensures var r := Conclude(expected, p, lookup, tree, all);
            r.strength == RecordedArchiveHash && r.Binds() <==>
            && tree != WheelHashChain && all.Clean()
            && ArchiveCompared(expected, p) && p.archiveSha256 == expected.wheelSha256
  {}

  lemma FirstFindingsByArchive(expected: Constituent, p: Provenance, wheels: WheelDir)
    requires Attestable(p)
    ensures && Account0(expected, p, wheels).Clean()
            && ArchiveCompared(expected, p) && p.archiveSha256 == expected.wheelSha256
            <==> && RightVersionAndName(expected, p) && ArchiveCompared(expected, p) && NoBadWheel(expected, wheels)
                 && (p.install.Some? ==> p.install.value.record.Some?)
  {
    NoBadWheelMeaning(expected, wheels);
  }

  lemma SelfConsistentClean(p: Provenance, lookup: WheelLookup, first: Account)
    requires TreeChecked(p) && !lookup.RightWheel?
    ensures Account1(p, lookup, first).Clean() <==>
            first.Clean() && SelfConsistent(p.install.value, p.install.value.record.value)
  {
    var install, record := p.install.value, p.install.value.record.value;
    AllRowsClean(install.host, install.recordName, record, first);
    SurroundingsClean(install, record, TakeInstall(install, record, lookup, first));
  }

  /** A component binds by its recorded archive hash exactly when that hash holds. */
  lemma BindsIffArchiveHolds(expected: Constituent, p: Provenance, wheels: WheelDir)
    ensures Attest(expected, p, wheels).strength == RecordedArchiveHash && Attest(expected, p, wheels).Binds()
            <==> ArchiveHolds(expected, p, wheels)
  {
    if Attestable(p) {
      NoBadWheelMeaning(expected, wheels);
      FirstFindingsByArchive(expected, p, wheels);
      if TreeChecked(p) {
        TreeIs(p, p.install.value, p.install.value.record.value);
        CheckedTreeByArchive(expected, p, wheels);
      } else {
        NoTreeByArchive(expected, p, wheels);
      }
    }
  }

  lemma TreeByArchive(expected: Constituent, p: Provenance, wheels: WheelDir)
    requires Attestable(p) && TreeChecked(p)
    ensures Attest(expected, p, wheels).strength == RecordedArchiveHash && Attest(expected, p, wheels).Binds() <==>
            && Account1(p, LookUpWheel(expected, wheels), Account0(expected, p, wheels)).Clean()
            && ArchiveCompared(expected, p) && p.archiveSha256 == expected.wheelSha256
            && !LookUpWheel(expected, wheels).RightWheel?
  {
    var lookup := LookUpWheel(expected, wheels);
    var all := Account1(p, lookup, Account0(expected, p, wheels));
    TreeConcludes(expected, p, wheels);
    var tree := if all.mismatches != [] then VersionOnly
                else if lookup.RightWheel? then WheelHashChain else InstallRecordOnly;
    ConcludeByArchive(expected, p, lookup, tree, all);
  }

  lemma CheckedTreeByArchive(expected: Constituent, p: Provenance, wheels: WheelDir)
    requires Attestable(p) && TreeChecked(p)
    ensures Attest(expected, p, wheels).strength == RecordedArchiveHash && Attest(expected, p, wheels).Binds() <==>
            && Account0(expected, p, wheels).Clean()
            && ArchiveCompared(expected, p) && p.archiveSha256 == expected.wheelSha256
            && !LookUpWheel(expected, wheels).RightWheel?
            && SelfConsistent(p.install.value, p.install.value.record.value)
  {
    var lookup := LookUpWheel(expected, wheels);
    TreeByArchive(expected, p, wheels);
    if !lookup.RightWheel? {
      SelfConsistentClean(p, lookup, Account0(expected, p, wheels));
    }
  }

  lemma NoTreeByArchive(expected: Constituent, p: Provenance, wheels: WheelDir)
    requires Attestable(p) && !TreeChecked(p)
    ensures Attest(expected, p, wheels).strength == RecordedArchiveHash && Attest(expected, p, wheels).Binds() <==>
            && Account0(expected, p, wheels).Clean()
            && ArchiveCompared(expected, p) && p.archiveSha256 == expected.wheelSha256
  {
    ConcludeByArchive(expected, p, LookUpWheel(expected, wheels), VersionOnly, Account0(expected, p, wheels));
  }

  /** The two ways to bind, and what each of them says. */
  lemma BindsIffChainOrArchive(expected: Constituent, p: Provenance, wheels: WheelDir)
    ensures Attest(expected, p, wheels).Binds() <==>
            ChainHolds(expected, p, wheels) || ArchiveHolds(expected, p, wheels)
  {
    BindsIffChainHolds(expected, p, wheels);
    BindsIffArchiveHolds(expected, p, wheels);
  }

  /** A recorded archive hash binds a component of which not one file was found, let alone verified. */
  lemma BindsWithoutFiles(expected: Constituent, p: Provenance, wheels: WheelDir)
    requires p.install.None?
    ensures Attest(expected, p, wheels).Binds() <==>
            RightVersionAndName(expected, p) && expected.wheelSha256 != "" && p.archiveSha256 != ""
            && NoBadWheel(expected, wheels)
    ensures Attest(expected, p, wheels).Binds() ==>
              Attest(expected, p, wheels).Ok() && Attest(expected, p, wheels).filesVerified == 0
  {
    BindsIffChainOrArchive(expected, p, wheels);
  }
}
