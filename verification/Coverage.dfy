/** Checking the rows of an install record against the files on disk, and the running account of it. */
module Coverage {
  import opened PyText
  import Sorting

  /** Relative paths and their digests; a row without a usable digest has None. */
  type Rows = map<string, Option<string>>

  /** A resolved path. */
  type Path = string

  datatype Kind =
    | BytecodeCache | UnrecordedFile | BlankDigest | RelocatedData | SiteCustomization | InstallerGenerated
    | WheelUnavailable

  datatype Mismatch =
    | VersionDiffers | InstalledFromOther | RecordUnreadable | WheelMalformed | WheelDigestDiffers
    | ArchiveDigestDiffers
    | OutsideRoot(relative: string) | MissingOnDisk(relative: string) | Unreadable(relative: string)
    | DigestDiffers(relative: string, recorded: string, actual: string)
    | UndeclaredScript(relative: string, target: (string, string))

  datatype Script = UnreadableScript | NoImport | Imports(target: (string, string))

  /** A path met on the walk of a directory; None where asking raises. */
  datatype Found = Found(relative: Option<string>, isFile: Option<bool>)

  /** The environment around one site-packages directory. */
  datatype Host = Host(
    resolve: string -> Option<Path>,         // None: it raises, or leads outside the install root
    isFile: Path -> bool,
    digest: Path -> Option<string>,          // None: unreadable
    isDirectory: string -> bool,
    walk: string -> Option<seq<Found>>,      // None: the walk raises
    script: Path -> Script,
    startupFiles: seq<string>,               // *.pth
    accounted: set<string>)                  // what the records of all distributions list

  // ---- What one row says

  datatype Fate = Skipped | Noted(kind: Kind) | Failed(mismatch: Mismatch) | Verified

  function RowFate(host: Host, recordName: string, relative: string, expected: Option<string>): Fate {
    if relative == recordName then Skipped
    else if Infix(".data/", relative) then Noted(RelocatedData)
    else if expected.None? then Noted(if EndsWith(relative, ".pyc") then BytecodeCache else BlankDigest)
    else
      match host.resolve(relative)
      case None => Failed(OutsideRoot(relative))
      case Some(path) =>
        if !host.isFile(path) then Failed(MissingOnDisk(relative))
        else match host.digest(path)
             case None => Failed(Unreadable(relative))
             case Some(actual) =>
               if actual != expected.value then Failed(DigestDiffers(relative, expected.value, actual)) else Verified
  }

  /** The path leads through a directory whose contents are moved at install time. */
  ghost predicate Relocated(relative: string) { exists a, b :: relative == a + (".data/" + b) }

  /** The row names a file inside the root, with exactly the digest it gives. */
  ghost predicate FileMatches(host: Host, relative: string, expected: Option<string>) {
    && expected.Some? && !Relocated(relative)
    && host.resolve(relative).Some? && host.isFile(host.resolve(relative).value)
    && host.digest(host.resolve(relative).value) == expected
  }

  lemma VerifiedIffMatches(host: Host, recordName: string, relative: string, expected: Option<string>)
    ensures RowFate(host, recordName, relative, expected) == Verified
            <==> relative != recordName && FileMatches(host, relative, expected)
  {
    InfixStands(".data/", relative);
  }

  /** Every row other than the record's own matches its file. */
  ghost predicate AllMatch(host: Host, rows: Rows, recordName: string) {
    forall k :: k in rows && k != recordName ==> FileMatches(host, k, rows[k])
  }

  // ---- The account

  function Count(unattested: map<Kind, seq<string>>, kind: Kind): nat {
    if kind in unattested then |unattested[kind]| else 0
  }

  function Size(unattested: map<Kind, seq<string>>): nat {
    Count(unattested, BytecodeCache) + Count(unattested, UnrecordedFile) + Count(unattested, BlankDigest)
    + Count(unattested, RelocatedData) + Count(unattested, SiteCustomization)
    + Count(unattested, InstallerGenerated) + Count(unattested, WheelUnavailable)
  }

  datatype Account = Account(mismatches: seq<Mismatch>, verified: nat, unattested: map<Kind, seq<string>>) {
    function Note(kind: Kind, example: string): Account {
      this.(unattested := unattested[kind := (if kind in unattested then unattested[kind] else []) + [example]])
    }

    function Fail(mismatch: Mismatch): Account { this.(mismatches := mismatches + [mismatch]) }

    function Take(relative: string, fate: Fate): Account {
      match fate
      case Skipped => this
      case Noted(kind) => Note(kind, relative)
      case Failed(mismatch) => Fail(mismatch)
      case Verified => this.(verified := verified + 1)
    }

    /** Everything accounted for so far. */
    function Total(): nat { |mismatches| + verified + Size(unattested) }

    predicate Clean() { mismatches == [] && unattested == map[] }
  }

  function TakeRows(host: Host, recordName: string, rows: Rows, keys: seq<string>, account: Account): Account
    requires forall k :: k in keys ==> k in rows
  {
    if keys == [] then account
    else
      var n := |keys| - 1;
      var before := TakeRows(host, recordName, rows, keys[..n], account);
      before.Take(keys[n], RowFate(host, recordName, keys[n], rows[keys[n]]))
  }

  lemma TakeOneMore(host: Host, recordName: string, rows: Rows, keys: seq<string>, k: string, account: Account)
    requires k in rows && forall x :: x in keys ==> x in rows
    ensures TakeRows(host, recordName, rows, keys + [k], account)
         == TakeRows(host, recordName, rows, keys, account).Take(k, RowFate(host, recordName, k, rows[k]))
  {
    assert (keys + [k])[..|keys + [k]| - 1] == keys;
  }

  function TakeAllRows(host: Host, recordName: string, rows: Rows, account: Account): Account {
    TakeRows(host, recordName, rows, Sorting.Sorted(rows.Keys), account)
  }

  class Coverage {
    var mismatches: seq<Mismatch>
    var verified: nat
    var unattested: map<Kind, seq<string>>

    ghost function Value(): Account
      reads this
    {
      Account(mismatches, verified, unattested)
    }

    constructor ()
      ensures Value() == Account([], 0, map[])
    {
      mismatches, verified, unattested := [], 0, map[];
    }

    method NoteUnattested(kind: Kind, example: string)
      modifies this
      ensures Value() == old(Value()).Note(kind, example)
    {
      var examples := if kind in unattested then unattested[kind] else [];
      unattested := unattested[kind := examples + [example]];
    }

    method AddMismatch(mismatch: Mismatch)
      modifies this
      ensures Value() == old(Value()).Fail(mismatch)
    {
      mismatches := mismatches + [mismatch];
    }
  }

  method VerifyEntry(relative: string, expected: Option<string>, host: Host, coverage: Coverage, recordName: string)
    modifies coverage
    ensures coverage.Value() == old(coverage.Value()).Take(relative, RowFate(host, recordName, relative, expected))
  {
    if relative == recordName {
      return;
    }
    if Infix(".data/", relative) {
      coverage.NoteUnattested(RelocatedData, relative);
      return;
    }
    if expected.None? {
      coverage.NoteUnattested(if EndsWith(relative, ".pyc") then BytecodeCache else BlankDigest, relative);
      return;
    }
    var resolved := host.resolve(relative);
    if resolved.None? {
      coverage.AddMismatch(OutsideRoot(relative));
      return;
    }
    if !host.isFile(resolved.value) {
      coverage.AddMismatch(MissingOnDisk(relative));
      return;
    }
    var actual := host.digest(resolved.value);
    if actual.None? {
      coverage.AddMismatch(Unreadable(relative));
      return;
    }
    if actual.value != expected.value {
      coverage.AddMismatch(DigestDiffers(relative, expected.value, actual.value));
      return;
    }
    coverage.verified := coverage.verified + 1;
  }

  method VerifyEntries(rows: Rows, host: Host, coverage: Coverage, recordName: string)
    modifies coverage
    ensures coverage.Value() == TakeAllRows(host, recordName, rows, old(coverage.Value()))
  {
    VerifyKeys(Sorting.Sorted(rows.Keys), rows, host, coverage, recordName);
  }

  method VerifyKeys(keys: seq<string>, rows: Rows, host: Host, coverage: Coverage, recordName: string)
    requires forall k :: k in keys ==> k in rows
    modifies coverage
    ensures coverage.Value() == TakeRows(host, recordName, rows, keys, old(coverage.Value()))
  {
    ghost var start, done: seq<string> := coverage.Value(), [];
    for i := 0 to |keys|
      invariant done == keys[..i] && coverage.Value() == TakeRows(host, recordName, rows, done, start)
    {
      var k := keys[i];
      TakeOneMore(host, recordName, rows, done, k, start);
      VerifyEntry(k, rows[k], host, coverage, recordName);
      done := done + [k];
    }
    assert done == keys;
  }

  // ---- Conservation

  function One(kind: Kind, k: Kind): nat { if k == kind then 1 else 0 }

  lemma OneKind(kind: Kind)
    ensures One(kind, BytecodeCache) + One(kind, UnrecordedFile) + One(kind, BlankDigest) + One(kind, RelocatedData)
          + One(kind, SiteCustomization) + One(kind, InstallerGenerated) + One(kind, WheelUnavailable) == 1
  {}

  lemma CountOneMore(unattested: map<Kind, seq<string>>, kind: Kind, examples: seq<string>, k: Kind)
    requires |examples| == Count(unattested, kind) + 1
    ensures Count(unattested[kind := examples], k) == Count(unattested, k) + One(kind, k)
  {}

  lemma NoteCounts(account: Account, kind: Kind, example: string)
    ensures account.Note(kind, example).Total() == account.Total() + 1 && !account.Note(kind, example).Clean()
  {
    var examples := account.Note(kind, example).unattested[kind];
    forall k ensures Count(account.unattested[kind := examples], k) == Count(account.unattested, k) + One(kind, k) {
      CountOneMore(account.unattested, kind, examples, k);
    }
    OneKind(kind);
  }

  lemma TakeOne(account: Account, relative: string, fate: Fate)
    ensures account.Take(relative, fate).Total() == account.Total() + if fate.Skipped? then 0 else 1
    ensures account.Take(relative, fate).Clean() <==> account.Clean() && (fate.Skipped? || fate.Verified?)
  {
    if fate.Noted? {
      NoteCounts(account, fate.kind, relative);
    }
  }

  /** How many of the keys are rows to check. */
  function Checkable(keys: seq<string>, recordName: string): nat {
    if keys == [] then 0
    else Checkable(keys[..|keys| - 1], recordName) + if keys[|keys| - 1] == recordName then 0 else 1
  }

  lemma {:induction false} RowsAreConserved(host: Host, recordName: string, rows: Rows, keys: seq<string>,
                                            account: Account)
    requires forall k :: k in keys ==> k in rows
    ensures TakeRows(host, recordName, rows, keys, account).Total() == account.Total() + Checkable(keys, recordName)
    decreases |keys|
  {
    if keys != [] {
      var n := |keys| - 1;
      RowsAreConserved(host, recordName, rows, keys[..n], account);
      var before := TakeRows(host, recordName, rows, keys[..n], account);
      TakeOne(before, keys[n], RowFate(host, recordName, keys[n], rows[keys[n]]));
    }
  }

  lemma {:induction false} CheckableCount(keys: seq<string>, recordName: string)
    requires forall i, j :: 0 <= i < j < |keys| ==> keys[i] != keys[j]
    ensures Checkable(keys, recordName) == |keys| - if recordName in keys then 1 else 0
    decreases |keys|
  {
    if keys != [] {
      var n := |keys| - 1;
      CheckableCount(keys[..n], recordName);
      assert keys == keys[..n] + [keys[n]];
    }
  }

  /** Verified, mismatched and unattested together grow by exactly the rows other than the record itself. */
  lemma VerifyEntriesConserves(host: Host, recordName: string, rows: Rows, account: Account)
    ensures TakeAllRows(host, recordName, rows, account).Total() == account.Total() + |rows.Keys - {recordName}|
  {
    var keys := Sorting.Sorted(rows.Keys);
    RowsAreConserved(host, recordName, rows, keys, account);
    CheckableCount(keys, recordName);
  }

  /** The account stays clean exactly when every row other than the record matches its file. */
  lemma {:induction false} RowsClean(host: Host, recordName: string, rows: Rows, keys: seq<string>, account: Account)
    requires forall k :: k in keys ==> k in rows
    ensures TakeRows(host, recordName, rows, keys, account).Clean() <==>
            account.Clean() && forall k :: k in keys && k != recordName ==> FileMatches(host, k, rows[k])
    decreases |keys|
  {
    if keys != [] {
      var n := |keys| - 1;
      var k := keys[n];
      RowsClean(host, recordName, rows, keys[..n], account);
      TakeOne(TakeRows(host, recordName, rows, keys[..n], account), k, RowFate(host, recordName, k, rows[k]));
      VerifiedIffMatches(host, recordName, k, rows[k]);
      assert forall x :: x in keys <==> x in keys[..n] || x == k;
    }
  }

  lemma AllRowsClean(host: Host, recordName: string, rows: Rows, account: Account)
    ensures TakeAllRows(host, recordName, rows, account).Clean() <==>
            account.Clean() && AllMatch(host, rows, recordName)
  {
    RowsClean(host, recordName, rows, Sorting.Sorted(rows.Keys), account);
  }
}
