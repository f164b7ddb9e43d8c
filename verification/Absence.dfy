/** What the identifier gate is shown of a repository, and the verdict it must reach on it. */
module Absence {
  import opened PyText
  import opened BatchStream
  import opened History
  import Sorting

  // ---- What git prints of a repository

  /** Every commit once, with its parents, and none before a child of its own. */
  ghost predicate Lists(walk: seq<Row>, repo: History) {
    && (forall i :: 0 <= i < |walk| ==>
          walk[i].commit in repo.parents && walk[i].parents == repo.parents[walk[i].commit])
    && (forall i, j :: 0 <= i < j < |walk| ==> walk[i].commit != walk[j].commit)
    && (forall c :: c in repo.parents ==> exists i :: 0 <= i < |walk| && walk[i].commit == c)
    && (forall i, p :: 0 <= i < |walk| && p in walk[i].parents ==> exists j :: i < j < |walk| && walk[j].commit == p)
  }

  ghost predicate IsOid(s: string) {
    s != "" && forall i :: 0 <= i < |s| ==> '0' <= s[i] <= '9' || 'a' <= s[i] <= 'f'
  }

  /** The row printed for what a commit holds at the path: nothing, a regular file, or any other kind of object. */
  ghost predicate RowFor(row: string, e: Entry) {
    match e
    case Missing => exists name :: row == name + " missing"
    case Regular(oid) => IsOid(oid) && (row == "100644 blob " + oid || row == "100755 blob " + oid)
    case Irregular => exists mode, kind, oid :: OtherObject(row, mode, kind, oid)
  }

  ghost predicate OtherObject(row: string, mode: string, kind: string, oid: string) {
    && row == mode + (" " + (kind + (" " + oid)))
    && mode != "" && NoSpace(mode) && kind != "" && NoSpace(kind) && IsOid(oid)
    && !(kind == "blob" && (mode == "100644" || mode == "100755"))
  }

  ghost predicate Checks(checked: seq<string>, walk: seq<Row>, repo: History) {
    && |checked| == |walk|
    && forall i :: 0 <= i < |walk| ==> walk[i].commit in repo.entry && RowFor(checked[i], repo.entry[walk[i].commit])
  }

  ghost function DeclaredOids(repo: History): set<Oid> {
    set c | c in repo.entry && repo.entry[c].Regular? :: repo.entry[c].oid
  }

  function AsBytes(s: string): Bytes {
    seq(|s|, i requires 0 <= i < |s| => if s[i] < 128 as char then s[i] as Byte else 0)
  }

  const BLOB: Bytes := [98, 108, 111, 98]

  /** The printed blobs of the given names, in order. */
  function Printed(oids: seq<Oid>, blobs: map<Oid, Bytes>): seq<Object>
    requires forall o :: o in oids ==> o in blobs
  {
    seq(|oids|, i requires 0 <= i < |oids| => Object(Header(AsBytes(oids[i]), BLOB, |blobs[oids[i]]|), blobs[oids[i]]))
  }

  /** All that the gate reads shows this repository, with these blobs, of which `declares` says what they declare. */
  ghost predicate Shows(walk: seq<Row>, checked: seq<string>, batch: Bytes, repo: History, blobs: map<Oid, Bytes>,
                        declares: Bytes -> bool) {
    && repo.Complete() && Lists(walk, repo) && Checks(checked, walk, repo)
    && (forall o :: o in DeclaredOids(repo) ==>
          o in blobs && o in repo.privateBlob && repo.privateBlob[o] == declares(blobs[o]))
    && batch == Encode(Printed(Sorting.Sorted(DeclaredOids(repo)), blobs))
  }

  // ---- The walk and the rows are read as they are meant

  lemma {:induction false} GraphIsListed(walk: seq<Row>, c: Commit, i: nat)
    requires i < |walk| && walk[i].commit == c
    requires forall j, k :: 0 <= j < k < |walk| ==> walk[j].commit != walk[k].commit
    ensures c in GraphOf(walk) && GraphOf(walk)[c] == walk[i].parents
    decreases |walk|
  {
    if i < |walk| - 1 {
      GraphIsListed(walk[..|walk| - 1], c, i);
    }
  }

  lemma GraphAt(walk: seq<Row>, repo: History, c: Commit)
    requires Lists(walk, repo)
    ensures c in GraphOf(walk) <==> c in repo.parents
    ensures c in repo.parents ==> GraphOf(walk)[c] == repo.parents[c]
  {
    if c in repo.parents {
      var i :| 0 <= i < |walk| && walk[i].commit == c;
      GraphIsListed(walk, c, i);
    }
  }

  lemma GraphIsTheRepositorys(walk: seq<Row>, repo: History)
    requires Lists(walk, repo)
    ensures GraphOf(walk) == repo.parents
  {
    forall c ensures c in GraphOf(walk) <==> c in repo.parents { GraphAt(walk, repo, c); }
    forall c | c in repo.parents ensures GraphOf(walk)[c] == repo.parents[c] { GraphAt(walk, repo, c); }
  }

  lemma ListingIsTopological(walk: seq<Row>, repo: History)
    requires Lists(walk, repo)
    ensures Topological(repo.parents, OrderOf(walk))
  {
    var order := OrderOf(walk);
    forall i, p | 0 <= i < |order| && p in repo.parents[order[i]] ensures p in order[i + 1..] {
      assert p in walk[i].parents;
      var j :| i < j < |walk| && walk[j].commit == p;
      assert order[i + 1..][j - i - 1] == p;
    }
  }

  lemma OidIsAWord(oid: string)
    requires IsOid(oid)
    ensures NoSpace(oid) && oid[|oid| - 1] != 'g'
  {}

  lemma ThreeFields(row: string, a: string, b: string, c: string)
    requires row == a + (" " + (b + (" " + c)))
    requires a != "" && b != "" && c != "" && NoSpace(a) && NoSpace(b) && NoSpace(c)
    ensures Split(row) == [a, b, c]
  {
    WordThenSeparator(a, ' ', b + (" " + c), IsSpace);
    WordThenSeparator(b, ' ', c, IsSpace);
    OneWord(c, IsSpace);
  }

  lemma EndsInG(row: string)
    requires EndsWith(row, " missing")
    ensures row[|row| - 1] == 'g'
  {
    assert row[|row| - 8..][7] == row[|row| - 1];
  }

  /** Only a row about a missing path ends in " missing". */
  lemma LastFieldShows(row: string, front: string, oid: string)
    requires row == front + oid && IsOid(oid)
    ensures !EndsWith(row, " missing")
  {
    OidIsAWord(oid);
    assert row[|row| - 1] == oid[|oid| - 1];
    if EndsWith(row, " missing") {
      EndsInG(row);
    }
  }

  lemma FieldsOf(row: string, mode: string, kind: string, oid: string)
    requires row == mode + (" " + (kind + (" " + oid)))
    requires mode != "" && NoSpace(mode) && kind != "" && NoSpace(kind) && IsOid(oid)
    ensures Split(row) == [mode, kind, oid] && !EndsWith(row, " missing")
  {
    OidIsAWord(oid);
    ThreeFields(row, mode, kind, oid);
    assert row == (mode + (" " + (kind + " "))) + oid;
    LastFieldShows(row, mode + (" " + (kind + " ")), oid);
  }

  lemma RegularText(mode: string, front: string, oid: string)
    requires front == mode + " blob "
    ensures front + oid == mode + (" " + ("blob" + (" " + oid)))
  {}

  lemma RegularRow(mode: string, oid: string, row: string)
    requires (mode == "100644" || mode == "100755") && IsOid(oid) && row == mode + (" " + ("blob" + (" " + oid)))
    ensures EntryOf(row) == Regular(oid)
  {
    assert NoSpace(mode) && NoSpace("blob");
    FieldsOf(row, mode, "blob", oid);
  }

  lemma IrregularRow(mode: string, kind: string, oid: string, row: string)
    requires OtherObject(row, mode, kind, oid)
    ensures EntryOf(row) == Irregular
  {
    FieldsOf(row, mode, kind, oid);
  }

  lemma MissingRow(name: string, row: string)
    requires row == name + " missing"
    ensures EntryOf(row) == Missing
  {
    assert row[|row| - 8..] == " missing";
  }

  lemma RowReads(row: string, e: Entry)
    requires RowFor(row, e)
    ensures EntryOf(row) == e
  {
    match e {
      case Missing =>
        var name :| row == name + " missing";
        MissingRow(name, row);
      case Regular(oid) =>
        if row == "100644 blob " + oid {
          RegularText("100644", "100644 blob ", oid);
          RegularRow("100644", oid, row);
        } else {
          RegularText("100755", "100755 blob ", oid);
          RegularRow("100755", oid, row);
        }
      case Irregular =>
        var mode, kind, oid :| OtherObject(row, mode, kind, oid);
        IrregularRow(mode, kind, oid, row);
    }
  }

  lemma {:induction false} EntryIsChecked(order: seq<Commit>, checked: seq<string>, i: nat)
    requires |order| == |checked| && i < |order|
    requires forall j, k :: 0 <= j < k < |order| ==> order[j] != order[k]
    ensures order[i] in EntriesOf(order, checked) && EntriesOf(order, checked)[order[i]] == EntryOf(checked[i])
    decreases |order|
  {
    if i < |order| - 1 {
      EntryIsChecked(order[..|order| - 1], checked[..|order| - 1], i);
    }
  }

  lemma CommitsAreListed(walk: seq<Row>, repo: History, c: Commit)
    requires repo.Complete() && Lists(walk, repo)
    ensures c in OrderOf(walk) <==> c in repo.entry
  {
    if c in repo.entry {
      var i :| 0 <= i < |walk| && walk[i].commit == c;
      assert OrderOf(walk)[i] == c;
    }
  }

  lemma EntryIsTheRepositorys(walk: seq<Row>, checked: seq<string>, repo: History, c: Commit)
    requires repo.Complete() && Lists(walk, repo) && Checks(checked, walk, repo) && c in repo.entry
    ensures c in EntriesOf(OrderOf(walk), checked) && EntriesOf(OrderOf(walk), checked)[c] == repo.entry[c]
  {
    var i :| 0 <= i < |walk| && walk[i].commit == c;
    EntryIsChecked(OrderOf(walk), checked, i);
    RowReads(checked[i], repo.entry[c]);
  }

  lemma EntriesAreTheRepositorys(walk: seq<Row>, checked: seq<string>, repo: History)
    requires repo.Complete() && Lists(walk, repo) && Checks(checked, walk, repo)
    ensures EntriesOf(OrderOf(walk), checked) == repo.entry
  {
    forall c ensures c in OrderOf(walk) <==> c in repo.entry { CommitsAreListed(walk, repo, c); }
    forall c | c in repo.entry ensures EntriesOf(OrderOf(walk), checked)[c] == repo.entry[c] {
      EntryIsTheRepositorys(walk, checked, repo, c);
    }
  }

  // ---- The blobs are read as they were printed

  lemma AsBytesIsToken(oid: string)
    requires IsOid(oid)
    ensures Token(AsBytes(oid))
  {}

  lemma PrintedIsWellFramed(oids: seq<Oid>, blobs: map<Oid, Bytes>)
    requires forall o :: o in oids ==> o in blobs && IsOid(o)
    ensures WellFramed(Printed(oids, blobs), SizeOf)
  {
    forall i | 0 <= i < |oids| ensures Describes(Printed(oids, blobs)[i], SizeOf) {
      assert oids[i] in oids;
      AsBytesIsToken(oids[i]);
      HeaderDescribes(AsBytes(oids[i]), BLOB, |blobs[oids[i]]|);
    }
  }

  lemma {:induction false} ContentsAt(objects: seq<Object>, i: nat)
    requires i < |objects|
    ensures |Contents(objects)| == |objects| && Contents(objects)[i] == objects[i].data
  {
    if |objects| > 1 {
      ContentsAt(objects[1..], if i == 0 then 0 else i - 1);
    }
  }

  lemma {:induction false} PrivateIsDeclared(oids: seq<Oid>, contents: seq<Bytes>, declares: Bytes -> bool, i: nat)
    requires |oids| == |contents| && i < |oids|
    requires forall j, k :: 0 <= j < k < |oids| ==> oids[j] != oids[k]
    ensures PrivateOf(oids, contents, declares)[oids[i]] == declares(contents[i])
    decreases |oids|
  {
    if i < |oids| - 1 {
      PrivateIsDeclared(oids[..|oids| - 1], contents[..|oids| - 1], declares, i);
    }
  }

  lemma DeclaredOidsAreOids(walk: seq<Row>, checked: seq<string>, repo: History)
    requires repo.Complete() && Lists(walk, repo) && Checks(checked, walk, repo)
    ensures forall o :: o in DeclaredOids(repo) ==> IsOid(o)
  {
    forall c | c in repo.entry && repo.entry[c].Regular? ensures IsOid(repo.entry[c].oid) {
      var i :| 0 <= i < |walk| && walk[i].commit == c;
      assert RowFor(checked[i], repo.entry[c]);
    }
  }

  /** The two histories agree on every declared blob. */
  ghost predicate SameDeclarations(h: History, g: History) {
    && g == h.(privateBlob := g.privateBlob) && h.Complete()
    && forall o :: o in DeclaredOids(h) ==>
         o in h.privateBlob && o in g.privateBlob && h.privateBlob[o] == g.privateBlob[o]
  }

  lemma SamePaths(h: History, g: History, head: Commit)
    requires SameDeclarations(h, g)
    ensures AcceptedByPaths(h, head) <==> AcceptedByPaths(g, head)
  {
    forall c | c in h.entry ensures h.CleanPrivate(c) <==> g.CleanPrivate(c) {
      if h.entry[c].Regular? { assert h.entry[c].oid in DeclaredOids(h); }
    }
    forall p ensures h.IsPath(p) <==> g.IsPath(p) {}
    forall c | c in h.parents ensures h.Safe(c) <==> g.Safe(c) { SameSafe(h, g, c); }
  }

  lemma SameSafe(h: History, g: History, c: Commit)
    requires SameDeclarations(h, g) && c in h.parents
    requires forall d :: d in h.entry ==> (h.CleanPrivate(d) <==> g.CleanPrivate(d))
    ensures h.Safe(c) <==> g.Safe(c)
  {
    forall p | h.IsPath(p) ensures h.Shielded(p) <==> g.Shielded(p) {
      assert g.IsPath(p);
    }
    forall p | g.IsPath(p) ensures h.IsPath(p) {}
  }

  // ---- The verdict

  lemma ReadBackAt(oids: seq<Oid>, blobs: map<Oid, Bytes>, declares: Bytes -> bool, i: nat)
    requires Sorting.Ascending(oids) && i < |oids| && forall o :: o in oids ==> o in blobs
    ensures var contents := Contents(Printed(oids, blobs));
            && |contents| == |oids| && oids[i] in oids
            && PrivateOf(oids, contents, declares)[oids[i]] == declares(blobs[oids[i]])
  {
    ContentsAt(Printed(oids, blobs), i);
    PrivateIsDeclared(oids, Contents(Printed(oids, blobs)), declares, i);
  }

  /** What the stream read back says of every declared blob. */
  lemma BlobsReadBack(oids: seq<Oid>, blobs: map<Oid, Bytes>, batch: Bytes, declares: Bytes -> bool)
    returns (contents: seq<Bytes>)
    requires Sorting.Ascending(oids) && forall o :: o in oids ==> o in blobs && IsOid(o)
    requires batch == Encode(Printed(oids, blobs))
    ensures Frames(Reader(batch, SizeOf), 0, |oids|) == Some(contents) && |contents| == |oids|
    ensures forall o :: o in oids ==> PrivateOf(oids, contents, declares)[o] == declares(blobs[o])
  {
    PrintedIsWellFramed(oids, blobs);
    StreamRoundTrip(Printed(oids, blobs), SizeOf);
    contents := Contents(Printed(oids, blobs));
    forall o | o in oids ensures PrivateOf(oids, contents, declares)[o] == declares(blobs[o]) {
      var i :| 0 <= i < |oids| && oids[i] == o;
      ReadBackAt(oids, blobs, declares, i);
    }
  }

  /** The verdict once all that is shown has been read. */
  lemma JudgedAs(walk: seq<Row>, head: Commit, checked: seq<string>, batch: Bytes, declares: Bytes -> bool, h: History,
                 contents: seq<Bytes>)
    requires |checked| == |walk| && h.Complete()
    requires GraphOf(walk) == h.parents && EntriesOf(OrderOf(walk), checked) == h.entry
    requires Frames(Reader(batch, SizeOf), 0, |OidsOf(h.entry)|) == Some(contents)
    requires |contents| == |OidsOf(h.entry)|
    requires h.privateBlob == PrivateOf(Sorting.Sorted(OidsOf(h.entry)), contents, declares)
    requires forall c :: c in OrderOf(walk) <==> c in h.parents
    ensures Judge(walk, head, checked, batch, declares) == if Accepts(h, OrderOf(walk), head) then Skip else Refused
  {}

  /** Absence is skipped exactly when every path from HEAD or a tip to a tainted commit is shielded, or else refused. */
  lemma AbsenceAcceptedIffShielded(repo: History, blobs: map<Oid, Bytes>, head: Commit, walk: seq<Row>,
                                   checked: seq<string>, batch: Bytes, declares: Bytes -> bool)
    requires Shows(walk, checked, batch, repo, blobs, declares)
    ensures Judge(walk, head, checked, batch, declares) == if AcceptedByPaths(repo, head) then Skip else Refused
  {
    var oids := Sorting.Sorted(DeclaredOids(repo));
    assert OidsOf(repo.entry) == DeclaredOids(repo);
    DeclaredOidsAreOids(walk, checked, repo);
    var contents := BlobsReadBack(oids, blobs, batch, declares);
    var h := History(repo.parents, repo.entry, PrivateOf(oids, contents, declares));
    SamePaths(repo, h, head);
    GraphIsTheRepositorys(walk, repo);
    EntriesAreTheRepositorys(walk, checked, repo);
    forall c ensures c in OrderOf(walk) <==> c in repo.parents { CommitsAreListed(walk, repo, c); }
    JudgedAs(walk, head, checked, batch, declares, h, contents);
    ListingIsTopological(walk, repo);
    AcceptsMeaning(h, OrderOf(walk), head);
  }

  // ---- What counts as a clean private declaration

  /** The document's visibility is "private-until-review", in any case and with any white space around it. */
  ghost predicate SaysPrivate(document: map<string, Toml>, section: map<string, Toml>,
                              lead: string, core: string, trail: string) {
    && "publication" in document && document["publication"] == Table(section)
    && "visibility" in section && section["visibility"] == Text(lead + (core + trail))
    && AllSpace(lead) && AllSpace(trail) && Lower(core) == "private-until-review"
  }

  lemma NoSpaceAround(core: string)
    requires Lower(core) == "private-until-review"
    ensures Stripped(core)
  {
    assert LowerChar(core[0]) == 'p' && LowerChar(core[|core| - 1]) == 'w';
  }

  /** A document that does not decode, does not parse, or says anything else is no clean private declaration. */
  lemma CleanDeclaration(document: Option<map<string, Toml>>)
    ensures DeclaresPrivate(document) <==>
            document.Some?
            && exists section, lead, core, trail :: SaysPrivate(document.value, section, lead, core, trail)
  {
    if DeclaresPrivate(document) {
      var section := document.value["publication"].fields;
      var text := section["visibility"].text;
      var lead, trail := StripLeaves(text);
      assert SaysPrivate(document.value, section, lead, Strip(text), trail);
    }
    if document.Some? {
      forall section, lead, core, trail | SaysPrivate(document.value, section, lead, core, trail)
        ensures DeclaresPrivate(document)
      {
        NoSpaceAround(core);
        StripTakesSpace(lead, core, trail);
      }
    }
  }

  // ---- The gate

  /** `head` is None for a HEAD that does not resolve; `holdsCommits` says whether any commit object exists. */
  method AbsentDeclarationVerdict(head: Option<Commit>, holdsCommits: bool, walk: seq<Row>, checked: seq<string>,
                                  batch: Bytes, parse: Bytes -> Option<map<string, Toml>>) returns (verdict: Verdict)
    ensures head.None? ==> (verdict == if holdsCommits then Refused else Skip)
    ensures head.Some? ==> verdict == Judge(walk, head.value, checked, batch, Declares(parse))
    ensures head.Some? ==>
              forall repo, blobs :: Shows(walk, checked, batch, repo, blobs, Declares(parse)) ==>
                verdict == if AcceptedByPaths(repo, head.value) then Skip else Refused
  {
    if head.Some? {
      forall repo, blobs | Shows(walk, checked, batch, repo, blobs, Declares(parse))
        ensures Judge(walk, head.value, checked, batch, Declares(parse))
             == if AcceptedByPaths(repo, head.value) then Skip else Refused
      {
        AbsenceAcceptedIffShielded(repo, blobs, head.value, walk, checked, batch, Declares(parse));
      }
    }
    if head.None? {
      return if holdsCommits then Refused else Skip;
    }
    var graph, order := ReadWalk(walk);
    var parented := set d, p | d in graph && p in graph[d] :: p;
    if |checked| != |order| {
      return Refused;
    }
    var present := ReadEntries(order, checked);
    var blobs := Sorting.Sorted(OidsOf(present));
    var privateBlob := ReadPrivateBlobs(batch, blobs, Declares(parse), SizeOf);
    if privateBlob.None? {
      return Raised;
    }
    EntriesCoverGraph(walk, checked);
    var h := History(graph, present, privateBlob.value);
    var safe := FillSafe(h, order);
    if head.value in safe && safe[head.value] && forall t :: t in order && t !in parented ==> safe[t] {
      verdict := Skip;
    } else {
      verdict := Refused;
    }
    assert forall t :: t in order ==> (t !in parented <==> IsTip(graph, t));
  }
}
