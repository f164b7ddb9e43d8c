/** Whether an absent publication declaration may be skipped, judged over the whole commit history. */
module History {
  import opened PyText
  import opened BatchStream
  import Sorting

  type Commit = string
  type Oid = string

  /** One line of the history walk: a commit and its parents. */
  datatype Row = Row(commit: Commit, parents: seq<Commit>)

  /** What a commit holds at the declaration's path. */
  datatype Entry = Missing | Irregular | Regular(oid: Oid)

  type Graph = map<Commit, seq<Commit>>

  datatype History = History(parents: Graph, entry: map<Commit, Entry>, privateBlob: map<Oid, bool>) {
    predicate Complete() { parents.Keys == entry.Keys }

    predicate CleanPrivate(c: Commit)
      requires c in entry
    {
      entry[c].Regular? && entry[c].oid in privateBlob && privateBlob[entry[c].oid]
    }

    /** The commit declares something, but not cleanly "private-until-review". */
    predicate Tainted(c: Commit)
      requires c in entry
    {
      !entry[c].Missing? && !CleanPrivate(c)
    }

    /** A walk from a commit down the parent links. */
    ghost predicate IsPath(p: seq<Commit>) {
      && p != []
      && (forall i :: 0 <= i < |p| ==> p[i] in parents)
      && (forall i :: 0 <= i < |p| - 1 ==> p[i + 1] in parents[p[i]])
    }

    /** A clean private declaration lies strictly above the end of the path. */
    ghost predicate Shielded(p: seq<Commit>)
      requires Complete() && IsPath(p)
    {
      exists i :: 0 <= i < |p| - 1 && CleanPrivate(p[i])
    }

    /** Every path from `c` down to a tainted commit is shielded. */
    ghost predicate Safe(c: Commit)
      requires Complete()
    {
      forall p :: IsPath(p) && p[0] == c && Tainted(p[|p| - 1]) ==> Shielded(p)
    }

    lemma SafeDeclared(c: Commit)
      requires Complete() && c in parents && !entry[c].Missing?
      ensures Safe(c) <==> CleanPrivate(c)
    {
      if !CleanPrivate(c) {
        var p := [c];
        assert IsPath(p) && Tainted(p[|p| - 1]) && !Shielded(p);
      }
      if CleanPrivate(c) {
        forall p | IsPath(p) && p[0] == c && Tainted(p[|p| - 1]) ensures Shielded(p) {
          assert 0 < |p| - 1 && CleanPrivate(p[0]);
        }
      }
    }

    lemma SafeUndeclared(c: Commit)
      requires Complete() && c in parents && entry[c].Missing?
      requires forall p :: p in parents[c] ==> p in parents
      ensures Safe(c) <==> forall p :: p in parents[c] ==> Safe(p)
    {
      if Safe(c) {
        forall d, q | d in parents[c] && IsPath(q) && q[0] == d && Tainted(q[|q| - 1]) ensures Shielded(q) {
          var p := [c] + q;
          assert p[|p| - 1] == q[|q| - 1];
          assert forall i :: 0 < i < |p| ==> p[i] == q[i - 1];
          assert IsPath(p);
          var i :| 0 <= i < |p| - 1 && CleanPrivate(p[i]);
          assert CleanPrivate(q[i - 1]);
        }
      }
      if forall d :: d in parents[c] ==> Safe(d) {
        forall p | IsPath(p) && p[0] == c && Tainted(p[|p| - 1]) ensures Shielded(p) {
          var q := p[1..];
          assert q != [] && IsPath(q) && q[|q| - 1] == p[|p| - 1];
          assert Safe(q[0]);
          var i :| 0 <= i < |q| - 1 && CleanPrivate(q[i]);
          assert CleanPrivate(p[i + 1]);
        }
      }
    }
  }

  // ---- The declaration in a commit, a row, and a blob

  /** A parsed document value, as far as the declaration is concerned. */
  datatype Toml = Text(text: string) | Table(fields: map<string, Toml>) | Other

  const PRIVATE := "private-until-review"

  /** `None` is text that does not decode or does not parse. */
  predicate DeclaresPrivate(document: Option<map<string, Toml>>) {
    && document.Some? && "publication" in document.value
    && document.value["publication"].Table?
    && "visibility" in document.value["publication"].fields
    && document.value["publication"].fields["visibility"].Text?
    && Lower(Strip(document.value["publication"].fields["visibility"].text)) == PRIVATE
  }

  /** The test of a blob; `parse` decodes and parses it. */
  function Declares(parse: Bytes -> Option<map<string, Toml>>): Bytes -> bool {
    (data: Bytes) => DeclaresPrivate(parse(data))
  }

  function EntryOf(row: string): Entry {
    var fields := Split(row);
    if EndsWith(row, " missing") then Missing
    else if |fields| != 3 || fields[0] !in {"100644", "100755"} || fields[1] != "blob" then Irregular
    else Regular(fields[2])
  }

  // ---- What the loops compute

  function GraphOf(walk: seq<Row>): (g: Graph)
    ensures forall c :: c in g <==> exists i :: 0 <= i < |walk| && walk[i].commit == c
  {
    if walk == [] then map[]
    else
      var last := walk[|walk| - 1];
      assert forall i :: 0 <= i < |walk| - 1 ==> walk[..|walk| - 1][i] == walk[i];
      GraphOf(walk[..|walk| - 1])[last.commit := last.parents]
  }

  function OrderOf(walk: seq<Row>): seq<Commit> {
    seq(|walk|, i requires 0 <= i < |walk| => walk[i].commit)
  }

  function EntriesOf(order: seq<Commit>, checked: seq<string>): (e: map<Commit, Entry>)
    requires |order| == |checked|
    ensures forall c :: c in e <==> c in order
  {
    if order == [] then map[]
    else
      var n := |order| - 1;
      assert order == order[..n] + [order[n]];
      EntriesOf(order[..n], checked[..n])[order[n] := EntryOf(checked[n])]
  }

  function OidsOf(entries: map<Commit, Entry>): set<Oid> {
    set c | c in entries && entries[c].Regular? :: entries[c].oid
  }

  function PrivateOf(blobs: seq<Oid>, contents: seq<Bytes>, declares: Bytes -> bool): (m: map<Oid, bool>)
    requires |blobs| == |contents|
    ensures forall o :: o in m <==> o in blobs
  {
    if blobs == [] then map[]
    else
      var n := |blobs| - 1;
      assert blobs == blobs[..n] + [blobs[n]];
      PrivateOf(blobs[..n], contents[..n], declares)[blobs[n] := declares(contents[n])]
  }

  /** The `safe` map after the commits of `order` were visited from the back; `unseen` answers for parents not
      visited. */
  function SafeFrom(h: History, order: seq<Commit>, unseen: bool): (safe: map<Commit, bool>)
    requires h.Complete() && forall c :: c in order ==> c in h.parents
    ensures forall c :: c in safe <==> c in order
  {
    if order == [] then map[]
    else
      var below, c := SafeFrom(h, order[1..], unseen), order[0];
      below[c := SafeGiven(h, c, below, unseen)]
  }

  predicate SafeGiven(h: History, c: Commit, below: map<Commit, bool>, unseen: bool)
    requires h.Complete() && c in h.parents
  {
    match h.entry[c]
    case Missing => forall p :: p in h.parents[c] ==> if p in below then below[p] else unseen
    case Irregular => false
    case Regular(oid) => oid in h.privateBlob && h.privateBlob[oid]
  }

  predicate IsTip(g: Graph, c: Commit) {
    c in g && forall d :: d in g ==> c !in g[d]
  }

  predicate Accepts(h: History, order: seq<Commit>, head: Commit)
    requires h.Complete() && forall c :: c in order ==> c in h.parents
  {
    var safe := SafeFrom(h, order, true);
    && head in safe && safe[head]
    && forall t :: t in order && IsTip(h.parents, t) ==> safe[t]
  }

  /** Skip: never opted in. Refused: the gate's own error. Raised: the stream could not be read. */
  datatype Verdict = Skip | Refused | Raised

  function Judge(walk: seq<Row>, head: Commit, checked: seq<string>, batch: Bytes, declares: Bytes -> bool): Verdict {
    if |checked| != |walk| then Refused
    else
      var entries := EntriesOf(OrderOf(walk), checked);
      var blobs := Sorting.Sorted(OidsOf(entries));
      match Frames(Reader(batch, SizeOf), 0, |blobs|)
      case None => Raised
      case Some(contents) =>
        var h := History(GraphOf(walk), entries, PrivateOf(blobs, contents, declares));
        EntriesCoverGraph(walk, checked);
        if Accepts(h, OrderOf(walk), head) then Skip else Refused
  }

  lemma EntriesCoverGraph(walk: seq<Row>, checked: seq<string>)
    requires |checked| == |walk|
    ensures GraphOf(walk).Keys == EntriesOf(OrderOf(walk), checked).Keys
    ensures forall c :: c in OrderOf(walk) <==> c in GraphOf(walk)
  {
    var order := OrderOf(walk);
    forall c ensures c in order <==> c in GraphOf(walk) {
      if c in order { var i :| 0 <= i < |order| && order[i] == c; assert walk[i].commit == c; }
      if c in GraphOf(walk) { var i :| 0 <= i < |walk| && walk[i].commit == c; assert order[i] == c; }
    }
  }

  // ---- The loops themselves

  method ReadWalk(walk: seq<Row>) returns (graph: Graph, order: seq<Commit>)
    ensures graph == GraphOf(walk) && order == OrderOf(walk)
  {
    graph, order := map[], [];
    for i := 0 to |walk|
      invariant graph == GraphOf(walk[..i]) && order == OrderOf(walk[..i])
    {
      assert walk[..i + 1][..i] == walk[..i];
      graph := graph[walk[i].commit := walk[i].parents];
      order := order + [walk[i].commit];
    }
    assert walk[..|walk|] == walk;
  }

  method ReadEntries(order: seq<Commit>, checked: seq<string>) returns (present: map<Commit, Entry>)
    requires |order| == |checked|
    ensures present == EntriesOf(order, checked)
  {
    present := map[];
    for i := 0 to |order|
      invariant present == EntriesOf(order[..i], checked[..i])
    {
      assert order[..i + 1][..i] == order[..i] && checked[..i + 1][..i] == checked[..i];
      present := present[order[i] := EntryOf(checked[i])];
    }
    assert order[..|order|] == order && checked[..|order|] == checked;
  }

  ghost function After(contents: seq<Bytes>, rest: Option<seq<Bytes>>): Option<seq<Bytes>> {
    match rest case None => None case Some(more) => Some(contents + more)
  }

  lemma AfterNothing(rest: Option<seq<Bytes>>)
    ensures After([], rest) == rest
  {
    assert rest.Some? ==> [] + rest.value == rest.value;
  }

  lemma AfterStep(read: int -> Option<Frame>, pos: int, count: nat, contents: seq<Bytes>)
    requires count > 0
    ensures After(contents, Frames(read, pos, count))
         == match read(pos)
            case None => None
            case Some(f) => After(contents + [f.data], Frames(read, f.next, count - 1))
  {
    var frame := read(pos);
    if frame.Some? {
      var rest := Frames(read, frame.value.next, count - 1);
      if rest.Some? {
        assert contents + ([frame.value.data] + rest.value) == contents + [frame.value.data] + rest.value;
      }
    }
  }

  lemma PrivateOfStep(blobs: seq<Oid>, i: nat, contents: seq<Bytes>, data: Bytes, declares: Bytes -> bool)
    requires |contents| == i < |blobs|
    ensures PrivateOf(blobs[..i + 1], contents + [data], declares)
         == PrivateOf(blobs[..i], contents, declares)[blobs[i] := declares(data)]
  {
    assert blobs[..i + 1][..i] == blobs[..i] && (contents + [data])[..i] == contents;
  }

  /** None where the source's read loop raises. */
  method ReadPrivateBlobs(out: Bytes, blobs: seq<Oid>, declares: Bytes -> bool, sizeOf: Bytes -> Option<int>)
    returns (privateBlob: Option<map<Oid, bool>>)
    ensures privateBlob == match Frames(Reader(out, sizeOf), 0, |blobs|)
                           case None => None
                           case Some(contents) => Some(PrivateOf(blobs, contents, declares))
  {
    var pos: int := 0;
    var private: map<Oid, bool> := map[];
    ghost var contents: seq<Bytes> := [];
    ghost var read, whole := Reader(out, sizeOf), Frames(Reader(out, sizeOf), 0, |blobs|);
    AfterNothing(whole);
    for i := 0 to |blobs|
      invariant |contents| == i && private == PrivateOf(blobs[..i], contents, declares)
      invariant whole == After(contents, Frames(read, pos, |blobs| - i))
    {
      AfterStep(read, pos, |blobs| - i, contents);
      var frame := ReadFrame(out, pos, sizeOf);
      if frame.None? {
        return None;
      }
      var data := frame.value.data;
      PrivateOfStep(blobs, i, contents, data, declares);
      private := private[blobs[i] := declares(data)];
      contents := contents + [data];
      pos := frame.value.next;
    }
    assert blobs[..|blobs|] == blobs;
    assert contents + [] == contents;
    privateBlob := Some(private);
  }

  method FillSafe(h: History, order: seq<Commit>) returns (safe: map<Commit, bool>)
    requires h.Complete() && forall c :: c in order ==> c in h.parents
    ensures safe == SafeFrom(h, order, true)
  {
    safe := map[];
    var i := |order|;
    while i > 0
      invariant 0 <= i <= |order|
      invariant safe == SafeFrom(h, order[i..], true)
    {
      i := i - 1;
      var commit := order[i];
      assert order[i..][0] == commit && order[i..][1..] == order[i + 1..];
      safe := safe[commit := SafeGiven(h, commit, safe, true)];
    }
    assert order[0..] == order;
  }

  // ---- What the verdict means

  /** Children come before parents, every parent is listed, and no commit twice. */
  ghost predicate Topological(parents: Graph, order: seq<Commit>) {
    && (forall i :: 0 <= i < |order| ==> order[i] in parents)
    && (forall i, j :: 0 <= i < j < |order| ==> order[i] != order[j])
    && (forall i, p :: 0 <= i < |order| && p in parents[order[i]] ==> p in order[i + 1..])
  }

  lemma TopologicalTail(parents: Graph, order: seq<Commit>)
    requires Topological(parents, order) && order != []
    ensures Topological(parents, order[1..])
  {
    var rest := order[1..];
    forall i, p | 0 <= i < |rest| && p in parents[rest[i]] ensures p in rest[i + 1..] {
      assert order[i + 1] == rest[i] && order[i + 2..] == rest[i + 1..];
    }
  }

  /** The backwards loop computes the meaning over paths, whatever the answer for parents not visited would be. */
  lemma {:induction false} SafeFromMeaning(h: History, order: seq<Commit>, unseen: bool)
    requires h.Complete() && Topological(h.parents, order)
    ensures forall c :: c in order ==> SafeFrom(h, order, unseen)[c] == h.Safe(c)
    decreases |order|
  {
    if order != [] {
      var c, rest := order[0], order[1..];
      var below := SafeFrom(h, rest, unseen);
      TopologicalTail(h.parents, order);
      SafeFromMeaning(h, rest, unseen);
      assert forall p :: p in h.parents[c] ==> p in order[0 + 1..];
      if h.entry[c].Missing? {
        assert forall p :: p in h.parents[c] ==> below[p] == h.Safe(p);
        h.SafeUndeclared(c);
      } else {
        h.SafeDeclared(c);
      }
      assert forall d :: d in order ==> d == c || d in rest;
    }
  }

  /** Every path from HEAD, or from a commit that is nobody's parent, down to a tainted commit is shielded. */
  ghost predicate AcceptedByPaths(h: History, head: Commit)
    requires h.Complete()
  {
    && head in h.parents && h.Safe(head)
    && forall t :: t in h.parents && (forall d :: d in h.parents ==> t !in h.parents[d]) ==> h.Safe(t)
  }

  lemma AcceptsMeaning(h: History, order: seq<Commit>, head: Commit)
    requires h.Complete() && Topological(h.parents, order)
    requires forall c :: c in h.parents ==> c in order
    ensures Accepts(h, order, head) <==> AcceptedByPaths(h, head)
  {
    SafeFromMeaning(h, order, true);
  }

  // ---- The verdict depends on the history, not on how it is listed or how often it is pointed at

  /** `c` is an ancestor of a ref, or one itself. */
  ghost predicate Reachable(h: History, refs: set<Commit>, c: Commit) {
    exists p :: h.IsPath(p) && p[0] in refs && p[|p| - 1] == c
  }

  /** `walked` is the part of `repo` that a walk from `refs` sees. */
  ghost predicate WalkOf(repo: History, refs: set<Commit>, walked: History) {
    && repo.Complete() && walked.Complete() && walked.privateBlob == repo.privateBlob
    && (forall c :: c in walked.parents <==> Reachable(repo, refs, c))
    && walked.parents.Keys <= repo.parents.Keys
    && (forall c :: c in walked.parents ==> walked.parents[c] == repo.parents[c] && walked.entry[c] == repo.entry[c])
  }

  lemma ReachableThroughReachable(h: History, refs: set<Commit>, r: Commit)
    requires Reachable(h, refs, r)
    ensures forall c :: Reachable(h, refs + {r}, c) <==> Reachable(h, refs, c)
  {
    forall c ensures Reachable(h, refs + {r}, c) <==> Reachable(h, refs, c) {
      if Reachable(h, refs, c) {
        var p :| h.IsPath(p) && p[0] in refs && p[|p| - 1] == c;
        assert p[0] in refs + {r};
      }
      if Reachable(h, refs + {r}, c) {
        var q :| h.IsPath(q) && q[0] in refs + {r} && q[|q| - 1] == c;
        if q[0] !in refs {
          var p :| h.IsPath(p) && p[0] in refs && p[|p| - 1] == r;
          var joined := p + q[1..];
          assert forall i :: |p| <= i < |joined| ==> joined[i] == q[i - |p| + 1];
          assert h.IsPath(joined) && joined[0] in refs;
          assert joined[|joined| - 1] == c;
        }
      }
    }
  }

  lemma SameWalk(repo: History, refs: set<Commit>, refs': set<Commit>, walked: History, walked': History)
    requires WalkOf(repo, refs, walked) && WalkOf(repo, refs', walked')
    requires forall c :: Reachable(repo, refs', c) <==> Reachable(repo, refs, c)
    ensures walked == walked'
  {
    assert forall c :: c in walked.parents <==> c in walked'.parents;
    assert walked.parents == walked'.parents;
    assert walked.entry == walked'.entry;
  }

  /** Two listings of one history get one verdict, and a further ref at an already walked commit changes nothing. */
  lemma VerdictIsOfTheHistory(repo: History, refs: set<Commit>, r: Commit, head: Commit,
                              walked: History, order: seq<Commit>, walked': History, order': seq<Commit>)
    requires Reachable(repo, refs, r)
    requires WalkOf(repo, refs, walked) && (WalkOf(repo, refs, walked') || WalkOf(repo, refs + {r}, walked'))
    requires Topological(walked.parents, order) && forall c :: c in walked.parents ==> c in order
    requires Topological(walked'.parents, order') && forall c :: c in walked'.parents ==> c in order'
    ensures Accepts(walked, order, head) <==> Accepts(walked', order', head)
  {
    ReachableThroughReachable(repo, refs, r);
    if WalkOf(repo, refs, walked') {
      SameWalk(repo, refs, refs, walked, walked');
    } else {
      SameWalk(repo, refs, refs + {r}, walked, walked');
    }
    AcceptsMeaning(walked, order, head);
    AcceptsMeaning(walked', order', head);
  }
}
