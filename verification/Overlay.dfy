/** The per-user environment overlay: reading it, merging the suite's own keys, and writing it back. */
module Overlay {
  import opened PyText
  import opened Lines
  import Sorting

  type Values = map<string, string>

  // ---- Reading

  datatype Entry = Entry(key: string, value: string)

  predicate IsEquals(c: char) { c == '=' }

  function Unexported(key: string): string {
    if StartsWith(key, "export ") then Strip(key[7..]) else key
  }

  /** In quotes that reading takes off. */
  predicate Quoted(value: string) {
    |value| >= 2 && (value[0] == '"' || value[0] == '\'') && value[|value| - 1] == value[0]
  }

  function Unquoted(value: string): string { if Quoted(value) then value[1..|value| - 1] else value }

  function ParseLine(line: string): Option<Entry> {
    var stripped := Strip(line);
    var n := WordLength(stripped, IsEquals);
    if stripped == "" || stripped[0] == '#' || n == |stripped| then None
    else Some(Entry(Unexported(Strip(stripped[..n])), Unquoted(Strip(stripped[n + 1..]))))
  }

  function Put(values: Values, e: Option<Entry>): Values {
    match e case None => values case Some(entry) => values[entry.key := entry.value]
  }

  function ParseLines(lines: seq<string>, known: Values): Values {
    if lines == [] then known else ParseLines(lines[1..], Put(known, ParseLine(lines[0])))
  }

  /** None is a path that is no file. */
  function ParseEnv(file: Option<string>): Values {
    match file case None => map[] case Some(text) => ParseLines(SplitLines(text), map[])
  }

  // ---- Writing

  const WRITTEN_BY := "# Per-user overlay \U{2014} written by "
  const COMMAND := "`agent-suite bootstrap --user <principal>`."
  const LAYERED := "# Layers on top of the system suite.env; "
  const PROCESS_WINS := "process env still wins."
  const SHARED := "# Shared facts (DSN, secret backend) "
  const STAY := "stay in the system file."

  const HEADER_LINES := [WRITTEN_BY + COMMAND, LAYERED + PROCESS_WINS, SHARED + STAY]

  function EntryLine(key: string, value: string): string { key + ("=" + value) }

  function LinesOf(keys: seq<string>, values: Values): seq<string>
    requires forall k :: k in keys ==> k in values
  {
    if keys == [] then [] else [EntryLine(keys[0], values[keys[0]])] + LinesOf(keys[1..], values)
  }

  function JoinLines(lines: seq<string>): string {
    if lines == [] then "" else lines[0] + (['\n'] + JoinLines(lines[1..]))
  }

  function RenderOverlay(values: Values): string {
    JoinLines(HEADER_LINES + LinesOf(Sorting.Sorted(values.Keys), values))
  }

  function OverlayValues(principal: string, project: Option<string>, projects: seq<string>): Values {
    var values: Values := map["REGISTA_PRINCIPAL_ID" := principal];
    var values := if project.Some? && project.value != ""
                  then values["AGENT_NOTES_PROJECT" := project.value] else values;
    if projects != [] then values["DOSSIER_PROJECTS" := JoinCommas(projects)] else values
  }

  function JoinCommas(words: seq<string>): string {
    if words == [] then "" else if |words| == 1 then words[0] else words[0] + "," + JoinCommas(words[1..])
  }

  datatype Outcome = AlreadyDone | Pending | Done | Failed

  function Merged(file: Option<string>, values: Values): Values { ParseEnv(file) + values }

  /** The file after a run that was allowed to write. */
  function RunOnce(file: Option<string>, values: Values): Option<string> {
    Some(RenderOverlay(Merged(file, values)))
  }

  /** A run finds nothing to do. */
  predicate Settled(file: Option<string>, values: Values) { RunOnce(file, values) == file }

  class OverlayFile {
    var content: Option<string>

    /** `writable` says whether the disk lets the file be written. */
    method WriteOverlay(values: Values, dryRun: bool, writable: bool) returns (outcome: Outcome)
      modifies this
      ensures outcome == AlreadyDone <==> Settled(old(content), values)
      ensures content == if !Settled(old(content), values) && !dryRun && writable
                         then RunOnce(old(content), values) else old(content)
      ensures !Settled(old(content), values) ==>
              outcome == if dryRun then Pending else if writable then Done else Failed
    {
      var existing := ParseEnv(content);
      var merged := existing + values;
      var body := RenderOverlay(merged);
      if content == Some(body) {
        return AlreadyDone;
      }
      if dryRun {
        return Pending;
      }
      if !writable {
        return Failed;
      }
      content := Some(body);
      outcome := Done;
    }
  }

  // ---- Reading only ever drops characters

  /** Every character of `r` is one of `s`. */
  ghost predicate Within(r: string, s: string) { forall c :: c in r ==> c in s }

  lemma {:induction false} LStripIsSuffix(s: string)
    ensures Within(LStrip(s), s)
  {
    if s != "" && IsSpace(s[0]) {
      LStripIsSuffix(s[1..]);
    }
  }

  lemma StripIsWithin(s: string)
    ensures Within(Strip(s), s)
  {
    LStripIsSuffix(s);
    var t := LStrip(s);
    assert RStrip(t) == t[..|RStrip(t)|];
  }

  lemma UnexportedIsWithin(key: string)
    ensures Within(Unexported(key), key) && |Unexported(key)| <= |key|
    ensures |Unexported(key)| == |key| ==> Unexported(key) == key
  {
    if StartsWith(key, "export ") {
      StripIsWithin(key[7..]);
    }
  }

  lemma UnquotedIsWithin(value: string)
    ensures Within(Unquoted(value), value) && |Unquoted(value)| <= |value|
    ensures |Unquoted(value)| == |value| ==> Unquoted(value) == value
  {}

  lemma UnbrokenWithin(r: string, s: string)
    requires Within(r, s) && NoLineBreak(s)
    ensures NoLineBreak(r)
  {
    forall i | 0 <= i < |r| ensures !IsLineBreak(r[i]) {
      assert r[i] in r;
      var j :| 0 <= j < |s| && s[j] == r[i];
    }
  }

  lemma ParsedLineIsClean(line: string)
    requires NoLineBreak(line) && ParseLine(line).Some?
    ensures var e := ParseLine(line).value; NoLineBreak(e.key) && NoLineBreak(e.value) && '=' !in e.key
  {
    var stripped := Strip(line);
    var n := WordLength(stripped, IsEquals);
    var k, v := stripped[..n], stripped[n + 1..];
    StripIsWithin(line);
    StripIsWithin(k);
    StripIsWithin(v);
    UnexportedIsWithin(Strip(k));
    UnquotedIsWithin(Strip(v));
    assert Within(k, stripped) && Within(v, stripped) && '=' !in k;
    UnbrokenWithin(ParseLine(line).value.key, line);
    UnbrokenWithin(ParseLine(line).value.value, line);
  }

  // ---- Reading back one written entry

  lemma {:induction false} LStripBefore(k: string, c: char, v: string)
    requires !IsSpace(c)
    ensures LStrip(k + ([c] + v)) == LStrip(k) + ([c] + v)
  {
    if k == "" {
      assert k + ([c] + v) == [c] + v;
      assert LStrip(k) + ([c] + v) == [c] + v;
    } else {
      assert (k + ([c] + v))[1..] == k[1..] + ([c] + v);
      LStripBefore(k[1..], c, v);
    }
  }

  lemma {:induction false} RStripBehind(k: string, c: char, v: string)
    requires !IsSpace(c)
    ensures RStrip(k + ([c] + v)) == k + ([c] + RStrip(v))
    decreases |v|
  {
    var s := k + ([c] + v);
    if v != "" && IsSpace(v[|v| - 1]) {
      assert s[..|s| - 1] == k + ([c] + v[..|v| - 1]);
      RStripBehind(k, c, v[..|v| - 1]);
    } else if v == "" {
      assert s[|s| - 1] == c;
    }
  }

  lemma EntryStripped(key: string, value: string)
    ensures Strip(EntryLine(key, value)) == LStrip(key) + (['='] + RStrip(value))
  {
    LStripBefore(key, '=', value);
    RStripBehind(LStrip(key), '=', value);
  }

  /** Where a line is cut at its first equals sign. */
  lemma CutAtEquals(line: string, k: string, v: string)
    requires line == k + (['='] + v) && '=' !in k
    ensures WordLength(line, IsEquals) == |k| < |line| && line[..|k|] == k && line[|k| + 1..] == v
    ensures line[0] == if k == "" then '=' else k[0]
  {
    forall i | 0 <= i < |k| ensures !IsEquals(k[i]) { assert k[i] in k; }
    WordLengthIs(k, ['='] + v, IsEquals);
  }

  /** How a written entry is read: by what key and value it comes back, if not as a comment. */
  lemma WrittenEntryReads(key: string, value: string)
    requires '=' !in key
    ensures ParseLine(EntryLine(key, value)) ==
            if LStrip(key) != "" && LStrip(key)[0] == '#' then None
            else Some(Entry(Unexported(Strip(LStrip(key))), Unquoted(Strip(RStrip(value)))))
  {
    EntryStripped(key, value);
    LStripIsSuffix(key);
    CutAtEquals(Strip(EntryLine(key, value)), LStrip(key), RStrip(value));
  }

  // ---- Reading back a written file

  lemma FirstOfJoined(text: string, line: string, rest: string)
    requires text == line + (['\n'] + rest) && NoLineBreak(line)
    ensures text != "" && FirstLine(text) == line && RestLines(text) == rest
  {
    WordLengthIs(line, ['\n'] + rest, IsLineBreak);
    assert text[|line|] == '\n';
  }

  lemma {:induction false} SplitJoined(lines: seq<string>)
    requires forall l :: l in lines ==> NoLineBreak(l)
    ensures SplitLines(JoinLines(lines)) == lines
  {
    if lines != [] {
      assert lines[0] in lines && forall l :: l in lines[1..] ==> l in lines;
      SplitJoined(lines[1..]);
      SplitFirst(JoinLines(lines), lines[0], JoinLines(lines[1..]));
    }
  }

  lemma SplitFirst(text: string, line: string, rest: string)
    requires text == line + (['\n'] + rest) && NoLineBreak(line)
    ensures SplitLines(text) == [line] + SplitLines(rest)
  {
    FirstOfJoined(text, line, rest);
  }

  lemma {:induction false} ParseLinesAppend(a: seq<string>, b: seq<string>, known: Values)
    ensures ParseLines(a + b, known) == ParseLines(b, ParseLines(a, known))
  {
    if a == [] {
      assert a + b == b;
    } else {
      assert (a + b)[1..] == a[1..] + b;
      ParseLinesAppend(a[1..], b, Put(known, ParseLine(a[0])));
    }
  }

  lemma CommentReadsAsNothing(line: string)
    requires line != "" && line[0] == '#'
    ensures ParseLine(line).None?
  {
    assert LStrip(line) == line;
    var stripped := Strip(line);
    assert stripped != "" ==> stripped[0] == line[0];
  }

  ghost predicate Comments(lines: seq<string>) {
    forall l :: l in lines ==> l != "" && l[0] == '#' && NoLineBreak(l)
  }

  lemma {:induction false} CommentsReadAsNothing(lines: seq<string>, known: Values)
    requires Comments(lines)
    ensures ParseLines(lines, known) == known
  {
    if lines != [] {
      assert lines[0] in lines && forall l :: l in lines[1..] ==> l in lines;
      CommentReadsAsNothing(lines[0]);
      CommentsReadAsNothing(lines[1..], known);
    }
  }

  lemma FirstLineUnbroken()
    ensures NoLineBreak(WRITTEN_BY) && NoLineBreak(COMMAND)
  {}

  lemma SecondLineUnbroken()
    ensures NoLineBreak(LAYERED) && NoLineBreak(PROCESS_WINS)
  {}

  lemma ThirdLineUnbroken()
    ensures NoLineBreak(SHARED) && NoLineBreak(STAY)
  {}

  lemma HeaderIsComments()
    ensures Comments(HEADER_LINES)
  {
    FirstLineUnbroken();
    SecondLineUnbroken();
    ThirdLineUnbroken();
    assert WRITTEN_BY[0] == LAYERED[0] == SHARED[0] == '#';
  }

  /** One entry to a line: no entry contains a line break, and no key an equals sign. */
  ghost predicate Writable(values: Values) {
    forall k :: k in values ==> NoLineBreak(k) && NoLineBreak(values[k]) && '=' !in k
  }

  lemma {:induction false} EntryLinesUnbroken(keys: seq<string>, values: Values)
    requires Writable(values) && forall k :: k in keys ==> k in values
    ensures forall l :: l in LinesOf(keys, values) ==> NoLineBreak(l)
  {
    if keys != [] {
      assert keys[0] in keys && forall k :: k in keys[1..] ==> k in keys;
      EntryLinesUnbroken(keys[1..], values);
    }
  }

  lemma WrittenFileReads(values: Values)
    requires Writable(values)
    ensures ParseEnv(Some(RenderOverlay(values))) == ParseLines(LinesOf(Sorting.Sorted(values.Keys), values), map[])
  {
    var lines := LinesOf(Sorting.Sorted(values.Keys), values);
    HeaderIsComments();
    CommentsReadAsNothing(HEADER_LINES, map[]);
    EntryLinesUnbroken(Sorting.Sorted(values.Keys), values);
    SplitJoined(HEADER_LINES + lines);
    ParseLinesAppend(HEADER_LINES, lines, map[]);
  }

  lemma {:induction false} ParsedLinesAreWritable(lines: seq<string>, known: Values)
    requires Writable(known) && forall l :: l in lines ==> NoLineBreak(l)
    ensures Writable(ParseLines(lines, known))
    decreases |lines|
  {
    if lines != [] {
      assert lines[0] in lines && forall l :: l in lines[1..] ==> l in lines;
      if ParseLine(lines[0]).Some? {
        ParsedLineIsClean(lines[0]);
      }
      ParsedLinesAreWritable(lines[1..], Put(known, ParseLine(lines[0])));
    }
  }

  /** Whatever a file holds, what is read from it can be written, one entry to a line. */
  lemma ParsedIsWritable(file: Option<string>)
    ensures Writable(ParseEnv(file))
  {
    if file.Some? {
      ParsedLinesAreWritable(SplitLines(file.value), map[]);
    }
  }

  // ---- The measure: the characters of the entries

  function EntryWeight(key: string, value: string): nat { |key| + |value| + 2 }

  ghost function Weight(values: Values): nat
    decreases values.Keys
  {
    if values.Keys == {} then 0
    else var k :| k in values; EntryWeight(k, values[k]) + Weight(values - {k})
  }

  lemma {:induction false} WeightWithout(values: Values, k: string)
    requires k in values
    ensures Weight(values) == EntryWeight(k, values[k]) + Weight(values - {k})
    decreases values.Keys
  {
    var p :| p in values && Weight(values) == EntryWeight(p, values[p]) + Weight(values - {p});
    if p != k {
      WeightWithout(values - {p}, k);
      assert values - {p} - {k} == values - {k} - {p};
      WeightWithout(values - {k}, p);
    }
  }

  lemma WeightPut(values: Values, k: string, v: string)
    ensures k !in values ==> Weight(values[k := v]) == Weight(values) + EntryWeight(k, v)
    ensures Weight(values[k := v]) <= Weight(values) + EntryWeight(k, v)
  {
    WeightWithout(values[k := v], k);
    if k in values {
      WeightWithout(values, k);
      assert values[k := v] - {k} == values - {k};
    } else {
      assert values[k := v] - {k} == values;
    }
  }

  /** A written entry comes back no longer than it was, and unchanged unless shorter. */
  lemma EntryShrinks(key: string, value: string)
    requires '=' !in key
    ensures var e := ParseLine(EntryLine(key, value));
            e.Some? ==> EntryWeight(e.value.key, e.value.value) <= EntryWeight(key, value)
                        && (EntryWeight(e.value.key, e.value.value) == EntryWeight(key, value) ==>
                           e.value == Entry(key, value))
  {
    WrittenEntryReads(key, value);
    UnexportedIsWithin(Strip(LStrip(key)));
    UnquotedIsWithin(Strip(RStrip(value)));
    assert |RStrip(value)| == |value| ==> RStrip(value) == value;
  }

  // ---- Reading back all written entries

  /** A form that reading leaves alone: no white space at either end, no comment, no export prefix, no quotes around. */
  predicate Normal(key: string, value: string) {
    && Stripped(key) && (key == "" || key[0] != '#') && !StartsWith(key, "export ")
    && Stripped(value) && !Quoted(value)
  }

  lemma StrippedIffStays(s: string)
    ensures Stripped(s) <==> Strip(s) == s
    ensures Stripped(s) ==> LStrip(s) == s && RStrip(s) == s
    ensures Strip(LStrip(s)) == s || Strip(RStrip(s)) == s ==> Stripped(s)
  {}

  lemma UnexportedStays(key: string)
    ensures Unexported(key) == key <==> !StartsWith(key, "export ")
  {}

  lemma UnquotedStays(value: string)
    ensures Unquoted(value) == value <==> !Quoted(value)
  {}

  /** An entry comes back as it was written exactly when it is in normal form. */
  lemma NormalIffReadsBack(key: string, value: string)
    requires '=' !in key
    ensures ParseLine(EntryLine(key, value)) == Some(Entry(key, value)) <==> Normal(key, value)
  {
    WrittenEntryReads(key, value);
    StrippedIffStays(key);
    StrippedIffStays(value);
    UnexportedStays(key);
    UnquotedStays(value);
    UnexportedIsWithin(Strip(LStrip(key)));
    UnquotedIsWithin(Strip(RStrip(value)));
  }

  predicate AllNormal(values: Values, owned: set<string>) {
    forall k :: k in values && k !in owned ==> Normal(k, values[k])
  }

  /** A key that reading leaves alone, whatever its value. */
  predicate PlainKey(key: string) {
    && key != "" && Stripped(key) && key[0] != '#' && !StartsWith(key, "export ")
    && '=' !in key && NoLineBreak(key)
  }

  lemma PlainKeyStays(key: string, value: string)
    requires PlainKey(key)
    ensures ParseLine(EntryLine(key, value)).Some? && ParseLine(EntryLine(key, value)).value.key == key
  {
    WrittenEntryReads(key, value);
    assert LStrip(key) == key && RStrip(key) == key;
  }

  function Restrict(values: Values, keys: seq<string>): Values { map k | k in values && k in keys :: values[k] }

  lemma LinesOfAppend(keys: seq<string>, k: string, values: Values)
    requires k in values && forall x :: x in keys ==> x in values
    ensures LinesOf(keys + [k], values) == LinesOf(keys, values) + [EntryLine(k, values[k])]
  {
    if keys == [] {
      assert [] + [k] == [k];
    } else {
      assert keys[0] in keys && forall x :: x in keys[1..] ==> x in keys;
      assert (keys + [k])[1..] == keys[1..] + [k];
      LinesOfAppend(keys[1..], k, values);
    }
  }

  /** What reading one more line does to the entries the suite does not own. */
  lemma PutUnowned(acc: Values, e: Option<Entry>, owned: set<string>)
    ensures Put(acc, e) - owned == if e.Some? && e.value.key !in owned then (acc - owned)[e.value.key := e.value.value]
                                   else acc - owned
  {}

  /** Equal, or lighter. */
  ghost predicate Lighter(a: Values, b: Values) { a == b || Weight(a) < Weight(b) }

  /** An entry of the suite's own changes nothing among the others. */
  lemma OneMoreOwned(acc: Values, all: Values, k: string, v: string, owned: set<string>)
    requires k in owned && PlainKey(k)
    ensures Put(acc, ParseLine(EntryLine(k, v))) - owned == acc - owned
    ensures all[k := v] - owned == all - owned
  {
    PutUnowned(acc, ParseLine(EntryLine(k, v)), owned);
    PlainKeyStays(k, v);
  }

  /** Any other entry comes back as it was written, or else lighter. */
  lemma OneMorePut(acc: Values, all: Values, k: string, v: string, e: Option<Entry>)
    requires k !in all && Lighter(acc, all)
    requires e.Some? ==> EntryWeight(e.value.key, e.value.value) < EntryWeight(k, v) || e.value == Entry(k, v)
    ensures Lighter(Put(acc, e), all[k := v])
    ensures Put(acc, e) == all[k := v] <==> acc == all && e == Some(Entry(k, v))
  {
    WeightPut(all, k, v);
    if e.Some? {
      WeightPut(acc, e.value.key, e.value.value);
    }
  }

  lemma OneMoreUnowned(acc: Values, all: Values, k: string, v: string, owned: set<string>, e: Option<Entry>)
    requires k !in all && k !in owned && Lighter(acc - owned, all - owned)
    requires e.Some? ==> EntryWeight(e.value.key, e.value.value) < EntryWeight(k, v) || e.value == Entry(k, v)
    ensures Lighter(Put(acc, e) - owned, all[k := v] - owned)
    ensures Put(acc, e) - owned == all[k := v] - owned <==> acc - owned == all - owned && e == Some(Entry(k, v))
  {
    PutUnowned(acc, e, owned);
    assert all[k := v] - owned == (all - owned)[k := v];
    OneMorePut(acc - owned, all - owned, k, v, if e.Some? && e.value.key in owned then None else e);
  }

  lemma EntryComesBack(k: string, v: string, e: Option<Entry>)
    requires '=' !in k && e == ParseLine(EntryLine(k, v))
    ensures e.Some? ==> EntryWeight(e.value.key, e.value.value) < EntryWeight(k, v) || e.value == Entry(k, v)
    ensures e == Some(Entry(k, v)) <==> Normal(k, v)
  {
    EntryShrinks(k, v);
    NormalIffReadsBack(k, v);
  }

  /** One entry more: still equal when it is normal, and lighter than what was written when it is not. */
  lemma OneMoreEntry(acc: Values, all: Values, k: string, v: string, owned: set<string>)
    requires k !in all && '=' !in k && forall o :: o in owned ==> PlainKey(o)
    requires Lighter(acc - owned, all - owned)
    ensures var acc', all' := Put(acc, ParseLine(EntryLine(k, v))), all[k := v];
            && Lighter(acc' - owned, all' - owned)
            && (acc' - owned == all' - owned <==> acc - owned == all - owned && (k in owned || Normal(k, v)))
  {
    if k in owned {
      OneMoreOwned(acc, all, k, v, owned);
    } else {
      EntryComesBack(k, v, ParseLine(EntryLine(k, v)));
      OneMoreUnowned(acc, all, k, v, owned, ParseLine(EntryLine(k, v)));
    }
  }

  /** What is read from the written entries of some keys. */
  function ReadBack(keys: seq<string>, values: Values): Values
    requires forall k :: k in keys ==> k in values
  {
    ParseLines(LinesOf(keys, values), map[])
  }

  lemma ReadBackAppend(keys: seq<string>, k: string, values: Values)
    requires k in values && forall x :: x in keys ==> x in values
    ensures ReadBack(keys + [k], values) == Put(ReadBack(keys, values), ParseLine(EntryLine(k, values[k])))
  {
    var line := EntryLine(k, values[k]);
    LinesOfAppend(keys, k, values);
    ParseLinesAppend(LinesOf(keys, values), [line], map[]);
    assert [line][1..] == [];
  }

  lemma RestrictAppend(keys: seq<string>, k: string, values: Values)
    requires k in values
    ensures Restrict(values, keys + [k]) == Restrict(values, keys)[k := values[k]]
  {}

  /** Equal where the suite owns nothing, exactly when all is normal; lighter otherwise. */
  ghost predicate SameOrLighter(back: Values, all: Values, owned: set<string>) {
    && Lighter(back - owned, all - owned)
    && (back - owned == all - owned <==> AllNormal(all, owned))
  }

  lemma SameOrLighterStep(back: Values, all: Values, k: string, v: string, owned: set<string>)
    requires k !in all && '=' !in k && forall o :: o in owned ==> PlainKey(o)
    requires SameOrLighter(back, all, owned)
    ensures SameOrLighter(Put(back, ParseLine(EntryLine(k, v))), all[k := v], owned)
  {
    OneMoreEntry(back, all, k, v, owned);
    assert AllNormal(all[k := v], owned) <==> AllNormal(all, owned) && (k in owned || Normal(k, v)) by {
      assert forall x :: x in all[k := v] <==> x == k || x in all;
      assert forall x :: x in all ==> all[k := v][x] == all[x];
    }
  }

  /** Reading what was written gives back the unowned entries, or something lighter. */
  lemma {:induction false} ReadBackShrinks(keys: seq<string>, values: Values, owned: set<string>)
    requires Writable(values) && forall o :: o in owned ==> PlainKey(o)
    requires forall k :: k in keys ==> k in values
    requires forall i, j :: 0 <= i < j < |keys| ==> keys[i] != keys[j]
    ensures SameOrLighter(ReadBack(keys, values), Restrict(values, keys), owned)
    decreases |keys|
  {
    if keys == [] {
      assert Restrict(values, keys) == map[];
    } else {
      var before, k := keys[..|keys| - 1], keys[|keys| - 1];
      assert keys == before + [k] && k !in before;
      ReadBackShrinks(before, values, owned);
      ReadBackAppend(before, k, values);
      RestrictAppend(before, k, values);
      SameOrLighterStep(ReadBack(before, values), Restrict(values, before), k, values[k], owned);
    }
  }

  // ---- Repeated runs

  /** The suite's own entries: plain keys, and values of one line. */
  predicate WellFormed(values: Values) {
    forall k :: k in values ==> PlainKey(k) && NoLineBreak(values[k])
  }

  function Iterate<T>(run: T -> T, x: T, n: nat): T
    decreases n
  {
    if n == 0 then x else Iterate(run, run(x), n - 1)
  }

  /** The file after `n` runs. */
  function After(file: Option<string>, values: Values, n: nat): Option<string> {
    Iterate(f => RunOnce(f, values), file, n)
  }

  lemma MergedIsWritable(file: Option<string>, values: Values)
    requires WellFormed(values)
    ensures Writable(Merged(file, values))
  {
    ParsedIsWritable(file);
  }

  lemma SameUnowned(a: Values, b: Values, values: Values)
    requires forall k :: k in values ==> k in a && k in b && a[k] == b[k]
    ensures a - values.Keys == b - values.Keys <==> a == b
  {
    if a - values.Keys == b - values.Keys {
      forall k ensures k in a <==> k in b {
        assert k in a - values.Keys <==> k in b - values.Keys;
      }
      forall k | k in a ensures a[k] == b[k] {
        if k !in values {
          assert (a - values.Keys)[k] == (b - values.Keys)[k];
        }
      }
    }
  }

  lemma EntriesReadBack(values: Values, owned: set<string>)
    requires Writable(values) && forall o :: o in owned ==> PlainKey(o)
    ensures SameOrLighter(ReadBack(Sorting.Sorted(values.Keys), values), values, owned)
  {
    ReadBackShrinks(Sorting.Sorted(values.Keys), values, owned);
    RestrictAll(values);
  }

  lemma WholeReadBack(values: Values, owned: set<string>)
    requires Writable(values) && forall o :: o in owned ==> PlainKey(o)
    ensures SameOrLighter(ParseEnv(Some(RenderOverlay(values))), values, owned)
  {
    EntriesReadBack(values, owned);
    WrittenFileReads(values);
  }

  ghost function UnownedWeight(file: Option<string>, values: Values): nat {
    Weight(Merged(file, values) - values.Keys)
  }

  lemma MergeReadBack(before: Values, back: Values, values: Values)
    requires forall k :: k in values ==> k in before && before[k] == values[k]
    requires SameOrLighter(back, before, values.Keys)
    ensures (back + values) - values.Keys == back - values.Keys
    ensures back + values == before <==> AllNormal(before, values.Keys)
    ensures back + values == before || Weight((back + values) - values.Keys) < Weight(before - values.Keys)
  {
    assert (back + values) - values.Keys == back - values.Keys;
    SameUnowned(back + values, before, values);
  }

  /** What a run finds behind the run before it: the same entries exactly when all were normal, or else lighter ones. */
  lemma NextRun(file: Option<string>, values: Values)
    requires WellFormed(values)
    ensures var written := RunOnce(file, values);
            && (Merged(written, values) == Merged(file, values) <==> AllNormal(Merged(file, values), values.Keys))
            && (Merged(written, values) == Merged(file, values)
                || UnownedWeight(written, values) < UnownedWeight(file, values))
            && Merged(written, values) - values.Keys == ParseEnv(written) - values.Keys
  {
    MergedIsWritable(file, values);
    WholeReadBack(Merged(file, values), values.Keys);
    MergeReadBack(Merged(file, values), ParseEnv(RunOnce(file, values)), values);
  }

  /** A process that changes nothing more unless its weight falls comes to rest. */
  lemma {:induction false} IterationSettles<T(!new)>(run: T -> T, weight: T -> nat, x: T) returns (n: nat)
    requires forall y :: run(run(y)) == run(y) || weight(run(y)) < weight(y)
    ensures n <= 1 + weight(x) && run(Iterate(run, x, n)) == Iterate(run, x, n)
    decreases weight(x)
  {
    if run(run(x)) == run(x) {
      n := 1;
      assert Iterate(run, x, 1) == Iterate(run, run(x), 0);
    } else {
      n := IterationSettles(run, weight, run(x));
      n := n + 1;
    }
  }

  lemma {:induction false} RestIsForever<T>(run: T -> T, x: T, n: nat)
    requires run(x) == x
    ensures Iterate(run, x, n) == x
  {
    if n > 0 {
      RestIsForever(run, x, n - 1);
    }
  }

  lemma RunTwice(file: Option<string>, values: Values)
    requires WellFormed(values)
    ensures RunOnce(RunOnce(file, values), values) == RunOnce(file, values)
            || UnownedWeight(RunOnce(file, values), values) < UnownedWeight(file, values)
  {
    NextRun(file, values);
  }

  /** From any starting file, some run finds nothing to do. */
  lemma RunsSettle(file: Option<string>, values: Values) returns (n: nat)
    requires WellFormed(values)
    ensures n <= 1 + UnownedWeight(file, values) && Settled(After(file, values, n), values)
  {
    var run := (f: Option<string>) => RunOnce(f, values);
    var weight := (f: Option<string>) => UnownedWeight(f, values);
    forall f ensures run(run(f)) == run(f) || weight(run(f)) < weight(f) { RunTwice(f, values); }
    n := IterationSettles(run, weight, file);
  }

  lemma SettledStays(file: Option<string>, values: Values, n: nat)
    requires Settled(file, values)
    ensures After(file, values, n) == file
  {
    RestIsForever(f => RunOnce(f, values), file, n);
  }

  /** After the first run, a run that is not already done makes the file strictly shorter. */
  lemma RunsShrinkTheFile(file: Option<string>, values: Values)
    requires WellFormed(values)
    ensures var once := RunOnce(file, values);
            && (Settled(once, values) <==> Merged(once, values) == Merged(file, values))
            && (Settled(once, values) || |RunOnce(once, values).value| < |once.value|)
  {
    NextRun(file, values);
    if Merged(RunOnce(file, values), values) != Merged(file, values) {
      LighterIsShorter(Merged(RunOnce(file, values), values), Merged(file, values), values);
    }
  }

  /**
   * The second run on a file finds it already done exactly when every entry the suite does not own is in normal form,
   * and then those entries are what they were.
   */
  lemma SecondRunIsDoneIffNormal(file: Option<string>, values: Values)
    requires WellFormed(values)
    ensures var once := RunOnce(file, values);
            && (Settled(once, values) <==> AllNormal(ParseEnv(file), values.Keys))
            && (Settled(once, values) ==> ParseEnv(once) - values.Keys == ParseEnv(file) - values.Keys)
  {
    NextRun(file, values);
    RunsShrinkTheFile(file, values);
    MergeKeepsUnowned(ParseEnv(file), values);
  }

  /** Merging touches only the suite's own keys. */
  lemma MergeKeepsUnowned(existing: Values, values: Values)
    ensures (existing + values) - values.Keys == existing - values.Keys
    ensures AllNormal(existing + values, values.Keys) <==> AllNormal(existing, values.Keys)
  {
    assert (existing + values) - values.Keys == existing - values.Keys;
    SameKeysSameNormal(existing + values, existing, values.Keys);
  }

  lemma SameKeysSameNormal(a: Values, b: Values, owned: set<string>)
    requires a - owned == b - owned
    ensures AllNormal(a, owned) <==> AllNormal(b, owned)
  {
    forall k | k !in owned ensures (k in a <==> k in b) && (k in a ==> a[k] == b[k]) {
      assert k in a - owned <==> k in b - owned;
      if k in a { assert (a - owned)[k] == (b - owned)[k]; }
    }
  }

  // ---- The length of the file

  lemma {:induction false} JoinedLength(lines: seq<string>, more: seq<string>)
    ensures |JoinLines(lines + more)| == |JoinLines(lines)| + |JoinLines(more)|
  {
    if lines == [] {
      assert lines + more == more;
    } else {
      assert (lines + more)[1..] == lines[1..] + more;
      JoinedLength(lines[1..], more);
    }
  }

  lemma {:induction false} EntryLinesLength(keys: seq<string>, values: Values)
    requires forall k :: k in keys ==> k in values
    requires forall i, j :: 0 <= i < j < |keys| ==> keys[i] != keys[j]
    ensures |JoinLines(LinesOf(keys, values))| == Weight(Restrict(values, keys))
    decreases |keys|
  {
    if keys == [] {
      assert Restrict(values, keys) == map[];
    } else {
      var before, k := keys[..|keys| - 1], keys[|keys| - 1];
      assert keys == before + [k] && k !in before;
      EntryLinesLength(before, values);
      LinesOfAppend(before, k, values);
      RestrictAppend(before, k, values);
      JoinedLength(LinesOf(before, values), [EntryLine(k, values[k])]);
      assert JoinLines([EntryLine(k, values[k])]) == EntryLine(k, values[k]) + ['\n'];
      WeightPut(Restrict(values, before), k, values[k]);
    }
  }

  lemma RestrictAll(values: Values)
    ensures Restrict(values, Sorting.Sorted(values.Keys)) == values
  {}

  lemma LengthUnder(header: seq<string>, keys: seq<string>, values: Values)
    requires keys == Sorting.Sorted(values.Keys)
    ensures |JoinLines(header + LinesOf(keys, values))| == |JoinLines(header)| + Weight(values)
  {
    EntryLinesLength(keys, values);
    RestrictAll(values);
    JoinedLength(header, LinesOf(keys, values));
  }

  /** A written file is as long as its entries weigh, and the header. */
  lemma WrittenLength(values: Values)
    ensures |RenderOverlay(values)| == |JoinLines(HEADER_LINES)| + Weight(values)
  {
    LengthUnder(HEADER_LINES, Sorting.Sorted(values.Keys), values);
  }

  lemma {:induction false} WeightSplit(all: Values, values: Values)
    requires forall k :: k in values ==> k in all && all[k] == values[k]
    ensures Weight(all) == Weight(all - values.Keys) + Weight(values)
    decreases values.Keys
  {
    if values.Keys == {} {
      assert all - values.Keys == all;
    } else {
      var k :| k in values;
      WeightWithout(all, k);
      WeightWithout(values, k);
      WeightSplit(all - {k}, values - {k});
      assert (values - {k}).Keys == values.Keys - {k};
      assert (all - {k}) - (values - {k}).Keys == all - values.Keys;
    }
  }

  lemma LighterIsShorter(next: Values, before: Values, values: Values)
    requires forall k :: k in values ==> k in next && next[k] == values[k] && k in before && before[k] == values[k]
    requires Weight(next - values.Keys) < Weight(before - values.Keys)
    ensures |RenderOverlay(next)| < |RenderOverlay(before)|
  {
    WeightSplit(next, values);
    WeightSplit(before, values);
    WrittenLength(next);
    WrittenLength(before);
  }

  // ---- The suite's own keys

  lemma PrincipalKeyIsPlain()
    ensures PlainKey("REGISTA_PRINCIPAL_ID")
  {}

  lemma ProjectKeyIsPlain()
    ensures PlainKey("AGENT_NOTES_PROJECT")
  {}

  lemma ProjectsKeyIsPlain()
    ensures PlainKey("DOSSIER_PROJECTS")
  {}

  lemma {:induction false} JoinedUnbroken(words: seq<string>)
    requires forall w :: w in words ==> NoLineBreak(w)
    ensures NoLineBreak(JoinCommas(words))
  {
    if |words| == 1 {
      assert words[0] in words;
    } else if words != [] {
      assert words[0] in words && forall w :: w in words[1..] ==> w in words;
      JoinedUnbroken(words[1..]);
    }
  }

  /** What the suite writes is well formed unless a name it was given contains a line break. */
  lemma OverlayValuesWellFormed(principal: string, project: Option<string>, projects: seq<string>)
    requires NoLineBreak(principal) && (project.Some? ==> NoLineBreak(project.value))
    requires forall p :: p in projects ==> NoLineBreak(p)
    ensures WellFormed(OverlayValues(principal, project, projects))
  {
    PrincipalKeyIsPlain();
    ProjectKeyIsPlain();
    ProjectsKeyIsPlain();
    JoinedUnbroken(projects);
  }

  lemma OneLineFileReads(line: string)
    requires NoLineBreak(line) && line != ""
    ensures ParseEnv(Some(line)) == Put(map[], ParseLine(line))
  {
    WordLengthIs(line, [], IsLineBreak);
    assert line + [] == line;
    assert SplitLines(line) == [line];
    var e := ParseLine(line);
    assert ParseLines([line], map[]) == ParseLines([line][1..], Put(map[], e));
    assert [line][1..] == [];
  }

  lemma QuotesComeOff(quote: char, inner: string)
    requires quote == '"' || quote == '\''
    ensures var value := [quote] + inner + [quote];
            Unquoted(Strip(RStrip(value))) == inner
  {
    var value := [quote] + inner + [quote];
    assert RStrip(value) == value;
    assert LStrip(value) == value;
    assert value[1..|value| - 1] == inner;
  }

  lemma QuotedEntryReads(key: string, quote: char, inner: string)
    requires PlainKey(key) && (quote == '"' || quote == '\'')
    ensures ParseLine(EntryLine(key, [quote] + inner + [quote])) == Some(Entry(key, inner))
  {
    var value := [quote] + inner + [quote];
    QuotesComeOff(quote, inner);
    PlainKeyStays(key, value);
    WrittenEntryReads(key, value);
  }

  /** Quotes inside quotes come off one layer a run, so the second run on such a file still has something to do. */
  lemma QuotesInQuotesTakeAnotherRun(values: Values, key: string, inner: string)
    requires WellFormed(values) && PlainKey(key) && key !in values && NoLineBreak(inner)
    ensures var quoted := ['\''] + inner + ['\''];
            var file := Some(EntryLine(key, ['"'] + quoted + ['"']));
            ParseEnv(file) == map[key := quoted] && !Settled(RunOnce(file, values), values)
  {
    var quoted := ['\''] + inner + ['\''];
    var line := EntryLine(key, ['"'] + quoted + ['"']);
    QuotedEntryReads(key, '"', quoted);
    QuotedEntryReads(key, '\'', inner);
    QuotedLineUnbroken(key, '\'', inner);
    QuotedLineUnbroken(key, '"', quoted);
    OneLineFileReads(line);
    assert ParseEnv(Some(line)) == map[key := quoted];
    assert |inner| != |quoted|;
    assert !Normal(key, quoted);
    SecondRunIsDoneIffNormal(Some(line), values);
  }

  lemma QuotedLineUnbroken(key: string, quote: char, inner: string)
    requires NoLineBreak(key) && NoLineBreak(inner) && (quote == '"' || quote == '\'')
    ensures NoLineBreak([quote] + inner + [quote]) && NoLineBreak(EntryLine(key, [quote] + inner + [quote]))
  {}
}
