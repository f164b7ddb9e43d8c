/** What the lines of an overlay say, and what the suite's own entries hold. */
module OverlayReading {
  import opened PyText
  import opened Lines
  import opened Overlay
  import Sorting

  // ---- One line

  /** A value as it is written: bare, or between two quotes of one kind. */
  datatype Spelling = Plain | Single | Double

  function Spell(value: string, spelling: Spelling): string {
    match spelling
    case Plain => value
    case Single => "'" + (value + "'")
    case Double => "\"" + (value + "\"")
  }

  /** What must be quoted: white space at an end, and a pair of quotes. */
  ghost predicate Spellable(value: string, spelling: Spelling) {
    spelling == Plain ==>
      && (value != "" ==> !IsSpace(value[0]) && !IsSpace(value[|value| - 1]))
      && forall inner :: value != "'" + (inner + "'") && value != "\"" + (inner + "\"")
  }

  /** An optional export in front of a key, with the white space behind it. */
  function Exported(more: Option<string>): string { if more.Some? then "export " + more.value else "" }

  ghost predicate IsKey(key: string, more: Option<string>) {
    && key != "" && !IsSpace(key[0]) && !IsSpace(key[|key| - 1]) && '=' !in key
    && match more
       case Some(space) => AllSpace(space)
       case None => key[0] != '#' && forall rest :: key != "export " + rest
  }

  /** The parts of a line, and the white space between them. */
  datatype Layout = Layout(lead: string, more: Option<string>, key: string, before: string, behind: string,
                           value: string, spelling: Spelling, trail: string)
  {
    ghost predicate Valid() {
      && AllSpace(lead) && AllSpace(before) && AllSpace(behind) && AllSpace(trail)
      && IsKey(key, more) && Spellable(value, spelling)
      && (Spell(value, spelling) == "" ==> behind == "")
    }

    function Line(): string { lead + (Core() + trail) }

    function Core(): string { Front() + (['='] + Back()) }

    function Front(): string { (Exported(more) + key) + before }

    function Back(): string { behind + Spell(value, spelling) }
  }

  lemma SpaceHasNoEquals(s: string)
    requires AllSpace(s)
    ensures '=' !in s
  {}

  lemma ExportedHasNoEquals(more: Option<string>)
    requires more.Some? ==> AllSpace(more.value)
    ensures '=' !in Exported(more)
  {
    if more.Some? {
      SpaceHasNoEquals(more.value);
      assert '=' !in "export ";
    }
  }

  lemma FrontHasNoEquals(l: Layout)
    requires l.Valid()
    ensures '=' !in l.Front()
  {
    ExportedHasNoEquals(l.more);
    SpaceHasNoEquals(l.before);
  }

  lemma QuotedMeaning(value: string)
    ensures Quoted(value) <==> exists inner :: value == "'" + (inner + "'") || value == "\"" + (inner + "\"")
  {
    if Quoted(value) {
      var inner := value[1..|value| - 1];
      assert value == [value[0]] + (inner + [value[0]]);
      assert value == "'" + (inner + "'") || value == "\"" + (inner + "\"");
    }
  }

  lemma SpellStays(value: string, spelling: Spelling)
    requires Spellable(value, spelling)
    ensures Stripped(Spell(value, spelling)) && Unquoted(Spell(value, spelling)) == value
  {
    var text := Spell(value, spelling);
    if spelling == Plain {
      QuotedMeaning(value);
    } else {
      assert text[1..|text| - 1] == value;
    }
  }

  lemma PrefixMeaning(s: string, prefix: string)
    ensures StartsWith(s, prefix) <==> exists rest :: s == prefix + rest
  {
    if StartsWith(s, prefix) {
      assert s == prefix + s[|prefix|..];
    }
  }

  lemma ExportComesOff(key: string, space: string)
    requires key != "" && Stripped(key) && AllSpace(space)
    ensures var text := ("export " + space) + key;
            Unexported(text) == key && Stripped(text) && text[0] != '#'
  {
    var text := ("export " + space) + key;
    assert text[..7] == "export " && text[7..] == space + (key + "");
    StripTakesSpace(space, key, "");
    assert text[0] == "export "[0] == 'e';
  }

  lemma KeyStays(key: string, more: Option<string>)
    requires IsKey(key, more)
    ensures Unexported(Exported(more) + key) == key && Stripped(Exported(more) + key)
    ensures (Exported(more) + key)[0] != '#'
  {
    match more {
      case Some(space) =>
        ExportComesOff(key, space);
      case None =>
        PrefixMeaning(key, "export ");
        assert "" + key == key;
    }
  }

  lemma FrontReads(l: Layout)
    requires l.Valid()
    ensures Unexported(Strip(l.Front())) == l.key
    ensures l.Front() != "" && !IsSpace(l.Front()[0]) && l.Front()[0] != '#'
  {
    var name := Exported(l.more) + l.key;
    KeyStays(l.key, l.more);
    assert "" + (name + l.before) == l.Front();
    StripTakesSpace("", name, l.before);
    assert l.Front()[0] == name[0];
  }

  lemma BackReads(l: Layout)
    requires l.Valid()
    ensures Unquoted(Strip(l.Back())) == l.value
    ensures l.Back() != "" ==> !IsSpace(l.Back()[|l.Back()| - 1])
  {
    var text := Spell(l.value, l.spelling);
    SpellStays(l.value, l.spelling);
    assert l.behind + (text + "") == l.Back();
    StripTakesSpace(l.behind, text, "");
  }

  lemma LineCore(l: Layout)
    requires l.Valid()
    ensures Strip(l.Line()) == l.Core() && l.Core() != "" && l.Core()[0] != '#'
  {
    FrontReads(l);
    BackReads(l);
    var core := l.Core();
    assert core[0] == l.Front()[0];
    assert core[|core| - 1] == if l.Back() == "" then '=' else l.Back()[|l.Back()| - 1];
    StripTakesSpace(l.lead, core, l.trail);
  }

  lemma ParsesAs(line: string, core: string, front: string, back: string)
    requires Strip(line) == core == front + (['='] + back)
    requires '=' !in front && core[0] != '#'
    ensures ParseLine(line) == Some(Entry(Unexported(Strip(front)), Unquoted(Strip(back))))
  {
    CutAtEquals(core, front, back);
  }

  /** White space, an export, and one layer of quotes do not count: the line sets this key to this value. */
  lemma LineReads(l: Layout)
    requires l.Valid()
    ensures ParseLine(l.Line()) == Some(Entry(l.key, l.value))
  {
    LineCore(l);
    FrontReads(l);
    BackReads(l);
    FrontHasNoEquals(l);
    ParsesAs(l.Line(), l.Core(), l.Front(), l.Back());
  }

  /** A line says nothing exactly when it is blank, a comment, or without an equals sign. */
  lemma LineIsSkipped(line: string)
    ensures ParseLine(line).None? <==>
            || AllSpace(line) || '=' !in line
            || exists lead, rest :: AllSpace(lead) && line == lead + ("#" + rest)
  {
    var lead, trail := StripLeaves(line);
    var core := Strip(line);
    EqualsStays(line, lead, core, trail);
    CommentStays(line, lead, core, trail);
    EqualsIsFound(core);
    if core == "" {
      assert line == lead + trail;
    } else {
      assert line[|lead|] == core[0];
    }
  }

  lemma EqualsStays(line: string, lead: string, core: string, trail: string)
    requires AllSpace(lead) && AllSpace(trail) && line == lead + (core + trail)
    ensures '=' in line <==> '=' in core
  {
    SpaceHasNoEquals(lead);
    SpaceHasNoEquals(trail);
  }

  lemma CommentStays(line: string, lead: string, core: string, trail: string)
    requires AllSpace(lead) && AllSpace(trail) && line == lead + (core + trail) && (core != "" ==> !IsSpace(core[0]))
    ensures core != "" && core[0] == '#' <==> exists space, rest :: AllSpace(space) && line == space + ("#" + rest)
  {
    if core != "" && core[0] == '#' {
      assert line == lead + ("#" + (core[1..] + trail));
    }
    if space, rest :| AllSpace(space) && line == space + ("#" + rest) {
      LStripSkips(space, "#" + rest);
      assert LStrip(line) == "#" + rest;
      LStripSkips(lead, core + trail);
      LStripOf(core, trail);
    }
  }

  lemma LStripOf(core: string, trail: string)
    requires AllSpace(trail) && (core != "" ==> !IsSpace(core[0]))
    ensures LStrip(core + trail) == if core == "" then "" else core + trail
  {
    if core == "" {
      LStripSkips(trail, "");
      assert core + trail == trail + "";
    }
  }

  lemma EqualsIsFound(s: string)
    ensures WordLength(s, IsEquals) == |s| <==> '=' !in s
  {}

  // ---- A whole file

  /** The line `i` sets the key, and no later one does. */
  ghost predicate SetsLast(lines: seq<string>, key: string, value: string, i: int) {
    && 0 <= i < |lines| && ParseLine(lines[i]) == Some(Entry(key, value))
    && forall j :: i < j < |lines| ==> !Sets(lines[j], key)
  }

  ghost predicate Sets(line: string, key: string) { exists value :: ParseLine(line) == Some(Entry(key, value)) }

  ghost predicate Holds(lines: seq<string>, key: string, value: string) { exists i :: SetsLast(lines, key, value, i) }

  lemma HoldsStep(lines: seq<string>, key: string, value: string)
    requires lines != []
    ensures Holds(lines, key, value) <==>
            || Holds(lines[1..], key, value)
            || (ParseLine(lines[0]) == Some(Entry(key, value))
                && forall j :: 1 <= j < |lines| ==> !Sets(lines[j], key))
  {
    var rest := lines[1..];
    assert forall j :: 0 <= j < |rest| ==> rest[j] == lines[j + 1];
    assert forall j :: 1 <= j < |lines| ==> lines[j] == rest[j - 1];
    if i :| SetsLast(lines, key, value, i) {
      if i > 0 { assert SetsLast(rest, key, value, i - 1); }
    }
    if i :| SetsLast(rest, key, value, i) {
      assert SetsLast(lines, key, value, i + 1);
    }
    if ParseLine(lines[0]) == Some(Entry(key, value)) && forall j :: 1 <= j < |lines| ==> !Sets(lines[j], key) {
      assert SetsLast(lines, key, value, 0);
    }
  }

  ghost predicate NoneSets(lines: seq<string>, key: string) { forall j :: 0 <= j < |lines| ==> !Sets(lines[j], key) }

  lemma {:induction false} ParseLinesMeaning(lines: seq<string>, known: Values, key: string, value: string)
    ensures var read := ParseLines(lines, known);
            key in read && read[key] == value <==>
            Holds(lines, key, value) || (NoneSets(lines, key) && key in known && known[key] == value)
    decreases |lines|
  {
    if lines != [] {
      ParseLinesMeaning(lines[1..], Put(known, ParseLine(lines[0])), key, value);
      HoldsStep(lines, key, value);
      NoneSetsStep(lines, key);
    }
  }

  lemma NoneSetsStep(lines: seq<string>, key: string)
    requires lines != []
    ensures NoneSets(lines, key) <==> !Sets(lines[0], key) && NoneSets(lines[1..], key)
    ensures NoneSets(lines[1..], key) <==> forall j :: 1 <= j < |lines| ==> !Sets(lines[j], key)
  {
    assert forall j :: 0 <= j < |lines[1..]| ==> lines[1..][j] == lines[j + 1];
    assert forall j :: 1 <= j < |lines| ==> lines[j] == lines[1..][j - 1];
  }

  /** A file gives a key the value of the last line that sets it. */
  lemma LastLineWins(text: string, key: string, value: string)
    ensures var read := ParseEnv(Some(text));
            key in read && read[key] == value <==> Holds(SplitLines(text), key, value)
  {
    ParseLinesMeaning(SplitLines(text), map[], key, value);
  }

  lemma WithoutNothing(values: Values)
    ensures values - {} == values
  {}

  lemma AllReadBack(all: Values)
    requires Writable(all)
    ensures ParseEnv(Some(RenderOverlay(all))) == all <==> forall k :: k in all ==> Normal(k, all[k])
  {
    var back := ParseEnv(Some(RenderOverlay(all)));
    WholeReadBack(all, {});
    WithoutNothing(back);
    WithoutNothing(all);
  }

  /** What a run writes reads as the merge exactly when every entry of the merge, the suite's own included, is
      normal. */
  lemma MergeIsReadBack(file: Option<string>, values: Values)
    requires WellFormed(values)
    ensures var all := Merged(file, values);
            ParseEnv(RunOnce(file, values)) == all <==> forall k :: k in all ==> Normal(k, all[k])
  {
    MergedIsWritable(file, values);
    AllReadBack(Merged(file, values));
  }

  // ---- The suite's own entries

  /** One word after the other, with a comma between two. */
  lemma {:induction false} JoinCommasOf(a: seq<string>, b: seq<string>)
    ensures JoinCommas([]) == "" && forall w: string :: JoinCommas([w]) == w
    ensures a != [] && b != [] ==> JoinCommas(a + b) == JoinCommas(a) + ("," + JoinCommas(b))
  {
    if a != [] && b != [] {
      if |a| == 1 {
        assert (a + b)[1..] == b;
        assert a[0] + "," + JoinCommas(b) == a[0] + ("," + JoinCommas(b));
      } else {
        assert (a + b)[1..] == a[1..] + b;
        JoinCommasOf(a[1..], b);
        var rest, more := JoinCommas(a[1..]), JoinCommas(b);
        assert a[0] + "," + (rest + ("," + more)) == (a[0] + "," + rest) + ("," + more);
      }
    }
  }

  /** Three keys at most: the principal always, a project that is not empty, and the projects where there are any. */
  lemma OverlayValuesMeaning(principal: string, project: Option<string>, projects: seq<string>, key: string,
                             value: string)
    ensures var values := OverlayValues(principal, project, projects);
            key in values && values[key] == value <==>
            || (key == "REGISTA_PRINCIPAL_ID" && value == principal)
            || (key == "AGENT_NOTES_PROJECT" && project == Some(value) && value != "")
            || (key == "DOSSIER_PROJECTS" && projects != [] && value == JoinCommas(projects))
  {
    assert "REGISTA_PRINCIPAL_ID"[0] == 'R' && "AGENT_NOTES_PROJECT"[0] == 'A' && "DOSSIER_PROJECTS"[0] == 'D';
  }
}
