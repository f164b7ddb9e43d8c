/** The identifier gate's scan of a text for forbidden words and phrases. */
module Scanner {
  import opened PyText
  import opened Lines
  import opened Phrases

  const MIN_IDENTIFIER_LENGTH := 4

  datatype Violation = Violation(identifier: string, lineNumber: nat, line: string)

  // ---- Identifiers

  function Join(words: seq<string>, glue: string): string {
    if words == [] then "" else if |words| == 1 then words[0] else words[0] + glue + Join(words[1..], glue)
  }

  function Normalise(identifier: string): string { Join(Split(Lower(Strip(identifier))), " ") }

  /** Short identifiers are dropped, so what is left is never empty. */
  function FilterIdentifiers(identifiers: set<string>): (r: set<string>)
    ensures forall i :: i in r ==> |i| >= MIN_IDENTIFIER_LENGTH
  {
    set i | i in identifiers && |Normalise(i)| >= MIN_IDENTIFIER_LENGTH :: Normalise(i)
  }

  predicate AreWords(words: seq<string>) { forall w :: w in words ==> w != "" && NoSpace(w) }

  lemma SplitSpace(word: string, rest: string)
    requires word != "" && NoSpace(word)
    ensures Split(word + " " + rest) == [word] + Split(rest)
  {
    assert word + " " + rest == word + ([' '] + rest);
    WordThenSeparator(word, ' ', rest, IsSpace);
  }

  lemma {:induction false} SplitJoin(words: seq<string>)
    requires AreWords(words)
    ensures Split(Join(words, " ")) == words
  {
    if |words| == 1 {
      assert words[0] in words;
      OneWord(words[0], IsSpace);
    } else if words != [] {
      assert words == [words[0]] + words[1..];
      SplitJoin(words[1..]);
      SplitJoinFirst(words[0], words[1..], Join(words[1..], " "));
    }
  }

  lemma SplitJoinFirst(word: string, words: seq<string>, joined: string)
    requires AreWords([word] + words) && words != []
    requires joined == Join(words, " ") && Split(joined) == words
    ensures Split(Join([word] + words, " ")) == [word] + words
  {
    assert word in [word] + words;
    assert ([word] + words)[1..] == words;
    SplitSpace(word, joined);
  }

  /** What survives the filter still splits into its words, and has at least one. */
  lemma FilteredHasWords(identifiers: set<string>, identifier: string)
    requires identifier in FilterIdentifiers(identifiers)
    ensures Split(identifier) != [] && AreWords(Split(identifier))
  {
    var i :| i in identifiers && Normalise(i) == identifier;
    SplitJoin(Split(Lower(Strip(i))));
  }

  // ---- Words

  ghost predicate OccursAt(line: string, word: string, p: int) {
    0 <= p <= p + |word| <= |line| && line[p..p + |word|] == word
  }

  /** `line.find(word, start)`: None stands for -1. */
  function FindWord(line: string, word: string, start: nat): (r: Option<nat>)
    ensures r.Some? ==> start <= r.value && OccursAt(line, word, r.value)
    decreases |line| - start
  {
    if start + |word| > |line| then None
    else if line[start..start + |word|] == word then Some(start)
    else FindWord(line, word, start + 1)
  }

  /** `find` misses nothing. */
  lemma {:induction false} FindWordFirst(line: string, word: string, start: nat, p: nat)
    requires start <= p && OccursAt(line, word, p)
    ensures FindWord(line, word, start).Some? && FindWord(line, word, start).value <= p
    decreases |line| - start
  {
    if line[start..start + |word|] != word {
      FindWordFirst(line, word, start + 1, p);
    }
  }

  /** The offsets the scan stops at: the first occurrence, and then the first behind the last one reported. */
  function Offsets(line: string, word: string, start: nat): seq<nat>
    requires word != ""
    decreases |line| - start
  {
    match FindWord(line, word, start)
    case None => []
    case Some(p) => [p] + Offsets(line, word, p + |word|)
  }

  /** Occurrences in order, none overlapping the next. */
  ghost predicate Disjoint(line: string, word: string, start: int, ps: seq<nat>) {
    && (forall i :: 0 <= i < |ps| ==> start <= ps[i] && OccursAt(line, word, ps[i]))
    && (forall i, j :: 0 <= i < j < |ps| ==> ps[i] + |word| <= ps[j])
  }

  /** The reported offsets are disjoint occurrences. */
  lemma {:induction false} OffsetsDisjoint(line: string, word: string, start: nat)
    requires word != ""
    ensures Disjoint(line, word, start, Offsets(line, word, start))
    decreases |line| - start
  {
    var first := FindWord(line, word, start);
    if first.Some? {
      OffsetsDisjoint(line, word, first.value + |word|);
    }
  }

  /** An occurrence at `p` shares characters with a reported one. */
  ghost predicate Covered(ps: seq<nat>, p: nat, length: nat) {
    exists q :: q in ps && q <= p < q + length
  }

  lemma {:induction false} OffsetsCover(line: string, word: string, start: nat, p: nat)
    requires word != "" && start <= p && OccursAt(line, word, p)
    ensures Covered(Offsets(line, word, start), p, |word|)
    decreases |line| - start
  {
    FindWordFirst(line, word, start, p);
    var q := FindWord(line, word, start).value;
    var rest := Offsets(line, word, q + |word|);
    assert Offsets(line, word, start) == [q] + rest;
    if p < q + |word| {
      assert q in [q] + rest;
    } else {
      OffsetsCover(line, word, q + |word|, p);
      var q' :| q' in rest && q' <= p < q' + |word|;
      assert q' in [q] + rest;
    }
  }

  lemma DisjointTail(line: string, word: string, start: int, ps: seq<nat>, from: int)
    requires Disjoint(line, word, start, ps) && ps != [] && from <= ps[0] + |word|
    ensures Disjoint(line, word, from, ps[1..])
  {}

  /** No choice of disjoint occurrences is larger than what is reported. */
  lemma {:induction false} OffsetsAreMost(line: string, word: string, start: nat, ps: seq<nat>)
    requires word != "" && Disjoint(line, word, start, ps)
    ensures |ps| <= |Offsets(line, word, start)|
    decreases |ps|
  {
    if ps != [] {
      FindWordFirst(line, word, start, ps[0]);
      var q := FindWord(line, word, start).value;
      DisjointTail(line, word, start, ps, q + |word|);
      OffsetsAreMost(line, word, q + |word|, ps[1..]);
    }
  }

  ghost predicate Contains(line: string, word: string) { exists p :: OccursAt(line, word, p) }

  /** A line is reported for a word exactly when it contains it. */
  lemma ReportedIffContained(line: string, word: string)
    requires word != ""
    ensures Offsets(line, word, 0) != [] <==> Contains(line, word)
  {
    OffsetsDisjoint(line, word, 0);
    if p :| OccursAt(line, word, p) {
      OffsetsCover(line, word, 0, p);
    }
    if Offsets(line, word, 0) != [] {
      assert OccursAt(line, word, Offsets(line, word, 0)[0]);
    }
  }

  lemma OneMoreOffset(line: string, word: string, start: nat)
    requires word != ""
    ensures match FindWord(line, word, start)
            case None => Offsets(line, word, start) == []
            case Some(p) => p < |line| && |Offsets(line, word, start)| == 1 + |Offsets(line, word, p + |word|)|
  {}

  method ScanLine(lower: string, word: string, v: Violation) returns (found: seq<Violation>)
    requires word != ""
    ensures found == seq(|Offsets(lower, word, 0)|, _ => v)
  {
    found := [];
    var start := 0;
    ghost var n := 0;
    while true
      invariant start >= 0 && n + |Offsets(lower, word, start)| == |Offsets(lower, word, 0)|
      invariant found == seq(n, _ => v)
      decreases |lower| - start
    {
      var offset := FindWord(lower, word, start);
      if offset.None? {
        break;
      }
      OneMoreOffset(lower, word, start);
      found := found + [v];
      n := n + 1;
      start := offset.value + |word|;
    }
  }

  // ---- Phrases

  function SingleWords(identifiers: set<string>): set<string> { set i | i in identifiers && ' ' !in i }

  /** The report of one match: its line is found by counting newlines. */
  function ReportOf(text: string, identifier: string, m: Match): Violation
    requires m.start <= |text|
  {
    var lines, n := SplitLines(text), Newlines(text[..m.start]) + 1;
    Violation(identifier, n, if n <= |lines| then lines[n - 1] else "")
  }

  lemma MatchStartsOnLine(text: string, start: nat, words: seq<string>)
    requires words != [] && words[0] != "" && NoSpace(words[0])
    requires start <= |text| && MatchAt(text, start, words).Some?
    ensures start < |text| && !IsLineBreak(text[start])
  {
    var there := text[start..start + |words[0]|];
    assert Lower(there)[0] == words[0][0] && there[0] == text[start];
  }

  /** The line reported is the one the match starts on, exactly when only newlines break lines before it. */
  lemma ReportedLine(text: string, identifier: string, words: seq<string>, m: Match)
    requires words != [] && words[0] != "" && NoSpace(words[0])
    requires m in FindIter(text, 0, words)
    ensures m.start < |text| && !IsLineBreak(text[m.start])
    ensures ReportOf(text, identifier, m).lineNumber <= |SplitLines(text)|
    ensures ReportOf(text, identifier, m).lineNumber == Newlines(text[..m.start]) + 1 <= Locate(text, m.start).row + 1
    ensures ReportOf(text, identifier, m).lineNumber == Locate(text, m.start).row + 1 <==> OnlyNewlines(text, m.start)
  {
    MatchStartsOnLine(text, m.start, words);
    NewlinesGiveRow(text, m.start);
    var before, after := LocateIsRight(text, m.start);
  }

  const RETURN_BEFORE_PHRASE := "x\raa bb"

  lemma PhraseBehindReturn(m: Match)
    requires m in FindIter(RETURN_BEFORE_PHRASE, 0, ["aa", "bb"])
    ensures m.start == 2
  {
    var text := RETURN_BEFORE_PHRASE;
    var there := text[m.start..m.start + 2];
    assert Lower(there) == "aa" && Lower(there)[0] == 'a' && Lower(there)[1] == 'a';
    assert there[0] == text[m.start] && there[1] == text[m.start + 1];
  }

  lemma NoNewlineBeforePhrase()
    ensures Newlines(RETURN_BEFORE_PHRASE[..2]) == 0
  {
    var s := RETURN_BEFORE_PHRASE[..2];
    assert s[0] == 'x' && s[1] == '\r';
    NoNewlines("x");
    assert s == "x" + "\r";
    NewlinesAppend("x", "\r");
    assert "\r"[1..] == "" && Newlines("\r") == 0;
  }

  lemma PhraseIsFound()
    ensures FindIter(RETURN_BEFORE_PHRASE, 0, ["aa", "bb"]) != []
  {
    var words, runs := ["aa", "bb"], [" "];
    assert words[1..] == ["bb"];
    assert runs[1..] == [] && Spell(["bb"], []) == "bb";
    assert Spell(words, runs) == "aa" + " " + "bb" == "aa bb";
    assert Lower("aa bb") == "aa bb";
    assert ("x\r" + "aa bb") + "" == RETURN_BEFORE_PHRASE;
    SeparatorsDoNotHide("x\r", "aa bb", "", words, runs);
  }

  /** Behind a bare line break, and no newline, a match is reported on the first line and is on a later one. */
  lemma MisplacedBehindBareBreak(text: string, identifier: string, words: seq<string>, m: Match, at: nat)
    requires words != [] && words[0] != "" && NoSpace(words[0]) && m in FindIter(text, 0, words)
    requires at < m.start <= |text| && BareBreak(text, at) && Newlines(text[..m.start]) == 0
    ensures m.start < |text| && !IsLineBreak(text[m.start])
    ensures ReportOf(text, identifier, m).lineNumber == 1 < Locate(text, m.start).row + 1
  {
    ReportedLine(text, identifier, words, m);
  }

  /** Such a text. */
  lemma BareReturnMisplaces() returns (m: Match)
    ensures m in FindIter(RETURN_BEFORE_PHRASE, 0, ["aa", "bb"]) && m.start == 2
    ensures ReportOf(RETURN_BEFORE_PHRASE, "aa bb", m).lineNumber == 1 < Locate(RETURN_BEFORE_PHRASE, m.start).row + 1
  {
    PhraseIsFound();
    m := FindIter(RETURN_BEFORE_PHRASE, 0, ["aa", "bb"])[0];
    PhraseBehindReturn(m);
    NoNewlineBeforePhrase();
    ReturnIsBare();
    MisplacedBehindBareBreak(RETURN_BEFORE_PHRASE, "aa bb", ["aa", "bb"], m, 1);
  }

  lemma ReturnIsBare()
    ensures BareBreak(RETURN_BEFORE_PHRASE, 1)
  {}

  // ---- The whole scan

  /** How often the scan of some lines for some words reports `v`. */
  function WordReports(lines: seq<string>, words: set<string>, v: Violation): nat {
    if v.identifier in words && v.identifier != "" && 1 <= v.lineNumber <= |lines| && v.line == lines[v.lineNumber - 1]
    then |Offsets(Lower(v.line), v.identifier, 0)| else 0
  }

  function ReportsOf(text: string, identifier: string, ms: seq<Match>): (r: seq<Violation>)
    requires forall i :: 0 <= i < |ms| ==> ms[i].start <= |text|
    ensures |r| == |ms| && forall i :: 0 <= i < |ms| ==> r[i] == ReportOf(text, identifier, ms[i])
  {
    seq(|ms|, i requires 0 <= i < |ms| => ReportOf(text, identifier, ms[i]))
  }

  /** How often the scan of a text for some phrases reports `v`. */
  function PhraseReports(text: string, phrases: set<string>, v: Violation): nat {
    var words := Split(v.identifier);
    if v.identifier in phrases && words != []
    then multiset(ReportsOf(text, v.identifier, FindIter(text, 0, words)))[v] else 0
  }

  lemma ReportedOften(text: string, phrase: string, v: Violation)
    requires Split(phrase) != [] && Split(phrase)[0] != "" && v.identifier == phrase
    ensures PhraseReports(text, {phrase}, v) > 0 <==> v in ReportsOf(text, phrase, FindIter(text, 0, Split(phrase)))
  {}

  /** A filtered phrase is reported at all exactly when the text spells it. */
  lemma PhraseReportedIffSpelled(text: string, identifiers: set<string>, phrase: string)
    requires phrase in FilterIdentifiers(identifiers)
    ensures Split(phrase) != []
    ensures (exists v: Violation :: v.identifier == phrase && PhraseReports(text, {phrase}, v) > 0)
            <==> exists p: nat :: SpelledAt(text, p, Split(phrase))
  {
    FilteredHasWords(identifiers, phrase);
    var words := Split(phrase);
    assert words[0] in words;
    var reports := ReportsOf(text, phrase, FindIter(text, 0, words));
    ReportedIffSpelled(text, words);
    forall v: Violation | v.identifier == phrase ensures PhraseReports(text, {phrase}, v) > 0 <==> v in reports {
      ReportedOften(text, phrase, v);
    }
    if reports != [] {
      assert reports[0] in reports && reports[0].identifier == phrase;
    }
  }

  /** A line is reported for a word exactly when, in lower case, it contains it. */
  lemma WordReportedIffContained(lines: seq<string>, words: set<string>, word: string, n: nat)
    requires word in words && word != "" && 1 <= n <= |lines|
    ensures WordReports(lines, words, Violation(word, n, lines[n - 1])) > 0
            <==> Contains(Lower(lines[n - 1]), word)
  {
    ReportedIffContained(Lower(lines[n - 1]), word);
  }

  lemma Repeated(n: nat, v: Violation, u: Violation)
    ensures multiset(seq(n, _ => v))[u] == if u == v then n else 0
  {
    if n > 0 {
      assert seq(n, _ => v) == seq(n - 1, _ => v) + [v];
      Repeated(n - 1, v, u);
    }
  }

  method ScanLineForWords(line: string, lineNumber: nat, words: set<string>) returns (found: seq<Violation>)
    requires "" !in words && lineNumber > 0
    ensures forall v :: multiset(found)[v] ==
              if v.identifier in words && v.lineNumber == lineNumber && v.line == line
              then |Offsets(Lower(line), v.identifier, 0)| else 0
  {
    found := [];
    var todo := words;
    while todo != {}
      invariant todo <= words
      invariant forall v :: multiset(found)[v] ==
                  if v.identifier in words - todo && v.lineNumber == lineNumber && v.line == line
                  then |Offsets(Lower(line), v.identifier, 0)| else 0
    {
      var word :| word in todo;
      var violation := Violation(word, lineNumber, line);
      var more := ScanLine(Lower(line), word, violation);
      forall v ensures multiset(more)[v] == if v == violation then |Offsets(Lower(line), word, 0)| else 0 {
        Repeated(|more|, violation, v);
      }
      found := found + more;
      todo := todo - {word};
    }
  }

  method ReportMatches(text: string, identifier: string, ms: seq<Match>) returns (found: seq<Violation>)
    requires forall i :: 0 <= i < |ms| ==> ms[i].start <= |text|
    ensures found == ReportsOf(text, identifier, ms)
  {
    found := [];
    for i := 0 to |ms|
      invariant |found| == i && forall k :: 0 <= k < i ==> found[k] == ReportOf(text, identifier, ms[k])
    {
      found := found + [ReportOf(text, identifier, ms[i])];
    }
  }

  method ScanForPhrase(text: string, identifier: string) returns (found: seq<Violation>)
    requires Split(identifier) != []
    ensures found == ReportsOf(text, identifier, FindIter(text, 0, Split(identifier)))
  {
    found := ReportMatches(text, identifier, FindIter(text, 0, Split(identifier)));
  }

  lemma CountedOnce(text: string, identifier: string, found: seq<Violation>)
    requires Split(identifier) != [] && found == ReportsOf(text, identifier, FindIter(text, 0, Split(identifier)))
    ensures forall v :: multiset(found)[v] == PhraseReports(text, {identifier}, v)
  {
    forall v ensures multiset(found)[v] == PhraseReports(text, {identifier}, v) {
      if v in found {
        assert v.identifier == identifier;
      }
    }
  }

  method ScanForWords(lines: seq<string>, words: set<string>) returns (found: seq<Violation>)
    requires "" !in words
    ensures forall v :: multiset(found)[v] == WordReports(lines, words, v)
  {
    found := [];
    for n := 0 to |lines|
      invariant forall v :: multiset(found)[v] == WordReports(lines[..n], words, v)
    {
      var more := ScanLineForWords(lines[n], n + 1, words);
      ghost var before := found;
      found := found + more;
      forall v ensures multiset(found)[v] == WordReports(lines[..n + 1], words, v) {
        assert multiset(found)[v] == multiset(before)[v] + multiset(more)[v];
      }
    }
    assert lines[..|lines|] == lines;
  }

  lemma OnePhraseMore(text: string, phrases: set<string>, phrase: string, v: Violation)
    requires phrase !in phrases
    ensures PhraseReports(text, phrases + {phrase}, v) ==
            PhraseReports(text, phrases, v) + PhraseReports(text, {phrase}, v)
  {}

  method ScanForPhrases(text: string, phrases: set<string>) returns (found: seq<Violation>)
    requires forall p :: p in phrases ==> Split(p) != []
    ensures forall v :: multiset(found)[v] == PhraseReports(text, phrases, v)
  {
    found := [];
    var todo := phrases;
    ghost var done: set<string> := {};
    while todo != {}
      invariant done + todo == phrases && done !! todo
      invariant forall v :: multiset(found)[v] == PhraseReports(text, done, v)
    {
      var identifier :| identifier in todo;
      var more := ScanForPhrase(text, identifier);
      CountedOnce(text, identifier, more);
      ghost var before := found;
      found := found + more;
      forall v ensures multiset(found)[v] == PhraseReports(text, done + {identifier}, v) {
        assert multiset(found)[v] == multiset(before)[v] + multiset(more)[v];
        OnePhraseMore(text, done, identifier, v);
      }
      done := done + {identifier};
      todo := todo - {identifier};
    }
  }

  // ---- What is reported, by the entries of the denylist

  /** The length of some words with single spaces between them. */
  function Spaced(words: seq<string>): nat {
    if words == [] then 0 else if |words| == 1 then |words[0]| else |words[0]| + 1 + Spaced(words[1..])
  }

  /** An entry that is long enough, and its words. */
  ghost predicate Listed(identifiers: set<string>, i: string, words: seq<string>) {
    i in identifiers && words == Split(Lower(i)) && Spaced(words) >= 4
  }

  ghost predicate StandsIn(line: string, word: string) { exists p: nat :: StandsAt(line, p, word) }

  /** Some violation names these words. */
  ghost predicate Reported(violations: seq<Violation>, words: seq<string>) {
    exists v :: v in violations && Split(v.identifier) == words
  }

  /** The word is reported for line `n`, where there is one, exactly when it stands in it, in any case. */
  ghost predicate ReportedRightly(text: string, violations: seq<Violation>, word: string, n: nat) {
    1 <= n <= |SplitLines(text)| ==>
      var line := SplitLines(text)[n - 1];
      Violation(word, n, line) in violations <==> StandsIn(line, word)
  }

  ghost predicate WordsReported(text: string, identifiers: set<string>, violations: seq<Violation>) {
    forall i, word: string, n: nat :: Listed(identifiers, i, [word]) ==> ReportedRightly(text, violations, word, n)
  }

  /** A listed phrase is reported exactly when the text spells it somewhere. */
  ghost predicate PhrasesReported(text: string, identifiers: set<string>, violations: seq<Violation>) {
    forall i, words :: Listed(identifiers, i, words) && |words| > 1 ==>
      (Reported(violations, words) <==> exists p: nat :: SpelledAt(text, p, words))
  }

  /** Nothing is reported but what is listed. */
  ghost predicate OnlyListedReported(identifiers: set<string>, violations: seq<Violation>) {
    forall v :: v in violations ==> exists i :: Listed(identifiers, i, Split(v.identifier))
  }

  lemma {:induction false} WordsBehindSpace(space: string, s: string)
    requires AllSpace(space)
    ensures Split(space + s) == Split(s)
  {
    if space == "" {
      assert space + s == s;
    } else {
      assert (space + s)[1..] == space[1..] + s;
      WordsBehindSpace(space[1..], s);
    }
  }

  lemma {:induction false} WordsBeforeSpace(s: string, space: string)
    requires AllSpace(space)
    ensures Split(s + space) == Split(s)
    decreases |s|
  {
    if s == "" {
      assert s + space == space + "";
      WordsBehindSpace(space, "");
    } else if IsSpace(s[0]) {
      assert (s + space)[1..] == s[1..] + space;
      WordsBeforeSpace(s[1..], space);
    } else {
      var n := WordLength(s, IsSpace);
      var w, rest := s[..n], s[n..];
      assert s == w + rest && s + space == w + (rest + space);
      assert rest == "" && space != "" ==> (rest + space)[0] == space[0];
      FirstWord(w, rest, IsSpace);
      FirstWord(w, rest + space, IsSpace);
      WordsBeforeSpace(rest, space);
    }
  }

  lemma LowerSpace(lead: string, core: string, trail: string)
    requires AllSpace(lead) && AllSpace(trail)
    ensures Lower(lead + (core + trail)) == lead + (Lower(core) + trail)
  {}

  /** Stripping changes no word. */
  lemma StrippedWords(i: string)
    ensures Split(Lower(Strip(i))) == Split(Lower(i))
  {
    var lead, trail := StripLeaves(i);
    LowerSpace(lead, Strip(i), trail);
    WordsBehindSpace(lead, Lower(Strip(i)) + trail);
    WordsBeforeSpace(Lower(Strip(i)), trail);
  }

  lemma {:induction false} JoinedLength(words: seq<string>)
    ensures |Join(words, " ")| == Spaced(words)
  {
    if |words| > 1 { JoinedLength(words[1..]); }
  }

  lemma NormalisedAs(i: string)
    ensures Normalise(i) == Join(Split(Lower(i)), " ") && |Normalise(i)| == Spaced(Split(Lower(i)))
  {
    StrippedWords(i);
    JoinedLength(Split(Lower(i)));
  }

  /** An entry is kept as its words with single spaces between them, when that is long enough. */
  lemma ListedIsKept(identifiers: set<string>, i: string, words: seq<string>)
    requires Listed(identifiers, i, words)
    ensures Join(words, " ") in FilterIdentifiers(identifiers)
  {
    NormalisedAs(i);
  }

  lemma KeptIsListed(identifiers: set<string>, identifier: string) returns (i: string, words: seq<string>)
    requires identifier in FilterIdentifiers(identifiers)
    ensures Listed(identifiers, i, words) && identifier == Join(words, " ")
  {
    i :| i in identifiers && Normalise(i) == identifier;
    words := Split(Lower(i));
    NormalisedAs(i);
  }

  lemma ListedWords(identifiers: set<string>, i: string, words: seq<string>)
    requires Listed(identifiers, i, words)
    ensures words != [] && AreWords(words)
    ensures Join(words, " ") in FilterIdentifiers(identifiers) && Split(Join(words, " ")) == words
    ensures ' ' in Join(words, " ") <==> |words| > 1
  {
    ListedIsKept(identifiers, i, words);
    SplitJoin(words);
    JoinHasSpace(words);
  }

  lemma JoinHasSpace(words: seq<string>)
    requires words != [] && AreWords(words)
    ensures ' ' in Join(words, " ") <==> |words| > 1
  {
    if |words| == 1 {
      assert words[0] in words;
      forall k | 0 <= k < |words[0]| ensures words[0][k] != ' ' { assert !IsSpace(words[0][k]); }
    } else {
      assert (words[0] + " " + Join(words[1..], " "))[|words[0]|] == ' ';
    }
  }

  /** What a multiset of violations promises. */
  ghost predicate Complete(text: string, identifiers: set<string>, violations: seq<Violation>) {
    var filtered := FilterIdentifiers(identifiers);
    forall v :: multiset(violations)[v] ==
      WordReports(SplitLines(text), SingleWords(filtered), v) + PhraseReports(text, filtered - SingleWords(filtered), v)
  }

  lemma OccursIffStands(line: string, word: string, p: nat)
    ensures OccursAt(Lower(line), word, p) <==> StandsAt(line, p, word)
  {
    if p + |word| <= |line| {
      var there := Lower(line)[p..p + |word|];
      assert forall k :: 0 <= k < |word| ==> there[k] == LowerChar(line[p + k]);
    }
  }

  lemma ContainsIffStands(line: string, word: string)
    ensures Contains(Lower(line), word) <==> StandsIn(line, word)
  {
    if Contains(Lower(line), word) {
      var p :| OccursAt(Lower(line), word, p);
      OccursIffStands(line, word, p);
    }
    if StandsIn(line, word) {
      var p: nat :| StandsAt(line, p, word);
      OccursIffStands(line, word, p);
    }
  }

  lemma WordIsReported(text: string, identifiers: set<string>, violations: seq<Violation>, i: string, word: string,
                       n: nat)
    requires Complete(text, identifiers, violations) && Listed(identifiers, i, [word])
    ensures ReportedRightly(text, violations, word, n)
  {
    var lines, words := SplitLines(text), SingleWords(FilterIdentifiers(identifiers));
    ListedWords(identifiers, i, [word]);
    assert Join([word], " ") == word && word in [word];
    if 1 <= n <= |lines| {
      var v := Violation(word, n, lines[n - 1]);
      WordReportedIffContained(lines, words, word, n);
      ContainsIffStands(lines[n - 1], word);
      assert v in violations <==> multiset(violations)[v] > 0;
    }
  }

  lemma PhraseIsReported(text: string, identifiers: set<string>, violations: seq<Violation>, i: string,
                         words: seq<string>)
    requires Complete(text, identifiers, violations) && Listed(identifiers, i, words) && |words| > 1
    ensures Reported(violations, words) <==> exists p: nat :: SpelledAt(text, p, words)
  {
    var phrase := Join(words, " ");
    ListedWords(identifiers, i, words);
    PhraseReportedIffSpelled(text, identifiers, phrase);
    forall v: Violation | v.identifier == phrase
      ensures v in violations <==> PhraseReports(text, {phrase}, v) > 0
    {
      CountOfPhrase(text, identifiers, violations, phrase, v);
    }
    if Reported(violations, words) {
      var v :| v in violations && Split(v.identifier) == words;
      ReportedIsListed(text, identifiers, violations, v);
    }
  }

  lemma CountOfPhrase(text: string, identifiers: set<string>, violations: seq<Violation>, phrase: string, v: Violation)
    requires Complete(text, identifiers, violations) && v.identifier == phrase
    requires phrase in FilterIdentifiers(identifiers) && ' ' in phrase
    ensures v in violations <==> PhraseReports(text, {phrase}, v) > 0
  {
    assert v in violations <==> multiset(violations)[v] > 0;
  }

  /** Whatever is reported is a listed entry, as its words with single spaces between them. */
  lemma ReportedIsListed(text: string, identifiers: set<string>, violations: seq<Violation>, v: Violation)
    requires Complete(text, identifiers, violations) && v in violations
    ensures exists i :: Listed(identifiers, i, Split(v.identifier))
    ensures v.identifier == Join(Split(v.identifier), " ")
  {
    assert multiset(violations)[v] > 0;
    var i, words := KeptIsListed(identifiers, v.identifier);
    ListedWords(identifiers, i, words);
  }

  lemma CompleteMeaning(text: string, identifiers: set<string>, violations: seq<Violation>)
    requires Complete(text, identifiers, violations)
    ensures WordsReported(text, identifiers, violations) && PhrasesReported(text, identifiers, violations)
    ensures OnlyListedReported(identifiers, violations)
  {
    forall i, word: string, n: nat | Listed(identifiers, i, [word]) ensures ReportedRightly(text, violations, word, n) {
      WordIsReported(text, identifiers, violations, i, word, n);
    }
    forall i, words | Listed(identifiers, i, words) && |words| > 1
      ensures Reported(violations, words) <==> exists p: nat :: SpelledAt(text, p, words)
    {
      PhraseIsReported(text, identifiers, violations, i, words);
    }
    forall v | v in violations ensures exists i :: Listed(identifiers, i, Split(v.identifier)) {
      ReportedIsListed(text, identifiers, violations, v);
    }
  }

  // ---- The gate's scan

  /**
   * Every violation is reported as often as its word or phrase is found, and nothing else is: each listed word for
   * exactly the lines it stands in, each listed phrase exactly when the text spells it.
   */
  method ScanText(text: string, identifiers: set<string>) returns (violations: seq<Violation>)
    ensures Complete(text, identifiers, violations)
    ensures WordsReported(text, identifiers, violations) && PhrasesReported(text, identifiers, violations)
    ensures OnlyListedReported(identifiers, violations)
  {
    var filtered := FilterIdentifiers(identifiers);
    var words := SingleWords(filtered);
    var phrases := filtered - words;
    violations := ScanForWords(SplitLines(text), words);
    forall p | p in phrases ensures Split(p) != [] { FilteredHasWords(identifiers, p); }
    var more := ScanForPhrases(text, phrases);
    violations := violations + more;
    CompleteMeaning(text, identifiers, violations);
  }
}
