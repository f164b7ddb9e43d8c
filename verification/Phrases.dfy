/** Matching a phrase whose words may be separated by any run of white space, dots, underscores or hyphens. */
module Phrases {
  import opened PyText

  predicate IsSeparator(c: char) { IsSpace(c) || c == '.' || c == '_' || c == '-' }

  /** White space, dots, underscores and hyphens. */
  predicate AllSeparators(s: string) {
    forall i :: 0 <= i < |s| ==> IsSpace(s[i]) || s[i] == '.' || s[i] == '_' || s[i] == '-'
  }

  // ---- The pattern matcher: greedy over separator runs, with backtracking

  /** The word stands at `pos`, in any case. */
  predicate WordAt(text: string, pos: nat, word: string) {
    pos + |word| <= |text| && Lower(text[pos..pos + |word|]) == word
  }

  function RunLength(text: string, pos: nat): (n: nat)
    requires pos <= |text|
    ensures pos + n <= |text| && AllSeparators(text[pos..pos + n])
    ensures pos + n < |text| ==> !IsSeparator(text[pos + n])
    decreases |text| - pos
  {
    if pos == |text| || !IsSeparator(text[pos]) then 0
    else
      var n := RunLength(text, pos + 1);
      assert text[pos..pos + 1 + n] == [text[pos]] + text[pos + 1..pos + 1 + n];
      1 + n
  }

  /** The end of the match of `words` at `pos` that the pattern engine finds. */
  function MatchAt(text: string, pos: nat, words: seq<string>): (end: Option<nat>)
    requires words != [] && pos <= |text|
    ensures end.Some? ==> pos + |words[0]| <= end.value <= |text|
    decreases |words|, 0
  {
    if !WordAt(text, pos, words[0]) then None
    else
      var p := pos + |words[0]|;
      if |words| == 1 then Some(p) else MatchRuns(text, p, RunLength(text, p), words[1..])
  }

  /** A separator run of at most `n` characters, the longest first, and the remaining words behind it. */
  function MatchRuns(text: string, p: nat, n: nat, words: seq<string>): (end: Option<nat>)
    requires words != [] && p + n <= |text|
    ensures end.Some? ==> p <= end.value <= |text|
    decreases |words|, n + 1
  {
    if n == 0 then None
    else
      var end := MatchAt(text, p + n, words);
      if end.Some? then end else MatchRuns(text, p, n - 1, words)
  }

  // ---- What a match is

  /** The words with the given runs between them. */
  function Spell(words: seq<string>, runs: seq<string>): string
    requires words != [] && |runs| == |words| - 1
  {
    if |words| == 1 then words[0] else words[0] + runs[0] + Spell(words[1..], runs[1..])
  }

  ghost predicate Separates(runs: seq<string>, words: seq<string>) {
    |runs| == |words| - 1 && forall r :: r in runs ==> r != "" && AllSeparators(r)
  }

  /** The text reads `s` from `pos` on, in any case. */
  ghost predicate StandsAt(text: string, pos: nat, s: string) {
    pos + |s| <= |text| && forall k :: 0 <= k < |s| ==> LowerChar(text[pos + k]) == s[k]
  }

  /** Some spelling of the phrase, in any case, starts at `pos`. */
  ghost predicate SpelledAt(text: string, pos: nat, words: seq<string>)
    requires words != []
  {
    exists runs :: Separates(runs, words) && StandsAt(text, pos, Spell(words, runs))
  }

  lemma WordAtMeaning(text: string, pos: nat, s: string)
    ensures WordAt(text, pos, s) <==> StandsAt(text, pos, s)
  {
    if pos + |s| <= |text| {
      var there := Lower(text[pos..pos + |s|]);
      assert forall k :: 0 <= k < |s| ==> there[k] == LowerChar(text[pos + k]);
    }
  }

  lemma WordAtAppend(text: string, pos: nat, a: string, b: string)
    ensures WordAt(text, pos, a + b) <==> WordAt(text, pos, a) && WordAt(text, pos + |a|, b)
  {
    if pos + |a| + |b| <= |text| {
      var s := text[pos..pos + |a + b|];
      assert s == text[pos..pos + |a|] + text[pos + |a|..pos + |a| + |b|];
      assert Lower(s)[..|a|] == Lower(text[pos..pos + |a|]);
      assert Lower(s)[|a|..] == Lower(text[pos + |a|..pos + |a| + |b|]);
      assert (a + b)[..|a|] == a && (a + b)[|a|..] == b;
    }
  }

  lemma WordRunRest(text: string, pos: nat, w: string, r: string, rest: string)
    ensures WordAt(text, pos, w + r + rest) <==>
            WordAt(text, pos, w) && WordAt(text, pos + |w|, r) && WordAt(text, pos + |w| + |r|, rest)
  {
    WordAtAppend(text, pos, w + r, rest);
    WordAtAppend(text, pos, w, r);
  }

  lemma SeparatorsHaveNoCase(s: string)
    ensures AllSeparators(s) ==> Lower(s) == s
    ensures AllSeparators(Lower(s)) ==> AllSeparators(s)
  {
    if AllSeparators(Lower(s)) {
      forall i | 0 <= i < |s| ensures IsSeparator(s[i]) { assert IsSeparator(Lower(s)[i]); }
    }
  }

  /** No separator run at `p` is longer than the one the matcher starts from. */
  lemma LongestRun(text: string, p: nat, run: string)
    requires AllSeparators(run) && WordAt(text, p, run)
    ensures |run| <= RunLength(text, p)
  {
    var there := text[p..p + |run|];
    SeparatorsHaveNoCase(there);
    assert forall i :: 0 <= i < |there| ==> there[i] == text[p + i];
  }

  /** Backtracking tries every run length up to `n`. */
  lemma {:induction false} RunsTried(text: string, p: nat, n: nat, words: seq<string>, k: nat)
    requires words != [] && p + n <= |text| && 0 < k <= n && MatchAt(text, p + k, words).Some?
    ensures MatchRuns(text, p, n, words).Some?
    decreases n
  {
    if k < n {
      RunsTried(text, p, n - 1, words, k);
    }
  }

  /** A word and a match behind a separator run make a match. */
  lemma MatchStep(text: string, pos: nat, words: seq<string>, rest: seq<string>, p: nat, k: nat)
    requires |words| > 1 && rest == words[1..] && WordAt(text, pos, words[0]) && p == pos + |words[0]|
    requires 0 < k <= RunLength(text, p) && MatchAt(text, p + k, rest).Some?
    ensures MatchAt(text, pos, words).Some?
  {
    RunsTried(text, p, RunLength(text, p), rest, k);
  }

  lemma SpelledInParts(text: string, pos: nat, words: seq<string>, runs: seq<string>)
    requires |words| > 1 && Separates(runs, words)
    ensures Separates(runs[1..], words[1..]) && runs[0] != "" && AllSeparators(runs[0])
    ensures WordAt(text, pos, Spell(words, runs)) <==>
            && WordAt(text, pos, words[0]) && WordAt(text, pos + |words[0]|, runs[0])
            && WordAt(text, pos + |words[0]| + |runs[0]|, Spell(words[1..], runs[1..]))
  {
    assert runs[0] in runs;
    WordRunRest(text, pos, words[0], runs[0], Spell(words[1..], runs[1..]));
  }

  /** The length of the first run of a spelling, which the matcher tries. */
  lemma FirstRun(text: string, pos: nat, words: seq<string>, runs: seq<string>) returns (p: nat, k: nat)
    requires |words| > 1 && Separates(runs, words) && WordAt(text, pos, Spell(words, runs))
    ensures WordAt(text, pos, words[0]) && p == pos + |words[0]| && 0 < k <= RunLength(text, p)
    ensures Separates(runs[1..], words[1..]) && WordAt(text, p + k, Spell(words[1..], runs[1..]))
  {
    SpelledInParts(text, pos, words, runs);
    p, k := pos + |words[0]|, |runs[0]|;
    LongestRun(text, p, runs[0]);
  }

  lemma {:induction false} MatcherFinds(text: string, pos: nat, words: seq<string>, runs: seq<string>)
    requires words != [] && Separates(runs, words) && WordAt(text, pos, Spell(words, runs))
    ensures MatchAt(text, pos, words).Some?
    decreases |words|
  {
    if |words| > 1 {
      var rest := words[1..];
      var p, k := FirstRun(text, pos, words, runs);
      MatcherFinds(text, p + k, rest, runs[1..]);
      MatchStep(text, pos, words, rest, p, k);
    }
  }

  lemma {:induction false} RunFound(text: string, p: nat, n: nat, words: seq<string>) returns (k: nat)
    requires words != [] && p + n <= |text| && MatchRuns(text, p, n, words).Some?
    ensures 0 < k <= n && MatchAt(text, p + k, words) == MatchRuns(text, p, n, words)
    decreases n
  {
    if MatchAt(text, p + n, words).Some? {
      k := n;
    } else {
      k := RunFound(text, p, n - 1, words);
    }
  }

  lemma RunIsThere(text: string, p: nat, n: nat, k: nat)
    requires p + n <= |text| && k <= n <= RunLength(text, p)
    ensures AllSeparators(text[p..p + k]) && WordAt(text, p, text[p..p + k])
  {
    var m := RunLength(text, p);
    assert text[p..p + k] == text[p..p + m][..k];
    SeparatorsHaveNoCase(text[p..p + k]);
  }

  /** What a match of several words consists of. */
  lemma MatchSplits(text: string, pos: nat, words: seq<string>) returns (run: string)
    requires |words| > 1 && pos <= |text| && MatchAt(text, pos, words).Some?
    ensures run != "" && AllSeparators(run)
    ensures WordAt(text, pos, words[0]) && WordAt(text, pos + |words[0]|, run)
    ensures MatchAt(text, pos + |words[0]| + |run|, words[1..]) == MatchAt(text, pos, words)
  {
    var p := pos + |words[0]|;
    var n := RunLength(text, p);
    var k := RunFound(text, p, n, words[1..]);
    RunIsThere(text, p, n, k);
    run := text[p..p + k];
  }

  lemma {:induction false} MatcherIsSound(text: string, pos: nat, words: seq<string>) returns (runs: seq<string>)
    requires words != [] && pos <= |text| && MatchAt(text, pos, words).Some?
    ensures Separates(runs, words) && WordAt(text, pos, Spell(words, runs))
    ensures MatchAt(text, pos, words).value == pos + |Spell(words, runs)|
    decreases |words|
  {
    if |words| == 1 {
      runs := [];
    } else {
      var run := MatchSplits(text, pos, words);
      var later := MatcherIsSound(text, pos + |words[0]| + |run|, words[1..]);
      runs := [run] + later;
      SeparatesMore(run, later, words);
      SpelledInParts(text, pos, words, runs);
    }
  }

  lemma SeparatesMore(run: string, later: seq<string>, words: seq<string>)
    requires |words| > 1 && Separates(later, words[1..]) && run != "" && AllSeparators(run)
    ensures Separates([run] + later, words) && ([run] + later)[1..] == later
    ensures |Spell(words, [run] + later)| == |words[0]| + |run| + |Spell(words[1..], later)|
  {
    assert ([run] + later)[1..] == later;
  }

  /** The matcher succeeds exactly where some spelling of the phrase starts. */
  lemma MatchIffSpelled(text: string, pos: nat, words: seq<string>)
    requires words != [] && pos <= |text|
    ensures MatchAt(text, pos, words).Some? <==> SpelledAt(text, pos, words)
  {
    if MatchAt(text, pos, words).Some? {
      var runs := MatcherIsSound(text, pos, words);
      WordAtMeaning(text, pos, Spell(words, runs));
    }
    if SpelledAt(text, pos, words) {
      var runs :| Separates(runs, words) && StandsAt(text, pos, Spell(words, runs));
      WordAtMeaning(text, pos, Spell(words, runs));
      MatcherFinds(text, pos, words, runs);
    }
  }

  // ---- All matches of a text

  datatype Match = Match(start: nat, end: nat)

  function NextMatch(text: string, from: nat, words: seq<string>): (m: Option<Match>)
    requires words != []
    ensures m.Some? ==> from <= m.value.start && m.value.start + |words[0]| <= m.value.end <= |text|
    ensures m.Some? ==> MatchAt(text, m.value.start, words) == Some(m.value.end)
    decreases |text| - from
  {
    if from > |text| then None
    else match MatchAt(text, from, words)
         case Some(end) => Some(Match(from, end))
         case None => NextMatch(text, from + 1, words)
  }

  lemma {:induction false} NextMatchFirst(text: string, from: nat, words: seq<string>, p: nat)
    requires words != [] && from <= p <= |text| && MatchAt(text, p, words).Some?
    ensures NextMatch(text, from, words).Some? && NextMatch(text, from, words).value.start <= p
    decreases |text| - from
  {
    if MatchAt(text, from, words).None? {
      NextMatchFirst(text, from + 1, words, p);
    }
  }

  /** `finditer`: the leftmost match, and then the leftmost behind the last one. */
  function FindIter(text: string, from: nat, words: seq<string>): (ms: seq<Match>)
    requires words != [] && words[0] != ""
    ensures forall m :: m in ms ==> from <= m.start < m.end <= |text| && MatchAt(text, m.start, words) == Some(m.end)
    decreases |text| - from
  {
    match NextMatch(text, from, words)
    case None => []
    case Some(m) => [m] + FindIter(text, m.end, words)
  }

  /** A phrase is reported exactly when the text spells it somewhere, with whatever separator runs. */
  lemma ReportedIffSpelled(text: string, words: seq<string>)
    requires words != [] && words[0] != ""
    ensures FindIter(text, 0, words) != [] <==> exists p: nat :: SpelledAt(text, p, words)
  {
    if p: nat :| SpelledAt(text, p, words) {
      MatchIffSpelled(text, p, words);
      NextMatchFirst(text, 0, words, p);
    }
    if FindIter(text, 0, words) != [] {
      MatchIffSpelled(text, FindIter(text, 0, words)[0].start, words);
    }
  }

  /** Writing an occurrence with other separator runs, line breaks included, does not hide it. */
  lemma SeparatorsDoNotHide(before: string, occurrence: string, after: string, words: seq<string>, runs: seq<string>)
    requires words != [] && words[0] != "" && Separates(runs, words) && Lower(occurrence) == Spell(words, runs)
    ensures FindIter(before + occurrence + after, 0, words) != []
  {
    var text := before + occurrence + after;
    assert text[|before|..|before| + |occurrence|] == occurrence;
    WordAtMeaning(text, |before|, Spell(words, runs));
    assert SpelledAt(text, |before|, words);
    ReportedIffSpelled(text, words);
  }
}
