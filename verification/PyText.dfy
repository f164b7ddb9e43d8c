/** The few operations of the host language on text that the other modules rely on. */
module PyText {

  datatype Option<+T> = None | Some(value: T) {
    predicate IsFailure() { None? }

    function PropagateFailure<U>(): Option<U>
      requires None?
    {
      None
    }

    function Extract(): T
      requires Some?
    {
      value
    }
  }

  /** `str.isspace`; also what `\s` matches in a text pattern. */
  predicate IsSpace(c: char) {
    var n := c as int;
    9 <= n <= 13 || 28 <= n <= 32 || n == 0x85 || n == 0xA0 || n == 0x1680 ||
    0x2000 <= n <= 0x200A || n == 0x2028 || n == 0x2029 || n == 0x202F || n == 0x205F || n == 0x3000
  }

  /** The characters `str.splitlines` breaks at; every one of them is also white space. */
  predicate IsLineBreak(c: char) {
    var n := c as int;
    10 <= n <= 13 || 28 <= n <= 30 || n == 0x85 || n == 0x2028 || n == 0x2029
  }

  lemma LineBreaksAre(c: char)
    ensures IsLineBreak(c) <==>
            c in ['\n', '\U{B}', '\U{C}', '\r', '\U{1C}', '\U{1D}', '\U{1E}', '\U{85}', '\U{2028}', '\U{2029}']
    ensures IsLineBreak(c) ==> IsSpace(c)
  {}

  lemma SpacesAre(c: char)
    ensures IsSpace(c) && c as int < 0x2000 <==>
            c in ['\t', '\n', '\U{B}', '\U{C}', '\r', '\U{1C}', '\U{1D}', '\U{1E}', '\U{1F}', ' ', '\U{85}', '\U{A0}',
                  '\U{1680}']
    ensures IsSpace(c) && c as int >= 0x2000 <==>
            c in ['\U{2000}', '\U{2001}', '\U{2002}', '\U{2003}', '\U{2004}', '\U{2005}', '\U{2006}', '\U{2007}',
                  '\U{2008}', '\U{2009}', '\U{200A}', '\U{2028}', '\U{2029}', '\U{202F}', '\U{205F}', '\U{3000}']
  {}

  /** `str.lower`, over letters whose lower case has the same length. */
  function LowerChar(c: char): char {
    if 'A' <= c <= 'Z' then (c as int + 32) as char else c
  }

  lemma LowerLetters()
    ensures forall i :: 0 <= i < 26 ==> LowerChar("ABCDEFGHIJKLMNOPQRSTUVWXYZ"[i]) == "abcdefghijklmnopqrstuvwxyz"[i]
    ensures forall c :: c !in "ABCDEFGHIJKLMNOPQRSTUVWXYZ" ==> LowerChar(c) == c
  {
    var upper := "ABCDEFGHIJKLMNOPQRSTUVWXYZ";
    assert forall i :: 0 <= i < 26 ==> upper[i] as int == 65 + i;
    forall c | 'A' <= c <= 'Z' ensures c in upper {
      assert upper[c as int - 65] == c;
    }
  }

  function Lower(s: string): (r: string)
    ensures |r| == |s|
    ensures forall i :: 0 <= i < |s| ==> r[i] == LowerChar(s[i])
  {
    seq(|s|, i requires 0 <= i < |s| => LowerChar(s[i]))
  }

  function LStrip(s: string): (r: string)
    ensures |r| <= |s| && (|r| == |s| ==> r == s)
    ensures r != "" ==> !IsSpace(r[0])
  {
    if s == "" || !IsSpace(s[0]) then s else LStrip(s[1..])
  }

  function RStrip(s: string): (r: string)
    ensures |r| <= |s| && r == s[..|r|]
    ensures r != "" ==> !IsSpace(r[|r| - 1])
  {
    if s == "" || !IsSpace(s[|s| - 1]) then s else RStrip(s[..|s| - 1])
  }

  /** `str.strip()`: no white space is left at either end. */
  function Strip(s: string): (r: string)
    ensures |r| <= |s|
    ensures r != "" ==> !IsSpace(r[0]) && !IsSpace(r[|r| - 1])
    ensures |r| == |s| ==> r == s
  {
    RStrip(LStrip(s))
  }

  predicate Stripped(s: string) {
    s == "" || (!IsSpace(s[0]) && !IsSpace(s[|s| - 1]))
  }

  predicate AllSpace(s: string) { forall i :: 0 <= i < |s| ==> IsSpace(s[i]) }

  lemma {:induction false} LStripSkips(space: string, rest: string)
    requires AllSpace(space)
    ensures LStrip(space + rest) == LStrip(rest)
  {
    if space == "" {
      assert space + rest == rest;
    } else {
      assert (space + rest)[1..] == space[1..] + rest;
      LStripSkips(space[1..], rest);
    }
  }

  lemma {:induction false} RStripSkips(rest: string, space: string)
    requires AllSpace(space)
    ensures RStrip(rest + space) == RStrip(rest)
    decreases |space|
  {
    if space == "" {
      assert rest + space == rest;
    } else {
      assert (rest + space)[..|rest + space| - 1] == rest + space[..|space| - 1];
      RStripSkips(rest, space[..|space| - 1]);
    }
  }

  /** `strip` takes the white space around a text, and nothing of the text. */
  lemma StripTakesSpace(lead: string, core: string, trail: string)
    requires AllSpace(lead) && AllSpace(trail) && Stripped(core)
    ensures Strip(lead + (core + trail)) == core
  {
    LStripSkips(lead, core + trail);
    if core == "" {
      assert core + trail == trail + "";
      LStripSkips(trail, "");
    } else {
      RStripSkips(core, trail);
    }
  }

  lemma {:induction false} LStripLeaves(s: string) returns (lead: string)
    ensures AllSpace(lead) && s == lead + LStrip(s)
  {
    if s == "" || !IsSpace(s[0]) {
      lead := "";
    } else {
      var more := LStripLeaves(s[1..]);
      lead := [s[0]] + more;
    }
  }

  lemma {:induction false} RStripLeaves(s: string) returns (trail: string)
    ensures AllSpace(trail) && s == RStrip(s) + trail
    decreases |s|
  {
    if s == "" || !IsSpace(s[|s| - 1]) {
      trail := "";
    } else {
      var more := RStripLeaves(s[..|s| - 1]);
      trail := more + [s[|s| - 1]];
    }
  }

  /** What is stripped is the text between white space. */
  lemma StripLeaves(s: string) returns (lead: string, trail: string)
    ensures AllSpace(lead) && AllSpace(trail) && s == lead + (Strip(s) + trail)
  {
    lead := LStripLeaves(s);
    trail := RStripLeaves(LStrip(s));
  }

  predicate NoSpace(s: string) { forall i :: 0 <= i < |s| ==> !IsSpace(s[i]) }

  predicate NoLineBreak(s: string) { forall i :: 0 <= i < |s| ==> !IsLineBreak(s[i]) }

  /** Cutting a suffix is cutting the whole. */
  lemma SuffixCut<T>(s: seq<T>, from: nat, n: nat)
    requires from + n <= |s|
    ensures s[from..][..n] == s[from..from + n]
    ensures s[from..][n..] == s[from + n..]
  {}

  /** The length of the longest prefix without a separator. */
  function WordLength<T>(s: seq<T>, sep: T -> bool): (n: nat)
    ensures n <= |s|
    ensures forall i :: 0 <= i < n ==> !sep(s[i])
    ensures n < |s| ==> sep(s[n])
  {
    if s == [] || sep(s[0]) then 0 else 1 + WordLength(s[1..], sep)
  }

  /** The maximal separator-free runs, in order. */
  function Words<T>(s: seq<T>, sep: T -> bool): (words: seq<seq<T>>)
    ensures forall w :: w in words ==> w != [] && forall i :: 0 <= i < |w| ==> !sep(w[i])
    decreases |s|
  {
    if s == [] then []
    else if sep(s[0]) then Words(s[1..], sep)
    else
      var n := WordLength(s, sep);
      [s[..n]] + Words(s[n..], sep)
  }

  /** `str.split()`. */
  function Split(s: string): seq<string> { Words(s, IsSpace) }

  lemma WordLengthIs<T>(w: seq<T>, rest: seq<T>, sep: T -> bool)
    requires forall i :: 0 <= i < |w| ==> !sep(w[i])
    requires rest == [] || sep(rest[0])
    ensures WordLength(w + rest, sep) == |w|
  {
    var s, n := w + rest, WordLength(w + rest, sep);
    assert forall i :: 0 <= i < |w| ==> s[i] == w[i];
    assert rest != [] ==> s[|w|] == rest[0];
  }

  /** A separator-free run at the front, closed by a separator or the end, is the first word. */
  lemma {:induction false} FirstWord<T>(w: seq<T>, rest: seq<T>, sep: T -> bool)
    requires w != [] && forall i :: 0 <= i < |w| ==> !sep(w[i])
    requires rest == [] || sep(rest[0])
    ensures Words(w + rest, sep) == [w] + Words(rest, sep)
  {
    var s := w + rest;
    WordLengthIs(w, rest, sep);
    assert s[|w|..] == rest && s[..|w|] == w;
    assert !sep(s[0]);
  }

  lemma WordThenSeparator<T>(w: seq<T>, c: T, rest: seq<T>, sep: T -> bool)
    requires w != [] && (forall i :: 0 <= i < |w| ==> !sep(w[i])) && sep(c)
    ensures Words(w + ([c] + rest), sep) == [w] + Words(rest, sep)
  {
    FirstWord(w, [c] + rest, sep);
    assert ([c] + rest)[1..] == rest;
  }

  lemma OneWord<T>(w: seq<T>, sep: T -> bool)
    requires w != [] && forall i :: 0 <= i < |w| ==> !sep(w[i])
    ensures Words(w, sep) == [w]
  {
    FirstWord(w, [], sep);
    assert w + [] == w;
  }

  /** `w` stands in a text, without a separator in it and none missing on either side. */
  ghost predicate StandsBetween<T(!new)>(s: seq<T>, sep: T -> bool, w: seq<T>, a: seq<T>, b: seq<T>) {
    && s == a + (w + b) && w != [] && (forall i :: 0 <= i < |w| ==> !sep(w[i]))
    && (a == [] || sep(a[|a| - 1])) && (b == [] || sep(b[0]))
  }

  lemma StandsFurther<T(!new)>(s: seq<T>, sep: T -> bool, w: seq<T>, n: nat, a: seq<T>, b: seq<T>)
    requires 0 < n <= |s| && StandsBetween(s[n..], sep, w, a, b) && (a == [] ==> sep(s[n - 1]))
    ensures StandsBetween(s, sep, w, s[..n] + a, b)
  {
    assert s == s[..n] + s[n..];
    assert s[..n] + (a + (w + b)) == (s[..n] + a) + (w + b);
  }

  lemma {:induction false} WordStands<T(!new)>(s: seq<T>, sep: T -> bool, w: seq<T>) returns (a: seq<T>, b: seq<T>)
    requires w in Words(s, sep)
    ensures StandsBetween(s, sep, w, a, b)
    decreases |s|
  {
    var n := if sep(s[0]) then 1 else WordLength(s, sep);
    if !sep(s[0]) && w == s[..n] {
      a, b := [], s[n..];
    } else {
      a, b := WordStands(s[n..], sep, w);
      assert a == [] ==> s[n..][0] == w[0];
      StandsFurther(s, sep, w, n, a, b);
      a := s[..n] + a;
    }
  }

  lemma {:induction false} StandingIsWord<T(!new)>(s: seq<T>, sep: T -> bool, w: seq<T>, a: seq<T>, b: seq<T>)
    requires StandsBetween(s, sep, w, a, b)
    ensures w in Words(s, sep)
    decreases |a|
  {
    if a == [] {
      assert s == w + b;
      FirstWord(w, b, sep);
    } else if sep(a[0]) {
      assert s[1..] == a[1..] + (w + b);
      StandingIsWord(s[1..], sep, w, a[1..], b);
    } else {
      var n := WordLength(s, sep);
      assert s[|a| - 1] == a[|a| - 1];
      assert n < |a|;
      assert s[n..] == a[n..] + (w + b);
      StandingIsWord(s[n..], sep, w, a[n..], b);
    }
  }

  /** `part in s`. */
  predicate Infix(part: string, s: string) { part <= s || (s != "" && Infix(part, s[1..])) }

  lemma {:induction false} InfixStands(part: string, s: string)
    ensures Infix(part, s) <==> exists a, b :: s == a + (part + b)
  {
    if part <= s {
      assert s == "" + (part + s[|part|..]);
    } else {
      if s != "" {
        InfixStands(part, s[1..]);
        if Infix(part, s) {
          var a, b :| s[1..] == a + (part + b);
          assert s == ([s[0]] + a) + (part + b);
        }
      }
      forall a, b | s == a + (part + b) ensures Infix(part, s) {
        assert a != "";
        assert s[1..] == a[1..] + (part + b);
      }
    }
  }

  predicate StartsWith(s: string, prefix: string) { prefix <= s }

  predicate EndsWith(s: string, suffix: string) {
    |suffix| <= |s| && s[|s| - |suffix|..] == suffix
  }
}
