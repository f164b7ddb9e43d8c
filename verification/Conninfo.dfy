/** Keyword/value connection strings, and which database one points at. */
module Conninfo {
  import opened PyText
  import PyNumber

  type Keywords = map<string, string>

  predicate IsKeyStart(c: char) { 'A' <= c <= 'Z' || 'a' <= c <= 'z' || c == '_' }

  predicate IsKeyChar(c: char) { IsKeyStart(c) || '0' <= c <= '9' }

  predicate NotKeyChar(c: char) { !IsKeyChar(c) }

  // ---- The grammar, reading from the front of a text

  datatype Quoted = Quoted(value: string, rest: string)

  /** The value behind an opening quote, up to the closing one; None when it is not closed. */
  function ReadQuoted(s: string): (q: Option<Quoted>)
    ensures q.Some? ==> |q.value.rest| < |s|
  {
    if s == "" then None
    else if s[0] == '\\' && |s| > 1 then Prepend(s[1], ReadQuoted(s[2..]))
    else if s[0] == '\'' then Some(Quoted("", s[1..]))
    else Prepend(s[0], ReadQuoted(s[1..]))
  }

  function Prepend(c: char, q: Option<Quoted>): (r: Option<Quoted>)
    ensures r.Some? <==> q.Some?
    ensures r.Some? ==> r.value.rest == q.value.rest
  {
    match q case None => None case Some(found) => Some(Quoted([c] + found.value, found.rest))
  }

  function ReadBare(s: string): Quoted {
    var n := WordLength(s, IsSpace);
    Quoted(s[..n], s[n..])
  }

  function ReadValue(s: string): (q: Option<Quoted>)
    ensures q.Some? ==> |q.value.rest| <= |s|
  {
    if s != "" && s[0] == '\'' then ReadQuoted(s[1..]) else Some(ReadBare(s))
  }

  /** The equals sign behind a key, and the value. */
  function ReadAssigned(s: string): (q: Option<Quoted>)
    ensures q.Some? ==> |q.value.rest| <= |s|
  {
    var t := LStrip(s);
    if t == "" || t[0] != '=' then None else ReadValue(LStrip(t[1..]))
  }

  datatype Pair = Pair(key: string, value: string, rest: string)

  function ReadPair(s: string): (p: Option<Pair>)
    ensures p.Some? ==> |p.value.rest| < |s|
  {
    if s == "" || !IsKeyStart(s[0]) then None
    else
      var n := WordLength(s, NotKeyChar);
      match ReadAssigned(s[n..])
      case None => None
      case Some(q) => Some(Pair(Lower(s[..n]), q.value, q.rest))
  }

  function ReadPairs(s: string, known: Keywords): Option<Keywords>
    decreases |s|
  {
    var t := LStrip(s);
    if t == "" then Some(known)
    else match ReadPair(t)
         case None => None
         case Some(p) => ReadPairs(p.rest, known[p.key := p.value])
  }

  /** None on any anomaly, and when there is no pair at all. */
  function ParseKeywords(dsn: string): Option<Keywords> {
    var r := ReadPairs(dsn, map[]);
    if r == Some(map[]) then None else r
  }

  // ---- The scanner. It moves an index; `text` is what lies behind it, and `rest` what lies behind the result.

  method SkipSpaces(s: string, from: nat, ghost text: string) returns (i: nat, ghost rest: string)
    requires from <= |s| && text == s[from..]
    ensures from <= i <= |s| && rest == s[i..] && rest == LStrip(text)
  {
    i, rest := from, text;
    while i < |s| && IsSpace(s[i])
      invariant from <= i <= |s| && rest == s[i..] && LStrip(rest) == LStrip(text)
    {
      i, rest := i + 1, rest[1..];
    }
  }

  ghost function Continue(chars: string, q: Option<Quoted>): Option<Quoted> {
    match q case None => None case Some(found) => Some(Quoted(chars + found.value, found.rest))
  }

  lemma ContinueStep(chars: string, c: char, q: Option<Quoted>)
    ensures Continue(chars, Prepend(c, q)) == Continue(chars + [c], q)
  {
    if q.Some? {
      assert chars + ([c] + q.value.value) == chars + [c] + q.value.value;
    }
  }

  method ScanQuoted(s: string, from: nat, ghost text: string)
    returns (closed: bool, value: string, i: nat, ghost rest: string)
    requires from <= |s| && text == s[from..]
    ensures from <= i <= |s| && rest == s[i..]
    ensures ReadQuoted(text) == if closed then Some(Quoted(value, rest)) else None
  {
    value, closed, i, rest := "", false, from, text;
    ghost var whole := ReadQuoted(text);
    assert whole.Some? ==> "" + whole.value.value == whole.value.value;
    while i < |s|
      invariant from <= i <= |s| && rest == s[i..]
      invariant !closed && whole == Continue(value, ReadQuoted(rest))
    {
      var ch := s[i];
      if ch == '\\' && i + 1 < |s| {
        ContinueStep(value, s[i + 1], ReadQuoted(rest[2..]));
        value := value + [s[i + 1]];
        i, rest := i + 2, rest[2..];
        continue;
      }
      if ch == '\'' {
        assert value + "" == value;
        closed := true;
        i, rest := i + 1, rest[1..];
        break;
      }
      ContinueStep(value, ch, ReadQuoted(rest[1..]));
      value := value + [ch];
      i, rest := i + 1, rest[1..];
    }
  }

  method ScanValue(s: string, from: nat, ghost text: string)
    returns (ok: bool, value: string, i: nat, ghost rest: string)
    requires from <= |s| && text == s[from..]
    ensures from <= i <= |s| && rest == s[i..]
    ensures ReadValue(text) == if ok then Some(Quoted(value, rest)) else None
  {
    if from < |s| && s[from] == '\'' {
      ok, value, i, rest := ScanQuoted(s, from + 1, text[1..]);
    } else {
      var n := WordLength(s[from..], IsSpace);
      SuffixCut(s, from, n);
      ok, value, i, rest := true, s[from..from + n], from + n, text[n..];
    }
  }

  method ScanAssigned(s: string, from: nat, ghost text: string)
    returns (ok: bool, value: string, i: nat, ghost rest: string)
    requires from <= |s| && text == s[from..]
    ensures from <= i <= |s| && rest == s[i..]
    ensures ReadAssigned(text) == if ok then Some(Quoted(value, rest)) else None
  {
    i, rest := SkipSpaces(s, from, text);
    if i >= |s| || s[i] != '=' {
      return false, "", i, rest;
    }
    i, rest := SkipSpaces(s, i + 1, rest[1..]);
    ok, value, i, rest := ScanValue(s, i, rest);
  }

  method ScanPair(s: string, from: nat, ghost text: string)
    returns (ok: bool, key: string, value: string, i: nat, ghost rest: string)
    requires from < |s| && text == s[from..]
    ensures from <= i <= |s| && rest == s[i..] && (ok ==> from < i)
    ensures ReadPair(text) == if ok then Some(Pair(key, value, rest)) else None
  {
    if !IsKeyStart(s[from]) {
      return false, "", "", from, text;
    }
    var n := WordLength(s[from..], NotKeyChar);
    key := Lower(s[from..from + n]);
    SuffixCut(s, from, n);
    ok, value, i, rest := ScanAssigned(s, from + n, text[n..]);
  }

  method ParseConninfoKeywords(dsn: string) returns (keywords: Option<Keywords>)
    ensures keywords == ParseKeywords(dsn)
  {
    var result: Keywords := map[];
    var i, n := 0, |dsn|;
    ghost var rest := dsn;
    while i < n
      invariant 0 <= i <= n && rest == dsn[i..]
      invariant ReadPairs(dsn, map[]) == ReadPairs(rest, result)
      decreases n - i
    {
      i, rest := SkipSpaces(dsn, i, rest);
      if i >= n {
        break;
      }
      var ok, key, value, j, behind := ScanPair(dsn, i, rest);
      if !ok {
        return None;
      }
      result := result[key := value];
      i, rest := j, behind;
    }
    keywords := if result == map[] then None else Some(result);
  }

  // ---- Writing a connection string, and reading it back

  /** How a value is written: bare, or quoted with a backslash before the marked characters. */
  datatype Spelling = Bare | InQuotes(escaped: seq<bool>)

  /** A pair with the white space before it and on both sides of its equals sign. */
  datatype Item = Item(lead: string, key: string, before: string, after: string, value: string, spelling: Spelling)

  predicate IsKey(s: string) { s != "" && IsKeyStart(s[0]) && forall i :: 0 <= i < |s| ==> !NotKeyChar(s[i]) }

  /** Quotes and backslashes inside quotes must be escaped, anything may be; bare values are plain words. */
  ghost predicate Spells(spelling: Spelling, value: string) {
    match spelling
    case Bare => value != "" && NoSpace(value) && value[0] != '\''
    case InQuotes(escaped) =>
      |escaped| == |value| && forall i :: 0 <= i < |value| && (value[i] == '\'' || value[i] == '\\') ==> escaped[i]
  }

  ghost predicate ItemWritten(it: Item, atEnd: bool) {
    && AllSpace(it.lead) && IsKey(it.key) && AllSpace(it.before) && AllSpace(it.after)
    && (Spells(it.spelling, it.value) || (it.spelling == Bare && it.value == "" && atEnd))
  }

  /** White space must part a bare value from a next pair, and a bare value may be empty at the very end only. */
  ghost predicate WellWritten(items: seq<Item>, trail: string) {
    && AllSpace(trail)
    && (forall i :: 0 <= i < |items| ==> ItemWritten(items[i], i == |items| - 1 && trail == ""))
    && (forall i :: 0 <= i < |items| - 1 && items[i].spelling.Bare? ==> items[i + 1].lead != "")
  }

  function WriteQuoted(value: string, escaped: seq<bool>): string
    requires |escaped| == |value|
  {
    if value == "" then "'"
    else (if escaped[0] then ['\\', value[0]] else [value[0]]) + WriteQuoted(value[1..], escaped[1..])
  }

  function WriteValue(value: string, spelling: Spelling): string
    requires spelling.InQuotes? ==> |spelling.escaped| == |value|
  {
    if spelling.Bare? then value else "'" + WriteQuoted(value, spelling.escaped)
  }

  /** One written pair, with `later` behind it. */
  function WriteItem(it: Item, later: string): string
    requires it.spelling.InQuotes? ==> |it.spelling.escaped| == |it.value|
  {
    it.lead + (it.key + (it.before + ("=" + (it.after + (WriteValue(it.value, it.spelling) + later)))))
  }

  function Write(items: seq<Item>, trail: string): string
    requires forall i :: 0 <= i < |items| && items[i].spelling.InQuotes? ==>
             |items[i].spelling.escaped| == |items[i].value|
  {
    if items == [] then trail else WriteItem(items[0], Write(items[1..], trail))
  }

  /** The pairs as a map: keys in lower case, later duplicates winning. */
  function Meaning(items: seq<Item>, known: Keywords): Keywords {
    if items == [] then known else Meaning(items[1..], known[Lower(items[0].key) := items[0].value])
  }

  lemma LStripSpaced(space: string, rest: string)
    requires AllSpace(space) && rest != "" && !IsSpace(rest[0])
    ensures LStrip(space + rest) == rest
  {
    LStripSkips(space, rest);
  }

  /** One character more in front of a quoted value that reads back. */
  lemma QuotedStep(c: char, escape: bool, text: string, q: Quoted)
    requires ReadQuoted(text) == Some(q) && (c == '\'' || c == '\\' ==> escape)
    ensures ReadQuoted((if escape then ['\\', c] else [c]) + text) == Some(Quoted([c] + q.value, q.rest))
  {
    var s := (if escape then ['\\', c] else [c]) + text;
    if escape {
      assert s[0] == '\\' && s[1] == c && s[2..] == text;
    } else {
      assert s[0] == c && s[1..] == text;
    }
  }

  lemma {:induction false} QuotedReadsBack(value: string, escaped: seq<bool>, rest: string)
    requires Spells(InQuotes(escaped), value)
    ensures ReadQuoted(WriteQuoted(value, escaped) + rest) == Some(Quoted(value, rest))
  {
    if value == "" {
      assert ("'" + rest)[1..] == rest;
    } else {
      var c, text := value[0], WriteQuoted(value[1..], escaped[1..]);
      QuotedReadsBack(value[1..], escaped[1..], rest);
      QuotedStep(c, escaped[0], text + rest, Quoted(value[1..], rest));
      var front := if escaped[0] then ['\\', c] else [c];
      assert (front + text) + rest == front + (text + rest);
      assert value == [c] + value[1..];
    }
  }

  lemma BareReadsBack(value: string, rest: string)
    requires Spells(Bare, value) && (rest == "" || IsSpace(rest[0]))
    ensures ReadBare(value + rest) == Quoted(value, rest)
  {
    WordLengthIs(value, rest, IsSpace);
    assert (value + rest)[..|value|] == value && (value + rest)[|value|..] == rest;
  }

  lemma QuotedValueReadsBack(value: string, escaped: seq<bool>, rest: string)
    requires Spells(InQuotes(escaped), value)
    ensures var text := WriteValue(value, InQuotes(escaped)) + rest;
            ReadValue(text) == Some(Quoted(value, rest)) && text != "" && text[0] == '\''
  {
    var behind := WriteQuoted(value, escaped) + rest;
    QuotedReadsBack(value, escaped, rest);
    assert WriteValue(value, InQuotes(escaped)) + rest == "'" + behind;
    assert ("'" + behind)[1..] == behind;
  }

  lemma BareValueReadsBack(value: string, rest: string)
    requires Spells(Bare, value) && (rest == "" || IsSpace(rest[0]))
    ensures var text := WriteValue(value, Bare) + rest;
            ReadValue(text) == Some(Quoted(value, rest)) && text != "" && text[0] == value[0]
  {
    BareReadsBack(value, rest);
  }

  lemma ValueReadsBack(value: string, spelling: Spelling, rest: string)
    requires Spells(spelling, value) || (spelling == Bare && value == "" && rest == "")
    requires spelling.Bare? ==> rest == "" || IsSpace(rest[0])
    ensures var text := WriteValue(value, spelling) + rest;
            ReadValue(text) == Some(Quoted(value, rest)) && (text == "" || !IsSpace(text[0]))
  {
    match spelling {
      case Bare =>
        if value != "" { BareValueReadsBack(value, rest); }
      case InQuotes(escaped) => QuotedValueReadsBack(value, escaped, rest);
    }
  }

  lemma AssignedReadsBack(before: string, after: string, text: string, q: Quoted)
    requires AllSpace(before) && AllSpace(after)
    requires ReadValue(text) == Some(q) && (text == "" || !IsSpace(text[0]))
    ensures ReadAssigned(before + ("=" + (after + text))) == Some(q)
  {
    LStripSkips(after, text);
    var behindEquals := after + text;
    LStripSpaced(before, "=" + behindEquals);
    assert ("=" + behindEquals)[1..] == behindEquals;
  }

  lemma PairReadsBack(key: string, behindKey: string, q: Quoted)
    requires IsKey(key) && behindKey != "" && NotKeyChar(behindKey[0]) && ReadAssigned(behindKey) == Some(q)
    ensures ReadPair(key + behindKey) == Some(Pair(Lower(key), q.value, q.rest))
  {
    WordLengthIs(key, behindKey, NotKeyChar);
    var s := key + behindKey;
    assert s[..|key|] == key && s[|key|..] == behindKey && s[0] == key[0];
  }

  lemma ItemReadsBack(it: Item, later: string, known: Keywords)
    requires ItemWritten(it, later == "")
    requires it.spelling.Bare? ==> later == "" || IsSpace(later[0])
    ensures ReadPairs(WriteItem(it, later), known) == ReadPairs(later, known[Lower(it.key) := it.value])
  {
    var text := WriteValue(it.value, it.spelling) + later;
    ValueReadsBack(it.value, it.spelling, later);
    var behindKey := it.before + ("=" + (it.after + text));
    AssignedReadsBack(it.before, it.after, text, Quoted(it.value, later));
    assert behindKey[0] == if it.before == "" then '=' else it.before[0];
    PairReadsBack(it.key, behindKey, Quoted(it.value, later));
    var pair := it.key + behindKey;
    assert pair[0] == it.key[0];
    LStripSpaced(it.lead, pair);
  }

  lemma WellWrittenTail(items: seq<Item>, trail: string)
    requires WellWritten(items, trail) && items != []
    ensures WellWritten(items[1..], trail) && ItemWritten(items[0], Write(items[1..], trail) == "")
    ensures var later := Write(items[1..], trail);
            items[0].spelling.Bare? ==> later == "" || IsSpace(later[0])
  {
    var rest := items[1..];
    assert forall i :: 0 <= i < |rest| ==> rest[i] == items[i + 1];
    if |items| > 1 && items[0].spelling.Bare? {
      assert items[0 + 1].lead != "";
    }
  }

  /** The scanner returns exactly the pairs that were written, whatever the quoting and the white space. */
  lemma {:induction false} WrittenPairsReadBack(items: seq<Item>, trail: string, known: Keywords)
    requires WellWritten(items, trail)
    ensures ReadPairs(Write(items, trail), known) == Some(Meaning(items, known))
    decreases |items|
  {
    if items == [] {
      LStripSkips(trail, "");
      assert trail + "" == trail;
    } else {
      var it, later := items[0], Write(items[1..], trail);
      WellWrittenTail(items, trail);
      ItemReadsBack(it, later, known);
      WrittenPairsReadBack(items[1..], trail, known[Lower(it.key) := it.value]);
    }
  }

  // ---- Whatever is accepted was written

  lemma {:induction false} QuotedIsWritten(s: string) returns (escaped: seq<bool>)
    requires ReadQuoted(s).Some?
    ensures var q := ReadQuoted(s).value;
            Spells(InQuotes(escaped), q.value) && s == WriteQuoted(q.value, escaped) + q.rest
  {
    var q := ReadQuoted(s).value;
    if s[0] == '\\' && |s| > 1 {
      var more := QuotedIsWritten(s[2..]);
      escaped := [true] + more;
      assert s == ['\\', s[1]] + s[2..];
      WriteMore(s[1], true, q.value, q.rest, more);
    } else if s[0] == '\'' {
      escaped := [];
    } else {
      var more := QuotedIsWritten(s[1..]);
      escaped := [false] + more;
      assert s == [s[0]] + s[1..];
      WriteMore(s[0], false, q.value, q.rest, more);
    }
  }

  lemma WriteMore(c: char, escape: bool, value: string, rest: string, escaped: seq<bool>)
    requires value != "" && value[0] == c && |escaped| == |value| - 1
    ensures WriteQuoted(value, [escape] + escaped) + rest ==
            (if escape then ['\\', c] else [c]) + (WriteQuoted(value[1..], escaped) + rest)
  {
    assert ([escape] + escaped)[1..] == escaped;
    AppendThree(if escape then ['\\', c] else [c], WriteQuoted(value[1..], escaped), rest);
  }

  lemma AppendThree(a: string, b: string, c: string)
    ensures (a + b) + c == a + (b + c)
  {}

  lemma ValueIsWritten(s: string) returns (spelling: Spelling)
    requires ReadValue(s).Some? && (s == "" || !IsSpace(s[0]))
    ensures var q := ReadValue(s).value;
            && (Spells(spelling, q.value) || (spelling == Bare && q.value == "" && q.rest == ""))
            && s == WriteValue(q.value, spelling) + q.rest
            && (spelling.Bare? ==> q.rest == "" || IsSpace(q.rest[0]))
  {
    if s != "" && s[0] == '\'' {
      var escaped := QuotedIsWritten(s[1..]);
      spelling := InQuotes(escaped);
      assert s == "'" + s[1..];
    } else {
      spelling := Bare;
    }
  }

  /** An equals sign, with a value behind it that reads as `q`. */
  ghost predicate Spelled(s: string, q: Quoted, before: string, after: string, spelling: Spelling) {
    && AllSpace(before) && AllSpace(after)
    && (Spells(spelling, q.value) || (spelling == Bare && q.value == "" && q.rest == ""))
    && (spelling.Bare? ==> q.rest == "" || IsSpace(q.rest[0]))
    && s == before + ("=" + (after + (WriteValue(q.value, spelling) + q.rest)))
  }

  lemma AssignedIsWritten(s: string) returns (before: string, after: string, spelling: Spelling)
    requires ReadAssigned(s).Some?
    ensures Spelled(s, ReadAssigned(s).value, before, after, spelling)
  {
    before := LStripLeaves(s);
    var behindEquals := LStrip(s)[1..];
    after := LStripLeaves(behindEquals);
    spelling := ValueIsWritten(LStrip(behindEquals));
    assert LStrip(s) == "=" + behindEquals;
  }

  ghost predicate PairWritten(s: string, p: Pair, it: Item) {
    && it.lead == "" && ItemWritten(it, p.rest == "") && Lower(it.key) == p.key && it.value == p.value
    && (it.spelling.Bare? ==> p.rest == "" || IsSpace(p.rest[0]))
    && s == WriteItem(it, p.rest)
  }

  lemma PairIsWritten(s: string) returns (it: Item)
    requires ReadPair(s).Some?
    ensures PairWritten(s, ReadPair(s).value, it)
  {
    var p, n := ReadPair(s).value, WordLength(s, NotKeyChar);
    KeyIsKey(s, n);
    var before, after, spelling := AssignedIsWritten(s[n..]);
    it := PairOfParts(s[..n], s[n..], ReadAssigned(s[n..]).value, before, after, spelling);
    assert s == s[..n] + s[n..];
  }

  lemma KeyIsKey(s: string, n: nat)
    requires s != "" && IsKeyStart(s[0]) && n == WordLength(s, NotKeyChar)
    ensures n <= |s| && IsKey(s[..n])
  {}

  lemma PairOfParts(key: string, behindKey: string, q: Quoted, before: string, after: string, spelling: Spelling)
    returns (it: Item)
    requires IsKey(key) && Spelled(behindKey, q, before, after, spelling)
    ensures PairWritten(key + behindKey, Pair(Lower(key), q.value, q.rest), it)
  {
    it := Item("", key, before, after, q.value, spelling);
    assert "" + (key + behindKey) == key + behindKey;
  }

  lemma WriteStarts(items: seq<Item>, trail: string)
    requires WellWritten(items, trail) && items != [] && items[0].lead == ""
    ensures Write(items, trail) != "" && !IsSpace(Write(items, trail)[0])
  {
    assert Write(items, trail)[0] == items[0].key[0];
  }

  lemma SomethingWritten(items: seq<Item>, trail: string)
    requires WellWritten(items, trail) && items != []
    ensures Write(items, trail) != ""
  {
    assert |Write(items, trail)| >= |items[0].key| > 0;
  }

  lemma WellWrittenMore(it: Item, items: seq<Item>, trail: string)
    requires WellWritten(items, trail) && ItemWritten(it, Write(items, trail) == "")
    requires it.spelling.Bare? ==> Write(items, trail) == "" || IsSpace(Write(items, trail)[0])
    ensures WellWritten([it] + items, trail) && Write([it] + items, trail) == WriteItem(it, Write(items, trail))
  {
    assert ([it] + items)[1..] == items;
    if items != [] {
      SomethingWritten(items, trail);
      if items[0].lead == "" {
        WriteStarts(items, trail);
      }
    }
  }

  /** White space, one pair, and more pairs are pairs again. */
  lemma MorePairs(lead: string, text: string, p: Pair, it: Item, more: seq<Item>, trail: string, known: Keywords)
    returns (items: seq<Item>)
    requires AllSpace(lead) && PairWritten(text, p, it)
    requires WellWritten(more, trail) && p.rest == Write(more, trail)
    ensures WellWritten(items, trail) && Write(items, trail) == lead + text
    ensures Meaning(items, known) == Meaning(more, known[p.key := p.value])
  {
    var first := it.(lead := lead);
    items := [first] + more;
    WellWrittenMore(first, more, trail);
    WithLead(it, lead, p.rest);
    assert items[1..] == more;
  }

  lemma WithLead(it: Item, lead: string, later: string)
    requires it.lead == "" && (it.spelling.InQuotes? ==> |it.spelling.escaped| == |it.value|)
    ensures WriteItem(it.(lead := lead), later) == lead + WriteItem(it, later)
  {
    var text := it.key + (it.before + ("=" + (it.after + (WriteValue(it.value, it.spelling) + later))));
    assert "" + text == text;
  }

  lemma {:induction false} PairsAreWritten(s: string, known: Keywords) returns (items: seq<Item>, trail: string)
    requires ReadPairs(s, known).Some?
    ensures WellWritten(items, trail) && s == Write(items, trail) && ReadPairs(s, known).value == Meaning(items, known)
    decreases |s|
  {
    var lead := LStripLeaves(s);
    var text := LStrip(s);
    if text == "" {
      items, trail := [], lead;
    } else {
      var p := ReadPair(text).value;
      var it := PairIsWritten(text);
      items, trail := PairsAreWritten(p.rest, known[p.key := p.value]);
      items := MorePairs(lead, text, p, it, items, trail, known);
    }
  }

  /** The text is these pairs written down, at least one, and this is what they mean. */
  ghost predicate Written(dsn: string, items: seq<Item>, trail: string, keywords: Keywords) {
    WellWritten(items, trail) && items != [] && dsn == Write(items, trail) && keywords == Meaning(items, map[])
  }

  lemma {:induction false} MeaningIsSomething(items: seq<Item>, known: Keywords)
    ensures known.Keys <= Meaning(items, known).Keys
    ensures items != [] ==> Lower(items[0].key) in Meaning(items, known)
  {
    if items != [] {
      MeaningIsSomething(items[1..], known[Lower(items[0].key) := items[0].value]);
    }
  }

  /** The scanner accepts a text exactly when it is some pairs written down, and returns what they mean. */
  lemma AcceptedIffWritten(dsn: string, keywords: Keywords)
    ensures ParseKeywords(dsn) == Some(keywords) <==> exists items, trail :: Written(dsn, items, trail, keywords)
  {
    if ParseKeywords(dsn) == Some(keywords) {
      var items, trail := PairsAreWritten(dsn, map[]);
      assert Written(dsn, items, trail, keywords);
    }
    if items, trail :| Written(dsn, items, trail, keywords) {
      WrittenPairsReadBack(items, trail, map[]);
      MeaningIsSomething(items, map[]);
    }
  }

  const LETTERS := "ABCDEFGHIJKLMNOPQRSTUVWXYZ" + "abcdefghijklmnopqrstuvwxyz"

  lemma IsLetter(c: char)
    ensures c in LETTERS <==> 'A' <= c <= 'Z' || 'a' <= c <= 'z'
  {
    var upper, lower := "ABCDEFGHIJKLMNOPQRSTUVWXYZ", "abcdefghijklmnopqrstuvwxyz";
    InRun(upper, 'A', c);
    InRun(lower, 'a', c);
    assert c in upper + lower <==> c in upper || c in lower;
  }

  /** The characters of a key, one by one. */
  lemma KeyCharacters(c: char)
    ensures IsKeyStart(c) <==> c in LETTERS || c == '_'
    ensures NotKeyChar(c) <==> !(c in LETTERS || c == '_' || c in "0123456789")
  {
    IsLetter(c);
    InRun("0123456789", '0', c);
  }

  lemma InRun(run: string, first: char, c: char)
    requires forall i :: 0 <= i < |run| ==> run[i] as int == first as int + i
    ensures c in run <==> first as int <= c as int < first as int + |run|
  {
    if first as int <= c as int < first as int + |run| {
      assert run[c as int - first as int] == c;
    }
  }
}
