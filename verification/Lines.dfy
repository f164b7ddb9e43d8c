/** Lines of a text: `str.splitlines`, and which line a character is on. */
module Lines {
  import opened PyText

  function LineLength(t: string): (e: nat)
    ensures e <= |t|
  {
    WordLength(t, IsLineBreak)
  }

  /** The length of the line break behind the first line: none at the end, and CR LF is one. */
  function BreakLength(t: string): (k: nat)
    ensures LineLength(t) + k <= |t| && (k == 0 <==> LineLength(t) == |t|)
  {
    var e := LineLength(t);
    if e == |t| then 0 else if t[e] == '\r' && e + 1 < |t| && t[e + 1] == '\n' then 2 else 1
  }

  function FirstLine(t: string): string { t[..LineLength(t)] }

  function RestLines(t: string): string { t[LineLength(t) + BreakLength(t)..] }

  /** `str.splitlines()`. */
  function SplitLines(t: string): (lines: seq<string>)
    ensures forall line :: line in lines ==> NoLineBreak(line)
    decreases |t|
  {
    if t == "" then [] else
      assert LineLength(t) + BreakLength(t) > 0;
      [FirstLine(t)] + SplitLines(RestLines(t))
  }

  // ---- Which line a character is on

  lemma BehindTheBreak(t: string, pos: nat)
    requires LineLength(t) <= pos < |t| && !IsLineBreak(t[pos])
    ensures LineLength(t) + BreakLength(t) <= pos
    ensures RestLines(t)[pos - LineLength(t) - BreakLength(t)] == t[pos]
  {}

  datatype Place = Place(row: nat, column: nat)

  function Locate(t: string, pos: nat): Place
    requires pos < |t| && !IsLineBreak(t[pos])
    decreases |t|
  {
    var e := LineLength(t);
    if pos < e then Place(0, pos)
    else
      BehindTheBreak(t, pos);
      var below := Locate(RestLines(t), pos - e - BreakLength(t));
      Place(below.row + 1, below.column)
  }

  /** `line` is a whole line of the text, between `before` and `after`. */
  ghost predicate IsLineBetween(before: string, line: string, after: string) {
    && NoLineBreak(line)
    && (before == "" || IsLineBreak(before[|before| - 1]))
    && (after == "" || IsLineBreak(after[0]))
  }

  lemma FirstLineBetween(t: string)
    ensures t == "" + FirstLine(t) + t[LineLength(t)..]
    ensures IsLineBetween("", FirstLine(t), t[LineLength(t)..])
  {}

  lemma LineFurtherDown(t: string, before: string, line: string, after: string)
    requires LineLength(t) < |t| && RestLines(t) == before + line + after && IsLineBetween(before, line, after)
    ensures var skipped := t[..|t| - |RestLines(t)|];
            t == skipped + before + line + after && IsLineBetween(skipped + before, line, after)
  {
    var skipped := t[..|t| - |RestLines(t)|];
    assert t == skipped + RestLines(t);
    assert IsLineBreak(skipped[|skipped| - 1]);
  }

  /** The place of a character is its column on the whole line around it. */
  lemma {:induction false} LocateIsRight(t: string, pos: nat) returns (before: string, after: string)
    requires pos < |t| && !IsLineBreak(t[pos])
    ensures Locate(t, pos).row < |SplitLines(t)|
    ensures t == before + SplitLines(t)[Locate(t, pos).row] + after
    ensures IsLineBetween(before, SplitLines(t)[Locate(t, pos).row], after)
    ensures |before| + Locate(t, pos).column == pos < |before| + |SplitLines(t)[Locate(t, pos).row]|
    decreases |t|
  {
    if pos < LineLength(t) {
      FirstLineBetween(t);
      before, after := "", t[LineLength(t)..];
    } else {
      BehindTheBreak(t, pos);
      var skipped := |t| - |RestLines(t)|;
      before, after := LocateIsRight(RestLines(t), pos - skipped);
      LineFurtherDown(t, before, SplitLines(RestLines(t))[Locate(RestLines(t), pos - skipped).row], after);
      before := t[..skipped] + before;
    }
  }

  // ---- Counting newlines instead

  /** `t.count("\n")`. */
  function Newlines(t: string): nat {
    if t == "" then 0 else (if t[0] == '\n' then 1 else 0) + Newlines(t[1..])
  }

  lemma {:induction false} NewlinesAppend(a: string, b: string)
    ensures Newlines(a + b) == Newlines(a) + Newlines(b)
  {
    if a == "" {
      assert a + b == b;
    } else {
      NewlinesAppend(a[1..], b);
      assert (a + b)[1..] == a[1..] + b;
    }
  }

  lemma {:induction false} NoNewlines(t: string)
    requires NoLineBreak(t)
    ensures Newlines(t) == 0
  {
    if t != "" {
      NoNewlines(t[1..]);
    }
  }

  /** A line break that is neither a newline nor the carriage return of a CR LF. */
  predicate BareBreak(t: string, i: nat)
    requires i < |t|
  {
    IsLineBreak(t[i]) && t[i] != '\n' && !(t[i] == '\r' && i + 1 < |t| && t[i + 1] == '\n')
  }

  predicate OnlyNewlines(t: string, pos: nat)
    requires pos <= |t|
  {
    forall i :: 0 <= i < pos ==> !BareBreak(t, i)
  }

  lemma NewlinesInBreak(t: string, e: nat)
    requires e == LineLength(t) < |t|
    ensures Newlines(t[e..e + BreakLength(t)]) == if BareBreak(t, e) then 0 else 1
  {
    assert Newlines("") == 0;
    if BreakLength(t) == 2 {
      assert t[e..e + 2] == ['\r', '\n'] && ['\r', '\n'][1..] == ['\n'] && ['\n'][1..] == "";
      assert Newlines(['\n']) == 1;
    } else {
      assert t[e..e + 1] == [t[e]] && [t[e]][1..] == "";
    }
  }

  lemma OnlyNewlinesOfLine(t: string)
    requires LineLength(t) < |t|
    ensures OnlyNewlines(t, LineLength(t) + BreakLength(t)) <==> !BareBreak(t, LineLength(t))
  {
    assert forall i :: 0 <= i < LineLength(t) ==> !IsLineBreak(t[i]);
  }

  lemma FirstBreak(t: string)
    requires LineLength(t) < |t|
    ensures var k := LineLength(t) + BreakLength(t);
            Newlines(t[..k]) == if OnlyNewlines(t, k) then 1 else 0
  {
    var e := LineLength(t);
    var k := e + BreakLength(t);
    NoNewlines(t[..e]);
    NewlinesInBreak(t, e);
    OnlyNewlinesOfLine(t);
    assert t[..k] == t[..e] + t[e..k];
    NewlinesAppend(t[..e], t[e..k]);
  }

  lemma OnlyNewlinesSplit(t: string, k: nat, pos: nat)
    requires k <= pos <= |t|
    ensures OnlyNewlines(t, pos) <==> OnlyNewlines(t, k) && OnlyNewlines(t[k..], pos - k)
  {
    forall i | k <= i < pos ensures BareBreak(t, i) <==> BareBreak(t[k..], i - k) {
      assert t[k..][i - k] == t[i];
    }
    if OnlyNewlines(t, k) && OnlyNewlines(t[k..], pos - k) {
      forall i | 0 <= i < pos ensures !BareBreak(t, i) {
        if i >= k { assert !BareBreak(t[k..], i - k); }
      }
    }
    if OnlyNewlines(t, pos) {
      forall i | 0 <= i < pos - k ensures !BareBreak(t[k..], i) { assert !BareBreak(t, i + k); }
    }
  }

  /** The newlines up to a position behind the first line break. */
  lemma NewlinesBehind(t: string, k: nat, pos: nat)
    requires k <= pos <= |t|
    ensures Newlines(t[..pos]) == Newlines(t[..k]) + Newlines(t[k..][..pos - k])
  {
    assert t[..pos] == t[..k] + t[k..][..pos - k];
    NewlinesAppend(t[..k], t[k..][..pos - k]);
  }

  /** Counting newlines before a character gives its row exactly when no other kind of line break comes before it. */
  lemma {:induction false} NewlinesGiveRow(t: string, pos: nat)
    requires pos < |t| && !IsLineBreak(t[pos])
    ensures Newlines(t[..pos]) <= Locate(t, pos).row
    ensures Newlines(t[..pos]) == Locate(t, pos).row <==> OnlyNewlines(t, pos)
    decreases |t|
  {
    if pos < LineLength(t) {
      NoNewlines(t[..pos]);
    } else {
      BehindTheBreak(t, pos);
      var k := LineLength(t) + BreakLength(t);
      FirstBreak(t);
      NewlinesGiveRow(RestLines(t), pos - k);
      NewlinesBehind(t, k, pos);
      OnlyNewlinesSplit(t, k, pos);
    }
  }
}
