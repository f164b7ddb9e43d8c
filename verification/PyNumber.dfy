/** Decimal numbers as text: `str(n)` and `int(s)`. */
module PyNumber {
  import opened PyText

  function Digit(d: nat): char
    requires d < 10
  {
    ('0' as int + d) as char
  }

  predicate IsDigit(c: char) { '0' <= c <= '9' }

  /** `str(n)` of a number that is not negative. */
  function Digits(n: nat): (s: string)
    ensures s != "" && forall i :: 0 <= i < |s| ==> IsDigit(s[i])
  {
    if n < 10 then [Digit(n)] else Digits(n / 10) + [Digit(n % 10)]
  }

  /** `str(n)`. */
  function Str(n: int): string {
    if n < 0 then "-" + Digits(-n) else Digits(n)
  }

  /** Digits, with single underscores allowed between two of them. */
  function DigitsValue(s: string, value: nat, afterDigit: bool): Option<nat> {
    if s == "" then (if afterDigit then Some(value) else None)
    else if IsDigit(s[0]) then DigitsValue(s[1..], 10 * value + (s[0] as int - '0' as int), true)
    else if s[0] == '_' && afterDigit then DigitsValue(s[1..], value, false)
    else None
  }

  /** `int(s)`: None stands for the ValueError. */
  function Int(text: string): Option<int> {
    var s := Strip(text);
    var signed := s != "" && (s[0] == '-' || s[0] == '+');
    match DigitsValue(if signed then s[1..] else s, 0, false)
    case None => None
    case Some(v) => Some(if signed && s[0] == '-' then 0 - v else v)
  }

  lemma {:induction false} DigitsValueAppend(s: string, d: nat, value: nat, afterDigit: bool)
    requires s != "" && forall i :: 0 <= i < |s| ==> IsDigit(s[i])
    requires d < 10
    ensures DigitsValue(s, value, afterDigit).Some?
    ensures DigitsValue(s + [Digit(d)], value, afterDigit)
         == Some(10 * DigitsValue(s, value, afterDigit).value + d)
  {
    var v := 10 * value + (s[0] as int - '0' as int);
    assert (s + [Digit(d)])[1..] == s[1..] + [Digit(d)];
    if |s| == 1 {
      assert s[1..] == "";
      assert DigitsValue([Digit(d)], v, true) == DigitsValue([Digit(d)][1..], 10 * v + d, true);
      assert [Digit(d)][1..] == "";
    } else {
      DigitsValueAppend(s[1..], d, v, true);
    }
  }

  lemma {:induction false} DigitsRoundTrip(n: nat)
    ensures DigitsValue(Digits(n), 0, false) == Some(n)
  {
    if n < 10 {
      assert Digits(n)[1..] == "";
    } else {
      DigitsRoundTrip(n / 10);
      DigitsValueAppend(Digits(n / 10), n % 10, 0, false);
    }
  }

  lemma StripIsIdentity(s: string)
    requires s != "" && !IsSpace(s[0]) && !IsSpace(s[|s| - 1])
    ensures Strip(s) == s
  {
    assert LStrip(s) == s;
  }

  /** `int` reads back what `str` printed. */
  lemma IntStr(n: int)
    ensures Int(Str(n)) == Some(n)
  {
    var s := Str(n);
    var m := if n < 0 then -n else n;
    DigitsRoundTrip(m);
    StripIsIdentity(s);
    if n < 0 {
      assert s[1..] == Digits(m);
    }
  }
}
