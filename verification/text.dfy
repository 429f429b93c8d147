/** The string handling the pipeline relies on: decimal rendering and parsing
    of integers (`str(n)`, `int(s)`, `f"{n:02d}"`), `str.isdigit`,
    `str.lower` and `str.split(sep)[0]`, restricted to ASCII. */
module Text {
  import opened Wrappers

  predicate IsDigit(c: char) {
    '0' <= c <= '9'
  }

  /** Python's `s.isdigit()` on ASCII text: non-empty and every character a digit. */
  predicate IsDigits(s: string) {
    |s| > 0 && forall i :: 0 <= i < |s| ==> IsDigit(s[i])
  }

  function DigitValue(c: char): nat
    requires IsDigit(c)
  {
    (c as int - '0' as int) as nat
  }

  function DigitChar(d: nat): (c: char)
    requires d < 10
    ensures IsDigit(c) && DigitValue(c) == d
  {
    ('0' as int + d) as char
  }

  /** The number a run of decimal digits denotes; leading zeros are allowed, as in `int("007")`. */
  function DigitsValue(s: string): nat
    requires forall i :: 0 <= i < |s| ==> IsDigit(s[i])
  {
    if |s| == 0 then 0 else DigitsValue(s[..|s| - 1]) * 10 + DigitValue(s[|s| - 1])
  }

  /** `str(n)` for a natural number: shortest decimal rendering. */
  function NatToString(n: nat): string
  {
    if n < 10 then [DigitChar(n)] else NatToString(n / 10) + [DigitChar(n % 10)]
  }

  /** `str(i)` for any integer. */
  function IntToString(i: int): string
  {
    if i < 0 then "-" + NatToString(-i) else NatToString(i)
  }

  /** Python's `int(s)` restricted to an optional sign followed by ASCII
      digits; `None` stands for the `ValueError`.  `int` also accepts
      surrounding whitespace, underscores between digits and non-ASCII
      digits; those texts give `None` here. */
  function ParseInt(s: string): (r: Option<int>)
    ensures r.Some? <==> IsDigits(s) || (|s| > 0 && (s[0] == '-' || s[0] == '+') && IsDigits(s[1..]))
    ensures r.Some? && r.value < 0 ==> s[0] == '-'
    ensures IsDigits(s) ==> r == Some(DigitsValue(s))
    ensures |s| > 0 && s[0] == '-' && IsDigits(s[1..]) ==> r.Some? && r.value == -(DigitsValue(s[1..]) as int)
  {
    if |s| > 0 && (s[0] == '-' || s[0] == '+') then
      if IsDigits(s[1..]) then
        var v: int := DigitsValue(s[1..]);
        Some(if s[0] == '-' then -v else v)
      else None
    else if IsDigits(s) then Some(DigitsValue(s))
    else None
  }

  /** Rendering a number and reading it back yields the number. */
  lemma {:induction false} NatToStringRoundTrip(n: nat)
    ensures IsDigits(NatToString(n))
    ensures DigitsValue(NatToString(n)) == n
  {
    if n >= 10 {
      NatToStringRoundTrip(n / 10);
      var s := NatToString(n / 10) + [DigitChar(n % 10)];
      assert s[..|s| - 1] == NatToString(n / 10);
    }
  }

  lemma ParseIntRoundTrip(i: int)
    ensures ParseInt(IntToString(i)) == Some(i)
  {
    if i < 0 {
      NatToStringRoundTrip(-i);
      assert IntToString(i)[1..] == NatToString(-i);
    } else {
      NatToStringRoundTrip(i);
    }
  }

  /** Python's `f"{i:02d}"`: at least two characters, zero-filled after the sign. */
  function ZeroPad2(i: int): (r: string)
    ensures |r| >= 2
    ensures ParseInt(r) == Some(i)
    ensures 0 <= i < 100 ==> |r| == 2 && IsDigits(r)
  {
    ParseIntRoundTrip(i);
    if i < 0 then
      NatToStringRoundTrip(-i);
      "-" + NatToString(-i)
    else if i < 10 then
      NatToStringRoundTrip(i);
      var r := "0" + NatToString(i);
      assert r == ['0', DigitChar(i)];
      assert r[..|r| - 1] == "0";
      assert DigitsValue("0") == 0 by { assert "0"[..0] == ""; }
      r
    else
      NatToStringRoundTrip(i);
      NatToString(i)
  }

  function LowerChar(c: char): char {
    if 'A' <= c <= 'Z' then (c as int - 'A' as int + 'a' as int) as char else c
  }

  /** `s.lower()` on ASCII letters; other characters are kept as they are. */
  function Lower(s: string): (r: string)
    ensures |r| == |s|
    ensures forall i :: 0 <= i < |s| ==> r[i] == LowerChar(s[i])
  {
    if |s| == 0 then "" else [LowerChar(s[0])] + Lower(s[1..])
  }

  /** `s.split(sep)[0]`: the text before the first `sep`, or all of `s`. */
  function SplitHead(s: string, sep: char): (r: string)
    ensures r <= s
    ensures sep !in r
    ensures |r| < |s| ==> s[|r|] == sep
  {
    if |s| == 0 || s[0] == sep then "" else [s[0]] + SplitHead(s[1..], sep)
  }

  /** Text `int()` accepts holds no `':'`. */
  lemma ParsedHasNoColon(s: string)
    requires ParseInt(s).Some?
    ensures ':' !in s
  {
  }

  /** Splitting `head + [sep] + tail` at the first `sep` gives `head` back
      when `head` holds no `sep`. */
  lemma {:induction false} SplitHeadOfJoin(head: string, sep: char, tail: string)
    requires sep !in head
    ensures SplitHead(head + [sep] + tail, sep) == head
  {
    if |head| > 0 {
      SplitHeadOfJoin(head[1..], sep, tail);
      assert (head + [sep] + tail)[1..] == head[1..] + [sep] + tail;
    }
  }
}
