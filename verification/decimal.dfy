/**
 Decimal text of non-negative integers, as Python's `str(int)` (and an f-string
 `{n}`) writes them: no sign, no leading zero, "0" for zero. The parser is the
 model's own inverse, used to state that the display labels lose nothing.
 */
module Decimal {

  import opened Optional

  predicate IsDigit(c: char) {
    '0' <= c <= '9'
  }

  predicate AllDigits(s: string) {
    forall i :: 0 <= i < |s| ==> IsDigit(s[i])
  }

  /** The form Python prints: at least one digit, and a leading '0' only for zero itself. */
  predicate Canonical(s: string) {
    |s| >= 1 && AllDigits(s) && (s[0] == '0' ==> |s| == 1)
  }

  function DigitChar(d: nat): (c: char)
    requires d < 10
    ensures IsDigit(c)
  {
    ('0' as int + d) as char
  }

  function DigitValue(c: char): (d: nat)
    requires IsDigit(c)
    ensures d < 10
  {
    c as int - '0' as int
  }

  /** The decimal digits of `n`, most significant first. */
  function Show(n: nat): (s: string)
    ensures Canonical(s)
    decreases n
  {
    if n < 10 then [DigitChar(n)] else Show(n / 10) + [DigitChar(n % 10)]
  }

  /** The number a string of digits denotes. */
  function Value(s: string): (n: nat)
    requires AllDigits(s)
    decreases |s|
  {
    if |s| == 0 then 0 else Value(s[..|s| - 1]) * 10 + DigitValue(s[|s| - 1])
  }

  function Parse(s: string): (r: Option<nat>)
    ensures r.Some? <==> Canonical(s)
  {
    if Canonical(s) then Some(Value(s)) else None
  }

  lemma {:induction false} ValueOfShow(n: nat)
    ensures Value(Show(n)) == n
    decreases n
  {
    if n >= 10 {
      var s := Show(n);
      assert s[..|s| - 1] == Show(n / 10);
      ValueOfShow(n / 10);
    }
  }

  lemma {:induction false} ValuePositive(s: string)
    requires |s| >= 1 && AllDigits(s) && s[0] != '0'
    ensures Value(s) >= 1
    decreases |s|
  {
    if |s| > 1 {
      ValuePositive(s[..|s| - 1]);
    }
  }

  lemma {:induction false} ShowOfValue(s: string)
    requires Canonical(s)
    ensures Show(Value(s)) == s
    decreases |s|
  {
    if |s| > 1 {
      var p := s[..|s| - 1];
      assert Canonical(p);
      ValuePositive(p);
      ShowOfValue(p);
      assert s == p + [s[|s| - 1]];
    }
  }

  /** Printing then parsing gives the number back. */
  lemma ParseShow(n: nat)
    ensures Parse(Show(n)) == Some(n)
  {
    ValueOfShow(n);
  }

  /** Parsing succeeds exactly on printed numbers, and printing the result restores the text. */
  lemma ShowParse(s: string)
    ensures Parse(s).Some? ==> Show(Parse(s).value) == s
  {
    if Canonical(s) {
      ShowOfValue(s);
    }
  }
}
