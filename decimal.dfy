/**
  * Python's `str(n)` for a non-negative integer: its decimal digits, most
  * significant first, without leading zeros, and "0" for zero. `Parse` reads
  * such a digit string back.
  */
module Decimal {

  predicate IsDigit(c: char) {
    '0' <= c <= '9'
  }

  predicate AllDigits(s: string) {
    forall k :: 0 <= k < |s| ==> IsDigit(s[k])
  }

  /** What `str` produces: digits only, at least one, no leading zero unless the
      whole string is "0". */
  predicate Canonical(s: string) {
    |s| >= 1 && AllDigits(s) && (|s| == 1 || s[0] != '0')
  }

  function DigitChar(d: nat): (c: char)
    requires d < 10
    ensures IsDigit(c) && c as int - '0' as int == d
  {
    ('0' as int + d) as char
  }

  function DigitValue(c: char): (d: nat)
    requires IsDigit(c)
    ensures d < 10 && DigitChar(d) == c
  {
    c as int - '0' as int
  }

  /** `str(n)` for `n >= 0`. */
  function Str(n: nat): (s: string)
    ensures Canonical(s)
    ensures n < 10 <==> |s| == 1
  {
    if n < 10 then [DigitChar(n)] else Str(n / 10) + [DigitChar(n % 10)]
  }

  /** The value of a string of decimal digits, most significant first. */
  function Parse(s: string): nat
    requires AllDigits(s)
  {
    if |s| == 0 then 0 else Parse(s[..|s| - 1]) * 10 + DigitValue(s[|s| - 1])
  }

  /** Reading `str(n)` back gives `n`. */
  lemma {:induction false} ParseStr(n: nat)
    ensures Parse(Str(n)) == n
  {
    var s := Str(n);
    if n >= 10 {
      ParseStr(n / 10);
      assert s[..|s| - 1] == Str(n / 10);
    }
  }

  /** A canonical digit string is `str` of its value, so `Str` and `Parse`
      are inverse bijections between naturals and canonical strings. */
  lemma {:induction false} StrParse(s: string)
    requires Canonical(s)
    ensures Str(Parse(s)) == s
  {
    var init := s[..|s| - 1];
    if |s| == 1 {
      assert Parse(s) == DigitValue(s[0]);
    } else {
      assert Canonical(init);
      StrParse(init);
      var v := Parse(init);
      assert Parse(s) / 10 == v && Parse(s) % 10 == DigitValue(s[|s| - 1]);
    }
  }
}
