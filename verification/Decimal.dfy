/** Decimal text of integers, and Rust's integer parser. */
module Decimal {
  import opened Basics

  predicate IsDigit(c: char) { '0' <= c <= '9' }

  predicate AllDigits(s: string) { forall i :: 0 <= i < |s| ==> IsDigit(s[i]) }

  function DigitChar(d: int): (c: char)
    requires 0 <= d < 10
    ensures IsDigit(c) && DigitOf(c) == d
  {
    '0' + (d as char)
  }

  function DigitOf(c: char): (d: int)
    requires IsDigit(c)
    ensures 0 <= d < 10
  {
    (c - '0') as int
  }

  /** `to_string` of an unsigned integer. */
  function NatText(n: nat): (s: string)
    ensures s != [] && AllDigits(s)
  {
    if n < 10 then [DigitChar(n)] else NatText(n / 10) + [DigitChar(n % 10)]
  }

  /** `to_string` of a signed integer. */
  function IntText(n: int): (s: string)
    ensures s != []
  {
    if n < 0 then "-" + NatText(-n) else NatText(n)
  }

  /** The number a digit string denotes. */
  function DigitsValue(s: string): (n: nat)
    requires AllDigits(s)
  {
    if s == [] then 0 else DigitsValue(s[..|s| - 1]) * 10 + DigitOf(s[|s| - 1])
  }

  lemma {:induction false} NatTextValue(n: nat)
    ensures DigitsValue(NatText(n)) == n
  {
    if n < 10 {
      assert NatText(n)[..0] == [];
    } else {
      NatTextValue(n / 10);
      assert NatText(n)[..|NatText(n)| - 1] == NatText(n / 10);
    }
  }

  /** The text of a number has no leading zero. */
  lemma {:induction false} NatTextNoLeadingZero(n: nat)
    ensures |NatText(n)| > 1 ==> NatText(n)[0] != '0'
    ensures n > 0 ==> NatText(n)[0] != '0'
  {
    if n >= 10 { NatTextNoLeadingZero(n / 10); }
  }

  /** ... and it is the only text of that number without one. */
  lemma {:induction false} NatTextUnique(s: string)
    requires s != [] && AllDigits(s)
    requires |s| > 1 ==> s[0] != '0'
    ensures NatText(DigitsValue(s)) == s
  {
    var front, last := s[..|s| - 1], s[|s| - 1];
    if front == [] {
      assert DigitsValue(front) == 0;
      assert s == [last];
      DigitCharOfDigit(last);
    } else {
      NatTextUnique(front);
      PositiveDigits(front);
      var n := DigitsValue(front);
      assert DigitsValue(s) == n * 10 + DigitOf(last);
      assert DigitsValue(s) / 10 == n && DigitsValue(s) % 10 == DigitOf(last);
      DigitCharOfDigit(last);
      assert s == front + [last];
    }
  }

  lemma DigitCharOfDigit(c: char)
    requires IsDigit(c)
    ensures DigitChar(DigitOf(c)) == c
  {
  }

  lemma {:induction false} PositiveDigits(s: string)
    requires s != [] && AllDigits(s) && s[0] != '0'
    ensures DigitsValue(s) > 0
  {
    if |s| > 1 { PositiveDigits(s[..|s| - 1]); }
  }

  /** `str::parse` for an integer type with the given range: an optional sign, at least one digit, in range. */
  function ParseInt(s: string, signed: bool, lo: int, hi: int): (r: Option<int>)
    ensures r.Some? ==> lo <= r.value <= hi
  {
    if s == [] then None
    else if s[0] == '-' && signed then InRange(s[1..], true, lo, hi)
    else if s[0] == '+' then InRange(s[1..], false, lo, hi)
    else InRange(s, false, lo, hi)
  }

  function InRange(digits: string, negative: bool, lo: int, hi: int): (r: Option<int>)
  {
    if digits == [] || !AllDigits(digits) then None
    else
      var m: int := DigitsValue(digits);
      var n := if negative then -m else m;
      if lo <= n <= hi then Some(n) else None
  }

  /** Printing then parsing gives the integer back, whenever it is in range and signs agree. */
  lemma {:induction false} ParseIntText(n: int, signed: bool, lo: int, hi: int)
    requires lo <= n <= hi
    requires signed || 0 <= lo
    ensures ParseInt(IntText(n), signed, lo, hi) == Some(n)
  {
    var m := if n < 0 then -n else n;
    var digits := NatText(m);
    NatTextValue(m);
    assert InRange(digits, n < 0, lo, hi) == Some(n);
    if n < 0 {
      assert IntText(n)[1..] == digits;
    } else {
      assert IsDigit(digits[0]);
    }
  }

  lemma IntTextInjective(a: int, b: int)
    requires IntText(a) == IntText(b)
    ensures a == b
  {
    var lo := if a < b then a else b;
    var hi := if a < b then b else a;
    ParseIntText(a, true, lo, hi);
    ParseIntText(b, true, lo, hi);
  }
}
