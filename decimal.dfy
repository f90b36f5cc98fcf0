/** Ruby's `Integer#to_s` in base 10, which renders the commit timestamp, and the
    reading of such a text back into the integer. */
module Decimal {

  import opened Options

  predicate IsDigit(c: char) {
    '0' <= c <= '9'
  }

  predicate AllDigits(s: string) {
    forall i :: 0 <= i < |s| ==> IsDigit(s[i])
  }

  function DigitChar(n: nat): (c: char)
    requires n < 10
    ensures IsDigit(c)
  {
    ('0' as int + n) as char
  }

  /** The value of a digit string, most significant digit first. */
  function DigitsValue(s: string): nat
    requires AllDigits(s)
    decreases |s|
  {
    if s == [] then 0
    else DigitsValue(s[..|s| - 1]) * 10 + (s[|s| - 1] as int - '0' as int)
  }

  /** The decimal digits of `n`, without leading zeros. */
  function NaturalText(n: nat): (r: string)
    ensures 1 <= |r| && AllDigits(r)
    ensures r[0] == '0' ==> n == 0 && r == "0"
    decreases n
  {
    if n < 10 then [DigitChar(n)] else NaturalText(n / 10) + [DigitChar(n % 10)]
  }

  /** `n.to_s`: a minus sign for a negative number, then the digits of its magnitude. */
  function IntegerText(n: int): (r: string)
    ensures 1 <= |r|
    ensures r[0] == '-' <==> n < 0
    ensures forall i :: 0 <= i < |r| ==> IsDigit(r[i]) || (i == 0 && r[i] == '-')
  {
    if n < 0 then "-" + NaturalText(-n) else NaturalText(n)
  }

  /** Reads an optionally signed run of decimal digits. */
  function ParseInteger(s: string): (r: Option<int>)
    ensures r.Some? ==> 1 <= |s|
  {
    if s == [] then None
    else if s[0] == '-' then
      if 1 < |s| && AllDigits(s[1..]) then Some(0 - DigitsValue(s[1..])) else None
    else if AllDigits(s) then Some(DigitsValue(s))
    else None
  }

  lemma {:induction false} NaturalTextValue(n: nat)
    ensures DigitsValue(NaturalText(n)) == n
    decreases n
  {
    var r := NaturalText(n);
    if n >= 10 {
      NaturalTextValue(n / 10);
      assert r[..|r| - 1] == NaturalText(n / 10);
    }
  }

  /** Round trip: the rendered timestamp reads back as the same number of seconds. */
  lemma IntegerTextRoundTrip(n: int)
    ensures ParseInteger(IntegerText(n)) == Some(n)
  {
    var r := IntegerText(n);
    if n < 0 {
      assert r[1..] == NaturalText(-n);
      NaturalTextValue(-n);
    } else {
      NaturalTextValue(n);
    }
  }
}
