/**
 * `Int32.ToString()` with the invariant culture: an optional minus sign and
 * the decimal digits without leading zeros. `ParseInt` reads such a text
 * back; it is the left inverse the round-trip lemmas use.
 */
module Decimal {
  import opened Wrappers

  predicate IsDigit(c: char) {
    '0' <= c <= '9'
  }

  predicate AllDigits(s: string) {
    forall i :: 0 <= i < |s| ==> IsDigit(s[i])
  }

  function DigitChar(d: nat): (c: char)
    requires d < 10
    ensures IsDigit(c) && c as int - '0' as int == d
  {
    ('0' as int + d) as char
  }

  /** The decimal text of a natural number. */
  function NatToString(n: nat): (r: string)
    ensures r != [] && AllDigits(r)
    ensures r[0] == '0' ==> n == 0
  {
    if n < 10 then [DigitChar(n)] else NatToString(n / 10) + [DigitChar(n % 10)]
  }

  /** The decimal text of an integer, with a leading `-` when it is negative. */
  function IntToString(i: int): (r: string)
    ensures r != [] && ':' !in r && ';' !in r && ' ' !in r && '?' !in r
    ensures i >= 0 <==> AllDigits(r)
  {
    if i < 0 then
      var r := "-" + NatToString(-i);
      assert r[0] == '-';
      r
    else NatToString(i)
  }

  /** The value of a sequence of digits, most significant first. */
  function DigitsValue(s: string): nat
    requires AllDigits(s)
  {
    if s == [] then 0 else DigitsValue(s[..|s| - 1]) * 10 + (s[|s| - 1] as int - '0' as int)
  }

  /** An optional minus sign followed by at least one digit. */
  function ParseInt(s: string): Option<int> {
    if s == [] then None
    else if s[0] == '-' then
      if |s| > 1 && AllDigits(s[1..]) then Some(-(DigitsValue(s[1..]) as int)) else None
    else if AllDigits(s) then Some(DigitsValue(s))
    else None
  }

  lemma {:induction false} DigitsValueOfNat(n: nat)
    ensures DigitsValue(NatToString(n)) == n
  {
    if n >= 10 {
      var s := NatToString(n);
      assert s[..|s| - 1] == NatToString(n / 10);
      DigitsValueOfNat(n / 10);
    }
  }

  /** Reading back the text of an integer gives the integer. */
  lemma ParseIntToString(i: int)
    ensures ParseInt(IntToString(i)) == Some(i)
  {
    var r := IntToString(i);
    if i < 0 {
      var n := NatToString(-i);
      DigitsValueOfNat(-i);
      assert r == "-" + n;
      assert r[0] == '-' && r[1..] == n;
    } else {
      DigitsValueOfNat(i);
      assert r == NatToString(i);
      assert r[0] != '-' by {
        assert IsDigit(r[0]);
      }
    }
  }

  /** Distinct integers have distinct texts. */
  lemma IntToStringInjective(a: int, b: int)
    requires IntToString(a) == IntToString(b)
    ensures a == b
  {
    ParseIntToString(a);
    ParseIntToString(b);
  }
}
