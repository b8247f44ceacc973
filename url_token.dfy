/**
 * `Convert.ToBase64String` (RFC 4648, section 4) and the URL-token form
 * `HttpServerUtility.UrlTokenEncode` makes of it: the `=` padding at the end
 * is taken off, `+` becomes `-`, `/` becomes `_`, and one decimal digit giving
 * the number of padding characters taken off is appended. An empty input
 * gives the empty text.
 */
module UrlToken {
  import opened Bytes
  import Decimal

  predicate IsBase64Digit(c: char) {
    ('A' <= c <= 'Z') || ('a' <= c <= 'z') || ('0' <= c <= '9') || c == '+' || c == '/'
  }

  /** The characters `UrlTokenEncode` can produce: letters, digits, `-` and `_`. */
  predicate IsUrlTokenChar(c: char) {
    ('A' <= c <= 'Z') || ('a' <= c <= 'z') || ('0' <= c <= '9') || c == '-' || c == '_'
  }

  predicate IsUrlToken(s: string) {
    forall i :: 0 <= i < |s| ==> IsUrlTokenChar(s[i])
  }

  /** The base-64 digit of a six-bit value. */
  function Digit(v: int): (c: char)
    requires 0 <= v < 64
    ensures IsBase64Digit(c)
  {
    if v < 26 then ('A' as int + v) as char
    else if v < 52 then ('a' as int + v - 26) as char
    else if v < 62 then ('0' as int + v - 52) as char
    else if v == 62 then '+'
    else '/'
  }

  /** The base-64 digits of `b`, three octets to four digits, without padding. */
  function Base64Digits(b: seq<byte>): (r: string)
    ensures |r| == (4 * |b| + 2) / 3
    ensures forall i :: 0 <= i < |r| ==> IsBase64Digit(r[i])
  {
    if |b| == 0 then ""
    else if |b| == 1 then [Digit(b[0] / 4), Digit(b[0] % 4 * 16)]
    else if |b| == 2 then [Digit(b[0] / 4), Digit(b[0] % 4 * 16 + b[1] / 16), Digit(b[1] % 16 * 4)]
    else
      [Digit(b[0] / 4), Digit(b[0] % 4 * 16 + b[1] / 16), Digit(b[1] % 16 * 4 + b[2] / 64), Digit(b[2] % 64)]
      + Base64Digits(b[3..])
  }

  /** The `=` characters that complete the last group of four. */
  function Padding(n: nat): string {
    if n % 3 == 1 then "==" else if n % 3 == 2 then "=" else ""
  }

  /** `Convert.ToBase64String(b)`. */
  function ToBase64(b: seq<byte>): string {
    Base64Digits(b) + Padding(|b|)
  }

  /** The number of `=` characters at the end of `s`. */
  function TrailingPads(s: string): (n: nat)
    ensures n <= |s|
  {
    if s == [] || s[|s| - 1] != '=' then 0 else 1 + TrailingPads(s[..|s| - 1])
  }

  function UrlChar(c: char): char {
    if c == '+' then '-' else if c == '/' then '_' else c
  }

  function UrlChars(s: string): (r: string)
    ensures |r| == |s|
    ensures forall i :: 0 <= i < |s| ==> r[i] == UrlChar(s[i])
  {
    if s == [] then [] else [UrlChar(s[0])] + UrlChars(s[1..])
  }

  /** The padding of `ToBase64(b)` is exactly what `TrailingPads` counts. */
  lemma TrailingPadsOfBase64(b: seq<byte>)
    requires |b| > 0
    ensures TrailingPads(ToBase64(b)) == |Padding(|b|)|
  {
    var d := Base64Digits(b);
    var s := ToBase64(b);
    assert d[|d| - 1] != '=' by { assert IsBase64Digit(d[|d| - 1]); }
    if |b| % 3 == 1 {
      var s1 := s[..|s| - 1];
      assert s1 == d + "=";
      assert s1[..|s1| - 1] == d;
      assert TrailingPads(d) == 0;
      assert TrailingPads(s1) == 1;
    } else if |b| % 3 == 2 {
      assert s[..|s| - 1] == d;
    } else {
      assert s == d;
    }
  }

  /** `HttpServerUtility.UrlTokenEncode(b)`. */
  function UrlTokenEncode(b: seq<byte>): (r: string)
    ensures r == "" <==> |b| == 0
    ensures IsUrlToken(r)
  {
    if |b| == 0 then ""
    else
      var s := ToBase64(b);
      var end := |s| - TrailingPads(s);
      TrailingPadsOfBase64(b);
      assert s[..end] == Base64Digits(b);
      UrlChars(s[..end]) + [Decimal.DigitChar(|s| - end)]
  }

  /** A non-empty input of `n` octets gives `ceil(4n/3)` digits and the pad count. */
  lemma UrlTokenLength(b: seq<byte>)
    requires |b| > 0
    ensures |UrlTokenEncode(b)| == (4 * |b| + 2) / 3 + 1
  {
    var s := ToBase64(b);
    var end := |s| - TrailingPads(s);
    TrailingPadsOfBase64(b);
    assert s[..end] == Base64Digits(b);
  }
}
