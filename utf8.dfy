/**
 * `Encoding.UTF8.GetBytes` and `Encoding.ASCII.GetBytes` on texts of
 * Unicode scalar values.
 */
module Encodings {
  import opened Bytes
  import opened Text

  /** The UTF-8 form of one scalar value: one to four octets. */
  function Utf8Char(c: char): (r: seq<byte>)
    ensures 1 <= |r| <= 4
    ensures |r| == 1 <==> c as int < 0x80
    ensures c as int < 0x80 ==> r == [c as int]
  {
    var n := c as int;
    if n < 0x80 then [n]
    else if n < 0x800 then [0xC0 + n / 0x40, 0x80 + n % 0x40]
    else if n < 0x1_0000 then [0xE0 + n / 0x1000, 0x80 + (n / 0x40) % 0x40, 0x80 + n % 0x40]
    else [0xF0 + n / 0x4_0000, 0x80 + (n / 0x1000) % 0x40, 0x80 + (n / 0x40) % 0x40, 0x80 + n % 0x40]
  }

  /** `Encoding.UTF8.GetBytes(s)`. */
  function Utf8(s: string): (r: seq<byte>)
    ensures |r| >= |s|
  {
    if s == [] then [] else Utf8Char(s[0]) + Utf8(s[1..])
  }

  predicate IsAscii(s: string) {
    forall i :: 0 <= i < |s| ==> s[i] as int < 0x80
  }

  /** UTF-8 encodes a concatenation piece by piece. */
  lemma {:induction false} Utf8Append(a: string, b: string)
    ensures Utf8(a + b) == Utf8(a) + Utf8(b)
  {
    if a != [] {
      assert (a + b)[0] == a[0];
      assert (a + b)[1..] == a[1..] + b;
      Utf8Append(a[1..], b);
    } else {
      assert a + b == b;
    }
  }

  /** An ASCII text is its own UTF-8 form, one octet per character. */
  lemma {:induction false} Utf8OfAscii(s: string)
    requires IsAscii(s)
    ensures |Utf8(s)| == |s|
    ensures forall i :: 0 <= i < |s| ==> Utf8(s)[i] == s[i] as int
  {
    if s != [] {
      Utf8OfAscii(s[1..]);
    }
  }

  /** Only an ASCII text has as many UTF-8 octets as characters. */
  lemma {:induction false} Utf8LongerUnlessAscii(s: string)
    requires !IsAscii(s)
    ensures |Utf8(s)| > |s|
  {
    if s[0] as int < 0x80 {
      Utf8LongerUnlessAscii(s[1..]);
    }
  }

  /**
   * What `Encoding.ASCII` writes for one character: its code when it is
   * ASCII, otherwise the replacement `?` (0x3F) once per UTF-16 code unit, so
   * twice for a character above U+FFFF.
   */
  function AsciiChar(c: char): (r: seq<byte>)
    ensures |r| == if InOneCodeUnit(c) then 1 else 2
    ensures c as int < 0x80 ==> r == [c as int]
    ensures c as int >= 0x80 ==> forall i :: 0 <= i < |r| ==> r[i] == 0x3F
  {
    if c as int < 0x80 then [c as int]
    else if InOneCodeUnit(c) then [0x3F]
    else [0x3F, 0x3F]
  }

  /** `Encoding.ASCII.GetBytes(s)`: at least one octet per character, and only ASCII octets. */
  function Ascii(s: string): (r: seq<byte>)
    ensures |r| >= |s|
    ensures forall i :: 0 <= i < |r| ==> r[i] < 0x80
  {
    if s == [] then [] else AsciiChar(s[0]) + Ascii(s[1..])
  }

  /** The ASCII encoder works character by character. */
  lemma {:induction false} AsciiOfConcat(a: string, b: string)
    ensures Ascii(a + b) == Ascii(a) + Ascii(b)
  {
    if a != [] {
      assert (a + b)[0] == a[0] && (a + b)[1..] == a[1..] + b;
      AsciiOfConcat(a[1..], b);
    } else {
      assert a + b == b;
    }
  }

  /**
   * Without characters above U+FFFF there is one octet per character: the
   * character's code when it is ASCII, `?` otherwise.
   */
  lemma {:induction false} AsciiOfOneCodeUnitText(s: string)
    requires forall i :: 0 <= i < |s| ==> InOneCodeUnit(s[i])
    ensures |Ascii(s)| == |s|
    ensures forall i :: 0 <= i < |s| ==> Ascii(s)[i] == if s[i] as int < 0x80 then s[i] as int else 0x3F
  {
    if s != [] {
      AsciiOfOneCodeUnitText(s[1..]);
      assert forall i :: 1 <= i < |s| ==> Ascii(s)[i] == Ascii(s[1..])[i - 1];
    }
  }

  /** A text of one character is encoded as that character alone. */
  lemma AsciiOfChar(c: char)
    ensures Ascii([c]) == AsciiChar(c)
  {
    assert [c][1..] == [];
  }
}
