/**
 * The .NET string operations the PAC server relies on, stated as functions on
 * `string` (a sequence of Unicode scalar values; `InOneCodeUnit` tells the
 * characters .NET stores as one UTF-16 code unit): `Split` on a set of
 * separator characters, `Split(sep, 2)`, `IndexOf`, `LastIndexOf`, ordinal
 * `Contains`, `Trim` and the ordinal ignore-case comparison.
 */
module Text {

  /**
   * .NET strings are sequences of UTF-16 code units: a character above U+FFFF
   * takes two of them, a surrogate pair. Where the source counts or removes
   * code units, the model asks whether a character takes one.
   */
  predicate InOneCodeUnit(c: char) {
    c as int < 0x1_0000
  }

  /** No character of `s` is in `seps`. */
  predicate NoneIn(s: string, seps: set<char>) {
    forall i :: 0 <= i < |s| ==> s[i] !in seps
  }

  lemma NoneInConcat(a: string, b: string, seps: set<char>)
    requires NoneIn(a, seps) && NoneIn(b, seps)
    ensures NoneIn(a + b, seps)
  {
    assert forall i :: 0 <= i < |a + b| ==> (a + b)[i] == if i < |a| then a[i] else b[i - |a|];
  }

  /** The number of characters of `s` that are in `seps`. */
  function CountIn(s: string, seps: set<char>): nat {
    if s == [] then 0 else (if s[0] in seps then 1 else 0) + CountIn(s[1..], seps)
  }

  /** `s` with the characters in `seps` taken out. */
  function Without(s: string, seps: set<char>): string {
    if s == [] then [] else (if s[0] in seps then [] else [s[0]]) + Without(s[1..], seps)
  }

  /** The pieces, concatenated. */
  function Concat(pieces: seq<string>): string {
    if pieces == [] then [] else pieces[0] + Concat(pieces[1..])
  }

  /**
   * `s.Split(seps)` without options: the pieces between the separators,
   * empty pieces kept, so there is always one piece more than separators.
   */
  function Split(s: string, seps: set<char>): (r: seq<string>)
    ensures |r| == CountIn(s, seps) + 1
    ensures forall k :: 0 <= k < |r| ==> NoneIn(r[k], seps)
    ensures Concat(r) == Without(s, seps)
  {
    if s == [] then [""]
    else
      var rest := Split(s[1..], seps);
      if s[0] in seps then [""] + rest
      else [[s[0]] + rest[0]] + rest[1..]
  }

  lemma {:induction false} SplitNoSeparator(s: string, seps: set<char>)
    requires NoneIn(s, seps)
    ensures Split(s, seps) == [s]
  {
    if s != [] {
      SplitNoSeparator(s[1..], seps);
      assert [s[0]] + s[1..] == s;
    }
  }

  /** Splitting at the first separator: the two equations determine `Split`. */
  lemma {:induction false} SplitAtSeparator(a: string, c: char, b: string, seps: set<char>)
    requires NoneIn(a, seps) && c in seps
    ensures Split(a + [c] + b, seps) == [a] + Split(b, seps)
  {
    if a == [] {
      assert a + [c] + b == [c] + b;
      assert ([c] + b)[1..] == b;
    } else {
      SplitAtSeparator(a[1..], c, b, seps);
      assert (a + [c] + b)[1..] == a[1..] + [c] + b;
      assert [a[0]] + a[1..] == a;
    }
  }

  /** `Split` yields a single piece exactly when there is no separator. */
  lemma SplitSingleIff(s: string, seps: set<char>)
    ensures |Split(s, seps)| == 1 <==> NoneIn(s, seps)
  {
    if NoneIn(s, seps) {
      SplitNoSeparator(s, seps);
    } else {
      var i :| 0 <= i < |s| && s[i] in seps;
      CountInPositive(s, seps, i);
    }
  }

  lemma {:induction false} CountInPositive(s: string, seps: set<char>, i: nat)
    requires i < |s| && s[i] in seps
    ensures CountIn(s, seps) > 0
  {
    if i > 0 {
      CountInPositive(s[1..], seps, i - 1);
    }
  }

  /** The pieces with `c` between each two of them. */
  function Join(pieces: seq<string>, c: char): string
    requires |pieces| >= 1
  {
    if |pieces| == 1 then pieces[0] else pieces[0] + [c] + Join(pieces[1..], c)
  }

  /** Splitting on one separator loses nothing: joining the pieces with it gives the text back. */
  lemma {:induction false} JoinSplit(s: string, c: char)
    ensures Join(Split(s, {c}), c) == s
  {
    if s != [] {
      var rest := Split(s[1..], {c});
      JoinSplit(s[1..], c);
      if s[0] == c {
        assert Split(s, {c}) == [""] + rest;
        assert s == [c] + s[1..];
      } else {
        var r := Split(s, {c});
        assert r == [[s[0]] + rest[0]] + rest[1..];
        if |rest| > 1 {
          assert r[1..] == rest[1..];
        }
        assert s == [s[0]] + s[1..];
      }
    }
  }

  /** The index of the first `c` in `s`, or -1 (`String.IndexOf(char)`). */
  function IndexOf(s: string, c: char): (r: int)
    ensures -1 <= r < |s|
    ensures r == -1 <==> c !in s
    ensures r >= 0 ==> s[r] == c && c !in s[..r]
  {
    if s == [] then -1
    else if s[0] == c then 0
    else
      var k := IndexOf(s[1..], c);
      assert s[1..][..if k < 0 then 0 else k] == s[1..1 + if k < 0 then 0 else k];
      if k < 0 then -1 else k + 1
  }

  /** The index of the last `c` in `s`, or -1 (`String.LastIndexOf(char)`). */
  function LastIndexOf(s: string, c: char): (r: int)
    ensures -1 <= r < |s|
    ensures r == -1 <==> c !in s
    ensures r >= 0 ==> s[r] == c && c !in s[r + 1..]
  {
    if s == [] then -1
    else
      var t := s[1..];
      var k := LastIndexOf(t, c);
      if k >= 0 then
        assert s[k + 1] == t[k];
        assert s[k + 2..] == t[k + 1..];
        k + 1
      else if s[0] == c then
        assert s[1..] == t;
        0
      else
        assert s == [s[0]] + t;
        -1
  }

  /** `LastIndexOf` finds the `c` that no later `c` follows. */
  lemma LastIndexOfAt(s: string, c: char, k: int)
    requires 0 <= k < |s| && s[k] == c
    requires forall j :: k < j < |s| ==> s[j] != c
    ensures LastIndexOf(s, c) == k
  {
  }

  lemma {:induction false} IndexOfPrefix(a: string, c: char, b: string)
    requires c !in a
    ensures IndexOf(a + [c] + b, c) == |a|
  {
    if a != [] {
      IndexOfPrefix(a[1..], c, b);
      assert (a + [c] + b)[1..] == a[1..] + [c] + b;
      assert (a + [c] + b)[0] == a[0];
    }
  }

  lemma {:induction false} LastIndexOfSuffix(a: string, c: char, b: string)
    requires c !in b
    ensures LastIndexOf(a + [c] + b, c) == |a|
  {
    if a == [] {
      assert (a + [c] + b)[1..] == b;
    } else {
      LastIndexOfSuffix(a[1..], c, b);
      assert (a + [c] + b)[1..] == a[1..] + [c] + b;
    }
  }

  /**
   * `s.Split(new[] { c }, 2)`: one piece when `c` does not occur, otherwise the
   * text before the first `c` and everything after it.
   */
  function SplitFirst(s: string, c: char): (r: seq<string>)
    ensures |r| == 1 <==> c !in s
    ensures |r| == 1 || |r| == 2
    ensures |r| == 1 ==> r[0] == s
    ensures |r| == 2 ==> c !in r[0] && s == r[0] + [c] + r[1]
  {
    var i := IndexOf(s, c);
    if i < 0 then [s]
    else
      assert s == s[..i] + [c] + s[i + 1..];
      [s[..i], s[i + 1..]]
  }

  /** `sub` occurs in `s` at position `i`. */
  predicate OccursAt(s: string, sub: string, i: nat) {
    i + |sub| <= |s| && s[i..i + |sub|] == sub
  }

  /** Ordinal `s.Contains(sub)`; the empty string is contained in every string. */
  predicate Contains(s: string, sub: string) {
    exists i: nat | i <= |s| :: OccursAt(s, sub, i)
  }

  lemma ContainsInMiddle(a: string, sub: string, b: string)
    ensures Contains(a + sub + b, sub)
  {
    assert (a + sub + b)[|a|..|a| + |sub|] == sub;
    assert OccursAt(a + sub + b, sub, |a|);
  }

  /**
   * `Char.IsWhiteSpace`: the space, line and paragraph separators of Unicode
   * and the control characters U+0009 to U+000D and U+0085.
   */
  predicate IsWhiteSpace(c: char) {
    var n := c as int;
    (0x09 <= n <= 0x0D) || n == 0x20 || n == 0x85 || n == 0xA0 || n == 0x1680 ||
    (0x2000 <= n <= 0x200A) || n == 0x2028 || n == 0x2029 || n == 0x202F ||
    n == 0x205F || n == 0x3000
  }

  predicate AllWhiteSpace(s: string) {
    forall i :: 0 <= i < |s| ==> IsWhiteSpace(s[i])
  }

  predicate NoWhiteSpace(s: string) {
    forall i :: 0 <= i < |s| ==> !IsWhiteSpace(s[i])
  }

  /** `s.TrimStart()`: the longest suffix that does not begin with white space. */
  function TrimStart(s: string): (r: string)
    ensures r == [] || !IsWhiteSpace(r[0])
    ensures |r| <= |s| && r == s[|s| - |r|..] && AllWhiteSpace(s[..|s| - |r|])
  {
    if s == [] || !IsWhiteSpace(s[0]) then s
    else
      var r := TrimStart(s[1..]);
      assert s[..|s| - |r|] == [s[0]] + s[1..][..|s| - 1 - |r|];
      r
  }

  /** `s.TrimEnd()`: the longest prefix that does not end with white space. */
  function TrimEnd(s: string): (r: string)
    ensures r == [] || !IsWhiteSpace(r[|r| - 1])
    ensures |r| <= |s| && r == s[..|r|] && AllWhiteSpace(s[|r|..])
  {
    if s == [] || !IsWhiteSpace(s[|s| - 1]) then s
    else
      var r := TrimEnd(s[..|s| - 1]);
      assert s[|r|..] == s[..|s| - 1][|r|..] + [s[|s| - 1]];
      r
  }

  /** `s.Trim()`: white space removed at both ends. */
  function Trim(s: string): string {
    TrimEnd(TrimStart(s))
  }

  lemma {:induction false} TrimStartOfWhiteSpace(w: string, m: string)
    requires AllWhiteSpace(w) && (m == [] || !IsWhiteSpace(m[0]))
    ensures TrimStart(w + m) == m
    decreases |w|
  {
    if w == [] {
      assert w + m == m;
    } else {
      assert (w + m)[1..] == w[1..] + m;
      TrimStartOfWhiteSpace(w[1..], m);
    }
  }

  lemma {:induction false} TrimEndOfWhiteSpace(m: string, w: string)
    requires AllWhiteSpace(w) && (m == [] || !IsWhiteSpace(m[|m| - 1]))
    ensures TrimEnd(m + w) == m
    decreases |w|
  {
    if w == [] {
      assert m + w == m;
    } else {
      var s := m + w;
      assert s[|s| - 1] == w[|w| - 1];
      assert s[..|s| - 1] == m + w[..|w| - 1];
      TrimEndOfWhiteSpace(m, w[..|w| - 1]);
    }
  }

  /** `Trim` takes off exactly the white space around a text that has none at its ends. */
  lemma TrimAround(w1: string, m: string, w2: string)
    requires AllWhiteSpace(w1) && AllWhiteSpace(w2)
    requires m == [] || (!IsWhiteSpace(m[0]) && !IsWhiteSpace(m[|m| - 1]))
    ensures Trim(w1 + m + w2) == m
  {
    if m == [] {
      assert w1 + m + w2 == w1 + w2;
      assert AllWhiteSpace(w1 + w2);
      TrimStartOfWhiteSpace(w1 + w2, []);
      assert w1 + w2 + [] == w1 + w2;
      TrimEndOfWhiteSpace([], []);
    } else {
      assert w1 + m + w2 == w1 + (m + w2);
      TrimStartOfWhiteSpace(w1, m + w2);
      TrimEndOfWhiteSpace(m, w2);
    }
  }

  /** The simple upper-case mapping of the ASCII letters. */
  function UpperAscii(c: char): char {
    if 'a' <= c <= 'z' then (c as int - 32) as char else c
  }

  /**
   * `String.Equals(a, b, StringComparison.OrdinalIgnoreCase)` for texts whose
   * letters are ASCII: equal lengths and equal upper-cased characters.
   */
  predicate EqualsIgnoreCase(a: string, b: string) {
    |a| == |b| && forall i :: 0 <= i < |a| ==> UpperAscii(a[i]) == UpperAscii(b[i])
  }

  /** Some line from index 1 up to, not including, `n` satisfies `p`; scanned from the end. */
  predicate SomeLine(lines: seq<string>, p: string -> bool, n: int)
    requires 1 <= n <= |lines|
    decreases n
  {
    n > 1 && (SomeLine(lines, p, n - 1) || p(lines[n - 1]))
  }

  lemma {:induction false} SomeLineIff(lines: seq<string>, p: string -> bool, n: int)
    requires 1 <= n <= |lines|
    ensures SomeLine(lines, p, n) <==> exists i :: 1 <= i < n && p(lines[i])
    decreases n
  {
    if n > 1 {
      SomeLineIff(lines, p, n - 1);
      if !p(lines[n - 1]) && exists i :: 1 <= i < n && p(lines[i]) {
        var i :| 1 <= i < n && p(lines[i]);
        assert i < n - 1;
      }
    }
  }
}
