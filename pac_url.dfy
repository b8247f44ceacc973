/**
 * The URL the PAC server publishes, `UpdatePACURL`: the configured local host,
 * the PAC port, the path `/pac`, a `hash` parameter carrying the MD5 digest of
 * the PAC script as a URL token, and, when the secure local PAC option is on,
 * a `secret` parameter with the cached secret.
 */
module PacUrl {
  import opened Bytes
  import opened Decimal
  import opened Text
  import opened Encodings
  import opened UrlToken
  import opened PacRequest

  /** The number of random octets a secret is made of. */
  const SecretOctets: nat := 32

  /** The number of octets an MD5 digest has. */
  const DigestOctets: nat := 16

  /**
   * `GetHash`: the digest of the script's ASCII octets, as a URL token. The
   * digest function is a parameter.
   */
  function GetHash(content: string, md5: seq<byte> -> seq<byte>): (h: string)
    ensures IsUrlToken(h)
  {
    UrlTokenEncode(md5(Ascii(content)))
  }

  function SecretParameter(secure: bool, secret: string): string {
    if secure then "&secret=" + secret else ""
  }

  function PacQuery(hash: string, secure: bool, secret: string): string {
    "?hash=" + hash + SecretParameter(secure, secret)
  }

  /** The path and query of the published URL. */
  function PacPath(hash: string, secure: bool, secret: string): string {
    "/" + ResourceName + PacQuery(hash, secure, secret)
  }

  function PacUrlText(localHost: string, pacPort: int, hash: string, secure: bool, secret: string): string {
    "http://" + localHost + ":" + IntToString(pacPort) + PacPath(hash, secure, secret)
  }

  // ---- Properties ------------------------------------------------------

  /**
   * The hash is computed on ASCII octets, so the script's non-ASCII characters
   * count only as `?`s, one per UTF-16 code unit: scripts that differ only in
   * which non-ASCII character of the same plane class stands somewhere get
   * the same hash.
   */
  lemma HashBlindToNonAscii(a: string, c1: char, c2: char, b: string, md5: seq<byte> -> seq<byte>)
    requires c1 as int >= 0x80 && c2 as int >= 0x80 && InOneCodeUnit(c1) == InOneCodeUnit(c2)
    ensures GetHash(a + [c1] + b, md5) == GetHash(a + [c2] + b, md5)
  {
    AsciiOfChar(c1);
    AsciiOfChar(c2);
    AsciiAround(a, c1, b);
    AsciiAround(a, c2, b);
  }

  /**
   * A character above U+FFFF and one below it give ASCII inputs of different
   * lengths, so what the digest sees is not the same.
   */
  lemma HashInputSeesCodeUnits(a: string, c1: char, c2: char, b: string)
    requires InOneCodeUnit(c1) && !InOneCodeUnit(c2)
    ensures |Ascii(a + [c2] + b)| == |Ascii(a + [c1] + b)| + 1
  {
    AsciiOfChar(c1);
    AsciiOfChar(c2);
    AsciiAround(a, c1, b);
    AsciiAround(a, c2, b);
  }

  lemma AsciiAround(a: string, c: char, b: string)
    ensures Ascii(a + [c] + b) == Ascii(a) + Ascii([c]) + Ascii(b)
  {
    AsciiOfConcat(a + [c], b);
    AsciiOfConcat(a, [c]);
  }

  /** A URL token contains no space, no line separator, no `?` and no `&`. */
  lemma UrlTokenIsPlain(s: string)
    requires IsUrlToken(s)
    ensures NoneIn(s, Space) && NoneIn(s, LineSeparators) && '?' !in s && '&' !in s
  {
    assert forall i :: 0 <= i < |s| ==> IsUrlTokenChar(s[i]);
  }

  /** The published URL is the scheme, the authority a `Host` header repeats, and the path. */
  lemma PacUrlAuthority(localHost: string, pacPort: int, hash: string, secure: bool, secret: string)
    ensures PacUrlText(localHost, pacPort, hash, secure, secret) ==
      "http://" + EndPointText(LocalEndPoint(localHost, pacPort, false)) + PacPath(hash, secure, secret)
  {
  }

  /**
   * The query carries a `&`, the start of the secret parameter, exactly when
   * the secret is required.
   */
  lemma SecretParameterIff(hash: string, secure: bool, secret: string)
    requires IsUrlToken(hash) && IsUrlToken(secret)
    ensures '&' in PacQuery(hash, secure, secret) <==> secure
    ensures secure ==> Contains(PacQuery(hash, secure, secret), secret)
  {
    var q := PacQuery(hash, secure, secret);
    UrlTokenIsPlain(hash);
    UrlTokenIsPlain(secret);
    if secure {
      assert q[6 + |hash|] == '&';
      assert q == "?hash=" + hash + "&secret=" + secret + "";
      ContainsInMiddle("?hash=" + hash + "&secret=", secret, "");
    } else {
      assert q == "?hash=" + hash;
      assert forall i :: 0 <= i < |q| ==> q[i] == if i < 6 then "?hash="[i] else hash[i - 6];
    }
  }

  /** The path and query have no line separators and no space. */
  lemma PacPathPlain(hash: string, secure: bool, secret: string)
    requires IsUrlToken(hash) && IsUrlToken(secret)
    ensures NoneIn(PacQuery(hash, secure, secret), LineSeparators + Space)
    ensures NoneIn(PacPath(hash, secure, secret), LineSeparators + Space)
  {
    var seps := LineSeparators + Space;
    UrlTokenIsPlain(hash);
    UrlTokenIsPlain(secret);
    assert NoneIn("?hash=", seps) && NoneIn("&secret=", seps) && NoneIn("/pac", seps);
    assert NoneIn(hash, seps) && NoneIn(secret, seps);
    NoneInConcat("?hash=", hash, seps);
    if secure {
      NoneInConcat("&secret=", secret, seps);
      NoneInConcat("?hash=" + hash, "&secret=" + secret, seps);
    } else {
      assert PacQuery(hash, secure, secret) == "?hash=" + hash;
    }
    NoneInConcat("/pac", PacQuery(hash, secure, secret), seps);
    assert PacPath(hash, secure, secret) == "/pac" + PacQuery(hash, secure, secret);
  }

  /** The path names the PAC resource and its query starts at the `?` after `/pac`. */
  lemma PacPathTarget(hash: string, secure: bool, secret: string)
    requires IsUrlToken(hash) && IsUrlToken(secret)
    ensures var t := PacPath(hash, secure, secret);
      PacTarget(t) && NoneIn(t, LineSeparators) && t[QueryStart(t)..] == PacQuery(hash, secure, secret)
  {
    var t := PacPath(hash, secure, secret);
    var q := PacQuery(hash, secure, secret);
    assert t == "/pac" + ['?'] + q[1..];
    IndexOfPrefix("/pac", '?', q[1..]);
    assert QueryStart(t) == 4;
    assert t[1..4] == "pac";
    PacPathPlain(hash, secure, secret);
    assert NoneIn(t, Space) && NoneIn(t, LineSeparators) by {
      assert forall i :: 0 <= i < |t| ==> t[i] !in LineSeparators + Space;
    }
  }

  /**
   * The URL the server publishes is one it answers: a `GET` of its path and
   * query, with a `Host` header naming the socket's end point, is served,
   * whether or not the secret is required.
   */
  lemma PublishedUrlServed(hash: string, secure: bool, secret: string, v: string, endpoint: string)
    requires IsUrlToken(hash) && IsUrlToken(secret)
    requires NoneIn(v, Space) && NoneIn(v, LineSeparators)
    requires endpoint != [] && NoWhiteSpace(endpoint)
    ensures Decide(RequestText("GET", PacPath(hash, secure, secret), v, endpoint), secure, secret, endpoint) == Serve
  {
    var t := PacPath(hash, secure, secret);
    PacPathTarget(hash, secure, secret);
    SecretParameterIff(hash, secure, secret);
    GetRequestDecision(t, v, endpoint, secure, secret);
  }

  /**
   * With the secret required, the URL published without it is dropped when
   * the secret is longer than the query, as a 32-octet secret is next to a
   * 16-octet digest.
   */
  lemma UrlWithoutSecretDropped(hash: string, secret: string, v: string, endpoint: string)
    requires IsUrlToken(hash) && IsUrlToken(secret) && |secret| > 6 + |hash|
    requires NoneIn(v, Space) && NoneIn(v, LineSeparators)
    requires endpoint != [] && NoWhiteSpace(endpoint)
    ensures Decide(RequestText("GET", PacPath(hash, false, ""), v, endpoint), true, secret, endpoint) == Drop
  {
    var t := PacPath(hash, false, "");
    PacPathTarget(hash, false, "");
    GetRequestDecision(t, v, endpoint, true, secret);
    assert !Contains(PacQuery(hash, false, ""), secret);
  }

  /** The lengths that make `UrlWithoutSecretDropped` apply to the real secret and hash. */
  lemma SecretOutgrowsQuery(random: seq<byte>, digest: seq<byte>)
    requires |random| == SecretOctets && |digest| == DigestOctets
    ensures |UrlTokenEncode(random)| == 44 && |UrlTokenEncode(digest)| == 23
    ensures |UrlTokenEncode(random)| > 6 + |UrlTokenEncode(digest)|
  {
    UrlTokenLength(random);
    UrlTokenLength(digest);
  }
}
