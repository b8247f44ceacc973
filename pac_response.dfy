/**
 * The answer the PAC server sends: the proxy directive built from the
 * socket's own local end point, the body that assigns it to `__PROXY__`
 * ahead of the PAC script, and the HTTP/1.1 200 head whose
 * `Content-Length` (section 3.3.2 of RFC 7230) is the number of UTF-8 octets
 * of that body. The head is a verbatim literal in a file with CRLF line
 * ends, so its lines end in CR LF.
 */
module PacResponse {
  import opened Bytes
  import opened Wrappers
  import opened Decimal
  import opened Text
  import opened Encodings
  import opened PacRequest

  function ProxyKind(useSocks: bool): string {
    if useSocks then "SOCKS5" else "PROXY"
  }

  /**
   * `GetProxyAddress`: `PROXY` or `SOCKS5`, a space, the local address and
   * the configured local proxy port (not the PAC port), and a semicolon.
   */
  function ProxyDirective(e: LocalEndPoint, useSocks: bool, localPort: int): string {
    ProxyKind(useSocks) + " " + AddressText(e) + ":" + IntToString(localPort) + ";"
  }

  /** The first line of the body, without its line feed. */
  function ProxyLine(proxy: string): string {
    "var __PROXY__ = '" + proxy + "';"
  }

  /** The body: the `__PROXY__` line, a line feed, and the PAC script as it is. */
  function ResponseBody(proxy: string, pacContent: string): string {
    ProxyLine(proxy) + "\n" + pacContent
  }

  /** The media type of a proxy auto-config script. */
  const PacMediaType := "application/x-ns-proxy-autoconfig"

  function ResponseHead(version: string, contentLength: int): string {
    "HTTP/1.1 200 OK\r\n" +
    "Server: ShadowsocksWindows/" + version + "\r\n" +
    "Content-Type: " + PacMediaType + "\r\n" +
    "Content-Length: " + IntToString(contentLength) + "\r\n" +
    "Connection: Close\r\n" +
    "\r\n"
  }

  /** The octets sent: the head and the body, encoded as UTF-8 together. */
  function ResponseBytes(version: string, proxy: string, pacContent: string): seq<byte> {
    var body := ResponseBody(proxy, pacContent);
    Utf8(ResponseHead(version, |Utf8(body)|) + body)
  }

  // ---- Properties ------------------------------------------------------

  /** The first space of a directive ends its kind. */
  lemma DirectiveSpace(kind: string, host: string, port: string)
    requires ' ' !in kind
    ensures IndexOf(kind + " " + host + ":" + port + ";", ' ') == |kind|
  {
    var d := kind + " " + host + ":" + port + ";";
    var tail := host + ":" + port + ";";
    assert d == kind + [' '] + tail;
    IndexOfPrefix(kind, ' ', tail);
  }

  /** The last colon of a directive follows its address. */
  lemma DirectiveColon(kind: string, host: string, port: string)
    requires ':' !in port
    ensures LastIndexOf(kind + " " + host + ":" + port + ";", ':') == |kind| + 1 + |host|
  {
    ColonFollowsAddress(kind, host, port);
    LastIndexOfAt(kind + " " + host + ":" + port + ";", ':', |kind| + 1 + |host|);
  }

  lemma ColonFollowsAddress(kind: string, host: string, port: string)
    requires ':' !in port
    ensures var d := kind + " " + host + ":" + port + ";";
      var k := |kind| + 1 + |host|;
      k < |d| && d[k] == ':' && forall j :: k < j < |d| ==> d[j] != ':'
  {
    var d := kind + " " + host + ":" + port + ";";
    var k := |kind| + 1 + |host|;
    forall j | k < j < |d|
      ensures d[j] != ':'
    {
      if j < |d| - 1 {
        assert d[j] == port[j - k - 1];
      }
    }
  }

  lemma DirectiveSlices(kind: string, host: string, port: string)
    ensures var d := kind + " " + host + ":" + port + ";";
      d[..|kind|] == kind && d[|kind| + 1..|kind| + 1 + |host|] == host &&
      d[|kind| + 2 + |host|..|d| - 1] == port && d[|d| - 1] == ';'
  {
    var x1 := kind + " ";
    var x2 := x1 + host;
    var x3 := x2 + ":";
    var x4 := x3 + port;
    // the port, between the last colon and the semicolon
    SliceOfSecond(x3, port);
    SliceInPrefix(x4, ";", |x3|, |x4|);
    // the address, between the space and the colon
    SliceOfSecond(x1, host);
    SliceInPrefix(x2, ":", |x1|, |x2|);
    SliceInPrefix(x3, port, |x1|, |x2|);
    SliceInPrefix(x4, ";", |x1|, |x2|);
    // the kind, before the space
    SliceInPrefix(x1, host, 0, |kind|);
    SliceInPrefix(x2, ":", 0, |kind|);
    SliceInPrefix(x3, port, 0, |kind|);
    SliceInPrefix(x4, ";", 0, |kind|);
    assert x1[0..|kind|] == kind;
  }

  lemma SliceOfSecond(x: string, y: string)
    ensures (x + y)[|x|..|x| + |y|] == y
  {
  }

  lemma SliceInPrefix(x: string, y: string, i: int, j: int)
    requires 0 <= i <= j <= |x|
    ensures (x + y)[i..j] == x[i..j]
  {
  }

  /** A directive splits at its first space and its last colon into kind, address and port. */
  lemma SplitDirective(kind: string, host: string, port: string)
    requires ' ' !in kind && ':' !in port
    ensures var d := kind + " " + host + ":" + port + ";";
      var i := IndexOf(d, ' ');
      var k := LastIndexOf(d, ':');
      i == |kind| && d[..i] == kind && k == |kind| + 1 + |host| && d[i + 1..k] == host &&
      d[k + 1..|d| - 1] == port && d[|d| - 1] == ';'
  {
    DirectiveSpace(kind, host, port);
    DirectiveColon(kind, host, port);
    DirectiveSlices(kind, host, port);
  }

  /**
   * The directive can be taken apart again: the kind up to the first space,
   * the address up to the last colon, then the port, then the closing
   * semicolon.
   */
  lemma DirectiveParts(e: LocalEndPoint, useSocks: bool, localPort: int)
    ensures var d := ProxyDirective(e, useSocks, localPort);
      var i := IndexOf(d, ' ');
      var k := LastIndexOf(d, ':');
      d[|d| - 1] == ';' && i == |ProxyKind(useSocks)| && d[..i] == ProxyKind(useSocks) &&
      i < k && d[i + 1..k] == AddressText(e) && ParseInt(d[k + 1..|d| - 1]) == Some(localPort)
  {
    var kind := ProxyKind(useSocks);
    assert ' ' !in kind;
    SplitDirective(kind, AddressText(e), IntToString(localPort));
    ParseIntToString(localPort);
  }

  lemma ProxyDirectiveOfKind(e: LocalEndPoint, useSocks: bool, localPort: int)
    ensures ProxyDirective(e, useSocks, localPort) ==
      ProxyKind(useSocks) + (" " + AddressText(e) + ":" + IntToString(localPort) + ";")
  {
    RegroupAfterFirst(ProxyKind(useSocks), " ", AddressText(e), ":", IntToString(localPort), ";");
  }

  lemma RegroupAfterFirst(a: string, b: string, c: string, d: string, e: string, f: string)
    ensures a + b + c + d + e + f == a + (b + c + d + e + f)
  {
  }

  lemma KindPrefix(kind: string, rest: string)
    requires kind == "SOCKS5" || kind == "PROXY"
    requires rest != []
    ensures kind == "SOCKS5" <==> |kind + rest| >= 6 && (kind + rest)[..6] == "SOCKS5"
  {
    var d := kind + rest;
    assert d[0] == kind[0];
    if kind == "SOCKS5" {
      assert d[..6] == kind;
    } else {
      assert kind[0] == 'P';
    }
  }

  /** The directive names SOCKS5 exactly when SOCKS was asked for. */
  lemma DirectiveKind(e: LocalEndPoint, useSocks: bool, localPort: int)
    ensures var d := ProxyDirective(e, useSocks, localPort);
      useSocks <==> |d| >= 6 && d[..6] == "SOCKS5"
  {
    var rest := " " + AddressText(e) + ":" + IntToString(localPort) + ";";
    ProxyDirectiveOfKind(e, useSocks, localPort);
    KindPrefix(ProxyKind(useSocks), rest);
  }

  /** The address is bracketed exactly for an IPv6 end point (for address texts that do not start with a bracket). */
  lemma DirectiveBrackets(e: LocalEndPoint, useSocks: bool, localPort: int)
    requires e.address == "" || e.address[0] != '['
    ensures var d := ProxyDirective(e, useSocks, localPort);
      var i := |ProxyKind(useSocks)| + 1;
      e.isIPv6 <==> (i < |d| && d[i] == '[')
  {
    var host := AddressText(e);
    CharAfterSpace(ProxyKind(useSocks), host, IntToString(localPort));
    if e.isIPv6 {
      assert host[0] == '[';
    }
  }

  lemma CharAfterSpace(kind: string, host: string, port: string)
    ensures var d := kind + " " + host + ":" + port + ";";
      |kind| + 1 < |d| && d[|kind| + 1] == if host == [] then ':' else host[0]
  {
  }

  /**
   * The body's first line is the `__PROXY__` assignment and everything after
   * its line feed is the PAC script, unchanged.
   */
  lemma BodyLines(proxy: string, pacContent: string)
    requires '\n' !in proxy
    ensures var body := ResponseBody(proxy, pacContent);
      var k := IndexOf(body, '\n');
      k == |ProxyLine(proxy)| && body[..k] == ProxyLine(proxy) && body[k + 1..] == pacContent
  {
    var line := ProxyLine(proxy);
    assert '\n' !in line by {
      assert line == "var __PROXY__ = '" + proxy + "';";
      assert forall i :: 0 <= i < |line| ==> line[i] == if i < 17 then "var __PROXY__ = '"[i] else if i < 17 + |proxy| then proxy[i - 17] else "';"[i - 17 - |proxy|];
    }
    assert ResponseBody(proxy, pacContent) == line + ['\n'] + pacContent;
    IndexOfPrefix(line, '\n', pacContent);
  }

  /**
   * `Content-Length` counts exactly the octets that follow the head: the
   * octets sent are the head's and then the body's, and the number in the
   * head is the length of the latter.
   */
  lemma ContentLengthIsBodyLength(version: string, proxy: string, pacContent: string)
    ensures var body := ResponseBody(proxy, pacContent);
      var n := |Utf8(body)|;
      ResponseBytes(version, proxy, pacContent) == Utf8(ResponseHead(version, n)) + Utf8(body) &&
      |ResponseBytes(version, proxy, pacContent)| == |Utf8(ResponseHead(version, n))| + n
  {
    var body := ResponseBody(proxy, pacContent);
    Utf8Append(ResponseHead(version, |Utf8(body)|), body);
  }

  /** The head ends with the blank line that separates it from the body. */
  lemma HeadEndsWithBlankLine(version: string, n: int)
    ensures var h := ResponseHead(version, n); |h| >= 4 && h[|h| - 4..] == "\r\n\r\n"
  {
  }

  lemma {:induction false} AsciiAppend(a: string, b: string)
    requires IsAscii(a) && IsAscii(b)
    ensures IsAscii(a + b)
  {
    assert forall i :: 0 <= i < |a + b| ==> (a + b)[i] == if i < |a| then a[i] else b[i - |a|];
  }

  lemma StatusLinesAscii()
    ensures IsAscii("HTTP/1.1 200 OK\r\n") && IsAscii("Server: ShadowsocksWindows/") && IsAscii("\r\n")
  {
  }

  lemma FieldLinesAscii()
    ensures IsAscii("Content-Length: ") && IsAscii("Connection: Close\r\n")
  {
  }

  lemma ContentTypeAscii()
    ensures IsAscii("Content-Type: ") && IsAscii(PacMediaType)
  {
  }

  lemma NumberAscii(n: int)
    ensures IsAscii(IntToString(n))
  {
  }

  /** With an ASCII product version the head has one octet per character. */
  lemma HeadIsAscii(version: string, n: int)
    requires IsAscii(version)
    ensures |Utf8(ResponseHead(version, n))| == |ResponseHead(version, n)|
  {
    var num := IntToString(n);
    var p1, p2 := "HTTP/1.1 200 OK\r\n", "Server: ShadowsocksWindows/";
    var p3, p5 := "\r\n", "Content-Length: ";
    var p6 := "Connection: Close\r\n";
    var p4a, p4b := "Content-Type: ", PacMediaType;
    StatusLinesAscii();
    FieldLinesAscii();
    ContentTypeAscii();
    NumberAscii(n);
    var h1 := p1 + p2 + version;
    AsciiAppend(p1, p2);
    AsciiAppend(p1 + p2, version);
    var h2 := h1 + p3 + p4a + p4b + p3;
    AsciiAppend(h1, p3);
    AsciiAppend(h1 + p3, p4a);
    AsciiAppend(h1 + p3 + p4a, p4b);
    AsciiAppend(h1 + p3 + p4a + p4b, p3);
    var h3 := h2 + p5 + num;
    AsciiAppend(h2, p5);
    AsciiAppend(h2 + p5, num);
    var h := h3 + p3 + p6 + p3;
    AsciiAppend(h3, p3);
    AsciiAppend(h3 + p3, p6);
    AsciiAppend(h3 + p3 + p6, p3);
    Utf8OfAscii(h);
  }
}
