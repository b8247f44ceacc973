/**
 * The request matcher of the PAC server: how the text of the first packet of
 * a connection is split into lines, how the request line (section 3.1.1 of
 * RFC 7230) is checked for `GET /pac`, how the secret is looked for in the
 * query, and how the `Host` header is compared with the socket's own local
 * end point. `Decide` is the decision the source's `Handle` takes, stated on
 * values; the method `PacServerModel.PacServer.Handle` computes it step by
 * step.
 */
module PacRequest {
  import opened Text
  import opened Decimal

  /** `PACServer.RESOURCE_NAME`. */
  const ResourceName: string := "pac"

  /** The request is split on both CR and LF. */
  const LineSeparators: set<char> := {'\r', '\n'}

  const Space: set<char> := {' '}

  datatype Protocol = Tcp | Udp | OtherProtocol

  /** An `IPEndPoint`: the address's text form, the port and the address family. */
  datatype LocalEndPoint = LocalEndPoint(address: string, port: int, isIPv6: bool)

  /** The accepted socket, as far as the server looks at it. */
  datatype ConnSocket = ConnSocket(protocol: Protocol, local: LocalEndPoint)

  /** The address as it appears before `:port`: an IPv6 address in brackets. */
  function AddressText(e: LocalEndPoint): string {
    if e.isIPv6 then "[" + e.address + "]" else e.address
  }

  /** `IPEndPoint.ToString()`: `address:port`. */
  function EndPointText(e: LocalEndPoint): string {
    AddressText(e) + ":" + IntToString(e.port)
  }

  function RequestLines(request: string): seq<string> {
    Split(request, LineSeparators)
  }

  /** Where the query of a request target starts: at its first `?`, or at its end. */
  function QueryStart(target: string): (i: nat)
    ensures i <= |target| && '?' !in target[..i]
    ensures i < |target| ==> target[i] == '?'
  {
    var k := IndexOf(target, '?');
    if k < 0 then
      assert target[..|target|] == target;
      |target|
    else k
  }

  /**
   * What the request line decides: the path is `/pac` with the query that
   * follows it, the path is something else, or `Remove(0, 1)` threw because
   * the part before the query is empty.
   */
  datatype PathCheck = PathOk(query: string) | PathMismatch | PathError

  /**
   * `Remove(0, 1)` removes one UTF-16 code unit: of a first character above
   * U+FFFF only its high surrogate goes, and the low one that remains spoils
   * the comparison with `pac`.
   */
  function CheckRequestLine(line: string): PathCheck {
    var items := Split(line, Space);
    if |items| == 3 && items[0] == "GET" then
      var target := items[1];
      var index := QueryStart(target);
      if index == 0 then PathError
      else if InOneCodeUnit(target[0]) && EqualsIgnoreCase(target[1..index], ResourceName) then
        PathOk(target[index..])
      else PathMismatch
    else PathMismatch
  }

  /**
   * A header line that sets `hostMatch`: split at its first colon, the name is
   * exactly `Host` and the trimmed value is the end point's text.
   */
  predicate IsHostLine(line: string, endpoint: string) {
    line != "" &&
    var kv := SplitFirst(line, ':');
    |kv| == 2 && kv[0] == "Host" && Trim(kv[1]) == endpoint
  }

  /** The test each header line is put to. */
  function HostHeader(endpoint: string): string -> bool {
    line => IsHostLine(line, endpoint)
  }

  /** Some line after the request line is a matching `Host` header. */
  predicate HostMatch(lines: seq<string>, endpoint: string) {
    exists i :: 1 <= i < |lines| && HostHeader(endpoint)(lines[i])
  }

  /** `Handle` returns false (`Decline`), closes without answering (`Drop`) or answers (`Serve`). */
  datatype Verdict = Decline | Drop | Serve

  /** The decision taken on a request text, after the protocol and configuration checks. */
  function Decide(request: string, secure: bool, secret: string, endpoint: string): Verdict {
    var lines := RequestLines(request);
    if |lines| < 2 then Decline
    else
      var check := CheckRequestLine(lines[0]);
      if check.PathError? then Decline
      else
        var pathMatch := check.PathOk?;
        var secretMatch := !secure || (pathMatch && Contains(check.query, secret));
        if HostMatch(lines, endpoint) && pathMatch then (if secretMatch then Serve else Drop)
        else Decline
  }

  /** `Decide` once there are two lines, in the order `Handle` takes its steps. */
  lemma DecideBySteps(request: string, secure: bool, secret: string, endpoint: string)
    requires |RequestLines(request)| >= 2
    ensures var lines := RequestLines(request);
      var check := CheckRequestLine(lines[0]);
      Decide(request, secure, secret, endpoint) ==
        if check.PathError? then Decline
        else if HostMatch(lines, endpoint) && check.PathOk? then
          (if !secure || Contains(check.query, secret) then Serve else Drop)
        else Decline
  {
  }

  // ---- The request line ------------------------------------------------

  /**
   * A request target whose part before the query is one code unit followed
   * by `pac` in any case.
   */
  predicate PacTarget(t: string) {
    NoneIn(t, Space) && QueryStart(t) >= 1 && InOneCodeUnit(t[0]) &&
    EqualsIgnoreCase(t[1..QueryStart(t)], ResourceName)
  }

  /** `line` is `GET`, the target `t` and the version `v`, separated by single spaces. */
  predicate IsGetLine(line: string, t: string, v: string) {
    line == "GET " + t + " " + v && NoneIn(t, Space) && NoneIn(v, Space)
  }

  lemma SplitGetLine(t: string, v: string)
    requires NoneIn(t, Space) && NoneIn(v, Space)
    ensures Split("GET " + t + " " + v, Space) == ["GET", t, v]
  {
    assert "GET " + t + " " + v == "GET" + [' '] + (t + " " + v);
    SplitAtSeparator("GET", ' ', t + " " + v, Space);
    assert t + " " + v == t + [' '] + v;
    SplitAtSeparator(t, ' ', v, Space);
    SplitNoSeparator(v, Space);
  }

  /** A request line with three items of which the first is `GET` is a `GET` line. */
  lemma GetLineOfItems(line: string)
    requires |Split(line, Space)| == 3 && Split(line, Space)[0] == "GET"
    ensures IsGetLine(line, Split(line, Space)[1], Split(line, Space)[2])
  {
    var items := Split(line, Space);
    JoinSplit(line, ' ');
    assert items[1..][1..] == [items[2]];
    assert Join(items[1..], ' ') == items[1] + [' '] + items[2];
    assert line == items[0] + [' '] + (items[1] + [' '] + items[2]);
  }

  /** The path matches exactly when the request line is `GET`, a `/pac` target and a version. */
  lemma PathMatchIff(line: string)
    ensures CheckRequestLine(line).PathOk? <==> exists t, v :: IsGetLine(line, t, v) && PacTarget(t)
  {
    if CheckRequestLine(line).PathOk? {
      GetLineOfItems(line);
      var items := Split(line, Space);
      assert IsGetLine(line, items[1], items[2]) && PacTarget(items[1]);
    }
    if exists t, v :: IsGetLine(line, t, v) && PacTarget(t) {
      var t, v :| IsGetLine(line, t, v) && PacTarget(t);
      SplitGetLine(t, v);
    }
  }

  /** The query handed to the secret check is the target from its first `?` on. */
  lemma PathOkQuery(line: string, t: string, v: string)
    requires IsGetLine(line, t, v) && PacTarget(t)
    ensures CheckRequestLine(line) == PathOk(t[QueryStart(t)..])
  {
    SplitGetLine(t, v);
  }

  /**
   * A `GET` line whose target is empty or starts with `?` makes `Remove(0, 1)`
   * throw, and the exception is caught: whatever the headers, the request is
   * declined.
   */
  lemma EmptyResourceDeclined(request: string, line: string, t: string, v: string, secure: bool, secret: string, endpoint: string)
    requires IsGetLine(line, t, v) && (t == "" || t[0] == '?')
    requires |RequestLines(request)| >= 2 && RequestLines(request)[0] == line
    ensures CheckRequestLine(line) == PathError
    ensures Decide(request, secure, secret, endpoint) == Decline
  {
    SplitGetLine(t, v);
  }

  /** Only the method `GET` is matched. */
  lemma OtherMethodMismatch(line: string)
    requires |Split(line, Space)| >= 1 && Split(line, Space)[0] != "GET"
    ensures CheckRequestLine(line) == PathMismatch
  {
  }

  /**
   * The code unit before `pac` is not looked at: `/pac`, `Xpac` and `/PAC`
   * all match.
   */
  lemma FirstCharacterNotChecked(c: char, v: string)
    requires c != '?' && c != ' ' && InOneCodeUnit(c) && NoneIn(v, Space)
    ensures PacTarget([c] + "pac") && PacTarget([c] + "PAC")
    ensures CheckRequestLine("GET " + ([c] + "pac") + " " + v).PathOk?
  {
    var t := [c] + "pac";
    assert '?' !in t;
    assert t[1..4] == "pac";
    var u := [c] + "PAC";
    assert '?' !in u;
    assert u[1..4] == "PAC";
    SplitGetLine(t, v);
  }

  /** A first character above U+FFFF does not make way for `pac`: the path is another. */
  lemma SupplementaryFirstCharacterDeclined(c: char, v: string)
    requires !InOneCodeUnit(c) && NoneIn(v, Space)
    ensures !PacTarget([c] + "pac")
    ensures CheckRequestLine("GET " + ([c] + "pac") + " " + v) == PathMismatch
  {
    var t := [c] + "pac";
    assert '?' !in t;
    SplitGetLine(t, v);
  }

  // ---- Header lines ----------------------------------------------------

  /** A header line matches exactly when it starts with `Host:` and the rest, trimmed, is the end point. */
  lemma HostLineIff(line: string, endpoint: string)
    ensures IsHostLine(line, endpoint) <==> |line| >= 5 && line[..5] == "Host:" && Trim(line[5..]) == endpoint
  {
    if |line| >= 5 && line[..5] == "Host:" {
      assert line == "Host" + [':'] + line[5..];
      IndexOfPrefix("Host", ':', line[5..]);
    }
    if IsHostLine(line, endpoint) {
      var kv := SplitFirst(line, ':');
      assert line == "Host" + [':'] + kv[1];
      assert line[..5] == "Host:";
      assert line[5..] == kv[1];
    }
  }

  /** A line without a colon is skipped. */
  lemma LineWithoutColonSkipped(line: string, endpoint: string)
    requires ':' !in line
    ensures !IsHostLine(line, endpoint)
  {
  }

  /** The header name is compared case-sensitively: `host:` is not `Host:`. */
  lemma LowerCaseHostIgnored(line: string, endpoint: string)
    requires |line| >= 5 && line[..5] == "host:"
    ensures !IsHostLine(line, endpoint)
  {
    HostLineIff(line, endpoint);
    assert line[..5][0] == 'h';
  }

  /** White space around the value of a `Host` header does not matter. */
  lemma HostValueTrimmed(w1: string, endpoint: string, w2: string)
    requires AllWhiteSpace(w1) && AllWhiteSpace(w2) && endpoint != []
    requires !IsWhiteSpace(endpoint[0]) && !IsWhiteSpace(endpoint[|endpoint| - 1])
    ensures IsHostLine("Host:" + w1 + endpoint + w2, endpoint)
  {
    var line := "Host:" + w1 + endpoint + w2;
    assert line[..5] == "Host:";
    assert line[5..] == w1 + endpoint + w2;
    TrimAround(w1, endpoint, w2);
    HostLineIff(line, endpoint);
  }

  // ---- The decision ----------------------------------------------------

  /** Fewer than two lines happens exactly when the text has no CR or LF, and is declined. */
  lemma TooFewLines(request: string, secure: bool, secret: string, endpoint: string)
    ensures |RequestLines(request)| < 2 <==> NoneIn(request, LineSeparators)
    ensures NoneIn(request, LineSeparators) ==> Decide(request, secure, secret, endpoint) == Decline
  {
    SplitSingleIff(request, LineSeparators);
  }

  /**
   * `Handle` returns true exactly when there are at least two lines, the path
   * matches and a `Host` header matches; it then answers exactly when the
   * secret is not required or occurs in the query, and otherwise drops the
   * connection.
   */
  lemma DecisionTable(request: string, secure: bool, secret: string, endpoint: string)
    ensures var lines := RequestLines(request);
      (Decide(request, secure, secret, endpoint) != Decline <==>
        |lines| >= 2 && CheckRequestLine(lines[0]).PathOk? && HostMatch(lines, endpoint)) &&
      (Decide(request, secure, secret, endpoint) == Serve <==>
        |lines| >= 2 && CheckRequestLine(lines[0]).PathOk? && HostMatch(lines, endpoint) &&
        (!secure || Contains(CheckRequestLine(lines[0]).query, secret)))
  {
  }

  /** With the secret not required, a matched request is always answered. */
  lemma NoSecretNoDrop(request: string, secret: string, endpoint: string)
    ensures Decide(request, false, secret, endpoint) != Drop
  {
  }

  /**
   * The request a client sends for a URL: a request line of a method, a
   * target and a version, a `Host` header, and a blank line.
   */
  function RequestText(m: string, t: string, v: string, endpoint: string): string {
    m + " " + t + " " + v + "\r\nHost: " + endpoint + "\r\n\r\n"
  }

  /** A piece ended by CR LF is followed by an empty piece. */
  lemma SplitAtCrLf(a: string, b: string)
    requires NoneIn(a, LineSeparators)
    ensures Split(a + "\r\n" + b, LineSeparators) == [a, ""] + Split(b, LineSeparators)
  {
    var e: string := "";
    assert a + "\r\n" + b == a + ['\r'] + (e + ['\n'] + b);
    SplitAtSeparator(a, '\r', e + ['\n'] + b, LineSeparators);
    SplitAtSeparator(e, '\n', b, LineSeparators);
  }

  lemma RequestTextLines(m: string, t: string, v: string, endpoint: string)
    requires NoneIn(m + " " + t + " " + v, LineSeparators) && NoneIn("Host: " + endpoint, LineSeparators)
    ensures RequestLines(RequestText(m, t, v, endpoint)) == [m + " " + t + " " + v, "", "Host: " + endpoint, "", "", "", ""]
  {
    var l0 := m + " " + t + " " + v;
    var l2 := "Host: " + endpoint;
    var e: string := "";
    assert RequestText(m, t, v, endpoint) == l0 + "\r\n" + (l2 + "\r\n" + (e + "\r\n" + e));
    SplitTwoLines(l0, l2);
  }

  lemma SplitTwoLines(l0: string, l2: string)
    requires NoneIn(l0, LineSeparators) && NoneIn(l2, LineSeparators)
    ensures var e: string := "";
      Split(l0 + "\r\n" + (l2 + "\r\n" + (e + "\r\n" + e)), LineSeparators) == [l0, "", l2, "", "", "", ""]
  {
    var e: string := "";
    var blank := e + "\r\n" + e;
    var rest := l2 + "\r\n" + blank;
    SplitAtCrLf(l0, rest);
    SplitAtCrLf(l2, blank);
    SplitAtCrLf(e, e);
    SplitNoSeparator(e, LineSeparators);
  }

  /** The decision once the request line and a `Host` header are known to match. */
  lemma MatchedDecision(request: string, q: string, secure: bool, secret: string, endpoint: string)
    requires |RequestLines(request)| >= 2
    requires CheckRequestLine(RequestLines(request)[0]) == PathOk(q)
    requires HostMatch(RequestLines(request), endpoint)
    ensures Decide(request, secure, secret, endpoint) == if !secure || Contains(q, secret) then Serve else Drop
  {
  }

  lemma RequestTextClean(m: string, t: string, v: string, endpoint: string)
    requires NoneIn(m, LineSeparators) && NoneIn(t, LineSeparators) && NoneIn(v, LineSeparators)
    requires NoWhiteSpace(endpoint)
    ensures NoneIn(m + " " + t + " " + v, LineSeparators) && NoneIn("Host: " + endpoint, LineSeparators)
  {
    assert NoneIn(" ", LineSeparators) && NoneIn("Host: ", LineSeparators);
    NoneInConcat(m, " ", LineSeparators);
    NoneInConcat(m + " ", t, LineSeparators);
    NoneInConcat(m + " " + t, " ", LineSeparators);
    NoneInConcat(m + " " + t + " ", v, LineSeparators);
    assert NoneIn(endpoint, LineSeparators) by {
      forall i | 0 <= i < |endpoint| ensures endpoint[i] !in LineSeparators {
        assert !IsWhiteSpace(endpoint[i]);
      }
    }
    NoneInConcat("Host: ", endpoint, LineSeparators);
  }

  /**
   * A `GET` request for a `/pac` target whose `Host` header names the end
   * point is answered exactly when the secret is not required or is in the
   * query, and dropped otherwise.
   */
  lemma GetRequestDecision(t: string, v: string, endpoint: string, secure: bool, secret: string)
    requires PacTarget(t) && NoneIn(t, LineSeparators) && NoneIn(v, Space) && NoneIn(v, LineSeparators)
    requires endpoint != [] && NoWhiteSpace(endpoint)
    ensures Decide(RequestText("GET", t, v, endpoint), secure, secret, endpoint) ==
      if !secure || Contains(t[QueryStart(t)..], secret) then Serve else Drop
  {
    var request := RequestText("GET", t, v, endpoint);
    var l0 := "GET " + t + " " + v;
    var l2 := "Host: " + endpoint;
    assert NoneIn("GET", LineSeparators);
    RequestTextClean("GET", t, v, endpoint);
    assert "GET" + " " + t + " " + v == l0;
    RequestTextLines("GET", t, v, endpoint);
    var lines := RequestLines(request);
    assert lines[0] == l0 && lines[2] == l2;
    PathOkQuery(l0, t, v);
    assert l2 == "Host:" + [' '] + endpoint + [];
    HostValueTrimmed([' '], endpoint, []);
    assert IsHostLine(lines[2], endpoint);
    MatchedDecision(request, t[QueryStart(t)..], secure, secret, endpoint);
  }

  /** A request with any other method is declined, whatever it asks for. */
  lemma OtherMethodDeclined(m: string, t: string, v: string, endpoint: string, secure: bool, secret: string)
    requires m != "GET" && NoneIn(m, Space) && NoneIn(m, LineSeparators)
    requires NoneIn(t, LineSeparators) && NoneIn(v, LineSeparators) && NoWhiteSpace(endpoint)
    ensures Decide(RequestText(m, t, v, endpoint), secure, secret, endpoint) == Decline
  {
    RequestTextClean(m, t, v, endpoint);
    RequestTextLines(m, t, v, endpoint);
    var l0 := m + " " + t + " " + v;
    assert l0 == m + [' '] + (t + " " + v);
    SplitAtSeparator(m, ' ', t + " " + v, Space);
    OtherMethodMismatch(l0);
  }

  // ---- Worked requests -------------------------------------------------

  lemma LoopbackEndPointText()
    ensures EndPointText(LocalEndPoint("127.0.0.1", 8123, false)) == "127.0.0.1:8123"
  {
    assert NatToString(8) == "8";
    assert NatToString(81) == NatToString(8) + "1";
    assert NatToString(812) == NatToString(81) + "2";
    assert NatToString(8123) == NatToString(812) + "3";
  }

  lemma PlainPacTarget()
    ensures PacTarget("/pac") && QueryStart("/pac") == 4 && NoneIn("/pac", LineSeparators)
  {
    assert '?' !in "/pac";
    assert "/pac"[1..4] == "pac";
  }

  lemma LoopbackEndPointClean()
    ensures NoWhiteSpace("127.0.0.1:8123") && NoneIn("HTTP/1.1", Space) && NoneIn("HTTP/1.1", LineSeparators)
  {
  }

  /** `GET /pac HTTP/1.1` with the right `Host` header and no secret required is answered. */
  lemma ServedWithoutSecret(secret: string)
    ensures Decide(RequestText("GET", "/pac", "HTTP/1.1", "127.0.0.1:8123"), false, secret,
                   EndPointText(LocalEndPoint("127.0.0.1", 8123, false))) == Serve
  {
    LoopbackEndPointText();
    PlainPacTarget();
    LoopbackEndPointClean();
    GetRequestDecision("/pac", "HTTP/1.1", "127.0.0.1:8123", false, secret);
  }

  /** The same request without the secret, when one is required, is dropped. */
  lemma DroppedWithoutSecret(secret: string)
    requires secret != ""
    ensures Decide(RequestText("GET", "/pac", "HTTP/1.1", "127.0.0.1:8123"), true, secret,
                   EndPointText(LocalEndPoint("127.0.0.1", 8123, false))) == Drop
  {
    LoopbackEndPointText();
    PlainPacTarget();
    LoopbackEndPointClean();
    GetRequestDecision("/pac", "HTTP/1.1", "127.0.0.1:8123", true, secret);
    assert "/pac"[4..] == "";
    assert !Contains("", secret);
  }

  /** `POST /pac HTTP/1.1` is declined whatever the secret setting. */
  lemma PostDeclined(secure: bool, secret: string)
    ensures Decide(RequestText("POST", "/pac", "HTTP/1.1", "127.0.0.1:8123"), secure, secret,
                   EndPointText(LocalEndPoint("127.0.0.1", 8123, false))) == Decline
  {
    LoopbackEndPointText();
    LoopbackEndPointClean();
    assert NoneIn("POST", Space) && NoneIn("POST", LineSeparators) && NoneIn("/pac", LineSeparators);
    OtherMethodDeclined("POST", "/pac", "HTTP/1.1", "127.0.0.1:8123", secure, secret);
  }
}
