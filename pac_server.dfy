/**
 * The PAC server object: the cached secret, the published URL, the current
 * configuration, the address and port it listens on and its listening socket,
 * with the operations that change them, and `Handle`, the step that answers
 * or declines the first packet of a connection.
 *
 * The foreign parts are parameters: the octets the random number generator
 * produces, the MD5 digest, the UTF-8 decoder, the PAC script and product
 * version, what the operating system answers when asked for a free port, the
 * ports of the active TCP listeners, and whether binding the socket succeeds.
 */
module PacServerModel {
  import opened Bytes
  import opened Wrappers
  import opened Text
  import opened Encodings
  import opened UrlToken
  import opened PacRequest
  import opened PacResponse
  import opened PacUrl

  /** The part of `Configuration` the PAC server reads. */
  datatype Configuration = Configuration(
    secureLocalPac: bool,
    shareOverLan: bool,
    isIPv6Enabled: bool,
    localPort: int,
    localHost: string)

  /** `IPAddress.Any`, `IPv6Any`, `Loopback` and `IPv6Loopback`. */
  datatype BindAddress = Any | IPv6Any | Loopback | IPv6Loopback

  /** The port `GetFreePort` falls back to. */
  const DefaultPacPort: int := 8123

  /** The backlog `Listen` is called with. */
  const Backlog: nat := 128

  datatype ListenState = Listening(backlog: nat) | Closed

  /** The listening socket: its address family, the end point it was bound to, and whether it is open. */
  datatype ListenSocket = ListenSocket(isIPv6: bool, address: BindAddress, port: int, state: ListenState)

  /** What happens to an accepted connection: octets sent on it, or a call of `Close`. */
  datatype ConnAction = Send(octets: seq<byte>) | Close

  /**
   * How `Handle` ends: it returns false, it closes the connection and returns
   * true, it starts a response and returns true, or it throws (when no
   * configuration has been set, reading it fails).
   */
  datatype HandleResult = NotHandled | Dropped | Responded(sent: ConnAction) | Faulted

  /** `Handle` returned true. */
  predicate ReturnsTrue(r: HandleResult) {
    r.Dropped? || r.Responded?
  }

  datatype StartOutcome = Started | PortInUse(port: int) | BindFailed

  /** The cache after reading `PacSecret`: a fresh secret made of `random` only while it is empty. */
  function SecretAfter(cached: string, random: seq<byte>): (s: string)
    requires |random| == SecretOctets
    ensures s != ""
    ensures cached != "" ==> s == cached
    ensures IsUrlToken(cached) ==> IsUrlToken(s)
  {
    if cached == "" then UrlTokenEncode(random) else cached
  }

  /** The address `Start` binds to: any address when shared over the LAN, else the loopback one. */
  function BindAddressFor(shareOverLan: bool, isIPv6: bool): (a: BindAddress)
    ensures a.IPv6Any? || a.IPv6Loopback? <==> isIPv6
    ensures a.Any? || a.IPv6Any? <==> shareOverLan
  {
    if shareOverLan then (if isIPv6 then IPv6Any else Any)
    else (if isIPv6 then IPv6Loopback else Loopback)
  }

  /**
   * `GetFreePort`: the port the operating system picks for a listener on the
   * loopback address of the family asked for, or 8123 when that fails.
   */
  function GetFreePort(isIPv6: bool, probe: BindAddress -> Option<int>): (port: int)
    ensures probe(if isIPv6 then IPv6Loopback else Loopback).Some? ==>
      port == probe(if isIPv6 then IPv6Loopback else Loopback).value
    ensures probe(if isIPv6 then IPv6Loopback else Loopback).None? ==> port == DefaultPacPort
  {
    match probe(BindAddressFor(false, isIPv6))
    case Some(p) => p
    case None => DefaultPacPort
  }

  /** `CheckIfPortInUse`: some active TCP listener has the port. */
  function CheckIfPortInUse(port: int, listeners: seq<int>): (inUse: bool)
    ensures inUse <==> exists i :: 0 <= i < |listeners| && listeners[i] == port
  {
    port in listeners
  }

  /**
   * What `Handle` does, stated on values: the protocol check, the decoding of
   * `length` octets (which throws, and is caught, when the count is out of
   * range), the configuration read, then the decision on the request text.
   */
  function HandleOutcome(config: Option<Configuration>, secret: string, packet: seq<byte>, length: int,
                         socket: ConnSocket, decode: seq<byte> -> string,
                         pacContent: string, version: string): HandleResult
  {
    if socket.protocol != Tcp then NotHandled
    else if length < 0 || length > |packet| then NotHandled
    else if config.None? then Faulted
    else Answer(config.value, secret, decode(packet[..length]), socket, pacContent, version)
  }

  /** The decision on a decoded request, and the response when it is served. */
  function Answer(c: Configuration, secret: string, request: string, socket: ConnSocket,
                  pacContent: string, version: string): HandleResult
  {
    match Decide(request, c.secureLocalPac, secret, EndPointText(socket.local))
    case Decline => NotHandled
    case Drop => Dropped
    case Serve =>
      Responded(Send(ResponseBytes(version, ProxyDirective(socket.local, false, c.localPort), pacContent)))
  }

  /** `HandleOutcome` once the protocol, the length and the configuration have been checked. */
  lemma OutcomeOfRequest(config: Option<Configuration>, secret: string, packet: seq<byte>, length: int,
                         socket: ConnSocket, decode: seq<byte> -> string, pacContent: string, version: string)
    ensures HandleOutcome(config, secret, packet, length, socket, decode, pacContent, version) ==
      if socket.protocol != Tcp || length < 0 || length > |packet| then NotHandled
      else if config.None? then Faulted
      else Answer(config.value, secret, decode(packet[..length]), socket, pacContent, version)
  {
  }

  /**
   * `Handle` reads `PacSecret`, which fills an empty cache, exactly when a
   * configuration asking for the secret is set and the request line names the
   * PAC resource.
   */
  predicate ReadsSecret(config: Option<Configuration>, packet: seq<byte>, length: int,
                        socket: ConnSocket, decode: seq<byte> -> string)
  {
    socket.protocol == Tcp && 0 <= length <= |packet| && config.Some? && config.value.secureLocalPac &&
    var lines := RequestLines(decode(packet[..length]));
    |lines| >= 2 && CheckRequestLine(lines[0]).PathOk?
  }

  /** Where `Handle` does not read the secret, its outcome does not depend on it. */
  lemma SecretUnusedUnlessRead(config: Option<Configuration>, s1: string, s2: string, packet: seq<byte>, length: int,
                               socket: ConnSocket, decode: seq<byte> -> string, pacContent: string, version: string)
    requires !ReadsSecret(config, packet, length, socket, decode)
    ensures HandleOutcome(config, s1, packet, length, socket, decode, pacContent, version) ==
            HandleOutcome(config, s2, packet, length, socket, decode, pacContent, version)
  {
  }

  /**
   * What happens to a connection once its first read completes
   * (`ReceiveCallback`): nothing read, or `Handle`'s outcome, then a `Close`
   * for every TCP connection. A throw from `Handle` is caught and closes the
   * connection once instead.
   */
  function ConnectionActions(bytesRead: int, protocol: Protocol, outcome: HandleResult): seq<ConnAction> {
    if bytesRead > 0 && outcome.Faulted? then [Close]
    else
      var handled := if bytesRead <= 0 then [] else match outcome
        case Dropped => [Close]
        case Responded(a) => [a]
        case _ => [];
      if protocol == Tcp then handled + [Close] else handled
  }

  // ---- Properties of a connection --------------------------------------

  /**
   * `Handle` returns true exactly for a `GET /pac` request with a `Host`
   * header naming the socket's end point; of those it answers the ones that
   * need no secret or carry it in the query and drops the rest. A non-TCP
   * socket and an out-of-range length are declined.
   */
  lemma HandleDecisionTable(c: Configuration, secret: string, packet: seq<byte>, length: int,
                            socket: ConnSocket, decode: seq<byte> -> string, pacContent: string, version: string)
    ensures var r := HandleOutcome(Some(c), secret, packet, length, socket, decode, pacContent, version);
      (socket.protocol != Tcp || length < 0 || length > |packet| ==> r == NotHandled) &&
      (socket.protocol == Tcp && 0 <= length <= |packet| ==>
        var lines := RequestLines(decode(packet[..length]));
        var endpoint := EndPointText(socket.local);
        (ReturnsTrue(r) <==> |lines| >= 2 && CheckRequestLine(lines[0]).PathOk? && HostMatch(lines, endpoint)) &&
        (r.Responded? <==> ReturnsTrue(r) && (!c.secureLocalPac || Contains(CheckRequestLine(lines[0]).query, secret))) &&
        (r.Dropped? ==> c.secureLocalPac) &&
        !r.Faulted?)
  {
    if socket.protocol == Tcp && 0 <= length <= |packet| {
      DecisionTable(decode(packet[..length]), c.secureLocalPac, secret, EndPointText(socket.local));
    }
  }

  /**
   * What a response carries: a `PROXY` directive (SOCKS is never chosen) for
   * the socket's own address and the configured local proxy port, whose
   * `Content-Length` counts the body's UTF-8 octets.
   */
  lemma ResponseOfHandle(c: Configuration, secret: string, packet: seq<byte>, length: int,
                         socket: ConnSocket, decode: seq<byte> -> string, pacContent: string, version: string)
    requires HandleOutcome(Some(c), secret, packet, length, socket, decode, pacContent, version).Responded?
    ensures var proxy := ProxyDirective(socket.local, false, c.localPort);
      var body := ResponseBody(proxy, pacContent);
      var sent := HandleOutcome(Some(c), secret, packet, length, socket, decode, pacContent, version).sent;
      proxy[..5] == "PROXY" &&
      sent == Send(Utf8(ResponseHead(version, |Utf8(body)|)) + Utf8(body))
  {
    var proxy := ProxyDirective(socket.local, false, c.localPort);
    RespondedSends(c, secret, packet, length, socket, decode, pacContent, version);
    DirectiveParts(socket.local, false, c.localPort);
    ContentLengthIsBodyLength(version, proxy, pacContent);
  }

  lemma RespondedSends(c: Configuration, secret: string, packet: seq<byte>, length: int,
                       socket: ConnSocket, decode: seq<byte> -> string, pacContent: string, version: string)
    requires HandleOutcome(Some(c), secret, packet, length, socket, decode, pacContent, version).Responded?
    ensures HandleOutcome(Some(c), secret, packet, length, socket, decode, pacContent, version).sent ==
      Send(ResponseBytes(version, ProxyDirective(socket.local, false, c.localPort), pacContent))
  {
  }

  /**
   * Every TCP connection is closed last; at most one response is sent, as the
   * first action, and one is sent exactly when `Handle` answered. A dropped
   * connection is closed twice: by `Handle` and again after it.
   */
  lemma ConnectionClosed(bytesRead: int, protocol: Protocol, outcome: HandleResult)
    requires outcome.Responded? ==> outcome.sent.Send?
    ensures var actions := ConnectionActions(bytesRead, protocol, outcome);
      (protocol == Tcp ==> actions != [] && actions[|actions| - 1] == Close) &&
      (forall i :: 0 < i < |actions| ==> actions[i] == Close) &&
      (actions != [] && actions[0].Send? <==> bytesRead > 0 && outcome.Responded?) &&
      (bytesRead > 0 && outcome.Dropped? && protocol == Tcp ==> actions == [Close, Close])
  {
    var actions := ConnectionActions(bytesRead, protocol, outcome);
    if bytesRead > 0 && outcome.Faulted? {
      assert actions == [Close];
    } else if bytesRead > 0 && outcome.Responded? {
      assert actions[0] == outcome.sent;
    }
  }

  /**
   * The server answers the URL it publishes: a `GET` of the path and query
   * `UpdatePACURL` puts in it, with a `Host` header naming the socket's end
   * point, arriving on a TCP socket, gets the response.
   */
  lemma PublishedUrlAnswered(c: Configuration, secret: string, hash: string, packet: seq<byte>,
                             socket: ConnSocket, decode: seq<byte> -> string, pacContent: string, version: string)
    requires IsUrlToken(hash) && IsUrlToken(secret) && socket.protocol == Tcp
    requires NoWhiteSpace(EndPointText(socket.local))
    requires decode(packet) ==
      RequestText("GET", PacPath(hash, c.secureLocalPac, secret), "HTTP/1.1", EndPointText(socket.local))
    ensures HandleOutcome(Some(c), secret, packet, |packet|, socket, decode, pacContent, version).Responded?
  {
    var endpoint := EndPointText(socket.local);
    assert packet[..|packet|] == packet;
    assert NoneIn("HTTP/1.1", Space) && NoneIn("HTTP/1.1", LineSeparators) by {
      VersionPlain();
    }
    PublishedUrlServed(hash, c.secureLocalPac, secret, "HTTP/1.1", endpoint);
    ServedResponds(c, secret, decode(packet), socket, pacContent, version);
    OutcomeOfRequest(Some(c), secret, packet, |packet|, socket, decode, pacContent, version);
  }

  lemma VersionPlain()
    ensures NoneIn("HTTP/1.1", Space) && NoneIn("HTTP/1.1", LineSeparators)
  {
  }

  /** A request the matcher serves is answered. */
  lemma ServedResponds(c: Configuration, secret: string, request: string, socket: ConnSocket,
                       pacContent: string, version: string)
    requires Decide(request, c.secureLocalPac, secret, EndPointText(socket.local)) == Serve
    ensures Answer(c, secret, request, socket, pacContent, version).Responded?
  {
  }

  /**
   * The header loop of `Handle`: every line after the request line is put to
   * the `Host` test, and `hostMatch` records whether one passed.
   */
  method ScanHeaders(lines: seq<string>, endpoint: string) returns (hostMatch: bool)
    requires |lines| >= 1
    ensures hostMatch <==> HostMatch(lines, endpoint)
  {
    hostMatch := false;
    var i := 1;
    while i < |lines|
      invariant 1 <= i <= |lines|
      invariant hostMatch <==> SomeLine(lines, HostHeader(endpoint), i)
    {
      // an empty line, or one without a colon, is skipped
      if IsHostLine(lines[i], endpoint) {
        hostMatch := true;
      }
      i := i + 1;
    }
    SomeLineIff(lines, HostHeader(endpoint), |lines|);
  }

  // ---- The server object -----------------------------------------------

  class PacServer {
    var cachedPacSecret: string
    var pacUrl: string
    var config: Option<Configuration>
    var pacAddress: Option<BindAddress>
    var pacPort: int
    var tcpSocket: Option<ListenSocket>

    /** The cached secret is empty or the URL token of random octets. */
    predicate Valid()
      reads this
    {
      IsUrlToken(cachedPacSecret)
    }

    constructor ()
      ensures Valid()
      ensures cachedPacSecret == "" && pacUrl == "" && config == None
      ensures pacAddress == None && pacPort == 0 && tcpSocket == None
    {
      cachedPacSecret := "";
      pacUrl := "";
      config := None;
      pacAddress := None;
      pacPort := 0;
      tcpSocket := None;
    }

    /** The `PacSecret` property: generated from `random` only while the cache is empty. */
    method PacSecret(random: seq<byte>) returns (secret: string)
      requires IsUrlToken(cachedPacSecret) && |random| == SecretOctets
      modifies this
      ensures Valid()
      ensures cachedPacSecret == SecretAfter(old(cachedPacSecret), random)
      ensures secret == cachedPacSecret && secret != ""
      ensures old(cachedPacSecret) != "" ==> secret == old(cachedPacSecret)
      ensures pacUrl == old(pacUrl) && config == old(config) && pacAddress == old(pacAddress)
      ensures pacPort == old(pacPort) && tcpSocket == old(tcpSocket)
    {
      if cachedPacSecret == "" {
        cachedPacSecret := UrlTokenEncode(random);
      }
      secret := cachedPacSecret;
    }

    /**
     * `UpdatePACURL`: stores the configuration and publishes the URL for the
     * current PAC port, with the digest of the script and, when required, the
     * secret.
     */
    method UpdatePacUrl(c: Configuration, pacContent: string, md5: seq<byte> -> seq<byte>, random: seq<byte>)
      requires Valid() && |random| == SecretOctets
      modifies this
      ensures Valid()
      ensures config == Some(c)
      ensures cachedPacSecret == if c.secureLocalPac then SecretAfter(old(cachedPacSecret), random) else old(cachedPacSecret)
      ensures pacUrl == PacUrlText(c.localHost, pacPort, GetHash(pacContent, md5), c.secureLocalPac, cachedPacSecret)
      ensures pacAddress == old(pacAddress) && pacPort == old(pacPort) && tcpSocket == old(tcpSocket)
    {
      config := Some(c);
      var usedSecret := "";
      if c.secureLocalPac {
        usedSecret := PacSecret(random);
      }
      var contentHash := GetHash(pacContent, md5);
      pacUrl := PacUrlText(c.localHost, pacPort, contentHash, c.secureLocalPac, usedSecret);
    }

    /**
     * `SendResponse`: the response octets for the socket's own end point, or
     * a `Close` when building them throws because no configuration is set.
     */
    method SendResponse(socket: ConnSocket, useSocks: bool, pacContent: string, version: string)
      returns (action: ConnAction)
      ensures config.None? ==> action == Close
      ensures config.Some? ==>
        action == Send(ResponseBytes(version, ProxyDirective(socket.local, useSocks, config.value.localPort), pacContent))
    {
      if config.None? {
        return Close;
      }
      var proxy := ProxyDirective(socket.local, useSocks, config.value.localPort);
      action := Send(ResponseBytes(version, proxy, pacContent));
    }

    /**
     * `Handle`: the first packet's request is answered, dropped or declined as
     * `HandleOutcome` says, with the secret `PacSecret` yields. It asks for no
     * response on a non-TCP socket, the header lines are scanned one by one
     * for a matching `Host`, and the secret is read, and so created when the
     * cache is empty, only to check the query of a PAC request.
     */
    method Handle(packet: seq<byte>, length: int, socket: ConnSocket, decode: seq<byte> -> string,
                  pacContent: string, version: string, random: seq<byte>) returns (r: HandleResult)
      requires Valid() && |random| == SecretOctets
      modifies this
      ensures Valid()
      ensures r == HandleOutcome(old(config), SecretAfter(old(cachedPacSecret), random),
                                 packet, length, socket, decode, pacContent, version)
      ensures cachedPacSecret == if ReadsSecret(old(config), packet, length, socket, decode)
        then SecretAfter(old(cachedPacSecret), random) else old(cachedPacSecret)
      ensures pacUrl == old(pacUrl) && config == old(config) && pacAddress == old(pacAddress)
      ensures pacPort == old(pacPort) && tcpSocket == old(tcpSocket)
    {
      ghost var secret := SecretAfter(cachedPacSecret, random);
      OutcomeOfRequest(config, secret, packet, length, socket, decode, pacContent, version);
      if socket.protocol != Tcp {
        return NotHandled;
      }
      if length < 0 || length > |packet| {
        // the decoder throws, and the exception is caught
        return NotHandled;
      }
      var request := decode(packet[..length]);
      var lines := Split(request, LineSeparators);
      if config.None? {
        return Faulted;
      }
      var secretMatch := !config.value.secureLocalPac;
      if |lines| < 2 {
        return NotHandled;
      }
      var endpoint := EndPointText(socket.local);
      DecideBySteps(request, config.value.secureLocalPac, secret, endpoint);

      // the request line: `GET`, a target whose resource is `pac`, a version
      var check := CheckRequestLine(lines[0]);
      if check.PathError? {
        // removing the first character of an empty resource threw
        return NotHandled;
      }
      var pathMatch := check.PathOk?;
      if pathMatch && !secretMatch {
        var s := PacSecret(random);
        if Contains(check.query, s) {
          secretMatch := true;
        }
      }

      var hostMatch := ScanHeaders(lines, endpoint);
      if hostMatch && pathMatch {
        if !secretMatch {
          return Dropped;
        }
        var sent := SendResponse(socket, false, pacContent, version);
        return Responded(sent);
      }
      return NotHandled;
    }

    /** `ReceiveCallback` once `bytesRead` octets of `buffer` have arrived. */
    method Receive(buffer: seq<byte>, bytesRead: int, conn: ConnSocket, decode: seq<byte> -> string,
                   pacContent: string, version: string, random: seq<byte>) returns (actions: seq<ConnAction>)
      requires Valid() && |random| == SecretOctets
      modifies this
      ensures Valid()
      ensures actions == ConnectionActions(bytesRead, conn.protocol,
        HandleOutcome(old(config), SecretAfter(old(cachedPacSecret), random),
                      buffer, bytesRead, conn, decode, pacContent, version))
      ensures cachedPacSecret == if bytesRead > 0 && ReadsSecret(old(config), buffer, bytesRead, conn, decode)
        then SecretAfter(old(cachedPacSecret), random) else old(cachedPacSecret)
      ensures pacUrl == old(pacUrl) && config == old(config) && pacAddress == old(pacAddress)
      ensures pacPort == old(pacPort) && tcpSocket == old(tcpSocket)
    {
      actions := [];
      if bytesRead > 0 {
        var r := Handle(buffer, bytesRead, conn, decode, pacContent, version, random);
        match r {
          case Faulted =>
            return [Close];
          case Dropped =>
            actions := [Close];
          case Responded(a) =>
            actions := [a];
          case NotHandled =>
        }
      }
      if conn.protocol == Tcp {
        actions := actions + [Close];
      }
    }

    /**
     * `Start`: picks the port, refuses one an active listener holds, picks the
     * bind address, publishes the URL, then creates the listening socket,
     * which is closed again when binding fails. A socket left from an earlier
     * `Start` is not closed here.
     */
    method Start(c: Configuration, probe: BindAddress -> Option<int>, listeners: seq<int>, bindSucceeds: bool,
                 pacContent: string, md5: seq<byte> -> seq<byte>, random: seq<byte>) returns (outcome: StartOutcome)
      requires Valid() && |random| == SecretOctets
      modifies this
      ensures Valid()
      ensures pacPort == GetFreePort(c.isIPv6Enabled, probe)
      ensures outcome == if CheckIfPortInUse(pacPort, listeners) then PortInUse(pacPort)
        else if bindSucceeds then Started else BindFailed
      ensures outcome.PortInUse? ==>
        cachedPacSecret == old(cachedPacSecret) && pacUrl == old(pacUrl) && config == old(config) &&
        pacAddress == old(pacAddress) && tcpSocket == old(tcpSocket)
      ensures !outcome.PortInUse? ==>
        config == Some(c) && pacAddress == Some(BindAddressFor(c.shareOverLan, c.isIPv6Enabled)) &&
        cachedPacSecret == (if c.secureLocalPac then SecretAfter(old(cachedPacSecret), random) else old(cachedPacSecret)) &&
        pacUrl == PacUrlText(c.localHost, pacPort, GetHash(pacContent, md5), c.secureLocalPac, cachedPacSecret) &&
        tcpSocket == Some(ListenSocket(c.isIPv6Enabled, pacAddress.value, pacPort,
                                       if bindSucceeds then Listening(Backlog) else Closed))
    {
      pacPort := GetFreePort(c.isIPv6Enabled, probe);
      if CheckIfPortInUse(pacPort, listeners) {
        return PortInUse(pacPort);
      }
      var address := BindAddressFor(c.shareOverLan, c.isIPv6Enabled);
      pacAddress := Some(address);
      UpdatePacUrl(c, pacContent, md5, random);
      if bindSucceeds {
        tcpSocket := Some(ListenSocket(c.isIPv6Enabled, address, pacPort, Listening(Backlog)));
        outcome := Started;
      } else {
        tcpSocket := Some(ListenSocket(c.isIPv6Enabled, address, pacPort, Closed));
        outcome := BindFailed;
      }
    }

    /** `Stop`: closes and forgets the listening socket, if there is one. */
    method Stop() returns (closed: Option<ListenSocket>)
      modifies this
      ensures closed == old(tcpSocket) && tcpSocket == None
      ensures cachedPacSecret == old(cachedPacSecret) && pacUrl == old(pacUrl) && config == old(config)
      ensures pacAddress == old(pacAddress) && pacPort == old(pacPort)
    {
      closed := tcpSocket;
      if tcpSocket.Some? {
        tcpSocket := None;
      }
    }
  }
}
