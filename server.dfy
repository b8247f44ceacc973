/**
 * The `Server` record of the configuration: host, port and remarks, compared
 * and hashed on host and port only, and rendered for menus as its friendly
 * name and as the identifier `host:port`.
 *
 * The fields are .NET strings and may be null (a deserialised configuration
 * can leave them so); `NullableString` keeps that case.
 */
module ServerModel {
  import opened Wrappers
  import opened Decimal
  import Text

  /** A .NET string reference: null or a text. */
  datatype NullableString = Null | Str(text: string)

  /** What string concatenation and interpolation make of a reference: null reads as "". */
  function TextOf(s: NullableString): string {
    if s.Null? then "" else s.text
  }

  predicate IsNullOrEmpty(s: NullableString) {
    s.Null? || s.text == ""
  }

  /** A 32-bit signed integer, the width of `int` in the source. */
  type int32 = x: int | -0x8000_0000 <= x < 0x8000_0000

  datatype Server = Server(server: NullableString, serverPort: int32, remarks: NullableString)

  const DefaultServer: string := "127.0.0.1"
  const DefaultPort: int32 := 1080

  /** The parameterless constructor. */
  function NewServer(): (s: Server)
    ensures s.server == Str(DefaultServer) && s.serverPort == DefaultPort && s.remarks == Str("")
  {
    Server(Str(DefaultServer), DefaultPort, Str(""))
  }

  /** `Equals`: the same host text (or both null) and the same port; remarks play no part. */
  predicate Equals(a: Server, b: Server) {
    a.server == b.server && a.serverPort == b.serverPort
  }

  function ToBits(x: int32): bv32 {
    (if x < 0 then x + 0x1_0000_0000 else x) as bv32
  }

  function FromBits(v: bv32): int32 {
    if v as int >= 0x8000_0000 then v as int - 0x1_0000_0000 else v as int
  }

  /** `a ^ b` on two's-complement 32-bit integers. */
  function Xor32(a: int32, b: int32): int32 {
    FromBits(ToBits(a) ^ ToBits(b))
  }

  /**
   * `GetHashCode`: the host's string hash XOR the port. The string hash is the
   * runtime's and is a parameter; a null host makes the call throw, which is
   * `None` here.
   */
  function GetHashCode(s: Server, stringHash: string -> int32): (h: Option<int32>)
    ensures h.None? <==> s.server.Null?
  {
    if s.server.Null? then None else Some(Xor32(stringHash(s.server.text), s.serverPort))
  }

  /** `Identifier`: the host text, a colon and the port, with no brackets around IPv6 hosts. */
  function Identifier(s: Server): string {
    TextOf(s.server) + ":" + IntToString(s.serverPort)
  }

  /** What `Uri.CheckHostName` reports. */
  datatype UriHostNameType = Unknown | Basic | Dns | IPv4 | IPv6

  /**
   * `Uri.CheckHostName(name)`: null, empty and over-long names are `Unknown`
   * without looking further; the syntax check for the others is the runtime's
   * and is the parameter `classify`.
   */
  function CheckHostName(name: NullableString, classify: string -> UriHostNameType): UriHostNameType {
    if name.Null? || name.text == "" || |name.text| > 0x7FFF then Unknown else classify(name.text)
  }

  /**
   * `FormatHostName`: an IPv6 literal is put in square brackets, as an IP
   * literal in a URI authority is (section 3.2.2 of RFC 3986); every other
   * name is returned as it is.
   */
  function FormatHostName(hostName: NullableString, classify: string -> UriHostNameType): (r: NullableString)
    ensures CheckHostName(hostName, classify) == IPv6 <==> hostName.Str? && r == Str("[" + hostName.text + "]")
    ensures CheckHostName(hostName, classify) != IPv6 ==> r == hostName
  {
    match CheckHostName(hostName, classify)
    case IPv6 => Str("[" + hostName.text + "]")
    case _ => hostName
  }

  /** The `host:port` part of the friendly name. */
  function HostAndPort(s: Server, classify: string -> UriHostNameType): string {
    TextOf(FormatHostName(s.server, classify)) + ":" + IntToString(s.serverPort)
  }

  /**
   * `FriendlyName`: the localised "New server" label for a server without a
   * host, otherwise `host:port`, preceded by the remarks and wrapped in
   * parentheses when there are remarks.
   */
  function FriendlyName(s: Server, newServerLabel: string, classify: string -> UriHostNameType): string {
    if IsNullOrEmpty(s.server) then newServerLabel
    else
      var serverStr := HostAndPort(s, classify);
      if IsNullOrEmpty(s.remarks) then serverStr else s.remarks.text + " (" + serverStr + ")"
  }

  /** The text after the last colon of `id`, read as an integer, and the text before it. */
  function SplitIdentifier(id: string): Option<(string, int)> {
    var k := Text.LastIndexOf(id, ':');
    if k < 0 then None
    else
      match ParseInt(id[k + 1..])
      case None => None
      case Some(p) => Some((id[..k], p))
  }

  // ---- Properties ------------------------------------------------------

  /** `Equals` is an equivalence relation. */
  lemma EqualsIsEquivalence(a: Server, b: Server, c: Server)
    ensures Equals(a, a)
    ensures Equals(a, b) ==> Equals(b, a)
    ensures Equals(a, b) && Equals(b, c) ==> Equals(a, c)
  {
  }

  /** Remarks take no part in `Equals`. */
  lemma EqualsIgnoresRemarks(a: Server, r: NullableString)
    ensures Equals(a, a.(remarks := r))
  {
  }

  /** Equal servers have equal hash codes, whatever the string hash. */
  lemma EqualServersEqualHashes(a: Server, b: Server, stringHash: string -> int32)
    requires Equals(a, b)
    ensures GetHashCode(a, stringHash) == GetHashCode(b, stringHash)
  {
  }

  /** The identifier can be split back into the host text and the port. */
  lemma SplitIdentifierInverts(s: Server)
    ensures SplitIdentifier(Identifier(s)) == Some((TextOf(s.server), s.serverPort as int))
  {
    var id := Identifier(s);
    var h := TextOf(s.server);
    var p := IntToString(s.serverPort);
    assert id == h + [':'] + p;
    Text.LastIndexOfSuffix(h, ':', p);
    assert id[|h| + 1..] == p;
    assert id[..|h|] == h;
    ParseIntToString(s.serverPort);
  }

  /**
   * Two servers with hosts have the same identifier exactly when they are
   * equal; a null host and an empty one are told apart by `Equals` only
   * (see `NullAndEmptyHostShareIdentifier`).
   */
  lemma EqualsIffSameIdentifier(a: Server, b: Server)
    requires a.server.Str? && b.server.Str?
    ensures Equals(a, b) <==> Identifier(a) == Identifier(b)
  {
    if Identifier(a) == Identifier(b) {
      SplitIdentifierInverts(a);
      SplitIdentifierInverts(b);
    }
  }

  lemma NullAndEmptyHostShareIdentifier(p: int32, r: NullableString)
    ensures Identifier(Server(Null, p, r)) == Identifier(Server(Str(""), p, r))
    ensures !Equals(Server(Null, p, r), Server(Str(""), p, r))
  {
  }

  /** A server without a host is shown with the "New server" label alone. */
  lemma FriendlyNameOfNewEntry(s: Server, newLabel: string, classify: string -> UriHostNameType)
    requires IsNullOrEmpty(s.server)
    ensures FriendlyName(s, newLabel, classify) == newLabel
  {
  }

  /**
   * Without remarks, the friendly name of a host that is not an IPv6 literal
   * is its identifier, and that of an IPv6 literal is its identifier with the
   * host in brackets.
   */
  lemma FriendlyNameWithoutRemarks(s: Server, newLabel: string, classify: string -> UriHostNameType)
    requires !IsNullOrEmpty(s.server) && IsNullOrEmpty(s.remarks)
    ensures CheckHostName(s.server, classify) != IPv6 ==> FriendlyName(s, newLabel, classify) == Identifier(s)
    ensures CheckHostName(s.server, classify) == IPv6 ==>
      FriendlyName(s, newLabel, classify) == "[" + s.server.text + "]:" + IntToString(s.serverPort)
  {
    if CheckHostName(s.server, classify) == IPv6 {
      assert "[" + s.server.text + "]" + ":" == "[" + s.server.text + "]:";
    }
  }

  /** With remarks, the friendly name is the remarks and, in parentheses, the name without them. */
  lemma FriendlyNameWithRemarks(s: Server, newLabel: string, classify: string -> UriHostNameType)
    requires !IsNullOrEmpty(s.server) && !IsNullOrEmpty(s.remarks)
    ensures FriendlyName(s, newLabel, classify) ==
      s.remarks.text + " (" + FriendlyName(s.(remarks := Null), newLabel, classify) + ")"
  {
  }

  /** The port can always be read back from after the last colon of a friendly name without remarks. */
  lemma FriendlyNameEndsWithPort(s: Server, newLabel: string, classify: string -> UriHostNameType)
    requires !IsNullOrEmpty(s.server) && IsNullOrEmpty(s.remarks)
    ensures SplitIdentifier(FriendlyName(s, newLabel, classify)) ==
      Some((TextOf(FormatHostName(s.server, classify)), s.serverPort as int))
  {
    var h := TextOf(FormatHostName(s.server, classify));
    var p := IntToString(s.serverPort);
    var f := FriendlyName(s, newLabel, classify);
    assert f == h + [':'] + p;
    Text.LastIndexOfSuffix(h, ':', p);
    assert f[|h| + 1..] == p;
    assert f[..|h|] == h;
    ParseIntToString(s.serverPort);
  }

  /** A new server is identified as 127.0.0.1:1080 and, unless the runtime calls that an IPv6 literal, shown so. */
  lemma NewServerNames(newLabel: string, classify: string -> UriHostNameType)
    ensures Identifier(NewServer()) == "127.0.0.1:1080"
    ensures classify(DefaultServer) != IPv6 ==> FriendlyName(NewServer(), newLabel, classify) == "127.0.0.1:1080"
  {
    assert NatToString(1) == "1";
    assert NatToString(10) == NatToString(1) + "0";
    assert NatToString(108) == NatToString(10) + "8";
    assert NatToString(1080) == NatToString(108) + "0";
  }
}
