# PAC server and server record of Shadowsocks for Windows

This project is a Dafny model of two parts of Shadowsocks for Windows.

The first part is the embedded HTTP server that hands out the proxy
auto-configuration (PAC) script, `PACServer`. The model covers:

- how the first packet of a connection is matched as `GET /pac` with a `Host`
  header naming the socket's own end point, and with the secret when one is
  required;
- the response it builds: a `var __PROXY__ = 'PROXY host:port;';` line, the
  script, and an HTTP/1.1 200 head whose `Content-Length` counts the body's
  UTF-8 octets;
- the published PAC URL, with its `hash` and optional `secret` parameters;
- the secret, which is generated lazily and then cached;
- `Start`/`Stop`: picking the port and the bind address, and keeping the
  listening socket field.

The second part is the `Server` record of the configuration. The model covers
its default values, its equality and hash on host and port only, its
`Identifier`, and its menu name `FriendlyName`. That name brackets IPv6 hosts,
as section 3.2.2 of RFC 3986 requires for IP literals.

Files:

- `wrappers.dfy`: `Option` and the `byte` type.
- `text.dfy`: the .NET string operations the source calls: `Split`, `Split(…, 2)`, `IndexOf`, `Contains`, `Trim` and ordinal ignore-case comparison; also `LastIndexOf`, which the properties use to take texts apart.
- `decimal.dfy`: `Int32.ToString`, and a parser that inverts it.
- `utf8.dfy`: `Encoding.UTF8.GetBytes` and `Encoding.ASCII.GetBytes`.
- `url_token.dfy`: base 64 (section 4 of RFC 4648) and `HttpServerUtility.UrlTokenEncode`.
- `server.dfy`: `Server`.
- `pac_request.dfy`: the request matcher as functions, with its decision table.
- `pac_response.dfy`: the proxy directive, the body, the head and the octets sent.
- `pac_url.dfy`: the hash and the published URL.
- `pac_server.dfy`: the `PacServer` class with the state it updates, `Handle`, and its header loop `ScanHeaders`.

Foreign inputs are parameters:

- the UTF-8 decoder;
- the MD5 digest;
- the 32 random octets;
- the PAC script (`PACDaemon.GetPACContent`);
- the product version (`UpdateChecker.Version`);
- the localised "New server" label;
- the syntax check of `Uri.CheckHostName`;
- the runtime's string hash;
- the port the OS assigns to the probe listener;
- the ports of the active TCP listeners;
- whether `Bind`/`Listen` succeed.

## Behaviour of the code worth knowing

These are places where the code behaves differently from what a reader of
its names and comments might expect. The model follows the code.

- `Start` does not close a socket left by an earlier `Start`; it overwrites the field (`PacServer.Start`). The caller is expected to call `Stop` first.
- `Start` assigns the PAC port before the port-in-use check, so a failed start still changes it. When binding fails, the configuration, bind address and PAC URL have already been updated, and the field keeps the closed socket.
- `ReceiveCallback` closes every TCP connection after `Handle` returns:
  - a connection dropped for a missing secret is therefore closed twice (`ConnectionClosed`);
  - an answered one is closed right after the asynchronous send has been started, not after it completes.
- The secret check is a raw substring test on the whole query, including the `?` and the `hash` parameter.
- The resource check drops the first UTF-16 code unit of the target, whatever it is, so `Xpac` is accepted as well as `/pac` (`FirstCharacterNotChecked`). A first character above U+FFFF takes two code units, so only half of it is dropped and the path does not match (`SupplementaryFirstCharacterDeclined`).
- The header name must be exactly `Host`; `host:` is ignored (`LowerCaseHostIgnored`).
- The content hash is taken over ASCII octets, so every non-ASCII character of the script hashes as one `?` per UTF-16 code unit: one for a character up to U+FFFF, two above it (`HashBlindToNonAscii`, `HashInputSeesCodeUnits`).
- A request whose target is empty, or starts with `?`, makes `Remove(0, 1)` throw. The exception is caught, and the request is declined before the headers are read.

## Model

| member | source | states |
|---|---|---|
| Text.Split | shadowsocks-csharp/Controller/Service/PACServer.cs:83 | `Split` keeps empty pieces: one piece more than there are separators, no piece holds a separator, and the pieces concatenate to the text without its separators |
| Text.SplitNoSeparator | shadowsocks-csharp/Controller/Service/PACServer.cs:83 | a text without a separator splits into itself alone |
| Text.SplitAtSeparator | shadowsocks-csharp/Controller/Service/PACServer.cs:83 | the first piece ends at the first separator and the rest is split on its own |
| Text.SplitSingleIff | shadowsocks-csharp/Controller/Service/PACServer.cs:87 | there is one piece exactly when no separator occurs |
| Text.JoinSplit | shadowsocks-csharp/Controller/Service/PACServer.cs:95 | joining the pieces again with the separator gives back the text |
| Text.IndexOf | shadowsocks-csharp/Controller/Service/PACServer.cs:98 | -1 exactly when the character is absent, otherwise the position of its first occurrence |
| Text.LastIndexOf | shadowsocks-csharp/Model/Server.cs:73-76 | -1 exactly when the character is absent, otherwise the position of its last occurrence (used to split identifiers and directives back) |
| Text.Contains | shadowsocks-csharp/Controller/Service/PACServer.cs:110 | the text occurs at some position (`ContainsInMiddle`) |
| Text.Trim | shadowsocks-csharp/Controller/Service/PACServer.cs:129 | `TrimEnd` of `TrimStart`: white space removed at both ends (`TrimAround`) |
| Text.EqualsIgnoreCase | shadowsocks-csharp/Controller/Service/PACServer.cs:104 | equal length and equal characters after upper-casing ASCII letters |
| Text.SomeLineIff | shadowsocks-csharp/Controller/Service/PACServer.cs:119-143 | the flag kept over the header lines scanned so far holds exactly when one of them, after the request line, passes the test |
| Text.SplitFirst | shadowsocks-csharp/Controller/Service/PACServer.cs:124 | `Split(new[] {':'}, 2)`: one piece when there is no colon, otherwise the text before the first colon and everything after it |
| Text.ContainsInMiddle | shadowsocks-csharp/Controller/Service/PACServer.cs:110 | a text contains every text placed inside it |
| Text.TrimStart | shadowsocks-csharp/Controller/Service/PACServer.cs:129 | the result is a suffix that does not start with white space, and only white space was removed |
| Text.TrimEnd | shadowsocks-csharp/Controller/Service/PACServer.cs:129 | the result is a prefix that does not end with white space, and only white space was removed |
| Text.TrimAround | shadowsocks-csharp/Controller/Service/PACServer.cs:129 | `Trim` removes exactly the white space around a text with no white space at its ends |
| Decimal.IntToString | shadowsocks-csharp/Controller/Service/PACServer.cs:55 | a non-empty text with no colon, semicolon, space or `?`, all digits exactly for a non-negative number |
| Decimal.ParseIntToString | shadowsocks-csharp/Controller/Service/PACServer.cs:209 | the decimal text of a number reads back as that number |
| Encodings.Utf8 | shadowsocks-csharp/Controller/Service/PACServer.cs:184 | UTF-8 gives at least one octet per character |
| Encodings.Utf8Char | shadowsocks-csharp/Controller/Service/PACServer.cs:180 | a character has one octet exactly when it is ASCII |
| Encodings.Utf8Append | shadowsocks-csharp/Controller/Service/PACServer.cs:184 | encoding a concatenation encodes the parts one after the other |
| Encodings.Utf8OfAscii | shadowsocks-csharp/Controller/Service/PACServer.cs:180 | an ASCII text encodes to its own character codes |
| Encodings.Utf8LongerUnlessAscii | shadowsocks-csharp/Controller/Service/PACServer.cs:180 | a text that is not ASCII encodes to more octets than it has characters |
| Encodings.AsciiChar | shadowsocks-csharp/Controller/Service/PACServer.cs:61 | an ASCII character is its own code; any other is 0x3F once per UTF-16 code unit, so twice above U+FFFF |
| Encodings.Ascii | shadowsocks-csharp/Controller/Service/PACServer.cs:61 | at least one octet per character, every octet below 0x80 |
| Encodings.AsciiOfConcat | shadowsocks-csharp/Controller/Service/PACServer.cs:61 | the encoding of a concatenation is the encodings of its parts, one after the other |
| Encodings.AsciiOfOneCodeUnitText | shadowsocks-csharp/Controller/Service/PACServer.cs:61 | a text without characters above U+FFFF has one octet per character: its code when ASCII, 0x3F otherwise |
| UrlToken.Base64Digits | shadowsocks-csharp/Controller/Service/PACServer.cs:29 | ceil(4n/3) base-64 digits for n octets |
| UrlToken.TrailingPadsOfBase64 | shadowsocks-csharp/Controller/Service/PACServer.cs:29 | the `=` characters at the end of the base-64 text are exactly its padding |
| UrlToken.UrlTokenEncode | shadowsocks-csharp/Controller/Service/PACServer.cs:29 | empty exactly for no octets; only letters, digits, `-` and `_` |
| UrlToken.UrlTokenLength | shadowsocks-csharp/Controller/Service/PACServer.cs:29 | n > 0 octets give ceil(4n/3) characters and the pad-count digit |
| ServerModel.NewServer | shadowsocks-csharp/Model/Server.cs:66-71 | host 127.0.0.1, port 1080, empty remarks |
| ServerModel.Equals | shadowsocks-csharp/Model/Server.cs:35-39 | same host (a null host only equals a null one) and same port (`EqualsIsEquivalence`, `EqualsIgnoresRemarks`, `EqualsIffSameIdentifier`) |
| ServerModel.Identifier | shadowsocks-csharp/Model/Server.cs:73-76 | host text, `:`, port (`SplitIdentifierInverts`) |
| ServerModel.CheckHostName | shadowsocks-csharp/Model/Server.cs:54-64 | `Uri.CheckHostName`: unknown for null, empty or over-long names, otherwise the classifier passed in |
| ServerModel.HostAndPort | shadowsocks-csharp/Model/Server.cs:48 | the formatted host, `:`, port (`FriendlyNameWithoutRemarks`) |
| ServerModel.FriendlyName | shadowsocks-csharp/Model/Server.cs:41-52 | the "New server" label, the host and port, or the remarks with the host and port in parentheses (`FriendlyNameOfNewEntry`, `FriendlyNameWithoutRemarks`, `FriendlyNameWithRemarks`) |
| ServerModel.EqualsIsEquivalence | shadowsocks-csharp/Model/Server.cs:35-39 | `Equals` is reflexive, symmetric and transitive |
| ServerModel.EqualsIgnoresRemarks | shadowsocks-csharp/Model/Server.cs:35-39 | changing the remarks keeps a server equal to itself |
| ServerModel.GetHashCode | shadowsocks-csharp/Model/Server.cs:30-33 | the hash throws exactly when the host is null |
| ServerModel.EqualServersEqualHashes | shadowsocks-csharp/Model/Server.cs:30-39 | equal servers have equal hash codes, whatever the string hash |
| ServerModel.SplitIdentifierInverts | shadowsocks-csharp/Model/Server.cs:73-76 | the identifier splits back, at its last colon, into the host text and the port |
| ServerModel.EqualsIffSameIdentifier | shadowsocks-csharp/Model/Server.cs:73-76 | for servers with hosts, equal exactly when the identifiers are equal |
| ServerModel.NullAndEmptyHostShareIdentifier | shadowsocks-csharp/Model/Server.cs:73-76 | a null host and an empty one have the same identifier but are not equal |
| ServerModel.FormatHostName | shadowsocks-csharp/Model/Server.cs:54-64 | bracketed exactly when classified IPv6, returned unchanged otherwise |
| ServerModel.FriendlyNameOfNewEntry | shadowsocks-csharp/Model/Server.cs:43-46 | a server with a null or empty host is shown as the "New server" label |
| ServerModel.FriendlyNameWithoutRemarks | shadowsocks-csharp/Model/Server.cs:48-51 | without remarks, the name is the identifier, with the host bracketed for IPv6 |
| ServerModel.FriendlyNameWithRemarks | shadowsocks-csharp/Model/Server.cs:48-51 | with remarks, the name is the remarks followed by the plain name in parentheses |
| ServerModel.FriendlyNameEndsWithPort | shadowsocks-csharp/Model/Server.cs:48-51 | the port reads back from after the last colon of a name without remarks |
| ServerModel.NewServerNames | shadowsocks-csharp/Model/Server.cs:66-76 | a new server's identifier is `127.0.0.1:1080`, and so is its name unless the host is classified IPv6 |
| PacRequest.QueryStart | shadowsocks-csharp/Controller/Service/PACServer.cs:98-102 | the index of the first `?` of the target, or its length when it has none |
| PacRequest.RequestLines | shadowsocks-csharp/Controller/Service/PACServer.cs:83 | the request split at every CR and every LF, empty pieces kept (`Text.Split`, `RequestTextLines`) |
| PacRequest.CheckRequestLine | shadowsocks-csharp/Controller/Service/PACServer.cs:93-116 | the request line's verdict: the query of a matching `GET /pac`, a mismatch, or the throw of `Remove(0, 1)` (`PathMatchIff`, `PathOkQuery`, `EmptyResourceDeclined`, `OtherMethodMismatch`) |
| PacRequest.AddressText | shadowsocks-csharp/Controller/Service/PACServer.cs:129 | the address of an end point, bracketed for IPv6 (`DirectiveBrackets`) |
| PacRequest.EndPointText | shadowsocks-csharp/Controller/Service/PACServer.cs:129 | `IPEndPoint.ToString()`, the address followed by `:` and the port (`LoopbackEndPointText`) |
| PacRequest.IsHostLine | shadowsocks-csharp/Controller/Service/PACServer.cs:121-131 | the test one header line is put to (`HostLineIff`, `LineWithoutColonSkipped`, `LowerCaseHostIgnored`, `HostValueTrimmed`) |
| PacRequest.HostMatch | shadowsocks-csharp/Controller/Service/PACServer.cs:119-143 | some line after the request line is a matching `Host` header (`ScanHeaders`) |
| PacRequest.Decide | shadowsocks-csharp/Controller/Service/PACServer.cs:83-157 | decline, drop or serve after the protocol and configuration checks (`DecisionTable`, `DecideBySteps`, `GetRequestDecision`) |
| PacRequest.SplitGetLine | shadowsocks-csharp/Controller/Service/PACServer.cs:95 | `GET target version`, with single spaces and none inside the parts, splits into those three items |
| PacRequest.GetLineOfItems | shadowsocks-csharp/Controller/Service/PACServer.cs:95-96 | a line that splits into three items starting with `GET` is `GET`, the target and the version joined by spaces |
| PacRequest.PathMatchIff | shadowsocks-csharp/Controller/Service/PACServer.cs:95-106 | `pathMatch` holds exactly when the line is `GET` followed by a target whose part before the `?`, less its first code unit, is `pac` in any case, and a version |
| PacRequest.PathOkQuery | shadowsocks-csharp/Controller/Service/PACServer.cs:98-109 | the query the secret is looked for in is the target from its first `?` on |
| PacRequest.EmptyResourceDeclined | shadowsocks-csharp/Controller/Service/PACServer.cs:98-103 | an empty target, or one starting with `?`, throws in `Remove(0, 1)`, and the request is declined |
| PacRequest.OtherMethodMismatch | shadowsocks-csharp/Controller/Service/PACServer.cs:96 | a request line with another method never matches the path |
| PacRequest.FirstCharacterNotChecked | shadowsocks-csharp/Controller/Service/PACServer.cs:103-104 | any first character of one UTF-16 code unit (other than `?` and space) followed by `pac` or `PAC` matches |
| PacRequest.SupplementaryFirstCharacterDeclined | shadowsocks-csharp/Controller/Service/PACServer.cs:103-104 | a first character above U+FFFF followed by `pac` does not match: `Remove(0, 1)` leaves its low surrogate in front of `pac` |
| PacRequest.HostLineIff | shadowsocks-csharp/Controller/Service/PACServer.cs:119-133 | a line sets `hostMatch` exactly when it starts with `Host:` and the trimmed rest is the end point's text |
| PacRequest.DecideBySteps | shadowsocks-csharp/Controller/Service/PACServer.cs:87-157 | with two lines or more, the decision is taken in `Handle`'s order: a throwing request line declines, otherwise path and `Host` match decide, then the secret |
| PacRequest.LineWithoutColonSkipped | shadowsocks-csharp/Controller/Service/PACServer.cs:124-125 | a line without a colon never sets `hostMatch` |
| PacRequest.LowerCaseHostIgnored | shadowsocks-csharp/Controller/Service/PACServer.cs:127 | a `host:` header never matches: the name is compared case-sensitively |
| PacRequest.HostValueTrimmed | shadowsocks-csharp/Controller/Service/PACServer.cs:129 | white space around the `Host` value does not prevent a match |
| PacRequest.TooFewLines | shadowsocks-csharp/Controller/Service/PACServer.cs:83-90 | fewer than two lines exactly when there is no CR or LF, and then the request is declined |
| PacRequest.DecisionTable | shadowsocks-csharp/Controller/Service/PACServer.cs:145-157 | handled exactly when the path and the `Host` match; answered exactly when, in addition, no secret is required or the query carries it |
| PacRequest.NoSecretNoDrop | shadowsocks-csharp/Controller/Service/PACServer.cs:85 | without secret protection, a request is never dropped |
| PacRequest.RequestTextLines | shadowsocks-csharp/Controller/Service/PACServer.cs:83 | a request line, a `Host` header and a blank line, all CRLF-terminated, split into seven lines: empty pieces between CR and LF |
| PacRequest.SplitAtCrLf | shadowsocks-csharp/Controller/Service/PACServer.cs:83 | a line ended by CR LF is followed by an empty piece, then by the split of the rest |
| PacRequest.MatchedDecision | shadowsocks-csharp/Controller/Service/PACServer.cs:145-156 | once the path and the `Host` match, the secret alone decides between answering and dropping |
| PacRequest.RequestTextClean | shadowsocks-csharp/Controller/Service/PACServer.cs:83 | parts without line separators make a request line and a `Host` line without them |
| PacRequest.GetRequestDecision | shadowsocks-csharp/Controller/Service/PACServer.cs:93-156 | a `GET` of a PAC target naming the end point is answered exactly when no secret is required or the query holds it, and dropped otherwise |
| PacRequest.OtherMethodDeclined | shadowsocks-csharp/Controller/Service/PACServer.cs:96-116 | a request with any other method is declined |
| PacRequest.LoopbackEndPointText | shadowsocks-csharp/Controller/Service/PACServer.cs:129 | the IPv4 loopback end point on port 8123 reads `127.0.0.1:8123` |
| PacRequest.ServedWithoutSecret | shadowsocks-csharp/Controller/Service/PACServer.cs:145-156 | `GET /pac HTTP/1.1` with `Host: 127.0.0.1:8123` is answered when no secret is required |
| PacRequest.DroppedWithoutSecret | shadowsocks-csharp/Controller/Service/PACServer.cs:145-150 | the same request is dropped when a non-empty secret is required |
| PacRequest.PostDeclined | shadowsocks-csharp/Controller/Service/PACServer.cs:96 | `POST /pac` is declined |
| PacResponse.SplitDirective | shadowsocks-csharp/Controller/Service/PACServer.cs:209-210 | a kind without spaces, an address and a port without colons, written as the directive, are found again at its first space and its last colon |
| PacResponse.DirectiveParts | shadowsocks-csharp/Controller/Service/PACServer.cs:206-211 | the directive parses back into the kind before the first space, the host before the last colon, the configured local port, and a closing semicolon |
| PacResponse.DirectiveKind | shadowsocks-csharp/Controller/Service/PACServer.cs:209-210 | the directive starts with `SOCKS5` exactly when SOCKS was asked for |
| PacResponse.DirectiveBrackets | shadowsocks-csharp/Controller/Service/PACServer.cs:208-210 | the address is bracketed exactly for an IPv6 end point |
| PacResponse.BodyLines | shadowsocks-csharp/Controller/Service/PACServer.cs:175 | the first line of the body is `var __PROXY__ = '…';`, and everything after its line feed is the script unchanged |
| PacResponse.ContentLengthIsBodyLength | shadowsocks-csharp/Controller/Service/PACServer.cs:175-184 | the octets sent are the head's and then the body's, and `Content-Length` is the number of the body's octets |
| PacResponse.HeadEndsWithBlankLine | shadowsocks-csharp/Controller/Service/PACServer.cs:176-183 | the head ends with the empty line, CR LF CR LF |
| PacResponse.HeadIsAscii | shadowsocks-csharp/Controller/Service/PACServer.cs:176-184 | with an ASCII version, the head has one octet per character |
| PacResponse.ProxyKind | shadowsocks-csharp/Controller/Service/PACServer.cs:209-210 | `SOCKS5` or `PROXY` (`DirectiveKind`) |
| PacResponse.ProxyDirective | shadowsocks-csharp/Controller/Service/PACServer.cs:206-211 | `GetProxyAddress`: kind, space, bracketed or plain address, `:`, local port, `;` (`DirectiveParts`, `DirectiveKind`, `DirectiveBrackets`) |
| PacResponse.ResponseBody | shadowsocks-csharp/Controller/Service/PACServer.cs:175 | the `var __PROXY__` line followed by the script (`BodyLines`) |
| PacResponse.ResponseHead | shadowsocks-csharp/Controller/Service/PACServer.cs:176-183 | the status line, `Server`, `Content-Type`, `Content-Length` and `Connection` fields and a blank line (`HeadEndsWithBlankLine`, `HeadIsAscii`) |
| PacResponse.ResponseBytes | shadowsocks-csharp/Controller/Service/PACServer.cs:184 | the UTF-8 octets of the head followed by the body, with `Content-Length` the body's octet count (`ContentLengthIsBodyLength`) |
| PacUrl.GetHash | shadowsocks-csharp/Controller/Service/PACServer.cs:59-62 | the hash is a URL token |
| PacUrl.SecretParameter | shadowsocks-csharp/Controller/Service/PACServer.cs:53 | `&secret=` and the secret when required, nothing otherwise (`SecretParameterIff`) |
| PacUrl.PacQuery | shadowsocks-csharp/Controller/Service/PACServer.cs:55 | `?hash=`, the hash, then the secret parameter (`SecretParameterIff`, `PacPathPlain`) |
| PacUrl.PacPath | shadowsocks-csharp/Controller/Service/PACServer.cs:55 | `/pac` and the query (`PacPathTarget`) |
| PacUrl.PacUrlText | shadowsocks-csharp/Controller/Service/PACServer.cs:55 | the published URL (`PacUrlAuthority`, `PublishedUrlServed`) |
| PacUrl.HashBlindToNonAscii | shadowsocks-csharp/Controller/Service/PACServer.cs:61 | scripts that differ only in which non-ASCII character stands at one place have the same hash, when both characters take the same number of UTF-16 code units |
| PacUrl.HashInputSeesCodeUnits | shadowsocks-csharp/Controller/Service/PACServer.cs:61 | with a character above U+FFFF in place of one below it, the octets digested are one longer |
| PacUrl.UrlTokenIsPlain | shadowsocks-csharp/Controller/Service/PACServer.cs:29 | a URL token holds no space, line separator, `?` or `&` |
| PacUrl.PacUrlAuthority | shadowsocks-csharp/Controller/Service/PACServer.cs:55 | the URL is `http://`, the end-point text for the local host and PAC port, then the path and query |
| PacUrl.SecretParameterIff | shadowsocks-csharp/Controller/Service/PACServer.cs:53-55 | the query holds a `&` exactly when the secret is required, and then it contains the secret |
| PacUrl.PacPathPlain | shadowsocks-csharp/Controller/Service/PACServer.cs:55 | the path and query hold no space and no line separator |
| PacUrl.PacPathTarget | shadowsocks-csharp/Controller/Service/PACServer.cs:55 | the URL's path names the PAC resource, and its query starts at the `?` after `/pac` |
| PacUrl.PublishedUrlServed | shadowsocks-csharp/Controller/Service/PACServer.cs:50-56 | a `GET` of the published path and query with a matching `Host` is answered, whether or not the secret is required |
| PacUrl.UrlWithoutSecretDropped | shadowsocks-csharp/Controller/Service/PACServer.cs:107-114 | with the secret required, the URL published without it is dropped when the secret is longer than the query |
| PacUrl.SecretOutgrowsQuery | shadowsocks-csharp/Controller/Service/PACServer.cs:27-29 | a 32-octet secret (44 characters) is longer than the query built from a 16-octet digest |
| PacServerModel.SecretAfter | shadowsocks-csharp/Controller/Service/PACServer.cs:21-32 | the cache is never empty after a read, a non-empty cache is kept as it is, and it stays a URL token |
| PacServerModel.BindAddressFor | shadowsocks-csharp/Controller/Service/PACServer.cs:219-221 | an IPv6 address exactly when IPv6 is enabled, and an any-address exactly when shared over the LAN |
| PacServerModel.GetFreePort | shadowsocks-csharp/Controller/Service/PACServer.cs:329-347 | the port the OS assigned to the loopback probe of the requested family, or 8123 when the probe fails |
| PacServerModel.CheckIfPortInUse | shadowsocks-csharp/Controller/Service/PACServer.cs:314-318 | true exactly when some active listener has the port |
| PacServerModel.HandleOutcome | shadowsocks-csharp/Controller/Service/PACServer.cs:64-163 | `Handle` on values: the protocol, length and configuration checks, then `Answer` (`HandleDecisionTable`, `OutcomeOfRequest`) |
| PacServerModel.Answer | shadowsocks-csharp/Controller/Service/PACServer.cs:145-157 | the decision on a decoded request and, when served, the response octets (`ServedResponds`, `RespondedSends`) |
| PacServerModel.ReadsSecret | shadowsocks-csharp/Controller/Service/PACServer.cs:85-116 | `Handle` reads `PacSecret` exactly for a TCP packet, under secret protection, whose request line matches the path |
| PacServerModel.SecretUnusedUnlessRead | shadowsocks-csharp/Controller/Service/PACServer.cs:85-116 | where `Handle` does not read the secret, its outcome is the same for every secret |
| PacServerModel.ConnectionActions | shadowsocks-csharp/Controller/Service/PACServer.cs:289-312 | the actions on a connection after its first read (`ConnectionClosed`) |
| PacServerModel.HandleDecisionTable | shadowsocks-csharp/Controller/Service/PACServer.cs:64-163 | non-TCP sockets and out-of-range lengths are declined; `Handle` returns true exactly when path and `Host` match; it answers exactly when, in addition, the secret is not required or is present; it drops only under secret protection |
| PacServerModel.ResponseOfHandle | shadowsocks-csharp/Controller/Service/PACServer.cs:153 | a response from `Handle` is a `PROXY` directive for the socket's address, and its head counts the body's octets |
| PacServerModel.RespondedSends | shadowsocks-csharp/Controller/Service/PACServer.cs:145-155 | when `Handle` answers, what it sends is the response octets for a `PROXY` directive to the socket's address and the configured local port |
| PacServerModel.ServedResponds | shadowsocks-csharp/Controller/Service/PACServer.cs:145-155 | a request the matcher serves is answered with a response, never dropped or declined |
| PacServerModel.ConnectionClosed | shadowsocks-csharp/Controller/Service/PACServer.cs:289-312 | the last action on a TCP connection is a close; at most one response is sent, first, and exactly when `Handle` answered; a dropped connection is closed twice |
| PacServerModel.PublishedUrlAnswered | shadowsocks-csharp/Controller/Service/PACServer.cs:50-163 | a packet holding a `GET` of the published path and query, with a `Host` naming the socket's end point, is answered by `Handle` |
| PacServerModel.PacServer.constructor | shadowsocks-csharp/Controller/Service/PACServer.cs:34-48 | an empty secret cache and URL, no configuration, no socket, and the object invariant |
| PacServerModel.PacServer.PacSecret | shadowsocks-csharp/Controller/Service/PACServer.cs:21-33 | generates a secret only while the cache is empty; a cached secret is returned unchanged; the result is non-empty |
| PacServerModel.PacServer.UpdatePacUrl | shadowsocks-csharp/Controller/Service/PACServer.cs:50-57 | stores the configuration and sets the URL to host, PAC port, `/pac?hash=` and the hash, plus `&secret=` and the secret exactly when it is required; the invariant is kept |
| PacServerModel.PacServer.SendResponse | shadowsocks-csharp/Controller/Service/PACServer.cs:167-193 | the response octets for the socket's end point and the configured local port, or a close when there is no configuration |
| PacServerModel.ScanHeaders | shadowsocks-csharp/Controller/Service/PACServer.cs:119-143 | the header loop: `hostMatch` ends true exactly when some line after the request line is a `Host` header naming the end point |
| PacServerModel.PacServer.Handle | shadowsocks-csharp/Controller/Service/PACServer.cs:64-163 | the result is the decision on the decoded request (see `HandleDecisionTable`) with the secret `PacSecret` yields, and `hostMatch` from the header loop `ScanHeaders`; it throws only without a configuration; the secret cache is filled exactly when `ReadsSecret` holds, and nothing else changes |
| PacServerModel.PacServer.Receive | shadowsocks-csharp/Controller/Service/PACServer.cs:289-312 | the actions on the connection after a read: nothing for an empty read, `Handle`'s outcome otherwise, then a close for TCP (see `ConnectionClosed`); the secret cache changes as `Handle` changes it |
| PacServerModel.PacServer.Start | shadowsocks-csharp/Controller/Service/PACServer.cs:213-245 | sets the PAC port first; changes nothing else when the port is in use; otherwise sets the bind address and the URL, and keeps a listening socket, or a closed one when binding fails |
| PacServerModel.PacServer.Stop | shadowsocks-csharp/Controller/Service/PACServer.cs:320-327 | closes and clears the listening socket, changing nothing else |

## Left out

- The asynchronous socket plumbing is not modelled: `AcceptCallback` and its re-arming of `BeginAccept`, `BeginReceive` into the 4096-octet buffer, `BeginSend` and the half-close in `SendCallback`. It is concurrent I/O. `Receive` models one completed read, and a sent response is an action on the connection.
- Logging and `Utils.ReleaseMemory` are not modelled: they have no effect on the logic.
- `PacServer.Receive`: an exception from `EndReceive` is not modelled. The model starts from the number of octets read.
- `PacServer.SendResponse`: only the throw caused by a missing configuration is modelled. A failing `BeginSend` is not, since it depends on the socket.
- `PacServer.Start`: a failure of the `Socket` constructor or of `SetSocketOption` is not modelled, and neither is the `ReuseAddress` option. Binding is a single success-or-failure parameter.
- `Handle` always passes `useSocks` false, as in the source, where the `User-Agent` rule is commented out. The `state` argument is unused and left out.
- `Text.EqualsIgnoreCase`: folds ASCII letters only, where `OrdinalIgnoreCase` also folds other letters. It is exact for the one comparison made, against `pac`, because no non-ASCII character upper-cases to `P`, `A` or `C`.
- Strings are sequences of Unicode scalar values, and lone UTF-16 surrogates cannot be represented. Where the source removes or counts code units (`Remove(0, 1)`, `Encoding.ASCII`), the model says whether a character takes one (`Text.InOneCodeUnit`). Other lengths count scalar values, not code units; that includes the 0x7FFF length limit of `ServerModel.CheckHostName`.
- `PacRequest.FirstCharacterNotChecked`: stated for a first character of one code unit only. A character above U+FFFF is the case of `SupplementaryFirstCharacterDeclined`.
- `PacUrl.HashBlindToNonAscii`: stated for two characters that take the same number of code units. Otherwise the digested octets differ in length (`HashInputSeesCodeUnits`); whether the digests differ depends on MD5, which is a parameter.
- `PacServer.Handle`: the configuration is a value, not the object the controller shares with the server, so a change to it made elsewhere while `Handle` runs is not modelled. The object invariant admits any combination of protection setting and secret cache, since `Handle` fills an empty cache itself.
- `ServerModel.CheckHostName`: the syntax check of `Uri.CheckHostName` beyond null, empty and over-long names is a parameter. `string.GetHashCode` is a parameter too.
- `ServerModel.Equals`: only two `Server` values are compared. With a null argument the cast succeeds and reading `o2.server` throws a `NullReferenceException`; with an argument of another type the cast throws an `InvalidCastException`. Neither is modelled.
- Handle's decoding of the packet is a parameter, and so is MD5. The random generator is represented by the 32 octets it produces. `PACDaemon.GetPACContent`, `UpdateChecker.Version` and the `I18N` label are values passed in.
- The callers (`ShadowsocksController` and the views) are not part of this model, nor is `PrivoxyRunner`.
