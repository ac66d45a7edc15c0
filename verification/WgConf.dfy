/** The printer of WireGuard configurations (client/daemon/interfaceconfig.cpp) and the line parser
    that reads them (VpnConnection::appendSplitTunnelingConfig, client/vpnConnection.cpp). */
module WgConf {
  import opened Wrappers
  import opened Text

  /** The printed parts of an InterfaceConfig. `None` is a null QString; numbers and ranges are given
      as their text; `obfuscation` and `session` hold the optional fields under their printed keys, in
      order, and `specialJunk` the I1..I5 entries that are printed between them. */
  datatype PrintedConfig = PrintedConfig(
    privateKey: string,
    deviceIpv4: Option<string>, deviceIpv6: Option<string>,
    gatewayIpv4: string, gatewayIpv6: string,
    serverPublicKey: string, serverIpv4AddrIn: string, serverIpv6AddrIn: string, serverPort: string,
    mtu: Option<string>, primaryDns: string, secondaryDns: string,
    obfuscation: seq<(string, string)>, specialJunk: seq<(string, string)>, session: seq<(string, string)>,
    ranges: seq<string>, keepalive: string)

  function Entry(key: string, value: string): string {
    key + " = " + value
  }

  function Entries(pairs: seq<(string, string)>, evenEmpty: bool): seq<string> {
    if pairs == [] then []
    else
      var (key, value) := pairs[|pairs| - 1];
      Entries(pairs[..|pairs| - 1], evenEmpty) + if value == "" && !evenEmpty then [] else [Entry(key, value)]
  }

  function Present(o: Option<string>): seq<string> {
    if o.Some? then [o.value] else []
  }

  function DnsServers(c: PrintedConfig): seq<string> {
    [c.primaryDns] + (if c.secondaryDns != "" then [c.secondaryDns] else []) +
    (if c.primaryDns == c.gatewayIpv4 then [c.gatewayIpv6] else [])
  }

  /** The VALIDATE checks, and the test for an address. */
  predicate Printable(c: PrintedConfig) {
    && '\n' !in c.privateKey
    && '\n' !in Join(Present(c.deviceIpv4), "") && '\n' !in Join(Present(c.deviceIpv6), "")
    && '\n' !in c.gatewayIpv4 && '\n' !in c.gatewayIpv6
    && '\n' !in c.serverPublicKey && '\n' !in c.serverIpv4AddrIn && '\n' !in c.serverIpv6AddrIn
    && (c.deviceIpv4.Some? || c.deviceIpv6.Some?)
  }

  function InterfaceLines(c: PrintedConfig): seq<string> {
    ["[Interface]", Entry("PrivateKey", c.privateKey),
     Entry("Address", Join(Present(c.deviceIpv4) + Present(c.deviceIpv6), ", "))] +
    (if c.mtu.Some? then [Entry("MTU", c.mtu.value)] else []) +
    (if c.primaryDns != "" then [Entry("DNS", Join(DnsServers(c), ", "))] else [])
  }

  /** The lines ahead of the allowed ranges. */
  function Head(c: PrintedConfig, extra: seq<(string, string)>): seq<string> {
    InterfaceLines(c) +
    Entries(c.obfuscation, false) + Entries(c.specialJunk, false) + Entries(c.session, false) + Entries(extra, true) +
    Peer(c)
  }

  function Peer(c: PrintedConfig): seq<string> {
    ["", "[Peer]", Entry("PublicKey", c.serverPublicKey), Entry("Endpoint", c.serverIpv4AddrIn + ":" + c.serverPort)]
  }

  /** The last lines. */
  function Foot(ranges: seq<string>, keepalive: string): seq<string> {
    [Entry("AllowedIPs", Join(ranges, ", "))] +
    if keepalive != "" then [Entry("PersistentKeepalive", keepalive)] else []
  }

  function Lines(c: PrintedConfig, extra: seq<(string, string)>): seq<string> {
    Head(c, extra) + Foot(c.ranges, c.keepalive)
  }

  /** Every line with its newline. */
  function Render(lines: seq<string>): string {
    if lines == [] then "" else Render(lines[..|lines| - 1]) + lines[|lines| - 1] + "\n"
  }

  function Conf(c: PrintedConfig, extra: seq<(string, string)>): string {
    if Printable(c) then Render(Lines(c, extra)) else ""
  }

  // ------------------------------------------------------------- the parser

  predicate Named(line: string, name: string) {
    var fields := Split(line, '=');
    |fields| >= 2 && Trim(fields[0], Space) == name
  }

  function ValueOf(line: string): string {
    Trim(Join(Split(line, '=')[1..], "="), Space)
  }

  /** The value on the first line with this name. */
  function FindValue(lines: seq<string>, name: string): Option<string> {
    if lines == [] then None
    else if Named(lines[0], name) then Some(ValueOf(lines[0]))
    else FindValue(lines[1..], name)
  }

  /** Pieces between commas: empty ones skipped, the rest trimmed. */
  function Pieces(parts: seq<string>): seq<string> {
    if parts == [] then []
    else (if parts[0] == "" then [] else [Trim(parts[0], Space)]) + Pieces(parts[1..])
  }

  function ReadRanges(text: string): Option<seq<string>> {
    match FindValue(Split(text, '\n'), "AllowedIPs")
    case None => None
    case Some(value) => Some(Pieces(Split(value, ',')))
  }

  /** The source's scan for allowed ranges. */
  method ParseAllowedIps(text: string) returns (r: Option<seq<string>>)
    ensures r == ReadRanges(text)
  {
    hide Split, Named, ValueOf, Pieces;
    var lines := Split(text, '\n');
    for i := 0 to |lines|
      invariant FindValue(lines, "AllowedIPs") == FindValue(lines[i..], "AllowedIPs")
    {
      assert lines[i..][0] == lines[i] && lines[i..][1..] == lines[i + 1..];
      if Named(lines[i], "AllowedIPs") {
        var ips := TrimPieces(Split(ValueOf(lines[i]), ','));
        return Some(ips);
      }
    }
    return None;
  }

  method TrimPieces(parts: seq<string>) returns (ips: seq<string>)
    ensures ips == Pieces(parts)
  {
    hide Trim, Pieces;
    ips := [];
    assert parts[0..] == parts;
    for j := 0 to |parts|
      invariant ips + Pieces(parts[j..]) == Pieces(parts)
    {
      PiecesStep(ips, parts, j);
      if parts[j] != "" { ips := ips + [Trim(parts[j], Space)]; } else { assert ips + [] == ips; }
    }
    PiecesStep(ips, parts, |parts|);
  }

  lemma PiecesStep(ips: seq<string>, parts: seq<string>, j: nat)
    requires j <= |parts|
    ensures j < |parts| ==>
              ips + Pieces(parts[j..])
                == ips + (if parts[j] == "" then [] else [Trim(parts[j], Space)]) + Pieces(parts[j + 1..])
    ensures j == |parts| ==> ips + Pieces(parts[j..]) == ips
  {
    if j < |parts| { assert parts[j..][1..] == parts[j + 1..]; }
  }

  /** The source's scan for the keepalive interval. */
  method ParseKeepalive(text: string) returns (r: Option<string>)
    ensures r == FindValue(Split(text, '\n'), "PersistentKeepalive")
  {
    hide Split, Named, ValueOf;
    var lines := Split(text, '\n');
    for i := 0 to |lines|
      invariant FindValue(lines, "PersistentKeepalive") == FindValue(lines[i..], "PersistentKeepalive")
    {
      assert lines[i..][0] == lines[i] && lines[i..][1..] == lines[i + 1..];
      if Named(lines[i], "PersistentKeepalive") { return Some(ValueOf(lines[i])); }
    }
    return None;
  }

  // ------------------------------------------------------------- the printer

  method PrintEntries(pairs: seq<(string, string)>, evenEmpty: bool, start: string, ghost before: seq<string>)
    returns (content: string)
    requires start == Render(before)
    ensures content == Render(before + Entries(pairs, evenEmpty))
  {
    content := start;
    assert before + [] == before;
    for i := 0 to |pairs|
      invariant content == Render(before + Entries(pairs[..i], evenEmpty))
    {
      assert pairs[..i + 1][..i] == pairs[..i];
      var (key, value) := pairs[i];
      ghost var lines := before + Entries(pairs[..i], evenEmpty);
      if value != "" || evenEmpty {
        content := content + Entry(key, value) + "\n";
        assert (lines + [Entry(key, value)])[..|lines|] == lines;
        assert before + Entries(pairs[..i + 1], evenEmpty) == lines + [Entry(key, value)];
      } else {
        assert before + Entries(pairs[..i + 1], evenEmpty) == lines;
      }
    }
    assert pairs[..|pairs|] == pairs;
  }

  lemma RenderSnoc(lines: seq<string>, line: string)
    ensures Render(lines + [line]) == Render(lines) + line + "\n"
  {
    assert (lines + [line])[..|lines|] == lines;
  }

  method PrintLine(start: string, line: string, ghost before: seq<string>) returns (content: string)
    requires start == Render(before)
    ensures content == Render(before + [line])
  {
    RenderSnoc(before, line);
    content := start + line + "\n";
  }

  /** InterfaceConfig::toWgConf: the text is printed piece by piece, as the source does. */
  method ToWgConf(c: PrintedConfig, extra: seq<(string, string)>) returns (content: string)
    ensures content == Conf(c, extra)
  {
    hide Render, Entry, Entries, Join, Printable;
    if !Printable(c) { return ""; }
    content := PrintInterface(c);
    ghost var lines := InterfaceLines(c);
    content := PrintEntries(c.obfuscation, false, content, lines);
    lines := lines + Entries(c.obfuscation, false);
    content := PrintEntries(c.specialJunk, false, content, lines);
    lines := lines + Entries(c.specialJunk, false);
    content := PrintEntries(c.session, false, content, lines);
    lines := lines + Entries(c.session, false);
    content := PrintEntries(extra, true, content, lines);
    lines := lines + Entries(extra, true);
    content := PrintPeer(c, content, lines);
    assert lines + Peer(c) == Head(c, extra);
  }

  method PrintInterface(c: PrintedConfig) returns (content: string)
    ensures content == Render(InterfaceLines(c))
  {
    hide Entry, Join;
    content := PrintLine("", "[Interface]", []);
    ghost var lines := ["[Interface]"];
    assert [] + lines == lines;
    content := PrintLine(content, Entry("PrivateKey", c.privateKey), lines);
    lines := lines + [Entry("PrivateKey", c.privateKey)];
    var address := Entry("Address", Join(Present(c.deviceIpv4) + Present(c.deviceIpv6), ", "));
    content := PrintLine(content, address, lines);
    lines := lines + [address];
    if c.mtu.Some? {
      content := PrintLine(content, Entry("MTU", c.mtu.value), lines);
      lines := lines + [Entry("MTU", c.mtu.value)];
    }
    if c.primaryDns != "" {
      content := PrintLine(content, Entry("DNS", Join(DnsServers(c), ", ")), lines);
      lines := lines + [Entry("DNS", Join(DnsServers(c), ", "))];
    }
    assert lines == InterfaceLines(c);
  }

  method PrintPeer(c: PrintedConfig, start: string, ghost before: seq<string>) returns (content: string)
    requires start == Render(before)
    ensures content == Render(before + Peer(c) + Foot(c.ranges, c.keepalive))
  {
    hide Entry, Join, Render;
    ghost var lines := before + ["", "[Peer]"];
    content := PrintLine(start, "", before);
    content := PrintLine(content, "[Peer]", before + [""]);
    assert before + [""] + ["[Peer]"] == lines;
    content := PrintLine(content, Entry("PublicKey", c.serverPublicKey), lines);
    lines := lines + [Entry("PublicKey", c.serverPublicKey)];
    var endpoint := Entry("Endpoint", c.serverIpv4AddrIn + ":" + c.serverPort);
    content := PrintLine(content, endpoint, lines);
    lines := lines + [endpoint];
    content := PrintLine(content, Entry("AllowedIPs", Join(c.ranges, ", ")), lines);
    lines := lines + [Entry("AllowedIPs", Join(c.ranges, ", "))];
    if c.keepalive != "" {
      content := PrintLine(content, Entry("PersistentKeepalive", c.keepalive), lines);
      lines := lines + [Entry("PersistentKeepalive", c.keepalive)];
    }
    assert lines == before + Peer(c) + Foot(c.ranges, c.keepalive);
  }
}
