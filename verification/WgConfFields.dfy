/** All fields of a printed WireGuard configuration, read back from its text key by key. */
module WgConfFields {
  import opened Wrappers
  import opened Text
  import opened WgConf
  import opened WgConfRoundTrip

  /** What a printed configuration says, key by key, in the order of the text. */
  function Fields(c: PrintedConfig, extra: seq<(string, string)>): seq<(string, string)> {
    InterfaceFields(c) +
    NonEmpty(c.obfuscation) + NonEmpty(c.specialJunk) + NonEmpty(c.session) + extra +
    [("PublicKey", c.serverPublicKey), ("Endpoint", c.serverIpv4AddrIn + ":" + c.serverPort)] +
    ([("AllowedIPs", Join(c.ranges, ", "))] + if c.keepalive == "" then [] else [("PersistentKeepalive", c.keepalive)])
  }

  function InterfaceFields(c: PrintedConfig): seq<(string, string)> {
    [("PrivateKey", c.privateKey)] + [("Address", Listing(c.deviceIpv4, c.deviceIpv6))] +
    (if c.mtu.Some? then [("MTU", c.mtu.value)] else []) +
    (if c.primaryDns == "" then [] else [("DNS", Resolvers(c))])
  }

  /** The resolvers: the primary one, a secondary one if there is one, and the gateway's IPv6 address if the
      primary one is the gateway. */
  function Resolvers(c: PrintedConfig): string {
    c.primaryDns + (if c.secondaryDns == "" then "" else ", " + c.secondaryDns) +
    if c.primaryDns == c.gatewayIpv4 then ", " + c.gatewayIpv6 else ""
  }

  function Listing(a: Option<string>, b: Option<string>): string {
    match (a, b)
    case (Some(x), Some(y)) => x + ", " + y
    case (Some(x), None) => x
    case (None, Some(y)) => y
    case (None, None) => ""
  }

  function NonEmpty(pairs: seq<(string, string)>): seq<(string, string)> {
    if pairs == [] then []
    else
      var last := pairs[|pairs| - 1];
      NonEmpty(pairs[..|pairs| - 1]) + if last.1 == "" then [] else [last]
  }

  /** The first value under a key. */
  function Lookup(pairs: seq<(string, string)>, key: string): Option<string> {
    if pairs == [] then None else if pairs[0].0 == key then Some(Trim(pairs[0].1, Space)) else Lookup(pairs[1..], key)
  }

  lemma {:induction false} LookupConcat(a: seq<(string, string)>, b: seq<(string, string)>, key: string)
    ensures Lookup(a + b, key) == if Lookup(a, key).Some? then Lookup(a, key) else Lookup(b, key)
  {
    if a == [] {
      assert a + b == b;
    } else {
      LookupConcat(a[1..], b, key);
      assert (a + b)[1..] == a[1..] + b;
    }
  }

  lemma LookupOne(key: string, value: string, name: string)
    ensures Lookup([(key, value)], name) == if key == name then Some(Trim(value, Space)) else None
  {
    hide Trim;
    assert [(key, value)][1..] == [];
  }

  /** The parser finds in these lines what these fields say. */
  ghost predicate Says(lines: seq<string>, fields: seq<(string, string)>, name: string) {
    FindValue(lines, name) == Lookup(fields, name)
  }

  lemma SaysBoth(x: seq<string>, y: seq<string>, f: seq<(string, string)>, g: seq<(string, string)>, name: string)
    requires Says(x, f, name) && Says(y, g, name)
    ensures Says(x + y, f + g, name)
  {
    hide FindValue, Lookup;
    FindConcat(x, y, name);
    LookupConcat(f, g, name);
  }

  lemma EntrySays(key: string, value: string, name: string)
    requires PlainKey(key)
    ensures Says([Entry(key, value)], [(key, value)], name)
  {
    hide Named, ValueOf, Trim, FindValue;
    EntryReadsBack(key, value);
    FindFirst(Entry(key, value), [], name);
    assert [Entry(key, value)] + [] == [Entry(key, value)];
    NothingSays(name);
    LookupOne(key, value, name);
  }

  lemma HeaderSays(line: string, name: string)
    requires '=' !in line
    ensures Says([line], [], name)
  {
    hide Named, ValueOf;
    NoFields(line, name);
    FindFirst(line, [], name);
    assert [line] + [] == [line];
  }

  lemma NothingSays(name: string)
    ensures Says([], [], name)
  {}

  lemma {:induction false} EntriesSay(pairs: seq<(string, string)>, evenEmpty: bool, name: string)
    requires forall i :: 0 <= i < |pairs| ==> PlainKey(pairs[i].0)
    ensures Says(Entries(pairs, evenEmpty), if evenEmpty then pairs else NonEmpty(pairs), name)
  {
    hide Says, Entry, PlainKey;
    if pairs == [] {
      NothingSays(name);
    } else {
      var front, last := pairs[..|pairs| - 1], pairs[|pairs| - 1];
      EntriesSay(front, evenEmpty, name);
      EntrySays(last.0, last.1, name);
      var said := if evenEmpty then front else NonEmpty(front);
      SaysBoth(Entries(front, evenEmpty), [Entry(last.0, last.1)], said, [last], name);
      assert front + [last] == pairs;
      assert Entries(front, evenEmpty) + [] == Entries(front, evenEmpty) && said + [] == said;
    }
  }

  ghost predicate PlainKeys(pairs: seq<(string, string)>) {
    forall i :: 0 <= i < |pairs| ==> PlainKey(pairs[i].0)
  }

  lemma AddressIsListing(c: PrintedConfig)
    ensures Join(Present(c.deviceIpv4) + Present(c.deviceIpv6), ", ") == Listing(c.deviceIpv4, c.deviceIpv6)
  {
    if c.deviceIpv4.Some? && c.deviceIpv6.Some? {
      var both := Present(c.deviceIpv4) + Present(c.deviceIpv6);
      assert both == [c.deviceIpv4.value, c.deviceIpv6.value] && both[1..] == [c.deviceIpv6.value];
    }
  }

  lemma DnsIsListing(c: PrintedConfig)
    ensures Join(DnsServers(c), ", ") == Resolvers(c)
  {
    var all := DnsServers(c);
    assert |all| > 1 ==> Join(all, ", ") == all[0] + ", " + Join(all[1..], ", ");
    assert |all| > 2 ==> Join(all[1..], ", ") == all[1] + ", " + Join(all[2..], ", ") && all[1..][1..] == all[2..];
    if |all| == 3 {
      assert all[2..] == [c.gatewayIpv6] && Join([c.gatewayIpv6], ", ") == c.gatewayIpv6;
    } else if |all| == 2 {
      assert all[1..] == [all[1]] && Join([all[1]], ", ") == all[1];
    }
  }

  lemma InterfaceSays(c: PrintedConfig, name: string)
    ensures Says(InterfaceLines(c), InterfaceFields(c), name)
  {
    FixedKeysHarmless();
    AddressIsListing(c);
    DnsIsListing(c);
    var address, dns := Join(Present(c.deviceIpv4) + Present(c.deviceIpv6), ", "), Join(DnsServers(c), ", ");
    hide Says, Entry, PlainKey, Join, DnsServers, Listing, Resolvers;
    NothingSays(name);
    HeaderSays("[Interface]", name);
    EntrySays("PrivateKey", c.privateKey, name);
    EntrySays("Address", address, name);
    var lines: seq<string>, said: seq<(string, string)> := ["[Interface]"], [];
    SaysBoth(lines, [Entry("PrivateKey", c.privateKey)], said, [("PrivateKey", c.privateKey)], name);
    lines, said := lines + [Entry("PrivateKey", c.privateKey)], said + [("PrivateKey", c.privateKey)];
    SaysBoth(lines, [Entry("Address", address)], said, [("Address", address)], name);
    lines, said := lines + [Entry("Address", address)], said + [("Address", address)];
    if c.mtu.Some? {
      EntrySays("MTU", c.mtu.value, name);
      SaysBoth(lines, [Entry("MTU", c.mtu.value)], said, [("MTU", c.mtu.value)], name);
      lines, said := lines + [Entry("MTU", c.mtu.value)], said + [("MTU", c.mtu.value)];
    }
    if c.primaryDns != "" {
      EntrySays("DNS", dns, name);
      SaysBoth(lines, [Entry("DNS", dns)], said, [("DNS", dns)], name);
      lines, said := lines + [Entry("DNS", dns)], said + [("DNS", dns)];
    }
    assert lines == InterfaceLines(c);
    assert said == InterfaceFields(c);
  }

  lemma PeerSays(c: PrintedConfig, name: string)
    ensures Says(Peer(c), [("PublicKey", c.serverPublicKey), ("Endpoint", c.serverIpv4AddrIn + ":" + c.serverPort)],
              name)
  {
    FixedKeysHarmless();
    var endpoint := c.serverIpv4AddrIn + ":" + c.serverPort;
    hide Says, Entry, PlainKey;
    HeaderSays("", name);
    HeaderSays("[Peer]", name);
    EntrySays("PublicKey", c.serverPublicKey, name);
    EntrySays("Endpoint", endpoint, name);
    var none: seq<(string, string)> := [];
    SaysBoth([""], ["[Peer]"], none, none, name);
    SaysBoth([""] + ["[Peer]"], [Entry("PublicKey", c.serverPublicKey)],
             none + none, [("PublicKey", c.serverPublicKey)], name);
    SaysBoth([""] + ["[Peer]"] + [Entry("PublicKey", c.serverPublicKey)], [Entry("Endpoint", endpoint)],
             none + none + [("PublicKey", c.serverPublicKey)], [("Endpoint", endpoint)], name);
    assert [""] + ["[Peer]"] + [Entry("PublicKey", c.serverPublicKey)] + [Entry("Endpoint", endpoint)] == Peer(c);
    assert none + none + [("PublicKey", c.serverPublicKey)] + [("Endpoint", endpoint)]
        == [("PublicKey", c.serverPublicKey), ("Endpoint", endpoint)];
  }

  lemma FootSays(ranges: seq<string>, keepalive: string, name: string)
    ensures Says(Foot(ranges, keepalive), [("AllowedIPs", Join(ranges, ", "))] +
                 if keepalive == "" then [] else [("PersistentKeepalive", keepalive)], name)
  {
    var allowed := Join(ranges, ", ");
    assert PlainKey("AllowedIPs") && PlainKey("PersistentKeepalive");
    hide Says, Entry, PlainKey, Join;
    NothingSays(name);
    EntrySays("AllowedIPs", allowed, name);
    if keepalive != "" {
      EntrySays("PersistentKeepalive", keepalive, name);
      SaysBoth([Entry("AllowedIPs", allowed)], [Entry("PersistentKeepalive", keepalive)],
               [("AllowedIPs", allowed)], [("PersistentKeepalive", keepalive)], name);
    } else {
      assert [Entry("AllowedIPs", allowed)] + [] == [Entry("AllowedIPs", allowed)];
      assert [("AllowedIPs", allowed)] + [] == [("AllowedIPs", allowed)];
    }
  }

  lemma LinesSay(c: PrintedConfig, extra: seq<(string, string)>, name: string)
    requires PlainKeys(c.obfuscation) && PlainKeys(c.specialJunk) && PlainKeys(c.session) && PlainKeys(extra)
    ensures Says(Lines(c, extra), Fields(c, extra), name)
  {
    InterfaceSays(c, name);
    PeerSays(c, name);
    FootSays(c.ranges, c.keepalive, name);
    EntriesSay(c.obfuscation, false, name);
    EntriesSay(c.specialJunk, false, name);
    EntriesSay(c.session, false, name);
    EntriesSay(extra, true, name);
    hide Says, Entries, InterfaceLines, InterfaceFields, Peer, Foot, NonEmpty, Join, PlainKey;
    var lines, said := InterfaceLines(c), InterfaceFields(c);
    SaysBoth(lines, Entries(c.obfuscation, false), said, NonEmpty(c.obfuscation), name);
    lines, said := lines + Entries(c.obfuscation, false), said + NonEmpty(c.obfuscation);
    SaysBoth(lines, Entries(c.specialJunk, false), said, NonEmpty(c.specialJunk), name);
    lines, said := lines + Entries(c.specialJunk, false), said + NonEmpty(c.specialJunk);
    SaysBoth(lines, Entries(c.session, false), said, NonEmpty(c.session), name);
    lines, said := lines + Entries(c.session, false), said + NonEmpty(c.session);
    SaysBoth(lines, Entries(extra, true), said, extra, name);
    lines, said := lines + Entries(extra, true), said + extra;
    var peer := [("PublicKey", c.serverPublicKey), ("Endpoint", c.serverIpv4AddrIn + ":" + c.serverPort)];
    SaysBoth(lines, Peer(c), said, peer, name);
    var foot := [("AllowedIPs", Join(c.ranges, ", "))] +
                if c.keepalive == "" then [] else [("PersistentKeepalive", c.keepalive)];
    SaysBoth(lines + Peer(c), Foot(c.ranges, c.keepalive), said + peer, foot, name);
  }

  lemma {:induction false} OneLinePieces(lines: seq<string>)
    requires forall l :: l in lines ==> '\n' !in l
    ensures PiecesOf(lines) == lines
  {
    hide Split;
    if lines != [] {
      var front, last := lines[..|lines| - 1], lines[|lines| - 1];
      OneLinePieces(front);
      SplitUnfold(last, '\n', "");
      assert lines == front + [last];
    }
  }

  /** Every field of a configuration in one-line values reads back from its text, trimmed, under its own key:
      the first one of that key. */
  lemma FieldsReadBack(c: PrintedConfig, extra: seq<(string, string)>, name: string)
    requires Printable(c) && name != ""
    requires PlainKeys(c.obfuscation) && PlainKeys(c.specialJunk) && PlainKeys(c.session) && PlainKeys(extra)
    requires forall l :: l in Lines(c, extra) ==> '\n' !in l
    ensures FindValue(Split(Conf(c, extra), '\n'), name) == Lookup(Fields(c, extra), name)
  {
    LinesSay(c, extra, name);
    hide Lines, Fields, Printable, PlainKeys, Split, Render, Lookup, FindValue;
    RenderPieces(Lines(c, extra));
    OneLinePieces(Lines(c, extra));
    FindConcat(Lines(c, extra), [""], name);
    EmptyLineSays(name);
  }

  lemma EmptyLineSays(name: string)
    requires name != ""
    ensures FindValue([""], name) == None
  {
    HeaderSays("", name);
  }

  /** The lines of a configuration in one-line values are lines. */
  lemma OneLineLines(c: PrintedConfig, extra: seq<(string, string)>)
    requires Printable(c) && OneLineValues(c, extra) && '\n' !in c.keepalive && forall r :: r in c.ranges ==> '\n' !in r
    ensures forall l :: l in Lines(c, extra) ==> '\n' !in l
    ensures PlainKeys(c.obfuscation) && PlainKeys(c.specialJunk) && PlainKeys(c.session) && PlainKeys(extra)
  {
    hide Entries, Join, Harmless, SettingsOk, Entry, Present, DnsServers, PlainKeys;
    SettingsHarmless(c.obfuscation);
    SettingsHarmless(c.session);
    EntriesOneLine(c.obfuscation, false);
    EntriesOneLine(c.specialJunk, false);
    EntriesOneLine(c.session, false);
    EntriesOneLine(extra, true);
    InterfaceOneLine(c);
    EntryOneLine("PublicKey", c.serverPublicKey);
    EntryOneLine("Endpoint", c.serverIpv4AddrIn + ":" + c.serverPort);
    JoinOneLine(c.ranges);
    EntryOneLine("AllowedIPs", Join(c.ranges, ", "));
    EntryOneLine("PersistentKeepalive", c.keepalive);
    hide InterfaceLines;
  }

  lemma InterfaceOneLine(c: PrintedConfig)
    requires Printable(c) && '\n' !in c.primaryDns && '\n' !in c.secondaryDns && (c.mtu.Some? ==> '\n' !in c.mtu.value)
    ensures forall l :: l in InterfaceLines(c) ==> '\n' !in l
  {
    JoinOneLine(Present(c.deviceIpv4) + Present(c.deviceIpv6));
    JoinOneLine(DnsServers(c));
    hide Join, Entry, Present, DnsServers;
    EntryOneLine("PrivateKey", c.privateKey);
    EntryOneLine("Address", Join(Present(c.deviceIpv4) + Present(c.deviceIpv6), ", "));
    EntryOneLine("DNS", Join(DnsServers(c), ", "));
    if c.mtu.Some? { EntryOneLine("MTU", c.mtu.value); }
  }

  lemma {:induction false} EntriesOneLine(pairs: seq<(string, string)>, evenEmpty: bool)
    requires Harmless(pairs)
    ensures PlainKeys(pairs) && forall l :: l in Entries(pairs, evenEmpty) ==> '\n' !in l
  {
    if pairs != [] {
      var (key, value) := pairs[|pairs| - 1];
      EntriesOneLine(pairs[..|pairs| - 1], evenEmpty);
      EntryOneLine(key, value);
    }
  }

  /** The fields of the interface and of the peer, unless an entry of another kind takes their key. */
  lemma FixedFieldsReadBack(c: PrintedConfig, extra: seq<(string, string)>)
    requires Printable(c) && OneLineValues(c, extra) && '\n' !in c.keepalive && forall r :: r in c.ranges ==> '\n' !in r
    requires forall i :: 0 <= i < |Entered(c, extra)| ==>
              Entered(c, extra)[i].0 !in {"MTU", "DNS", "PublicKey", "Endpoint"}
    ensures var lines := Split(Conf(c, extra), '\n');
            && FindValue(lines, "PrivateKey") == Some(Trim(c.privateKey, Space))
            && FindValue(lines, "Address") == Some(Trim(Listing(c.deviceIpv4, c.deviceIpv6), Space))
            && FindValue(lines, "MTU") == (if c.mtu.Some? then Some(Trim(c.mtu.value, Space)) else None)
            && FindValue(lines, "DNS") == (if c.primaryDns == "" then None else Some(Trim(Resolvers(c), Space)))
            && FindValue(lines, "PublicKey") == Some(Trim(c.serverPublicKey, Space))
            && FindValue(lines, "Endpoint") == Some(Trim(c.serverIpv4AddrIn + ":" + c.serverPort, Space))
  {
    OneLineLines(c, extra);
    FieldsReadBack(c, extra, "PrivateKey");
    FieldsReadBack(c, extra, "Address");
    FieldsReadBack(c, extra, "MTU");
    FieldsReadBack(c, extra, "DNS");
    FieldsReadBack(c, extra, "PublicKey");
    FieldsReadBack(c, extra, "Endpoint");
    FixedLookups(c, extra);
  }

  /** The entries whose keys are not fixed. */
  function Entered(c: PrintedConfig, extra: seq<(string, string)>): seq<(string, string)> {
    NonEmpty(c.obfuscation) + NonEmpty(c.specialJunk) + NonEmpty(c.session) + extra
  }

  lemma {:induction false} NotEntered(pairs: seq<(string, string)>, name: string)
    requires forall i :: 0 <= i < |pairs| ==> pairs[i].0 != name
    ensures Lookup(pairs, name) == None
  {
    if pairs != [] { NotEntered(pairs[1..], name); }
  }

  lemma FixedLookups(c: PrintedConfig, extra: seq<(string, string)>)
    requires forall i :: 0 <= i < |Entered(c, extra)| ==>
              Entered(c, extra)[i].0 !in {"MTU", "DNS", "PublicKey", "Endpoint"}
    ensures Lookup(Fields(c, extra), "PrivateKey") == Some(Trim(c.privateKey, Space))
    ensures Lookup(Fields(c, extra), "Address") == Some(Trim(Listing(c.deviceIpv4, c.deviceIpv6), Space))
    ensures Lookup(Fields(c, extra), "MTU") == if c.mtu.Some? then Some(Trim(c.mtu.value, Space)) else None
    ensures Lookup(Fields(c, extra), "DNS") == if c.primaryDns == "" then None else Some(Trim(Resolvers(c), Space))
    ensures Lookup(Fields(c, extra), "PublicKey") == Some(Trim(c.serverPublicKey, Space))
    ensures Lookup(Fields(c, extra), "Endpoint") == Some(Trim(c.serverIpv4AddrIn + ":" + c.serverPort, Space))
  {
    FixedLookup(c, extra, "PrivateKey");
    FixedLookup(c, extra, "Address");
    FixedLookup(c, extra, "MTU");
    FixedLookup(c, extra, "DNS");
    FixedLookup(c, extra, "PublicKey");
    FixedLookup(c, extra, "Endpoint");
    FixedNamesDiffer();
    hide Lookup, Fields, Trim, Listing, Resolvers;
  }

  lemma FixedNamesDiffer()
    ensures "PrivateKey" != "Address" && "PrivateKey" != "MTU" && "PrivateKey" != "DNS"
    ensures "Address" != "MTU" && "Address" != "DNS" && "MTU" != "DNS" && "PublicKey" != "Endpoint"
    ensures "PublicKey" !in {"PrivateKey", "Address", "MTU", "DNS"}
    ensures "Endpoint" !in {"PrivateKey", "Address", "MTU", "DNS"}
    ensures "AllowedIPs" !in {"PublicKey", "Endpoint", "MTU", "DNS"}
    ensures "PersistentKeepalive" !in {"PublicKey", "Endpoint", "MTU", "DNS"}
  {
    assert |"PublicKey"| == 9 && |"Endpoint"| == 8 && |"AllowedIPs"| == 10 && |"PersistentKeepalive"| == 19;
    assert |"PrivateKey"| == 10 && "PrivateKey"[0] == 'P' && "AllowedIPs"[0] == 'A';
    assert |"Address"| == 7 && |"MTU"| == 3 && |"DNS"| == 3 && "MTU"[0] == 'M' && "DNS"[0] == 'D';
  }

  lemma FixedLookup(c: PrintedConfig, extra: seq<(string, string)>, name: string)
    requires name !in {"PrivateKey", "Address"} ==>
               forall i :: 0 <= i < |Entered(c, extra)| ==> Entered(c, extra)[i].0 != name
    ensures Lookup(Fields(c, extra), name)
         == if Lookup(InterfaceFields(c), name).Some? then Lookup(InterfaceFields(c), name)
           else Lookup(PeerFields(c), name)
    ensures Lookup(InterfaceFields(c), name)
         == if name == "PrivateKey" then Some(Trim(c.privateKey, Space))
            else if name == "Address" then Some(Trim(Listing(c.deviceIpv4, c.deviceIpv6), Space))
            else if name == "MTU" && c.mtu.Some? then Some(Trim(c.mtu.value, Space))
            else if name == "DNS" && c.primaryDns != "" then Some(Trim(Resolvers(c), Space))
            else None
    ensures name == "PublicKey" ==> Lookup(PeerFields(c), name) == Some(Trim(c.serverPublicKey, Space))
    ensures name == "Endpoint" ==>
              Lookup(PeerFields(c), name) == Some(Trim(c.serverIpv4AddrIn + ":" + c.serverPort, Space))
    ensures name == "MTU" || name == "DNS" ==> Lookup(PeerFields(c), name) == None
  {
    hide Trim, Listing, Resolvers, Join;
    InThreeParts(c, extra, name);
    InterfaceLookup(c, name);
    PeerLookup(c, name);
    FixedNamesDiffer();
    if name !in {"PrivateKey", "Address"} { NotEntered(Entered(c, extra), name); }
    hide Lookup, Fields, InterfaceFields, PeerFields, Entered;
  }

  /** The last fields. */
  function PeerFields(c: PrintedConfig): seq<(string, string)> {
    [("PublicKey", c.serverPublicKey), ("Endpoint", c.serverIpv4AddrIn + ":" + c.serverPort)] +
    ([("AllowedIPs", Join(c.ranges, ", "))] + if c.keepalive == "" then [] else [("PersistentKeepalive", c.keepalive)])
  }

  lemma InThreeParts(c: PrintedConfig, extra: seq<(string, string)>, name: string)
    ensures Lookup(Fields(c, extra), name)
         == if Lookup(InterfaceFields(c), name).Some? then Lookup(InterfaceFields(c), name)
            else if Lookup(Entered(c, extra), name).Some? then Lookup(Entered(c, extra), name)
            else Lookup(PeerFields(c), name)
  {
    hide Lookup, InterfaceFields, NonEmpty, Join;
    assert Fields(c, extra) == InterfaceFields(c) + Entered(c, extra) + PeerFields(c);
    LookupConcat(InterfaceFields(c), Entered(c, extra), name);
    LookupConcat(InterfaceFields(c) + Entered(c, extra), PeerFields(c), name);
  }

  lemma InterfaceLookup(c: PrintedConfig, name: string)
    ensures Lookup(InterfaceFields(c), name)
         == if name == "PrivateKey" then Some(Trim(c.privateKey, Space))
            else if name == "Address" then Some(Trim(Listing(c.deviceIpv4, c.deviceIpv6), Space))
            else if name == "MTU" && c.mtu.Some? then Some(Trim(c.mtu.value, Space))
            else if name == "DNS" && c.primaryDns != "" then Some(Trim(Resolvers(c), Space))
            else None
  {
    hide Trim, Listing, Resolvers;
    FixedNamesDiffer();
    var key, address := [("PrivateKey", c.privateKey)], [("Address", Listing(c.deviceIpv4, c.deviceIpv6))];
    var mtu := if c.mtu.Some? then [("MTU", c.mtu.value)] else [];
    var dns := if c.primaryDns == "" then [] else [("DNS", Resolvers(c))];
    LookupOne("PrivateKey", c.privateKey, name);
    LookupOne("Address", Listing(c.deviceIpv4, c.deviceIpv6), name);
    if c.mtu.Some? { LookupOne("MTU", c.mtu.value, name); }
    LookupOne("DNS", Resolvers(c), name);
    NothingSays(name);
    hide Lookup;
    LookupConcat(key, address, name);
    LookupConcat(key + address, mtu, name);
    LookupConcat(key + address + mtu, dns, name);
  }

  lemma PeerLookup(c: PrintedConfig, name: string)
    ensures name == "PublicKey" ==> Lookup(PeerFields(c), name) == Some(Trim(c.serverPublicKey, Space))
    ensures name == "Endpoint" ==>
              Lookup(PeerFields(c), name) == Some(Trim(c.serverIpv4AddrIn + ":" + c.serverPort, Space))
    ensures name == "MTU" || name == "DNS" ==> Lookup(PeerFields(c), name) == None
  {
    FixedNamesDiffer();
    var endpoint, allowed := c.serverIpv4AddrIn + ":" + c.serverPort, Join(c.ranges, ", ");
    hide Trim, Join;
    var peer, foot := [("PublicKey", c.serverPublicKey)] + [("Endpoint", endpoint)], PeerFields(c)[2..];
    LookupOne("PublicKey", c.serverPublicKey, name);
    LookupOne("Endpoint", endpoint, name);
    assert forall i :: 0 <= i < |foot| ==> foot[i].0 == "AllowedIPs" || foot[i].0 == "PersistentKeepalive";
    if name in {"PublicKey", "Endpoint", "MTU", "DNS"} { NotEntered(foot, name); }
    hide Lookup;
    LookupConcat([("PublicKey", c.serverPublicKey)], [("Endpoint", endpoint)], name);
    LookupConcat(peer, foot, name);
    assert PeerFields(c) == peer + foot;
  }

  /** A configuration is printed if and only if it has an address and none of its checked values spans
      lines. */
  lemma PrintedIff(c: PrintedConfig, extra: seq<(string, string)>)
    ensures Conf(c, extra) != "" <==>
              && (c.deviceIpv4.Some? || c.deviceIpv6.Some?)
              && (c.deviceIpv4.Some? ==> '\n' !in c.deviceIpv4.value)
              && (c.deviceIpv6.Some? ==> '\n' !in c.deviceIpv6.value)
              && '\n' !in c.privateKey && '\n' !in c.serverPublicKey && '\n' !in c.gatewayIpv4 && '\n' !in c.gatewayIpv6
              && '\n' !in c.serverIpv4AddrIn && '\n' !in c.serverIpv6AddrIn
  {
    hide Head, Foot;
    if Printable(c) { assert Lines(c, extra) != [] by { ConfIsRendered(c, extra); } }
  }
}
