/** The kill switch of service/server/killswitch.cpp, Linux branch, over a model of the anchors and
    tables of the firewall. */
module KillSwitch {
  import opened Text

  // ------------------------------------------------------------- isValidIpOrCidr

  predicate IsDigits(s: string, most: nat) {
    1 <= |s| <= most && forall i :: 0 <= i < |s| ==> '0' <= s[i] <= '9'
  }

  /** The regular expression ^(\d{1,3}\.){3}\d{1,3}(/\d{1,2})?$ on text without a final newline. */
  predicate Dotted(body: string) {
    var halves := Split(body, '/');
    var octets := Split(halves[0], '.');
    && |halves| <= 2 && |octets| == 4
    && (forall i :: 0 <= i < 4 ==> IsDigits(octets[i], 3))
    && (|halves| == 2 ==> IsDigits(halves[1], 2))
  }

  /** `$` also matches before a newline that ends the text. */
  predicate RegexMatches(s: string) {
    Dotted(s) || (s != "" && s[|s| - 1] == '\n' && Dotted(s[..|s| - 1]))
  }

  predicate IntWithin(s: string, most: int) {
    var (ok, n) := ToInt(s);
    ok && 0 <= n <= most
  }

  predicate IsValidIpOrCidr(s: string) {
    RegexMatches(s) && InRange(s)
  }

  /** The number checks behind the regular expression. */
  predicate InRange(s: string) {
    && (var octets := Split(Split(s, '/')[0], '.');
        forall i :: 0 <= i < |octets| ==> IntWithin(octets[i], 255))
    && ('/' in s ==> |Split(s, '/')| > 1 && IntWithin(Split(s, '/')[1], 32))
  }

  predicate AllValid(ss: seq<string>) {
    forall i :: 0 <= i < |ss| ==> IsValidIpOrCidr(ss[i])
  }

  ghost predicate Inert(c: char) {
    '0' <= c <= '9' || c == '.' || c == '/'
  }

  /** Every element but the separator lies in a piece. */
  lemma {:induction false} PiecesBound<T>(s: seq<T>, c: T, k: nat)
    requires k < |s| && s[k] != c
    ensures exists i :: 0 <= i < |Split(s, c)| && s[k] in Split(s, c)[i]
    decreases |s|
  {
    hide Split;
    var p := IndexOf(s, c);
    if p == |s| {
      SplitUnfold(s, c, []);
      assert s[k] in Split(s, c)[0];
    } else {
      var head, rest := s[..p], s[p + 1..];
      CutAt(s, p);
      SplitUnfold(head, c, rest);
      if k < p {
        assert head[k] == s[k] && s[k] in Split(s, c)[0];
      } else {
        assert rest[k - p - 1] == s[k];
        PiecesBound(rest, c, k - p - 1);
        var i :| 0 <= i < |Split(rest, c)| && s[k] in Split(rest, c)[i];
        assert Split(s, c)[i + 1] == Split(rest, c)[i];
      }
    }
  }

  predicate EndsInNewline(s: string) {
    s != "" && s[|s| - 1] == '\n'
  }

  /** An accepted entry holds nothing but digits, dots and a slash, up to one newline at its end; it holds
      nothing else at all if and only if it does not end in a newline. */
  lemma ValidIsInert(s: string)
    requires IsValidIpOrCidr(s)
    ensures forall k :: 0 <= k < |s| ==> Inert(s[k]) || (k == |s| - 1 && s[k] == '\n')
    ensures (forall k :: 0 <= k < |s| ==> Inert(s[k])) <==> !EndsInNewline(s)
  {
    var body := if Dotted(s) then s else s[..|s| - 1];
    forall k | 0 <= k < |body| ensures Inert(body[k]) { DottedIsInert(body, k); }
  }

  lemma DottedIsInert(body: string, k: nat)
    requires Dotted(body) && k < |body|
    ensures Inert(body[k])
  {
    if body[k] != '/' {
      PiecesBound(body, '/', k);
      var halves := Split(body, '/');
      var i :| 0 <= i < |halves| && body[k] in halves[i];
      if i == 0 && body[k] != '.' {
        var m :| 0 <= m < |halves[0]| && halves[0][m] == body[k];
        PiecesBound(halves[0], '.', m);
      }
    }
  }

  /** A newline after a text goes to the last piece, whatever it is split at. */
  lemma {:induction false} SplitBeforeEnd(s: string, b: char, c: char)
    requires b != c
    ensures var parts := Split(s, c);
            Split(s + [b], c) == parts[..|parts| - 1] + [parts[|parts| - 1] + [b]]
    decreases |s|
  {
    hide Split;
    var p := IndexOf(s, c);
    if p == |s| {
      SplitUnfold(s, c, "");
      SplitUnfold(s + [b], c, "");
    } else {
      var head, rest := s[..p], s[p + 1..];
      CutAt(s, p);
      assert s + [b] == head + [c] + (rest + [b]);
      SplitUnfold(head, c, rest);
      SplitUnfold(head, c, rest + [b]);
      SplitBeforeEnd(rest, b, c);
      LastOfMore(head, Split(rest, c), [b]);
    }
  }

  lemma LastOfMore(head: string, rest: seq<string>, end: string)
    requires rest != []
    ensures var parts := [head] + rest;
            [head] + (rest[..|rest| - 1] + [rest[|rest| - 1] + end])
              == parts[..|parts| - 1] + [parts[|parts| - 1] + end]
  {}

  lemma IntBeforeNewline(s: string, most: int)
    requires IsDigits(s, 3)
    ensures IntWithin(s + ['\n'], most) <==> IntWithin(s, most)
  {
    TrimAround('\n', s, Space);
    TrimEnds(s, Space);
  }

  lemma SlashIffTwo(s: string)
    ensures '/' in s <==> |Split(s, '/')| > 1
  {
    var p := IndexOf(s, '/');
    assert p < |s| ==> s[p] in s;
  }

  /** The number checks, on the pieces. */
  predicate PiecesInRange(halves: seq<string>, octets: seq<string>) {
    (forall i :: 0 <= i < |octets| ==> IntWithin(octets[i], 255)) && (|halves| > 1 ==> IntWithin(halves[1], 32))
  }

  lemma InRangeByPieces(s: string)
    ensures InRange(s) <==> PiecesInRange(Split(s, '/'), Split(Split(s, '/')[0], '.'))
  {
    hide IntWithin;
    SlashIffTwo(s);
  }

  lemma InRangeBeforeNewline(s: string)
    requires Dotted(s)
    ensures InRange(s + ['\n']) <==> InRange(s)
  {
    hide IntWithin, IsDigits, InRange, Split;
    var halves := Split(s, '/');
    var octets := Split(halves[0], '.');
    InRangeByPieces(s);
    InRangeByPieces(s + ['\n']);
    SplitBeforeEnd(s, '\n', '/');
    if |halves| == 1 {
      SplitBeforeEnd(halves[0], '\n', '.');
      IntBeforeNewline(octets[3], 255);
      OctetsBeforeNewline(octets);
      assert halves[..0] + [halves[0] + ['\n']] == [halves[0] + ['\n']];
    } else {
      ShortDigits(halves[1]);
      IntBeforeNewline(halves[1], 32);
      assert halves[..1] + [halves[1] + ['\n']] == [halves[0], halves[1] + ['\n']];
    }
  }

  lemma OctetsBeforeNewline(octets: seq<string>)
    requires |octets| == 4 && (IntWithin(octets[3] + ['\n'], 255) <==> IntWithin(octets[3], 255))
    ensures (forall i :: 0 <= i < 4 ==> IntWithin((octets[..3] + [octets[3] + ['\n']])[i], 255))
            <==> forall i :: 0 <= i < 4 ==> IntWithin(octets[i], 255)
  {
    hide IntWithin;
    var octets' := octets[..3] + [octets[3] + ['\n']];
    assert octets'[0] == octets[0] && octets'[1] == octets[1] && octets'[2] == octets[2];
    assert octets'[3] == octets[3] + ['\n'];
  }

  lemma ShortDigits(s: string)
    requires IsDigits(s, 2)
    ensures IsDigits(s, 3)
  {}

  /** A newline at the end changes no verdict: `$` matches before it and toInt ignores it. */
  lemma NewlineAccepted(s: string)
    requires !EndsInNewline(s)
    ensures IsValidIpOrCidr(s + "\n") <==> IsValidIpOrCidr(s)
  {
    hide InRange, Split;
    var t := s + ['\n'];
    assert t == s + "\n" && t[..|t| - 1] == s;
    if Dotted(t) {
      DottedIsInert(t, |t| - 1);
    }
    assert !Dotted(t);
    assert RegexMatches(t) <==> Dotted(s);
    assert RegexMatches(s) <==> Dotted(s);
    if Dotted(s) { InRangeBeforeNewline(s); }
  }

  /** Four pieces of one to three digits. */
  predicate Octets(octets: seq<string>) {
    |octets| == 4 && forall i :: 0 <= i < 4 ==> IsDigits(octets[i], 3)
  }

  lemma {:induction false} JoinHolds<T>(parts: seq<seq<T>>, sep: seq<T>, x: T)
    requires x !in sep && forall i :: 0 <= i < |parts| ==> x !in parts[i]
    ensures x !in Join(parts, sep)
  {
    if |parts| > 1 { JoinHolds(parts[1..], sep, x); }
  }

  lemma QuadSplits(octets: seq<string>)
    requires Octets(octets)
    ensures Split(Join(octets, "."), '.') == octets && '/' !in Join(octets, ".")
  {
    assert "." == ['.'];
    SplitJoin(octets, '.');
    JoinHolds(octets, ".", '/');
  }

  lemma UnsignedToInt(s: string, most: int)
    requires IsDigits(s, 3)
    ensures IntWithin(s, most) <==> Digits(s) <= most
  {
    DigitsIff(s);
    TrimEnds(s, Space);
  }

  /** A dotted quad is accepted if and only if no octet exceeds 255... */
  lemma QuadValidIff(octets: seq<string>)
    requires Octets(octets)
    ensures IsValidIpOrCidr(Join(octets, ".")) <==> forall i :: 0 <= i < 4 ==> Digits(octets[i]) <= 255
  {
    var s := Join(octets, ".");
    QuadSplits(octets);
    SplitUnfold(s, '/', "");
    forall i | 0 <= i < 4 ensures IntWithin(octets[i], 255) <==> Digits(octets[i]) <= 255 {
      UnsignedToInt(octets[i], 255);
    }
    assert Dotted(s);
  }

  /** Four numbers of any size, written out: accepted if and only if none exceeds 255. */
  lemma NumbersValidIff(ns: seq<nat>)
    requires |ns| == 4
    ensures IsValidIpOrCidr(Quad(ns)) <==> forall i :: 0 <= i < 4 ==> ns[i] <= 255
  {
    var octets := seq(4, i requires 0 <= i < 4 => Decimal(ns[i]));
    forall i | 0 <= i < 4 ensures Digits(octets[i]) == ns[i] && (IsDigits(octets[i], 3) <==> ns[i] < 1000) {
      DigitsOfDecimal(ns[i]);
    }
    if forall i :: 0 <= i < 4 ==> ns[i] < 1000 {
      QuadValidIff(octets);
    } else {
      LongOctetRejected(octets);
    }
  }

  function Quad(ns: seq<nat>): string
    requires |ns| == 4
  {
    Join(seq(4, i requires 0 <= i < 4 => Decimal(ns[i])), ".")
  }

  lemma LongOctetRejected(octets: seq<string>)
    requires |octets| == 4 && exists i :: 0 <= i < 4 && !IsDigits(octets[i], 3)
    requires forall i :: 0 <= i < 4 ==> forall k :: 0 <= k < |octets[i]| ==> '0' <= octets[i][k] <= '9'
    ensures !IsValidIpOrCidr(Join(octets, "."))
  {
    var s := Join(octets, ".");
    assert "." == ['.'];
    SplitJoin(octets, '.');
    JoinHolds(octets, ".", '/');
    JoinHolds(octets, ".", '\n');
    SplitUnfold(s, '/', "");
  }

  /** ... with a newline behind it too... */
  lemma QuadWithNewline(octets: seq<string>)
    requires Octets(octets)
    ensures IsValidIpOrCidr(Join(octets, ".") + "\n") <==> forall i :: 0 <= i < 4 ==> Digits(octets[i]) <= 255
  {
    hide IsValidIpOrCidr;
    QuadValidIff(octets);
    assert '\n' !in Join(octets, ".") by { JoinHolds(octets, ".", '\n'); }
    NewlineAccepted(Join(octets, "."));
  }

  /** ... and with a prefix length if and only if that does not exceed 32 either. */
  lemma CidrValidIff(octets: seq<string>, length: string)
    requires Octets(octets) && IsDigits(length, 2)
    ensures IsValidIpOrCidr(Join(octets, ".") + "/" + length) <==>
              (forall i :: 0 <= i < 4 ==> Digits(octets[i]) <= 255) && Digits(length) <= 32
  {
    hide Split, IntWithin, IsDigits, InRange, Join, Digits;
    var s := Join(octets, ".") + "/" + length;
    CidrSplits(octets, length);
    forall i | 0 <= i < 4 ensures IntWithin(octets[i], 255) <==> Digits(octets[i]) <= 255 {
      UnsignedToInt(octets[i], 255);
    }
    ShortDigits(length);
    UnsignedToInt(length, 32);
    InRangeByPieces(s);
    assert Dotted(s);
  }

  lemma CidrSplits(octets: seq<string>, length: string)
    requires Octets(octets) && IsDigits(length, 2)
    ensures Split(Join(octets, ".") + "/" + length, '/') == [Join(octets, "."), length]
    ensures Split(Join(octets, "."), '.') == octets
    ensures '/' in Join(octets, ".") + "/" + length
  {
    hide Split;
    var q := Join(octets, ".");
    QuadSplits(octets);
    SplitUnfold(q, '/', length);
    SplitUnfold(length, '/', "");
    assert (q + "/" + length)[|q|] == '/';
  }

  const Loopback := "127.0.0.1"
  const Stub := "127.0.0.53"

  lemma LocalResolversValid()
    ensures IsValidIpOrCidr(Loopback) && IsValidIpOrCidr(Stub)
  {
    hide IsValidIpOrCidr;
    LocalOctets("1");
    LocalOctets("53");
    QuadValidIff(["127", "0", "0", "1"]);
    QuadValidIff(["127", "0", "0", "53"]);
    assert "127." + ("0." + ("0." + "1")) == Loopback;
    assert "127." + ("0." + ("0." + "53")) == Stub;
  }

  lemma LocalOctets(last: string)
    requires last == "1" || last == "53"
    ensures var octets := ["127", "0", "0", last];
            && Octets(octets) && (forall i :: 0 <= i < 4 ==> Digits(octets[i]) <= 255)
            && Join(octets, ".") == "127." + ("0." + ("0." + last))
  {
    var octets := ["127", "0", "0", last];
    assert Digits("0") == 0 && Digits("1") == 1 && Digits("53") == 53 && Digits("127") == 127;
    assert octets[1..] == ["0", "0", last] && octets[1..][1..] == ["0", last] && octets[1..][1..][1..] == [last];
    assert Join([last], ".") == last;
    assert Join(["0", last], ".") == "0" + "." + last;
    assert Join(["0", "0", last], ".") == "0" + "." + ("0" + "." + last);
  }

  // ------------------------------------------------------------- the firewall

  /** The anchors, from AllowLoopback to AllowPia. */
  datatype Anchor =
    | AllowLoopback | BlockAll | AllowNets | BlockNets | AllowMarkedXray | AllowVpn | BlockIpv6
    | AllowDhcp | AllowLan | BlockDns | AllowDns | AllowPia

  type Anchors = map<Anchor, bool>

  predicate On(anchors: Anchors, a: Anchor) {
    a in anchors && anchors[a]
  }

  // ------------------------------------------------------------- packets

  /** An outgoing packet, as far as the rules can tell: its family, where it leaves, what it is, and the
      table entries its destination lies in. */
  datatype Packet = Packet(
    v6: bool, loopback: bool, vpn: bool, dns: bool, lan: bool, dhcp: bool, marked: bool, within: set<string>)

  predicate HitsTable(table: seq<string>, p: Packet) {
    exists e :: e in table && e in p.within
  }

  /** The root chain over the anchors in the order in which they were installed: the first rule that
      applies decides, and a packet to which none applies goes out. The anchors for allowed and blocked
      networks, for resolvers and for the tunnel are set for IPv4 only, that against IPv6 for IPv6 only. */
  predicate Passes(anchors: Anchors, allowNets: seq<string>, blockNets: seq<string>, dnsServers: seq<string>,
                   p: Packet)
  {
    if On(anchors, AllowLoopback) && p.loopback then true
    else if On(anchors, AllowDns) && !p.v6 && p.dns && p.vpn && HitsTable(dnsServers, p) then true
    else if On(anchors, BlockDns) && !p.v6 && p.dns then false
    else if On(anchors, AllowLan) && p.lan then true
    else if On(anchors, AllowDhcp) && p.dhcp then true
    else if On(anchors, BlockIpv6) && p.v6 && !p.loopback then false
    else if On(anchors, AllowVpn) && !p.v6 && p.vpn then true
    else if On(anchors, AllowMarkedXray) && p.marked then true
    else if On(anchors, BlockNets) && !p.v6 && HitsTable(blockNets, p) then false
    else if On(anchors, AllowNets) && !p.v6 && HitsTable(allowNets, p) then true
    else !On(anchors, BlockAll)
  }

  /** LinuxFirewall: anchors and tables exist only while the rules are installed; installing creates
      them afresh, switched off and empty. */
  class Firewall {
    var installed: bool
    var anchors: Anchors
    var allowNets: seq<string>
    var blockNets: seq<string>
    var dnsServers: seq<string>

    constructor ()
      ensures !installed && anchors == map[] && allowNets == blockNets == dnsServers == []
    {
      installed, anchors, allowNets, blockNets, dnsServers := false, map[], [], [], [];
    }

    method Install()
      modifies this
      ensures installed && anchors == map[] && allowNets == blockNets == dnsServers == []
    {
      installed, anchors, allowNets, blockNets, dnsServers := true, map[], [], [], [];
    }

    method Uninstall()
      modifies this
      ensures !installed && anchors == map[] && allowNets == blockNets == dnsServers == []
    {
      installed, anchors, allowNets, blockNets, dnsServers := false, map[], [], [], [];
    }

    method SetAnchors(settings: Anchors)
      modifies this`anchors
      ensures anchors == if installed then old(anchors) + settings else old(anchors)
    {
      if installed { anchors := anchors + settings; }
    }

    method UpdateAllowNets(servers: seq<string>)
      modifies this`allowNets
      ensures allowNets == if installed then servers else old(allowNets)
    {
      if installed { allowNets := servers; }
    }

    method UpdateBlockNets(servers: seq<string>)
      modifies this`blockNets
      ensures blockNets == if installed then servers else old(blockNets)
    {
      if installed { blockNets := servers; }
    }

    method UpdateDnsServers(servers: seq<string>)
      modifies this`dnsServers
      ensures dnsServers == if installed then servers else old(dnsServers)
    {
      if installed { dnsServers := servers; }
    }
  }

  const StrictAnchors: Anchors := map[
    AllowLoopback := true, BlockAll := true, AllowNets := false, BlockNets := false,
    AllowMarkedXray := false, AllowVpn := false, BlockIpv6 := true, AllowDhcp := false,
    AllowLan := false, BlockDns := false, AllowDns := false, AllowPia := false]

  const OpenAnchors: Anchors := map[
    AllowLoopback := true, BlockAll := false, AllowNets := false, BlockNets := false,
    AllowMarkedXray := false, AllowVpn := false, BlockIpv6 := false, AllowDhcp := true,
    AllowLan := true, BlockDns := false, AllowDns := true, AllowPia := false]

  const BlockedAnchors: Anchors := map[
    BlockAll := true, AllowMarkedXray := false, AllowLoopback := true, BlockIpv6 := true]

  function TunnelAnchors(blockAll: bool, allowNets: bool, blockNets: bool): (m: Anchors)
    ensures BlockAll in m && m[BlockAll] == blockAll
  {
    map[AllowLoopback := true, BlockAll := blockAll, AllowNets := allowNets, BlockNets := blockNets,
        AllowMarkedXray := true, AllowVpn := true, BlockIpv6 := true, AllowDhcp := true,
        AllowLan := true, BlockDns := true, AllowDns := true, AllowPia := true]
  }

  // ------------------------------------------------------------- the kill switch

  /** The fields of the tunnel configuration that enableKillSwitch reads. An entry of
      `allowedDnsServers` that is not a string is `NotText`. */
  datatype DnsEntry = NotText | DnsText(text: string)
  datatype TunnelConfig = TunnelConfig(
    splitTunnelType: int, splitTunnelSites: seq<string>, vpnServer: string,
    dns1: string, dns2: string, allowedDnsServers: seq<DnsEntry>)

  const AmneziaDns := "172.29.172.254"

  predicate HasText(s: string, part: string) {
    part <= s || (s != "" && HasText(s[1..], part))
  }

  /** The secondary resolver is not used beside Amnezia's own. */
  function SecondDns(c: TunnelConfig): string {
    if HasText(c.dns1, AmneziaDns) then "" else c.dns2
  }

  function AllowNetsOf(c: TunnelConfig): seq<string> {
    if c.splitTunnelType == 0 then [c.vpnServer]
    else if c.splitTunnelType == 2 then [c.vpnServer] + c.splitTunnelSites
    else []
  }

  function AnchorsOf(c: TunnelConfig): (m: Anchors)
    ensures BlockAll in m && m[BlockAll] == (c.splitTunnelType == 0 || c.splitTunnelType == 2)
  {
    var tunnelled := c.splitTunnelType == 0 || c.splitTunnelType == 2;
    TunnelAnchors(tunnelled, tunnelled, c.splitTunnelType == 1)
  }

  function BlockNetsOf(c: TunnelConfig): seq<string> {
    if c.splitTunnelType == 1 then c.splitTunnelSites else []
  }

  /** The resolvers let through, ahead of the user's own list. */
  function ResolversOf(c: TunnelConfig): seq<string> {
    (if c.dns1 != "" then [c.dns1] else []) + (if SecondDns(c) != "" then [SecondDns(c)] else []) + [Loopback, Stub]
  }

  /** The entries of `allowedDnsServers` that count: the valid ones ahead of the first that is not text. */
  function Usable(entries: seq<DnsEntry>): seq<string> {
    if entries == [] || entries[0].NotText? then []
    else (if IsValidIpOrCidr(entries[0].text) then [entries[0].text] else []) + Usable(entries[1..])
  }

  lemma UsableStep(servers: seq<string>, entries: seq<DnsEntry>, i: nat)
    requires i <= |entries|
    ensures var all := servers + Usable(entries[i..]);
            if i == |entries| || entries[i].NotText? then all == servers
            else if IsValidIpOrCidr(entries[i].text) then all == servers + [entries[i].text] + Usable(entries[i + 1..])
            else all == servers + Usable(entries[i + 1..])
  {
    hide IsValidIpOrCidr;
    if i < |entries| { assert entries[i..][0] == entries[i] && entries[i..][1..] == entries[i + 1..]; }
  }

  lemma {:induction false} UsableMeaning(entries: seq<DnsEntry>)
    ensures AllValid(Usable(entries))
    ensures forall s :: s in Usable(entries) ==> DnsText(s) in entries
    ensures NotText !in entries ==> forall s :: DnsText(s) in entries && IsValidIpOrCidr(s) ==> s in Usable(entries)
  {
    hide IsValidIpOrCidr;
    if entries != [] && entries[0].DnsText? {
      UsableMeaning(entries[1..]);
      assert entries == [entries[0]] + entries[1..];
    }
  }

  lemma ResolversValid(c: TunnelConfig, more: seq<string>)
    requires Acceptable(c) && AllValid(more)
    ensures AllValid(ResolversOf(c) + more)
  {
    hide IsValidIpOrCidr, SecondDns;
    LocalResolversValid();
  }

  /** The destinations a split type lets around the tunnel, and those it cuts off. */
  predicate LetAround(c: TunnelConfig, e: string) {
    (c.splitTunnelType in {0, 2} && e == c.vpnServer) || (c.splitTunnelType == 2 && e in c.splitTunnelSites)
  }

  predicate CutOff(c: TunnelConfig, e: string) {
    c.splitTunnelType == 1 && e in c.splitTunnelSites
  }

  /** The resolvers that are let through. */
  ghost predicate Resolver(c: TunnelConfig, e: string) {
    || (e == c.dns1 && e != "")
    || (e == c.dns2 && e != "" && !Contains(c.dns1, "172.29.172.254"))
    || e == "127.0.0.1" || e == "127.0.0.53"
    || exists i :: 0 <= i < |c.allowedDnsServers| && AllowedAt(c.allowedDnsServers, i, e)
  }

  ghost predicate Contains(s: string, part: string) {
    exists i :: 0 <= i <= |s| && part <= s[i..]
  }

  ghost predicate AllowedAt(entries: seq<DnsEntry>, i: nat, e: string)
    requires i < |entries|
  {
    entries[i] == DnsText(e) && IsValidIpOrCidr(e) && NotText !in entries[..i]
  }

  /** Every configured address is a valid one. */
  ghost predicate WellAddressed(c: TunnelConfig) {
    && (c.dns1 == "" || IsValidIpOrCidr(c.dns1))
    && (c.dns2 == "" || Contains(c.dns1, "172.29.172.254") || IsValidIpOrCidr(c.dns2))
    && (c.splitTunnelType in {0, 2} ==> IsValidIpOrCidr(c.vpnServer))
    && (c.splitTunnelType in {1, 2} ==> AllValid(c.splitTunnelSites))
  }

  /** The packets an enabled kill switch lets out: loopback; IPv4 DNS to the resolvers and through the
      tunnel; other traffic to the local network; and IPv4 through the tunnel, if marked, or around the
      tunnel where the split type lets it. */
  ghost predicate Out(c: TunnelConfig, p: Packet) {
    if p.loopback then true
    else if p.v6 then p.lan || p.dhcp
    else if p.dns then p.vpn && exists e :: e in p.within && Resolver(c, e)
    else p.lan || p.dhcp || p.vpn || p.marked || Around(c, p)
  }

  ghost predicate Filters(c: TunnelConfig, anchors: Anchors, allowNets: seq<string>, blockNets: seq<string>,
                          dnsServers: seq<string>)
  {
    forall p: Packet :: Passes(anchors, allowNets, blockNets, dnsServers, p) <==> Out(c, p)
  }

  /** IPv4 traffic that leaves around the tunnel. */
  ghost predicate Around(c: TunnelConfig, p: Packet) {
    if c.splitTunnelType in {0, 2} then exists e :: e in p.within && LetAround(c, e)
    else !exists e :: e in p.within && CutOff(c, e)
  }

  lemma TablesMean(c: TunnelConfig, e: string)
    ensures e in AllowNetsOf(c) <==> LetAround(c, e)
    ensures e in BlockNetsOf(c) <==> CutOff(c, e)
    ensures e in ResolversOf(c) + Usable(c.allowedDnsServers) <==> Resolver(c, e)
  {
    hide IsValidIpOrCidr;
    UsableExactly(c.allowedDnsServers, e);
    HasTextIff(c.dns1, AmneziaDns);
    var second := if SecondDns(c) != "" then [SecondDns(c)] else [];
    assert ResolversOf(c) == (if c.dns1 != "" then [c.dns1] else []) + second + [Loopback, Stub];
  }

  lemma {:induction false} HasTextIff(s: string, part: string)
    ensures HasText(s, part) <==> Contains(s, part)
  {
    assert s[0..] == s;
    if s != "" && !(part <= s) {
      var rest := s[1..];
      HasTextIff(rest, part);
      assert forall i :: 0 <= i <= |rest| ==> rest[i..] == s[i + 1..];
      assert forall i :: 1 <= i <= |s| ==> s[i..] == rest[i - 1..];
    }
  }

  lemma {:induction false} UsableExactly(entries: seq<DnsEntry>, e: string)
    ensures e in Usable(entries) <==> exists i :: 0 <= i < |entries| && AllowedAt(entries, i, e)
  {
    hide IsValidIpOrCidr;
    if entries != [] {
      var rest := entries[1..];
      UsableExactly(rest, e);
      forall i | 0 <= i < |rest| && entries[0].DnsText? && AllowedAt(rest, i, e) ensures AllowedAt(entries, i + 1, e) {
        assert entries[..i + 1] == [entries[0]] + rest[..i];
      }
      if i :| 0 <= i < |entries| && AllowedAt(entries, i, e) {
        assert i > 0 ==> entries[0] in entries[..i] && entries[..i] == [entries[0]] + rest[..i - 1];
        assert i > 0 ==> AllowedAt(rest, i - 1, e);
      }
      assert entries[..0] == [];
      assert entries[0] == DnsText(e) && IsValidIpOrCidr(e) ==> AllowedAt(entries, 0, e);
    }
  }

  lemma ValidWithFirst(first: string, more: seq<string>)
    ensures AllValid([first] + more) <==> IsValidIpOrCidr(first) && AllValid(more)
  {
    hide IsValidIpOrCidr;
    var all := [first] + more;
    assert all[0] == first && forall i :: 0 <= i < |more| ==> all[i + 1] == more[i];
  }

  lemma AcceptableMeans(c: TunnelConfig)
    ensures Acceptable(c) <==> WellAddressed(c)
  {
    hide IsValidIpOrCidr, HasText, Contains;
    HasTextIff(c.dns1, AmneziaDns);
    ValidWithFirst(c.vpnServer, c.splitTunnelSites);
    ValidWithFirst(c.vpnServer, []);
    assert [c.vpnServer] + [] == [c.vpnServer];
    hide AllValid;
    NoneInvalid();
  }

  lemma NoneInvalid()
    ensures AllValid([])
  {}

  /** Every anchor is set, on or off. */
  lemma AnchorsMean(c: TunnelConfig, a: Anchor)
    ensures a in AnchorsOf(c)
    ensures AnchorsOf(c)[a] <==>
              match a
              case BlockAll => c.splitTunnelType in {0, 2}
              case AllowNets => c.splitTunnelType in {0, 2}
              case BlockNets => c.splitTunnelType == 1
              case _ => true
  {
    match a
    case AllowLoopback => case BlockAll => case AllowNets => case BlockNets => case AllowMarkedXray => case AllowVpn =>
    case BlockIpv6 => case AllowDhcp => case AllowLan => case BlockDns => case AllowDns => case AllowPia =>
  }

  lemma EnabledFilters(c: TunnelConfig, before: Anchors)
    ensures Filters(c, before + AnchorsOf(c), AllowNetsOf(c), BlockNetsOf(c),
                    ResolversOf(c) + Usable(c.allowedDnsServers))
  {
    hide Passes, AnchorsOf;
    forall a: Anchor { AnchorsMean(c, a); }
    forall p: Packet {
      FiltersPacket(c, before + AnchorsOf(c), p);
    }
  }

  lemma FiltersPacket(c: TunnelConfig, anchors: Anchors, p: Packet)
    requires forall a :: On(anchors, a) <==> On(AnchorsOf(c), a)
    ensures Passes(anchors, AllowNetsOf(c), BlockNetsOf(c), ResolversOf(c) + Usable(c.allowedDnsServers), p)
            <==> Out(c, p)
  {
    hide Resolver, AllowNetsOf, BlockNetsOf, ResolversOf, Usable, AnchorsOf;
    forall a: Anchor { AnchorsMean(c, a); }
    forall e ensures (e in AllowNetsOf(c) <==> LetAround(c, e)) && (e in BlockNetsOf(c) <==> CutOff(c, e))
             ensures e in ResolversOf(c) + Usable(c.allowedDnsServers) <==> Resolver(c, e)
    {
      TablesMean(c, e);
    }
    assert HitsTable(AllowNetsOf(c), p) <==> exists e :: e in p.within && LetAround(c, e);
    assert HitsTable(BlockNetsOf(c), p) <==> exists e :: e in p.within && CutOff(c, e);
    assert HitsTable(ResolversOf(c) + Usable(c.allowedDnsServers), p) <==> exists e :: e in p.within && Resolver(c, e);
  }

  /** While all traffic is blocked, whatever else is set, a packet that goes out is loopback, local, marked,
      through the tunnel, or on its way to an allowed network. */
  lemma BlockingLeaves(anchors: Anchors, allowNets: seq<string>, blockNets: seq<string>, dnsServers: seq<string>,
                       p: Packet)
    requires On(anchors, BlockAll) && Passes(anchors, allowNets, blockNets, dnsServers, p)
    ensures p.loopback || p.lan || p.dhcp || p.marked || (!p.v6 && (p.vpn || HitsTable(allowNets, p)))
  {}

  /** The anchors of strict mode let nothing out but loopback. */
  lemma StrictBlocks(before: Anchors, allowNets: seq<string>, blockNets: seq<string>, dnsServers: seq<string>,
                     p: Packet)
    ensures Passes(before + StrictAnchors, allowNets, blockNets, dnsServers, p) <==> p.loopback
  {}

  lemma StrictSets(before: Anchors, a: Anchor)
    ensures On(before + StrictAnchors, a) <==> a in {AllowLoopback, BlockAll, BlockIpv6}
  {
    assert a in StrictAnchors by { match a case _ => }
  }

  /** Blocking all traffic over whatever was set before lets nothing new out but loopback, and nothing that
      the last rule would have let out. Over fresh rules it lets nothing out but loopback. */
  lemma BlockedNarrows(before: Anchors, allowNets: seq<string>, blockNets: seq<string>, dnsServers: seq<string>,
                       p: Packet)
    ensures Passes(before + BlockedAnchors, allowNets, blockNets, dnsServers, p) ==>
              p.loopback || Passes(before, allowNets, blockNets, dnsServers, p)
    ensures Passes(map[] + BlockedAnchors, allowNets, blockNets, dnsServers, p) <==> p.loopback
  {}

  /** The calls enableKillSwitch accepts. */
  predicate Acceptable(c: TunnelConfig) {
    && (c.dns1 == "" || IsValidIpOrCidr(c.dns1)) && (SecondDns(c) == "" || IsValidIpOrCidr(SecondDns(c)))
    && AllValid(AllowNetsOf(c)) && AllValid(BlockNetsOf(c))
  }

  /** addAllowedRange: the new ranges in order, those already there left out. */
  function Extended(ranges: seq<string>, more: seq<string>): seq<string> {
    if more == [] then ranges
    else
      var front, last := Extended(ranges, more[..|more| - 1]), more[|more| - 1];
      if last == "" || last in front then front else front + [last]
  }

  ghost predicate NoRepeats(ss: seq<string>) {
    forall i, j :: 0 <= i < j < |ss| ==> ss[i] != ss[j]
  }

  /** Extending adds exactly the missing ranges, behind the old ones, without repeats. */
  lemma {:induction false} ExtendedMeaning(ranges: seq<string>, more: seq<string>)
    ensures ranges <= Extended(ranges, more)
    ensures forall r :: r in Extended(ranges, more) <==> r in ranges || (r in more && r != "")
    ensures NoRepeats(ranges) ==> NoRepeats(Extended(ranges, more))
    ensures AllValid(ranges) && AllValid(more) ==> AllValid(Extended(ranges, more))
  {
    if more != [] {
      ExtendedMeaning(ranges, more[..|more| - 1]);
      assert more == more[..|more| - 1] + [more[|more| - 1]];
      assert more[|more| - 1] in more;
    }
  }

  datatype Call =
    | Init | Refresh(enabled: bool) | DisableKillSwitch | DisableAllTraffic
    | ResetAllowedRange(ranges: seq<string>) | AddAllowedRange(ranges: seq<string>)
    | EnableKillSwitch(config: TunnelConfig)

  /** A call that leaves the blocking as it is: a change of ranges, or an enable that is rejected. */
  ghost predicate LeavesBlocking(call: Call) {
    match call
    case ResetAllowedRange(_) => true
    case AddAllowedRange(_) => true
    case EnableKillSwitch(c) => !WellAddressed(c)
    case _ => false
  }

  /** An accepted enable with a split type for which traffic is not blocked. */
  ghost predicate Opens(call: Call) {
    call.EnableKillSwitch? && WellAddressed(call.config) && call.config.splitTunnelType !in {0, 2}
  }

  /** The last call that had a say in the blocking ended it. */
  ghost predicate Opened(calls: seq<Call>) {
    calls != [] &&
    var last := calls[|calls| - 1];
    if LeavesBlocking(last) then Opened(calls[..|calls| - 1]) else Opens(last)
  }

  /** Such a call: split type 1 with no sites. */
  lemma SplitTypeOneOpens()
    ensures Opened([EnableKillSwitch(TunnelConfig(1, [], "", "", "", []))])
  {
    assert WellAddressed(TunnelConfig(1, [], "", "", "", []));
  }

  class KillSwitch {
    const firewall: Firewall
    var allowedRanges: seq<string>
    var strict: bool  // Conf/strictKillSwitchEnabled

    constructor (firewall: Firewall, strict: bool)
      requires AllValid(firewall.allowNets) && AllValid(firewall.blockNets) && AllValid(firewall.dnsServers)
      ensures this.firewall == firewall && this.strict == strict && allowedRanges == [] && TablesValid()
    {
      this.firewall, this.strict, allowedRanges := firewall, strict, [];
    }

    /** Nothing reaches the firewall unchecked. */
    ghost predicate TablesValid()
      reads this, firewall
    {
      && AllValid(firewall.allowNets) && AllValid(firewall.blockNets) && AllValid(firewall.dnsServers)
      && AllValid(allowedRanges)
    }

    /** Without the rules everything goes out. */
    ghost predicate LetsOut(p: Packet)
      reads this, firewall
    {
      firewall.installed ==> Passes(firewall.anchors, firewall.allowNets, firewall.blockNets, firewall.dnsServers, p)
    }

    predicate Blocking()
      reads this, firewall
    {
      firewall.installed && BlockAll in firewall.anchors && firewall.anchors[BlockAll]
    }

    /** In strict mode traffic is blocked. */
    ghost predicate StrictHolds()
      reads this, firewall
    {
      strict ==> Blocking()
    }

    method Init() returns (ok: bool)
      requires TablesValid()
      modifies this`allowedRanges, firewall
      ensures ok && TablesValid() && StrictHolds()
      ensures !strict ==> allowedRanges == old(allowedRanges) && unchanged(firewall)
    {
      if strict { ok := DisableAllTraffic(); } else { ok := true; }
    }

    method Refresh(enabled: bool) returns (ok: bool)
      requires TablesValid()
      modifies this`allowedRanges, this`strict, firewall
      ensures ok && strict == enabled && TablesValid() && StrictHolds()
      ensures !enabled ==> !firewall.installed
    {
      strict := enabled;
      if strict { ok := DisableAllTraffic(); } else { ok := DisableKillSwitch(); }
    }

    /** In strict mode the block stays if the rules are installed; otherwise they are removed. */
    method DisableKillSwitch() returns (ok: bool)
      requires TablesValid()
      modifies this`allowedRanges, firewall
      ensures ok && TablesValid() && allowedRanges == []
      ensures firewall.installed == (strict && old(firewall.installed))
      ensures strict && old(firewall.installed) ==>
                && Blocking() && firewall.anchors == old(firewall.anchors) + StrictAnchors
                && forall a :: On(firewall.anchors, a) <==> a in {AllowLoopback, BlockAll, BlockIpv6}
      ensures forall p :: LetsOut(p) <==> p.loopback || !(strict && old(firewall.installed))
    {
      forall p: Packet {
        StrictBlocks(firewall.anchors, firewall.allowNets, firewall.blockNets, firewall.dnsServers, p);
      }
      forall a: Anchor { StrictSets(firewall.anchors, a); }
      if strict {
        firewall.SetAnchors(StrictAnchors);
      } else {
        firewall.SetAnchors(OpenAnchors);
        firewall.Uninstall();
      }
      allowedRanges := [];
      return true;
    }

    method DisableAllTraffic() returns (ok: bool)
      requires TablesValid()
      modifies this`allowedRanges, firewall
      ensures ok && TablesValid() && allowedRanges == [] && Blocking()
      ensures firewall.anchors == (if old(firewall.installed) then old(firewall.anchors) else map[]) + BlockedAnchors
      ensures forall a :: On(firewall.anchors, a) <==>
                a in {AllowLoopback, BlockAll, BlockIpv6}
                || (a != AllowMarkedXray && old(firewall.installed) && old(On(firewall.anchors, a)))
      ensures forall p :: LetsOut(p) ==> p.loopback || old(LetsOut(p))
      ensures !old(firewall.installed) ==> forall p :: LetsOut(p) <==> p.loopback
    {
      if !firewall.installed { firewall.Install(); }
      forall p: Packet {
        BlockedNarrows(firewall.anchors, firewall.allowNets, firewall.blockNets, firewall.dnsServers, p);
      }
      firewall.SetAnchors(BlockedAnchors);
      allowedRanges := [];
      return true;
    }

    method ResetAllowedRange(ranges: seq<string>) returns (ok: bool)
      requires TablesValid()
      modifies this`allowedRanges, firewall
      ensures TablesValid() && (ok <==> AllValid(ranges))
      ensures allowedRanges == if ok then ranges else old(allowedRanges)
      ensures !ok ==> unchanged(firewall)
      ensures Blocking() == old(Blocking()) && firewall.installed == old(firewall.installed)
      ensures ok && firewall.installed ==>
                firewall.allowNets == ranges && firewall.anchors == old(firewall.anchors)[AllowNets := true]
    {
      if !AllValid(ranges) { return false; }
      allowedRanges := ranges;
      firewall.SetAnchors(map[AllowNets := true]);
      firewall.UpdateAllowNets(allowedRanges);
      return true;
    }

    method AddAllowedRange(ranges: seq<string>) returns (ok: bool)
      requires TablesValid()
      modifies this`allowedRanges, firewall
      ensures TablesValid() && (ok <==> AllValid(ranges))
      ensures allowedRanges == if ok then Extended(old(allowedRanges), ranges) else old(allowedRanges)
      ensures !ok ==> unchanged(firewall)
      ensures Blocking() == old(Blocking()) && firewall.installed == old(firewall.installed)
      ensures ok && firewall.installed ==>
                && firewall.allowNets == Extended(old(allowedRanges), ranges)
                && firewall.anchors == old(firewall.anchors)[AllowNets := true]
    {
      if !AllValid(ranges) { return false; }
      for i := 0 to |ranges|
        invariant allowedRanges == Extended(old(allowedRanges), ranges[..i]) && unchanged(firewall)
      {
        assert ranges[..i + 1][..i] == ranges[..i];
        if ranges[i] != "" && ranges[i] !in allowedRanges {
          allowedRanges := allowedRanges + [ranges[i]];
        }
      }
      assert ranges[..|ranges|] == ranges;
      ExtendedMeaning(old(allowedRanges), ranges);
      ok := ResetAllowedRange(allowedRanges);
    }

    /** A rejected call changes nothing. An accepted one leaves all traffic blocked outside the tunnel
        if and only if the split type is 0 or 2: with any other type strict mode is lost. */
    method EnableKillSwitch(c: TunnelConfig) returns (ok: bool)
      requires TablesValid()
      modifies firewall
      ensures ok <==> WellAddressed(c)
      ensures !ok ==> unchanged(firewall)
      ensures ok ==> firewall.installed && firewall.allowNets == AllowNetsOf(c) && firewall.blockNets == BlockNetsOf(c)
      ensures ok ==> firewall.dnsServers == ResolversOf(c) + Usable(c.allowedDnsServers)
      ensures ok ==>
                firewall.anchors == (if old(firewall.installed) then old(firewall.anchors) else map[]) + AnchorsOf(c)
      ensures ok ==> (Blocking() <==> c.splitTunnelType == 0 || c.splitTunnelType == 2)
      ensures ok ==> forall e :: e in firewall.allowNets <==> LetAround(c, e)
      ensures ok ==> forall e :: e in firewall.blockNets <==> CutOff(c, e)
      ensures ok ==> Filters(c, firewall.anchors, firewall.allowNets, firewall.blockNets, firewall.dnsServers)
      ensures TablesValid()
    {
      AcceptableMeans(c);
      forall e { TablesMean(c, e); }
      hide IsValidIpOrCidr, SecondDns, AnchorsOf, ResolversOf, AllValid, WellAddressed, Filters;
      hide LetAround, CutOff, Resolver;
      var dns2 := SecondDns(c);
      if (c.dns1 != "" && !IsValidIpOrCidr(c.dns1)) || (dns2 != "" && !IsValidIpOrCidr(dns2)) { return false; }
      var allowedDns := UsableDns(c.allowedDnsServers);
      var allownets, blocknets := AllowNetsOf(c), BlockNetsOf(c);
      if !AllValid(allownets) || !AllValid(blocknets) { return false; }
      if !firewall.installed { firewall.Install(); }
      firewall.SetAnchors(AnchorsOf(c));
      firewall.UpdateAllowNets(allownets);
      firewall.UpdateBlockNets(blocknets);
      UsableMeaning(c.allowedDnsServers);
      ResolversValid(c, allowedDns);
      firewall.UpdateDnsServers(ResolversOf(c) + allowedDns);
      EnabledFilters(c, if old(firewall.installed) then old(firewall.anchors) else map[]);
      return true;
    }

    /** The loop over allowedDnsServers: it stops at the first entry that is not text and skips what is
        not an address. */
    static method UsableDns(entries: seq<DnsEntry>) returns (servers: seq<string>)
      ensures servers == Usable(entries)
    {
      hide IsValidIpOrCidr, Usable;
      servers := [];
      assert entries[0..] == entries;
      for i := 0 to |entries|
        invariant servers + Usable(entries[i..]) == Usable(entries)
      {
        UsableStep(servers, entries, i);
        if entries[i].NotText? { return; }
        if IsValidIpOrCidr(entries[i].text) { servers := servers + [entries[i].text]; }
      }
      UsableStep(servers, entries, |entries|);
    }

    /** Any run of calls: only checked entries reach the firewall, and in strict mode traffic is blocked at
        the end if and only if the last call that had a say in it was not an enable that opens. */
    method Serve(calls: seq<Call>)
      requires TablesValid()
      modifies this, firewall
      ensures TablesValid()
      ensures old(StrictHolds()) ==> (StrictHolds() <==> !strict || !Opened(calls))
    {
      for i := 0 to |calls|
        invariant TablesValid()
        invariant old(StrictHolds()) ==> (strict ==> firewall.installed && (Blocking() <==> !Opened(calls[..i])))
      {
        assert calls[..i + 1][..i] == calls[..i];
        var _ := ServeOne(calls[i]);
      }
      assert calls[..|calls|] == calls;
    }

    method ServeOne(call: Call) returns (ok: bool)
      requires TablesValid()
      modifies this, firewall
      ensures TablesValid()
      ensures LeavesBlocking(call) ==> strict == old(strict) && Blocking() == old(Blocking())
      ensures LeavesBlocking(call) ==> firewall.installed == old(firewall.installed)
      ensures !LeavesBlocking(call) && (old(strict) ==> old(firewall.installed)) ==>
                (strict ==> firewall.installed && (Blocking() <==> !Opens(call)))
    {
      hide IsValidIpOrCidr, WellAddressed, Filters;
      match call
      case Init => ok := Init();
      case Refresh(enabled) => ok := Refresh(enabled);
      case DisableKillSwitch => ok := DisableKillSwitch();
      case DisableAllTraffic => ok := DisableAllTraffic();
      case ResetAllowedRange(ranges) => ok := ResetAllowedRange(ranges);
      case AddAllowedRange(ranges) => ok := AddAllowedRange(ranges);
      case EnableKillSwitch(config) => ok := EnableKillSwitch(config);
    }
  }
}
