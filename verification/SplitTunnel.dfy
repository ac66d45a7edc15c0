/** Compiling split-tunnel settings into prefixes (LocalSocketController::activate), the prefix
    sort of Daemon::parseConfig, and what the result means under longest-prefix match. */
module SplitTunnel {
  import opened Wrappers
  import opened Addresses
  import opened Cidr

  /** An entry of "allowedIPAddressRanges" on the wire. */
  datatype Range = Range(address: Host, range: int, isIpv6: bool)

  /** A route of the operating system: into the tunnel or around it. */
  datatype Route = Route(prefix: Prefix, tunnel: bool)

  const DefaultAllowed: seq<AddressText> := [SubnetText(V4(0), 0), SubnetText(V6(0), 0)]

  /** A site is cut at "/"; without one it gets range 32. The family flag is always false. */
  function SiteRange(t: AddressText): Range {
    match t
    case HostText(h) => Range(h, 32, false)
    case SubnetText(h, n) => Range(h, n, false)
  }

  /** Daemon::parseConfig: IPAddress(QHostAddress(address), range). Host bits are kept. */
  function RangePrefix(r: Range): Prefix {
    Prefix(r.address, r.range)
  }

  predicate Matches(p: Prefix, h: Host) {
    WellFormed(p) && Contains(p, h)
  }

  /** What a listed address means: a host itself, a subnet everything with its leading bits. Text that
      does not parse means nothing. */
  predicate Lists(t: AddressText, h: Host) {
    match t
    case HostText(x) => x == h && !h.NullHost?
    case SubnetText(x, n) => Matches(Prefix(x, n), h)
  }

  /** A bare IPv6 address, which is cut to range 32 like an IPv4 one, shares its first 32 bits with `h`. */
  predicate Widens(t: AddressText, h: Host) {
    t.HostText? && t.host.V6? && Matches(Prefix(t.host, 32), h)
  }

  ghost predicate Listed(ts: seq<AddressText>, h: Host) {
    exists t :: t in ts && Lists(t, h)
  }

  ghost predicate Widened(ts: seq<AddressText>, h: Host) {
    exists t :: t in ts && Widens(t, h)
  }

  /** A real address. */
  predicate Real(h: Host) {
    !h.NullHost? && h.bits < Pow2(Width(h))
  }

  // ------------------------------------------------------------- compilation

  /** The allowed ranges, as the loops of the source build them. */
  method CompileAllowed(allowedIps: seq<AddressText>, mode: int, sites: seq<AddressText>) returns (ranges: seq<Range>)
    ensures ranges == AllowedRanges(allowedIps, mode, sites)
    // The family flag is set on the range of all IPv6 addresses only.
    ensures forall r :: r in ranges && r.isIpv6 ==> r == Range(V6(0), 0, true)
  {
    ranges := [];
    if allowedIps != DefaultAllowed && allowedIps != [] {
      for i := 0 to |allowedIps|
        invariant ranges == SiteRanges(allowedIps[..i])
      {
        ranges := ranges + [SiteRange(allowedIps[i])];
      }
      assert allowedIps[..|allowedIps|] == allowedIps;
    } else {
      if mode == 0 || mode == 2 {
        ranges := ranges + [Range(V4(0), 0, false)];
        ranges := ranges + [Range(V6(0), 0, true)];
      }
      if mode == 1 {
        for i := 0 to |sites|
          invariant ranges == SiteRanges(sites[..i])
        {
          ranges := ranges + [SiteRange(sites[i])];
        }
        assert sites[..|sites|] == sites;
      }
    }
  }

  /** The excluded addresses: the server itself, and in mode 2 every site. */
  method CompileExcluded(server: Host, mode: int, sites: seq<AddressText>) returns (excluded: seq<AddressText>)
    ensures excluded == ExcludedTexts(server, mode, sites)
  {
    excluded := [HostText(server)];
    if mode == 2 {
      for i := 0 to |sites|
        invariant excluded == [HostText(server)] + sites[..i]
      {
        excluded := excluded + [sites[i]];
      }
      assert sites[..|sites|] == sites;
    }
  }

  function SiteRanges(sites: seq<AddressText>): seq<Range> {
    seq(|sites|, i requires 0 <= i < |sites| => SiteRange(sites[i]))
  }

  function AllowedRanges(allowedIps: seq<AddressText>, mode: int, sites: seq<AddressText>): seq<Range> {
    if allowedIps != DefaultAllowed && allowedIps != [] then SiteRanges(allowedIps)
    else if mode == 0 || mode == 2 then [Range(V4(0), 0, false), Range(V6(0), 0, true)]
    else if mode == 1 then SiteRanges(sites)
    else []
  }

  function ExcludedTexts(server: Host, mode: int, sites: seq<AddressText>): seq<AddressText> {
    [HostText(server)] + if mode == 2 then sites else []
  }

  // ------------------------------------------------------------- meaning

  /** The routing table a compiled configuration asks for. */
  ghost function Table(allowed: seq<Range>, excluded: seq<AddressText>): set<Route> {
    (set r | r in allowed :: Route(RangePrefix(r), true)) +
    (set t | t in excluded :: Route(KeyByText(t), false))
  }

  predicate ByDefault(allowedIps: seq<AddressText>) {
    allowedIps == DefaultAllowed || allowedIps == []
  }

  ghost function CompiledFrom(allowedIps: seq<AddressText>, server: Host, mode: int, sites: seq<AddressText>)
    : set<Route>
  {
    Table(AllowedRanges(allowedIps, mode, sites), ExcludedTexts(server, mode, sites))
  }

  ghost function Compiled(server: Host, mode: int, sites: seq<AddressText>): set<Route> {
    CompiledFrom(DefaultAllowed, server, mode, sites)
  }

  /** An empty list counts as the default one, and mode 0 is mode 2 without sites. */
  lemma DefaultTables(allowedIps: seq<AddressText>, server: Host, mode: int, sites: seq<AddressText>)
    requires ByDefault(allowedIps)
    ensures CompiledFrom(allowedIps, server, mode, sites) == Compiled(server, mode, sites)
    ensures Compiled(server, 0, sites) == Compiled(server, 2, [])
  {
    assert ExcludedTexts(server, 0, sites) == ExcludedTexts(server, 2, []);
  }

  /** Longest-prefix match: the system may pick any matching route of maximal length. */
  ghost predicate Picks(table: set<Route>, h: Host, route: Route) {
    && route in table && Matches(route.prefix, h)
    && forall other :: other in table && Matches(other.prefix, h) ==> other.prefix.length <= route.prefix.length
  }

  /** Some route is picked as soon as one matches. */
  lemma {:induction false} SomethingPicked(table: set<Route>, h: Host, known: Route)
    requires known in table && Matches(known.prefix, h)
    ensures exists r :: Picks(table, h, r)
    decreases Width(h) - known.prefix.length
  {
    if !Picks(table, h, known) {
      var longer :| longer in table && Matches(longer.prefix, h) && longer.prefix.length > known.prefix.length;
      assert Width(longer.prefix.host) == Width(h);
      SomethingPicked(table, h, longer);
    }
  }

  /** Clearing the host bits of a prefix does not change what it contains. */
  lemma NetworkContains(h: Host, n: nat, x: Host)
    requires !h.NullHost? && n <= Width(h)
    ensures Contains(Prefix(Network(h, n), n), x) <==> Contains(Prefix(h, n), x)
  {
    var block := Pow2(Width(h) - n);
    var q := Bits(h) / block;
    assert Bits(Network(h, n)) == q * block;
    QuotientUnique(q * block, block, q, 0);
  }

  /** The daemon's key for an excluded address contains exactly what the address means... */
  lemma KeyMeansText(t: AddressText, h: Host)
    ensures Matches(KeyByText(t), h) <==> Lists(t, h)
  {
    match t
    case HostText(x) => assert Pow2(0) == 1;
    case SubnetText(x, n) => if !x.NullHost? && n <= Width(x) { NetworkContains(x, n, h); }
  }

  /** ... and so does the compiled range of a site, unless that is a bare IPv6 address. */
  lemma RangeMeansText(t: AddressText, h: Host)
    ensures Matches(RangePrefix(SiteRange(t)), h) <==> Lists(t, h) || Widens(t, h)
  {
    assert Pow2(0) == 1;
  }

  lemma DefaultMatches(h: Host)
    requires Real(h)
    ensures Matches(Prefix(WithBits(h, 0), 0), h)
  {
    Small(h.bits, Pow2(Width(h)));
    Small(0, Pow2(Width(h)));
  }

  lemma Small(x: nat, d: nat)
    requires x < d
    ensures x / d == 0
  {}

  /** The tunnel routes of a table whose ranges match, and the exclusions that list an address. */
  lemma RouteOfRange(allowed: seq<Range>, excluded: seq<AddressText>, r: Route)
    ensures r.tunnel ==> (r in Table(allowed, excluded) <==> exists a :: a in allowed && RangePrefix(a) == r.prefix)
    ensures !r.tunnel ==> (r in Table(allowed, excluded) <==> exists t :: t in excluded && KeyByText(t) == r.prefix)
  {
    assert r == Route(r.prefix, r.tunnel);
  }

  /** An exclusion of positive length lists the address. */
  ghost predicate SurelyExcluded(server: Host, sites: seq<AddressText>, h: Host) {
    exists t :: t in ExcludedTexts(server, 2, sites) && Lists(t, h) && KeyByText(t).length >= 1
  }

  /** Only an exclusion of length 0 lists the address: it ties with the default route. */
  ghost predicate Tied(server: Host, sites: seq<AddressText>, h: Host) {
    Listed(ExcludedTexts(server, 2, sites), h) && !SurelyExcluded(server, sites, h)
  }

  /** Mode 2, any server, any sites and any real address: a route always matches. Where nothing is listed
      every longest one leads into the tunnel; where an exclusion of positive length is, none does; and
      where the only exclusions have length 0, one does and one does not. */
  lemma ExceptSitesTunnelled(server: Host, sites: seq<AddressText>, h: Host)
    requires Real(h)
    ensures exists r :: Picks(Compiled(server, 2, sites), h, r)
    ensures !Listed(ExcludedTexts(server, 2, sites), h) ==>
              forall r :: Picks(Compiled(server, 2, sites), h, r) ==> r.tunnel
    ensures SurelyExcluded(server, sites, h) ==> forall r :: Picks(Compiled(server, 2, sites), h, r) ==> !r.tunnel
    ensures Tied(server, sites, h) ==>
              && (exists r :: Picks(Compiled(server, 2, sites), h, r) && r.tunnel)
              && (exists r :: Picks(Compiled(server, 2, sites), h, r) && !r.tunnel)
  {
    var table, all := Compiled(server, 2, sites), Route(Prefix(WithBits(h, 0), 0), true);
    DefaultMatches(h);
    DefaultInTable(server, sites, h);
    SomethingPicked(table, h, all);
    forall r | Picks(table, h, r)
      ensures !r.tunnel ==> Listed(ExcludedTexts(server, 2, sites), h)
      ensures r.tunnel ==> !SurelyExcluded(server, sites, h)
    {
      if r.tunnel { TunnelIsNotExcluded(server, sites, h, r); } else { BypassIsListed(server, sites, h, r); }
    }
    if Tied(server, sites, h) { TiePicksBoth(server, sites, h, all); }
  }

  lemma DefaultInTable(server: Host, sites: seq<AddressText>, h: Host)
    requires !h.NullHost?
    ensures Route(Prefix(WithBits(h, 0), 0), true) in Compiled(server, 2, sites)
    ensures forall r :: r in Compiled(server, 2, sites) && r.tunnel ==> r.prefix.length == 0
  {
    var allowed := AllowedRanges(DefaultAllowed, 2, sites);
    assert allowed[0] in allowed && RangePrefix(allowed[0]) == Prefix(V4(0), 0);
    assert allowed[1] in allowed && RangePrefix(allowed[1]) == Prefix(V6(0), 0);
  }

  lemma ExclusionInTable(server: Host, sites: seq<AddressText>, t: AddressText)
    requires t in ExcludedTexts(server, 2, sites)
    ensures Route(KeyByText(t), false) in Compiled(server, 2, sites)
  {}

  /** A covering exclusion is longer than either default route, so no default route is picked. */
  lemma TunnelIsNotExcluded(server: Host, sites: seq<AddressText>, h: Host, r: Route)
    requires !h.NullHost? && Picks(Compiled(server, 2, sites), h, r) && r.tunnel
    ensures !SurelyExcluded(server, sites, h)
  {
    DefaultInTable(server, sites, h);
    forall t | t in ExcludedTexts(server, 2, sites) && Lists(t, h) ensures KeyByText(t).length < 1 {
      ExclusionInTable(server, sites, t);
      KeyMeansText(t, h);
    }
  }

  lemma BypassIsListed(server: Host, sites: seq<AddressText>, h: Host, r: Route)
    requires Picks(Compiled(server, 2, sites), h, r) && !r.tunnel
    ensures Listed(ExcludedTexts(server, 2, sites), h)
  {
    var excluded := ExcludedTexts(server, 2, sites);
    RouteOfRange(AllowedRanges(DefaultAllowed, 2, sites), excluded, r);
    var t :| t in excluded && KeyByText(t) == r.prefix;
    KeyMeansText(t, h);
  }

  lemma TiePicksBoth(server: Host, sites: seq<AddressText>, h: Host, all: Route)
    requires Tied(server, sites, h) && all in Compiled(server, 2, sites) && all.tunnel && all.prefix.length == 0
    requires Matches(all.prefix, h)
    ensures Picks(Compiled(server, 2, sites), h, all)
    ensures exists r :: Picks(Compiled(server, 2, sites), h, r) && !r.tunnel
  {
    var table, excluded := Compiled(server, 2, sites), ExcludedTexts(server, 2, sites);
    forall other | other in table && Matches(other.prefix, h) ensures other.prefix.length == 0 {
      RouteOfRange(AllowedRanges(DefaultAllowed, 2, sites), excluded, other);
      if other.tunnel {
        DefaultInTable(server, sites, h);
      } else {
        var t :| t in excluded && KeyByText(t) == other.prefix;
        KeyMeansText(t, h);
      }
    }
    var t :| t in excluded && Lists(t, h);
    ExclusionInTable(server, sites, t);
    KeyMeansText(t, h);
    assert Picks(table, h, Route(KeyByText(t), false));
  }

  /** The tie: with the site 0.0.0.0/0 traffic to any address but the server's may go either way. */
  lemma EverythingExcludedTies(server: Host, h: Host)
    requires Real(h) && h.V4? && h != server
    ensures Tied(server, [SubnetText(V4(0), 0)], h)
  {
    var all := SubnetText(V4(0), 0);
    DefaultMatches(h);
    assert ExcludedTexts(server, 2, [all]) == [HostText(server), all];
    assert Lists(all, h) && all in ExcludedTexts(server, 2, [all]);
  }

  /** Mode 1, any server, any sites and any address but the server's: it has a route if and only if a
      site lists it or a bare IPv6 site is widened over it, and every route picked leads into the tunnel. */
  lemma OnlySitesTunnelled(server: Host, sites: seq<AddressText>, h: Host)
    requires !Lists(HostText(server), h)
    ensures (exists r :: Picks(Compiled(server, 1, sites), h, r)) <==> Listed(sites, h) || Widened(sites, h)
    ensures forall r :: Picks(Compiled(server, 1, sites), h, r) ==> r.tunnel
    ensures h.V4? ==> !Widened(sites, h)
  {
    assert ExcludedTexts(server, 1, sites) == [HostText(server)];
    assert Compiled(server, 1, sites) == Table(SiteRanges(sites), [HostText(server)]);
    CoveredOnly(SiteRanges(sites), sites, [HostText(server)], h);
  }

  /** An address that no exclusion lists, under any ranges compiled from a list of addresses. */
  lemma CoveredOnly(ranges: seq<Range>, ts: seq<AddressText>, excluded: seq<AddressText>, h: Host)
    requires ranges == SiteRanges(ts) && !Listed(excluded, h)
    ensures (exists r :: Picks(Table(ranges, excluded), h, r)) <==> Listed(ts, h) || Widened(ts, h)
    ensures forall r :: Picks(Table(ranges, excluded), h, r) ==> r.tunnel
  {
    var table := Table(ranges, excluded);
    forall r | Picks(table, h, r) ensures r.tunnel && (Listed(ts, h) || Widened(ts, h)) {
      RouteOfRange(ranges, excluded, r);
      if r.tunnel {
        var a :| a in ranges && RangePrefix(a) == r.prefix;
        var i :| 0 <= i < |ranges| && ranges[i] == a;
        RangeMeansText(ts[i], h);
      } else {
        var t :| t in excluded && KeyByText(t) == r.prefix;
        KeyMeansText(t, h);
      }
    }
    if Listed(ts, h) || Widened(ts, h) {
      var t :| t in ts && (Lists(t, h) || Widens(t, h));
      var i :| 0 <= i < |ts| && ts[i] == t;
      RangeMeansText(t, h);
      RouteOfRange(ranges, excluded, Route(RangePrefix(ranges[i]), true));
      assert ranges[i] in ranges;
      SomethingPicked(table, h, Route(RangePrefix(ranges[i]), true));
    }
  }

  /** The widening: the site 2001:db8::1 in mode 1 takes 2001:db8::2 into the tunnel as well. */
  lemma BareIpv6SiteWidens()
    ensures var site := HostText(V6(0x2001_0db8_0000_0000_0000_0000_0000_0001));
            var other := V6(0x2001_0db8_0000_0000_0000_0000_0000_0002);
            Widened([site], other) && !Listed([site], other)
  {
    var site := HostText(V6(0x2001_0db8_0000_0000_0000_0000_0000_0001));
    var other := V6(0x2001_0db8_0000_0000_0000_0000_0000_0002);
    var d := Pow2(96);
    assert d == 0x1_0000_0000_0000_0000_0000_0000 by { BigPower(); }
    QuotientUnique(site.host.bits, d, 0x2001_0db8, 1);
    QuotientUnique(other.bits, d, 0x2001_0db8, 2);
    assert site in [site] && Widens(site, other);
  }

  lemma {:induction false} PowAdd(a: nat, b: nat)
    ensures Pow2(a + b) == Pow2(a) * Pow2(b)
  {
    if b == 0 {
      assert Pow2(0) == 1;
    } else {
      PowAdd(a, b - 1);
      assert Pow2(a) * (2 * Pow2(b - 1)) == 2 * (Pow2(a) * Pow2(b - 1));
    }
  }

  lemma BigPower()
    ensures Pow2(96) == 0x1_0000_0000_0000_0000_0000_0000
  {
    hide Pow2;
    PowerOfEight();
    PowAdd(8, 8);
    assert Pow2(16) == 0x1_0000;
    PowAdd(16, 16);
    assert Pow2(32) == 0x1_0000_0000;
    PowAdd(32, 32);
    PowAdd(64, 32);
  }

  lemma PowerOfEight()
    ensures Pow2(8) == 256
  {
    assert Pow2(4) == 16;
  }

  // ------------------------------------------------------------- any list of ranges

  /** No matching range and no exclusion that lists the address is longer than `n`. */
  ghost predicate NoneLonger(ranges: seq<Range>, excluded: seq<AddressText>, h: Host, n: int) {
    && (forall a :: a in ranges && Matches(RangePrefix(a), h) ==> a.range <= n)
    && (forall t :: t in excluded && Lists(t, h) ==> KeyByText(t).length <= n)
  }

  /** A matching range is at least as long as all matching ranges and exclusions. */
  ghost predicate RangeLeads(ranges: seq<Range>, excluded: seq<AddressText>, h: Host) {
    exists a :: a in ranges && Matches(RangePrefix(a), h) && NoneLonger(ranges, excluded, h, a.range)
  }

  /** A listing exclusion is. */
  ghost predicate ExclusionLeads(ranges: seq<Range>, excluded: seq<AddressText>, h: Host) {
    exists t :: t in excluded && Lists(t, h) && NoneLonger(ranges, excluded, h, KeyByText(t).length)
  }

  lemma LongestIff(ranges: seq<Range>, excluded: seq<AddressText>, h: Host, r: Route)
    requires r in Table(ranges, excluded) && Matches(r.prefix, h)
    ensures Picks(Table(ranges, excluded), h, r) <==> NoneLonger(ranges, excluded, h, r.prefix.length)
  {
    hide Matches, Lists;
    var table := Table(ranges, excluded);
    forall a | a in ranges ensures Route(RangePrefix(a), true) in table {
      RouteOfRange(ranges, excluded, Route(RangePrefix(a), true));
    }
    forall t | t in excluded
      ensures Route(KeyByText(t), false) in table && (Matches(KeyByText(t), h) <==> Lists(t, h))
    {
      RouteOfRange(ranges, excluded, Route(KeyByText(t), false));
      KeyMeansText(t, h);
    }
    forall other | other in table && Matches(other.prefix, h) && NoneLonger(ranges, excluded, h, r.prefix.length)
      ensures other.prefix.length <= r.prefix.length
    {
      RouteOfRange(ranges, excluded, other);
    }
  }

  /** What longest-prefix match makes of any ranges and any exclusions, for any address: a route into the
      tunnel may be picked if and only if a range leads, and a bypass if and only if an exclusion does. */
  lemma LongestDecides(ranges: seq<Range>, excluded: seq<AddressText>, h: Host)
    ensures (exists r :: Picks(Table(ranges, excluded), h, r) && r.tunnel) <==> RangeLeads(ranges, excluded, h)
    ensures (exists r :: Picks(Table(ranges, excluded), h, r) && !r.tunnel) <==> ExclusionLeads(ranges, excluded, h)
  {
    hide Matches, Lists, NoneLonger;
    var table := Table(ranges, excluded);
    forall r | Picks(table, h, r)
      ensures if r.tunnel then RangeLeads(ranges, excluded, h) else ExclusionLeads(ranges, excluded, h)
    {
      RouteOfRange(ranges, excluded, r);
      LongestIff(ranges, excluded, h, r);
      if !r.tunnel {
        var t :| t in excluded && KeyByText(t) == r.prefix;
        KeyMeansText(t, h);
      }
    }
    if a :| a in ranges && Matches(RangePrefix(a), h) && NoneLonger(ranges, excluded, h, a.range) {
      RouteOfRange(ranges, excluded, Route(RangePrefix(a), true));
      LongestIff(ranges, excluded, h, Route(RangePrefix(a), true));
    }
    if t :| t in excluded && Lists(t, h) && NoneLonger(ranges, excluded, h, KeyByText(t).length) {
      KeyMeansText(t, h);
      RouteOfRange(ranges, excluded, Route(KeyByText(t), false));
      LongestIff(ranges, excluded, h, Route(KeyByText(t), false));
    }
  }

  /** An excluded host, the server for one, whatever the ranges are: every route picked for it bypasses
      the tunnel if and only if no range of full length covers it. */
  lemma HostBypassesIff(ranges: seq<Range>, excluded: seq<AddressText>, h: Host)
    requires !h.NullHost? && HostText(h) in excluded
    ensures exists r :: Picks(Table(ranges, excluded), h, r)
    ensures (forall r :: Picks(Table(ranges, excluded), h, r) ==> !r.tunnel)
            <==> forall a :: a in ranges && Matches(RangePrefix(a), h) ==> a.range < Width(h)
  {
    LongestDecides(ranges, excluded, h);
    hide Table, Picks;
    assert KeyByText(HostText(h)).length == Width(h) && Lists(HostText(h), h);
    forall t | t in excluded && Lists(t, h) ensures KeyByText(t).length <= Width(h) { KeyMeansText(t, h); }
    assert forall a :: a in ranges && Matches(RangePrefix(a), h) ==> a.range <= Width(h);
    assert NoneLonger(ranges, excluded, h, Width(h));
    assert ExclusionLeads(ranges, excluded, h);
    if RangeLeads(ranges, excluded, h) {
      var a :| a in ranges && Matches(RangePrefix(a), h) && NoneLonger(ranges, excluded, h, a.range);
      assert a.range >= Width(h);
    } else {
      forall a | a in ranges && Matches(RangePrefix(a), h) ensures a.range < Width(h) {
        assert !NoneLonger(ranges, excluded, h, a.range);
      }
    }
  }

  /** A server that is also in the list of ranges, with full length: it may be routed into the tunnel. */
  lemma ListedServerMayTunnel(bits: nat)
    ensures var server := V4(bits);
            var table := Table([Range(server, 32, false)], [HostText(server)]);
            exists r :: Picks(table, server, r) && r.tunnel
  {
    var server := V4(bits);
    var range := Range(server, 32, false);
    HostBypassesIff([range], [HostText(server)], server);
    assert range in [range] && Matches(RangePrefix(range), server);
  }

  /** The two modes are complements: with the same sites, any real address but the server's is tunnelled
      in exactly one of them, if and only if it is neither tied in mode 2 nor taken in by a widened site
      in mode 1. */
  lemma ModesAreComplementary(server: Host, sites: seq<AddressText>, h: Host)
    requires Real(h) && h != server
    ensures ((exists r :: Picks(Compiled(server, 1, sites), h, r) && r.tunnel)
             <==> forall r :: Picks(Compiled(server, 2, sites), h, r) ==> !r.tunnel)
            <==> !Tied(server, sites, h) && (Listed(sites, h) || !Widened(sites, h))
  {
    hide Picks, Compiled, Lists, Widens;
    assert !Lists(HostText(server), h) by { NotThisHost(server, h); }
    ExceptSitesTunnelled(server, sites, h);
    OnlySitesTunnelled(server, sites, h);
    ListedByServerOrSite(server, sites, h);
    assert (exists r :: Picks(Compiled(server, 1, sites), h, r) && r.tunnel) <==> Listed(sites, h) || Widened(sites, h);
    assert (forall r :: Picks(Compiled(server, 2, sites), h, r) ==> !r.tunnel) <==> SurelyExcluded(server, sites, h);
  }

  lemma NotThisHost(x: Host, h: Host)
    requires x != h
    ensures !Lists(HostText(x), h)
  {}

  lemma ListedByServerOrSite(server: Host, sites: seq<AddressText>, h: Host)
    ensures Listed(ExcludedTexts(server, 2, sites), h) <==> Lists(HostText(server), h) || Listed(sites, h)
    ensures SurelyExcluded(server, sites, h) ==> Listed(ExcludedTexts(server, 2, sites), h)
  {
    hide Lists;
    assert forall t :: t in ExcludedTexts(server, 2, sites) <==> t == HostText(server) || t in sites;
  }

  // ------------------------------------------------------------- sorted list, first match

  predicate LongestFirst(ps: seq<Prefix>) {
    |ps| <= 1 || (ps[0].length >= ps[1].length && LongestFirst(ps[1..]))
  }

  function Insert(p: Prefix, ps: seq<Prefix>): seq<Prefix> {
    if ps == [] || ps[0].length < p.length then [p] + ps else [ps[0]] + Insert(p, ps[1..])
  }

  lemma {:induction false} InsertKeepsOrder(p: Prefix, ps: seq<Prefix>)
    requires LongestFirst(ps)
    ensures LongestFirst(Insert(p, ps))
  {
    if ps == [] || ps[0].length < p.length {
      assert ([p] + ps)[1..] == ps;
    } else {
      InsertKeepsOrder(p, ps[1..]);
      assert Insert(p, ps)[1..] == Insert(p, ps[1..]);
    }
  }

  lemma {:induction false} InsertAddsOne(p: Prefix, ps: seq<Prefix>)
    ensures multiset(Insert(p, ps)) == multiset(ps) + multiset{p}
  {
    if ps != [] && ps[0].length >= p.length {
      InsertAddsOne(p, ps[1..]);
      assert ps == [ps[0]] + ps[1..];
    }
  }

  /** The sort of Daemon::parseConfig, by decreasing prefix length. */
  method SortRanges(ps: seq<Prefix>) returns (sorted: seq<Prefix>)
    ensures multiset(sorted) == multiset(ps) && LongestFirst(sorted)
  {
    sorted := [];
    for i := 0 to |ps|
      invariant multiset(sorted) == multiset(ps[..i]) && LongestFirst(sorted)
    {
      InsertKeepsOrder(ps[i], sorted);
      InsertAddsOne(ps[i], sorted);
      assert ps[..i + 1] == ps[..i] + [ps[i]];
      sorted := Insert(ps[i], sorted);
    }
    assert ps[..|ps|] == ps;
  }

  function FirstMatch(ps: seq<Prefix>, h: Host): (r: Option<Prefix>) {
    if ps == [] then None else if Matches(ps[0], h) then Some(ps[0]) else FirstMatch(ps[1..], h)
  }

  /** On a sorted list, the first match is a longest match of the unsorted one, and any other
      longest match contains exactly the same addresses. */
  lemma FirstMatchIsLongest(ps: seq<Prefix>, sorted: seq<Prefix>, h: Host)
    requires multiset(sorted) == multiset(ps) && LongestFirst(sorted)
    ensures FirstMatch(sorted, h).None? <==> forall p :: p in ps ==> !Matches(p, h)
    ensures FirstMatch(sorted, h).Some? ==>
              var r := FirstMatch(sorted, h).value;
              && r in ps && Matches(r, h)
              && forall p :: p in ps && Matches(p, h) ==>
                   p.length <= r.length && (p.length == r.length ==> forall x :: Matches(p, x) <==> Matches(r, x))
  {
    FirstInSorted(sorted, h);
    assert forall p :: p in ps <==> p in multiset(ps);
    assert forall p :: p in sorted <==> p in multiset(sorted);
  }

  lemma {:induction false} FirstInSorted(sorted: seq<Prefix>, h: Host)
    requires LongestFirst(sorted)
    ensures FirstMatch(sorted, h).None? <==> forall p :: p in sorted ==> !Matches(p, h)
    ensures FirstMatch(sorted, h).Some? ==>
              var r := FirstMatch(sorted, h).value;
              && r in sorted && Matches(r, h)
              && forall p :: p in sorted && Matches(p, h) ==> p.length <= r.length
  {
    if sorted != [] {
      assert forall p :: p in sorted <==> p == sorted[0] || p in sorted[1..];
      HeadIsLongest(sorted);
      FirstInSorted(sorted[1..], h);
    }
  }

  lemma {:induction false} HeadIsLongest(sorted: seq<Prefix>)
    requires LongestFirst(sorted) && sorted != []
    ensures forall p :: p in sorted ==> p.length <= sorted[0].length
  {
    assert forall p :: p in sorted <==> p == sorted[0] || p in sorted[1..];
    if |sorted| > 1 { HeadIsLongest(sorted[1..]); }
  }
}
