/** From split-tunnel settings to the routes the system holds: the controller's compilation, the
    daemon's sort and its activation, taken together. */
module SplitTunnelActivation {
  import opened Addresses
  import opened Accounting
  import opened Cidr
  import opened SplitTunnel
  import opened WireguardUtils
  import D = Daemon

  /** The routes the system holds. */
  ghost function SystemTable(tunnelRoutes: set<Prefix>, exclusionRoutes: set<Prefix>): set<Route> {
    (set p | p in tunnelRoutes :: Route(p, true)) + (set p | p in exclusionRoutes :: Route(p, false))
  }

  function Prefixes(ranges: seq<Range>): (ps: seq<Prefix>)
    ensures |ps| == |ranges| && forall i :: 0 <= i < |ps| ==> ps[i] == RangePrefix(ranges[i])
  {
    seq(|ranges|, i requires 0 <= i < |ranges| => RangePrefix(ranges[i]))
  }

  lemma TableOfLists(ranges: seq<Range>, sorted: seq<Prefix>, excluded: seq<AddressText>)
    requires multiset(sorted) == multiset(Prefixes(ranges))
    ensures SystemTable(ToSet(sorted), ToSet(TextKeys(excluded))) == Table(ranges, excluded)
  {
    forall p ensures p in ToSet(sorted) <==> exists r :: r in ranges && RangePrefix(r) == p {
      assert p in sorted <==> p in multiset(sorted);
      assert p in Prefixes(ranges) <==> p in multiset(Prefixes(ranges));
      if r :| r in ranges && RangePrefix(r) == p {
        var i :| 0 <= i < |ranges| && ranges[i] == r;
        assert Prefixes(ranges)[i] == p;
      }
    }
    forall p ensures p in ToSet(TextKeys(excluded)) <==> exists t :: t in excluded && KeyByText(t) == p {
      if t :| t in excluded && KeyByText(t) == p {
        var i :| 0 <= i < |excluded| && excluded[i] == t;
        assert TextKeys(excluded)[i] == p;
      }
    }
    var a, b := SystemTable(ToSet(sorted), ToSet(TextKeys(excluded))), Table(ranges, excluded);
    forall r ensures r in a <==> r in b {
      assert r == Route(r.prefix, true) || r == Route(r.prefix, false);
    }
  }

  /** What modes 0 and 2 promise of every real address: a route for it; the tunnel if nothing lists it, a
      bypass if the server or a site of positive length does, and either where only a site of length 0 does. */
  ghost predicate TunnelsAllBut(table: set<Route>, server: Host, sites: seq<AddressText>) {
    forall h: Host :: Real(h) ==>
      && (exists r :: Picks(table, h, r))
      && (!Listed(ExcludedTexts(server, 2, sites), h) ==> forall r :: Picks(table, h, r) ==> r.tunnel)
      && (SurelyExcluded(server, sites, h) ==> forall r :: Picks(table, h, r) ==> !r.tunnel)
      && (Tied(server, sites, h) ==>
            (exists r :: Picks(table, h, r) && r.tunnel) && (exists r :: Picks(table, h, r) && !r.tunnel))
  }

  /** What mode 1 and a list of one's own promise of every address that no exclusion lists: a route if and
      only if the list covers it, and always into the tunnel. */
  ghost predicate TunnelsOnly(table: set<Route>, listed: seq<AddressText>, excluded: seq<AddressText>) {
    forall h: Host :: !Listed(excluded, h) ==>
      && ((exists r :: Picks(table, h, r)) <==> Listed(listed, h) || Widened(listed, h))
      && (forall r :: Picks(table, h, r) ==> r.tunnel)
  }

  /** For every address: a route into the tunnel may be picked if and only if a range leads, and a bypass
      if and only if an exclusion does. */
  ghost predicate ByLength(table: set<Route>, ranges: seq<Range>, excluded: seq<AddressText>) {
    forall h: Host ::
      && ((exists r :: Picks(table, h, r) && r.tunnel) <==> RangeLeads(ranges, excluded, h))
      && ((exists r :: Picks(table, h, r) && !r.tunnel) <==> ExclusionLeads(ranges, excluded, h))
  }

  /** What a table compiled from settings promises of every address, and in the words of each mode. */
  ghost predicate Promised(table: set<Route>, allowedIps: seq<AddressText>, server: Host, mode: int,
                            sites: seq<AddressText>)
  {
    && ByLength(table, AllowedRanges(allowedIps, mode, sites), ExcludedTexts(server, mode, sites))
    && ModeMeans(table, allowedIps, server, mode, sites)
  }

  /** The words of each mode: an AllowedIPs list other than 0.0.0.0/0, ::/0 decides by itself; otherwise the
      mode does. */
  ghost predicate ModeMeans(table: set<Route>, allowedIps: seq<AddressText>, server: Host, mode: int,
                             sites: seq<AddressText>)
  {
    var excluded := [HostText(server)] + if mode == 2 then sites else [];
    if allowedIps != [] && allowedIps != [SubnetText(V4(0), 0), SubnetText(V6(0), 0)] then
      TunnelsOnly(table, allowedIps, excluded)
    else if mode == 1 then TunnelsOnly(table, sites, excluded)
    else if mode == 0 || mode == 2 then TunnelsAllBut(table, server, if mode == 2 then sites else [])
    else TunnelsOnly(table, [], excluded)
  }

  lemma AllButMeaning(server: Host, sites: seq<AddressText>)
    ensures TunnelsAllBut(Compiled(server, 2, sites), server, sites)
  {
    hide Picks, Listed, SurelyExcluded, Tied, Compiled;
    forall h: Host | Real(h)
      ensures exists r :: Picks(Compiled(server, 2, sites), h, r)
      ensures !Listed(ExcludedTexts(server, 2, sites), h) ==>
                forall r :: Picks(Compiled(server, 2, sites), h, r) ==> r.tunnel
      ensures SurelyExcluded(server, sites, h) ==> forall r :: Picks(Compiled(server, 2, sites), h, r) ==> !r.tunnel
      ensures Tied(server, sites, h) ==>
                && (exists r :: Picks(Compiled(server, 2, sites), h, r) && r.tunnel)
                && (exists r :: Picks(Compiled(server, 2, sites), h, r) && !r.tunnel)
    {
      ExceptSitesTunnelled(server, sites, h);
    }
  }

  lemma OnlyMeaning(listed: seq<AddressText>, excluded: seq<AddressText>)
    ensures TunnelsOnly(Table(SiteRanges(listed), excluded), listed, excluded)
  {
    hide Picks, Listed, Widened, Table;
    forall h: Host | !Listed(excluded, h)
      ensures (exists r :: Picks(Table(SiteRanges(listed), excluded), h, r))
                <==> Listed(listed, h) || Widened(listed, h)
      ensures forall r :: Picks(Table(SiteRanges(listed), excluded), h, r) ==> r.tunnel
    {
      CoveredOnly(SiteRanges(listed), listed, excluded, h);
    }
  }

  lemma LengthMeaning(ranges: seq<Range>, excluded: seq<AddressText>)
    ensures ByLength(Table(ranges, excluded), ranges, excluded)
  {
    hide Picks, RangeLeads, ExclusionLeads, Table;
    forall h: Host
      ensures (exists r :: Picks(Table(ranges, excluded), h, r) && r.tunnel) <==> RangeLeads(ranges, excluded, h)
      ensures (exists r :: Picks(Table(ranges, excluded), h, r) && !r.tunnel) <==> ExclusionLeads(ranges, excluded, h)
    {
      LongestDecides(ranges, excluded, h);
    }
  }

  /** Every table keeps its promise: any AllowedIPs list, server, mode and sites. */
  lemma TableMeaning(allowedIps: seq<AddressText>, server: Host, mode: int, sites: seq<AddressText>)
    ensures Promised(CompiledFrom(allowedIps, server, mode, sites), allowedIps, server, mode, sites)
  {
    hide TunnelsOnly, TunnelsAllBut, ByLength;
    var excluded := ExcludedTexts(server, mode, sites);
    LengthMeaning(AllowedRanges(allowedIps, mode, sites), excluded);
    if !ByDefault(allowedIps) {
      OnlyMeaning(allowedIps, excluded);
    } else {
      DefaultTables(allowedIps, server, mode, sites);
      if mode == 1 {
        OnlyMeaning(sites, excluded);
      } else if mode == 0 || mode == 2 {
        AllButMeaning(server, if mode == 2 then sites else []);
      } else {
        OnlyMeaning([], excluded);
        assert SiteRanges([]) == [];
      }
    }
  }

  /** The list 0.0.0.0/0, ::/0 leaves it to the mode: with the site 10.0.0.0/8 in mode 1 the address 8.8.8.8
      has no route at all; in a list of one's own it would be covered. */
  lemma DefaultListInModeOne(server: Host)
    requires server != V4(0x08080808)
    ensures var site := SubnetText(V4(0x0A000000), 8);
            var table := CompiledFrom([SubnetText(V4(0), 0), SubnetText(V6(0), 0)], server, 1, [site]);
            !exists r :: Picks(table, V4(0x08080808), r)
  {
    var site, h := SubnetText(V4(0x0A000000), 8), V4(0x08080808);
    var table := CompiledFrom([SubnetText(V4(0), 0), SubnetText(V6(0), 0)], server, 1, [site]);
    TableMeaning([SubnetText(V4(0), 0), SubnetText(V6(0), 0)], server, 1, [site]);
    assert TunnelsOnly(table, [site], [HostText(server)]);
    assert !Lists(site, h) by { PowersNearTen(); }
  }

  /** On a clean system a successful activation leaves exactly the routes of its configuration. */
  method ActivateOnClean(daemon: D.Daemon, config: InterfaceConfig) returns (ok: bool)
    requires daemon.Valid() && daemon.connections == map[] && daemon.excluded == map[]
    requires daemon.os.tunnelRoutes == {} && daemon.os.exclusionRoutes == {}
    modifies daemon, daemon.os
    ensures ok ==> daemon.os.tunnelRoutes == ToSet(config.allowed)
    ensures ok ==> daemon.os.exclusionRoutes == ToSet(TextKeys(config.excluded))
  {
    ok := daemon.Activate(config);
    AddEachCount(map[], TextKeys(config.excluded));
  }

  /** Settings activated on a clean system: whatever may fail, once the activation reports success the
      system holds exactly the compiled table, and routes as the settings promise. */
  method ActivateSettings(daemon: D.Daemon, base: InterfaceConfig, allowedIps: seq<AddressText>, server: Host,
                          mode: int, sites: seq<AddressText>)
    returns (ok: bool)
    requires daemon.Valid() && daemon.connections == map[] && daemon.excluded == map[]
    requires daemon.os.tunnelRoutes == {} && daemon.os.exclusionRoutes == {}
    modifies daemon, daemon.os
    ensures var table := SystemTable(daemon.os.tunnelRoutes, daemon.os.exclusionRoutes);
            ok ==>
              table == CompiledFrom(allowedIps, server, mode, sites) && Promised(table, allowedIps, server, mode, sites)
  {
    hide Promised;
    var ranges := CompileAllowed(allowedIps, mode, sites);
    var excluded := CompileExcluded(server, mode, sites);
    var sorted := SortRanges(Prefixes(ranges));
    var config := base.(allowed := sorted, excluded := excluded);
    ok := ActivateOnClean(daemon, config);
    TableOfLists(ranges, sorted, excluded);
    TableMeaning(allowedIps, server, mode, sites);
  }
}
