/** The daemon of client/daemon/daemon.cpp, as a release build runs it: assertions compiled out. */
module Daemon {
  import opened Wrappers
  import opened Addresses
  import opened Accounting
  import opened WireguardUtils
  import opened Ledger
  import opened Handshakes

  datatype Event =
    | ActivateCommand(config: InterfaceConfig)
    | DeactivateCommand
    | HandshakeTimeout(statuses: seq<PeerStatus>)

  ghost predicate PlainEvents(events: seq<Event>) {
    forall e :: e in events && e.ActivateCommand? ==> AllPlain(e.config.excluded)
  }

  ghost predicate DistinctEvents(events: seq<Event>) {
    forall e :: e in events && e.HandshakeTimeout? ==> DistinctPeers(e.statuses)
  }

  ghost predicate OwnedEvents(owner: map<string, Hop>, events: seq<Event>) {
    forall e :: e in events && e.ActivateCommand? ==> OwnedBy(owner, e.config, e.config.hop)
  }

  ghost predicate ZonedEvents(zones: map<Hop, set<Prefix>>, events: seq<Event>) {
    forall e :: e in events && e.ActivateCommand? ==> InZone(zones, e.config)
  }

  // ------------------------------------------------------------- what the commands ask for

  type Configs = map<Hop, InterfaceConfig>

  function ConfigsOf(cs: Connections): Configs {
    map h | h in cs :: cs[h].config
  }

  /** An activation puts its configuration in the place of its hop's, and in the place of all of them if
      the hop's interface has to be raised again; a deactivation leaves none. */
  function Asked(configs: Configs, event: Event): Configs {
    match event
    case ActivateCommand(c) =>
      if c.hop in configs && !SameInterface(c, configs[c.hop]) then map[c.hop := c] else configs[c.hop := c]
    case DeactivateCommand => map[]
    case HandshakeTimeout(_) => configs
  }

  function AllAsked(configs: Configs, events: seq<Event>): Configs {
    if events == [] then configs else Asked(AllAsked(configs, events[..|events| - 1]), events[|events| - 1])
  }

  lemma ActivatedAsAsked(cs: Connections, cs': Connections, config: InterfaceConfig)
    requires var restart := config.hop in cs && !SameInterface(config, cs[config.hop].config);
             cs' == (if restart then map[] else cs)[config.hop := Connection(config, None)]
    ensures ConfigsOf(cs') == Asked(ConfigsOf(cs), ActivateCommand(config))
  {}

  lemma NoConfigs()
    ensures ConfigsOf(map[]) == map[]
  {}

  lemma SameConfigs(cs: Connections, cs': Connections)
    requires cs.Keys == cs'.Keys && forall h :: h in cs ==> cs'[h].config == cs[h].config
    ensures ConfigsOf(cs') == ConfigsOf(cs)
  {}

  class Daemon {
    const os: System
    var connections: Connections
    var excluded: Counts
    var timerArmed: bool

    /** Emitted signals. */
    var activationFailures: nat
    var disconnections: nat
    var announced: seq<string>

    /** How often `connected` was emitted for a hop since its connection was installed. */
    ghost var announcements: map<Hop, nat>

    /** The tunnel routes set by activations that then failed. */
    ghost var leftover: set<Prefix>

    /** The configuration each hop was last brought up with from scratch. */
    ghost var broughtUp: map<Hop, InterfaceConfig>

    /** What holds whatever happens: no count is negative, and every connection is filed under its own
        hop. */
    ghost predicate Valid()
      reads this
    {
      NonNegative(excluded) && Filed(connections)
    }

    /** Every count is positive and every counted route is in the system. */
    ghost predicate Sound()
      reads this, os
    {
      SoundCounts(excluded, os.exclusionRoutes)
    }

    /** No route is in the system without being counted. */
    ghost predicate Mirrored()
      reads this, os
    {
      excluded.Keys == os.exclusionRoutes
    }

    constructor (os: System)
      requires os.exclusionRoutes == {}
      ensures activationFailures == disconnections == 0 && announced == [] && !timerArmed
      ensures this.os == os && connections == map[] && excluded == map[] && announcements == map[] && leftover == {}
      ensures Up() && AllPeered(connections, os.peers) && Matching(connections, broughtUp)
      ensures Valid() && Sound() && Mirrored() && Healthy() && Tight() && Polled() && AnnouncedOnce()
      ensures os.tunnelRoutes == {} ==> NoStrayRoutes()
    {
      this.os := os;
      connections, excluded, timerArmed := map[], map[], false;
      activationFailures, disconnections, announced := 0, 0, [];
      announcements, leftover, broughtUp := map[], {}, map[];
    }

    /** Sound up to the stray key. */
    ghost predicate Covered()
      reads this, os
    {
      CoveredCounts(excluded, os.exclusionRoutes)
    }

    /** Enough is counted for every connection, and what is counted is in the system; this is what a run
        keeps whatever routes cannot be added or deleted. */
    ghost predicate Healthy()
      reads this, os
    {
      HealthyCounts(excluded, connections, os.exclusionRoutes)
    }

    /** Exactly what the connections ask for is counted, and exactly that is in the system. */
    ghost predicate Tight()
      reads this, os
    {
      TightCounts(excluded, connections, os.exclusionRoutes)
    }

    predicate DeletesSucceed() {
      os.routeDeletesSucceed && os.peerDeletesSucceed
    }

    ghost predicate NoStrayRoutes()
      reads this, os
    {
      Confined(connections, os.tunnelRoutes, leftover)
    }

    /** While there is a connection the interface is there. */
    ghost predicate Up()
      reads this, os
    {
      connections != map[] ==> os.interfaceUp
    }

    /** A connection without a handshake date is being polled for. */
    ghost predicate Polled()
      reads this
    {
      Pending(connections) ==> timerArmed
    }

    /** A connection has been announced once if its date is known, and not at all otherwise. */
    ghost predicate AnnouncedOnce()
      reads this
    {
      OncePerDate(announcements, connections)
    }

    /** What an operation that may install `config` keeps of the accounting... */
    twostate predicate KeepsAccounts(config: InterfaceConfig)
      reads this, os
    {
      Valid() && AccountsKept(os.routeDeletesSucceed, os.peerDeletesSucceed, config, old(excluded), old(connections),
                              old(os.exclusionRoutes), excluded, connections, os.exclusionRoutes)
    }

    /** ... of the tunnel routes... */
    twostate predicate KeepsRoutes(config: InterfaceConfig)
      reads this, os
    {
      RoutesKept(os.routeDeletesSucceed, os.peerDeletesSucceed, config,
                 old(connections), old(os.tunnelRoutes), old(leftover),
                 connections, os.tunnelRoutes, leftover)
    }

    /** ... of the peers and of the interface... */
    twostate predicate KeepsPeers(config: InterfaceConfig)
      reads this, os
    {
      && PeersKept(os.peerUpdatesSucceed, config, old(connections), old(os.peers), connections, os.peers)
      && (old(Up()) ==> Up())
    }

    /** ... and of the rest: a connection is one from before or the new one... */
    twostate predicate KeepsState(config: InterfaceConfig)
      reads this, os
    {
      && KeepsAccounts(config) && KeepsRoutes(config) && KeepsPeers(config)
      && OldOrNew(old(connections), connections, config)
      && (old(AnnouncedOnce()) ==> AnnouncedOnce())
    }

    /** ... and it is polled for. */
    twostate predicate Keeps(config: InterfaceConfig)
      reads this, os
    {
      KeepsState(config) && (os.hooksSucceed && old(Polled()) ==> Polled())
    }

    /** Exactly the routes of `config` were added. */
    twostate predicate Raised(config: InterfaceConfig)
      reads this, os
    {
      && os.tunnelRoutes == old(os.tunnelRoutes) + ToSet(config.allowed)
      && excluded == AddEach(old(excluded), TextKeys(config.excluded)) && (old(Mirrored()) ==> Mirrored())
    }

    /** The system's peer for a server is the configured one. */
    ghost predicate Peered(config: InterfaceConfig)
      reads os
    {
      PeerIs(os.peers, config)
    }

    /** m_connections[config.m_hopType] = ConnectionState(config) */
    method Install(config: InterfaceConfig)
      modifies this`connections, this`announcements
      ensures connections == old(connections)[config.hop := Connection(config, None)]
      ensures announcements == old(announcements)[config.hop := 0]
    {
      connections := connections[config.hop := Connection(config, None)];
      announcements := announcements[config.hop := 0];
    }

    /** Daemon::addExclusionRoutes: the batch counts exactly as adding one address at a time would;
        a failed batch leaves the counts alone. */
    method AddExclusionRoutes(addresses: seq<AddressText>) returns (ok: bool)
      requires Valid()
      modifies this`excluded, os`exclusionRoutes
      ensures Valid() && (old(Sound()) ==> Sound()) && (old(Covered()) ==> Covered())
      ensures excluded == if ok then AddEach(old(excluded), TextKeys(addresses)) else old(excluded)
      ensures old(Mirrored()) && (ok || os.routeDeletesSucceed) ==> Mirrored()
    {
      hide AddEach, SoundCounts, CoveredCounts, NonNegative, TextKeys;
      var requested := CountRequested(addresses);
      var newPrefixes := Uncounted(requested.Keys);
      ghost var ks := TextKeys(addresses);
      AddEachCount(map[], ks);
      assert requested.Keys == ToSet(ks);
      ok := os.AddExclusionRoutes(newPrefixes);
      if !ok {
        BatchFailed(excluded, ToSet(newPrefixes), old(os.exclusionRoutes), os.exclusionRoutes);
        return;
      }
      MergeRequested(requested);
      BatchIsFold(old(excluded), ks);
      BatchAdded(old(excluded), ks, old(os.exclusionRoutes), os.exclusionRoutes);
    }

    /** The first loop of addExclusionRoutes. */
    static method CountRequested(addresses: seq<AddressText>) returns (requested: Counts)
      ensures requested == AddEach(map[], TextKeys(addresses))
    {
      requested := map[];
      ghost var ks := TextKeys(addresses);
      for i := 0 to |addresses|
        invariant requested == AddEach(map[], ks[..i])
      {
        assert ks[..i + 1][..i] == ks[..i];
        requested := AddOne(requested, KeyByText(addresses[i]));
      }
      assert ks[..|ks|] == ks;
    }

    /** The keys not counted yet, in whatever order the hash yields them. */
    method Uncounted(keys: set<Prefix>) returns (newPrefixes: seq<Prefix>)
      ensures ToSet(newPrefixes) == keys - excluded.Keys
    {
      newPrefixes := [];
      var pending := keys;
      while pending != {}
        invariant pending <= keys
        invariant ToSet(newPrefixes) == keys - pending - excluded.Keys
      {
        var p :| p in pending;
        assert keys - (pending - {p}) == keys - pending + {p};
        assert ToSet(newPrefixes + [p]) == ToSet(newPrefixes) + {p};
        if p !in excluded { newPrefixes := newPrefixes + [p]; }
        pending := pending - {p};
      }
    }

    /** The second loop of addExclusionRoutes. */
    method MergeRequested(requested: Counts)
      modifies this`excluded
      ensures excluded == Merge(old(excluded), requested)
    {
      var pending := requested.Keys;
      while pending != {}
        invariant pending <= requested.Keys
        invariant excluded == Merge(old(excluded), requested - pending)
      {
        var p :| p in pending;
        ghost var done := requested - pending;
        excluded := excluded[p := Count(excluded, p) + requested[p]];
        pending := pending - {p};
        assert requested - pending == done[p := requested[p]];
      }
      assert requested - {} == requested;
    }

    /** Daemon::delExclusionRoute. A key that is not there is inserted with count 0 first, and
        stays if and only if the system refuses the deletion. */
    method DelExclusionRoute(p: Prefix) returns (ok: bool)
      requires Valid()
      modifies this`excluded, os`exclusionRoutes
      ensures Valid() && excluded == DelAttempt(old(excluded), p, ok) && (os.routeDeletesSucceed ==> ok)
      ensures Count(excluded, p) == if Count(old(excluded), p) > 1 then Count(old(excluded), p) - 1
                                    else if ok then 0 else Count(old(excluded), p)
      ensures forall q ::
                Monus(Count(old(excluded), q), if q == p then 1 else 0) <= Count(excluded, q) <= Count(old(excluded), q)
      ensures old(Sound()) ==> (Sound() <==> p in old(excluded) || ok)
      ensures old(Covered()) ==> (Covered() <==> p in old(excluded) || ok || p == StrayKey)
      ensures old(Sound() && Mirrored()) && os.routeDeletesSucceed ==> Mirrored()
    {
      if p !in excluded { excluded := excluded[p := 0]; }  // QHash::operator[] inserts
      if excluded[p] > 1 {
        excluded := excluded[p := excluded[p] - 1];
        return true;
      }
      ok := os.DeleteExclusionRoute(p);
      if ok { excluded := excluded - {p}; }
    }

    /** The loops that delete a list of exclusion routes: both scope guards, and the removal of the
        old list. */
    method DropRoutes(ks: seq<Prefix>)
      requires Valid()
      modifies this`excluded, os`exclusionRoutes
      ensures Valid() && Dropped(os.routeDeletesSucceed, old(excluded), excluded, multiset(ks))
      ensures old(Sound()) && (os.routeDeletesSucceed || (Counted(old(excluded), ks) && StrayKey !in ks)) ==> Sound()
      ensures old(Covered()) && (os.routeDeletesSucceed || Counted(old(excluded), ks)) ==> Covered()
      ensures old(Sound() && Mirrored()) && os.routeDeletesSucceed ==> Mirrored()
    {
      hide Dropped, DelOne, Monus;
      ghost var safe := os.routeDeletesSucceed || Counted(excluded, ks);
      NothingDropped(os.routeDeletesSucceed, excluded);
      for i := 0 to |ks|
        invariant Valid() && Dropped(os.routeDeletesSucceed, old(excluded), excluded, multiset(ks[..i]))
        invariant old(Sound()) && safe && (os.routeDeletesSucceed || StrayKey !in ks) ==> Sound()
        invariant old(Covered()) && safe ==> Covered()
        invariant old(Sound() && Mirrored()) && os.routeDeletesSucceed ==> Mirrored()
      {
        SplitAt(ks, i);
        ghost var mid := excluded;
        var _ := DelExclusionRoute(ks[i]);
        DropOneMore(os.routeDeletesSucceed, old(excluded), mid, excluded, multiset(ks[..i]), ks[i]);
        assert multiset(ks[..i])[ks[i]] < multiset(ks)[ks[i]];
      }
      assert ks[..|ks|] == ks;
    }

    /** Daemon::supportServerSwitching */
    predicate SupportsSwitching(config: InterfaceConfig)
      reads this
    {
      config.hop in connections &&
      var current := connections[config.hop].config;
      && current.privateKey == config.privateKey
      && current.deviceIpv4 == config.deviceIpv4 && current.deviceIpv6 == config.deviceIpv6
      && current.gatewayIpv4 == config.gatewayIpv4 && current.gatewayIpv6 == config.gatewayIpv6
    }

    /** The route loop of switchServer with its rollback. */
    method InstallRoutes(next: seq<Prefix>, last: InterfaceConfig) returns (ok: bool, ghost reached: nat)
      modifies os`tunnelRoutes, os`peers
      ensures reached <= |next| && (ok <==> reached == |next|)
      ensures ok ==> os.tunnelRoutes == old(os.tunnelRoutes) + ToSet(next) && os.peers == old(os.peers)
      ensures !ok ==>
                || os.peers == old(os.peers)[last.serverPublicKey := last]
                || (os.peers == old(os.peers) && !os.peerUpdatesSucceed)
      ensures !ok ==> RoutesAfterRollback(old(os.tunnelRoutes), last.allowed, next[..reached]) <= os.tunnelRoutes
      ensures !ok && os.routeDeletesSucceed ==>
                os.tunnelRoutes == RoutesAfterRollback(old(os.tunnelRoutes), last.allowed, next[..reached])
    {
      var updated: seq<Prefix> := [];
      for i := 0 to |next|
        invariant updated == next[..i]
        invariant os.tunnelRoutes == old(os.tunnelRoutes) + ToSet(updated) && os.peers == old(os.peers)
      {
        var done := os.UpdateRoutePrefix(next[i]);
        if !done {
          UndoRoutes(updated, last);
          var _ := os.UpdatePeer(last);
          return false, i;
        }
        assert next[..i + 1] == next[..i] + [next[i]];
        updated := updated + [next[i]];
      }
      assert next[..|next|] == next;
      return true, |next|;
    }

    method UndoRoutes(updated: seq<Prefix>, last: InterfaceConfig)
      modifies os`tunnelRoutes
      ensures old(os.tunnelRoutes) - (ToSet(updated) - ToSet(last.allowed)) <= os.tunnelRoutes
      ensures os.routeDeletesSucceed ==>
                os.tunnelRoutes == old(os.tunnelRoutes) - (ToSet(updated) - ToSet(last.allowed))
    {
      for i := 0 to |updated|
        invariant old(os.tunnelRoutes) - (ToSet(updated[..i]) - ToSet(last.allowed)) <= os.tunnelRoutes
        invariant os.routeDeletesSucceed ==>
                    os.tunnelRoutes == old(os.tunnelRoutes) - (ToSet(updated[..i]) - ToSet(last.allowed))
      {
        assert updated[..i + 1] == updated[..i] + [updated[i]];
        if updated[i] !in last.allowed {
          var _ := os.DeleteRoutePrefix(updated[i]);
        }
      }
      assert updated[..|updated|] == updated;
    }

    /** Daemon::switchServer. */
    method SwitchServer(config: InterfaceConfig) returns (ok: bool, ghost outcome: SwitchOutcome, ghost reached: nat)
      requires Valid() && config.hop in connections
      modifies this`excluded, this`connections, this`announcements, os`exclusionRoutes, os`tunnelRoutes, os`peers
      ensures Valid() && (ok <==> outcome.Switched?)
      ensures announcements == if ok then old(announcements)[config.hop := 0] else old(announcements)
      ensures connections == if ok then old(connections)[config.hop := Connection(config, None)] else old(connections)
      ensures outcome.RolledBack? ==>
                Undone(os.routeDeletesSucceed, old(excluded), excluded, old(os.tunnelRoutes), os.tunnelRoutes,
                       old(connections)[config.hop].config, config, reached)
      ensures !outcome.RolledBack? ==>
                Moved(os.routeDeletesSucceed, old(excluded), excluded, old(os.tunnelRoutes), os.tunnelRoutes,
                      old(connections)[config.hop].config, config)
      ensures outcome.RolledBack? ==>
                PeersAfterRollback(os.peerUpdatesSucceed, old(os.peers), os.peers,
                                   old(connections)[config.hop].config, config)
      // The old peer is gone, unless it is the new one or its removal failed.
      ensures ok ==> os.peers == Replaced(old(os.peers), old(connections)[config.hop].config, config)
      ensures outcome.Stranded? ==>
                && !os.peerDeletesSucceed
                && old(connections)[config.hop].config.serverPublicKey != config.serverPublicKey
                && os.peers == old(os.peers)[config.serverPublicKey := config]
      ensures SwitchSound(os.routeDeletesSucceed, config.hop, old(excluded), old(connections), old(os.exclusionRoutes),
                          excluded, os.exclusionRoutes)
      ensures old(Sound()) && outcome.RolledBack? && os.routeDeletesSucceed ==> excluded == old(excluded)
    {
      ok, outcome, reached := ExchangeServer(config);
      if ok { Install(config); }
    }

    /** switchServer up to the new entry in m_connections. */
    method ExchangeServer(config: InterfaceConfig) returns (ok: bool, ghost outcome: SwitchOutcome, ghost reached: nat)
      requires Valid() && config.hop in connections
      modifies this`excluded, os`exclusionRoutes, os`tunnelRoutes, os`peers
      ensures Valid() && (ok <==> outcome.Switched?)
      ensures outcome.RolledBack? ==>
                Undone(os.routeDeletesSucceed, old(excluded), excluded, old(os.tunnelRoutes), os.tunnelRoutes,
                       connections[config.hop].config, config, reached)
      ensures !outcome.RolledBack? ==>
                Moved(os.routeDeletesSucceed, old(excluded), excluded, old(os.tunnelRoutes), os.tunnelRoutes,
                      connections[config.hop].config, config)
      ensures outcome.RolledBack? ==>
                PeersAfterRollback(os.peerUpdatesSucceed, old(os.peers), os.peers,
                                   connections[config.hop].config, config)
      ensures ok ==> os.peers == Replaced(old(os.peers), connections[config.hop].config, config)
      ensures outcome.Stranded? ==>
                && !os.peerDeletesSucceed && connections[config.hop].config.serverPublicKey != config.serverPublicKey
                && os.peers == old(os.peers)[config.serverPublicKey := config]
      ensures SwitchSound(os.routeDeletesSucceed, config.hop, old(excluded), connections, old(os.exclusionRoutes),
                          excluded, os.exclusionRoutes)
      ensures old(Sound()) && outcome.RolledBack? && os.routeDeletesSucceed ==> excluded == old(excluded)
    {
      hide Undone, Moved, PeersAfterRollback, Enough, AllPlain, Counted, SoundCounts, CoveredCounts, HostKeys;
      var last := connections[config.hop].config;
      ok, reached := Prepare(config, last);
      if !ok { return false, RolledBack, reached; }
      if old(Enough(excluded, connections)) {
        OldListCounted(old(excluded), excluded, connections, config.hop);
      }
      Retire(last, config, old(excluded), old(os.tunnelRoutes));
      if config.serverPublicKey != last.serverPublicKey {
        ok := os.DeletePeer(last);
        if !ok { return false, Stranded, reached; }
      }
      return true, Switched, reached;
    }

    /** The first part of switchServer: exclusion routes, peer and tunnel routes of the new server,
        all undone when one of them fails. */
    method Prepare(config: InterfaceConfig, last: InterfaceConfig) returns (ok: bool, ghost reached: nat)
      requires Valid()
      modifies this`excluded, os`exclusionRoutes, os`tunnelRoutes, os`peers
      ensures Valid() && (old(Sound()) ==> Sound()) && (old(Covered()) ==> Covered())
      ensures old(Sound() && Mirrored()) && os.routeDeletesSucceed ==> Mirrored()
      ensures old(Sound()) && !ok && os.routeDeletesSucceed ==> excluded == old(excluded)
      ensures ok ==>
                && os.tunnelRoutes == old(os.tunnelRoutes) + ToSet(config.allowed)
                && os.peers == old(os.peers)[config.serverPublicKey := config]
                && forall p :: Count(excluded, p) == Count(old(excluded), p) + multiset(TextKeys(config.excluded))[p]
      ensures !ok ==>
                && PeersAfterRollback(os.peerUpdatesSucceed, old(os.peers), os.peers, last, config)
                && Undone(os.routeDeletesSucceed, old(excluded), excluded, old(os.tunnelRoutes), os.tunnelRoutes,
                          last, config, reached)
    {
      hide AddEach, CoveredCounts, TextKeys;
      AddEachCount(excluded, TextKeys(config.excluded));
      ok := AddExclusionRoutes(config.excluded);
      reached := 0;
      if !ok { return; }
      ok := os.UpdatePeer(config);
      if ok { ok, reached := InstallRoutes(config.allowed, last); }
      if !ok {
        NoStrayText(config.excluded);
        DropRoutes(TextKeys(config.excluded));
        if old(Sound()) && os.routeDeletesSucceed { SameCounts(excluded, old(excluded)); }
      }
    }

    /** The second part: take down the routes that only the old server needed. */
    method Retire(last: InterfaceConfig, config: InterfaceConfig, ghost before: Counts, ghost routes: set<Prefix>)
      requires Valid()
      requires forall p :: Count(excluded, p) == Count(before, p) + multiset(TextKeys(config.excluded))[p]
      requires os.tunnelRoutes == routes + ToSet(config.allowed)
      modifies this`excluded, os`exclusionRoutes, os`tunnelRoutes
      ensures Valid() && Moved(os.routeDeletesSucceed, before, excluded, routes, os.tunnelRoutes, last, config)
      ensures var ks := HostKeys(last.excluded);
              old(Sound()) && (os.routeDeletesSucceed || (Counted(old(excluded), ks) && StrayKey !in ks)) ==> Sound()
      ensures old(Covered()) && (os.routeDeletesSucceed || Counted(old(excluded), HostKeys(last.excluded))) ==>
                Covered()
      ensures old(Sound() && Mirrored()) && os.routeDeletesSucceed ==> Mirrored()
    {
      DropRoutes(HostKeys(last.excluded));
      DropOldRoutes(last.allowed, config.allowed);
    }

    method DropOldRoutes(last: seq<Prefix>, next: seq<Prefix>)
      modifies os`tunnelRoutes
      ensures os.routeDeletesSucceed ==> os.tunnelRoutes == old(os.tunnelRoutes) - (ToSet(last) - ToSet(next))
      ensures old(os.tunnelRoutes) - (ToSet(last) - ToSet(next)) <= os.tunnelRoutes
    {
      for i := 0 to |last|
        invariant old(os.tunnelRoutes) - (ToSet(last[..i]) - ToSet(next)) <= os.tunnelRoutes
        invariant os.routeDeletesSucceed ==>
                    os.tunnelRoutes == old(os.tunnelRoutes) - (ToSet(last[..i]) - ToSet(next))
      {
        assert last[..i + 1] == last[..i] + [last[i]];
        if last[i] !in next {
          var _ := os.DeleteRoutePrefix(last[i]);
        }
      }
      assert last[..|last|] == last;
    }

    /** Daemon::deactivate. Either the Down hook refuses and nothing changes, or all is taken down;
        the interface may still refuse to go. */
    method Deactivate(emitSignals: bool) returns (ok: bool)
      requires Valid()
      modifies this`connections, this`excluded, this`disconnections, os
      ensures Valid() && (os.routeDeletesSucceed && old(Mirrored()) ==> Mirrored())
      ensures ok ==> connections == map[]
      ensures connections == map[] ==> excluded == map[]
      ensures connections != map[] ==>
                connections == old(connections) && excluded == old(excluded) && unchanged(os`tunnelRoutes)
      ensures connections != map[] ==> unchanged(os`exclusionRoutes, os`peers, os`resolvers, os`interfaceUp)
      ensures connections == map[] && os.routeDeletesSucceed ==>
                os.tunnelRoutes == old(os.tunnelRoutes) - AllRoutes(old(connections))
      ensures connections == map[] && os.peerDeletesSucceed ==> os.peers == old(os.peers) - PeerKeys(old(connections))
      ensures disconnections == old(disconnections) + if emitSignals && connections == map[] then 1 else 0
      ensures ok ==> !os.interfaceUp && (os.hooksSucceed ==> os.resolvers == None)
      ensures os.ran == old(os.ran) + if old(connections) != map[] then [DownHook] else []
    {
      if connections != map[] {
        ok := os.Run(DownHook);
        if !ok { return; }
      }
      if emitSignals { disconnections := disconnections + 1; }
      var _ := os.RestoreResolvers();
      TakeDownAll();
      ClearExclusions();
      connections := map[];
      ok := os.DeleteInterface();
    }

    /** Routes and peers of all hops. */
    method TakeDownAll()
      modifies os`tunnelRoutes, os`peers
      ensures os.routeDeletesSucceed ==> os.tunnelRoutes == old(os.tunnelRoutes) - AllRoutes(connections)
      ensures os.peerDeletesSucceed ==> os.peers == old(os.peers) - PeerKeys(connections)
    {
      TakeDown(SingleHop);
      TakeDown(MultiHopEntry);
      TakeDown(MultiHopExit);
      RoutesHopByHop(connections);
      PeersHopByHop(connections);
    }

    method TakeDown(h: Hop)
      modifies os`tunnelRoutes, os`peers
      ensures os.routeDeletesSucceed ==> os.tunnelRoutes == old(os.tunnelRoutes) - RoutesAt(connections, h)
      ensures os.peerDeletesSucceed ==> os.peers == old(os.peers) - PeerAt(connections, h)
    {
      if h in connections {
        DropOldRoutes(connections[h].config.allowed, []);
        var _ := os.DeletePeer(connections[h].config);
      }
    }

    /** Deletes every counted route and forgets all counts, also of routes that did not go. */
    method ClearExclusions()
      modifies this`excluded, os`exclusionRoutes
      ensures excluded == map[]
      ensures os.routeDeletesSucceed ==> os.exclusionRoutes == old(os.exclusionRoutes) - old(excluded).Keys
    {
      var pending := excluded.Keys;
      while pending != {}
        invariant excluded == old(excluded) && pending <= excluded.Keys
        invariant os.routeDeletesSucceed ==> os.exclusionRoutes == old(os.exclusionRoutes) - (excluded.Keys - pending)
      {
        var p :| p in pending;
        var _ := os.DeleteExclusionRoute(p);
        pending := pending - {p};
      }
      excluded := map[];
    }

    /** The hooks a successful activation runs. */
    function HooksFor(config: InterfaceConfig): seq<HookKind>
      reads this
    {
      if config.hop !in connections then [UpHook]
      else if SameInterface(config, connections[config.hop].config) then [SwitchHook]
      else [DownHook, UpHook]
    }

    /** The connections an activation adds to: none if it has to deactivate first. */
    function StartsFrom(config: InterfaceConfig): Connections
      reads this
    {
      if config.hop in connections && !SameInterface(config, connections[config.hop].config) then map[] else connections
    }

    /** Daemon::activate with its failure guard: it returns true if and only if the call emitted no
        activationFailure, and it recurses at most once. */
    method Activate(config: InterfaceConfig) returns (ok: bool)
      requires Valid()
      modifies this, os
      ensures Keeps(config)
      ensures ok <==> activationFailures == old(activationFailures)
      ensures !ok ==> old(activationFailures) < activationFailures
      ensures activationFailures <= old(activationFailures) + (if old(config.hop in connections) then 2 else 1)
      ensures ok ==> timerArmed && ToSet(config.allowed) <= os.tunnelRoutes && Peered(config)
      ensures ok ==> connections == old(StartsFrom(config))[config.hop := Connection(config, None)]
      ensures ok && old(config.hop !in connections) ==> Raised(config)
      ensures old(Matching(connections, broughtUp)) ==> Matching(connections, broughtUp)
      ensures ok ==> Resolved(config) && (old(Up()) ==> os.interfaceUp)
      ensures ok ==> os.ran == old(os.ran) + old(HooksFor(config))
      ensures leftover <= old(leftover) + (if ok then {} else ToSet(config.allowed))
      ensures announced == old(announced)
      decreases if config.hop in connections then 1 else 0, 2
    {
      ok := ActivateGuarded(config);
      if !ok { activationFailures := activationFailures + 1; }
    }

    method ActivateGuarded(config: InterfaceConfig) returns (ok: bool)
      requires Valid()
      modifies this, os
      ensures Keeps(config)
      ensures ok ==> activationFailures == old(activationFailures)
      ensures old(activationFailures) <= activationFailures
      ensures activationFailures <= old(activationFailures) + (if old(config.hop in connections) then 1 else 0)
      ensures ok ==> timerArmed && ToSet(config.allowed) <= os.tunnelRoutes && Peered(config)
      ensures ok ==> connections == old(StartsFrom(config))[config.hop := Connection(config, None)]
      ensures ok && old(config.hop !in connections) ==> Raised(config)
      ensures old(Matching(connections, broughtUp)) ==> Matching(connections, broughtUp)
      ensures ok ==> Resolved(config) && (old(Up()) ==> os.interfaceUp)
      ensures ok ==> os.ran == old(os.ran) + old(HooksFor(config))
      ensures leftover <= old(leftover) + (if ok then {} else ToSet(config.allowed))
      ensures announced == old(announced)
      decreases if config.hop in connections then 1 else 0, 1
    {
      hide AccountsKept, RoutesKept, PeersKept, AddEach, Filed, OldOrNew, OncePerDate, NonNegative, Pending;
      if config.hop !in connections {
        ghost var reached;
        ok, reached := ActivateFresh(config);
      } else if SupportsSwitching(config) {
        ghost var switched;
        ok, switched := ActivateBySwitch(config);
      } else {
        ok := Restart(config);
      }
    }

    /** The VPN is on and the platform cannot switch servers. */
    method Restart(config: InterfaceConfig) returns (ok: bool)
      requires Valid() && config.hop in connections
      modifies this, os
      ensures Keeps(config)
      ensures ok ==> activationFailures == old(activationFailures)
      ensures old(activationFailures) <= activationFailures <= old(activationFailures) + 1
      ensures ok ==> timerArmed && ToSet(config.allowed) <= os.tunnelRoutes && Peered(config)
      ensures ok ==> connections == map[config.hop := Connection(config, None)]
      ensures old(Matching(connections, broughtUp)) ==> Matching(connections, broughtUp)
      ensures ok ==> Resolved(config) && os.interfaceUp && os.ran == old(os.ran) + [DownHook, UpHook]
      ensures leftover <= old(leftover) + (if ok then {} else ToSet(config.allowed))
      ensures announced == old(announced)
      decreases if config.hop in connections then 1 else 0, 0
    {
      hide AccountsKept, RoutesKept, PeersKept, AddEach;
      ok := Deactivate(false);
      ghost var stopped, routes, tunnel, peers := connections == map[], os.exclusionRoutes, os.tunnelRoutes, os.peers;
      if ok {
        assert config.hop !in connections;
        ok := Activate(config);
      }
      if stopped {
        AfterDeactivation(os.routeDeletesSucceed, os.peerDeletesSucceed, config, old(excluded), old(connections),
                          old(os.exclusionRoutes), routes, excluded, connections, os.exclusionRoutes);
        TunnelAfterDeactivation(os.routeDeletesSucceed, os.peerDeletesSucceed, config, old(connections),
                                old(os.tunnelRoutes), old(leftover), tunnel, connections, os.tunnelRoutes, leftover);
        PeersAfterDeactivation(os.peerUpdatesSucceed, config, old(connections), old(os.peers), peers,
                               connections, os.peers);
      } else {
        UnchangedKeeps(os.routeDeletesSucceed, os.peerDeletesSucceed, config, excluded, connections,
                       os.exclusionRoutes, os.tunnelRoutes, leftover);
        SamePeersKept(os.peerUpdatesSucceed, config, connections, os.peers);
      }
    }

    /** The VPN is on and the platform can switch servers. When a resolver or the Switch hook fails
        after the exchange, the new connection is on file and is polled for only if the timer
        happened to run. */
    method ActivateBySwitch(config: InterfaceConfig) returns (ok: bool, ghost switched: bool)
      requires Valid() && config.hop in connections
      modifies this`connections, this`excluded, this`timerArmed, this`announcements, os
      ensures Keeps(config) && os.interfaceUp == old(os.interfaceUp)
      ensures ok ==> Resolved(config) && os.ran == old(os.ran) + [SwitchHook]
      ensures ok ==> switched && timerArmed && ToSet(config.allowed) <= os.tunnelRoutes && Peered(config)
      ensures connections
                == if switched then old(connections)[config.hop := Connection(config, None)] else old(connections)
      ensures !ok && switched ==> (Polled() <==> old(timerArmed))
    {
      hide AccountsKept, RoutesKept, PeersKept, Filed, OldOrNew, OncePerDate;
      ok := SwitchAccounted(config);
      switched := ok;
      if !ok { return; }
      assert PendingAt(connections, config.hop);
      ok := FollowSwitch(config);
      if ok {
        ghost var installed, recorded := connections, announcements;
        Install(config);
        assert connections == installed && announcements == recorded;
        timerArmed := true;
      }
    }

    /** Resolvers and the Switch hook. */
    method FollowSwitch(config: InterfaceConfig) returns (ok: bool)
      modifies os`resolvers, os`ran
      ensures os.hooksSucceed ==> ok
      ensures ok ==> os.resolvers == if config.hop.MultiHopEntry? then None else Some(config)
      ensures ok ==> os.ran == old(os.ran) + [SwitchHook]
    {
      ok := os.RestoreResolvers();
      if !ok { return; }
      ok := MaybeUpdateResolvers(config);
      if !ok { return; }
      ok := os.Run(SwitchHook);
    }

    /** Only the hop that leads out, or the only one, sets resolvers; its own are set. */
    ghost predicate Resolved(config: InterfaceConfig)
      reads os
    {
      config.hop != MultiHopEntry ==> os.resolvers == Some(config)
    }

    /** A server switch keeps the accounts. */
    method SwitchAccounted(config: InterfaceConfig) returns (ok: bool)
      requires Valid() && config.hop in connections
      modifies this`excluded, this`connections, this`announcements, os`exclusionRoutes, os`tunnelRoutes, os`peers
      ensures KeepsState(config)
      ensures connections == if ok then old(connections)[config.hop := Connection(config, None)] else old(connections)
      ensures announcements == if ok then old(announcements)[config.hop := 0] else old(announcements)
      ensures ok ==> ToSet(config.allowed) <= os.tunnelRoutes && Peered(config)
    {
      hide SwitchSound, AccountsKept, RoutesKept, PeersKept, Undone, Moved, PeersAfterRollback, Replaced;
      ghost var outcome, reached;
      ok, outcome, reached := SwitchServer(config);
      if ok {
        assert Peered(config) by { ReplacedHasNew(old(os.peers), old(connections)[config.hop].config, config); }
        MovedHasRoutes(os.routeDeletesSucceed, old(excluded), excluded, old(os.tunnelRoutes), os.tunnelRoutes,
                       old(connections)[config.hop].config, config);
      }
      SwitchPeers(os.peerUpdatesSucceed, old(connections), config, old(os.peers), os.peers, outcome);
      SwitchRoutes(os.routeDeletesSucceed, os.peerDeletesSucceed, old(excluded), excluded, old(connections), config,
                   old(os.tunnelRoutes), os.tunnelRoutes, leftover, outcome, reached);
      SwitchAccounts(os.routeDeletesSucceed, os.peerDeletesSucceed, old(excluded), excluded, old(connections), config,
                     old(os.exclusionRoutes), os.exclusionRoutes, old(os.tunnelRoutes), os.tunnelRoutes,
                     outcome, reached);
    }

    method MaybeUpdateResolvers(config: InterfaceConfig) returns (ok: bool)
      modifies os`resolvers
      ensures os.hooksSucceed || config.hop.MultiHopEntry? ==> ok
      ensures os.resolvers == if ok && !config.hop.MultiHopEntry? then Some(config) else old(os.resolvers)
    {
      ok := true;
      if config.hop.MultiHopExit? || config.hop.SingleHop? { ok := os.UpdateResolvers(config); }
    }

    /** The VPN is off for this hop. */
    method ActivateFresh(config: InterfaceConfig) returns (ok: bool, ghost reached: nat)
      requires Valid() && config.hop !in connections
      modifies this`connections, this`excluded, this`timerArmed, this`announcements, this`leftover, this`broughtUp, os
      ensures Keeps(config)
      ensures broughtUp == if ok then old(broughtUp)[config.hop := config] else old(broughtUp)
      ensures ok ==> os.interfaceUp && Resolved(config) && os.ran == old(os.ran) + [UpHook]
      ensures ok ==> timerArmed && connections == old(connections)[config.hop := Connection(config, None)]
      ensures ok ==> Raised(config) && os.peers == old(os.peers)[config.serverPublicKey := config]
      ensures !ok ==> connections == old(connections) && timerArmed == old(timerArmed)
      ensures reached <= |config.allowed|
      ensures leftover == if ok then old(leftover) else old(leftover) + ToSet(config.allowed[..reached])
      // A failed activation keeps the tunnel routes exact if and only if all it had set were there.
      ensures !ok && old(os.tunnelRoutes == AllRoutes(connections)) ==>
                var exact := os.tunnelRoutes == AllRoutes(connections);
                exact <==> ToSet(config.allowed[..reached]) <= AllRoutes(connections)
    {
      hide SoundCounts, CoveredCounts, AccountsKept, RoutesKept, PeersKept, AddEach, TextKeys, NonNegative;
      ok, reached := BringUpKept(config);
      if ok {
        Install(config);
        broughtUp := broughtUp[config.hop := config];
        timerArmed := true;
      }
    }

    /** Bringing up a new hop keeps the accounts, the routes and the peers of the connections to be. */
    method BringUpKept(config: InterfaceConfig) returns (ok: bool, ghost reached: nat)
      requires Valid() && config.hop !in connections
      modifies this`excluded, this`leftover, os
      ensures Valid()
      ensures var cs := if ok then connections[config.hop := Connection(config, None)] else connections;
              && AccountsKept(os.routeDeletesSucceed, os.peerDeletesSucceed, config, old(excluded), connections,
                              old(os.exclusionRoutes), excluded, cs, os.exclusionRoutes)
              && RoutesKept(os.routeDeletesSucceed, os.peerDeletesSucceed, config,
                            connections, old(os.tunnelRoutes), old(leftover), cs, os.tunnelRoutes, leftover)
              && PeersKept(os.peerUpdatesSucceed, config, connections, old(os.peers), cs, os.peers)
      ensures ok ==> Raised(config) && os.peers == old(os.peers)[config.serverPublicKey := config]
      ensures ok ==> os.interfaceUp && Resolved(config) && os.ran == old(os.ran) + [UpHook]
      ensures old(os.interfaceUp) ==> os.interfaceUp
      ensures reached <= |config.allowed|
      ensures leftover == if ok then old(leftover) else old(leftover) + ToSet(config.allowed[..reached])
      ensures os.tunnelRoutes == old(os.tunnelRoutes) + ToSet(config.allowed[..reached])
    {
      hide SoundCounts, CoveredCounts, AccountsKept, RoutesKept, PeersKept, AddEach, TextKeys, NonNegative, Filed;
      ok, reached := BringUp(config);
      assert ok ==> config.allowed[..reached] == config.allowed;
      ActivationRoutes(os.routeDeletesSucceed, os.peerDeletesSucceed, connections, config, old(os.tunnelRoutes),
                       os.tunnelRoutes, leftover, config.allowed[..reached], ok);
      ActivationAccounts(os.routeDeletesSucceed, os.peerDeletesSucceed, old(excluded), excluded, connections, config,
                         old(os.exclusionRoutes), os.exclusionRoutes, ok);
      ActivationPeers(os.peerUpdatesSucceed, connections, config, old(os.peers), os.peers, ok);
      if !ok { leftover := leftover + ToSet(config.allowed[..reached]); }
    }

    /** The system's part of an activation. Whatever fails after the exclusion routes were added, the
        guard takes them back; tunnel routes already set stay. */
    method BringUp(config: InterfaceConfig) returns (ok: bool, ghost reached: nat)
      requires Valid()
      modifies this`excluded, os
      ensures Valid() && (old(Sound()) ==> Sound()) && (old(Covered()) ==> Covered())
      ensures old(Sound() && Mirrored()) && os.routeDeletesSucceed ==> Mirrored()
      ensures ok ==> Raised(config)
      ensures ok ==> forall p :: Count(excluded, p) == Count(old(excluded), p) + multiset(TextKeys(config.excluded))[p]
      ensures !ok ==> forall p :: Count(old(excluded), p) <= Count(excluded, p)
      ensures old(Sound()) && !ok && os.routeDeletesSucceed ==> excluded == old(excluded)
      ensures reached <= |config.allowed| && (ok ==> reached == |config.allowed|)
      ensures os.tunnelRoutes == old(os.tunnelRoutes) + ToSet(config.allowed[..reached])
      ensures os.peers == old(os.peers) || os.peers == old(os.peers)[config.serverPublicKey := config]
      ensures ok ==>
                ToSet(config.allowed) <= os.tunnelRoutes && os.peers == old(os.peers)[config.serverPublicKey := config]
      ensures ok ==> os.interfaceUp && Resolved(config) && os.ran == old(os.ran) + [UpHook]
      ensures old(os.interfaceUp) ==> os.interfaceUp
    {
      hide AddEach, CoveredCounts, TextKeys;
      reached := 0;
      assert ToSet(config.allowed[..reached]) == {};
      ok := RaiseInterface();
      if !ok { return; }
      AddEachCount(excluded, TextKeys(config.excluded));
      ok := AddExclusionRoutes(config.excluded);
      if !ok { return; }
      ok, reached := Connect(config);
      assert reached == |config.allowed| ==> config.allowed[..reached] == config.allowed;
      if !ok {
        NoStrayText(config.excluded);
        DropRoutes(TextKeys(config.excluded));
        if old(Sound()) && os.routeDeletesSucceed { SameCounts(excluded, old(excluded)); }
      }
    }

    /** The interface with its addresses and MTU. */
    method RaiseInterface() returns (ok: bool)
      modifies os`interfaceUp
      ensures os.interfaceUp || (!ok && !old(os.interfaceUp))
    {
      if !os.interfaceUp {
        ok := os.AddInterface();
        if !ok { return; }
      }
      ok := os.Attempt();
    }

    /** Peer, resolvers, tunnel routes and the Up hook. */
    method Connect(config: InterfaceConfig) returns (ok: bool, ghost reached: nat)
      modifies os`peers, os`tunnelRoutes, os`resolvers, os`ran
      ensures ok ==> Resolved(config) && os.ran == old(os.ran) + [UpHook]
      ensures reached <= |config.allowed| && (ok ==> reached == |config.allowed|)
      ensures os.tunnelRoutes == old(os.tunnelRoutes) + ToSet(config.allowed[..reached])
      ensures os.peers == old(os.peers) || os.peers == old(os.peers)[config.serverPublicKey := config]
      ensures ok ==> os.peers == old(os.peers)[config.serverPublicKey := config]
    {
      reached := 0;
      ok := os.UpdatePeer(config);
      if !ok { return; }
      ok := MaybeUpdateResolvers(config);
      if !ok { return; }
      for i := 0 to |config.allowed|
        invariant reached == i && Resolved(config) && os.ran == old(os.ran)
        invariant os.peers == old(os.peers)[config.serverPublicKey := config]
        invariant os.tunnelRoutes == old(os.tunnelRoutes) + ToSet(config.allowed[..i])
      {
        assert config.allowed[..i + 1] == config.allowed[..i] + [config.allowed[i]];
        ok := os.UpdateRoutePrefix(config.allowed[i]);
        if !ok { return; }
        reached := i + 1;
      }
      assert config.allowed[..|config.allowed|] == config.allowed;
      ok := os.Run(UpHook);
    }

    /** The inner loop of checkHandshake for one hop. */
    method Poll(h: Hop, statuses: seq<PeerStatus>)
      modifies this`connections, this`announcements, this`announced
      ensures connections == SettledAt(old(connections), h, statuses)
      ensures old(AnnouncedOnce()) && DistinctPeers(statuses) ==> AnnouncedOnce()
      ensures announced == old(announced) + Announces(old(connections), h, statuses)
    {
      if h !in connections { return; }
      if connections[h].date.Some? {
        assert connections == connections[h := connections[h]];
        return;
      }
      var c := connections[h];
      var n, date := Scan(c.config.serverPublicKey, statuses);
      if DistinctPeers(statuses) { AtMostOneHit(statuses, c.config.serverPublicKey); }
      if h in announcements { announcements := announcements[h := announcements[h] + n]; }
      connections := connections[h := c.(date := date)];
    }

    /** Every completed handshake reported for a server is announced; the last one dates it. */
    method Scan(key: string, statuses: seq<PeerStatus>) returns (n: nat, date: Option<int>)
      modifies this`announced
      ensures n == |Hits(statuses, key)|
      ensures date == if n == 0 then None else Some(Hits(statuses, key)[n - 1])
      ensures announced == old(announced) + seq(n, _ => key)
    {
      n, date := 0, None;
      for i := 0 to |statuses|
        invariant n == |Hits(statuses[..i], key)|
        invariant date == if n == 0 then None else Some(Hits(statuses[..i], key)[n - 1])
        invariant announced == old(announced) + seq(n, _ => key)
      {
        assert statuses[..i + 1][..i] == statuses[..i];
        if statuses[i].pubkey == key && statuses[i].handshake != 0 {
          date := Some(statuses[i].handshake);
          announced := announced + [key];
          assert seq(n, _ => key) + [key] == seq(n + 1, _ => key);
          n := n + 1;
        }
      }
      assert statuses[..|statuses|] == statuses;
    }

    /** Daemon::checkHandshake: it settles every connection whose peer has answered, announces it,
        and keeps polling exactly while one is left. */
    method CheckHandshake(statuses: seq<PeerStatus>)
      modifies this`connections, this`announcements, this`announced, this`timerArmed
      ensures connections == map h | h in old(connections) :: Settled(old(connections)[h], statuses)
      ensures timerArmed <==> Pending(connections)
      ensures announced == old(announced) + (Announces(old(connections), SingleHop, statuses) +
                Announces(old(connections), MultiHopEntry, statuses) +
                Announces(old(connections), MultiHopExit, statuses))
      ensures old(AnnouncedOnce()) && DistinctPeers(statuses) ==> AnnouncedOnce()
    {
      AnnouncesHopByHop(connections, statuses);
      hide Announces;
      hide Settled, SettledAt, Pending, DistinctPeers;
      Poll(SingleHop, statuses);
      Poll(MultiHopEntry, statuses);
      Poll(MultiHopExit, statuses);
      SettledHopByHop(old(connections), statuses);
      PendingHopByHop(connections);
      timerArmed := PendingAt(connections, SingleHop) || PendingAt(connections, MultiHopEntry) ||
                    PendingAt(connections, MultiHopExit);
    }

    /** Any run: commands from the socket and timer events in any order, over a system whose adds may
        fail anywhere. `zones` are disjoint sets of prefixes, one per hop, and `owner` tells the one hop
        that uses a server. */
    method Serve(events: seq<Event>, ghost zones: map<Hop, set<Prefix>>, ghost owner: map<string, Hop>)
      returns (oks: seq<bool>)
      requires Valid()
      modifies this, os
      ensures Valid() && |oks| == |events|
      // When every call succeeds, the connections are what the commands asked for.
      ensures false !in oks ==> ConfigsOf(connections) == AllAsked(old(ConfigsOf(connections)), events)
      // With route deletions succeeding, counted routes and routes in the system are the same.
      ensures old(Sound()) && os.routeDeletesSucceed ==> Sound()
      ensures old(Sound() && Mirrored()) && os.routeDeletesSucceed ==> Mirrored()
      // With peer deletions succeeding, no count falls below what the connections ask for.
      ensures old(Healthy()) && os.peerDeletesSucceed ==> Healthy()
      ensures old(Sound() && Healthy() && PlainLists(connections)) && os.peerDeletesSucceed && PlainEvents(events) ==>
                Sound()
      ensures old(Sound() && Healthy() && Tight()) && DeletesSucceed() && PlainEvents(events) ==> Tight()
      ensures old(InZones(zones)) && os.peerDeletesSucceed && ZonedEvents(zones, events) ==> InZones(zones)
      ensures old(NoStrayRoutes()) && DeletesSucceed() ==> NoStrayRoutes()
      ensures old(InZones(zones) && NoStrayRoutes()) && DeletesSucceed() && ZonedEvents(zones, events) ==>
                (leftover <= AllRoutes(connections) ==> os.tunnelRoutes == AllRoutes(connections))
      ensures old(Polled()) && os.hooksSucceed ==> Polled()
      ensures old(AnnouncedOnce()) && DistinctEvents(events) ==> AnnouncedOnce()
      // The system's peers are those of the connections, the interface is up while there is one, and its
      // key, addresses and gateways are never those of another configuration.
      ensures old(InHands(owner)) && os.peerUpdatesSucceed && OwnedEvents(owner, events) ==> InHands(owner)
      ensures (old(Up()) ==> Up()) && (old(Matching(connections, broughtUp)) ==> Matching(connections, broughtUp))
    {
      hide SoundCounts, CoveredCounts, HealthyCounts, TightCounts, PlainLists, OncePerDate, Matching, Pending, Filed;
      hide AllPlain, Zoned, Owned, AllPeered, DistinctPeers, OwnedBy, InZone, ConfigsOf, Asked;
      oks := [];
      ghost var sound := old(Sound()) && os.routeDeletesSucceed;
      ghost var healthy := old(Healthy()) && os.peerDeletesSucceed;
      ghost var plain := healthy && old(Sound() && PlainLists(connections)) && PlainEvents(events);
      ghost var tight := healthy && old(Sound() && Tight()) && os.routeDeletesSucceed && PlainEvents(events);
      for i := 0 to |events|
        invariant |oks| == i
        invariant false !in oks ==> ConfigsOf(connections) == AllAsked(old(ConfigsOf(connections)), events[..i])
        invariant Valid() && (sound ==> Sound()) && (sound && old(Mirrored()) ==> Mirrored()) && (healthy ==> Healthy())
        invariant (plain ==> Sound() && PlainLists(connections)) && (tight ==> Tight())
        invariant old(InZones(zones)) && os.peerDeletesSucceed && ZonedEvents(zones, events) ==> InZones(zones)
        invariant old(NoStrayRoutes()) && DeletesSucceed() ==> NoStrayRoutes()
        invariant old(Polled()) && os.hooksSucceed ==> Polled()
        invariant old(AnnouncedOnce()) && DistinctEvents(events) ==> AnnouncedOnce()
        invariant old(InHands(owner)) && os.peerUpdatesSucceed && OwnedEvents(owner, events) ==> InHands(owner)
        invariant (old(Up()) ==> Up()) && (old(Matching(connections, broughtUp)) ==> Matching(connections, broughtUp))
      {
        assert events[i] in events;
        assert events[..i + 1][..i] == events[..i];
        var ok := ServeOne(events[i], zones, owner);
        oks := oks + [ok];
      }
      assert events[..|events|] == events;
    }

    /** One event: what it keeps of every invariant. */
    method ServeOne(event: Event, ghost zones: map<Hop, set<Prefix>>, ghost owner: map<string, Hop>) returns (ok: bool)
      requires Valid()
      modifies this, os
      ensures ok ==> ConfigsOf(connections) == Asked(old(ConfigsOf(connections)), event)
      ensures Valid() && (old(Sound()) && os.routeDeletesSucceed ==> Sound())
      ensures old(Sound() && Mirrored()) && os.routeDeletesSucceed ==> Mirrored()
      ensures old(Healthy()) && os.peerDeletesSucceed ==> Healthy()
      ensures old(Sound() && Healthy() && PlainLists(connections)) && PlainEvents([event]) ==>
                Sound() && PlainLists(connections)
      ensures old(Sound() && Tight()) && DeletesSucceed() && PlainEvents([event]) ==> Tight()
      ensures old(InZones(zones)) && os.peerDeletesSucceed && ZonedEvents(zones, [event]) ==> InZones(zones)
      ensures old(NoStrayRoutes()) && DeletesSucceed() ==> NoStrayRoutes()
      ensures old(Polled()) && os.hooksSucceed ==> Polled()
      ensures old(AnnouncedOnce()) && DistinctEvents([event]) ==> AnnouncedOnce()
      ensures old(InHands(owner)) && os.peerUpdatesSucceed && OwnedEvents(owner, [event]) ==> InHands(owner)
      ensures (old(Up()) ==> Up()) && (old(Matching(connections, broughtUp)) ==> Matching(connections, broughtUp))
    {
      hide SoundCounts, CoveredCounts, TightCounts, PlainLists, OncePerDate, Matching, Pending, Filed, Enough, AllPlain;
      hide Zoned, Owned, AllPeered, DistinctPeers, OwnedBy, InZone, Confined, ConfigsOf, Asked;
      assert event in [event];
      match event
      case ActivateCommand(config) =>
        ok := ServeActivate(config, zones, owner);
      case DeactivateCommand =>
        ok := ServeDeactivate(zones, owner);
      case HandshakeTimeout(statuses) =>
        ServeTimeout(statuses, zones, owner);
        ok := true;
    }

    /** Routed, with every connection in its zone. */
    ghost predicate InZones(zones: map<Hop, set<Prefix>>)
      reads this, os
    {
      Zoned(zones, connections) && Routed(connections, os.tunnelRoutes)
    }

    /** Every connection's peer is the configured one, at a server no other hop uses. */
    ghost predicate InHands(owner: map<string, Hop>)
      reads this, os
    {
      Owned(owner, connections) && AllPeered(connections, os.peers)
    }

    method ServeActivate(config: InterfaceConfig, ghost zones: map<Hop, set<Prefix>>, ghost owner: map<string, Hop>)
      returns (ok: bool)
      requires Valid()
      modifies this, os
      ensures ok ==> ConfigsOf(connections) == Asked(old(ConfigsOf(connections)), ActivateCommand(config))
      ensures Valid() && KeepsAccounts(config)
      ensures old(PlainLists(connections)) && AllPlain(config.excluded) ==> PlainLists(connections)
      ensures old(Matching(connections, broughtUp)) ==> Matching(connections, broughtUp)
      ensures (old(AnnouncedOnce()) ==> AnnouncedOnce()) && (os.hooksSucceed && old(Polled()) ==> Polled())
      ensures (old(Up()) ==> Up()) && (old(NoStrayRoutes()) && DeletesSucceed() ==> NoStrayRoutes())
      ensures old(InHands(owner)) && os.peerUpdatesSucceed && OwnedBy(owner, config, config.hop) ==> InHands(owner)
      ensures old(InZones(zones)) && os.peerDeletesSucceed && InZone(zones, config) ==> InZones(zones)
    {
      hide Routed, Apart, KeysApart, AllPeered, AllPlain, AccountsKept, Matching, Confined;
      hide OncePerDate, OwnedBy, InZone, ConfigsOf, Asked, SameInterface;
      if Zoned(zones, connections) && InZone(zones, config) { ZonedApart(zones, connections, config); }
      if Owned(owner, connections) && OwnedBy(owner, config, config.hop) { OwnedApart(owner, connections, config); }
      ok := Activate(config);
      if ok { ActivatedAsAsked(old(connections), connections, config); }
      OldOrNewKeeps(old(connections), connections, config, zones, owner);
    }

    method ServeDeactivate(ghost zones: map<Hop, set<Prefix>>, ghost owner: map<string, Hop>) returns (ok: bool)
      requires Valid()
      modifies this`connections, this`excluded, this`disconnections, os
      ensures Valid() && (old(Sound()) ==> Sound()) && (old(Healthy()) ==> Healthy())
      ensures os.routeDeletesSucceed ==> (old(Mirrored()) ==> Mirrored()) && (old(Tight()) ==> Tight())
      ensures os.routeDeletesSucceed ==> (old(NoStrayRoutes()) ==> NoStrayRoutes())
      ensures old(PlainLists(connections)) ==> PlainLists(connections)
      ensures ok ==> ConfigsOf(connections) == Asked(old(ConfigsOf(connections)), DeactivateCommand)
      // Once all is down the accounts are in order, whatever they were before.
      ensures connections == map[] ==> Sound() && Healthy() && (os.routeDeletesSucceed && old(Mirrored()) ==> Tight())
      ensures (old(Polled()) ==> Polled()) && (old(AnnouncedOnce()) ==> AnnouncedOnce())
      ensures (old(InZones(zones)) ==> InZones(zones)) && (old(InHands(owner)) ==> InHands(owner))
      ensures (old(Up()) ==> Up()) && (old(Matching(connections, broughtUp)) ==> Matching(connections, broughtUp))
    {
      NothingOwed();
      NoConfigs();
      hide Total, Enough, Exact, ConfigsOf, SameInterface, InZone, PeerIs;
      ok := Deactivate(true);
    }

    /** The timer is single-shot: it is no longer armed when it fires. */
    method ServeTimeout(statuses: seq<PeerStatus>, ghost zones: map<Hop, set<Prefix>>, ghost owner: map<string, Hop>)
      requires Valid()
      modifies this`connections, this`announcements, this`announced, this`timerArmed
      ensures connections == if old(timerArmed)
                             then map h | h in old(connections) :: Settled(old(connections)[h], statuses)
                             else old(connections)
      ensures timerArmed <==> old(timerArmed) && Pending(connections)
      ensures ConfigsOf(connections) == Asked(old(ConfigsOf(connections)), HandshakeTimeout(statuses))
      ensures Valid() && (old(Healthy()) ==> Healthy()) && (old(Tight()) ==> Tight()) && (old(Polled()) ==> Polled())
      ensures (old(Sound()) ==> Sound()) && (old(Mirrored()) ==> Mirrored())
      ensures old(NoStrayRoutes()) ==> NoStrayRoutes()
      ensures old(PlainLists(connections)) ==> PlainLists(connections)
      ensures DistinctPeers(statuses) && old(AnnouncedOnce()) ==> AnnouncedOnce()
      ensures (old(InZones(zones)) ==> InZones(zones)) && (old(InHands(owner)) ==> InHands(owner))
      ensures (old(Up()) ==> Up()) && (old(Matching(connections, broughtUp)) ==> Matching(connections, broughtUp))
    {
      hide Total, Settled, Enough, Exact, SoundCounts, CoveredCounts, PlainLists, AllRoutes, Filed;
      hide Zoned, Owned, AllPeered, Matching, ConfigsOf;
      if timerArmed {
        timerArmed := false;
        CheckHandshake(statuses);
        SameConfigs(old(connections), connections);
        SameConfigsSameRoutes(old(connections), connections);
        SameConfigsSameTotal(old(connections), connections);
        SameTotalKeeps(old(connections), connections, excluded);
        SameConfigsKeep(old(connections), connections, os.peers, zones, owner, broughtUp);
      }
    }
  }
}
