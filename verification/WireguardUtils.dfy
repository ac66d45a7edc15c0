/** The operating system below the daemon (client/daemon/wireguardutils.h and the resolver and
    run hooks of client/daemon/daemon.h). Every operation may fail; a failed one changes nothing. */
module WireguardUtils {
  import opened Wrappers
  import opened Addresses

  datatype Hop = SingleHop | MultiHopEntry | MultiHopExit

  datatype InterfaceConfig = InterfaceConfig(
    hop: Hop,
    privateKey: string,
    deviceIpv4: string, deviceIpv6: string,
    gatewayIpv4: string, gatewayIpv6: string,
    serverPublicKey: string,
    allowed: seq<Prefix>,
    excluded: seq<AddressText>)

  /** The platform's run hooks. */
  datatype HookKind = UpHook | DownHook | SwitchHook

  datatype PeerStatus = PeerStatus(pubkey: string, handshake: int)

  function ToSet<T>(s: seq<T>): set<T> {
    set x | x in s
  }

  class System {
    /** Hypotheses on the system: which calls never fail. */
    const routeDeletesSucceed: bool
    const peerDeletesSucceed: bool
    const peerUpdatesSucceed: bool
    const hooksSucceed: bool

    var interfaceUp: bool
    var tunnelRoutes: set<Prefix>
    var exclusionRoutes: set<Prefix>
    var peers: map<string, InterfaceConfig>

    /** The configuration whose resolvers are set, if any, and the hooks run so far. */
    var resolvers: Option<InterfaceConfig>
    var ran: seq<HookKind>

    constructor (routeDeletesSucceed: bool, peerDeletesSucceed: bool, peerUpdatesSucceed: bool, hooksSucceed: bool)
      ensures this.routeDeletesSucceed == routeDeletesSucceed && this.peerDeletesSucceed == peerDeletesSucceed
      ensures this.peerUpdatesSucceed == peerUpdatesSucceed && this.hooksSucceed == hooksSucceed
      ensures !interfaceUp && tunnelRoutes == {} && exclusionRoutes == {} && peers == map[]
      ensures resolvers == None && ran == []
    {
      this.routeDeletesSucceed := routeDeletesSucceed;
      this.peerDeletesSucceed := peerDeletesSucceed;
      this.peerUpdatesSucceed := peerUpdatesSucceed;
      this.hooksSucceed := hooksSucceed;
      interfaceUp, tunnelRoutes, exclusionRoutes, peers := false, {}, {}, map[];
      resolvers, ran := None, [];
    }

    method AddInterface() returns (ok: bool)
      modifies this`interfaceUp
      ensures interfaceUp == (ok || old(interfaceUp))
    {
      ok := *;
      interfaceUp := ok || interfaceUp;
    }

    method DeleteInterface() returns (ok: bool)
      modifies this`interfaceUp
      ensures interfaceUp == (!ok && old(interfaceUp))
    {
      ok := *;
      interfaceUp := !ok && interfaceUp;
    }

    method UpdatePeer(config: InterfaceConfig) returns (ok: bool)
      modifies this`peers
      ensures peers == if ok then old(peers)[config.serverPublicKey := config] else old(peers)
      ensures peerUpdatesSucceed ==> ok
    {
      ok := *;
      ok := ok || peerUpdatesSucceed;
      if ok { peers := peers[config.serverPublicKey := config]; }
    }

    method DeletePeer(config: InterfaceConfig) returns (ok: bool)
      modifies this`peers
      ensures peers == if ok then old(peers) - {config.serverPublicKey} else old(peers)
      ensures peerDeletesSucceed ==> ok
    {
      ok := *;
      ok := ok || peerDeletesSucceed;
      if ok { peers := peers - {config.serverPublicKey}; }
    }

    method UpdateRoutePrefix(p: Prefix) returns (ok: bool)
      modifies this`tunnelRoutes
      ensures tunnelRoutes == if ok then old(tunnelRoutes) + {p} else old(tunnelRoutes)
    {
      ok := *;
      if ok { tunnelRoutes := tunnelRoutes + {p}; }
    }

    method DeleteRoutePrefix(p: Prefix) returns (ok: bool)
      modifies this`tunnelRoutes
      ensures tunnelRoutes == if ok then old(tunnelRoutes) - {p} else old(tunnelRoutes)
      ensures routeDeletesSucceed ==> ok
    {
      ok := *;
      ok := ok || routeDeletesSucceed;
      if ok { tunnelRoutes := tunnelRoutes - {p}; }
    }

    method AddExclusionRoute(p: Prefix) returns (ok: bool)
      modifies this`exclusionRoutes
      ensures exclusionRoutes == if ok then old(exclusionRoutes) + {p} else old(exclusionRoutes)
    {
      ok := *;
      if ok { exclusionRoutes := exclusionRoutes + {p}; }
    }

    method DeleteExclusionRoute(p: Prefix) returns (ok: bool)
      modifies this`exclusionRoutes
      ensures exclusionRoutes == if ok then old(exclusionRoutes) - {p} else old(exclusionRoutes)
      ensures routeDeletesSucceed ==> ok
    {
      ok := *;
      ok := ok || routeDeletesSucceed;
      if ok { exclusionRoutes := exclusionRoutes - {p}; }
    }

    method UpdateResolvers(config: InterfaceConfig) returns (ok: bool)
      modifies this`resolvers
      ensures resolvers == if ok then Some(config) else old(resolvers)
      ensures hooksSucceed ==> ok
    {
      ok := *;
      ok := ok || hooksSucceed;
      if ok { resolvers := Some(config); }
    }

    method RestoreResolvers() returns (ok: bool)
      modifies this`resolvers
      ensures resolvers == if ok then None else old(resolvers)
      ensures hooksSucceed ==> ok
    {
      ok := *;
      ok := ok || hooksSucceed;
      if ok { resolvers := None; }
    }

    /** The Up, Down and Switch hooks. Only the last one has to be relied upon: a failing Up or Down hook
        ends the operation. */
    method Run(hook: HookKind) returns (ok: bool)
      modifies this`ran
      ensures ran == old(ran) + [hook]
      ensures hooksSucceed && hook.SwitchHook? ==> ok
    {
      ran := ran + [hook];
      ok := *;
      ok := ok || (hooksSucceed && hook.SwitchHook?);
    }

    /** A call whose failure only ends the operation: interface addresses and MTU. */
    method Attempt() returns (ok: bool)
    {
      ok := *;
    }

    /** The default batch add: all routes or, when deletes succeed, none of them. Routes outside
        the batch are never touched, wherever the batch fails and whichever rollback fails. */
    method AddExclusionRoutes(prefixes: seq<Prefix>) returns (ok: bool)
      modifies this`exclusionRoutes
      ensures ok ==> exclusionRoutes == old(exclusionRoutes) + ToSet(prefixes)
      ensures old(exclusionRoutes) - ToSet(prefixes) <= exclusionRoutes <= old(exclusionRoutes) + ToSet(prefixes)
      ensures !ok && routeDeletesSucceed && old(exclusionRoutes) !! ToSet(prefixes) ==>
                exclusionRoutes == old(exclusionRoutes)
    {
      var added: seq<Prefix> := [];
      for i := 0 to |prefixes|
        invariant added == prefixes[..i]
        invariant exclusionRoutes == old(exclusionRoutes) + ToSet(added)
      {
        var done := AddExclusionRoute(prefixes[i]);
        if !done {
          for j := 0 to |added|
            invariant old(exclusionRoutes) - ToSet(added) <= exclusionRoutes <= old(exclusionRoutes) + ToSet(added)
            invariant routeDeletesSucceed ==> exclusionRoutes == old(exclusionRoutes) + ToSet(added) - ToSet(added[..j])
          {
            var _ := DeleteExclusionRoute(added[j]);
            assert added[..j + 1] == added[..j] + [added[j]];
          }
          assert added[..|added|] == added;
          return false;
        }
        assert prefixes[..i + 1] == prefixes[..i] + [prefixes[i]];
        added := added + [prefixes[i]];
      }
      assert prefixes[..|prefixes|] == prefixes;
      return true;
    }
  }
}
