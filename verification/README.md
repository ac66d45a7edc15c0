# Tunnel core: a verified model

A Dafny model of the parts of the TunnelCore VPN client that keep state, roll back, count, frame and
route: the daemon that brings tunnels up and switches servers, the address arithmetic below it, the
line protocol and the controller in front of it, the settings cache, the ping window, the kill switch,
the argument filter and the configuration printer.

`dafny verify dfyconfig.toml` checks everything.

| file | models |
|---|---|
| `Addresses.dfy`, `Cidr.dfy`, `CidrLists.dfy` | hosts, prefixes, the two ways the daemon turns text into a key, and the subtraction of address ranges, one by one and in lists |
| `SplitTunnel.dfy` | split-tunnel settings compiled into prefixes, and their meaning under longest-prefix match |
| `Accounting.dfy`, `Ledger.dfy`, `Handshakes.dfy` | the daemon's reference counts, connections and polls, on values |
| `WireguardUtils.dfy`, `Daemon.dfy` | the operating system with calls that may fail, and the daemon as a class over it |
| `SplitTunnelActivation.dfy` | settings, compilation, sort and activation taken together |
| `Checksum.dfy` | the Internet checksum against section 2 of RFC 1071 |
| `Text.dfy`, `Framing.dfy`, `Controller.dfy` | Qt's text functions, both read loops of the line protocol, the client's connection state |
| `Settings.dfy` | the encrypted settings with their cache, migration, backup and restore |
| `Ping.dfy` | the ring of 32 pings and its statistics |
| `KillSwitch.dfy` | the kill switch over the Linux firewall's anchors and tables, and the packets these let out |
| `Arguments.dfy` | the argument filter of the privileged service |
| `WgConf.dfy`, `WgConfRoundTrip.dfy`, `WgConfFields.dfy` | the WireGuard configuration printer, the line parser, and what the one makes of the other |

## How to read it

- The operating system is `WireguardUtils.System`: every call may fail, at any time, and a failed call
  changes nothing. Four constants say which calls never fail (`routeDeletesSucceed`,
  `peerDeletesSucceed`, `peerUpdatesSucceed`, `hooksSucceed`); a result that needs one of them says so.
- The daemon's methods demand only `Valid()` (no negative count, every connection filed under its
  hop), which every run keeps. All other invariants are promised where they held before the call.
- The code is modelled as a release build runs it: a `Q_ASSERT` does nothing, and `QHash::operator[]`
  on a missing key inserts 0.
- Hash iteration order is arbitrary; so is the order in which the model picks keys.
- The system remembers whose resolvers are set, whether the interface is up and which hooks were run; what
  a hook does is not modelled. Timers are armed or not armed. The clock, the peer list and the bytes a
  socket yields are parameters.
- Where the code does not have a property in full, the model keeps the code and the property is stated
  as an if-and-only-if with the condition under which it holds, and a lemma gives an input at which it
  fails.

## What the code does not promise, and when it does

- A server switch adds exclusion routes under `IPAddress(text)` and removes the old ones under
  `QHostAddress(text)` (client/daemon/daemon.cpp:238, :625). The counts stay exact if and only if every
  address of the replaced list is a plain host; a subnet stays counted until the next deactivation.
- Removing a key that is not counted leaves a stored count of 0 if and only if the system refuses the
  deletion (client/daemon/daemon.cpp:260-271). Replacing a list with a subnet is such an input. As long as
  old peers can be removed, only the key of no address at all is left over that way, and every route asked
  for stays counted and in the system; a 0 at the key of an address would hide its route from the next add.
- If the old peer cannot be removed, the switch returns false with the counts already moved and the old
  configuration on file (client/daemon/daemon.cpp:634-641). The counts are then exact if and only if, for
  every route, as much was removed of the old list as was added for the new one. Between plain lists that
  is: if and only if both ask for the same routes. A subnet replaced by itself is counted twice.
- A switch is a transaction on tunnel routes if and only if no other hop uses a prefix it gives up, and it
  keeps every connection's peer if and only if no other hop uses either server.
- A failed activation keeps the tunnel routes exact if and only if all routes it had set were there before
  (client/daemon/daemon.cpp:158-176).
- After a completed exchange, a failing resolver or hook leaves a connection that is polled for only if
  the timer was running already (client/daemon/daemon.cpp:82-98).
- Excluding a subnet ends if and only if it can be got from the outer prefix by setting bits between the
  two lengths. From a source without host bits that is: if and only if the subnet has none either. A source
  with host bits has other dead ends, and where the descent ends it leaves the right addresses if and only
  if no bit of the source is set between the two lengths.
- In mode 2 a site of length 0 ties with the default route. In mode 1 a bare IPv6 site is compiled to
  length 32 and takes in all that shares its first 32 bits.
- The checksum's 32-bit accumulator is safe for every content if and only if the length is at most 65537.
- A setting reads back if and only if it is encrypted or is no byte array that starts with the magic
  prefix. The cache goes stale at a key if and only if such a value is written there or the key is cached
  and a group above it is removed.
- A ping reply numbered 0 is accepted before any ping was sent; the first ping overwrites what it left.
- In strict mode traffic is blocked after a run of calls if and only if the last call that had a say in it
  is not an accepted enable with a split type other than 0 or 2.
- A newline at the end of an entry changes no verdict of the address check: `$` matches before it and
  `toInt` ignores it.
- A printed configuration gives its ranges back if and only if no line behind the first of a printed value,
  and no added entry, is taken for other ranges. It gives the keepalive interval back if and only if none is
  taken for another interval and the interval is trimmed and in one line.

## Model

| member | source | states |
|---|---|---|
| Addresses.KeysAgreeOnlyOnPlainHosts | client/mozilla/shared/ipaddress.cpp:13-58 | the two keys of an address text agree if and only if it is a plain host; a mismatched key never equals any key a route was added under |
| Cidr.HalvesSplit | client/mozilla/shared/ipaddress.cpp:201-233 | the two subnets of a normalized prefix are normalized, disjoint, and together cover exactly that prefix |
| Cidr.CarveEndsIff | client/mozilla/shared/ipaddress.cpp:258-284 | for any two prefixes, excluding the one from the other ends if and only if it lies inside, is longer, and agrees with the outer one in every bit but those between the two lengths that the outer one leaves clear |
| Cidr.CarveEndsIffNormalized | client/mozilla/shared/ipaddress.cpp:258-284 | from a prefix without host bits: if and only if the excluded subnet has none either |
| Cidr.CarveDeadEnd | client/mozilla/shared/ipaddress.cpp:263-273 | excluding 10.0.0.5/8 from 10.0.0.0/8 is a dead end |
| Cidr.SourceBitDeadEnd | client/mozilla/shared/ipaddress.cpp:263-273 | so is excluding 10.0.0.0/10 from 10.64.0.0/8, with no host bit in the excluded prefix |
| Cidr.CarveMeaning | client/mozilla/shared/ipaddress.cpp:258-284 | the pieces cover exactly the prefix without the excluded subnet, are pairwise disjoint and normalized, and number one per level |
| Cidr.CarveCoversIff | client/mozilla/shared/ipaddress.cpp:201-284 | for any outer prefix, if the descent ends its pieces cover exactly the outer prefix without the excluded one if and only if no bit of the outer one is set between the two lengths |
| Cidr.SourceBitKeepsExcluded | client/mozilla/shared/ipaddress.cpp:201-284 | 10.64.0.0/8 without 10.64.0.0/10 keeps the excluded range |
| Cidr.ExcludeOne | client/mozilla/shared/ipaddress.cpp:258-284 | the descending loop computes that carving, or finds the dead end |
| CidrLists.RemainderEnds | client/mozilla/shared/ipaddress.cpp:243-251 | one step of the list form fails exactly where excluding does, for any ranges |
| CidrLists.RemainderMeaning | client/mozilla/shared/ipaddress.cpp:243-251 | for any range: what is left covers exactly its addresses outside the excluded one if and only if no bit of it is set ahead of the excluded length; otherwise the excluded range is still there |
| CidrLists.NormalizedYields | client/mozilla/shared/ipaddress.cpp:243-251 | a range without host bits: the step fails exactly when the excluded one lies inside with host bits, and is always right |
| CidrLists.ExcludeFromEachMeaning | client/mozilla/shared/ipaddress.cpp:242-251 | one turn over any list: when it ends, and that its pieces are right if and only if each step is |
| CidrLists.ExcludeEachMeaning | client/mozilla/shared/ipaddress.cpp:236-256 | any sources and any excluded ranges: the list form ends if and only if every turn does, and its pieces are right after every turn if and only if every turn is straight |
| CidrLists.HeldThroughAll | client/mozilla/shared/ipaddress.cpp:236-256 | from sources without host bits, a range lies in one piece that is left if and only if it lay in one source and overlaps nothing excluded |
| CidrLists.ExcludeFromNormalized | client/mozilla/shared/ipaddress.cpp:236-256 | sources without host bits, on the inputs alone: the list form ends if and only if every excluded range with host bits lies in no source or overlaps one excluded before, and then the result covers an address if and only if a source does and no excluded range does |
| CidrLists.ExcludeAll | client/mozilla/shared/ipaddress.cpp:236-256 | the two loops compute that for all lists, or find the dead end |
| SplitTunnel.CompileAllowed | client/mozilla/localsocketcontroller.cpp:176-236 | the loops build the allowed ranges: a custom AllowedIPs list wins, otherwise the mode decides |
| SplitTunnel.CompileExcluded | client/mozilla/localsocketcontroller.cpp:238-247 | the excluded list is the server, followed by the sites in mode 2 |
| SplitTunnel.ExceptSitesTunnelled | client/mozilla/localsocketcontroller.cpp:199-247 | mode 2 under longest-prefix match, any sites and any IPv4 or IPv6 address: a route always exists; every longest one leads into the tunnel if nothing lists the address, none if an exclusion of positive length does, and both kinds are there if only one of length 0 does |
| SplitTunnel.EverythingExcludedTies | client/mozilla/localsocketcontroller.cpp:199-247 | with the site 0.0.0.0/0 every IPv4 address but the server's is tied |
| SplitTunnel.OnlySitesTunnelled | client/mozilla/localsocketcontroller.cpp:216-247 | mode 1, any sites: apart from the server, an address has a route if and only if a site lists it or a bare IPv6 site shares its first 32 bits, and it leads into the tunnel |
| SplitTunnel.BareIpv6SiteWidens | client/mozilla/localsocketcontroller.cpp:227-233 | the site 2001:db8::1 takes in 2001:db8::2 |
| SplitTunnel.CoveredOnly | client/mozilla/localsocketcontroller.cpp:181-198 | for any list of the configuration's own, an address that no exclusion lists has a route if and only if the list covers it, and it leads into the tunnel |
| SplitTunnel.LongestDecides | client/mozilla/localsocketcontroller.cpp:176-247 | any ranges, any exclusions and any address: a route into the tunnel may be picked if and only if a matching range is at least as long as all matching ranges and exclusions, a bypass if and only if a listing exclusion is |
| SplitTunnel.HostBypassesIff | client/mozilla/localsocketcontroller.cpp:238-247 | every route picked for an excluded host, the server for one, bypasses the tunnel if and only if no range of full length covers it |
| SplitTunnel.ListedServerMayTunnel | client/mozilla/localsocketcontroller.cpp:181-247 | a server that the configuration's own list holds with full length may be routed into the tunnel |
| SplitTunnel.ModesAreComplementary | client/mozilla/localsocketcontroller.cpp:199-247 | with the same sites an address other than the server's is tunnelled in exactly one of modes 1 and 2 if and only if it is neither tied nor taken in by a widened site |
| SplitTunnel.SortRanges | client/daemon/daemon.cpp:414-419 | the result is a permutation sorted by decreasing prefix length |
| SplitTunnel.FirstMatchIsLongest | client/daemon/daemon.cpp:414-419 | on any such order the first match is a longest match of the original list, and every longest match covers the same addresses |
| SplitTunnelActivation.TableMeaning | client/mozilla/localsocketcontroller.cpp:176-247 | the meaning of every compiled table for all addresses at once, listed by an exclusion or not: an AllowedIPs list other than 0.0.0.0/0, ::/0 decides by itself, otherwise the mode does; any server, mode and sites |
| SplitTunnelActivation.DefaultListInModeOne | client/mozilla/localsocketcontroller.cpp:178-234 | with the list 0.0.0.0/0, ::/0, mode 1 and the site 10.0.0.0/8 the address 8.8.8.8 has no route |
| SplitTunnelActivation.ActivateOnClean | client/daemon/daemon.cpp:57-178 | on a clean system a successful activation leaves exactly the routes of its configuration |
| SplitTunnelActivation.ActivateSettings | client/mozilla/localsocketcontroller.cpp:125-265 | any settings activated on a clean system: once the daemon reports success, the system's two route sets are exactly the compiled table, so its meaning holds of the system itself |
| Accounting.DeleteUndoesAdd | client/daemon/daemon.cpp:143-147 | deleting an added list, in any order, restores the counts exactly and never meets a missing key |
| Accounting.BatchIsFold | client/daemon/daemon.cpp:223-258 | merging requested counts equals adding the list one by one |
| Accounting.PositiveAfterDeletionIff | client/daemon/daemon.cpp:260-271 | a deletion keeps all stored counts positive if and only if the key was counted or the system agreed |
| Accounting.RefusedRemovalLeavesZero | client/daemon/daemon.cpp:260-271 | any subnet removed by host, with the system refusing, leaves a stored 0 |
| WireguardUtils.System.AddExclusionRoutes | client/daemon/wireguardutils.h:48-60 | all routes or, when deletes succeed, none; whichever add or rollback fails, routes outside the batch are untouched |
| Accounting.ZeroHidesRoute | client/daemon/daemon.cpp:235-271 | after a refused deletion of an uncounted address, adding it counts it without asking the system for its route |
| Ledger.HostKeysRemoveLess | client/daemon/daemon.cpp:623-626 | removal by host key never takes away more of a route than the list had added |
| Ledger.MixedListLeaks | client/daemon/daemon.cpp:623-626 | an address that is not a plain host loses strictly less than it added |
| Ledger.ExchangeKeepsEnough | client/daemon/daemon.cpp:587-626 | counts that cover all hops still do after a switch, even when deletions fail and lists are mixed |
| Ledger.SwitchExactIffPlain | client/daemon/daemon.cpp:587-640 | with deletions succeeding a completed switch keeps the counts exact if and only if the old list is made of plain hosts |
| Ledger.SubnetLeaks | client/daemon/daemon.cpp:624-626 | replacing any excluded subnet by nothing leaves it counted |
| Ledger.StrandedExactIffBalanced | client/daemon/daemon.cpp:633-641 | when removing the old peer fails, for any lists: the counts are exact if and only if as much was removed of every route as was added, and sufficient if and only if no more was |
| Ledger.StrandedPlain | client/daemon/daemon.cpp:633-641 | for plain old lists: exact if and only if both lists are equal as bags, sufficient if and only if the new one contains the old |
| Ledger.SubnetStranded | client/daemon/daemon.cpp:633-641 | any subnet replaced by itself is then counted twice |
| Ledger.HostStranded | client/daemon/daemon.cpp:633-641 | a concrete host whose route is gone while its connection stays on file |
| Ledger.SwitchRoutesExact | client/daemon/daemon.cpp:606-631 | success leaves exactly the tunnel routes of the new connections if and only if no other hop uses a dropped prefix, for lists with duplicates and overlap |
| Ledger.RollbackRoutesExact | client/daemon/daemon.cpp:605-618 | failure at any position restores exactly the old routes if and only if no other hop uses a route taken back |
| Ledger.SharedRouteDropped | client/daemon/daemon.cpp:627-631 | two hops with one prefix: when the exit gives it up, the entry's route is gone |
| Ledger.SharedRouteRolledBack | client/daemon/daemon.cpp:605-618 | the same when the exit takes the prefix over and fails at its next route |
| Ledger.RouteLeftBehind | client/daemon/daemon.cpp:158-176 | an activation that failed once it had set a route leaves it behind |
| Ledger.SwitchRouted | client/daemon/daemon.cpp:599-640 | when hops share no tunnel route, every connection's routes are in the system after a completed switch and after one undone at any position, even when deletions fail |
| Ledger.SwitchPeeredIff | client/daemon/daemon.cpp:600-640 | a completed switch keeps every connection's peer the configured one if and only if no other hop uses the old or the new server |
| Ledger.SharedServerDropped | client/daemon/daemon.cpp:633-637 | two hops on one server: when the exit leaves it, the entry's peer is gone |
| Ledger.SwitchPeers | client/daemon/daemon.cpp:578-642 | however a switch ends, connections keep their peers, if servers are not shared and a rollback can restore the peer it has overwritten |
| Ledger.GrownKeepsRouted | client/daemon/daemon.cpp:159-173 | an activation that only adds routes keeps every connection routed |
| Ledger.ZonedApart | client/daemon/daemon.cpp:599-631 | disjoint sets of prefixes per hop rule out sharing |
| Ledger.SwitchConfined | client/daemon/daemon.cpp:599-640 | with deletions succeeding a switch, completed or undone, leaves no tunnel route that belongs to no connection |
| Ledger.ActivationConfined | client/daemon/daemon.cpp:158-176 | the routes an activation set belong to its connection if it succeeds and are all that it leaves behind if it fails |
| Ledger.ActivationAccounts | client/daemon/daemon.cpp:135-177 | an activation, succeeded or undone, keeps the counts sound, sufficient, exact and equal to the routes in the system, each under its own hypotheses |
| Ledger.SwitchAccounts | client/daemon/daemon.cpp:578-642 | so does a switch, however it ends |
| Ledger.InstallKeeps | client/daemon/daemon.cpp:135-173 | installing a new hop keeps counts sufficient and exact |
| Handshakes.AtMostOneHit | client/daemon/daemon.cpp:690-698 | with distinct peer keys a poll announces a connection at most once |
| Daemon.Daemon.AddExclusionRoutes | client/daemon/daemon.cpp:235-258 | on success the counts are those of adding address by address; on failure they are unchanged; counted routes stay in the system either way |
| Daemon.Daemon.DelExclusionRoute | client/daemon/daemon.cpp:260-271 | the new counts in every case; counts stay positive and counted routes in the system if and only if the key was counted or the system agreed |
| Daemon.Daemon.DropRoutes | client/daemon/daemon.cpp:143-147 | the deletion loops lower every count by its occurrences, or by fewer where deletions fail, and keep counted routes in the system if the list was counted or deletions succeed |
| Daemon.Daemon.InstallRoutes | client/daemon/daemon.cpp:605-620 | all new tunnel routes, or the rollback of exactly those reached that the old server did not have, with the old peer restored unless that update fails |
| Daemon.Daemon.SwitchServer | client/daemon/daemon.cpp:578-642 | new state of counts, routes, peers and connections for each of the three ways it can end; after a rollback the old peer is there again if peer updates succeed |
| Handshakes.NewConnectionWaits | client/daemon/daemon.cpp:82-98 | whatever was on file, a connection just switched to waits for its handshake, so that without the timer nobody polls for it |
| Daemon.Daemon.ActivateBySwitch | client/daemon/daemon.cpp:74-99 | the invariants it keeps, whose resolvers are set, that the Switch hook was run, and that after a failing hook the new connection is polled if and only if the timer ran before |
| Daemon.Daemon.Restart | client/daemon/daemon.cpp:101-112 | when the interface does not match, all is taken down first: success leaves this connection alone, after the Down and the Up hook |
| Daemon.Daemon.BringUp | client/daemon/daemon.cpp:114-177 | counts raised by the list on success, restored by the guard on failure; exactly the tunnel routes reached are added |
| Daemon.Daemon.ActivateFresh | client/daemon/daemon.cpp:114-177 | on success exactly the configuration's routes, counts and peer are added, the interface is up, the resolvers are set, the connection installed and the timer armed; on failure connections and timer stay, and the tunnel routes are still exact if and only if all that were set were there |
| Daemon.Daemon.Activate | client/daemon/daemon.cpp:57-112 | recursion ends after one step; true if and only if no activationFailure was emitted; at most two are; on success the other hops stay if and only if private key, device addresses and gateways agree with the connection it replaces, and exactly the hooks of that case were run; all invariants kept |
| Daemon.Daemon.Deactivate | client/daemon/daemon.cpp:516-556 | either nothing changes but that the Down hook was run, or connections and counts are empty and exactly the routes and peers of the connections are gone; on success the interface is too |
| Daemon.Daemon.Poll | client/daemon/daemon.cpp:682-703 | one hop is settled and announced by the handshakes reported for its key |
| Daemon.Daemon.CheckHandshake | client/daemon/daemon.cpp:675-709 | every answered connection is dated and announced, and the timer runs on if and only if one is left |
| Daemon.Daemon.Serve | client/daemon/daemonlocalserverconnection.cpp:106-124 | over every run of activations, deactivations and timer events with any adds failing: if every call succeeds, the connections are those the commands asked for; if route deletions succeed, counted routes are exactly those in the system, stranded switches and subnets included; if peer deletions succeed, counts never fall below what the connections ask for and what is counted is in the system, whatever route deletions fail; if both succeed and lists are plain, counts are exact, and no tunnel route is in the system but those of connections and of failed activations; every connection's tunnel routes are there if hops share none; undated connections are polled for; each connection is announced at most once; the interface is up while there is a connection, and its key, addresses and gateways are those its hop was last brought up with; every connection's peer is the configured one if hops share no server and peer updates succeed |
| Daemon.Daemon.ServeDeactivate | client/daemon/daemon.cpp:516-556 | once all is down the accounts are in order, whatever was lost before |
| Checksum.TwoFolds | client/mozilla/pingsender.cpp:43-46 | two folds of any accumulator below 2^31 give its end-around-carry residue |
| Checksum.OnesSumIsResidue | client/mozilla/pingsender.cpp:31-45 | the word-by-word end-around-carry sum equals the residue of the plain sum |
| Checksum.InetChecksum | client/mozilla/pingsender.cpp:13-48 | the loop never leaves the 32-bit range and returns the complement of the RFC 1071 sum, odd lengths included |
| Checksum.AccumulatorFitsIff | client/mozilla/pingsender.cpp:22-34 | the accumulator fits for every content of a length if and only if the length is at most 65537 |
| Checksum.SplitCombines | client/mozilla/pingsender.cpp:31-45 | sums over an even split combine by one's complement addition |
| Checksum.StoredChecksumVerifies | client/mozilla/pingsender.cpp:31-47 | storing the checksum in a zeroed aligned field makes the checksum of the whole 0 |
| Checksum.ByteOrderIndependent | client/mozilla/pingsender.cpp:31-41 | swapping the bytes of the little-endian sum gives the big-endian sum, tail byte included |
| Framing.CommandsConcat | client/mozilla/localsocketcontroller.cpp:333-359 | framing a stream in two parts: the tail of the first starts the second |
| Framing.ClientReader.ReadData | client/mozilla/localsocketcontroller.cpp:333-359 | the loop delivers the trimmed non-empty lines in order and keeps the tail; it terminates |
| Framing.ClientReader.Feed | client/mozilla/localsocketcontroller.cpp:333-359 | the outcome depends on the bytes only, not on their division into reads |
| Framing.ServerReader.ReadData | client/daemon/daemonlocalserverconnection.cpp:48-76 | the daemon's loop does the same over all reads up to the first empty one |
| Framing.ServerReader.Feed | client/daemon/daemonlocalserverconnection.cpp:48-76 | over any number of events the outcome depends on the bytes only |
| Framing.BothSidesAgree | client/daemon/daemonlocalserverconnection.cpp:48-76 | both sides deliver the same commands from the same bytes, however divided into events and reads on either |
| Framing.RoundTripIff | client/mozilla/localsocketcontroller.cpp:518-523 | written messages come back unchanged if and only if each is non-empty, holds no byte 10 and has none of the bytes 9, 11, 12, 13, 32 at either end |
| Controller.Controller.ErrorOccurred | client/mozilla/localsocketcontroller.cpp:65-89 | a retry is started while fewer than ten were; it gives up exactly after the tenth |
| Controller.Controller.GetBackendLogs | client/mozilla/localsocketcontroller.cpp:294-314 | the new callback is pending if and only if the daemon is ready; an older one, and the new one otherwise, is given the empty text |
| Controller.Controller.CleanupBackendLogs | client/mozilla/localsocketcontroller.cpp:316-331 | no callback is pending afterwards; a pending one was given the empty text |
| Controller.Controller.ParseCommand | client/mozilla/localsocketcontroller.cpp:378-513 | state, signals and retries after any command; logs, and nothing else, answer the pending callback, with their text and newlines for bars |
| Controller.FailuresBorne | client/mozilla/localsocketcontroller.cpp:65-104 | ten failures in a row are borne after an initialisation, whatever went before; one more error leaves the controller ready |
| Controller.Controller.Serve | client/mozilla/localsocketcontroller.cpp:65-104 | over every run the connection is that of the reference machine, at most ten retry timers start between resets, and each callback offered was invoked exactly once or is the pending one |
| Settings.DecodesToItselfIff | client/secureQSettings.cpp:59-77 | a stored value is read as itself if and only if it does not start with the magic prefix |
| Settings.ReadsBack | client/secureQSettings.cpp:45-113 | a written value reads back if and only if its key is encrypted or it is no byte array with the magic prefix; a write dropped for want of the key pair, if and only if the value was there; no other key is affected |
| Settings.MagicReadsDifferently | client/secureQSettings.cpp:59-77 | the byte array that is the magic prefix does not read back |
| Settings.ReplyIff | client/secureQSettings.cpp:45-55 | a read is answered as without cache if and only if its key is fresh, or is gone and the default is the cached value |
| Settings.FreshIff | client/secureQSettings.cpp:45-121 | exactly when a key is fresh after an operation, from any state of cache and store |
| Settings.RestoreReadsBackup | client/secureQSettings.cpp:129-182 | restoring a backup makes each backed-up key read as its JSON image and leaves all others alone, and without the key pair also the encrypted ones |
| Settings.GroupRemovalGoesStale | client/secureQSettings.cpp:115-121 | a concrete stale entry after removing a group |
| Settings.SecureSettings.Get | client/secureQSettings.cpp:45-87 | cache and answer from any state; with a coherent cache the answer is that of a store without cache |
| Settings.SecureSettings.Set | client/secureQSettings.cpp:89-113 | the new state, with the list of servers and the access token sealed behind the magic prefix, or not written for want of the key pair; a coherent cache stays so if and only if the key is encrypted or the value has no magic prefix |
| Settings.SecureSettings.Remove | client/secureQSettings.cpp:115-121 | exactly the key and what is filed under it leave the store, everything for the empty key, and a coherent cache stays so if and only if no other cached key lies in the group |
| Settings.SecureSettings.Run | client/secureQSettings.cpp:45-121 | over any run at all the store is that of a class without cache, and each read is answered as that class would if and only if its key is fresh at that point; all are if every operation is transparent |
| Settings.SecureSettings.constructor | client/secureQSettings.cpp:26-43 | the store after start-up; the migration changes no value but the flag; all listed keys end encrypted if and only if the key pair was there or they already were |
| Settings.MigratedInTheClear | client/secureQSettings.cpp:33-42 | without the key pair the flag is set over a list of servers in the clear |
| Settings.SecureSettings.Backup | client/secureQSettings.cpp:129-163 | the JSON images of exactly the keys under Conf/ and Servers/ but the installation id |
| Settings.ClearedReadsDefault | client/secureQSettings.cpp:184-189 | once cleared, every read yields the caller's default |
| Settings.SecureSettings.Restore | client/secureQSettings.cpp:165-182 | the store after restoring, with the cache coherent |
| Ping.WindowUnique | client/mozilla/pinghelper.cpp:89-98 | within the window a 16-bit number identifies its ping across any number of wraps |
| Ping.SlotMatchesIff | client/mozilla/pinghelper.cpp:101-103 | the slot matches if and only if one of the last 32 pings had that number, except for number 0 before any ping |
| Ping.RingStatistics | client/mozilla/pinghelper.cpp:116-192 | statistics over the ring are statistics over the last 32 pings |
| Ping.MeanIsNearest | client/mozilla/pinghelper.cpp:132-134 | the average is the integer nearest to the true mean, the larger of two |
| Ping.MeanIsBetween | client/mozilla/pinghelper.cpp:116-135 | it lies between the smallest and largest answered latency |
| Ping.DeviationIsRoot | client/mozilla/pinghelper.cpp:154 | the deviation is the integer part of the root of the mean of the squared distances |
| Ping.DistanceCounts | client/mozilla/pinghelper.cpp:142-148 | no answered reading's squared distance from the average exceeds the sum |
| Ping.StatisticsOfOne | client/mozilla/pinghelper.cpp:116-192 | what one reading contributes to each statistic |
| Ping.StatisticsConcat | client/mozilla/pinghelper.cpp:116-192 | the statistics of readings add up |
| Ping.LostCountsOverdue | client/mozilla/pinghelper.cpp:179-188 | the loss counts exactly the unanswered pings sent more than a second ago |
| Ping.DeviationWithinSpread | client/mozilla/pinghelper.cpp:137-155 | the deviation never exceeds their difference |
| Ping.StdDevWithinSpread | client/mozilla/pinghelper.cpp:137-155 | neither does the reported one, after both conversions to uint, if no answer took 2^32 ms |
| Ping.ReplyNeverRaisesLoss | client/mozilla/pinghelper.cpp:172-192 | recording a reply at a fixed time never raises the loss |
| Ping.PingHelper.Start | client/mozilla/pinghelper.cpp:62-68 | from any state the window forgets all pings |
| Ping.PingHelper.NextPing | client/mozilla/pinghelper.cpp:84-99 | the window refines the history with one more ping; the first one overwrites an early answer |
| Ping.PingHelper.PingReceived | client/mozilla/pinghelper.cpp:101-114 | a reply is accepted if and only if a recent ping had its number, or it is numbered 0 before any ping; it is charged to that ping; unless the clock went back it never raises the loss |
| Ping.PingHelper.Latency | client/mozilla/pinghelper.cpp:116-135 | the integer nearest to the mean of the answered ones of the last 32 pings, as uint; 0 if there is none; between the smallest and largest answered latency below 2^32 |
| Ping.PingHelper.StdDev | client/mozilla/pinghelper.cpp:137-155 | the root of the mean squared distance from the average over the last 32 pings, rounded down and as uint; at most the spread of latencies below 2^32 |
| Ping.PingHelper.Loss | client/mozilla/pinghelper.cpp:172-192 | the number of overdue pings among the last 32, over 32 |
| Ping.PingHelper.Maximum | client/mozilla/pinghelper.cpp:157-170 | the largest answered latency below the top of the unsigned range |
| KillSwitch.ValidIsInert | service/server/killswitch.cpp:16-32 | an accepted entry holds only digits, dots and a slash, up to one final newline; nothing else at all if and only if it does not end in one |
| KillSwitch.NewlineAccepted | service/server/killswitch.cpp:16-32 | a newline after an entry changes no verdict |
| KillSwitch.QuadWithNewline | service/server/killswitch.cpp:16-32 | a dotted quad with a newline is accepted if and only if no octet exceeds 255 |
| KillSwitch.QuadValidIff | service/server/killswitch.cpp:16-32 | a dotted quad is accepted if and only if no octet exceeds 255 |
| KillSwitch.NumbersValidIff | service/server/killswitch.cpp:16-32 | four numbers of any size, written out with dots, are accepted if and only if none exceeds 255 |
| KillSwitch.CidrValidIff | service/server/killswitch.cpp:16-32 | with a length, if and only if that does not exceed 32 either |
| KillSwitch.ExtendedMeaning | service/server/killswitch.cpp:215-227 | adding ranges appends exactly the missing ones, without repeats |
| KillSwitch.KillSwitch.Refresh | service/server/killswitch.cpp:70-88 | strict mode on blocks all traffic, off removes the rules |
| KillSwitch.KillSwitch.DisableKillSwitch | service/server/killswitch.cpp:100-158 | in strict mode over installed rules exactly three anchors stay on and nothing but loopback goes out any more, otherwise the rules go and everything does |
| KillSwitch.KillSwitch.DisableAllTraffic | service/server/killswitch.cpp:160-185 | the rules are installed, exactly which anchors are on, and all traffic is blocked: nothing goes out that did not before, but loopback, and over fresh rules nothing else at all |
| KillSwitch.BlockingLeaves | client/platforms/linux/daemon/linuxfirewall.cpp:212-265 | while all traffic is blocked, a packet that goes out is loopback, local, marked, through the tunnel, or on its way to an allowed network |
| KillSwitch.KillSwitch.ResetAllowedRange | service/server/killswitch.cpp:187-213 | accepted if and only if all ranges are valid; a rejected call changes nothing |
| KillSwitch.KillSwitch.AddAllowedRange | service/server/killswitch.cpp:215-227 | likewise, with the extended list, which is then the allow table |
| KillSwitch.UsableExactly | service/server/killswitch.cpp:330-337 | of the user's resolvers exactly the valid ones ahead of the first entry that is not text count |
| KillSwitch.TablesMean | service/server/killswitch.cpp:339-356 | what each table holds, by split type |
| KillSwitch.AcceptableMeans | service/server/killswitch.cpp:325-362 | which addresses a call has to have in order to be accepted |
| KillSwitch.EnabledFilters | client/platforms/linux/daemon/linuxfirewall.cpp:212-265 | which packets go out under the rules of a configuration, for every packet: loopback; IPv4 DNS to the resolvers through the tunnel; the local network; IPv4 through the tunnel or marked; and around the tunnel what the split type lets |
| KillSwitch.KillSwitch.EnableKillSwitch | service/server/killswitch.cpp:308-398 | accepted if and only if all addresses are valid; a rejected call changes nothing; an accepted one lets the VPN server and in split type 2 the sites around the tunnel, cuts the sites off in split type 1, and filters every packet accordingly; traffic is blocked if and only if the split type is 0 or 2 |
| KillSwitch.SplitTypeOneOpens | service/server/killswitch.cpp:345-351 | an accepted enable that ends the blocking |
| KillSwitch.KillSwitch.Serve | service/server/killswitch.cpp:57-398 | over every run only checked entries reach the tables, and strict mode blocks at the end if and only if the last call that had a say was not an accepted enable with a split type other than 0 or 2 |
| Arguments.SanitizeArguments | ipc/ipc.h:57-112 | the loop keeps what the recursive reading keeps |
| Arguments.OutputIsAccepted | ipc/ipc.h:84-111 | the output is a subsequence of the input and a line of valid pairs, flags and positionals |
| Arguments.AcceptedPrefixKept | ipc/ipc.h:84-111 | an accepted line at the front is passed on whole and the rest judged by itself |
| Arguments.JunkDropped | ipc/ipc.h:84-111 | an argument that starts no accepted token is dropped alone |
| Arguments.FixedPointIffAccepted | ipc/ipc.h:57-112 | a list is returned unchanged if and only if it is an accepted line |
| Arguments.LanguagesWrittenOut | ipc/ipc.h:57-82 | the two languages: devices at tun:// and proxies at socks5://; configuration, management address, the client flag and one port; the output is always such a line, and such lines and no others pass unchanged |
| Arguments.PortNumbers | ipc/ipc.h:66-70 | a written number is a port if and only if it lies between 1 and 65535 |
| Text.ToIntIff | ipc/ipc.h:66-70 | exactly which texts read as a number: a sign or none, then at least one digit and nothing else, blanks around |
| Text.ToIntOfDecimal | ipc/ipc.h:66-70 | a written number reads as itself, with a sign too |
| Arguments.SanitizeIdempotent | ipc/ipc.h:57-112 | sanitising twice is sanitising once |
| WgConf.ToWgConf | client/daemon/interfaceconfig.cpp:71-214 | the printed text, or nothing for values that fail the checks |
| WgConf.ParseAllowedIps | client/vpnConnection.cpp:427-443 | the pieces of the first AllowedIPs line |
| WgConf.ParseKeepalive | client/vpnConnection.cpp:445-458 | the value of the first PersistentKeepalive line |
| WgConfRoundTrip.HeadAlike | client/daemon/interfaceconfig.cpp:85-200 | ahead of the allowed ranges the parser finds exactly what it finds in the loose lines: those behind the first line of a printed value, and added entries |
| WgConfRoundTrip.ConfReads | client/daemon/interfaceconfig.cpp:71-214 | what the parser reads from any printed configuration: the ranges and the first line of the interval, unless a loose line carries the name |
| WgConfRoundTrip.ConfReadsBackIff | client/daemon/interfaceconfig.cpp:71-214 | for every configuration and all added entries: the ranges read back if and only if it is printed and no loose line is taken for other ranges; the interval if and only if none is taken for another one and it is trimmed and in one line |
| WgConfRoundTrip.NoneFoundIff | client/vpnConnection.cpp:427-458 | nothing is found in lines if and only if none of them carries the name |
| WgConfRoundTrip.OneLineReadsBack | client/daemon/interfaceconfig.cpp:85-213 | where no value spans lines and no added entry takes either name there are no loose lines |
| WgConfRoundTrip.UntrimmedIntervalMisread | client/daemon/interfaceconfig.cpp:209-211 | the interval "25 " does not read back |
| WgConfRoundTrip.SpanningResolverMisread | client/daemon/interfaceconfig.cpp:106-119 | a resolver of two lines whose second is read as the allowed ranges |
| WgConfFields.PrintedIff | client/daemon/interfaceconfig.cpp:71-102 | a configuration is printed if and only if it has an address and no checked value spans lines |
| WgConfFields.FieldsReadBack | client/daemon/interfaceconfig.cpp:85-213 | every field of a configuration in one-line values reads back under its key |
| WgConfFields.FixedFieldsReadBack | client/daemon/interfaceconfig.cpp:85-213 | private key, addresses, MTU, resolvers, public key and endpoint read back, unless an added entry takes their key |

## Left out

- Platform code: the Windows, macOS and Linux route, firewall and resolver back ends stand behind success flags; the kill switch models the Linux branch only.
- Daemon::parseConfig and the JSON text of commands: field-by-field copying; only the prefix sort is modelled.
- Daemon::getStatus, logs and the wire format of signals: they change no state.
- VpnConnection apart from the configuration line parser, DNS resolution and per-site routes: network dependent.
- CryptoUtils and the keychain: one sealing function with an inverse, and a flag for the key pair.
- Int64 overflow of the variance sum and the rounding of `double` in `stddev` and `loss`: the model computes in integers and reals.
- Daemon.Daemon.Serve: that the counts cover the connections, and that tunnel routes are those of the connections, is promised over runs in which `deletePeer` succeeds, because a switch stranded by it loses both as Ledger.StrandedExactIffBalanced says; the equality of counted routes and routes in the system does not depend on it.
- CidrLists.ExcludeAll: for sources with host bits the pieces are proved right after every turn exactly when every turn is straight; pieces that go wrong and come right again later, because sources overlap, are not singled out.
- Text: blanks are the six of ASCII; QChar::isSpace also takes those of Unicode.
- Controller: callbacks that call back into the controller while they run.
- User interface, translations, packaging and start-up: nothing to prove.
