/** The daemon's connections on values: what they ask of the routing table, and what a server switch
    does to counts, routes and peers (client/daemon/daemon.cpp). */
module Ledger {
  import opened Wrappers
  import opened Addresses
  import opened Accounting
  import opened WireguardUtils

  datatype Connection = Connection(config: InterfaceConfig, date: Option<int>)

  type Connections = map<Hop, Connection>
  type Peers = map<string, InterfaceConfig>

  /** How a server switch ended: completed; undone; or ended with the counts already moved to the
      new server while the old configuration stays on file. */
  datatype SwitchOutcome = Switched | RolledBack | Stranded

  /** The exclusion routes one hop asks for, with multiplicity. */
  function Share(cs: Connections, h: Hop): multiset<Prefix> {
    if h in cs then multiset(TextKeys(cs[h].config.excluded)) else multiset{}
  }

  /** The exclusion routes all hops ask for. */
  function Total(cs: Connections): multiset<Prefix> {
    Share(cs, SingleHop) + Share(cs, MultiHopEntry) + Share(cs, MultiHopExit)
  }

  ghost predicate AllPlain(ts: seq<AddressText>) {
    forall t :: t in ts ==> PlainHost(t)
  }

  ghost predicate PlainLists(cs: Connections) {
    forall h :: h in cs ==> AllPlain(cs[h].config.excluded)
  }

  /** The tunnel routes of the hops other than `h`. */
  ghost function OtherRoutes(cs: Connections, h: Hop): set<Prefix> {
    set k, p | k in cs && k != h && p in cs[k].config.allowed :: p
  }

  ghost function AllRoutes(cs: Connections): set<Prefix> {
    set k, p | k in cs && p in cs[k].config.allowed :: p
  }

  ghost function RoutesAt(cs: Connections, h: Hop): set<Prefix> {
    if h in cs then ToSet(cs[h].config.allowed) else {}
  }

  lemma RoutesHopByHop(cs: Connections)
    ensures AllRoutes(cs) == RoutesAt(cs, SingleHop) + RoutesAt(cs, MultiHopEntry) + RoutesAt(cs, MultiHopExit)
  {
    forall p | p in AllRoutes(cs)
      ensures p in RoutesAt(cs, SingleHop) + RoutesAt(cs, MultiHopEntry) + RoutesAt(cs, MultiHopExit)
    {
      var k :| k in cs && p in cs[k].config.allowed;
      match k case SingleHop => case MultiHopEntry => case MultiHopExit =>
    }
  }

  ghost function PeerAt(cs: Connections, h: Hop): set<string> {
    if h in cs then {cs[h].config.serverPublicKey} else {}
  }

  ghost function PeerKeys(cs: Connections): set<string> {
    set h | h in cs :: cs[h].config.serverPublicKey
  }

  lemma PeersHopByHop(cs: Connections)
    ensures PeerKeys(cs) == PeerAt(cs, SingleHop) + PeerAt(cs, MultiHopEntry) + PeerAt(cs, MultiHopExit)
  {
    forall k | k in PeerKeys(cs)
      ensures k in PeerAt(cs, SingleHop) + PeerAt(cs, MultiHopEntry) + PeerAt(cs, MultiHopExit)
    {
      var h :| h in cs && cs[h].config.serverPublicKey == k;
      match h case SingleHop => case MultiHopEntry => case MultiHopExit =>
    }
  }

  /** Counts that cover, respectively equal, what the connections ask for. */
  ghost predicate Enough(m: Counts, cs: Connections) {
    forall p :: Total(cs)[p] <= Count(m, p)
  }

  ghost predicate Exact(m: Counts, cs: Connections) {
    forall p :: Total(cs)[p] == Count(m, p)
  }

  ghost predicate Filed(cs: Connections) {
    forall h :: h in cs ==> cs[h].config.hop == h
  }

  /** Every connection is one from before, or the new one. */
  ghost predicate OldOrNew(cs: Connections, cs': Connections, config: InterfaceConfig) {
    forall h :: h in cs' ==> (h in cs && cs'[h] == cs[h]) || (h == config.hop && cs'[h] == Connection(config, None))
  }

  /** Every count is positive and every counted route is in the system. */
  ghost predicate SoundCounts(m: Counts, routes: set<Prefix>) {
    Positive(m) && m.Keys <= routes
  }

  /** The same of every key an address text can have: only the key under which a server switch looks
      for addresses that are not plain hosts may be left over with count 0. */
  ghost predicate CoveredCounts(m: Counts, routes: set<Prefix>) {
    forall p :: p in m && p != StrayKey ==> m[p] >= 1 && p in routes
  }

  ghost predicate HealthyCounts(m: Counts, cs: Connections, routes: set<Prefix>) {
    CoveredCounts(m, routes) && Enough(m, cs)
  }

  ghost predicate TightCounts(m: Counts, cs: Connections, routes: set<Prefix>) {
    Exact(m, cs) && m.Keys == routes && PlainLists(cs)
  }

  /** What an operation that may install `config` keeps of counts and exclusion routes: soundness if
      deletions succeed or only plain lists are on file, equality of counted routes and routes in the
      system if deletions succeed, sufficiency if peers can be removed, and exactness if all of it. */
  ghost predicate AccountsKept(reliable: bool, peersGo: bool, config: InterfaceConfig,
                               m: Counts, cs: Connections, routes: set<Prefix>,
                               m': Counts, cs': Connections, routes': set<Prefix>)
  {
    && (SoundCounts(m, routes) && (reliable || (Enough(m, cs) && PlainLists(cs))) ==> SoundCounts(m', routes'))
    && (SoundCounts(m, routes) && m.Keys == routes && reliable ==> m'.Keys == routes')
    && (HealthyCounts(m, cs, routes) ==> CoveredCounts(m', routes') && (peersGo ==> HealthyCounts(m', cs', routes')))
    && (SoundCounts(m, routes) && TightCounts(m, cs, routes) && peersGo && reliable && AllPlain(config.excluded) ==>
          TightCounts(m', cs', routes'))
  }

  /** What an operation keeps of the tunnel routes: all are there if hops do not share any, and there
      are no others but those that failed activations left behind. */
  ghost predicate RoutesKept(reliable: bool, peersGo: bool, config: InterfaceConfig,
                             cs: Connections, routes: set<Prefix>, leftover: set<Prefix>,
                             cs': Connections, routes': set<Prefix>, leftover': set<Prefix>)
  {
    && (Routed(cs, routes) && Apart(cs, config) && peersGo ==> Routed(cs', routes'))
    && (Confined(cs, routes, leftover) && peersGo && reliable ==> Confined(cs', routes', leftover'))
    && leftover <= leftover'
  }

  /** What a switch keeps of the routes' soundness, before its counts are looked at. */
  ghost predicate SwitchSound(reliable: bool, h: Hop, m: Counts, cs: Connections, routes: set<Prefix>,
                              m': Counts, routes': set<Prefix>)
    requires h in cs
  {
    && (SoundCounts(m, routes) && (reliable || (Enough(m, cs) && AllPlain(cs[h].config.excluded))) ==>
          SoundCounts(m', routes'))
    && (CoveredCounts(m, routes) && (reliable || Enough(m, cs)) ==> CoveredCounts(m', routes'))
    && (SoundCounts(m, routes) && m.Keys == routes && reliable ==> m'.Keys == routes')
  }

  /** The counts of a completed exchange of the old list for the new one, deletions succeeding. */
  ghost predicate Exchanged(before: Counts, after: Counts, last: seq<AddressText>, next: seq<AddressText>) {
    forall p :: Count(after, p) == Monus(Count(before, p) + multiset(TextKeys(next))[p], multiset(HostKeys(last))[p])
  }

  lemma PlainKeys(ts: seq<AddressText>)
    requires AllPlain(ts)
    ensures HostKeys(ts) == TextKeys(ts)
  {
    forall i | 0 <= i < |ts| ensures HostKeys(ts)[i] == TextKeys(ts)[i] {
      assert ts[i] in ts;
      KeysAgreeOnlyOnPlainHosts(ts[i]);
    }
  }

  lemma SplitAt(ks: seq<Prefix>, i: nat)
    requires i < |ks|
    ensures multiset(ks[..i + 1]) == multiset(ks[..i]) + multiset{ks[i]}
    ensures multiset(ks[..i + 1]) <= multiset(ks)
  {
    assert ks[..i + 1] == ks[..i] + [ks[i]];
    assert ks == ks[..i + 1] + ks[i + 1..];
  }

  /** Removing the old list by host key takes away at most what the old list had added. */
  lemma {:induction false} HostKeysRemoveLess(ts: seq<AddressText>, t: AddressText)
    ensures multiset(HostKeys(ts))[KeyByText(t)] <= multiset(TextKeys(ts))[KeyByText(t)]
  {
    if ts != [] {
      var front, last := ts[..|ts| - 1], ts[|ts| - 1];
      HostKeysRemoveLess(front, t);
      assert HostKeys(ts) == HostKeys(front) + [KeyByHost(last)];
      assert TextKeys(ts) == TextKeys(front) + [KeyByText(last)];
      KeysAgreeOnlyOnPlainHosts(last);
    }
  }

  /** An address with a "/" is added under a key that the removal by host never touches. */
  lemma {:induction false} MixedListLeaks(ts: seq<AddressText>, t: AddressText)
    requires t in ts && !PlainHost(t)
    ensures multiset(HostKeys(ts))[KeyByText(t)] < multiset(TextKeys(ts))[KeyByText(t)]
  {
    var front, last := ts[..|ts| - 1], ts[|ts| - 1];
    assert HostKeys(ts) == HostKeys(front) + [KeyByHost(last)];
    assert TextKeys(ts) == TextKeys(front) + [KeyByText(last)];
    KeysAgreeOnlyOnPlainHosts(last);
    if last == t { HostKeysRemoveLess(front, t); } else { MixedListLeaks(front, t); }
  }

  lemma ShareKey(cs: Connections, h: Hop, p: Prefix)
    requires Share(cs, h)[p] > 0
    ensures exists t :: p == KeyByText(t)
  {
    var ts := cs[h].config.excluded;
    assert p in TextKeys(ts);
    var i :| 0 <= i < |ts| && TextKeys(ts)[i] == p;
  }

  lemma TotalKey(cs: Connections, p: Prefix)
    requires Total(cs)[p] > 0
    ensures exists t :: p == KeyByText(t)
  {
    var h :| Share(cs, h)[p] > 0 by {
      if Share(cs, SingleHop)[p] == 0 && Share(cs, MultiHopEntry)[p] == 0 { assert Share(cs, MultiHopExit)[p] > 0; }
    }
    ShareKey(cs, h, p);
  }

  lemma ShareUpdate(cs: Connections, c: Connection, h: Hop)
    ensures Share(cs[c.config.hop := c], h)
         == if h == c.config.hop then multiset(TextKeys(c.config.excluded)) else Share(cs, h)
  {}

  lemma TotalUpdate(cs: Connections, c: Connection, p: Prefix)
    ensures Total(cs[c.config.hop := c])[p] + Share(cs, c.config.hop)[p]
         == Total(cs)[p] + multiset(TextKeys(c.config.excluded))[p]
    ensures Share(cs, c.config.hop)[p] <= Total(cs)[p]
  {
    hide Share, TextKeys;
    ShareUpdate(cs, c, SingleHop);
    ShareUpdate(cs, c, MultiHopEntry);
    ShareUpdate(cs, c, MultiHopExit);
    match c.config.hop
    case SingleHop =>
    case MultiHopEntry =>
    case MultiHopExit =>
  }

  lemma NothingOwed()
    ensures Enough(map[], map[]) && Exact(map[], map[])
  {}

  /** Deleting a bag of routes: each count goes down by its occurrences, or by fewer where a deletion
      fails. */
  ghost predicate Dropped(reliable: bool, before: Counts, after: Counts, bag: multiset<Prefix>) {
    forall p :: Monus(Count(before, p), bag[p]) <= Count(after, p) <= Count(before, p)
             && (reliable ==> Count(after, p) == Monus(Count(before, p), bag[p]))
  }

  lemma DropOneMore(reliable: bool, before: Counts, mid: Counts, after: Counts, bag: multiset<Prefix>, k: Prefix)
    requires NonNegative(before) && Dropped(reliable, before, mid, bag)
    requires forall q :: Monus(Count(mid, q), if q == k then 1 else 0) <= Count(after, q) <= Count(mid, q)
    requires reliable ==> after == DelOne(mid, k)
    ensures Dropped(reliable, before, after, bag + multiset{k})
    ensures bag[k] < Count(before, k) ==> k in mid
  {}

  lemma NothingDropped(reliable: bool, m: Counts)
    requires NonNegative(m)
    ensures Dropped(reliable, m, m, multiset([]))
  {}

  /** A batch of new routes, on values: added with its counts... */
  lemma BatchAdded(m: Counts, ks: seq<Prefix>, routes: set<Prefix>, routes': set<Prefix>)
    requires NonNegative(m) && routes' == routes + (ToSet(ks) - m.Keys)
    ensures NonNegative(AddEach(m, ks))
    ensures SoundCounts(m, routes) ==> SoundCounts(AddEach(m, ks), routes')
    ensures CoveredCounts(m, routes) ==> CoveredCounts(AddEach(m, ks), routes')
    ensures m.Keys == routes ==> AddEach(m, ks).Keys == routes'
  {
    hide AddEach;
    AddEachCount(m, ks);
    var m' := AddEach(m, ks);
    assert m'.Keys == m.Keys + ToSet(ks);
    forall p | p in m' ensures m'[p] == Count(m, p) + multiset(ks)[p] { assert Count(m', p) == m'[p]; }
  }

  /** ... or failed, with routes of the batch coming and going. */
  lemma BatchFailed(m: Counts, batch: set<Prefix>, routes: set<Prefix>, routes': set<Prefix>)
    requires batch !! m.Keys && routes - batch <= routes'
    ensures SoundCounts(m, routes) ==> SoundCounts(m, routes')
    ensures CoveredCounts(m, routes) ==> CoveredCounts(m, routes')
  {}

  /** A key the removal by host looks for is the stray key, or the key of a plain host. */
  lemma HostKeyOf(ts: seq<AddressText>, p: Prefix)
    requires p in HostKeys(ts) && p != StrayKey
    ensures exists t :: p == KeyByText(t)
  {
    var i :| 0 <= i < |ts| && HostKeys(ts)[i] == p;
    KeysAgreeOnlyOnPlainHosts(ts[i]);
    assert p == KeyByText(ts[i]);
  }

  /** No address text has the stray key. */
  lemma NoStrayText(ts: seq<AddressText>)
    ensures StrayKey !in TextKeys(ts)
  {
    assert forall i :: 0 <= i < |ts| ==> TextKeys(ts)[i] != StrayKey;
  }

  /** All of a list that a switch looks for is counted, except what it looks for under the stray key;
      a plain list has nothing there. */
  ghost predicate Counted(m: Counts, ks: seq<Prefix>) {
    forall p :: p != StrayKey ==> multiset(ks)[p] <= Count(m, p)
  }

  lemma HostKeysInTotal(cs: Connections, h: Hop, p: Prefix)
    requires h in cs && p != StrayKey
    ensures multiset(HostKeys(cs[h].config.excluded))[p] <= Total(cs)[p]
  {
    hide Total;
    var ts := cs[h].config.excluded;
    TotalUpdate(cs, cs[h].(config := cs[h].config.(hop := h)), p);
    if multiset(HostKeys(ts))[p] > 0 {
      HostKeyOf(ts, p);
      var t :| p == KeyByText(t);
      HostKeysRemoveLess(ts, t);
    }
  }

  /** An old list is fully counted, so its removal meets no missing key but the stray one. */
  lemma OldListCounted(before: Counts, after: Counts, cs: Connections, h: Hop)
    requires h in cs && Enough(before, cs)
    requires forall p :: Count(before, p) <= Count(after, p)
    ensures Counted(after, HostKeys(cs[h].config.excluded))
    ensures AllPlain(cs[h].config.excluded) ==> StrayKey !in HostKeys(cs[h].config.excluded)
  {
    var ts := cs[h].config.excluded;
    forall p | p != StrayKey ensures multiset(HostKeys(ts))[p] <= Count(after, p) {
      HostKeysInTotal(cs, h, p);
      assert Total(cs)[p] <= Count(before, p) <= Count(after, p);
    }
    assert forall i :: 0 <= i < |ts| && PlainHost(ts[i]) ==> HostKeys(ts)[i] != StrayKey;
  }

  /** Adding the list of a new hop keeps the counts sufficient and exact. */
  lemma InstallKeeps(before: Counts, after: Counts, cs: Connections, config: InterfaceConfig)
    requires config.hop !in cs
    requires forall p :: Count(after, p) == Count(before, p) + multiset(TextKeys(config.excluded))[p]
    ensures Enough(before, cs) ==> Enough(after, cs[config.hop := Connection(config, None)])
    ensures Exact(before, cs) ==> Exact(after, cs[config.hop := Connection(config, None)])
  {
    var cs' := cs[config.hop := Connection(config, None)];
    forall p ensures Total(cs')[p] == Total(cs)[p] + multiset(TextKeys(config.excluded))[p] {
      TotalUpdate(cs, Connection(config, None), p);
    }
  }

  lemma RaisedKeepsEnough(before: Counts, after: Counts, cs: Connections)
    requires Enough(before, cs) && forall p :: Count(before, p) <= Count(after, p)
    ensures Enough(after, cs)
  {
    forall p ensures Total(cs)[p] <= Count(after, p) { assert Total(cs)[p] <= Count(before, p); }
  }

  /** An activation of a new hop, on values: it succeeded, or it failed and was undone. */
  lemma ActivationAccounts(reliable: bool, peersGo: bool, before: Counts, after: Counts, cs: Connections,
                           config: InterfaceConfig, routes: set<Prefix>, routes': set<Prefix>, ok: bool)
    requires config.hop !in cs
    requires SoundCounts(before, routes) ==> SoundCounts(after, routes')
    requires CoveredCounts(before, routes) ==> CoveredCounts(after, routes')
    requires ok ==> forall p :: Count(after, p) == Count(before, p) + multiset(TextKeys(config.excluded))[p]
    requires !ok ==> forall p :: Count(before, p) <= Count(after, p)
    requires reliable && !ok && SoundCounts(before, routes) ==> after == before
    requires reliable && SoundCounts(before, routes) && before.Keys == routes ==> after.Keys == routes'
    ensures AccountsKept(reliable, peersGo, config, before, cs, routes,
                         after, if ok then cs[config.hop := Connection(config, None)] else cs, routes')
  {
    hide Total, Enough, Exact;
    if ok {
      InstallKeeps(before, after, cs, config);
    } else if Enough(before, cs) {
      RaisedKeepsEnough(before, after, cs);
    }
  }

  /** Counts that cover the connections before a switch cover them after it, even when deletions
      fail and even when the old list is not made of plain hosts. */
  lemma ExchangeKeepsEnough(before: Counts, after: Counts, cs: Connections, c: Connection)
    requires c.config.hop in cs && Enough(before, cs)
    requires forall p :: Count(after, p) >= Monus(Count(before, p) + multiset(TextKeys(c.config.excluded))[p],
                                                  multiset(HostKeys(cs[c.config.hop].config.excluded))[p])
    ensures Enough(after, cs[c.config.hop := c])
  {
    var next := cs[c.config.hop := c];
    forall p ensures Total(next)[p] <= Count(after, p) {
      TotalUpdate(cs, c, p);
      if Total(next)[p] > 0 {
        TotalKey(next, p);
        var t :| p == KeyByText(t);
        HostKeysRemoveLess(cs[c.config.hop].config.excluded, t);
      }
    }
  }

  /** With deletions succeeding, a completed switch keeps the counts exact if and only if every
      excluded address of the replaced configuration is a plain host. */
  lemma SwitchExactIffPlain(before: Counts, after: Counts, cs: Connections, c: Connection)
    requires c.config.hop in cs && Exact(before, cs)
    requires Exchanged(before, after, cs[c.config.hop].config.excluded, c.config.excluded)
    ensures Exact(after, cs[c.config.hop := c]) <==> AllPlain(cs[c.config.hop].config.excluded)
  {
    var next, last := cs[c.config.hop := c], cs[c.config.hop].config.excluded;
    if AllPlain(last) {
      PlainKeys(last);
      forall p ensures Total(next)[p] == Count(after, p) { TotalUpdate(cs, c, p); }
    } else {
      var t :| t in last && !PlainHost(t);
      MixedListLeaks(last, t);
      TotalUpdate(cs, c, KeyByText(t));
      assert Total(next)[KeyByText(t)] < Count(after, KeyByText(t));
    }
  }

  /** The lists agree on every route: what the switch removed of the old one is what it added for the
      new one. */
  ghost predicate Balanced(last: seq<AddressText>, next: seq<AddressText>) {
    forall t :: multiset(HostKeys(last))[KeyByText(t)] == multiset(TextKeys(next))[KeyByText(t)]
  }

  ghost predicate Outweighed(last: seq<AddressText>, next: seq<AddressText>) {
    forall t :: multiset(HostKeys(last))[KeyByText(t)] <= multiset(TextKeys(next))[KeyByText(t)]
  }

  /** When removing the old peer fails, the counts have moved but the old configuration stays: the
      accounting is then exact if and only if as much was removed of every route as was added, and it
      still covers the connections if and only if no more was removed than added. */
  lemma StrandedExactIffBalanced(before: Counts, after: Counts, cs: Connections, c: Connection)
    requires c.config.hop in cs && Exact(before, cs)
    requires Exchanged(before, after, cs[c.config.hop].config.excluded, c.config.excluded)
    ensures Exact(after, cs) <==> Balanced(cs[c.config.hop].config.excluded, c.config.excluded)
    ensures Enough(after, cs) <==> Outweighed(cs[c.config.hop].config.excluded, c.config.excluded)
  {
    hide Exchanged, Total, HostKeys, TextKeys, KeyByText, Count;
    var last, next := cs[c.config.hop].config.excluded, c.config.excluded;
    forall t: AddressText
      ensures Count(after, KeyByText(t)) + multiset(HostKeys(last))[KeyByText(t)]
           == Total(cs)[KeyByText(t)] + multiset(TextKeys(next))[KeyByText(t)]
    {
      StrandedAt(before, after, cs, c, t);
    }
    if Balanced(last, next) {
      forall p ensures Total(cs)[p] == Count(after, p) {
        if p == StrayKey || !exists t :: p == KeyByText(t) { UntouchedStaysZero(before, after, cs, c, p); }
      }
    }
    if Outweighed(last, next) {
      forall p ensures Total(cs)[p] <= Count(after, p) {
        if p == StrayKey || !exists t :: p == KeyByText(t) { UntouchedStaysZero(before, after, cs, c, p); }
      }
    }
  }

  lemma StrandedAt(before: Counts, after: Counts, cs: Connections, c: Connection, t: AddressText)
    requires c.config.hop in cs && Exact(before, cs)
    requires Exchanged(before, after, cs[c.config.hop].config.excluded, c.config.excluded)
    ensures var p := KeyByText(t);
            Count(after, p) + multiset(HostKeys(cs[c.config.hop].config.excluded))[p]
            == Total(cs)[p] + multiset(TextKeys(c.config.excluded))[p]
  {
    TotalUpdate(cs, c, KeyByText(t));
    HostKeysRemoveLess(cs[c.config.hop].config.excluded, t);
  }

  /** A key that no address has is not counted and does not become so. */
  lemma UntouchedStaysZero(before: Counts, after: Counts, cs: Connections, c: Connection, p: Prefix)
    requires c.config.hop in cs && Exact(before, cs) && (p == StrayKey || forall t :: p != KeyByText(t))
    requires Exchanged(before, after, cs[c.config.hop].config.excluded, c.config.excluded)
    ensures Count(after, p) == Total(cs)[p] == 0
  {
    hide Total;
    if Total(cs)[p] > 0 { TotalKey(cs, p); }
    NoStrayText(c.config.excluded);
    assert p !in TextKeys(c.config.excluded);
    assert Total(cs)[p] == Count(before, p);
  }

  /** Between plain lists: exact if and only if both ask for the same routes, and sufficient if and only
      if the new list asks for all that the old one did. */
  lemma StrandedPlain(before: Counts, after: Counts, cs: Connections, c: Connection)
    requires c.config.hop in cs && Exact(before, cs) && AllPlain(cs[c.config.hop].config.excluded)
    requires Exchanged(before, after, cs[c.config.hop].config.excluded, c.config.excluded)
    ensures Exact(after, cs) <==>
              multiset(TextKeys(cs[c.config.hop].config.excluded)) == multiset(TextKeys(c.config.excluded))
    ensures Enough(after, cs) <==>
              multiset(TextKeys(cs[c.config.hop].config.excluded)) <= multiset(TextKeys(c.config.excluded))
  {
    var last, next := cs[c.config.hop].config.excluded, c.config.excluded;
    StrandedExactIffBalanced(before, after, cs, c);
    PlainKeys(last);
    forall p: Prefix | p in TextKeys(last) || p in TextKeys(next) ensures exists t :: p == KeyByText(t) {
      if p in TextKeys(last) {
        var i :| 0 <= i < |last| && TextKeys(last)[i] == p;
      } else {
        var i :| 0 <= i < |next| && TextKeys(next)[i] == p;
      }
    }
  }

  /** The same list on both sides is not enough: a subnet replaced by itself is counted twice. */
  lemma SubnetStranded(config: InterfaceConfig, subnet: AddressText)
    requires config.excluded == [subnet] && subnet.SubnetText?
    ensures var cs := map[config.hop := Connection(config, None)];
            var p := KeyByText(subnet);
            && Exact(map[p := 1], cs) && Exchanged(map[p := 1], map[p := 2], [subnet], [subnet])
            && Total(cs)[p] == 1 && !Exact(map[p := 2], cs)
  {
    var p := KeyByText(subnet);
    OneHopTotal(Connection(config, None));
    KeysAgreeOnlyOnPlainHosts(subnet);
    assert TextKeys([subnet]) == [p] && HostKeys([subnet]) == [KeyByHost(subnet)];
    assert multiset([p])[p] == 1 && multiset([KeyByHost(subnet)])[p] == 0;
    assert Count(map[p := 2], p) == 2;
  }

  /** The switch that leaks: replacing an excluded subnet, 10.0.0.0/8 for one, by nothing leaves it
      counted. */
  lemma SubnetLeaks(config: InterfaceConfig, subnet: AddressText)
    requires config.excluded == [] && subnet.SubnetText?
    ensures var last := Connection(config.(excluded := [subnet]), None);
            var counts := map[KeyByText(subnet) := 1];
            && Exact(counts, map[config.hop := last]) && Exchanged(counts, counts, [subnet], [])
            && !Exact(counts, map[config.hop := last][config.hop := Connection(config, None)])
  {
    var last := Connection(config.(excluded := [subnet]), None);
    var counts := map[KeyByText(subnet) := 1];
    OneHopTotal(last);
    KeysAgreeOnlyOnPlainHosts(subnet);
    assert TextKeys([subnet]) == [KeyByText(subnet)] && HostKeys([subnet]) == [KeyByHost(subnet)];
    assert subnet in [subnet];
    SwitchExactIffPlain(counts, counts, map[config.hop := last], Connection(config, None));
  }

  /** A switch that strands: replacing an excluded host by nothing while the old peer cannot be
      removed leaves a connection on file whose route is gone. */
  lemma HostStranded(config: InterfaceConfig)
    requires config.excluded == []
    ensures var host := HostText(V4(0x0A000001));
            var last := Connection(config.(excluded := [host]), None);
            var counts := map[KeyByText(host) := 1];
            && Exact(counts, map[config.hop := last]) && Exchanged(counts, map[], [host], [])
            && !Enough(map[], map[config.hop := last])
  {
    var host := HostText(V4(0x0A000001));
    OneHopTotal(Connection(config.(excluded := [host]), None));
    assert TextKeys([host]) == [KeyByText(host)] == HostKeys([host]);
    assert multiset(TextKeys([host]))[KeyByText(host)] == 1;
  }

  lemma OneHopTotal(c: Connection)
    ensures Total(map[c.config.hop := c]) == multiset(TextKeys(c.config.excluded))
  {
    match c.config.hop case SingleHop => case MultiHopEntry => case MultiHopExit =>
  }

  /** The tunnel routes after a completed switch, deletions succeeding. */
  ghost function RoutesAfterSwitch(routes: set<Prefix>, last: seq<Prefix>, next: seq<Prefix>): set<Prefix> {
    routes + ToSet(next) - (ToSet(last) - ToSet(next))
  }

  /** The tunnel routes after a switch that failed once `reached` routes were updated. */
  ghost function RoutesAfterRollback(routes: set<Prefix>, last: seq<Prefix>, reached: seq<Prefix>): set<Prefix> {
    routes + ToSet(reached) - (ToSet(reached) - ToSet(last))
  }

  /** A rolled-back switch: no count went down and at least the old routes are back; with deletions
      succeeding counts and routes are those of before, for a failure after any number of routes. */
  ghost predicate Undone(reliable: bool, before: Counts, after: Counts, routes: set<Prefix>, routes': set<Prefix>,
                         last: InterfaceConfig, config: InterfaceConfig, reached: nat)
  {
    && (forall p :: Count(before, p) <= Count(after, p))
    && reached <= |config.allowed| && RoutesAfterRollback(routes, last.allowed, config.allowed[..reached]) <= routes'
    && (reliable ==> (forall p :: Count(after, p) == Count(before, p))
                     && routes' == RoutesAfterRollback(routes, last.allowed, config.allowed[..reached]))
  }

  /** A switch past its last rollback: counts and routes are those of the new server, except that
      failed deletions leave more. */
  ghost predicate Moved(reliable: bool, before: Counts, after: Counts, routes: set<Prefix>, routes': set<Prefix>,
                        last: InterfaceConfig, config: InterfaceConfig)
  {
    && (forall p :: Count(after, p) >= Monus(Count(before, p) + multiset(TextKeys(config.excluded))[p],
                                             multiset(HostKeys(last.excluded))[p]))
    && RoutesAfterSwitch(routes, last.allowed, config.allowed) <= routes'
    && (reliable ==> Exchanged(before, after, last.excluded, config.excluded)
                     && routes' == RoutesAfterSwitch(routes, last.allowed, config.allowed))
  }

  /** However a switch ends, it keeps the accounts. */
  lemma SwitchAccounts(reliable: bool, peersGo: bool, before: Counts, after: Counts, cs: Connections,
                       config: InterfaceConfig, routes: set<Prefix>, routes': set<Prefix>,
                       tunnel: set<Prefix>, tunnel': set<Prefix>, outcome: SwitchOutcome, reached: nat)
    requires config.hop in cs && SwitchSound(reliable, config.hop, before, cs, routes, after, routes')
    requires outcome.RolledBack? ==>
              Undone(reliable, before, after, tunnel, tunnel', cs[config.hop].config, config, reached)
    requires !outcome.RolledBack? ==> Moved(reliable, before, after, tunnel, tunnel', cs[config.hop].config, config)
    requires peersGo ==> !outcome.Stranded?
    ensures AccountsKept(reliable, peersGo, config, before, cs, routes,
                         after, if outcome.Switched? then cs[config.hop := Connection(config, None)] else cs, routes')
  {
    hide Total, Enough, Exact, Exchanged, SoundCounts, CoveredCounts, RoutesAfterSwitch, RoutesAfterRollback;
    if outcome.RolledBack? {
      if Enough(before, cs) { RaisedKeepsEnough(before, after, cs); }
      if reliable && Exact(before, cs) { SameCountsExact(before, after, cs); }
    } else if outcome.Switched? {
      var c := Connection(config, None);
      if Enough(before, cs) { ExchangeKeepsEnough(before, after, cs, c); }
      if reliable && Exact(before, cs) { SwitchExactIffPlain(before, after, cs, c); }
    }
  }

  lemma MovedHasRoutes(reliable: bool, before: Counts, after: Counts, routes: set<Prefix>, routes': set<Prefix>,
                       last: InterfaceConfig, config: InterfaceConfig)
    requires Moved(reliable, before, after, routes, routes', last, config)
    ensures ToSet(config.allowed) <= routes'
  {
    assert ToSet(config.allowed) <= RoutesAfterSwitch(routes, last.allowed, config.allowed);
  }

  lemma SameCountsExact(before: Counts, after: Counts, cs: Connections)
    requires Exact(before, cs) && forall p :: Count(after, p) == Count(before, p)
    ensures Exact(after, cs)
  {
    forall p ensures Total(cs)[p] == Count(after, p) { assert Total(cs)[p] == Count(before, p); }
  }

  /** A switch is a transaction on the tunnel routes if and only if no other hop uses a prefix it
      gives up: success then leaves exactly the routes of the new connections... */
  lemma SwitchRoutesExact(cs: Connections, c: Connection)
    requires c.config.hop in cs
    ensures var last := cs[c.config.hop].config.allowed;
            RoutesAfterSwitch(AllRoutes(cs), last, c.config.allowed) == AllRoutes(cs[c.config.hop := c])
            <==> (ToSet(last) - ToSet(c.config.allowed)) !! OtherRoutes(cs, c.config.hop)
  {
    var h, last, next := c.config.hop, cs[c.config.hop].config.allowed, cs[c.config.hop := c];
    SplitRoutes(cs, h);
    SplitRoutes(next, h);
    SameOthers(cs, next, h);
  }

  /** A prefix that both hops of a multi-hop tunnel use: when the exit gives it up, the entry loses its
      route. */
  lemma SharedRouteDropped(entry: InterfaceConfig, exit: InterfaceConfig, p: Prefix)
    requires entry.hop == MultiHopEntry && entry.allowed == [p] && exit.hop == MultiHopExit && exit.allowed == []
    ensures var cs := map[MultiHopEntry := Connection(entry, None),
                          MultiHopExit := Connection(exit.(allowed := [p]), None)];
            var cs' := cs[MultiHopExit := Connection(exit, None)];
            && RoutesAfterSwitch(AllRoutes(cs), [p], []) == {} && AllRoutes(cs') == {p}
            && !Routed(cs', RoutesAfterSwitch(AllRoutes(cs), [p], []))
  {
    var cs := map[MultiHopEntry := Connection(entry, None), MultiHopExit := Connection(exit.(allowed := [p]), None)];
    var cs' := cs[MultiHopExit := Connection(exit, None)];
    RoutesHopByHop(cs);
    RoutesHopByHop(cs');
    assert p in cs'[MultiHopEntry].config.allowed;
  }

  /** The same for a rollback: an exit that had taken the entry's prefix over, and failed at its next
      route, takes it away again. */
  lemma SharedRouteRolledBack(entry: InterfaceConfig, exit: InterfaceConfig, p: Prefix, q: Prefix)
    requires entry.hop == MultiHopEntry && entry.allowed == [p] && exit.hop == MultiHopExit && exit.allowed == [p, q]
    ensures var cs := map[MultiHopEntry := Connection(entry, None),
                          MultiHopExit := Connection(exit.(allowed := []), None)];
            RoutesAfterRollback(AllRoutes(cs), [], exit.allowed[..1]) == {} && AllRoutes(cs) == {p}
  {
    var cs := map[MultiHopEntry := Connection(entry, None), MultiHopExit := Connection(exit.(allowed := []), None)];
    RoutesHopByHop(cs);
    assert exit.allowed[..1] == [p];
  }

  /** And an activation that failed once it had set a route leaves it behind. */
  lemma RouteLeftBehind(config: InterfaceConfig, p: Prefix)
    requires config.allowed == [p]
    ensures AllRoutes(map[]) == {} && AllRoutes(map[]) + ToSet(config.allowed[..1]) == {p}
  {
    assert config.allowed[..1] == [p];
  }

  lemma SplitRoutes(cs: Connections, h: Hop)
    requires h in cs
    ensures AllRoutes(cs) == ToSet(cs[h].config.allowed) + OtherRoutes(cs, h)
  {}

  /** ... and failure at any position of the route loop restores exactly the old routes. */
  lemma RollbackRoutesExact(cs: Connections, c: Connection, k: nat)
    requires c.config.hop in cs && k <= |c.config.allowed|
    ensures var last, reached := cs[c.config.hop].config.allowed, c.config.allowed[..k];
            RoutesAfterRollback(AllRoutes(cs), last, reached) == AllRoutes(cs)
            <==> (ToSet(reached) - ToSet(last)) !! OtherRoutes(cs, c.config.hop)
  {
    var h, last := c.config.hop, cs[c.config.hop].config.allowed;
    assert AllRoutes(cs) == ToSet(last) + OtherRoutes(cs, h);
  }

  /** Every tunnel route of every connection is in the system. */
  ghost predicate Routed(cs: Connections, routes: set<Prefix>) {
    AllRoutes(cs) <= routes
  }

  /** A configuration shares no tunnel route with the other hops, and neither does the one it replaces. */
  ghost predicate Apart(cs: Connections, config: InterfaceConfig) {
    (ToSet(config.allowed) + RoutesAt(cs, config.hop)) !! OtherRoutes(cs, config.hop)
  }

  lemma SwitchKeepsRouted(cs: Connections, config: InterfaceConfig, routes: set<Prefix>, routes': set<Prefix>)
    requires config.hop in cs && Apart(cs, config) && Routed(cs, routes)
    requires RoutesAfterSwitch(routes, cs[config.hop].config.allowed, config.allowed) <= routes'
    ensures Routed(cs[config.hop := Connection(config, None)], routes')
  {
    var next := cs[config.hop := Connection(config, None)];
    forall p | p in AllRoutes(next) ensures p in routes' {
      var k :| k in next && p in next[k].config.allowed;
      if k != config.hop { assert p in OtherRoutes(cs, config.hop) && p in AllRoutes(cs); }
    }
  }

  lemma RollbackKeepsRouted(cs: Connections, config: InterfaceConfig, reached: seq<Prefix>,
                            routes: set<Prefix>, routes': set<Prefix>)
    requires config.hop in cs && Apart(cs, config) && Routed(cs, routes)
    requires ToSet(reached) <= ToSet(config.allowed)
    requires RoutesAfterRollback(routes, cs[config.hop].config.allowed, reached) <= routes'
    ensures Routed(cs, routes')
  {
    forall p | p in AllRoutes(cs) ensures p in routes' {
      var k :| k in cs && p in cs[k].config.allowed;
      if k != config.hop { assert p in OtherRoutes(cs, config.hop); }
    }
  }

  /** However a switch ends short of being stranded, the connections stay routed. */
  lemma SwitchRouted(cs: Connections, config: InterfaceConfig, routes: set<Prefix>, routes': set<Prefix>,
                     outcome: SwitchOutcome, reached: nat, reliable: bool, before: Counts, after: Counts)
    requires config.hop in cs
    requires outcome.RolledBack? ==>
              Undone(reliable, before, after, routes, routes', cs[config.hop].config, config, reached)
    requires outcome.Switched? ==> Moved(reliable, before, after, routes, routes', cs[config.hop].config, config)
    ensures Routed(cs, routes) && Apart(cs, config) && !outcome.Stranded? ==>
              Routed(if outcome.Switched? then cs[config.hop := Connection(config, None)] else cs, routes')
  {
    if Routed(cs, routes) && Apart(cs, config) {
      match outcome
      case Switched => SwitchKeepsRouted(cs, config, routes, routes');
      case RolledBack => RollbackKeepsRouted(cs, config, config.allowed[..reached], routes, routes');
      case Stranded =>
    }
  }

  /** Routes that only grow keep the connections routed, and a new one whose routes are all there. */
  lemma GrownKeepsRouted(cs: Connections, config: InterfaceConfig, routes: set<Prefix>, routes': set<Prefix>)
    requires routes <= routes' && Routed(cs, routes)
    ensures Routed(cs, routes')
    ensures ToSet(config.allowed) <= routes' ==> Routed(cs[config.hop := Connection(config, None)], routes')
  {
    var next := cs[config.hop := Connection(config, None)];
    if ToSet(config.allowed) <= routes' {
      forall p | p in AllRoutes(next) ensures p in routes' {
        var k :| k in next && p in next[k].config.allowed;
        if k != config.hop { assert p in AllRoutes(cs); }
      }
    }
  }

  /** Every tunnel route in the system belongs to a connection or was left behind by an activation that
      failed. */
  ghost predicate Confined(cs: Connections, routes: set<Prefix>, leftover: set<Prefix>) {
    routes <= AllRoutes(cs) + leftover
  }

  /** A switch that ends short of being stranded leaves nothing behind. */
  lemma SwitchConfined(cs: Connections, config: InterfaceConfig, routes: set<Prefix>, routes': set<Prefix>,
                       leftover: set<Prefix>, outcome: SwitchOutcome, reached: nat, before: Counts, after: Counts)
    requires config.hop in cs && Confined(cs, routes, leftover)
    requires outcome.RolledBack? ==>
              Undone(true, before, after, routes, routes', cs[config.hop].config, config, reached)
    requires outcome.Switched? ==> Moved(true, before, after, routes, routes', cs[config.hop].config, config)
    ensures !outcome.Stranded? ==>
              Confined(if outcome.Switched? then cs[config.hop := Connection(config, None)] else cs, routes', leftover)
  {
    var h, next := config.hop, cs[config.hop := Connection(config, None)];
    SplitRoutes(cs, h);
    SplitRoutes(next, h);
    SameOthers(cs, next, h);
  }

  /** However a switch ends, it keeps the tunnel routes. */
  lemma SwitchRoutes(reliable: bool, peersGo: bool, before: Counts, after: Counts, cs: Connections,
                     config: InterfaceConfig, routes: set<Prefix>, routes': set<Prefix>, leftover: set<Prefix>,
                     outcome: SwitchOutcome, reached: nat)
    requires config.hop in cs
    requires outcome.RolledBack? ==>
              Undone(reliable, before, after, routes, routes', cs[config.hop].config, config, reached)
    requires !outcome.RolledBack? ==> Moved(reliable, before, after, routes, routes', cs[config.hop].config, config)
    requires peersGo ==> !outcome.Stranded?
    ensures RoutesKept(reliable, peersGo, config, cs, routes, leftover,
                       if outcome.Switched? then cs[config.hop := Connection(config, None)] else cs, routes', leftover)
  {
    hide Undone, Moved, Routed, Apart, Confined;
    SwitchRouted(cs, config, routes, routes', outcome, reached, reliable, before, after);
    if reliable && Confined(cs, routes, leftover) {
      SwitchConfined(cs, config, routes, routes', leftover, outcome, reached, before, after);
    }
  }

  lemma SameOthers(cs: Connections, cs': Connections, h: Hop)
    requires forall k :: k != h ==> (k in cs <==> k in cs') && (k in cs ==> cs'[k] == cs[k])
    ensures OtherRoutes(cs', h) == OtherRoutes(cs, h)
  {
    forall p ensures p in OtherRoutes(cs', h) <==> p in OtherRoutes(cs, h) {
      if k :| k in cs && k != h && p in cs[k].config.allowed { assert k in cs' && p in cs'[k].config.allowed; }
      if k :| k in cs' && k != h && p in cs'[k].config.allowed { assert k in cs && p in cs[k].config.allowed; }
    }
  }

  /** Routes set by an activation belong to its connection if it succeeds and are left behind if not. */
  lemma ActivationConfined(cs: Connections, config: InterfaceConfig, routes: set<Prefix>, routes': set<Prefix>,
                           leftover: set<Prefix>, reached: seq<Prefix>)
    requires config.hop !in cs && Confined(cs, routes, leftover) && routes' == routes + ToSet(reached)
    ensures Confined(cs, routes', leftover + ToSet(reached))
    ensures reached == config.allowed ==> Confined(cs[config.hop := Connection(config, None)], routes', leftover)
  {
    var next := cs[config.hop := Connection(config, None)];
    SplitRoutes(next, config.hop);
    SameOthers(cs, next, config.hop);
    forall p | p in AllRoutes(cs) ensures p in OtherRoutes(cs, config.hop) {
      var k :| k in cs && p in cs[k].config.allowed;
      assert k != config.hop;
    }
  }

  /** An activation of a new hop that has set the routes in `reached` keeps the tunnel routes. */
  lemma ActivationRoutes(reliable: bool, peersGo: bool, cs: Connections, config: InterfaceConfig,
                         routes: set<Prefix>, routes': set<Prefix>, leftover: set<Prefix>,
                         reached: seq<Prefix>, ok: bool)
    requires config.hop !in cs && routes' == routes + ToSet(reached) && (ok ==> reached == config.allowed)
    ensures RoutesKept(reliable, peersGo, config, cs, routes, leftover,
                       if ok then cs[config.hop := Connection(config, None)] else cs, routes',
                       if ok then leftover else leftover + ToSet(reached))
  {
    hide Routed, Apart, Confined;
    if Routed(cs, routes) { GrownKeepsRouted(cs, config, routes, routes'); }
    if Confined(cs, routes, leftover) { ActivationConfined(cs, config, routes, routes', leftover, reached); }
  }

  /** A deactivation keeps accounts and routes, and so does what comes after it. */
  lemma AfterDeactivation(reliable: bool, peersGo: bool, config: InterfaceConfig, m: Counts, cs: Connections,
                          routes: set<Prefix>, routes1: set<Prefix>, m': Counts, cs': Connections, routes': set<Prefix>)
    requires reliable && m.Keys == routes ==> routes1 == {}
    ensures AccountsKept(reliable, peersGo, config, m, cs, routes, map[], map[], routes1)
    ensures AccountsKept(reliable, peersGo, config, map[], map[], routes1, m', cs', routes') ==>
              AccountsKept(reliable, peersGo, config, m, cs, routes, m', cs', routes')
  {
    NothingOwed();
    hide Total, Enough, Exact;
  }

  lemma TunnelAfterDeactivation(reliable: bool, peersGo: bool, config: InterfaceConfig, cs: Connections,
                                routes: set<Prefix>, leftover: set<Prefix>, routes1: set<Prefix>,
                                cs': Connections, routes': set<Prefix>, leftover': set<Prefix>)
    requires reliable ==> routes1 == routes - AllRoutes(cs)
    ensures RoutesKept(reliable, peersGo, config, cs, routes, leftover, map[], routes1, leftover)
    ensures RoutesKept(reliable, peersGo, config, map[], routes1, leftover, cs', routes', leftover') ==>
              RoutesKept(reliable, peersGo, config, cs, routes, leftover, cs', routes', leftover')
  {
    assert AllRoutes(map[]) == {} && OtherRoutes(map[], config.hop) == {};
  }

  lemma UnchangedKeeps(reliable: bool, peersGo: bool, config: InterfaceConfig, m: Counts, cs: Connections,
                       routes: set<Prefix>, tunnel: set<Prefix>, leftover: set<Prefix>)
    ensures AccountsKept(reliable, peersGo, config, m, cs, routes, m, cs, routes)
    ensures RoutesKept(reliable, peersGo, config, cs, tunnel, leftover, cs, tunnel, leftover)
  {
    hide Total, Enough, Exact;
  }

  /** Each hop keeps to its own set of prefixes, and the sets are disjoint. */
  ghost predicate Zoned(zones: map<Hop, set<Prefix>>, cs: Connections) {
    && (forall h, k :: h in zones && k in zones && h != k ==> zones[h] !! zones[k])
    && (forall h :: h in cs ==> h in zones && ToSet(cs[h].config.allowed) <= zones[h])
  }

  ghost predicate InZone(zones: map<Hop, set<Prefix>>, config: InterfaceConfig) {
    config.hop in zones && ToSet(config.allowed) <= zones[config.hop]
  }

  lemma ZonedApart(zones: map<Hop, set<Prefix>>, cs: Connections, config: InterfaceConfig)
    requires Zoned(zones, cs) && InZone(zones, config)
    ensures Apart(cs, config)
  {
    forall p | p in OtherRoutes(cs, config.hop) ensures p !in zones[config.hop] {
      var k :| k in cs && k != config.hop && p in cs[k].config.allowed;
      assert p in ToSet(cs[k].config.allowed);
    }
  }

  /** The peers after a rolled-back switch: the new server may stay a peer, and the old one is restored
      unless that fails. */
  ghost predicate PeersAfterRollback(updates: bool, peers: Peers, peers': Peers, last: InterfaceConfig,
                                     config: InterfaceConfig)
  {
    var added := peers[config.serverPublicKey := config];
    peers' == peers || peers' == added[last.serverPublicKey := last] || (peers' == added && !updates)
  }

  /** The peers after a completed switch. */
  function Replaced(peers: Peers, last: InterfaceConfig, config: InterfaceConfig): Peers {
    peers[config.serverPublicKey := config] -
    (if last.serverPublicKey == config.serverPublicKey then {} else {last.serverPublicKey})
  }

  /** The system's peer for a server is the configured one. */
  predicate PeerIs(peers: Peers, config: InterfaceConfig) {
    config.serverPublicKey in peers && peers[config.serverPublicKey] == config
  }

  ghost predicate AllPeered(cs: Connections, peers: Peers) {
    forall h :: h in cs ==> PeerIs(peers, cs[h].config)
  }

  /** No other hop uses the server of a configuration or that of the one it replaces. */
  ghost predicate KeysApart(cs: Connections, config: InterfaceConfig) {
    forall k :: k in cs && k != config.hop ==>
      && cs[k].config.serverPublicKey != config.serverPublicKey
      && (config.hop in cs ==> cs[k].config.serverPublicKey != cs[config.hop].config.serverPublicKey)
  }

  /** What an operation that may install `config` keeps of the peers: each connection's is the configured
      one, if hops share no server and a rollback can restore the peer it has overwritten. */
  ghost predicate PeersKept(updates: bool, config: InterfaceConfig, cs: Connections, peers: Peers,
                            cs': Connections, peers': Peers)
  {
    var overwrites := config.hop in cs && cs[config.hop].config.serverPublicKey == config.serverPublicKey;
    AllPeered(cs, peers) && KeysApart(cs, config) && (updates || !overwrites) ==> AllPeered(cs', peers')
  }

  /** A completed switch keeps all connections peered if and only if no other hop uses either server. */
  lemma SwitchPeeredIff(cs: Connections, config: InterfaceConfig, peers: Peers)
    requires config.hop in cs && Filed(cs) && AllPeered(cs, peers)
    ensures AllPeered(cs[config.hop := Connection(config, None)], Replaced(peers, cs[config.hop].config, config))
            <==> KeysApart(cs, config)
  {
    var last, next := cs[config.hop].config, cs[config.hop := Connection(config, None)];
    var peers' := Replaced(peers, last, config);
    if AllPeered(next, peers') {
      forall k | k in cs && k != config.hop
        ensures cs[k].config.serverPublicKey != config.serverPublicKey
        ensures cs[k].config.serverPublicKey != last.serverPublicKey
      {
        assert next[k] == cs[k] && PeerIs(peers', next[k].config) && cs[k].config.hop == k;
      }
    }
  }

  /** Two hops on one server: when the exit leaves it, the entry's peer is gone. */
  lemma SharedServerDropped(entry: InterfaceConfig, exit: InterfaceConfig, config: InterfaceConfig)
    requires entry.hop == MultiHopEntry && exit.hop == config.hop == MultiHopExit
    requires entry.serverPublicKey == exit.serverPublicKey != config.serverPublicKey
    ensures entry.serverPublicKey !in Replaced(map[entry.serverPublicKey := entry], exit, config)
  {}

  /** However a switch ends, it keeps the peers. */
  lemma SwitchPeers(updates: bool, cs: Connections, config: InterfaceConfig, peers: Peers, peers': Peers,
                    outcome: SwitchOutcome)
    requires config.hop in cs && Filed(cs)
    requires outcome.RolledBack? ==> PeersAfterRollback(updates, peers, peers', cs[config.hop].config, config)
    requires outcome.Switched? ==> peers' == Replaced(peers, cs[config.hop].config, config)
    requires outcome.Stranded? ==>
               && cs[config.hop].config.serverPublicKey != config.serverPublicKey
               && peers' == peers[config.serverPublicKey := config]
    ensures PeersKept(updates, config, cs, peers,
                      if outcome.Switched? then cs[config.hop := Connection(config, None)] else cs, peers')
  {
    if AllPeered(cs, peers) && outcome.Switched? { SwitchPeeredIff(cs, config, peers); }
  }

  lemma ReplacedHasNew(peers: Peers, last: InterfaceConfig, config: InterfaceConfig)
    ensures PeerIs(Replaced(peers, last, config), config)
  {}

  /** An activation of a new hop touches no peer but its own server's. */
  lemma ActivationPeers(updates: bool, cs: Connections, config: InterfaceConfig, peers: Peers, peers': Peers, ok: bool)
    requires config.hop !in cs
    requires peers' == peers[config.serverPublicKey := config] || (peers' == peers && !ok)
    ensures PeersKept(updates, config, cs, peers, if ok then cs[config.hop := Connection(config, None)] else cs, peers')
  {}

  lemma PeersAfterDeactivation(updates: bool, config: InterfaceConfig, cs: Connections, peers: Peers, peers1: Peers,
                               cs': Connections, peers': Peers)
    ensures PeersKept(updates, config, cs, peers, map[], peers1)
    ensures PeersKept(updates, config, map[], peers1, cs', peers') ==>
              PeersKept(updates, config, cs, peers, cs', peers')
  {}

  lemma SamePeersKept(updates: bool, config: InterfaceConfig, cs: Connections, peers: Peers)
    ensures PeersKept(updates, config, cs, peers, cs, peers)
  {}

  /** What belongs to the interface itself and cannot be switched. */
  predicate SameInterface(a: InterfaceConfig, b: InterfaceConfig) {
    && a.privateKey == b.privateKey
    && (a.deviceIpv4, a.deviceIpv6) == (b.deviceIpv4, b.deviceIpv6)
    && (a.gatewayIpv4, a.gatewayIpv6) == (b.gatewayIpv4, b.gatewayIpv6)
  }

  /** Every connection has the interface its hop was last brought up with. */
  ghost predicate Matching(cs: Connections, broughtUp: map<Hop, InterfaceConfig>) {
    forall h :: h in cs ==> h in broughtUp && SameInterface(cs[h].config, broughtUp[h])
  }

  /** Every server belongs to one hop. */
  ghost predicate Owned(owner: map<string, Hop>, cs: Connections) {
    forall h :: h in cs ==> OwnedBy(owner, cs[h].config, h)
  }

  predicate OwnedBy(owner: map<string, Hop>, config: InterfaceConfig, h: Hop) {
    config.serverPublicKey in owner && owner[config.serverPublicKey] == h
  }

  lemma OwnedApart(owner: map<string, Hop>, cs: Connections, config: InterfaceConfig)
    requires Owned(owner, cs) && OwnedBy(owner, config, config.hop)
    ensures KeysApart(cs, config)
  {}

  /** What holds of the connections from before and of the new one holds of all. */
  lemma OldOrNewKeeps(cs: Connections, cs': Connections, config: InterfaceConfig, zones: map<Hop, set<Prefix>>,
                      owner: map<string, Hop>)
    requires OldOrNew(cs, cs', config)
    ensures PlainLists(cs) && AllPlain(config.excluded) ==> PlainLists(cs')
    ensures Zoned(zones, cs) && InZone(zones, config) ==> Zoned(zones, cs')
    ensures Owned(owner, cs) && OwnedBy(owner, config, config.hop) ==> Owned(owner, cs')
  {}

  lemma SameTotalKeeps(cs: Connections, cs': Connections, m: Counts)
    requires Total(cs) == Total(cs')
    ensures (Enough(m, cs) <==> Enough(m, cs')) && (Exact(m, cs) <==> Exact(m, cs'))
  {
    hide Total;
  }

  /** What depends on configurations only does not depend on dates. */
  lemma SameConfigsKeep(cs: Connections, cs': Connections, peers: Peers, zones: map<Hop, set<Prefix>>,
                        owner: map<string, Hop>, broughtUp: map<Hop, InterfaceConfig>)
    requires cs.Keys == cs'.Keys && forall h :: h in cs ==> cs'[h].config == cs[h].config
    ensures (PlainLists(cs) <==> PlainLists(cs')) && (Filed(cs) <==> Filed(cs'))
    ensures (Zoned(zones, cs) <==> Zoned(zones, cs')) && (Owned(owner, cs) <==> Owned(owner, cs'))
    ensures (AllPeered(cs, peers) <==> AllPeered(cs', peers)) && (Matching(cs, broughtUp) <==> Matching(cs', broughtUp))
    ensures cs == map[] <==> cs' == map[]
  {
    hide PeerIs, SameInterface, OwnedBy, AllPlain;
    assert cs == map[] <==> cs.Keys == {};
    assert cs' == map[] <==> cs'.Keys == {};
  }

  lemma SameConfigsSameRoutes(cs: Connections, cs': Connections)
    requires cs.Keys == cs'.Keys && forall h :: h in cs ==> cs'[h].config == cs[h].config
    ensures AllRoutes(cs') == AllRoutes(cs)
  {}

  /** A poll changes dates only, so it changes no accounting. */
  lemma SameConfigsSameTotal(cs: Connections, cs': Connections)
    requires cs.Keys == cs'.Keys && forall h :: h in cs ==> cs'[h].config == cs[h].config
    ensures Total(cs') == Total(cs)
  {
    assert forall h :: Share(cs', h) == Share(cs, h);
  }
}
