/** Polling for handshakes: what Daemon::checkHandshake makes of a list of peer statuses. */
module Handshakes {
  import opened Wrappers
  import opened WireguardUtils
  import opened Ledger

  predicate PendingAt(cs: Connections, h: Hop) {
    h in cs && cs[h].date.None?
  }

  ghost predicate Pending(cs: Connections) {
    exists h :: PendingAt(cs, h)
  }

  /** The completed handshakes a poll reports for a server. */
  function Hits(statuses: seq<PeerStatus>, key: string): seq<int> {
    if statuses == [] then []
    else
      var last := statuses[|statuses| - 1];
      Hits(statuses[..|statuses| - 1], key) + if last.pubkey == key && last.handshake != 0 then [last.handshake] else []
  }

  function Settled(c: Connection, statuses: seq<PeerStatus>): (r: Connection)
    ensures r.config == c.config
  {
    var hits := Hits(statuses, c.config.serverPublicKey);
    if c.date.Some? || hits == [] then c else c.(date := Some(hits[|hits| - 1]))
  }

  function SettledAt(cs: Connections, h: Hop, statuses: seq<PeerStatus>): Connections {
    if h in cs then cs[h := Settled(cs[h], statuses)] else cs
  }

  lemma SettledHopByHop(cs: Connections, statuses: seq<PeerStatus>)
    ensures SettledAt(SettledAt(SettledAt(cs, SingleHop, statuses), MultiHopEntry, statuses), MultiHopExit, statuses)
            == map h | h in cs :: Settled(cs[h], statuses)
  {
    var cs1 := SettledAt(SettledAt(cs, SingleHop, statuses), MultiHopEntry, statuses);
    var cs' := SettledAt(cs1, MultiHopExit, statuses);
    forall h: Hop ensures h in cs' <==> h in cs
                  ensures h in cs ==> cs'[h] == Settled(cs[h], statuses)
    {
      match h case SingleHop => case MultiHopEntry => case MultiHopExit =>
    }
  }

  /** The signals a poll emits for one hop: its server, once per completed handshake reported. */
  function Announces(cs: Connections, h: Hop, statuses: seq<PeerStatus>): seq<string> {
    if h in cs && cs[h].date.None? then
      seq(|Hits(statuses, cs[h].config.serverPublicKey)|, _ => cs[h].config.serverPublicKey)
    else []
  }

  lemma AnnouncesHopByHop(cs: Connections, statuses: seq<PeerStatus>)
    ensures var cs1 := SettledAt(cs, SingleHop, statuses);
            && Announces(cs1, MultiHopEntry, statuses) == Announces(cs, MultiHopEntry, statuses)
            && Announces(SettledAt(cs1, MultiHopEntry, statuses), MultiHopExit, statuses)
              == Announces(cs, MultiHopExit, statuses)
  {}

  lemma PendingHopByHop(cs: Connections)
    ensures Pending(cs) <==> PendingAt(cs, SingleHop) || PendingAt(cs, MultiHopEntry) || PendingAt(cs, MultiHopExit)
  {
    if h :| PendingAt(cs, h) {
      match h case SingleHop => case MultiHopEntry => case MultiHopExit =>
    }
  }

  /** A connection that was just installed has no handshake yet. */
  lemma NewConnectionWaits(cs: Connections, config: InterfaceConfig)
    ensures Pending(cs[config.hop := Connection(config, None)])
  {
    assert PendingAt(cs[config.hop := Connection(config, None)], config.hop);
  }

  ghost predicate DistinctPeers(statuses: seq<PeerStatus>) {
    forall i, j :: 0 <= i < j < |statuses| ==> statuses[i].pubkey != statuses[j].pubkey
  }

  lemma {:induction false} AtMostOneHit(statuses: seq<PeerStatus>, key: string)
    requires DistinctPeers(statuses)
    ensures |Hits(statuses, key)| <= 1
    ensures |Hits(statuses, key)| == 1 ==> exists i :: 0 <= i < |statuses| && statuses[i].pubkey == key
  {
    if statuses != [] { AtMostOneHit(statuses[..|statuses| - 1], key); }
  }

  /** A connection was announced once if its date is known, and not at all otherwise. */
  ghost predicate OncePerDate(announcements: map<Hop, nat>, cs: Connections) {
    forall h :: h in cs ==> h in announcements && announcements[h] == if cs[h].date.Some? then 1 else 0
  }
}
