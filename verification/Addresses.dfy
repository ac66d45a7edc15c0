/** Hosts, prefixes and the textual addresses of client/mozilla/shared/ipaddress.cpp. */
module Addresses {

  /** A QHostAddress: `NullHost` is what Qt yields for text it cannot parse. The bits of a real address
      lie below 2^32 or 2^128; nothing here depends on it unless it is said. */
  datatype Host = NullHost | V4(bits: nat) | V6(bits: nat)

  datatype Prefix = Prefix(host: Host, length: int)

  /** An address as it stands in a configuration: with or without a "/length" part.
      `HostText(NullHost)` and `SubnetText(NullHost, _)` stand for text that does not parse. */
  datatype AddressText = HostText(host: Host) | SubnetText(host: Host, length: nat)

  function Pow2(k: nat): (r: nat)
    ensures r > 0
  {
    if k == 0 then 1 else 2 * Pow2(k - 1)
  }

  function Width(h: Host): nat {
    match h
    case NullHost => 0
    case V4(_) => 32
    case V6(_) => 128
  }

  function Bits(h: Host): nat {
    if h.NullHost? then 0 else h.bits
  }

  function WithBits(h: Host, bits: nat): Host {
    match h
    case NullHost => NullHost
    case V4(_) => V4(bits)
    case V6(_) => V6(bits)
  }

  predicate SameFamily(a: Host, b: Host) {
    (a.NullHost? && b.NullHost?) || (a.V4? && b.V4?) || (a.V6? && b.V6?)
  }

  /** A prefix of a real family with a length that fits it. */
  predicate WellFormed(p: Prefix) {
    !p.host.NullHost? && 0 <= p.length <= Width(p.host)
  }

  /** The number of address bits a prefix leaves free. */
  function Free(p: Prefix): nat
    requires WellFormed(p)
  {
    Width(p.host) - p.length
  }

  /** IPAddress::contains: the exclusive or of the two addresses, shifted right by the free
      bits, is zero exactly when the two quotients agree. */
  predicate Contains(p: Prefix, h: Host)
    requires WellFormed(p)
  {
    SameFamily(p.host, h) && Bits(h) / Pow2(Free(p)) == Bits(p.host) / Pow2(Free(p))
  }

  predicate SubnetOf(p: Prefix, other: Prefix)
    requires WellFormed(p) && WellFormed(other)
  {
    SameFamily(p.host, other.host) && other.length <= p.length && Contains(other, p.host)
  }

  /** IPAddress::overlaps */
  predicate Overlaps(p: Prefix, other: Prefix)
    requires WellFormed(p) && WellFormed(other)
  {
    if p.length < other.length then Contains(p, other.host) else Contains(other, p.host)
  }

  function RoundDown(x: nat, d: nat): nat
    requires d > 0
  {
    x / d * d
  }

  /** The host with its free bits cleared, as QHostAddress::parseSubnet returns it. */
  function Network(h: Host, length: nat): Host
    requires length <= Width(h)
  {
    WithBits(h, RoundDown(Bits(h), Pow2(Width(h) - length)))
  }

  /** IPAddress(const QString&): the key under which exclusion routes are added and rolled back. */
  function KeyByText(t: AddressText): Prefix {
    match t
    case HostText(h) => Prefix(h, if h.NullHost? then 999999 else Width(h))
    case SubnetText(h, n) =>
      if h.NullHost? || n > Width(h) then Prefix(NullHost, -1) else Prefix(Network(h, n), n)
  }

  /** The key of a host address that is none, in a release build. */
  const StrayKey := Prefix(NullHost, 128)

  /** IPAddress(const QHostAddress&) applied to QHostAddress(text): the key under which a server
      switch removes the old list. Text with a "/" is not a host address. */
  function KeyByHost(t: AddressText): Prefix {
    match t
    case HostText(V4(b)) => Prefix(V4(b), 32)
    case HostText(V6(b)) => Prefix(V6(b), 128)
    case _ => StrayKey
  }

  predicate PlainHost(t: AddressText) {
    t.HostText? && !t.host.NullHost?
  }

  lemma KeysAgreeOnlyOnPlainHosts(t: AddressText)
    ensures KeyByText(t) == KeyByHost(t) <==> PlainHost(t)
    // No address text ever adds a route under the key a mismatched removal uses.
    ensures !PlainHost(t) ==> KeyByHost(t) == Prefix(NullHost, 128) && forall u :: KeyByText(u) != KeyByHost(t)
    // Text that does not parse is added under a length no prefix has.
    ensures t.host.NullHost? ==> KeyByText(t) == Prefix(NullHost, if t.HostText? then 999999 else -1)
  {
    match t
    case HostText(h) =>
    case SubnetText(h, n) =>
  }

  function TextKeys(ts: seq<AddressText>): (ks: seq<Prefix>)
    ensures |ks| == |ts|
    ensures forall i :: 0 <= i < |ts| ==> ks[i] == KeyByText(ts[i])
  {
    seq(|ts|, i requires 0 <= i < |ts| => KeyByText(ts[i]))
  }

  function HostKeys(ts: seq<AddressText>): (ks: seq<Prefix>)
    ensures |ks| == |ts|
    ensures forall i :: 0 <= i < |ts| ==> ks[i] == KeyByHost(ts[i])
  {
    seq(|ts|, i requires 0 <= i < |ts| => KeyByHost(ts[i]))
  }
}
