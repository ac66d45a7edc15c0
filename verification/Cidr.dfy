/** Subtracting address ranges: IPAddress::subnets and both forms of
    IPAddress::excludeAddresses (client/mozilla/shared/ipaddress.cpp). */
module Cidr {
  import opened Wrappers
  import opened Addresses

  /** No address bit is set below the prefix length. */
  predicate Normalized(p: Prefix)
    requires WellFormed(p)
  {
    Bits(p.host) % Pow2(Free(p)) == 0
  }

  predicate AllNormalized(ps: seq<Prefix>) {
    forall p :: p in ps ==> WellFormed(p) && Normalized(p)
  }

  predicate AllWellFormed(ps: seq<Prefix>) {
    forall p :: p in ps ==> WellFormed(p)
  }

  ghost predicate Covers(ps: seq<Prefix>, h: Host)
    requires AllWellFormed(ps)
  {
    exists p :: p in ps && Contains(p, h)
  }

  lemma CoversConcat(a: seq<Prefix>, b: seq<Prefix>, h: Host)
    requires AllWellFormed(a) && AllWellFormed(b)
    ensures Covers(a + b, h) <==> Covers(a, h) || Covers(b, h)
  {
    assert forall p :: p in a + b <==> p in a || p in b;
  }

  lemma CoversOne(p: Prefix, h: Host)
    requires WellFormed(p)
    ensures Covers([p], h) <==> Contains(p, h)
  {
    assert p in [p];
  }

  /** `bits | (1 << k)` */
  function SetBit(bits: nat, k: nat): nat {
    if (bits / Pow2(k)) % 2 == 0 then bits + Pow2(k) else bits
  }

  /** IPAddress::subnets for a prefix that can be halved. */
  function Halves(p: Prefix): (hs: (Prefix, Prefix))
    requires WellFormed(p) && p.length < Width(p.host)
    ensures WellFormed(hs.0) && WellFormed(hs.1)
    ensures hs.0.length == hs.1.length == p.length + 1
    ensures Width(hs.0.host) == Width(hs.1.host) == Width(p.host)
  {
    (Prefix(p.host, p.length + 1),
     Prefix(WithBits(p.host, SetBit(Bits(p.host), Free(p) - 1)), p.length + 1))
  }

  function Prepend(ps: seq<Prefix>, r: Option<seq<Prefix>>): Option<seq<Prefix>> {
    match r
    case None => None
    case Some(rest) => Some(ps + rest)
  }

  lemma PrependTwice(ps: seq<Prefix>, p: Prefix, r: Option<seq<Prefix>>)
    ensures Prepend(ps + [p], r) == Prepend(ps, Prepend([p], r))
    ensures Prepend([], r) == r
  {
    if r.Some? {
      assert ps + [p] + r.value == ps + ([p] + r.value);
      assert [] + r.value == r.value;
    }
  }

  /** IPAddress::excludeAddresses(ip). `None` is the dead end: either a single-element list of
      subnets is indexed at 1, or neither half holds `ip` and the loop cannot go on. */
  function Carve(p: Prefix, ip: Prefix): (r: Option<seq<Prefix>>)
    requires WellFormed(p) && WellFormed(ip)
    ensures r.Some? ==> AllWellFormed(r.value)
    decreases Width(p.host) - p.length
  {
    if p.length == Width(p.host) then None
    else
      var (lo, hi) := Halves(p);
      if lo == ip then Some([hi])
      else if hi == ip then Some([lo])
      else if SubnetOf(ip, lo) then Prepend([hi], Carve(lo, ip))
      else if SubnetOf(ip, hi) then Prepend([lo], Carve(hi, ip))
      else None
  }

  lemma QuotientUnique(x: int, d: int, q: int, r: int)
    requires d > 0 && x == q * d + r && 0 <= r < d
    ensures x / d == q && x % d == r
  {
    var q', r' := x / d, x % d;
    assert x == q' * d + r';
    if q < q' { AtLeastOneBlock(q' - q, d); } else if q > q' { AtLeastOneBlock(q - q', d); }
  }

  lemma AtLeastOneBlock(n: int, d: int)
    requires n >= 1 && d >= 0
    ensures n * d >= d
  {
    assert (n - 1) * d >= 0;
  }

  /** Halving a quotient is dividing by the doubled block. */
  lemma QuotientTwice(x: nat, h: nat)
    requires h > 0
    ensures x / (2 * h) == (x / h) / 2
    ensures x % (2 * h) == 0 ==> x % h == 0 && (x / h) % 2 == 0
  {
    var q, r := x / h, x % h;
    var q2, e := q / 2, q % 2;
    Regroup(q2, e, h, r);
    assert x == q * h + r;
    QuotientUnique(x, 2 * h, q2, e * h + r);
  }

  lemma Regroup(q: nat, e: nat, h: nat, r: nat)
    requires e < 2 && r < h
    ensures (2 * q + e) * h + r == q * (2 * h) + (e * h + r)
    ensures 0 <= e * h + r < 2 * h && (e * h + r == 0 ==> e == 0 && r == 0)
  {
    if e == 1 { assert e * h == h; }
  }

  /** One block further. */
  lemma QuotientNext(x: nat, h: nat)
    requires h > 0
    ensures (x + h) / h == x / h + 1 && (x + h) % h == x % h
  {
    var q, r := x / h, x % h;
    assert x == q * h + r;
    assert (q + 1) * h == q * h + h;
    QuotientUnique(x + h, h, q + 1, r);
  }

  /** The two halves of a normalized prefix are normalized and split it. */
  lemma HalvesSplit(p: Prefix, h: Host)
    requires WellFormed(p) && Normalized(p) && p.length < Width(p.host)
    ensures var (lo, hi) := Halves(p);
            && Normalized(lo) && Normalized(hi)
            && (Contains(p, h) <==> Contains(lo, h) || Contains(hi, h))
            && !(Contains(lo, h) && Contains(hi, h))
  {
    var half := Pow2(Free(p) - 1);
    assert Pow2(Free(p)) == 2 * half;
    QuotientTwice(Bits(p.host), half);
    QuotientNext(Bits(p.host), half);
    QuotientTwice(Bits(h), half);
    var (lo, hi) := Halves(p);
    assert Free(lo) == Free(hi) == Free(p) - 1;
  }

  /** Two normalized prefixes of equal length that share an address are the same prefix. */
  lemma SameBlock(p: Prefix, q: Prefix)
    requires WellFormed(p) && WellFormed(q) && Normalized(p) && Normalized(q)
    requires p.length == q.length && Contains(p, q.host)
    ensures p == q
  {
    var d := Pow2(Free(p));
    assert Bits(p.host) == Bits(p.host) / d * d;
    assert Bits(q.host) == Bits(q.host) / d * d;
  }

  /** Widening the free part keeps equality of quotients. */
  lemma {:induction false} CoarserQuotient(x: nat, y: nat, k: nat, m: nat)
    requires k <= m && x / Pow2(k) == y / Pow2(k)
    ensures x / Pow2(m) == y / Pow2(m)
    decreases m
  {
    if k < m {
      CoarserQuotient(x, y, k, m - 1);
      QuotientTwice(x, Pow2(m - 1));
      QuotientTwice(y, Pow2(m - 1));
    }
  }

  /** Containment goes down: what lies in a subnet lies in the outer prefix; and outside the
      outer prefix's block nothing of the subnet is found. */
  lemma SubnetInside(ip: Prefix, p: Prefix, h: Host)
    requires WellFormed(p) && WellFormed(ip) && SubnetOf(ip, p) && Contains(ip, h)
    ensures Contains(p, h)
  {
    CoarserQuotient(Bits(h), Bits(ip.host), Free(ip), Free(p));
  }

  /** A longer prefix that is not nested in a shorter one shares no address with it. */
  lemma NestedOrDisjoint(ip: Prefix, p: Prefix, h: Host)
    requires WellFormed(p) && WellFormed(ip) && p.length <= ip.length
    requires Contains(ip, h) && Contains(p, h)
    ensures SubnetOf(ip, p)
  {
    CoarserQuotient(Bits(h), Bits(ip.host), Free(ip), Free(p));
  }

  // ------------------------------------------------------------- bits

  function Bit(x: nat, k: nat): nat {
    (x / Pow2(k)) % 2
  }

  /** No bit of the outer prefix is set between its own length and `n`. */
  ghost predicate ClearUpTo(p: Prefix, n: int)
    requires WellFormed(p)
  {
    forall k: nat :: Width(p.host) - n <= k < Free(p) ==> Bit(Bits(p.host), k) == 0
  }

  lemma {:induction false} PowSplit(k: nat, f: nat)
    requires k < f
    ensures Pow2(f) == 2 * Pow2(f - k - 1) * Pow2(k)
    decreases f
  {
    if k < f - 1 {
      PowSplit(k, f - 1);
      var a, b := Pow2(f - 1 - k - 1), Pow2(k);
      assert Pow2(f - k - 1) == 2 * a;
      assert 2 * (2 * a) * b == 2 * (2 * a * b);
    } else {
      assert Pow2(0) == 1;
    }
  }

  /** Setting a higher bit leaves a lower one. */
  lemma HigherBit(x: nat, f: nat, k: nat)
    requires k < f
    ensures Bit(x + Pow2(f), k) == Bit(x, k)
  {
    hide Pow2;
    PowSplit(k, f);
    var d, n := Pow2(k), Pow2(f - k - 1);
    var q, r := x / d, x % d;
    assert x == q * d + r;
    assert (q + 2 * n) * d == q * d + 2 * n * d;
    QuotientUnique(x + Pow2(f), d, q + 2 * n, r);
  }

  /** The halves of any prefix: a proper split if the next bit is clear, twice the same otherwise. */
  lemma HalvesOfAny(p: Prefix, h: Host)
    requires WellFormed(p) && p.length < Width(p.host)
    ensures var (lo, hi) := Halves(p);
            if Bit(Bits(p.host), Free(p) - 1) == 0
            then (Contains(p, h) <==> Contains(lo, h) || Contains(hi, h)) && !(Contains(lo, h) && Contains(hi, h))
            else lo == hi
  {
    var half := Pow2(Free(p) - 1);
    assert Pow2(Free(p)) == 2 * half;
    QuotientTwice(Bits(p.host), half);
    QuotientNext(Bits(p.host), half);
    QuotientTwice(Bits(h), half);
    var (lo, hi) := Halves(p);
    assert Free(lo) == Free(hi) == Free(p) - 1;
  }

  lemma ClearInHalves(p: Prefix, n: int)
    requires WellFormed(p) && p.length < n <= Width(p.host)
    ensures var (lo, hi) := Halves(p);
            ClearUpTo(p, n) <==> Bit(Bits(p.host), Free(p) - 1) == 0 && ClearUpTo(lo, n) && ClearUpTo(hi, n)
    ensures var (lo, hi) := Halves(p);
            Bit(Bits(p.host), Free(p) - 1) == 0 ==> (ClearUpTo(lo, n) <==> ClearUpTo(hi, n))
  {
    hide Bit;
    var (lo, hi) := Halves(p);
    var f := Free(p) - 1;
    assert Free(lo) == Free(hi) == f;
    if SetBit(Bits(p.host), f) != Bits(p.host) {
      forall k: nat | k < f ensures Bit(Bits(hi.host), k) == Bit(Bits(p.host), k) { HigherBit(Bits(p.host), f, k); }
    }
  }

  // ------------------------------------------------------------- when the descent ends

  lemma BitOf(x: nat, f: nat)
    ensures x / Pow2(f) == 2 * (x / Pow2(f + 1)) + Bit(x, f)
  {
    QuotientTwice(x, Pow2(f));
  }

  /** A number is its leading part and the bits below. */
  lemma {:induction false} BitsDetermine(x: nat, y: nat, f: nat)
    requires x / Pow2(f) == y / Pow2(f) && forall k: nat :: k < f ==> Bit(x, k) == Bit(y, k)
    ensures x == y
  {
    if f == 0 {
      assert Pow2(0) == 1;
    } else {
      BitOf(x, f - 1);
      BitOf(y, f - 1);
      BitsDetermine(x, y, f - 1);
    }
  }

  lemma {:induction false} LowBitsZero(x: nat, f: nat)
    ensures x % Pow2(f) == 0 <==> forall k: nat :: k < f ==> Bit(x, k) == 0
  {
    if f == 0 {
      assert Pow2(0) == 1;
    } else {
      var h := Pow2(f - 1);
      LowBitsZero(x, f - 1);
      QuotientTwice(x, h);
      if x % h == 0 && Bit(x, f - 1) == 0 {
        var q := x / h / 2;
        assert x == (2 * q) * h == q * (2 * h);
        QuotientUnique(x, 2 * h, q, 0);
      }
    }
  }

  /** Below bit `f`, the two numbers agree, except that from bit `g` on the first may be clear. */
  ghost predicate Agrees(x: nat, y: nat, f: nat, g: nat) {
    forall k: nat :: k < f ==> Bit(x, k) == Bit(y, k) || (k >= g && Bit(x, k) == 0)
  }

  /** The descent only sets bits between the two lengths, so the excluded prefix must be got that way. */
  ghost predicate Reachable(p: Prefix, ip: Prefix)
    requires WellFormed(p) && WellFormed(ip)
  {
    SubnetOf(ip, p) && p.length < ip.length && Agrees(Bits(p.host), Bits(ip.host), Free(p), Free(ip))
  }

  lemma HalfInside(p: Prefix, h: Host)
    requires WellFormed(p) && p.length < Width(p.host)
    ensures var (lo, hi) := Halves(p);
            Contains(lo, h) || Contains(hi, h) ==> Contains(p, h)
  {
    hide Bit;
    HalvesOfAny(p, h);
    var (lo, hi) := Halves(p);
    if lo == hi && Contains(lo, h) { CoarserQuotient(Bits(h), Bits(p.host), Free(lo), Free(p)); }
  }

  /** A half keeps the bits below. */
  lemma HalfBits(p: Prefix, half: Prefix)
    requires WellFormed(p) && p.length < Width(p.host) && (half == Halves(p).0 || half == Halves(p).1)
    ensures forall k: nat :: k < Free(p) - 1 ==> Bit(Bits(half.host), k) == Bit(Bits(p.host), k)
  {
    hide Bit;
    var x, f := Bits(p.host), Free(p) - 1;
    if Bits(half.host) != x {
      forall k: nat | k < f ensures Bit(x + Pow2(f), k) == Bit(x, k) { HigherBit(x, f, k); }
    }
  }

  /** Going on in a half that holds the excluded prefix loses nothing. */
  lemma ReachHalf(p: Prefix, ip: Prefix, half: Prefix)
    requires WellFormed(p) && WellFormed(ip) && p.length < Width(p.host)
    requires half == Halves(p).0 || (half == Halves(p).1 && Bit(Bits(p.host), Free(p) - 1) == 0)
    requires SubnetOf(ip, half)
    ensures Reachable(p, ip) <==> half == ip || Reachable(half, ip)
  {
    var x, y, z, f, g := Bits(p.host), Bits(ip.host), Bits(half.host), Free(p) - 1, Free(ip);
    HalfInside(p, ip.host);
    HalfBits(p, half);
    assert Free(half) == f && z / Pow2(f) == y / Pow2(f) && Bit(z, f) == Bit(y, f) && g <= f;
    hide Bit, SubnetOf;
    AgreesBelow(x, y, f, g);
    assert Agrees(x, y, f, g) <==> Agrees(z, y, f, g);
    if g == f && Agrees(z, y, f, g) { BitsDetermine(z, y, f); }
  }

  lemma AgreesBelow(x: nat, y: nat, f: nat, g: nat)
    requires Bit(x, f) == Bit(y, f) || (f >= g && Bit(x, f) == 0)
    ensures Agrees(x, y, f + 1, g) <==> Agrees(x, y, f, g)
  {
    hide Bit;
  }

  /** An excluded prefix that can be reached lies in one of the halves. */
  lemma ReachedInHalf(p: Prefix, ip: Prefix)
    requires WellFormed(p) && WellFormed(ip) && p.length < Width(p.host) && Reachable(p, ip)
    ensures SubnetOf(ip, Halves(p).0) || SubnetOf(ip, Halves(p).1)
  {
    var x, y, f := Bits(p.host), Bits(ip.host), Free(p) - 1;
    BitOf(x, f);
    BitOf(y, f);
    QuotientNext(x, Pow2(f));
    assert Bit(x, f) == Bit(y, f) || Bit(x, f) == 0;
    assert Free(Halves(p).0) == Free(Halves(p).1) == f;
  }

  /** The exact condition under which excluding one prefix from another ends, for any two prefixes. */
  lemma {:induction false} CarveEndsIff(p: Prefix, ip: Prefix)
    requires WellFormed(p) && WellFormed(ip)
    ensures Carve(p, ip).Some? <==> Reachable(p, ip)
    decreases Width(p.host) - p.length
  {
    hide Bit, Contains, Agrees, Halves;
    if p.length < Width(p.host) {
      var (lo, hi) := Halves(p);
      HalvesOfAny(p, ip.host);
      InItself(ip);
      if lo == ip {
        ReachHalf(p, ip, lo);
      } else if hi == ip {
        ReachHalf(p, ip, hi);
      } else if SubnetOf(ip, lo) {
        CarveEndsIff(lo, ip);
        ReachHalf(p, ip, lo);
      } else if SubnetOf(ip, hi) {
        CarveEndsIff(hi, ip);
        ReachHalf(p, ip, hi);
      } else if Reachable(p, ip) {
        ReachedInHalf(p, ip);
      }
    }
  }

  lemma HostInside(p: Prefix)
    requires WellFormed(p)
    ensures Contains(p, p.host)
  {}

  lemma InItself(p: Prefix)
    requires WellFormed(p)
    ensures SubnetOf(p, p)
  {}

  /** A source without host bits: the descent ends if and only if the excluded subnet has none either. */
  lemma CarveEndsIffNormalized(p: Prefix, ip: Prefix)
    requires WellFormed(p) && WellFormed(ip) && Normalized(p)
    requires SubnetOf(ip, p) && ip != p
    ensures Carve(p, ip).Some? <==> Normalized(ip)
  {
    CarveEndsIff(p, ip);
    hide Bit, Carve;
    LowBitsZero(Bits(p.host), Free(p));
    LowBitsZero(Bits(ip.host), Free(ip));
    if p.length == ip.length && Normalized(ip) { SameBlock(p, ip); }
  }

  /** A witness of the dead end: 10.0.0.0/8 without 10.0.0.5/8. */
  lemma CarveDeadEnd()
    ensures var p, ip := Prefix(V4(0x0A000000), 8), Prefix(V4(0x0A000005), 8);
            SubnetOf(ip, p) && ip != p && Carve(p, ip).None?
  {
    var p, ip := Prefix(V4(0x0A000000), 8), Prefix(V4(0x0A000005), 8);
    assert Pow2(24) == 0x1000000 by {
      assert Pow2(8) == 256;
      assert Pow2(16) == 256 * Pow2(8);
    }
    CarveEndsIffNormalized(p, ip);
  }

  /** Another one, with no bit set in the excluded prefix: 10.64.0.0/8 without 10.0.0.0/10. */
  lemma SourceBitDeadEnd()
    ensures var p, ip := Prefix(V4(0x0A400000), 8), Prefix(V4(0x0A000000), 10);
            SubnetOf(ip, p) && Normalized(ip) && Carve(p, ip).None?
  {
    var p, ip := Prefix(V4(0x0A400000), 8), Prefix(V4(0x0A000000), 10);
    PowersNearTen();
    assert Bit(0x0A400000, 22) == 1 && Bit(0x0A000000, 22) == 0;
    CarveEndsIff(p, ip);
  }

  lemma PowersNearTen()
    ensures Pow2(22) == 0x400000 && Pow2(23) == 0x800000 && Pow2(24) == 0x1000000
  {
    assert Pow2(8) == 256;
    assert Pow2(16) == 256 * Pow2(8);
    assert Pow2(22) == 64 * Pow2(16);
  }

  /** What carving leaves: the pieces cover exactly the outer prefix without the excluded one,
      they are pairwise disjoint, normalized, and one per level between the two lengths. */
  lemma {:induction false} CarveMeaning(p: Prefix, ip: Prefix)
    requires WellFormed(p) && WellFormed(ip) && Normalized(p) && Normalized(ip)
    requires SubnetOf(ip, p) && ip != p
    ensures Carve(p, ip).Some?
    ensures var r := Carve(p, ip).value;
            && |r| == ip.length - p.length
            && AllNormalized(r)
            && (forall h :: Covers(r, h) <==> Contains(p, h) && !Contains(ip, h))
            && (forall i, j, h :: 0 <= i < j < |r| && Contains(r[i], h) ==> !Contains(r[j], h))
    decreases Width(p.host) - p.length
  {
    CarveEndsIffNormalized(p, ip);
    if p.length == ip.length { SameBlock(p, ip); }
    var (lo, hi) := Halves(p);
    forall h ensures (Contains(p, h) <==> Contains(lo, h) || Contains(hi, h))
                  && !(Contains(lo, h) && Contains(hi, h))
                  && Normalized(lo) && Normalized(hi) {
      HalvesSplit(p, h);
    }
    HalvesSplit(p, ip.host);
    if lo == ip { PeelOne(p, hi, lo, ip, []); }
    else if hi == ip { PeelOne(p, lo, hi, ip, []); }
    else if SubnetOf(ip, lo) {
      CarveMeaning(lo, ip);
      PeelOne(p, hi, lo, ip, Carve(lo, ip).value);
    } else {
      CarveMeaning(hi, ip);
      PeelOne(p, lo, hi, ip, Carve(hi, ip).value);
    }
  }

  /** One level of carving: keep the half without `ip`, go on in the other. */
  lemma PeelOne(p: Prefix, kept: Prefix, inner: Prefix, ip: Prefix, rest: seq<Prefix>)
    requires WellFormed(p) && WellFormed(kept) && WellFormed(inner) && WellFormed(ip)
    requires AllNormalized(rest) && Normalized(kept)
    requires inner.length <= ip.length && SubnetOf(ip, inner)
    requires forall h :: (Contains(p, h) <==> Contains(kept, h) || Contains(inner, h))
                      && !(Contains(kept, h) && Contains(inner, h))
    requires forall h :: Covers(rest, h) <==> Contains(inner, h) && !Contains(ip, h)
    requires forall i, j, h :: 0 <= i < j < |rest| && Contains(rest[i], h) ==> !Contains(rest[j], h)
    ensures var r := [kept] + rest;
            && AllNormalized(r)
            && (forall h :: Covers(r, h) <==> Contains(p, h) && !Contains(ip, h))
            && (forall i, j, h :: 0 <= i < j < |r| && Contains(r[i], h) ==> !Contains(r[j], h))
  {
    var r := [kept] + rest;
    forall h ensures Covers(r, h) <==> Contains(p, h) && !Contains(ip, h) {
      if Contains(ip, h) { SubnetInside(ip, inner, h); }
      if Covers(rest, h) {
        var q :| q in rest && Contains(q, h);
        assert q in r;
      }
      if Contains(kept, h) { assert kept in r; }
    }
    forall i, j, h | 0 <= i < j < |r| && Contains(r[i], h) ensures !Contains(r[j], h) {
      assert r[j] == rest[j - 1] && rest[j - 1] in rest;
      if i > 0 { assert r[i] == rest[i - 1]; }
    }
  }

  /** IPAddress::excludeAddresses(ip) as the source runs it: descend from half to half. */
  method ExcludeOne(p: Prefix, ip: Prefix) returns (r: Option<seq<Prefix>>)
    requires WellFormed(p) && WellFormed(ip)
    ensures r == Carve(p, ip)
  {
    var result: seq<Prefix> := [];
    var at := p;
    PrependTwice([], p, Carve(p, ip));
    while at.length < Width(at.host)
      invariant WellFormed(at)
      invariant Carve(p, ip) == Prepend(result, Carve(at, ip))
      decreases Width(at.host) - at.length
    {
      var (lo, hi) := Halves(at);
      if lo == ip || hi == ip {
        return Some(result + [if lo == ip then hi else lo]);
      }
      if SubnetOf(ip, lo) {
        PrependTwice(result, hi, Carve(lo, ip));
        result, at := result + [hi], lo;
      } else if SubnetOf(ip, hi) {
        PrependTwice(result, lo, Carve(hi, ip));
        result, at := result + [lo], hi;
      } else {
        return None;
      }
    }
    return None;
  }

  // ------------------------------------------------------------- what is left of any outer prefix

  /** The half the descent goes on in, or ends at, and the half it keeps. */
  function Onward(p: Prefix, ip: Prefix): (r: (Prefix, Prefix))
    requires WellFormed(p) && WellFormed(ip) && p.length < Width(p.host)
    ensures r == Halves(p) || r == (Halves(p).1, Halves(p).0)
  {
    var (lo, hi) := Halves(p);
    if lo == ip || (hi != ip && SubnetOf(ip, lo)) then (lo, hi) else (hi, lo)
  }

  /** One level of a descent that ends. */
  lemma CarveStep(p: Prefix, ip: Prefix)
    requires WellFormed(p) && WellFormed(ip) && Carve(p, ip).Some?
    ensures p.length < Width(p.host) == Width(ip.host) && p.length < ip.length
    ensures var (inner, kept) := Onward(p, ip);
            && (inner == ip || SubnetOf(ip, inner))
            && (if inner == ip then Carve(p, ip) == Some([kept])
                else Carve(inner, ip).Some? && Carve(p, ip) == Some([kept] + Carve(inner, ip).value))
  {
    hide Halves, Contains;
    var (lo, hi) := Halves(p);
    if lo == ip {
      assert Onward(p, ip) == (lo, hi);
    } else if hi == ip {
      assert Onward(p, ip) == (hi, lo);
    } else if SubnetOf(ip, lo) {
      assert Onward(p, ip) == (lo, hi);
    } else {
      assert SubnetOf(ip, hi) && Onward(p, ip) == (hi, lo);
    }
  }

  /** No piece reaches outside the outer prefix. */
  lemma {:induction false} CarveInside(p: Prefix, ip: Prefix, h: Host)
    requires WellFormed(p) && WellFormed(ip) && Carve(p, ip).Some? && Covers(Carve(p, ip).value, h)
    ensures Contains(p, h)
    decreases Width(p.host) - p.length
  {
    hide Carve, Halves, Contains, SubnetOf;
    CarveStep(p, ip);
    var (inner, kept) := Onward(p, ip);
    var rest := if inner == ip then [] else Carve(inner, ip).value;
    assert Carve(p, ip).value == [kept] + rest;
    CoversConcat([kept], rest, h);
    HalfInside(p, h);
    if Covers(rest, h) { CarveInside(inner, ip, h); }
  }

  /** For any outer prefix, host bits or not: if the descent ends, its pieces cover exactly the outer
      prefix without the excluded one if and only if no bit of the outer one is set between the two
      lengths. */
  lemma {:induction false} CarveCoversIff(p: Prefix, ip: Prefix)
    requires WellFormed(p) && WellFormed(ip) && Carve(p, ip).Some?
    ensures p.length < ip.length && (Leaves(Carve(p, ip).value, p, ip) <==> ClearUpTo(p, ip.length))
    ensures ClearUpTo(p, ip.length) || Covers(Carve(p, ip).value, ip.host)
    decreases Width(p.host) - p.length
  {
    hide Carve, Halves, Contains, Leaves, ClearUpTo, Bit, Onward, SubnetOf;
    CarveStep(p, ip);
    var (inner, kept) := Onward(p, ip);
    var rest := if inner == ip then [] else Carve(inner, ip).value;
    assert Carve(p, ip).value == [kept] + rest;
    assert SubnetOf(ip, inner) by { if inner == ip { InItself(ip); } }
    ClearInHalves(p, ip.length);
    if inner == ip {
      NothingBetween(ip);
      NothingLeft(ip);
    } else {
      CarveCoversIff(inner, ip);
    }
    forall h | Covers(rest, h) ensures Contains(inner, h) { CarveInside(inner, ip, h); }
    HalvesOfAny(p, ip.host);
    if Bit(Bits(p.host), Free(p) - 1) != 0 {
      KeptTwice(p, kept, ip, rest);
    } else {
      forall h
        ensures Contains(p, h) <==> Contains(kept, h) || Contains(inner, h)
        ensures !(Contains(kept, h) && Contains(inner, h))
      {
        HalvesOfAny(p, h);
      }
      KeepOne(p, kept, inner, ip, rest);
      CoversConcat([kept], rest, ip.host);
    }
  }

  lemma NothingLeft(p: Prefix)
    requires WellFormed(p)
    ensures Leaves([], p, p)
  {}

  /** Where both halves are the same, the one that is kept still holds the excluded range. */
  lemma KeptTwice(p: Prefix, kept: Prefix, ip: Prefix, rest: seq<Prefix>)
    requires WellFormed(p) && WellFormed(kept) && WellFormed(ip) && AllWellFormed(rest) && SubnetOf(ip, kept)
    ensures !Leaves([kept] + rest, p, ip) && Covers([kept] + rest, ip.host)
  {
    assert kept in [kept] + rest && Contains(kept, ip.host);
    assert Covers([kept] + rest, ip.host) && Contains(ip, ip.host);
  }

  /** The pieces cover exactly the outer prefix without the excluded one. */
  ghost predicate Leaves(ps: seq<Prefix>, p: Prefix, ip: Prefix)
    requires AllWellFormed(ps) && WellFormed(p) && WellFormed(ip)
  {
    forall h :: Covers(ps, h) <==> Contains(p, h) && !Contains(ip, h)
  }

  lemma NothingBetween(p: Prefix)
    requires WellFormed(p)
    ensures ClearUpTo(p, p.length)
  {}

  lemma KeepOne(p: Prefix, kept: Prefix, inner: Prefix, ip: Prefix, rest: seq<Prefix>)
    requires WellFormed(p) && WellFormed(kept) && WellFormed(inner) && WellFormed(ip) && AllWellFormed(rest)
    requires SubnetOf(ip, inner)
    requires forall h :: (Contains(p, h) <==> Contains(kept, h) || Contains(inner, h))
                      && !(Contains(kept, h) && Contains(inner, h))
    requires forall h :: Covers(rest, h) ==> Contains(inner, h)
    ensures Leaves([kept] + rest, p, ip) <==> Leaves(rest, inner, ip)
  {
    forall h ensures Covers([kept] + rest, h) <==> Contains(kept, h) || Covers(rest, h) {
      CoversConcat([kept], rest, h);
      assert kept in [kept];
    }
    forall h | Contains(ip, h) ensures Contains(inner, h) { SubnetInside(ip, inner, h); }
    if Leaves([kept] + rest, p, ip) {
      forall h ensures Covers(rest, h) <==> Contains(inner, h) && !Contains(ip, h) {
        assert Covers([kept] + rest, h) <==> Contains(p, h) && !Contains(ip, h);
      }
    }
  }

  /** A source with a host bit set: 10.64.0.0/8 without 10.64.0.0/10 keeps the excluded range. */
  lemma SourceBitKeepsExcluded()
    ensures var p, ip := Prefix(V4(0x0A400000), 8), Prefix(V4(0x0A400000), 10);
            SubnetOf(ip, p) && Carve(p, ip).Some? && ip in Carve(p, ip).value && !Leaves(Carve(p, ip).value, p, ip)
  {
    var p, ip := Prefix(V4(0x0A400000), 8), Prefix(V4(0x0A400000), 10);
    PowersNearTen();
    var (lo, hi) := Halves(p);
    assert lo == Prefix(V4(0x0A400000), 9) && hi == Prefix(V4(0x0AC00000), 9);
    var (lo2, hi2) := Halves(lo);
    assert lo2 == ip && hi2 == ip;
    assert Carve(lo, ip) == Some([ip]);
    assert Carve(p, ip) == Some([hi] + [ip]);
    assert ip in Carve(p, ip).value && Contains(ip, ip.host);
  }
}
