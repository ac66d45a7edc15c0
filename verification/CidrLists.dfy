/** The list form of IPAddress::excludeAddresses (client/mozilla/shared/ipaddress.cpp): every excluded
    range is taken in its turn out of all pieces that are left. */
module CidrLists {
  import opened Wrappers
  import opened Addresses
  import opened Cidr

  /** One step of the list form: what is left of `p` once `ex` is excluded. */
  function Remainder(p: Prefix, ex: Prefix): (r: Option<seq<Prefix>>)
    requires WellFormed(p) && WellFormed(ex)
    ensures r.Some? ==> AllWellFormed(r.value)
  {
    if !Overlaps(p, ex) then Some([p])
    else if SubnetOf(ex, p) && ex != p then Carve(p, ex)
    else Some([])
  }

  /** Excluding `ex` from `p` does not fail. */
  ghost predicate Yields(p: Prefix, ex: Prefix)
    requires WellFormed(p) && WellFormed(ex)
  {
    !SubnetOf(ex, p) || ex == p || Reachable(p, ex)
  }

  /** Excluding `ex` from `p` takes the right addresses away. */
  ghost predicate Straight(p: Prefix, ex: Prefix)
    requires WellFormed(p) && WellFormed(ex)
  {
    SubnetOf(ex, p) && ex != p ==> ClearUpTo(p, ex.length)
  }

  /** Sources without host bits: excluding fails exactly when the excluded range lies inside with host
      bits set, and is always straight. */
  lemma NormalizedYields(p: Prefix, ex: Prefix)
    requires WellFormed(p) && WellFormed(ex) && Normalized(p)
    ensures Yields(p, ex) <==> Normalized(ex) || !SubnetOf(ex, p) || ex == p
    ensures Straight(p, ex)
  {
    if SubnetOf(ex, p) && ex != p {
      CarveEndsIff(p, ex);
      CarveEndsIffNormalized(p, ex);
    }
    hide Bit;
    LowBitsZero(Bits(p.host), Free(p));
  }

  /** One step of the list form fails exactly where excluding does. */
  lemma RemainderEnds(p: Prefix, ex: Prefix)
    requires WellFormed(p) && WellFormed(ex)
    ensures Remainder(p, ex).Some? <==> Yields(p, ex)
  {
    if SubnetOf(ex, p) && ex != p { CarveEndsIff(p, ex); }
  }

  /** If it does not fail, what is left covers exactly the addresses of `p` outside the excluded range if
      and only if the step is straight; otherwise the excluded range is still there. */
  lemma RemainderMeaning(p: Prefix, ex: Prefix)
    requires WellFormed(p) && WellFormed(ex) && Remainder(p, ex).Some?
    ensures Leaves(Remainder(p, ex).value, p, ex) <==> Straight(p, ex)
    ensures Straight(p, ex) || Covers(Remainder(p, ex).value, ex.host)
    ensures Normalized(p) ==> AllNormalized(Remainder(p, ex).value)
  {
    hide ClearUpTo, Carve;
    if Overlaps(p, ex) && SubnetOf(ex, p) && ex != p {
      CarveCoversIff(p, ex);
      if Normalized(p) {
        CarveEndsIffNormalized(p, ex);
        CarveMeaning(p, ex);
      }
    } else {
      WholeOrNothing(p, ex);
    }
  }

  lemma WholeOrNothing(p: Prefix, ex: Prefix)
    requires WellFormed(p) && WellFormed(ex) && !(SubnetOf(ex, p) && ex != p)
    ensures Leaves(if Overlaps(p, ex) then [] else [p], p, ex)
  {
    var r := if Overlaps(p, ex) then [] else [p];
    forall h ensures Covers(r, h) <==> Contains(p, h) && !Contains(ex, h) {
      if Overlaps(p, ex) {
        if Contains(p, h) { SubnetInside(p, ex, h); }
      } else {
        assert p in [p];
        if Contains(p, h) && Contains(ex, h) { SharedOverlaps(p, ex, h); }
      }
    }
  }

  /** Two ranges overlap if and only if they share an address, the host of the longer one. */
  lemma SharedOverlaps(p: Prefix, q: Prefix, h: Host)
    requires WellFormed(p) && WellFormed(q) && Contains(p, h) && Contains(q, h)
    ensures Overlaps(p, q)
  {
    if p.length < q.length { NestedOrDisjoint(q, p, h); } else { NestedOrDisjoint(p, q, h); }
  }

  function ExcludeFromEach(ps: seq<Prefix>, ex: Prefix): (r: Option<seq<Prefix>>)
    requires WellFormed(ex) && AllWellFormed(ps)
    ensures r.Some? ==> AllWellFormed(r.value)
  {
    if ps == [] then Some([])
    else
      match ExcludeFromEach(ps[..|ps| - 1], ex)
      case None => None
      case Some(done) => Prepend(done, Remainder(ps[|ps| - 1], ex))
  }

  /** The pieces of a list are the pieces of its ranges. */
  lemma {:induction false} PiecesOfEach(ps: seq<Prefix>, ex: Prefix)
    requires WellFormed(ex) && AllWellFormed(ps)
    ensures ExcludeFromEach(ps, ex).Some? <==> forall p :: p in ps ==> Remainder(p, ex).Some?
    ensures ExcludeFromEach(ps, ex).Some? ==>
              forall q :: q in ExcludeFromEach(ps, ex).value <==> exists p :: p in ps && q in Remainder(p, ex).value
  {
    hide Remainder;
    if ps != [] {
      var front, last := ps[..|ps| - 1], ps[|ps| - 1];
      PiecesOfEach(front, ex);
      assert forall p :: p in ps <==> p in front || p == last;
    }
  }

  /** The list covers exactly the addresses of `ps` that `ex` does not. */
  ghost predicate LeavesOfAll(r: seq<Prefix>, ps: seq<Prefix>, ex: Prefix)
    requires AllWellFormed(r) && AllWellFormed(ps) && WellFormed(ex)
  {
    forall h :: Covers(r, h) <==> Covers(ps, h) && !Contains(ex, h)
  }

  /** One turn, over any list of ranges. */
  lemma ExcludeFromEachMeaning(ps: seq<Prefix>, ex: Prefix)
    requires AllWellFormed(ps) && WellFormed(ex)
    ensures ExcludeFromEach(ps, ex).Some? <==> forall p :: p in ps ==> Yields(p, ex)
    ensures ExcludeFromEach(ps, ex).Some? ==>
              (LeavesOfAll(ExcludeFromEach(ps, ex).value, ps, ex) <==> forall p :: p in ps ==> Straight(p, ex))
    ensures ExcludeFromEach(ps, ex).Some? && AllNormalized(ps) ==> AllNormalized(ExcludeFromEach(ps, ex).value)
  {
    hide Remainder, Yields, Straight, ExcludeFromEach, Normalized;
    PiecesOfEach(ps, ex);
    forall p | p in ps ensures Remainder(p, ex).Some? <==> Yields(p, ex) { RemainderEnds(p, ex); }
    if ExcludeFromEach(ps, ex).Some? {
      var r := ExcludeFromEach(ps, ex).value;
      forall p | p in ps
        ensures Leaves(Remainder(p, ex).value, p, ex) <==> Straight(p, ex)
        ensures Straight(p, ex) || Covers(Remainder(p, ex).value, ex.host)
        ensures Normalized(p) ==> AllNormalized(Remainder(p, ex).value)
      {
        RemainderMeaning(p, ex);
      }
      TurnCovers(ps, ex, r);
    }
  }

  lemma TurnCovers(ps: seq<Prefix>, ex: Prefix, r: seq<Prefix>)
    requires AllWellFormed(ps) && WellFormed(ex) && AllWellFormed(r)
    requires forall p :: p in ps ==> Remainder(p, ex).Some?
    requires forall q :: q in r <==> exists p :: p in ps && q in Remainder(p, ex).value
    requires forall p :: p in ps ==> (Leaves(Remainder(p, ex).value, p, ex) <==> Straight(p, ex))
    requires forall p :: p in ps ==> Straight(p, ex) || Covers(Remainder(p, ex).value, ex.host)
    ensures LeavesOfAll(r, ps, ex) <==> forall p :: p in ps ==> Straight(p, ex)
  {
    hide Remainder, Straight, Contains;
    forall h ensures Covers(r, h) <==> exists p :: p in ps && Covers(Remainder(p, ex).value, h) {
      if Covers(r, h) {
        var q :| q in r && Contains(q, h);
        var p :| p in ps && q in Remainder(p, ex).value;
        assert Covers(Remainder(p, ex).value, h);
      }
      if p :| p in ps && Covers(Remainder(p, ex).value, h) {
        var q :| q in Remainder(p, ex).value && Contains(q, h);
        assert q in r;
      }
    }
    if p :| p in ps && !Straight(p, ex) {
      assert Covers(r, ex.host);
      assert Contains(ex, ex.host) by { InItself(ex); HostInside(ex); }
      assert !LeavesOfAll(r, ps, ex);
    } else {
      forall h ensures Covers(r, h) <==> Covers(ps, h) && !Contains(ex, h) {
        assert forall p :: p in ps ==> (Covers(Remainder(p, ex).value, h) <==> Contains(p, h) && !Contains(ex, h));
      }
    }
  }

  /** The whole list form. */
  function ExcludeEach(sources: seq<Prefix>, excludes: seq<Prefix>): (r: Option<seq<Prefix>>)
    requires AllWellFormed(sources) && AllWellFormed(excludes)
    ensures r.Some? ==> AllWellFormed(r.value)
  {
    if excludes == [] then Some(sources)
    else
      match ExcludeEach(sources, excludes[..|excludes| - 1])
      case None => None
      case Some(left) => ExcludeFromEach(left, excludes[|excludes| - 1])
  }

  /** When its turn comes, the excluded range can be excluded from every piece that is left... */
  ghost predicate TurnsOut(sources: seq<Prefix>, excludes: seq<Prefix>, n: nat)
    requires AllWellFormed(sources) && AllWellFormed(excludes) && n < |excludes|
  {
    assert excludes[n] in excludes && AllWellFormed(excludes[..n]);
    var left := ExcludeEach(sources, excludes[..n]);
    left.Some? ==> forall p :: p in left.value ==> Yields(p, excludes[n])
  }

  /** ... and this takes the right addresses away. */
  ghost predicate TurnsStraight(sources: seq<Prefix>, excludes: seq<Prefix>, n: nat)
    requires AllWellFormed(sources) && AllWellFormed(excludes) && n < |excludes|
  {
    assert excludes[n] in excludes && AllWellFormed(excludes[..n]);
    var left := ExcludeEach(sources, excludes[..n]);
    left.Some? ==> forall p :: p in left.value ==> Straight(p, excludes[n])
  }

  /** After `n` turns the pieces cover the sources without what was excluded. */
  ghost predicate RightAfter(sources: seq<Prefix>, excludes: seq<Prefix>, n: nat)
    requires AllWellFormed(sources) && AllWellFormed(excludes) && n <= |excludes|
  {
    assert AllWellFormed(excludes[..n]);
    var left := ExcludeEach(sources, excludes[..n]);
    left.Some? ==> forall h :: Covers(left.value, h) <==> Covers(sources, h) && !Covers(excludes[..n], h)
  }

  /** From any sources and any excluded ranges: the list form ends if and only if every turn works out,
      and then the pieces are right after every turn if and only if every turn is straight. */
  lemma {:induction false} ExcludeEachMeaning(sources: seq<Prefix>, excludes: seq<Prefix>)
    requires AllWellFormed(sources) && AllWellFormed(excludes)
    ensures ExcludeEach(sources, excludes).Some? <==> forall n :: 0 <= n < |excludes| ==> TurnsOut(sources, excludes, n)
    ensures ExcludeEach(sources, excludes).Some? ==>
              ((forall n :: 0 <= n <= |excludes| ==> RightAfter(sources, excludes, n))
               <==> forall n :: 0 <= n < |excludes| ==> TurnsStraight(sources, excludes, n))
    ensures ExcludeEach(sources, excludes).Some? && AllNormalized(sources) ==>
              AllNormalized(ExcludeEach(sources, excludes).value)
  {
    hide Yields, Straight, Covers, Normalized, ExcludeFromEach, TurnsOut, TurnsStraight, RightAfter, LeavesOfAll;
    if excludes == [] {
      NothingExcludedYet(sources, excludes);
    } else {
      var front, last := excludes[..|excludes| - 1], excludes[|excludes| - 1];
      assert last in excludes;
      ExcludeEachMeaning(sources, front);
      SameTurns(sources, excludes, front);
      if ExcludeEach(sources, front).Some? {
        var left := ExcludeEach(sources, front).value;
        ExcludeFromEachMeaning(left, last);
        TurnAt(sources, excludes, left);
        if ExcludeEach(sources, excludes).Some? { LastTurn(sources, excludes, left); }
      }
      OneTurnMore(sources, excludes);
    }
  }

  lemma TurnAt(sources: seq<Prefix>, excludes: seq<Prefix>, left: seq<Prefix>)
    requires AllWellFormed(sources) && AllWellFormed(excludes) && excludes != [] && AllWellFormed(left)
    requires AllWellFormed(excludes[..|excludes| - 1]) && ExcludeEach(sources, excludes[..|excludes| - 1]) == Some(left)
    requires WellFormed(excludes[|excludes| - 1])
    ensures var n, ex := |excludes| - 1, excludes[|excludes| - 1];
            && (TurnsOut(sources, excludes, n) <==> forall p :: p in left ==> Yields(p, ex))
            && (TurnsStraight(sources, excludes, n) <==> forall p :: p in left ==> Straight(p, ex))
  {
    hide Yields, Straight, ExcludeEach;
  }

  lemma OneTurnMore(sources: seq<Prefix>, excludes: seq<Prefix>)
    requires AllWellFormed(sources) && AllWellFormed(excludes) && excludes != []
    ensures var last := |excludes| - 1;
            && ((forall n :: 0 <= n < |excludes| ==> TurnsOut(sources, excludes, n))
                <==> (forall n :: 0 <= n < last ==> TurnsOut(sources, excludes, n))
                     && TurnsOut(sources, excludes, last))
            && ((forall n :: 0 <= n < |excludes| ==> TurnsStraight(sources, excludes, n))
                <==> (forall n :: 0 <= n < last ==> TurnsStraight(sources, excludes, n))
                     && TurnsStraight(sources, excludes, last))
            && ((forall n :: 0 <= n <= |excludes| ==> RightAfter(sources, excludes, n))
                <==> (forall n :: 0 <= n <= last ==> RightAfter(sources, excludes, n))
                     && RightAfter(sources, excludes, |excludes|))
  {
    hide TurnsOut, TurnsStraight, RightAfter;
  }

  lemma NothingExcludedYet(sources: seq<Prefix>, excludes: seq<Prefix>)
    requires AllWellFormed(sources) && AllWellFormed(excludes)
    ensures RightAfter(sources, excludes, 0)
  {}

  lemma SameTurns(sources: seq<Prefix>, excludes: seq<Prefix>, front: seq<Prefix>)
    requires AllWellFormed(sources) && AllWellFormed(excludes) && AllWellFormed(front) && front <= excludes
    ensures forall n :: 0 <= n < |front| ==> (TurnsOut(sources, front, n) <==> TurnsOut(sources, excludes, n))
    ensures forall n :: 0 <= n < |front| ==> (TurnsStraight(sources, front, n) <==> TurnsStraight(sources, excludes, n))
    ensures forall n :: 0 <= n <= |front| ==> (RightAfter(sources, front, n) <==> RightAfter(sources, excludes, n))
  {
    hide Yields, Straight, Covers, ExcludeEach;
    forall n | 0 <= n <= |front|
      ensures n < |front| ==> (TurnsOut(sources, front, n) <==> TurnsOut(sources, excludes, n))
      ensures n < |front| ==> (TurnsStraight(sources, front, n) <==> TurnsStraight(sources, excludes, n))
      ensures RightAfter(sources, front, n) <==> RightAfter(sources, excludes, n)
    {
      assert front[..n] == excludes[..n];
    }
  }

  /** From right pieces, the pieces after the last turn are right if and only if it takes away the last
      excluded range and nothing else. */
  lemma LastTurn(sources: seq<Prefix>, excludes: seq<Prefix>, left: seq<Prefix>)
    requires AllWellFormed(sources) && AllWellFormed(excludes) && excludes != [] && AllWellFormed(left)
    requires AllWellFormed(excludes[..|excludes| - 1]) && ExcludeEach(sources, excludes[..|excludes| - 1]) == Some(left)
    requires ExcludeEach(sources, excludes).Some? && WellFormed(excludes[|excludes| - 1])
    ensures RightAfter(sources, excludes, |excludes| - 1) ==>
              (RightAfter(sources, excludes, |excludes|)
               <==> LeavesOfAll(ExcludeEach(sources, excludes).value, left, excludes[|excludes| - 1]))
  {
    hide Covers, Contains, ExcludeEach;
    var n, ex := |excludes| - 1, excludes[|excludes| - 1];
    assert excludes[..n + 1] == excludes;
    forall h ensures Covers(excludes, h) <==> Covers(excludes[..n], h) || Contains(ex, h) {
      assert excludes == excludes[..n] + [ex];
      CoversConcat(excludes[..n], [ex], h);
      CoversOne(ex, h);
    }
  }

  // ------------------------------------------------------------- lists without host bits

  /** Every piece is half of a prefix that holds the excluded one. */
  lemma {:induction false} CarvePieces(p: Prefix, ip: Prefix)
    requires WellFormed(p) && WellFormed(ip) && SubnetOf(ip, p) && Carve(p, ip).Some?
    ensures forall q :: q in Carve(p, ip).value ==>
              p.length < q.length && SubnetOf(ip, Prefix(q.host, q.length - 1))
    decreases Width(p.host) - p.length
  {
    hide Carve, Halves, Contains, SubnetOf;
    CarveStep(p, ip);
    var (inner, kept) := Onward(p, ip);
    if inner != ip { CarvePieces(inner, ip); }
    HalfOf(p, ip, kept);
  }

  lemma HalfOf(p: Prefix, ip: Prefix, half: Prefix)
    requires WellFormed(p) && WellFormed(ip) && SubnetOf(ip, p) && p.length < Width(p.host) && p.length < ip.length
    requires half == Halves(p).0 || half == Halves(p).1
    ensures p.length < half.length && SubnetOf(ip, Prefix(half.host, half.length - 1))
  {
    HalfInside(p, half.host);
    HostInside(half);
  }

  /** Some range of the list holds all of `ex`. */
  ghost predicate Held(ps: seq<Prefix>, ex: Prefix)
    requires AllWellFormed(ps) && WellFormed(ex)
  {
    exists p :: p in ps && SubnetOf(ex, p)
  }

  /** A range is still held after another was excluded if and only if the two do not overlap. */
  lemma HeldThrough(p: Prefix, e: Prefix, ex: Prefix)
    requires WellFormed(p) && WellFormed(e) && WellFormed(ex) && Normalized(p) && Remainder(p, e).Some?
    ensures Held(Remainder(p, e).value, ex) <==> SubnetOf(ex, p) && !Overlaps(e, ex)
  {
    hide Carve, Normalized, Straight;
    NormalizedYields(p, e);
    RemainderMeaning(p, e);
    var r := Remainder(p, e).value;
    forall q | q in r
      ensures p.length <= q.length && (q.length > p.length ==> SubnetOf(e, Prefix(q.host, q.length - 1)))
    {
      if SubnetOf(e, p) && e != p { CarvePieces(p, e); }
    }
    if q :| q in r && SubnetOf(ex, q) { StillApart(p, e, ex, r, q); }
    if SubnetOf(ex, p) && !Overlaps(e, ex) { SomePieceHolds(p, e, ex, r); }
  }

  lemma StillApart(p: Prefix, e: Prefix, ex: Prefix, r: seq<Prefix>, q: Prefix)
    requires WellFormed(p) && WellFormed(e) && WellFormed(ex) && AllWellFormed(r) && Leaves(r, p, e)
    requires q in r && SubnetOf(ex, q) && p.length <= q.length
    ensures SubnetOf(ex, p) && !Overlaps(e, ex)
  {
    assert Covers(r, ex.host);
    HostInside(e);
    assert !Covers(r, e.host);
    assert !Contains(q, e.host);
    if ex.length < e.length && Contains(ex, e.host) { SubnetInside(ex, q, e.host); }
  }

  lemma SomePieceHolds(p: Prefix, e: Prefix, ex: Prefix, r: seq<Prefix>)
    requires WellFormed(p) && WellFormed(e) && WellFormed(ex) && AllWellFormed(r) && Leaves(r, p, e)
    requires forall q :: q in r ==>
               p.length <= q.length && (q.length > p.length ==> SubnetOf(e, Prefix(q.host, q.length - 1)))
    requires SubnetOf(ex, p) && !Overlaps(e, ex)
    ensures Held(r, ex)
  {
    HostInside(ex);
    if Contains(e, ex.host) { SharedOverlaps(e, ex, ex.host); }
    assert Covers(r, ex.host);
    var q :| q in r && Contains(q, ex.host);
    if q.length > ex.length {
      var parent := Prefix(q.host, q.length - 1);
      CoarserQuotient(Bits(ex.host), Bits(q.host), Free(q), Free(parent));
      NestedOrDisjoint(parent, ex, ex.host);
      HostInside(e);
      SubnetInside(parent, ex, e.host);
      SharedOverlaps(e, ex, e.host);
    }
    assert SubnetOf(ex, q);
  }

  lemma HeldThroughEach(ps: seq<Prefix>, e: Prefix, ex: Prefix)
    requires AllNormalized(ps) && WellFormed(e) && WellFormed(ex) && ExcludeFromEach(ps, e).Some?
    ensures Held(ExcludeFromEach(ps, e).value, ex) <==> Held(ps, ex) && !Overlaps(e, ex)
  {
    hide Remainder, ExcludeFromEach, SubnetOf, Overlaps, Normalized;
    PiecesOfEach(ps, e);
    forall p | p in ps ensures Held(Remainder(p, e).value, ex) <==> SubnetOf(ex, p) && !Overlaps(e, ex) {
      HeldThrough(p, e, ex);
    }
    var r := ExcludeFromEach(ps, e).value;
    if q :| q in r && SubnetOf(ex, q) {
      var p :| p in ps && q in Remainder(p, e).value;
      assert Held(Remainder(p, e).value, ex);
    }
    if p :| p in ps && Held(Remainder(p, e).value, ex) {
      var q :| q in Remainder(p, e).value && SubnetOf(ex, q);
      assert q in r;
    }
  }

  lemma {:induction false} HeldThroughAll(sources: seq<Prefix>, excludes: seq<Prefix>, ex: Prefix)
    requires AllNormalized(sources) && AllWellFormed(excludes) && WellFormed(ex) && ExcludeEach(sources, excludes).Some?
    ensures Held(ExcludeEach(sources, excludes).value, ex)
            <==> Held(sources, ex) && forall i :: 0 <= i < |excludes| ==> !Overlaps(excludes[i], ex)
  {
    hide Held, Overlaps, ExcludeFromEach, Normalized;
    if excludes != [] {
      var front, last := excludes[..|excludes| - 1], excludes[|excludes| - 1];
      HeldThroughAll(sources, front, ex);
      ExcludeEachMeaning(sources, front);
      HeldThroughEach(ExcludeEach(sources, front).value, last, ex);
      assert forall i :: 0 <= i < |excludes| ==> excludes[i] == if i < |front| then front[i] else last;
      assert forall i :: 0 <= i < |front| ==> front[i] == excludes[i];
    }
  }

  /** A source holds the excluded range, and no range excluded before overlaps it. */
  ghost predicate Exposed(sources: seq<Prefix>, excludes: seq<Prefix>, n: nat)
    requires AllWellFormed(sources) && n < |excludes| && AllWellFormed(excludes)
  {
    assert forall i :: 0 <= i < |excludes| ==> excludes[i] in excludes;
    Held(sources, excludes[n]) && forall i :: 0 <= i < n ==> !Overlaps(excludes[i], excludes[n])
  }

  /** The excluded range has no host bits, or it is not exposed. */
  ghost predicate OpenTo(sources: seq<Prefix>, excludes: seq<Prefix>, n: nat)
    requires AllWellFormed(sources) && n < |excludes| && AllWellFormed(excludes)
  {
    assert excludes[n] in excludes;
    Normalized(excludes[n]) || !Exposed(sources, excludes, n)
  }

  lemma TurnsOutIff(sources: seq<Prefix>, excludes: seq<Prefix>, n: nat)
    requires AllNormalized(sources) && AllWellFormed(excludes) && n < |excludes| && AllWellFormed(excludes[..n])
    requires ExcludeEach(sources, excludes[..n]).Some?
    ensures TurnsOut(sources, excludes, n) <==> OpenTo(sources, excludes, n)
    ensures TurnsStraight(sources, excludes, n)
  {
    hide ExcludeEach, Overlaps, SubnetOf, Straight, Yields;
    var left, ex := ExcludeEach(sources, excludes[..n]).value, excludes[n];
    assert ex in excludes;
    ExcludeEachMeaning(sources, excludes[..n]);
    HeldThroughAll(sources, excludes[..n], ex);
    forall p | p in left
      ensures (Yields(p, ex) <==> Normalized(ex) || !SubnetOf(ex, p) || ex == p) && Straight(p, ex)
    {
      NormalizedYields(p, ex);
    }
  }

  /** From sources without host bits and any excluded ranges, on the inputs alone: the list form ends if
      and only if every excluded range with host bits set lies in no source or overlaps one excluded
      before; and then its answer covers exactly the addresses of the sources that no excluded range
      covers. */
  lemma ExcludeFromNormalized(sources: seq<Prefix>, excludes: seq<Prefix>)
    requires AllNormalized(sources) && AllWellFormed(excludes)
    ensures ExcludeEach(sources, excludes).Some?
            <==> forall n :: 0 <= n < |excludes| ==> OpenTo(sources, excludes, n)
    ensures ExcludeEach(sources, excludes).Some? ==>
              && AllNormalized(ExcludeEach(sources, excludes).value)
              && forall h :: Covers(ExcludeEach(sources, excludes).value, h)
                             <==> Covers(sources, h) && !Covers(excludes, h)
  {
    hide ExcludeEach, Normalized, Covers, Exposed, TurnsOut, TurnsStraight;
    assert excludes[..|excludes|] == excludes;
    ExcludeEachMeaning(sources, excludes);
    if forall n :: 0 <= n < |excludes| ==> OpenTo(sources, excludes, n) {
      EndsByInputs(sources, excludes, |excludes|);
    }
    if ExcludeEach(sources, excludes).Some? {
      forall n | 0 <= n < |excludes| ensures OpenTo(sources, excludes, n) && TurnsStraight(sources, excludes, n) {
        assert ExcludeEach(sources, excludes[..n]).Some? by {
          if ExcludeEach(sources, excludes[..n]).None? { DeadEndStays(sources, excludes, n); }
        }
        TurnsOutIff(sources, excludes, n);
      }
      assert RightAfter(sources, excludes, |excludes|);
    }
  }

  lemma {:induction false} EndsByInputs(sources: seq<Prefix>, excludes: seq<Prefix>, n: nat)
    requires AllNormalized(sources) && AllWellFormed(excludes) && n <= |excludes| && AllWellFormed(excludes[..n])
    requires forall i :: 0 <= i < |excludes| ==> OpenTo(sources, excludes, i)
    ensures ExcludeEach(sources, excludes[..n]).Some?
  {
    hide ExcludeEach, ExcludeFromEach, OpenTo, Yields, Straight;
    if n == 0 {
      NothingExcluded(sources, excludes[..0]);
    } else {
      EndsByInputs(sources, excludes, n - 1);
      TurnsOutIff(sources, excludes, n - 1);
      ExcludeNext(sources, excludes, n - 1);
      ExcludeFromEachMeaning(ExcludeEach(sources, excludes[..n - 1]).value, excludes[n - 1]);
    }
  }

  /** IPAddress::excludeAddresses(sourceList, excludeList), as the source runs it, from any sources and any
      excluded ranges. */
  method ExcludeAll(sources: seq<Prefix>, excludes: seq<Prefix>) returns (r: Option<seq<Prefix>>)
    requires AllWellFormed(sources) && AllWellFormed(excludes)
    ensures r == ExcludeEach(sources, excludes)
    ensures r.Some? <==> forall n :: 0 <= n < |excludes| ==> TurnsOut(sources, excludes, n)
    ensures r.Some? && (forall n :: 0 <= n < |excludes| ==> TurnsStraight(sources, excludes, n)) ==>
              forall h :: Covers(r.value, h) <==> Covers(sources, h) && !Covers(excludes, h)
    ensures AllNormalized(sources) && r.Some? ==>
              AllNormalized(r.value) && forall h :: Covers(r.value, h) <==> Covers(sources, h) && !Covers(excludes, h)
    ensures AllNormalized(sources) && AllNormalized(excludes) ==> r.Some?
  {
    r := ExcludeInTurn(sources, excludes);
    hide Exposed, ExcludeEach, Normalized, TurnsOut, TurnsStraight, Covers;
    ExcludeEachMeaning(sources, excludes);
    assert excludes[..|excludes|] == excludes;
    assert (forall n :: 0 <= n <= |excludes| ==> RightAfter(sources, excludes, n)) ==>
      RightAfter(sources, excludes, |excludes|);
    if AllNormalized(sources) { ExcludeFromNormalized(sources, excludes); }
    assert forall n :: 0 <= n < |excludes| ==> excludes[n] in excludes;
  }

  /** The outer loop. */
  method ExcludeInTurn(sources: seq<Prefix>, excludes: seq<Prefix>) returns (r: Option<seq<Prefix>>)
    requires AllWellFormed(sources) && AllWellFormed(excludes)
    ensures r == ExcludeEach(sources, excludes)
  {
    hide ExcludeFromEach, ExcludeEach;
    var results := sources;
    NothingExcluded(sources, excludes[..0]);
    for n := 0 to |excludes|
      invariant ExcludeEach(sources, excludes[..n]) == Some(results)
    {
      ExcludeNext(sources, excludes, n);
      var newResults := ExcludeFromAll(results, excludes[n]);
      if newResults.None? {
        DeadEndStays(sources, excludes, n + 1);
        return None;
      }
      results := newResults.value;
    }
    assert excludes[..|excludes|] == excludes;
    return Some(results);
  }

  /** The inner loop. */
  method ExcludeFromAll(ps: seq<Prefix>, exclude: Prefix) returns (r: Option<seq<Prefix>>)
    requires AllWellFormed(ps) && WellFormed(exclude)
    ensures r == ExcludeFromEach(ps, exclude)
  {
    hide Carve, ExcludeFromEach, Overlaps, SubnetOf;
    var newResults: seq<Prefix> := [];
    NothingToExcludeFrom(ps[..0], exclude);
    for m := 0 to |ps|
      invariant ExcludeFromEach(ps[..m], exclude) == Some(newResults)
    {
      ExcludeFromNext(ps, exclude, m);
      var ip := ps[m];
      if !Overlaps(ip, exclude) {
        newResults := newResults + [ip];
      } else if SubnetOf(exclude, ip) && exclude != ip {
        var range := ExcludeOne(ip, exclude);
        if range.None? {
          NoneStaysNone(ps, exclude, m + 1);
          return None;
        }
        newResults := newResults + range.value;
      } else {
        assert newResults + [] == newResults;
      }
    }
    assert ps[..|ps|] == ps;
    return Some(newResults);
  }

  lemma NothingExcluded(sources: seq<Prefix>, excludes: seq<Prefix>)
    requires AllWellFormed(sources) && excludes == []
    ensures ExcludeEach(sources, excludes) == Some(sources)
  {}

  lemma NothingToExcludeFrom(ps: seq<Prefix>, ex: Prefix)
    requires WellFormed(ex) && ps == []
    ensures ExcludeFromEach(ps, ex) == Some([])
  {}

  lemma ExcludeNext(sources: seq<Prefix>, excludes: seq<Prefix>, n: nat)
    requires AllWellFormed(sources) && AllWellFormed(excludes) && n < |excludes|
    requires AllWellFormed(excludes[..n]) && ExcludeEach(sources, excludes[..n]).Some?
    ensures AllWellFormed(excludes[..n + 1]) && WellFormed(excludes[n])
    ensures ExcludeEach(sources, excludes[..n + 1])
              == ExcludeFromEach(ExcludeEach(sources, excludes[..n]).value, excludes[n])
  {
    assert excludes[n] in excludes && excludes[..n + 1][..n] == excludes[..n];
  }

  lemma ExcludeFromNext(ps: seq<Prefix>, ex: Prefix, m: nat)
    requires AllWellFormed(ps) && WellFormed(ex) && m < |ps|
    requires AllWellFormed(ps[..m]) && ExcludeFromEach(ps[..m], ex).Some?
    ensures AllWellFormed(ps[..m + 1]) && WellFormed(ps[m])
    ensures ExcludeFromEach(ps[..m + 1], ex) == Prepend(ExcludeFromEach(ps[..m], ex).value, Remainder(ps[m], ex))
  {
    assert ps[m] in ps && ps[..m + 1][..m] == ps[..m];
  }

  lemma {:induction false} NoneStaysNone(ps: seq<Prefix>, ex: Prefix, m: nat)
    requires AllWellFormed(ps) && WellFormed(ex) && m <= |ps| && ExcludeFromEach(ps[..m], ex).None?
    ensures ExcludeFromEach(ps, ex).None?
    decreases |ps|
  {
    if m < |ps| {
      assert ps[..|ps| - 1][..m] == ps[..m];
      NoneStaysNone(ps[..|ps| - 1], ex, m);
    } else {
      assert ps[..m] == ps;
    }
  }

  lemma {:induction false} DeadEndStays(sources: seq<Prefix>, excludes: seq<Prefix>, n: nat)
    requires AllWellFormed(sources) && AllWellFormed(excludes) && n <= |excludes|
    requires AllWellFormed(excludes[..n]) && ExcludeEach(sources, excludes[..n]).None?
    ensures ExcludeEach(sources, excludes).None?
    decreases |excludes|
  {
    if n < |excludes| {
      assert excludes[..|excludes| - 1][..n] == excludes[..n];
      DeadEndStays(sources, excludes[..|excludes| - 1], n);
    } else {
      assert excludes[..n] == excludes;
    }
  }
}
