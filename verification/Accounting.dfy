/** Reference counts of exclusion routes (m_excludedAddrSet), on values. */
module Accounting {
  import opened Addresses

  type Counts = map<Prefix, int>

  function Count(m: Counts, p: Prefix): int {
    if p in m then m[p] else 0
  }

  predicate Positive(m: Counts) {
    forall p :: p in m ==> m[p] >= 1
  }

  predicate NonNegative(m: Counts) {
    forall p :: p in m ==> m[p] >= 0
  }

  function Monus(a: int, b: int): int {
    if a > b then a - b else 0
  }

  /** Daemon::addExclusionRoute when the system accepts the route. */
  function AddOne(m: Counts, p: Prefix): Counts {
    m[p := Count(m, p) + 1]
  }

  /** Daemon::delExclusionRoute when the system accepts the deletion. */
  function DelOne(m: Counts, p: Prefix): Counts {
    if Count(m, p) > 1 then m[p := m[p] - 1] else m - {p}
  }

  /** Daemon::delExclusionRoute with the answer of the system, true where it is not asked. A missing key
      is inserted with count 0 first, and stays when the system refuses. */
  function DelAttempt(m: Counts, p: Prefix, ok: bool): Counts {
    if Count(m, p) > 1 || ok then DelOne(m, p) else if p in m then m else m[p := 0]
  }

  /** A stored count of 0 is left behind if and only if the key was missing and the system refused. */
  lemma PositiveAfterDeletionIff(m: Counts, p: Prefix, ok: bool)
    requires Positive(m)
    ensures Positive(DelAttempt(m, p, ok)) <==> p in m || ok
  {
    if p !in m && !ok { assert p in DelAttempt(m, p, ok); }
  }

  /** The input at which it happens: a list with any subnet, removed by host while the system knows no
      such route. Only the stray key is concerned. */
  lemma RefusedRemovalLeavesZero(subnet: AddressText)
    requires subnet.SubnetText?
    ensures var counts := map[KeyByText(subnet) := 1];
            && Positive(counts) && KeyByHost(subnet) == StrayKey
            && DelAttempt(counts, KeyByHost(subnet), false) == counts[StrayKey := 0]
            && !Positive(DelAttempt(counts, KeyByHost(subnet), false))
  {
    KeysAgreeOnlyOnPlainHosts(subnet);
    PositiveAfterDeletionIff(map[KeyByText(subnet) := 1], StrayKey, false);
  }

  function AddEach(m: Counts, ks: seq<Prefix>): Counts {
    if ks == [] then m else AddOne(AddEach(m, ks[..|ks| - 1]), ks[|ks| - 1])
  }

  function DelEach(m: Counts, ks: seq<Prefix>): Counts {
    if ks == [] then m else DelOne(DelEach(m, ks[..|ks| - 1]), ks[|ks| - 1])
  }

  /** Every deletion of the list finds its key: the containment assertion of delExclusionRoute. */
  ghost predicate DelEachSafe(m: Counts, ks: seq<Prefix>) {
    ks == [] || (DelEachSafe(m, ks[..|ks| - 1]) && ks[|ks| - 1] in DelEach(m, ks[..|ks| - 1]))
  }

  /** The batch form: add the requested counts key by key. */
  function Merge(m: Counts, requested: Counts): Counts {
    map p | p in m.Keys + requested.Keys :: Count(m, p) + Count(requested, p)
  }

  /** What a stored 0 does to a key that addresses have: the next time the route is asked for it is
      counted, but no longer among the new ones the system is asked to add. */
  lemma ZeroHidesRoute(t: AddressText)
    ensures var p := KeyByText(t);
            var left := DelAttempt(map[], p, false);
            && left == map[p := 0] && AddEach(left, [p]) == map[p := 1]
            && AddEach(map[], [p]).Keys - left.Keys == {}
  {
    var p := KeyByText(t);
    assert [p][..0] == [];
    assert AddEach(map[p := 0], [p]) == AddOne(map[p := 0], p);
    assert AddEach(map[], [p]) == AddOne(map[], p);
  }

  lemma SplitLast(ks: seq<Prefix>)
    requires ks != []
    ensures multiset(ks) == multiset(ks[..|ks| - 1]) + multiset{ks[|ks| - 1]}
  {
    assert ks == ks[..|ks| - 1] + [ks[|ks| - 1]];
  }

  lemma SameCounts(m: Counts, n: Counts)
    requires Positive(m) && Positive(n)
    requires forall p :: Count(m, p) == Count(n, p)
    ensures m == n
  {
    forall p ensures p in m <==> p in n {
      assert Count(m, p) == Count(n, p);
    }
    forall p | p in m ensures m[p] == n[p] {
      assert Count(m, p) == Count(n, p);
    }
  }

  lemma {:induction false} AddEachCount(m: Counts, ks: seq<Prefix>)
    ensures Positive(m) ==> Positive(AddEach(m, ks))
    ensures NonNegative(m) ==> NonNegative(AddEach(m, ks))
    ensures forall p :: Count(AddEach(m, ks), p) == Count(m, p) + multiset(ks)[p]
    ensures AddEach(m, ks).Keys == m.Keys + set p | p in ks
  {
    if ks != [] {
      SplitLast(ks);
      AddEachCount(m, ks[..|ks| - 1]);
      assert forall p :: p in ks <==> p in ks[..|ks| - 1] || p == ks[|ks| - 1];
    }
  }

  lemma {:induction false} DelEachCount(m: Counts, ks: seq<Prefix>)
    requires Positive(m)
    requires forall p :: multiset(ks)[p] <= Count(m, p)
    ensures DelEachSafe(m, ks) && Positive(DelEach(m, ks))
    ensures forall p :: Count(DelEach(m, ks), p) == Count(m, p) - multiset(ks)[p]
  {
    if ks != [] {
      SplitLast(ks);
      var front, last := ks[..|ks| - 1], ks[|ks| - 1];
      forall p ensures multiset(front)[p] <= Count(m, p) {
        assert multiset(ks)[p] <= Count(m, p);
      }
      DelEachCount(m, front);
      assert multiset(ks)[last] <= Count(m, last);
    }
  }

  /** Adding a list and then deleting it, in any order, is the identity, and no deletion of the
      rollback meets a missing key. */
  lemma {:induction false} DeleteUndoesAdd(m: Counts, ks: seq<Prefix>, undo: seq<Prefix>)
    requires Positive(m) && multiset(ks) == multiset(undo)
    ensures DelEachSafe(AddEach(m, ks), undo)
    ensures DelEach(AddEach(m, ks), undo) == m
  {
    AddEachCount(m, ks);
    DelEachCount(AddEach(m, ks), undo);
    SameCounts(DelEach(AddEach(m, ks), undo), m);
  }

  /** The batch form refines folding the single add over the list. */
  lemma {:induction false} BatchIsFold(m: Counts, ks: seq<Prefix>)
    ensures Merge(m, AddEach(map[], ks)) == AddEach(m, ks)
  {
    AddEachCount(m, ks);
    AddEachCount(map[], ks);
    var batch := Merge(m, AddEach(map[], ks));
    assert batch.Keys == AddEach(m, ks).Keys;
    forall p | p in batch ensures batch[p] == AddEach(m, ks)[p] {
      assert Count(AddEach(m, ks), p) == Count(m, p) + Count(AddEach(map[], ks), p);
    }
  }
}
