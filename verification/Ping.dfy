/** PingHelper (client/mozilla/pinghelper.cpp): a window of 32 slots indexed by a wrapping 16-bit
    sequence number, and statistics over it. */
module Ping {

  datatype Slot = Slot(timestamp: int, latency: int, sequence: int)

  /** A ping that was sent: when, and the latency of its reply, negative while there is none. */
  datatype Sent = Sent(time: int, latency: int)

  const Blank := Slot(-1, -1, 0)

  /** The last of the pings 0..n-1 that went to slot i; negative if there is none. */
  function Latest(n: nat, i: nat): int {
    n - 1 - (n - 1 - i) % 32
  }

  /** What slot i holds after the pings of a history. */
  function SlotAfter(history: seq<Sent>, i: nat): Slot
    requires i < 32
  {
    var j := Latest(|history|, i);
    if j < 0 then Blank else Slot(history[j].time, history[j].latency, j % 65536)
  }

  /** A new ping overwrites its own slot only. */
  lemma NextSlot(history: seq<Sent>, ping: Sent, i: nat)
    requires i < 32
    ensures SlotAfter(history + [ping], i)
         == if i == |history| % 65536 % 32 then Slot(ping.time, ping.latency, |history| % 65536)
           else SlotAfter(history, i)
  {
    LatestNext(|history|, i);
  }

  lemma LatestNext(n: nat, i: nat)
    requires i < 32
    ensures Latest(n + 1, i) == if i == n % 65536 % 32 then n else Latest(n, i)
    ensures Latest(n, i) < n
  {
    ModuloStep(n - i);
    WrapKeepsSlot(n);
    SameSlot(n, i);
  }

  lemma WrapKeepsSlot(n: nat)
    ensures n % 65536 % 32 == n % 32
  {
    var q, r := n / 65536, n % 65536;
    assert n == 32 * (2048 * q) + r;
  }

  lemma SameSlot(n: nat, i: nat)
    requires i < 32
    ensures (n - i) % 32 == 0 <==> n % 32 == i
  {}

  lemma ModuloStep(x: int)
    ensures (x - 1) % 32 == if x % 32 == 0 then 31 else x % 32 - 1
  {}

  /** One of the last 32 pings carried this sequence number. */
  ghost predicate InWindow(n: nat, j: int, sequence: int) {
    0 <= j < n && n - 32 <= j && j % 65536 == sequence
  }

  /** Within the window a sequence number identifies its ping, across any number of wraps. */
  lemma WindowUnique(n: nat, j: int, k: int, sequence: int)
    requires InWindow(n, j, sequence) && InWindow(n, k, sequence)
    ensures j == k
  {}

  /** A reply's slot holds the ping it answers, and matches if and only if one of the last 32 pings
      carried its number. The one exception is a reply numbered 0 before any ping was sent. */
  lemma SlotMatchesIff(history: seq<Sent>, sequence: int)
    requires 0 <= sequence < 65536
    ensures var j := Latest(|history|, sequence % 32);
            SlotAfter(history, sequence % 32).sequence == sequence
            <==> InWindow(|history|, j, sequence) || (history == [] && sequence == 0)
    ensures forall j :: InWindow(|history|, j, sequence) ==> j == Latest(|history|, sequence % 32)
  {
    hide Latest;
    var n, i := |history|, sequence % 32;
    LatestInSlot(n, i);
    if sequence == 0 { LatestInFirstSlot(n); }
    forall j | InWindow(n, j, sequence) ensures j == Latest(n, i) {
      WrapKeepsSlot(j);
      SameSlotSamePing(n, j, Latest(n, i));
    }
  }

  lemma LatestInFirstSlot(n: nat)
    ensures Latest(n, 0) >= 0 <==> n > 0
  {}

  lemma SameSlotSamePing(n: int, j: int, k: int)
    requires n - 32 <= j < n && n - 32 <= k < n && j % 32 == k % 32
    ensures j == k
  {
    var a, b := j / 32, k / 32;
    assert j == 32 * a + j % 32 && k == 32 * b + k % 32;
  }

  /** Recording the latency of a ping changes the slot that holds it and no other. */
  lemma ReplySlot(history: seq<Sent>, number: int, latency: int, i: nat)
    requires i < 32 && 0 <= number < 65536 && Latest(|history|, number % 32) >= 0
    ensures var j := Latest(|history|, number % 32);
            j < |history| &&
            SlotAfter(history[j := history[j].(latency := latency)], i)
            == if i == number % 32 then SlotAfter(history, i).(latency := latency) else SlotAfter(history, i)
  {
    hide Latest;
    LatestInSlot(|history|, i);
    LatestInSlot(|history|, number % 32);
  }

  lemma LatestInSlot(n: nat, i: nat)
    requires i < 32
    ensures n - 32 <= Latest(n, i) < n && Latest(n, i) % 32 == i
  {
    var q := (n - 1 - i) / 32;
    assert Latest(n, i) == 32 * q + i;
  }

  // ------------------------------------------------------------- statistics on values

  function Answered(slots: seq<Slot>): nat {
    if slots == [] then 0 else Answered(slots[..|slots| - 1]) + if slots[|slots| - 1].latency >= 0 then 1 else 0
  }

  function Total(slots: seq<Slot>): nat {
    if slots == [] then 0
    else Total(slots[..|slots| - 1]) + if slots[|slots| - 1].latency >= 0 then slots[|slots| - 1].latency else 0
  }

  function Square(x: int): (r: nat) { x * x }

  function Variance(slots: seq<Slot>, average: int): nat {
    if slots == [] then 0
    else Variance(slots[..|slots| - 1], average) +
         if slots[|slots| - 1].latency >= 0 then Square(average - slots[|slots| - 1].latency) else 0
  }

  predicate Timed(slot: Slot, now: int) {
    slot.latency < 0 && 0 < slot.timestamp < now - 1000
  }

  /** Pings old enough to count as lost. */
  function Lost(slots: seq<Slot>, now: int): nat {
    if slots == [] then 0 else Lost(slots[..|slots| - 1], now) + if Timed(slots[|slots| - 1], now) then 1 else 0
  }

  function Mean(total: nat, n: nat): nat {
    if n == 0 then 0 else (total + n / 2) / n
  }

  function FloorSqrt(x: nat): (r: nat)
    ensures r * r <= x < (r + 1) * (r + 1)
  {
    if x == 0 then 0
    else
      var r := FloorSqrt(x - 1);
      if (r + 1) * (r + 1) <= x then r + 1 else r
  }

  /** The square root of the mean variance, rounded down as the conversion to uint does. */
  function Deviation(variance: nat, n: nat): nat {
    if n == 0 then 0 else FloorSqrt(variance / n)
  }

  ghost predicate Between(slots: seq<Slot>, lo: nat, hi: nat) {
    forall i :: 0 <= i < |slots| && slots[i].latency >= 0 ==> lo <= slots[i].latency <= hi
  }

  lemma MulMonotone(a: nat, b: nat, n: nat)
    requires a <= b
    ensures a * n <= b * n
  {
    assert (b - a) * n >= 0;
  }

  lemma QuotientBounds(x: nat, n: nat)
    requires n > 0
    ensures x / n * n <= x < (x / n + 1) * n
  {
    assert x == x / n * n + x % n;
    assert (x / n + 1) * n == x / n * n + n;
  }

  /** The average is the nearest integer to the true mean, the larger one of two. */
  lemma MeanIsNearest(total: nat, n: nat)
    requires n > 0
    ensures 2 * total - n < 2 * (n * Mean(total, n)) <= 2 * total + n
  {
    QuotientBounds(total + n / 2, n);
    var m := Mean(total, n);
    assert (m + 1) * n == m * n + n;
  }

  lemma OneMore(sum: nat, x: nat, d: nat, n: nat)
    ensures sum <= d * n && x <= d ==> sum + x <= d * (n + 1)
    ensures d * n <= sum && d <= x ==> d * (n + 1) <= sum + x
  {
    assert d * (n + 1) == d * n + d;
  }

  lemma {:induction false} TotalBounds(slots: seq<Slot>, lo: nat, hi: nat)
    requires Between(slots, lo, hi)
    ensures lo * Answered(slots) <= Total(slots) <= hi * Answered(slots)
  {
    if slots != [] {
      var front, l := slots[..|slots| - 1], slots[|slots| - 1].latency;
      TotalBounds(front, lo, hi);
      if l >= 0 {
        OneMore(Total(front), l, lo, Answered(front));
        OneMore(Total(front), l, hi, Answered(front));
      }
    }
  }

  /** The average lies between the smallest and the largest answered latency. */
  lemma MeanIsBetween(slots: seq<Slot>, lo: nat, hi: nat)
    requires Between(slots, lo, hi) && Answered(slots) > 0
    ensures lo <= Mean(Total(slots), Answered(slots)) <= hi
  {
    var n, t := Answered(slots), Total(slots);
    TotalBounds(slots, lo, hi);
    MeanIsNearest(t, n);
    QuotientBounds(t + n / 2, n);
    var m := Mean(t, n);
    assert (m + 1) * n == m * n + n && (hi + 1) * n == hi * n + n;
    if m < lo { MulMonotone(m + 1, lo, n); }
    if m > hi { MulMonotone(hi + 1, m, n); }
  }

  lemma SquareMonotone(x: int, d: nat)
    requires 0 <= x + d && x <= d
    ensures Square(x) <= Square(d)
  {
    assert (d - x) * (d + x) >= 0;
  }

  lemma {:induction false} VarianceBound(slots: seq<Slot>, average: nat, lo: nat, hi: nat)
    requires Between(slots, lo, hi) && lo <= average <= hi
    ensures Variance(slots, average) <= Square(hi - lo) * Answered(slots)
  {
    if slots != [] {
      hide Square;
      var front, l := slots[..|slots| - 1], slots[|slots| - 1].latency;
      VarianceBound(front, average, lo, hi);
      if l >= 0 {
        SquareMonotone(average - l, hi - lo);
        OneMore(Variance(front, average), Square(average - l), Square(hi - lo), Answered(front));
      }
    }
  }

  /** The deviation never exceeds the spread of the answered latencies. */
  lemma DeviationWithinSpread(slots: seq<Slot>, lo: nat, hi: nat)
    requires Between(slots, lo, hi) && Answered(slots) > 0 && lo <= hi
    ensures var average := Mean(Total(slots), Answered(slots));
            Deviation(Variance(slots, average), Answered(slots)) <= hi - lo
  {
    hide Mean, Variance, FloorSqrt, Square;
    var n := Answered(slots);
    var average := Mean(Total(slots), n);
    MeanIsBetween(slots, lo, hi);
    VarianceBound(slots, average, lo, hi);
    DeviationAtMost(Variance(slots, average), n, hi - lo);
  }

  /** The reported average, once converted to uint... */
  lemma LatencyIsBetween(slots: seq<Slot>, r: int)
    requires r == Mean(Total(slots), Answered(slots)) % 0x1_0000_0000 && Answered(slots) > 0
    ensures forall lo: nat, hi: nat :: Between(slots, lo, hi) && hi < 0x1_0000_0000 ==> lo <= r <= hi
  {
    hide Mean, Between;
    forall lo: nat, hi: nat | Between(slots, lo, hi) && hi < 0x1_0000_0000 ensures lo <= r <= hi {
      MeanIsBetween(slots, lo, hi);
    }
  }

  /** ... and the reported deviation around it, provided that no answer took 2^32 ms. */
  lemma StdDevWithinSpread(slots: seq<Slot>, average: nat, r: int)
    requires average == Mean(Total(slots), Answered(slots)) % 0x1_0000_0000
    requires r == Deviation(Variance(slots, average), Answered(slots)) % 0x1_0000_0000
    ensures forall lo: nat, hi: nat :: Between(slots, lo, hi) && lo <= hi < 0x1_0000_0000 ==> r <= hi - lo
  {
    hide Mean, Between, Variance, FloorSqrt;
    forall lo: nat, hi: nat | Between(slots, lo, hi) && lo <= hi < 0x1_0000_0000 ensures r <= hi - lo {
      if Answered(slots) > 0 {
        MeanIsBetween(slots, lo, hi);
        DeviationWithinSpread(slots, lo, hi);
      }
    }
  }

  /** The deviation is the integer part of the root of the mean of the squared distances. */
  lemma DeviationIsRoot(v: nat, n: nat)
    requires n > 0
    ensures var d := Deviation(v, n); d * d * n <= v < (d + 1) * (d + 1) * n
  {
    var d, q := Deviation(v, n), v / n;
    hide FloorSqrt;
    QuotientBounds(v, n);
    MulMonotone(d * d, q, n);
    MulMonotone(q + 1, (d + 1) * (d + 1), n);
  }

  /** The squared distance of every answered reading counts. */
  lemma {:induction false} DistanceCounts(slots: seq<Slot>, average: int, i: nat)
    requires i < |slots| && slots[i].latency >= 0
    ensures (average - slots[i].latency) * (average - slots[i].latency) <= Variance(slots, average)
  {
    if i < |slots| - 1 { DistanceCounts(slots[..|slots| - 1], average, i); }
  }

  lemma DeviationAtMost(v: nat, n: nat, d: nat)
    requires n > 0 && v <= Square(d) * n
    ensures Deviation(v, n) <= d
  {
    QuotientAtMost(v, n, Square(d));
    SqrtAtMost(v / n, d);
  }

  lemma QuotientAtMost(v: nat, n: nat, q: nat)
    requires n > 0 && v <= q * n
    ensures v / n <= q
  {
    QuotientBounds(v, n);
    assert (q + 1) * n == q * n + n;
    if v / n > q { MulMonotone(q + 1, v / n, n); }
  }

  lemma SqrtAtMost(x: nat, d: nat)
    requires x <= Square(d)
    ensures FloorSqrt(x) <= d
  {
    SquareOrder(FloorSqrt(x), d);
  }

  lemma SquareOrder(s: nat, d: nat)
    ensures s * s <= d * d ==> s <= d
  {
    if s > d {
      MulMonotone(d, s, s);
      assert (s - d) * d >= 0;
      assert s * s == d * s + (s - d) * s;
      assert (s - d) * s > 0;
    }
  }

  lemma {:induction false} LostAtMost(slots: seq<Slot>, now: int)
    ensures Lost(slots, now) <= |slots|
  {
    if slots != [] { LostAtMost(slots[..|slots| - 1], now); }
  }

  /** Recording a reply, at a fixed time, never raises the loss. */
  lemma {:induction false} ReplyNeverRaisesLoss(slots: seq<Slot>, i: nat, latency: int, now: int)
    requires i < |slots|
    ensures Lost(slots[i := slots[i].(latency := latency)], now) <= Lost(slots, now)
            || slots[i].latency >= 0 > latency
  {
    var slots' := slots[i := slots[i].(latency := latency)];
    if i < |slots| - 1 {
      ReplyNeverRaisesLoss(slots[..|slots| - 1], i, latency, now);
      assert slots'[..|slots| - 1] == slots[..|slots| - 1][i := slots[i].(latency := latency)];
    } else {
      assert slots'[..|slots| - 1] == slots[..|slots| - 1];
    }
  }

  // ------------------------------------------------------------- slots and history

  /** What one reading contributes. With StatisticsConcat this determines the statistics of any readings. */
  lemma StatisticsOfOne(time: int, latency: int, number: int, average: int, now: int)
    ensures var s := [Slot(time, latency, number)];
            && Answered(s) == (if latency >= 0 then 1 else 0) && Total(s) == (if latency >= 0 then latency else 0)
            && Variance(s, average) == (if latency >= 0 then (average - latency) * (average - latency) else 0)
            && Lost(s, now) == if latency < 0 && time > 0 && time + 1000 < now then 1 else 0
  {
    var s := [Slot(time, latency, number)];
    assert s[..0] == [];
  }

  /** The unanswered readings that are more than a second old at `now`. */
  ghost function Overdue(slots: seq<Slot>, now: int): set<nat> {
    set i: nat | i < |slots| && slots[i].latency < 0 && slots[i].timestamp > 0 && slots[i].timestamp + 1000 < now
  }

  lemma {:induction false} LostCountsOverdue(slots: seq<Slot>, now: int)
    ensures Lost(slots, now) == |Overdue(slots, now)|
  {
    if slots != [] {
      var front, n := slots[..|slots| - 1], |slots| - 1;
      LostCountsOverdue(front, now);
      var late := slots[n].latency < 0 && slots[n].timestamp > 0 && slots[n].timestamp + 1000 < now;
      var before := Overdue(front, now);
      assert n !in before;
      if late {
        assert Overdue(slots, now) == before + {n};
      } else {
        assert Overdue(slots, now) == before;
      }
    }
  }

  ghost function Replied(slots: seq<Slot>): set<nat> {
    set i: nat | i < |slots| && slots[i].latency >= 0
  }

  lemma {:induction false} AnsweredCountsReplied(slots: seq<Slot>)
    ensures Answered(slots) == |Replied(slots)|
  {
    if slots != [] {
      var front, n := slots[..|slots| - 1], |slots| - 1;
      AnsweredCountsReplied(front);
      var before := Replied(front);
      assert n !in before;
      if slots[n].latency >= 0 {
        assert Replied(slots) == before + {n};
      } else {
        assert Replied(slots) == before;
      }
    }
  }

  /** A history entry as a slot; statistics ignore the number. */
  function AsSlots(history: seq<Sent>): (r: seq<Slot>)
    ensures |r| == |history|
  {
    seq(|history|, i requires 0 <= i < |history| => Slot(history[i].time, history[i].latency, 0))
  }

  function Recent(history: seq<Sent>): (r: seq<Sent>)
    ensures |r| == if |history| < 32 then |history| else 32
  {
    if |history| <= 32 then history else history[|history| - 32..]
  }

  ghost predicate SameReadings(a: seq<Slot>, b: seq<Slot>) {
    |a| == |b| && forall i :: 0 <= i < |a| ==> a[i].timestamp == b[i].timestamp && a[i].latency == b[i].latency
  }

  /** Where slot i of a full ring lies among the last 32 pings. */
  lemma RotatedIndex(n: nat, i: nat)
    requires n >= 32 && i < 32
    ensures var r := n % 32;
            Latest(n, i) == n - 32 + if i < r then 32 - r + i else i - r
  {
    var q, r := n / 32, n % 32;
    assert n == 32 * q + r;
    if i < r {
      assert n - 1 - i == 32 * q + (r - 1 - i);
    } else {
      assert n - 1 - i == 32 * (q - 1) + (31 + r - i);
    }
  }

  /** The ring is the recent history, rotated, or padded with blanks while it is short. */
  lemma RingIsRotatedHistory(slots: seq<Slot>, history: seq<Sent>)
    requires |slots| == 32 && forall i :: 0 <= i < 32 ==> slots[i] == SlotAfter(history, i)
    ensures var recent, n := AsSlots(Recent(history)), |history|;
            if n < 32 then SameReadings(slots, recent + seq(32 - n, _ => Blank))
            else SameReadings(slots, recent[32 - n % 32..] + recent[..32 - n % 32])
  {
    var recent, n := AsSlots(Recent(history)), |history|;
    if n >= 32 {
      hide Latest;
      var k := 32 - n % 32;
      var rotated := recent[k..] + recent[..k];
      forall i | 0 <= i < 32
        ensures slots[i].timestamp == rotated[i].timestamp && slots[i].latency == rotated[i].latency
      {
        RotatedIndex(n, i);
        assert rotated[i] == recent[if i < 32 - k then k + i else i - (32 - k)];
      }
    }
  }

  lemma {:induction false} StatisticsIgnoreNumbers(a: seq<Slot>, b: seq<Slot>, average: int, now: int)
    requires SameReadings(a, b)
    ensures Answered(a) == Answered(b) && Total(a) == Total(b) && Variance(a, average) == Variance(b, average)
    ensures Lost(a, now) == Lost(b, now)
  {
    if a != [] { StatisticsIgnoreNumbers(a[..|a| - 1], b[..|b| - 1], average, now); }
  }

  lemma {:induction false} StatisticsConcat(a: seq<Slot>, b: seq<Slot>, average: int, now: int)
    ensures Answered(a + b) == Answered(a) + Answered(b) && Total(a + b) == Total(a) + Total(b)
    ensures Variance(a + b, average) == Variance(a, average) + Variance(b, average)
    ensures Lost(a + b, now) == Lost(a, now) + Lost(b, now)
  {
    if b == [] {
      assert a + b == a;
    } else {
      StatisticsConcat(a, b[..|b| - 1], average, now);
      assert (a + b)[..|a + b| - 1] == a + b[..|b| - 1];
    }
  }

  lemma {:induction false} BlanksCountNothing(k: nat, average: int, now: int)
    ensures var blanks := seq(k, _ => Blank);
            Answered(blanks) == 0 && Total(blanks) == 0 && Variance(blanks, average) == 0 && Lost(blanks, now) == 0
  {
    if k > 0 {
      BlanksCountNothing(k - 1, average, now);
      assert seq(k, _ => Blank)[..k - 1] == seq(k - 1, _ => Blank);
    }
  }

  /** Statistics over the ring are statistics over the last 32 pings. */
  lemma RingStatistics(slots: seq<Slot>, history: seq<Sent>, average: int, now: int)
    requires |slots| == 32 && forall i :: 0 <= i < 32 ==> slots[i] == SlotAfter(history, i)
    ensures var recent := AsSlots(Recent(history));
            && Answered(slots) == Answered(recent) && Total(slots) == Total(recent)
            && Variance(slots, average) == Variance(recent, average) && Lost(slots, now) == Lost(recent, now)
  {
    hide Answered, Total, Variance, Lost, AsSlots, Recent, SlotAfter;
    RingIsRotatedHistory(slots, history);
    var recent, n := AsSlots(Recent(history)), |history|;
    if n < 32 {
      var blanks := seq(32 - n, _ => Blank);
      StatisticsIgnoreNumbers(slots, recent + blanks, average, now);
      StatisticsConcat(recent, blanks, average, now);
      BlanksCountNothing(32 - n, average, now);
    } else {
      RotationKeepsStatistics(slots, recent, 32 - n % 32, average, now);
    }
  }

  lemma RotationKeepsStatistics(slots: seq<Slot>, recent: seq<Slot>, k: nat, average: int, now: int)
    requires k <= |recent| && SameReadings(slots, recent[k..] + recent[..k])
    ensures Answered(slots) == Answered(recent) && Total(slots) == Total(recent)
    ensures Variance(slots, average) == Variance(recent, average) && Lost(slots, now) == Lost(recent, now)
  {
    hide Answered, Total, Variance, Lost, SameReadings;
    StatisticsIgnoreNumbers(slots, recent[k..] + recent[..k], average, now);
    StatisticsConcat(recent[k..], recent[..k], average, now);
    StatisticsConcat(recent[..k], recent[k..], average, now);
    assert recent[..k] + recent[k..] == recent;
  }

  /** A reply numbered 0 before any ping is taken for an answer to slot 0, which is blank: `early` is the
      latency it leaves there, -1 for none. */
  function RingSlot(history: seq<Sent>, early: int, i: nat): Slot
    requires i < 32
  {
    if history == [] && i == 0 then Blank.(latency := early) else SlotAfter(history, i)
  }

  /** What the statistics range over: the last 32 pings, or before any ping the early answer. */
  function Readings(history: seq<Sent>, early: int): seq<Slot> {
    if history == [] then [Blank.(latency := early)] else AsSlots(Recent(history))
  }

  lemma ReadingStatistics(slots: seq<Slot>, history: seq<Sent>, early: int, average: int, now: int)
    requires |slots| == 32 && forall i :: 0 <= i < 32 ==> slots[i] == RingSlot(history, early, i)
    ensures var r := Readings(history, early);
            && Answered(slots) == Answered(r) && Total(slots) == Total(r)
            && Variance(slots, average) == Variance(r, average) && Lost(slots, now) == Lost(r, now)
  {
    hide Answered, Total, Variance, Lost;
    if history == [] {
      var r, blanks := Readings(history, early), seq(31, _ => Blank);
      assert forall i :: 0 < i < 32 ==> slots[i] == Blank;
      assert slots == r + blanks;
      StatisticsConcat(r, blanks, average, now);
      BlanksCountNothing(31, average, now);
    } else {
      RingStatistics(slots, history, average, now);
    }
  }

  /** Recording an answer in the ring, on values: the loss does not go up. */
  lemma LossAfterReply(slots: seq<Slot>, history: seq<Sent>, early: int,
                       slots': seq<Slot>, history': seq<Sent>, early': int,
                       i: nat, latency: nat)
    requires |slots| == |slots'| == 32 && i < 32 && slots' == slots[i := slots[i].(latency := latency)]
    requires forall k :: 0 <= k < 32 ==> slots[k] == RingSlot(history, early, k)
    requires forall k :: 0 <= k < 32 ==> slots'[k] == RingSlot(history', early', k)
    ensures forall t :: Lost(Readings(history', early'), t) <= Lost(Readings(history, early), t)
  {
    hide RingSlot, Readings, Lost;
    forall t ensures Lost(Readings(history', early'), t) <= Lost(Readings(history, early), t) {
      ReadingStatistics(slots, history, early, 0, t);
      ReadingStatistics(slots', history', early', 0, t);
      ReplyNeverRaisesLoss(slots, i, latency, t);
    }
  }

  /** The integer part of the root of the mean of the squared distances from an average; every answered
      reading's distance counts. */
  ghost predicate RootOfMean(slots: seq<Slot>, average: int, d: nat) {
    var v, n := Variance(slots, average), |Replied(slots)|;
    && (n > 0 ==> d * d * n <= v < (d + 1) * (d + 1) * n)
    && forall i :: 0 <= i < |slots| && slots[i].latency >= 0 ==>
         (average - slots[i].latency) * (average - slots[i].latency) <= v
  }

  lemma StdDevMeans(slots: seq<Slot>, average: int)
    ensures RootOfMean(slots, average, Deviation(Variance(slots, average), Answered(slots)))
  {
    hide Deviation, Variance, Answered, Replied;
    AnsweredCountsReplied(slots);
    if Answered(slots) > 0 { DeviationIsRoot(Variance(slots, average), Answered(slots)); }
    forall i | 0 <= i < |slots| && slots[i].latency >= 0
      ensures (average - slots[i].latency) * (average - slots[i].latency) <= Variance(slots, average)
    {
      DistanceCounts(slots, average, i);
    }
  }

  class PingHelper {
    const data: array<Slot>
    var sequence: int

    /** All pings sent since the start, and the early answer. */
    ghost var history: seq<Sent>
    ghost var early: int

    ghost predicate Valid()
      reads this, data
    {
      && data.Length == 32 && sequence == |history| % 65536
      && forall i :: 0 <= i < 32 ==> data[i] == RingSlot(history, early, i)
    }

    ghost function Current(): seq<Slot>
      reads this
    {
      Readings(history, early)
    }

    constructor ()
      ensures Valid() && fresh(data) && history == [] && early == -1
    {
      data := new Slot[32](_ => Blank);
      sequence, history, early := 0, [], -1;
    }

    /** The reset of PingHelper::start, from any state. */
    method Start()
      requires data.Length == 32
      modifies this, data
      ensures Valid() && history == [] && early == -1
    {
      sequence, history, early := 0, [], -1;
      for i := 0 to 32
        invariant sequence == 0 && history == [] && early == -1
        invariant forall k :: 0 <= k < i ==> data[k] == Blank
      {
        data[i] := Blank;
      }
    }

    /** The first ping overwrites an early answer. */
    method NextPing(now: int) returns (number: int)
      requires Valid()
      modifies this, data
      ensures Valid() && history == old(history) + [Sent(now, -1)] && early == -1
      ensures number == |old(history)| % 65536
    {
      forall i | 0 <= i < 32
        ensures RingSlot(history + [Sent(now, -1)], -1, i)
             == if i == sequence % 32 then Slot(now, -1, sequence) else data[i]
      {
        NextSlot(history, Sent(now, -1), i);
      }
      var index := sequence % 32;
      data[index] := Slot(now, -1, sequence);
      number := sequence;
      sequence := (sequence + 1) % 65536;
      history, early := history + [Sent(now, -1)], -1;
    }

    /** A reply is charged to the one recent ping with its number, and ignored if there is none. Only a
        reply numbered 0 that comes before any ping is taken for an answer to a blank slot. Unless the
        clock has gone back, no reply raises the loss. */
    method PingReceived(number: int, now: int) returns (accepted: bool)
      requires Valid() && 0 <= number < 65536
      modifies this, data
      ensures Valid() && sequence == old(sequence)
      ensures accepted <==> (exists j :: InWindow(|old(history)|, j, number)) || (old(history) == [] && number == 0)
      ensures !accepted ==> history == old(history) && early == old(early) && data[..] == old(data[..])
      ensures old(history) == [] ==> history == [] && early == if number == 0 then now + 1 else old(early)
      ensures old(history) != [] ==> early == old(early)
      ensures forall j :: InWindow(|old(history)|, j, number) ==>
                history == old(history)[j := Sent(old(history)[j].time, now - old(history)[j].time)]
      ensures old(data[number % 32]).timestamp <= now ==> forall t :: Lost(Current(), t) <= Lost(old(Current()), t)
    {
      SlotMatchesIff(history, number);
      var index := number % 32;
      ghost var j, before := Latest(|history|, index), data[..];
      accepted := data[index].sequence == number;
      if j >= 0 {
        ghost var latency := now - data[index].timestamp;
        forall i | 0 <= i < 32
          ensures SlotAfter(history[j := history[j].(latency := latency)], i)
               == if i == index then data[i].(latency := latency) else data[i]
        {
          ReplySlot(history, number, latency, i);
        }
      }
      if accepted {
        data[index] := data[index].(latency := now - data[index].timestamp);
        if history != [] {
          history := history[j := Sent(history[j].time, now - history[j].time)];
        } else {
          early := now + 1;
        }
        assert data[..] == before[index := before[index].(latency := now - before[index].timestamp)];
        if before[index].timestamp <= now {
          LossAfterReply(before, old(history), old(early), data[..], history, early, index,
                         now - before[index].timestamp);
        }
      }
    }

    method Latency() returns (r: int)
      requires Valid()
      ensures r == Mean(Total(Current()), Answered(Current())) % 0x1_0000_0000
      ensures Answered(Current()) > 0 ==>
                forall lo: nat, hi: nat :: Between(Current(), lo, hi) && hi < 0x1_0000_0000 ==> lo <= r <= hi
      ensures var n, m := |Replied(Current())|, Mean(Total(Current()), Answered(Current()));
              if n == 0 then r == 0 else 2 * Total(Current()) - n < 2 * (n * m) <= 2 * Total(Current()) + n
    {
      AnsweredCountsReplied(Current());
      if Answered(Current()) > 0 { MeanIsNearest(Total(Current()), Answered(Current())); }
      var recvCount, totalMsec := 0, 0;
      for i := 0 to 32
        invariant recvCount == Answered(data[..i]) && totalMsec == Total(data[..i])
      {
        assert data[..i + 1][..i] == data[..i];
        if data[i].latency >= 0 {
          recvCount := recvCount + 1;
          totalMsec := totalMsec + data[i].latency;
        }
      }
      assert data[..32] == data[..];
      ReadingStatistics(data[..], history, early, 0, 0);
      if recvCount <= 0 { return 0; }
      totalMsec := totalMsec + recvCount / 2;
      r := (totalMsec / recvCount) % 0x1_0000_0000;
      LatencyIsBetween(Current(), r);
    }

    /** The standard deviation, with the square root rounded down. */
    method StdDev() returns (r: int)
      requires Valid()
      ensures var average := Mean(Total(Current()), Answered(Current())) % 0x1_0000_0000;
              r == Deviation(Variance(Current(), average), Answered(Current())) % 0x1_0000_0000
      ensures forall lo: nat, hi: nat :: Between(Current(), lo, hi) && lo <= hi < 0x1_0000_0000 ==> r <= hi - lo
      // Before the conversion it is the root of the mean of the squared distances from the average.
      ensures var average := Mean(Total(Current()), Answered(Current())) % 0x1_0000_0000;
              RootOfMean(Current(), average, Deviation(Variance(Current(), average), Answered(Current())))
    {
      hide Mean, Deviation, RootOfMean, Variance, Answered, Total, Between, RingSlot, Readings;
      var average := Latency();
      var recvCount, totalVariance := SquaredDistances(average);
      ReadingStatistics(data[..], history, early, average, 0);
      r := Deviation(totalVariance, recvCount) % 0x1_0000_0000;
      StdDevWithinSpread(Current(), average, r);
      StdDevMeans(Current(), average);
    }

    /** The loop of stddev. */
    method SquaredDistances(average: int) returns (recvCount: nat, totalVariance: nat)
      requires data.Length == 32
      ensures recvCount == Answered(data[..]) && totalVariance == Variance(data[..], average)
    {
      recvCount, totalVariance := 0, 0;
      for i := 0 to 32
        invariant recvCount == Answered(data[..i]) && totalVariance == Variance(data[..i], average)
      {
        assert data[..i + 1][..i] == data[..i];
        if data[i].latency >= 0 {
          recvCount := recvCount + 1;
          totalVariance := totalVariance + Square(average - data[i].latency);
        }
      }
      assert data[..32] == data[..];
    }

    method Loss(now: int) returns (r: real)
      requires Valid()
      ensures r == Lost(Current(), now) as real / 32.0 == |Overdue(Current(), now)| as real / 32.0
      ensures 0.0 <= r <= 1.0
    {
      var sendCount, recvCount := 0, 0;
      for i := 0 to 32
        invariant recvCount == Answered(data[..i]) && sendCount == recvCount + Lost(data[..i], now)
      {
        assert data[..i + 1][..i] == data[..i];
        if data[i].latency >= 0 {
          recvCount := recvCount + 1;
          sendCount := sendCount + 1;
        } else if data[i].timestamp > 0 && data[i].timestamp < now - 1000 {
          sendCount := sendCount + 1;
        }
      }
      assert data[..32] == data[..];
      ReadingStatistics(data[..], history, early, 0, now);
      LostAtMost(data[..], now);
      LostCountsOverdue(Current(), now);
      if sendCount <= 0 { return 0.0; }
      r := (sendCount - recvCount) as real / 32.0;
    }

    /** The largest answered latency below the top of the unsigned range. */
    method Maximum() returns (r: int)
      requires Valid()
      ensures forall i :: 0 <= i < 32 && 0 <= data[i].latency < 0xFFFF_FFFF ==> data[i].latency <= r
      ensures r == 0 || exists i :: 0 <= i < 32 && data[i].latency == r < 0xFFFF_FFFF
    {
      r := 0;
      for i := 0 to 32
        invariant 0 <= r
        invariant forall k :: 0 <= k < i && 0 <= data[k].latency < 0xFFFF_FFFF ==> data[k].latency <= r
        invariant r == 0 || exists k :: 0 <= k < i && data[k].latency == r < 0xFFFF_FFFF
      {
        if data[i].latency >= 0 && data[i].latency > r && data[i].latency < 0xFFFF_FFFF {
          r := data[i].latency;
        }
      }
    }
  }
}
