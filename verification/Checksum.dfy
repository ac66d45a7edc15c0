/** PingSender::inetChecksum (client/mozilla/pingsender.cpp) against the one's complement sum of
    section 2 of RFC 1071. */
module Checksum {
  import opened Text

  type Word = x: int | 0 <= x < 65536

  /** The signed 32-bit accumulator: leaving this range would be undefined behaviour. */
  newtype Int32 = x: int | -0x8000_0000 <= x < 0x8000_0000

  function Load(lo: Byte, hi: Byte): Word {
    var l: int, h: int := lo, hi;
    l + 256 * h
  }

  /** The 16-bit words of a buffer as a little-endian machine loads them; an odd tail byte is the
      low byte of a last word. */
  function Words(data: seq<Byte>): (ws: seq<Word>) {
    if data == [] then []
    else if |data| == 1 then [data[0]]
    else [Load(data[0], data[1])] + Words(data[2..])
  }

  /** The same buffer loaded in network order; an odd tail byte is the high byte. */
  function WordsBigEndian(data: seq<Byte>): (ws: seq<Word>) {
    if data == [] then []
    else if |data| == 1 then [Load(0, data[0])]
    else [Load(data[1], data[0])] + WordsBigEndian(data[2..])
  }

  /** Addition with end-around carry. */
  function OnesAdd(a: Word, b: Word): Word {
    if a + b < 65536 then a + b else a + b - 65535
  }

  /** The sum of RFC 1071: words are added one by one, each carry at once. */
  function OnesSum(ws: seq<Word>): Word {
    if ws == [] then 0 else OnesAdd(ws[0], OnesSum(ws[1..]))
  }

  function Sum(ws: seq<Word>): nat {
    if ws == [] then 0 else ws[0] + Sum(ws[1..])
  }

  /** The Internet checksum: the complement of the one's complement sum. */
  function Checksum(data: seq<Byte>): Word {
    65535 - OnesSum(Words(data))
  }

  /** The representative of n with end-around carry: 0 only for 0, else in 1..65535. */
  function Residue(n: nat): Word {
    if n == 0 then 0 else (n - 1) % 65535 + 1
  }

  lemma ResidueAdd(a: nat, b: nat)
    ensures OnesAdd(Residue(a), Residue(b)) == Residue(a + b)
  {
    if a > 0 && b > 0 {
      var ra: int, rb: int := Residue(a), Residue(b);
      var qa, qb := (a - 1) / 65535, (b - 1) / 65535;
      assert a == 65535 * qa + ra && b == 65535 * qb + rb;
      hide Residue;
      if ra + rb < 65536 {
        ResidueIs(a + b, qa + qb, ra + rb);
      } else {
        ResidueIs(a + b, qa + qb + 1, ra + rb - 65535);
      }
    }
  }

  lemma ResidueIs(n: nat, k: nat, m: nat)
    requires n == 65535 * k + m && 1 <= m <= 65535
    ensures Residue(n) == m
  {}

  lemma {:induction false} OnesSumIsResidue(ws: seq<Word>)
    ensures OnesSum(ws) == Residue(Sum(ws))
  {
    if ws != [] {
      OnesSumIsResidue(ws[1..]);
      ResidueAdd(ws[0], Sum(ws[1..]));
    }
  }

  lemma {:induction false} SumConcat(a: seq<Word>, b: seq<Word>)
    ensures Sum(a + b) == Sum(a) + Sum(b)
  {
    if a == [] {
      assert a + b == b;
    } else {
      SumConcat(a[1..], b);
      assert (a + b)[1..] == a[1..] + b;
    }
  }

  /** Deferred carries: two folds suffice for an accumulator below 2^31. */
  lemma TwoFolds(n: nat)
    requires n < 0x8000_0000
    ensures var once := n / 65536 + n % 65536;
            var twice := once + once / 65536;
            twice % 65536 == Residue(n)
  {
    var hi, lo := n / 65536, n % 65536;
    var once := hi + lo;
    assert n == 65535 * hi + once;
    SameResidue(n, once, hi);
    hide Residue;
    SecondFold(once);
  }

  lemma SecondFold(once: nat)
    requires once < 98303
    ensures (once + once / 65536) % 65536 == Residue(once)
  {
    assert once / 65536 == if once < 65536 then 0 else 1;
  }

  lemma SameResidue(n: nat, m: nat, k: nat)
    requires n == 65535 * k + m && (m == 0 ==> k == 0)
    ensures Residue(n) == Residue(m)
  {}

  /** A buffer of n bytes has at most (n + 1) / 2 words. */
  lemma {:induction false} SumBound(data: seq<Byte>)
    ensures |data| % 2 == 0 ==> Sum(Words(data)) <= |data| / 2 * 65535
    ensures |data| % 2 == 1 ==> Sum(Words(data)) <= |data| / 2 * 65535 + 255
  {
    if |data| > 1 { SumBound(data[2..]); }
  }

  lemma {:induction false} WordsConcat(a: seq<Byte>, b: seq<Byte>)
    requires |a| % 2 == 0
    ensures Words(a + b) == Words(a) + Words(b)
  {
    hide Words, Load;
    if a == [] {
      NoWords();
      assert a + b == b;
    } else {
      WordsConcat(a[2..], b);
      assert (a + b)[2..] == a[2..] + b;
      WordsFront(a);
      WordsFront(a + b);
      Reassociate([Load(a[0], a[1])], Words(a[2..]), Words(b));
    }
  }

  lemma NoWords()
    ensures Words([]) == []
  {}

  lemma WordsFront(data: seq<Byte>)
    requires |data| >= 2
    ensures Words(data) == [Load(data[0], data[1])] + Words(data[2..])
  {}

  /** One more word on the accumulator. */
  lemma SumStep(data: seq<Byte>, w: nat)
    requires w % 2 == 0
    ensures w + 2 <= |data| ==> Sum(Words(data[..w + 2])) == Sum(Words(data[..w])) + Load(data[w], data[w + 1])
    ensures w + 1 == |data| ==> Sum(Words(data)) == Sum(Words(data[..w])) + data[w]
  {
    if w + 2 <= |data| {
      var pair := data[w..w + 2];
      WordsConcat(data[..w], pair);
      assert data[..w + 2] == data[..w] + pair;
      SumConcat(Words(data[..w]), Words(pair));
      assert Words(pair) == [Load(data[w], data[w + 1])];
    } else if w + 1 == |data| {
      WordsConcat(data[..w], data[w..]);
      assert data == data[..w] + data[w..];
      SumConcat(Words(data[..w]), Words(data[w..]));
    }
  }

  /** The source's loop and folds. The accumulator stays in range for every buffer of at most 65537
      bytes. */
  method InetChecksum(data: seq<Byte>) returns (answer: Word)
    requires |data| <= 65537
    ensures answer == Checksum(data)
  {
    var sum: Int32 := 0;
    var nleft, w := |data|, 0;
    while nleft > 1
      invariant 0 <= nleft && w + nleft == |data| && w % 2 == 0
      invariant sum as int == Sum(Words(data[..w]))
      invariant sum as int <= w / 2 * 65535
    {
      SumStep(data, w);
      sum := sum + Load(data[w], data[w + 1]) as Int32;
      w, nleft := w + 2, nleft - 2;
    }
    if nleft == 1 {
      SumStep(data, w);
      sum := sum + data[w] as Int32;
    } else {
      assert data[..w] == data;
    }
    answer := Fold(sum);
    OnesSumIsResidue(Words(data));
  }

  /** Both folds and the complement. */
  method Fold(total: Int32) returns (answer: Word)
    requires total >= 0
    ensures answer == 65535 - Residue(total as int)
  {
    TwoFolds(total as int);
    var sum := total;
    sum := sum / 65536 + sum % 65536;
    sum := sum + sum / 65536;
    answer := 65535 - (sum % 65536) as int;
  }

  // ------------------------------------------------------------- the exact length bound

  function Filled(n: nat): seq<Byte> {
    seq(n, _ => 255)
  }

  lemma {:induction false} FilledSum(n: nat)
    ensures Sum(Words(Filled(2 * n))) == 65535 * n
  {
    if n > 0 {
      FilledSum(n - 1);
      assert Filled(2 * n)[2..] == Filled(2 * n - 2);
    }
  }

  /** The accumulator fits 31 bits for every content of a length, if and only if the length is at
      most 65537: 65538 bytes of 0xff already overflow it. */
  lemma AccumulatorFitsIff(n: nat)
    ensures (forall data: seq<Byte> :: |data| == n ==> Sum(Words(data)) < 0x8000_0000) <==> n <= 65537
  {
    if n <= 65537 {
      forall data: seq<Byte> | |data| == n ensures Sum(Words(data)) < 0x8000_0000 { SumBound(data); }
    } else {
      FilledSum(32769);
      var head := Filled(65538);
      var data := head + Filled(n - 65538);
      WordsConcat(head, Filled(n - 65538));
      SumConcat(Words(head), Words(Filled(n - 65538)));
      assert |data| == n && Sum(Words(data)) >= 0x8000_0000;
    }
  }

  // ------------------------------------------------------------- laws of the checksum

  lemma SumSplit(a: seq<Byte>, b: seq<Byte>)
    requires |a| % 2 == 0
    ensures Sum(Words(a + b)) == Sum(Words(a)) + Sum(Words(b))
  {
    WordsConcat(a, b);
    SumConcat(Words(a), Words(b));
  }

  /** Sums over an even split combine by one's complement addition. */
  lemma SplitCombines(a: seq<Byte>, b: seq<Byte>)
    requires |a| % 2 == 0
    ensures OnesSum(Words(a + b)) == OnesAdd(OnesSum(Words(a)), OnesSum(Words(b)))
  {
    hide Residue, Words, Sum, OnesSum, OnesAdd;
    SumSplit(a, b);
    OnesSumIsResidue(Words(a));
    OnesSumIsResidue(Words(b));
    OnesSumIsResidue(Words(a + b));
    ResidueAdd(Sum(Words(a)), Sum(Words(b)));
  }

  function Low(w: Word): Byte { w % 256 }
  function High(w: Word): Byte { w / 256 }

  /** Storing the checksum of a buffer into a zeroed 16-bit field at an even offset makes the
      checksum of the whole buffer 0, which is what a receiver tests for. */
  lemma StoredChecksumVerifies(before: seq<Byte>, after: seq<Byte>)
    requires |before| % 2 == 0
    ensures var c := Checksum(before + [0, 0] + after);
            Checksum(before + [Low(c), High(c)] + after) == 0
  {
    var zero: seq<Byte> := [0, 0];
    var c := Checksum(before + zero + after);
    var field: seq<Byte> := [Low(c), High(c)];
    var rest := Sum(Words(before)) + Sum(Words(after));
    assert Sum(Words(zero)) == 0 && Sum(Words(field)) == c;
    hide Words, Sum, Checksum, Residue;
    FieldTotal(before, zero, after);
    FieldTotal(before, field, after);
    ChecksumIsResidue(before + zero + after);
    ChecksumIsResidue(before + field + after);
    ComplementCancels(rest);
  }

  lemma FieldTotal(before: seq<Byte>, field: seq<Byte>, after: seq<Byte>)
    requires |before| % 2 == 0 && |field| == 2
    ensures Sum(Words(before + field + after)) == Sum(Words(before)) + Sum(Words(after)) + Sum(Words(field))
  {
    SumSplit(before + field, after);
    SumSplit(before, field);
  }

  lemma ChecksumIsResidue(data: seq<Byte>)
    ensures Checksum(data) == 65535 - Residue(Sum(Words(data)))
  {
    OnesSumIsResidue(Words(data));
  }

  lemma ComplementCancels(n: nat)
    ensures Residue(n + (65535 - Residue(n))) == 65535
  {}

  function Swap(w: Word): Word {
    Load(High(w), Low(w))
  }

  lemma {:induction false} SwappedWords(data: seq<Byte>)
    ensures exists k: nat :: Sum(WordsBigEndian(data)) + 65535 * k == 256 * Sum(Words(data))
    ensures Sum(WordsBigEndian(data)) == 0 <==> Sum(Words(data)) == 0
  {
    if |data| <= 1 {
      assert Sum(WordsBigEndian(data)) + 65535 * 0 == 256 * Sum(Words(data));
    } else {
      SwappedWords(data[2..]);
      var k: nat :| Sum(WordsBigEndian(data[2..])) + 65535 * k == 256 * Sum(Words(data[2..]));
      assert Sum(WordsBigEndian(data)) + 65535 * (k + data[1]) == 256 * Sum(Words(data));
    }
  }

  /** Byte order does not matter: swapping the bytes of the little-endian sum gives the sum in
      network order, the odd tail byte included. */
  lemma ByteOrderIndependent(data: seq<Byte>)
    ensures Swap(OnesSum(Words(data))) == OnesSum(WordsBigEndian(data))
  {
    OnesSumIsResidue(Words(data));
    OnesSumIsResidue(WordsBigEndian(data));
    SwappedWords(data);
    var k: nat :| Sum(WordsBigEndian(data)) + 65535 * k == 256 * Sum(Words(data));
    SwapResidue(Sum(Words(data)), Sum(WordsBigEndian(data)), k);
  }

  lemma SwapOne(w: Word)
    ensures 256 * w == Swap(w) + 65535 * High(w)
  {}

  lemma SwapResidue(le: nat, be: nat, k: nat)
    requires be + 65535 * k == 256 * le && (le == 0 <==> be == 0)
    ensures Swap(Residue(le)) == Residue(be)
  {
    if le > 0 {
      var q, r := (le - 1) / 65535, Residue(le);
      assert le == 65535 * q + r;
      var s := Swap(r);
      SwapOne(r);
      hide Swap, Residue;
      assert be + 65535 * k == 65535 * (256 * q + High(r)) + s;
      SameResidue(be, s, 256 * q + High(r) - k);
    }
  }
}
