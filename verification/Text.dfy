/** Qt's split, join and trimmed on sequences, QByteArray for the sockets and QString for configurations,
    and QString::toInt. */
module Text {

  type Byte = x: int | 0 <= x < 256

  /** The position of the first `c`, or the length. */
  function IndexOf<T(==)>(s: seq<T>, c: T): (p: nat)
    ensures p <= |s| && (forall k :: 0 <= k < p ==> s[k] != c) && (p < |s| ==> s[p] == c)
  {
    if s == [] || s[0] == c then 0 else IndexOf(s[1..], c) + 1
  }

  lemma IndexOfUnique<T>(s: seq<T>, c: T, p: nat)
    requires p <= |s| && (forall k :: 0 <= k < p ==> s[k] != c) && (p < |s| ==> s[p] == c)
    ensures IndexOf(s, c) == p
  {
    var q := IndexOf(s, c);
  }

  /** The pieces between separators, empty ones kept; never the empty list. */
  function Split<T(==)>(s: seq<T>, c: T): (parts: seq<seq<T>>)
    ensures parts != []
    ensures forall i :: 0 <= i < |parts| ==> c !in parts[i]
    decreases |s|
  {
    var p := IndexOf(s, c);
    if p == |s| then [s] else [s[..p]] + Split(s[p + 1..], c)
  }

  function Join<T>(parts: seq<seq<T>>, sep: seq<T>): seq<T> {
    if parts == [] then []
    else if |parts| == 1 then parts[0]
    else parts[0] + sep + Join(parts[1..], sep)
  }

  lemma SplitUnfold<T>(head: seq<T>, c: T, rest: seq<T>)
    requires c !in head
    ensures Split(head + [c] + rest, c) == [head] + Split(rest, c)
    ensures Split(head, c) == [head]
  {
    var s := head + [c] + rest;
    assert s[..|head|] == head;
    IndexOfUnique(s, c, |head|);
    assert s[|head| + 1..] == rest;
    assert head[..|head|] == head;
    IndexOfUnique(head, c, |head|);
  }

  lemma Reassociate<T>(x: seq<T>, y: seq<T>, z: seq<T>)
    ensures x + (y + z) == x + y + z
  {}

  lemma CutAt<T>(s: seq<T>, p: nat)
    requires p < |s|
    ensures s == s[..p] + [s[p]] + s[p + 1..]
  {
    assert s == s[..p] + s[p..];
    assert s[p..] == [s[p]] + s[p + 1..];
    Reassociate(s[..p], [s[p]], s[p + 1..]);
  }

  /** The first piece is what lies ahead of the first separator. */
  lemma SplitFirst<T>(s: seq<T>, c: T)
    ensures var p := IndexOf(s, c);
            Split(s, c) == if p == |s| then [s] else [s[..p]] + Split(s[p + 1..], c)
  {
    hide Split, IndexOf;
    var p := IndexOf(s, c);
    assert c !in s[..p];
    if p == |s| {
      assert s[..p] == s;
      SplitUnfold(s, c, []);
    } else {
      CutAt(s, p);
      SplitUnfold(s[..p], c, s[p + 1..]);
    }
  }

  /** Splitting undoes joining with the separator. */
  lemma {:induction false} SplitJoin<T>(parts: seq<seq<T>>, c: T)
    requires parts != [] && forall i :: 0 <= i < |parts| ==> c !in parts[i]
    ensures Split(Join(parts, [c]), c) == parts
  {
    if |parts| == 1 {
      SplitUnfold(parts[0], c, []);
    } else {
      var rest := Join(parts[1..], [c]);
      SplitJoin(parts[1..], c);
      SplitUnfold(parts[0], c, rest);
      assert Join(parts, [c]) == parts[0] + [c] + rest;
      assert parts == [parts[0]] + parts[1..];
    }
  }

  function TrimLeft<T>(s: seq<T>, space: T -> bool): seq<T> {
    if s != [] && space(s[0]) then TrimLeft(s[1..], space) else s
  }

  function TrimRight<T>(s: seq<T>, space: T -> bool): seq<T> {
    if s != [] && space(s[|s| - 1]) then TrimRight(s[..|s| - 1], space) else s
  }

  function Trim<T>(s: seq<T>, space: T -> bool): seq<T> {
    TrimRight(TrimLeft(s, space), space)
  }

  ghost predicate Trimmed<T>(s: seq<T>, space: T -> bool) {
    s == [] || (!space(s[0]) && !space(s[|s| - 1]))
  }

  lemma {:induction false} TrimLeftEnds<T>(s: seq<T>, space: T -> bool)
    ensures var r := TrimLeft(s, space);
            (r == [] || !space(r[0])) && forall x :: x in r ==> x in s
  {
    if s != [] && space(s[0]) { TrimLeftEnds(s[1..], space); }
  }

  lemma {:induction false} TrimRightEnds<T>(s: seq<T>, space: T -> bool)
    ensures var r := TrimRight(s, space);
            (r == [] || (!space(r[|r| - 1]) && r[0] == s[0])) && forall x :: x in r ==> x in s
  {
    if s != [] && space(s[|s| - 1]) { TrimRightEnds(s[..|s| - 1], space); }
  }

  /** Trimming leaves no blank at either end, and only trimmed text is left as it is. */
  lemma TrimEnds<T>(s: seq<T>, space: T -> bool)
    ensures Trimmed(Trim(s, space), space)
    ensures forall x :: x in Trim(s, space) ==> x in s
    ensures Trim(s, space) == s <==> Trimmed(s, space)
  {
    TrimLeftEnds(s, space);
    TrimRightEnds(TrimLeft(s, space), space);
  }

  /** A blank before or after does not change what trimming yields. */
  lemma TrimAround<T>(b: T, s: seq<T>, space: T -> bool)
    requires space(b) && Trimmed(s, space)
    ensures Trim([b] + s, space) == s && Trim(s + [b], space) == s
  {
    TrimEnds(s, space);
    assert ([b] + s)[1..] == s;
    assert (s + [b])[..|s|] == s;
    if s == [] {
      assert [b] + s == [b] && s + [b] == [b];
      assert Trim([b], space) == [];
    } else {
      assert TrimLeft(s + [b], space) == s + [b];
    }
  }

  /** Joining undoes splitting. */
  lemma {:induction false} JoinSplit<T>(s: seq<T>, c: T)
    ensures Join(Split(s, c), [c]) == s
    decreases |s|
  {
    var p := IndexOf(s, c);
    if p < |s| {
      var rest, parts := Split(s[p + 1..], c), Split(s, c);
      JoinSplit(s[p + 1..], c);
      assert parts == [s[..p]] + rest && parts[1..] == rest;
      assert Join(parts, [c]) == s[..p] + [c] + Join(rest, [c]);
      assert s == s[..p] + [c] + s[p + 1..];
    }
  }

  predicate Space(c: char) {
    c == ' ' || '\t' <= c <= '\r'
  }

  /** Blank are space, tab, line feed, vertical tab, form feed and carriage return. */
  lemma SpaceIs(c: char)
    ensures Space(c) <==> c as int in {32, 9, 10, 11, 12, 13}
  {}

  /** The value of a text of digits, or -1 for any other text. */
  function Digits(s: string): (r: int)
    ensures r >= -1
  {
    if s == "" then 0
    else
      var front := Digits(s[..|s| - 1]);
      var c := s[|s| - 1];
      if front < 0 || c < '0' || c > '9' then -1 else 10 * front + (c as int - '0' as int)
  }

  lemma {:induction false} DigitsIff(s: string)
    ensures Digits(s) >= 0 <==> forall i :: 0 <= i < |s| ==> '0' <= s[i] <= '9'
  {
    if s != "" { DigitsIff(s[..|s| - 1]); }
  }

  /** QString::toInt: blanks around are ignored, one sign is allowed. The range checks of the callers
      lie well inside the range of int. */
  function ToInt(s: string): (r: (bool, int)) {
    var t := Trim(s, Space);
    var signed := t != "" && (t[0] == '+' || t[0] == '-');
    var digits := if signed then t[1..] else t;
    var n := Digits(digits);
    if digits == "" || n < 0 then (false, 0) else (true, if signed && t[0] == '-' then -n else n)
  }

  /** The decimal text of a number. */
  function Decimal(n: nat): (s: string)
    ensures s != "" && forall i :: 0 <= i < |s| ==> '0' <= s[i] <= '9'
    ensures n < 1000 <==> |s| <= 3
    ensures n < 100 <==> |s| <= 2
    ensures n < 10 <==> |s| <= 1
  {
    if n < 10 then [DigitOf(n)] else Decimal(n / 10) + [DigitOf(n % 10)]
  }

  function DigitOf(d: nat): (c: char)
    requires d < 10
    ensures '0' <= c <= '9' && c as int == '0' as int + d
  {
    ('0' as int + d) as char
  }

  lemma DigitsSnoc(front: string, d: nat)
    requires d < 10
    ensures Digits(front + [DigitOf(d)]) == if Digits(front) < 0 then -1 else 10 * Digits(front) + d
  {
    assert (front + [DigitOf(d)])[..|front|] == front;
  }

  /** Reading a decimal text gives the number back. */
  lemma {:induction false} DigitsOfDecimal(n: nat)
    ensures Digits(Decimal(n)) == n
  {
    hide Digits, DigitOf;
    if n < 10 {
      NoDigits();
      DigitsSnoc("", n);
      assert "" + [DigitOf(n)] == [DigitOf(n)];
    } else {
      DigitsOfDecimal(n / 10);
      DigitsSnoc(Decimal(n / 10), n % 10);
    }
  }

  lemma NoDigits()
    ensures Digits("") == 0
  {}

  /** The texts toInt reads: a sign or none, then digits and at least one of them, blanks around. */
  lemma ToIntIff(s: string)
    ensures ToInt(s).0 <==> var t := Trim(s, Space);
              && t != "" && ('0' <= t[0] <= '9' || (|t| > 1 && (t[0] == '+' || t[0] == '-')))
              && forall i :: 1 <= i < |t| ==> '0' <= t[i] <= '9'
    ensures !ToInt(s).0 ==> ToInt(s).1 == 0
  {
    hide Digits, Trim;
    var t := Trim(s, Space);
    if t != "" && (t[0] == '+' || t[0] == '-') {
      assert forall i :: 1 <= i < |t| ==> t[1..][i - 1] == t[i];
      assert forall i :: 0 <= i < |t| - 1 ==> t[1..][i] == t[i + 1];
      DigitsIff(t[1..]);
    } else {
      DigitsIff(t);
    }
  }

  lemma ToIntOfDecimal(n: nat)
    ensures ToInt(Decimal(n)) == ToInt("+" + Decimal(n)) == (true, n)
    ensures ToInt("-" + Decimal(n)) == (true, 0 - n)
  {
    DigitsOfDecimal(n);
    var s := Decimal(n);
    hide Digits, Decimal;
    TrimEnds(s, Space);
    var t, u := "-" + s, "+" + s;
    TrimEnds(t, Space);
    TrimEnds(u, Space);
    assert Trim(t, Space) == t && t[0] == '-' && t[1..] == s;
    assert Trim(u, Space) == u && u[0] == '+' && u[1..] == s;
    assert Trim(s, Space) == s && s[0] != '-' && s[0] != '+';
  }
}
