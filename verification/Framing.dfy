/** The line protocol between daemon and client: two different read loops over one wire format
    (client/daemon/daemonlocalserverconnection.cpp, client/mozilla/localsocketcontroller.cpp). */
module Framing {
  import opened Text

  type Bytes = seq<Byte>

  const Newline: Byte := 10

  /** isspace, as QByteArray::trimmed uses it. */
  predicate Blank(b: Byte) {
    b == 32 || 9 <= b <= 13
  }

  /** A line ends at byte 10, and the bytes trimmed off it are tab to carriage return and the space. */
  lemma BytesOfTheFormat(b: Byte)
    ensures Newline == 10 && (Blank(b) <==> b in {9, 10, 11, 12, 13, 32})
  {}

  /** The reference: cut at newlines; the last piece is the unterminated tail, the others are lines;
      lines are trimmed and blank ones dropped. */
  function Tail(stream: Bytes): Bytes {
    var parts := Split(stream, Newline);
    parts[|parts| - 1]
  }

  function Commands(stream: Bytes): seq<Bytes> {
    var parts := Split(stream, Newline);
    Clean(parts[..|parts| - 1])
  }

  function Clean(lines: seq<Bytes>): seq<Bytes> {
    if lines == [] then []
    else Command(lines[0]) + Clean(lines[1..])
  }

  function Command(line: Bytes): seq<Bytes> {
    var command := Trim(line, Blank);
    if command == [] then [] else [command]
  }

  function Concat(chunks: seq<Bytes>): Bytes {
    if chunks == [] then [] else Concat(chunks[..|chunks| - 1]) + chunks[|chunks| - 1]
  }

  /** One line off the front. */
  lemma FirstLine(stream: Bytes, pos: nat)
    requires pos == IndexOf(stream, Newline)
    ensures pos == |stream| ==> Commands(stream) == [] && Tail(stream) == stream
    ensures pos < |stream| ==>
              && Commands(stream) == Command(stream[..pos]) + Commands(stream[pos + 1..])
              && Tail(stream) == Tail(stream[pos + 1..])
  {
    hide Clean, Command, Split;
    FirstPiece(stream, pos);
    if pos < |stream| {
      AfterFirst(stream[..pos], Split(stream[pos + 1..], Newline));
    } else {
      NoLines();
      assert [stream][..0] == [];
    }
  }

  lemma FirstPiece(stream: Bytes, pos: nat)
    requires pos == IndexOf(stream, Newline)
    ensures Split(stream, Newline)
         == if pos == |stream| then [stream] else [stream[..pos]] + Split(stream[pos + 1..], Newline)
  {
    hide Split;
    SplitFirst(stream, Newline);
  }

  lemma NoLines()
    ensures Clean([]) == []
  {}

  lemma AfterFirst(line: Bytes, rest: seq<Bytes>)
    requires rest != []
    ensures var parts := [line] + rest;
            && Clean(parts[..|parts| - 1]) == Command(line) + Clean(rest[..|rest| - 1])
            && parts[|parts| - 1] == rest[|rest| - 1]
  {
    var parts := [line] + rest;
    assert parts[..|parts| - 1] == [line] + rest[..|rest| - 1];
    assert parts[..|parts| - 1][1..] == rest[..|rest| - 1];
  }

  /** Framing a stream in two parts: the tail of the first is the start of the second. */
  lemma {:induction false} CommandsConcat(a: Bytes, b: Bytes)
    ensures Commands(a + b) == Commands(a) + Commands(Tail(a) + b)
    ensures Tail(a + b) == Tail(Tail(a) + b)
    decreases |a|
  {
    var pos := IndexOf(a, Newline);
    FirstLine(a, pos);
    if pos < |a| {
      var line, rest := a[..pos], a[pos + 1..];
      CommandsConcat(rest, b);
      LineBeforeBoth(a, b, pos);
      Reassociate(Command(line), Commands(rest), Commands(Tail(a) + b));
    }
  }

  lemma LineBeforeBoth(a: Bytes, b: Bytes, pos: nat)
    requires pos == IndexOf(a, Newline) && pos < |a|
    ensures Commands(a + b) == Command(a[..pos]) + Commands(a[pos + 1..] + b)
    ensures Tail(a + b) == Tail(a[pos + 1..] + b)
  {
    hide Commands, Tail, Command;
    assert (a + b)[..pos] == a[..pos];
    IndexOfUnique(a + b, Newline, pos);
    FirstLine(a + b, pos);
    assert (a + b)[pos + 1..] == a[pos + 1..] + b;
  }

  /** One step of either loop, on values. */
  lemma LoopStep(delivered: seq<Bytes>, buffer: Bytes, pos: nat)
    requires pos == IndexOf(buffer, Newline) && pos < |buffer|
    ensures delivered + Commands(buffer) == delivered + Command(buffer[..pos]) + Commands(buffer[pos + 1..])
    ensures Tail(buffer) == Tail(buffer[pos + 1..])
  {
    FirstLine(buffer, pos);
  }

  /** LocalSocketController's side: read once, then cut lines. */
  class ClientReader {
    var buffer: Bytes
    var delivered: seq<Bytes>

    constructor ()
      ensures buffer == [] && delivered == []
    {
      buffer, delivered := [], [];
    }

    method ReadData(input: Bytes)
      modifies this
      ensures delivered == old(delivered) + Commands(old(buffer) + input)
      ensures buffer == Tail(old(buffer) + input)
    {
      buffer := buffer + input;
      ghost var stream := buffer;
      while true
        invariant delivered + Commands(buffer) == old(delivered) + Commands(stream)
        invariant Tail(buffer) == Tail(stream)
        decreases |buffer|
      {
        var pos := IndexOf(buffer, Newline);
        if pos == |buffer| {
          FirstLine(buffer, pos);
          break;
        }
        LoopStep(delivered, buffer, pos);
        var command := Trim(buffer[..pos], Blank);
        buffer := buffer[pos + 1..];
        if command != [] { delivered := delivered + [command]; }
      }
    }

    /** Whatever the division into reads, the commands of the whole stream come out in order and the
        unterminated tail stays. */
    method Feed(chunks: seq<Bytes>)
      requires Newline !in buffer
      modifies this
      ensures delivered == old(delivered) + Commands(old(buffer) + Concat(chunks))
      ensures buffer == Tail(old(buffer) + Concat(chunks))
    {
      NothingYet(buffer);
      for i := 0 to |chunks|
        invariant delivered == old(delivered) + Commands(old(buffer) + Concat(chunks[..i]))
        invariant buffer == Tail(old(buffer) + Concat(chunks[..i]))
      {
        OneMoreRead(old(delivered), old(buffer), chunks, i);
        ReadData(chunks[i]);
      }
      assert chunks[..|chunks|] == chunks;
    }
  }

  /** Before any read: the buffer holds no complete line. */
  lemma NothingYet(buffer: Bytes)
    requires Newline !in buffer
    ensures Commands(buffer + Concat([])) == [] && Tail(buffer + Concat([])) == buffer
  {
    assert buffer + [] == buffer;
    FirstLine(buffer, |buffer|);
  }

  lemma OneMoreRead(delivered: seq<Bytes>, buffer: Bytes, chunks: seq<Bytes>, i: nat)
    requires i < |chunks|
    ensures var sofar := buffer + Concat(chunks[..i]);
            && delivered + Commands(buffer + Concat(chunks[..i + 1]))
               == delivered + Commands(sofar) + Commands(Tail(sofar) + chunks[i])
            && Tail(buffer + Concat(chunks[..i + 1])) == Tail(Tail(sofar) + chunks[i])
  {
    var sofar := buffer + Concat(chunks[..i]);
    assert chunks[..i + 1][..i] == chunks[..i];
    assert buffer + Concat(chunks[..i + 1]) == sofar + chunks[i];
    CommandsConcat(sofar, chunks[i]);
    Reassociate(delivered, Commands(sofar), Commands(Tail(sofar) + chunks[i]));
  }

  /** DaemonLocalServerConnection's side: cut lines, and read again only when none is left, until a
      read comes back empty. */
  class ServerReader {
    var buffer: Bytes
    var delivered: seq<Bytes>

    constructor ()
      ensures buffer == [] && delivered == []
    {
      buffer, delivered := [], [];
    }

    /** `inputs` is what successive calls of readAll would return; after the last one they return
        nothing. The loop consumes the inputs before the first empty one. */
    method ReadData(inputs: seq<Bytes>) returns (consumed: nat)
      requires Newline !in buffer
      modifies this
      ensures consumed <= |inputs| && [] !in inputs[..consumed] && (consumed < |inputs| ==> inputs[consumed] == [])
      ensures delivered == old(delivered) + Commands(old(buffer) + Concat(inputs[..consumed]))
      ensures buffer == Tail(old(buffer) + Concat(inputs[..consumed]))
    {
      hide Commands, Tail, Concat;
      consumed := 0;
      NothingYet(buffer);
      FirstLine(buffer, |buffer|);
      ghost var start := old(buffer);
      while true
        invariant consumed <= |inputs| && [] !in inputs[..consumed]
        invariant delivered + Commands(buffer) == old(delivered) + Commands(start + Concat(inputs[..consumed]))
        invariant Tail(buffer) == Tail(start + Concat(inputs[..consumed]))
        decreases |inputs| - consumed, |buffer|
      {
        var pos := IndexOf(buffer, Newline);
        FirstLine(buffer, pos);
        if pos == |buffer| {
          if consumed == |inputs| || inputs[consumed] == [] { break; }
          OneMoreRead(old(delivered), start, inputs, consumed);
          assert inputs[..consumed + 1] == inputs[..consumed] + [inputs[consumed]];
          buffer := buffer + inputs[consumed];
          consumed := consumed + 1;
          continue;
        }
        LoopStep(delivered, buffer, pos);
        var command := Trim(buffer[..pos], Blank);
        buffer := buffer[pos + 1..];
        if command != [] { delivered := delivered + [command]; }
      }
    }

    /** Any number of events, each with what readAll returns while it is served: as on the other side, the
        division does not matter. */
    method Feed(events: seq<seq<Bytes>>)
      requires Newline !in buffer && forall i :: 0 <= i < |events| ==> [] !in events[i]
      modifies this
      ensures delivered == old(delivered) + Commands(old(buffer) + Concat(Flat(events)))
      ensures buffer == Tail(old(buffer) + Concat(Flat(events)))
    {
      hide Commands, Tail, Concat;
      NothingYet(buffer);
      assert Flat(events[..0]) == [];
      for i := 0 to |events|
        invariant Newline !in buffer
        invariant delivered == old(delivered) + Commands(old(buffer) + Concat(Flat(events[..i])))
        invariant buffer == Tail(old(buffer) + Concat(Flat(events[..i])))
      {
        OneMoreEvent(old(delivered), old(buffer), events, i);
        var consumed := ReadData(events[i]);
        assert events[i][..consumed] == events[i];
      }
      assert events[..|events|] == events;
    }
  }

  function Flat(events: seq<seq<Bytes>>): seq<Bytes> {
    if events == [] then [] else Flat(events[..|events| - 1]) + events[|events| - 1]
  }

  lemma {:induction false} ConcatConcat(a: seq<Bytes>, b: seq<Bytes>)
    ensures Concat(a + b) == Concat(a) + Concat(b)
  {
    if b == [] {
      assert a + b == a && Concat(a) + [] == Concat(a);
    } else {
      var front, last := b[..|b| - 1], b[|b| - 1];
      ConcatConcat(a, front);
      assert (a + b)[..|a + b| - 1] == a + front;
      Reassociate(Concat(a), Concat(front), last);
    }
  }

  lemma TailHoldsNoLine(stream: Bytes)
    ensures Newline !in Tail(stream)
  {}

  lemma OneMoreEvent(delivered: seq<Bytes>, buffer: Bytes, events: seq<seq<Bytes>>, i: nat)
    requires i < |events|
    ensures var sofar := buffer + Concat(Flat(events[..i]));
            && delivered + Commands(buffer + Concat(Flat(events[..i + 1])))
               == delivered + Commands(sofar) + Commands(Tail(sofar) + Concat(events[i]))
            && Tail(buffer + Concat(Flat(events[..i + 1]))) == Tail(Tail(sofar) + Concat(events[i]))
            && Newline !in Tail(Tail(sofar) + Concat(events[i]))
  {
    hide Commands, Tail, Concat;
    var sofar := buffer + Concat(Flat(events[..i]));
    assert events[..i + 1][..i] == events[..i];
    ConcatConcat(Flat(events[..i]), events[i]);
    assert buffer + Concat(Flat(events[..i + 1])) == sofar + Concat(events[i]);
    CommandsConcat(sofar, Concat(events[i]));
    Reassociate(delivered, Commands(sofar), Commands(Tail(sofar) + Concat(events[i])));
    TailHoldsNoLine(Tail(sofar) + Concat(events[i]));
  }

  /** Both loops deliver the same commands from the same bytes, however those are divided into events and
      reads on either side. */
  method BothSidesAgree(chunks: seq<Bytes>, events: seq<seq<Bytes>>) returns (client: seq<Bytes>, server: seq<Bytes>)
    requires Concat(chunks) == Concat(Flat(events)) && forall i :: 0 <= i < |events| ==> [] !in events[i]
    ensures client == server == Commands(Concat(chunks))
  {
    var c := new ClientReader();
    c.Feed(chunks);
    var s := new ServerReader();
    s.Feed(events);
    assert [] + Concat(chunks) == Concat(chunks);
    return c.delivered, s.delivered;
  }

  // ------------------------------------------------------------- writing

  /** What write puts on the wire for a list of messages. */
  function Encode(messages: seq<Bytes>): Bytes {
    if messages == [] then [] else messages[0] + [Newline] + Encode(messages[1..])
  }

  /** A message the protocol can carry: compact JSON text is one. */
  ghost predicate Sendable(m: Bytes) {
    m != [] && Newline !in m && Trimmed(m, Blank)
  }

  lemma SendableMeans(m: Bytes)
    ensures Sendable(m) <==> m != [] && 10 !in m && m[0] !in [9, 11, 12, 13, 32] && m[|m| - 1] !in [9, 11, 12, 13, 32]
  {
    if m != [] {
      assert m[0] in m && m[|m| - 1] in m;
      BytesOfTheFormat(m[0]);
      BytesOfTheFormat(m[|m| - 1]);
    }
  }

  /** What comes out is always sendable. */
  lemma {:induction false} CommandsAreSendable(stream: Bytes)
    ensures forall m :: m in Commands(stream) ==> Sendable(m)
    decreases |stream|
  {
    var pos := IndexOf(stream, Newline);
    FirstLine(stream, pos);
    if pos < |stream| {
      CommandsAreSendable(stream[pos + 1..]);
      TrimEnds(stream[..pos], Blank);
    }
  }

  /** A list of messages is recovered unchanged, with nothing left over, if and only if every message
      is sendable. */
  lemma {:induction false} RoundTripIff(messages: seq<Bytes>)
    ensures Commands(Encode(messages)) == messages <==> forall m :: m in messages ==>
              m != [] && 10 !in m && m[0] !in [9, 11, 12, 13, 32] && m[|m| - 1] !in [9, 11, 12, 13, 32]
    ensures (forall m :: m in messages ==> Sendable(m)) ==> Tail(Encode(messages)) == []
  {
    CommandsAreSendable(Encode(messages));
    forall m: Bytes ensures Sendable(m) <==>
        m != [] && 10 !in m && m[0] !in [9, 11, 12, 13, 32] && m[|m| - 1] !in [9, 11, 12, 13, 32]
    {
      SendableMeans(m);
    }
    if forall m :: m in messages ==> Sendable(m) { Recovered(messages); }
  }

  lemma {:induction false} Recovered(messages: seq<Bytes>)
    requires forall m :: m in messages ==> Sendable(m)
    ensures Commands(Encode(messages)) == messages && Tail(Encode(messages)) == []
  {
    if messages == [] {
      FirstLine([], 0);
    } else {
      var m, rest := messages[0], Encode(messages[1..]);
      assert m in messages;
      Recovered(messages[1..]);
      var stream := m + [Newline] + rest;
      assert stream[..|m|] == m;
      IndexOfUnique(stream, Newline, |m|);
      FirstLine(stream, |m|);
      assert stream[|m| + 1..] == rest;
      TrimEnds(m, Blank);
    }
  }
}
