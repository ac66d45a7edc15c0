/** Reading a printed WireGuard configuration: what the parser of client/vpnConnection.cpp makes of the
    text that client/daemon/interfaceconfig.cpp prints. */
module WgConfRoundTrip {
  import opened Wrappers
  import opened Text
  import opened WgConf

  // ------------------------------------------------------------- what a line says

  /** A key whose line is found under its own name. */
  predicate PlainKey(key: string) {
    '=' !in key && (key == "" || (!Space(key[0]) && !Space(key[|key| - 1])))
  }

  lemma EntrySplits(key: string, value: string)
    requires '=' !in key
    ensures Split(Entry(key, value), '=') == [key + " "] + Split(" " + value, '=')
  {
    assert Entry(key, value) == (key + " ") + ['='] + (" " + value);
    SplitUnfold(key + " ", '=', " " + value);
  }

  /** A printed entry carries the name of its key, and its trimmed value. */
  lemma EntryReadsBack(key: string, value: string)
    requires PlainKey(key)
    ensures forall name :: Named(Entry(key, value), name) <==> key == name
    ensures ValueOf(Entry(key, value)) == Trim(value, Space)
  {
    EntrySplits(key, value);
    TrimAround(' ', key, Space);
    assert key + [' '] == key + " ";
    JoinSplit(" " + value, '=');
    assert "=" == ['='];
    assert Split(Entry(key, value), '=')[1..] == Split(" " + value, '=');
    assert (" " + value)[1..] == value;
  }

  lemma NoFields(line: string, name: string)
    requires '=' !in line
    ensures !Named(line, name)
  {
    SplitUnfold(line, '=', "");
  }

  /** Rendering from the front. */
  lemma {:induction false} RenderFront(lines: seq<string>)
    requires lines != []
    ensures Render(lines) == lines[0] + "\n" + Render(lines[1..])
  {
    if |lines| == 1 {
      assert lines[..0] == [] && lines[1..] == [];
    } else {
      var front, last, rest := lines[..|lines| - 1], lines[|lines| - 1], lines[1..];
      RenderFront(front);
      assert front[1..] == rest[..|rest| - 1];
      Regroup(lines[0] + "\n", Render(front[1..]), last, "\n");
    }
  }

  lemma Regroup(a: string, b: string, c: string, d: string)
    ensures a + b + c + d == a + (b + c + d)
  {}

  lemma {:induction false} RenderConcat(a: seq<string>, b: seq<string>)
    ensures Render(a + b) == Render(a) + Render(b)
  {
    if b == [] {
      assert a + b == a;
    } else {
      var front, last := b[..|b| - 1], b[|b| - 1];
      RenderConcat(a, front);
      assert (a + b)[..|a + b| - 1] == a + front;
      Regroup(Render(a), Render(front), last, "\n");
    }
  }

  /** Splitting at a separator in the middle. */
  lemma {:induction false} SplitThrough(x: string, c: char, y: string)
    ensures Split(x + [c] + y, c) == Split(x, c) + Split(y, c)
    decreases |x|
  {
    hide Split;
    var p := IndexOf(x, c);
    if p == |x| {
      SplitUnfold(x, c, y);
    } else {
      var head, rest := x[..p], x[p + 1..];
      CutAt(x, p);
      assert x + [c] + y == head + [c] + (rest + [c] + y);
      SplitUnfold(head, c, rest);
      SplitUnfold(head, c, rest + [c] + y);
      SplitThrough(rest, c, y);
      assert [head] + Split(rest, c) + Split(y, c) == [head] + (Split(rest, c) + Split(y, c));
    }
  }

  /** Text that follows rendered lines is split by itself. */
  lemma SplitAfterLines(lines: seq<string>, rest: string)
    requires lines != []
    ensures exists front :: Split(Render(lines), '\n') == front + [""]
              && Split(Render(lines) + rest, '\n') == front + Split(rest, '\n')
  {
    hide Split;
    var body := Render(lines[..|lines| - 1]) + lines[|lines| - 1];
    assert Render(lines) == body + ['\n'] + "";
    assert Render(lines) + rest == body + ['\n'] + rest;
    SplitThrough(body, '\n', "");
    SplitThrough(body, '\n', rest);
    SplitUnfold("", '\n', "");
  }

  lemma {:induction false} FindConcat(a: seq<string>, b: seq<string>, name: string)
    ensures FindValue(a + b, name) == if FindValue(a, name).Some? then FindValue(a, name) else FindValue(b, name)
  {
    hide Named, ValueOf;
    if a == [] {
      assert a + b == b;
    } else {
      assert (a + b)[0] == a[0] && (a + b)[1..] == a[1..] + b;
      FindConcat(a[1..], b, name);
    }
  }

  /** A name is looked for in the lines ahead first, and then in what follows. */
  lemma FindInTwo(lines: seq<string>, rest: string, name: string)
    requires lines != [] && name != ""
    ensures var ahead := FindValue(Split(Render(lines), '\n'), name);
            FindValue(Split(Render(lines) + rest, '\n'), name)
            == if ahead.Some? then ahead else FindValue(Split(rest, '\n'), name)
  {
    hide Split, Named, ValueOf, Render;
    SplitAfterLines(lines, rest);
    var front :| Split(Render(lines), '\n') == front + [""]
      && Split(Render(lines) + rest, '\n') == front + Split(rest, '\n');
    FindConcat(front, [""], name);
    FindConcat(front, Split(rest, '\n'), name);
    NoFields("", name);
    assert [""][1..] == [];
  }

  lemma {:induction false} NotFound(lines: seq<string>, name: string)
    requires forall l :: l in lines ==> !Named(l, name)
    ensures FindValue(lines, name) == None
  {
    if lines != [] {
      assert lines[0] in lines;
      NotFound(lines[1..], name);
    }
  }

  // ------------------------------------------------------------- the list of ranges

  /** A range the list format can carry. */
  predicate ItemOk(r: string) {
    r != "" && ',' !in r && '\n' !in r && !Space(r[0]) && !Space(r[|r| - 1])
  }

  lemma {:induction false} PiecesOfJoin(blank: string, ranges: seq<string>)
    requires ranges != [] && (blank == "" || blank == " ") && forall r :: r in ranges ==> ItemOk(r)
    ensures Pieces(Split(blank + Join(ranges, ", "), ',')) == ranges
    decreases |ranges|
  {
    hide Split, Trim;
    var r := ranges[0];
    assert r in ranges;
    var piece := blank + r;
    PieceReadsBack(blank, r);
    if |ranges| == 1 {
      SplitUnfold(piece, ',', "");
      assert [piece][1..] == [];
    } else {
      var rest := " " + Join(ranges[1..], ", ");
      assert blank + Join(ranges, ", ") == piece + [','] + rest;
      SplitUnfold(piece, ',', rest);
      PiecesOfJoin(" ", ranges[1..]);
      assert ([piece] + Split(rest, ','))[1..] == Split(rest, ',');
      assert ranges == [r] + ranges[1..];
    }
  }

  lemma PieceReadsBack(blank: string, r: string)
    requires (blank == "" || blank == " ") && ItemOk(r)
    ensures Trim(blank + r, Space) == r && ',' !in blank + r
  {
    TrimEnds(r, Space);
    TrimAround(' ', r, Space);
    if blank == "" { assert blank + r == r; } else { assert blank + r == [' '] + r; }
  }

  lemma {:induction false} JoinTrimmed(ranges: seq<string>)
    requires forall r :: r in ranges ==> ItemOk(r)
    ensures Trimmed(Join(ranges, ", "), Space) && '\n' !in Join(ranges, ", ")
    ensures ranges != [] ==> Join(ranges, ", ") != ""
  {
    if ranges != [] {
      assert ranges[0] in ranges;
      JoinTrimmed(ranges[1..]);
    }
  }

  lemma ListReadsBack(ranges: seq<string>)
    requires forall r :: r in ranges ==> ItemOk(r)
    ensures Pieces(Split(Trim(Join(ranges, ", "), Space), ',')) == ranges
  {
    var text := Join(ranges, ", ");
    JoinTrimmed(ranges);
    TrimEnds(text, Space);
    if ranges == [] {
      SplitUnfold("", ',', "");
      assert [""][1..] == [];
    } else {
      assert "" + text == text;
      PiecesOfJoin("", ranges);
    }
  }

  /** What the parser finds in the last lines: the ranges, and the first line of the interval. */
  lemma FootFound(ranges: seq<string>, keepalive: string)
    requires forall r :: r in ranges ==> ItemOk(r)
    ensures var lines := Split(Render(Foot(ranges, keepalive)), '\n');
            && FindValue(lines, "AllowedIPs") == Some(Trim(Join(ranges, ", "), Space))
            && FindValue(lines, "PersistentKeepalive")
               == if keepalive == "" then None else Some(Trim(Split(keepalive, '\n')[0], Space))
  {
    hide Named, ValueOf, Split, Trim, Join, Render, FindValue, Entry;
    var allowed := Entry("AllowedIPs", Join(ranges, ", "));
    EntryReadsBack("AllowedIPs", Join(ranges, ", "));
    JoinTrimmed(ranges);
    EntryOneLine("AllowedIPs", Join(ranges, ", "));
    var rest := if keepalive != "" then [Entry("PersistentKeepalive", keepalive)] else [];
    FootSplits(allowed, rest);
    FindFirst(allowed, Split(Render(rest), '\n'), "AllowedIPs");
    FindFirst(allowed, Split(Render(rest), '\n'), "PersistentKeepalive");
    if keepalive == "" { NothingFound("PersistentKeepalive"); } else { KeepaliveFound(keepalive); }
  }

  lemma EntryOneLine(key: string, value: string)
    requires '\n' !in key && '\n' !in value
    ensures '\n' !in Entry(key, value)
  {}

  lemma FootSplits(line: string, rest: seq<string>)
    requires '\n' !in line
    ensures Split(Render([line] + rest), '\n') == [line] + Split(Render(rest), '\n')
  {
    hide Split;
    RenderFront([line] + rest);
    assert ([line] + rest)[1..] == rest;
    assert Render([line] + rest) == line + ['\n'] + Render(rest);
    SplitUnfold(line, '\n', Render(rest));
  }

  lemma FindFirst(line: string, rest: seq<string>, name: string)
    ensures FindValue([line] + rest, name) == if Named(line, name) then Some(ValueOf(line)) else FindValue(rest, name)
  {
    hide Named, ValueOf;
    assert ([line] + rest)[1..] == rest;
  }

  lemma NothingFound(name: string)
    requires name != ""
    ensures FindValue(Split(Render([]), '\n'), name) == None
  {
    SplitUnfold("", '\n', "");
    NoFields("", name);
    NotFound([""], name);
  }

  lemma KeepaliveFound(keepalive: string)
    ensures FindValue(Split(Render([Entry("PersistentKeepalive", keepalive)]), '\n'), "PersistentKeepalive")
         == Some(Trim(Split(keepalive, '\n')[0], Space))
  {
    FirstLineFound("PersistentKeepalive", keepalive);
  }

  lemma FirstLineFound(key: string, value: string)
    requires PlainKey(key) && '\n' !in key
    ensures FindValue(Split(Render([Entry(key, value)]), '\n'), key) == Some(Trim(Split(value, '\n')[0], Space))
  {
    hide Named, ValueOf, Trim, Render, FindValue, Entry, Split, PlainKey;
    var first := Split(value, '\n')[0];
    EntryFirstLine(key, value);
    var rest :| Split(Entry(key, value) + "\n", '\n') == [Entry(key, first)] + rest;
    RenderOne(Entry(key, value));
    EntryReadsBack(key, first);
    FindFirst(Entry(key, first), rest, key);
  }

  lemma RenderOne(line: string)
    ensures Render([line]) == line + "\n"
  {
    assert [line][..0] == [];
  }

  /** An entry whose value spans lines starts with the entry of the value's first line. */
  lemma EntryFirstLine(key: string, value: string)
    requires '\n' !in key
    ensures exists rest :: Split(Entry(key, value) + "\n", '\n') == [Entry(key, Split(value, '\n')[0])] + rest
  {
    var p := IndexOf(value, '\n');
    var first := value[..p];
    assert Split(value, '\n')[0] == first;
    var text := Entry(key, value) + "\n";
    var tail := if p == |value| then "" else value[p + 1..] + "\n";
    assert text == Entry(key, first) + ['\n'] + tail;
    SplitUnfold(Entry(key, first), '\n', tail);
    assert Split(text, '\n') == [Entry(key, first)] + Split(tail, '\n');
  }

  lemma ConfIsRendered(c: PrintedConfig, extra: seq<(string, string)>)
    requires Printable(c)
    ensures Conf(c, extra) == Render(Head(c, extra)) + Render(Foot(c.ranges, c.keepalive)) && Head(c, extra) != []
  {
    RenderConcat(Head(c, extra), Foot(c.ranges, c.keepalive));
  }

  // ------------------------------------------------------------- loose lines

  /** A key under which the parser looks for nothing. */
  predicate KeyHarmless(key: string) {
    PlainKey(key) && '\n' !in key && key != "AllowedIPs" && key != "PersistentKeepalive"
  }

  /** The lines that an entry adds to the text without the printer's saying so: all behind the first line
      of its value, and the entry itself under a key that is not harmless. */
  function Loose(key: string, value: string): seq<string> {
    if KeyHarmless(key) then Split(value, '\n')[1..] else Split(Entry(key, value), '\n')
  }

  function LooseOf(pairs: seq<(string, string)>, evenEmpty: bool): seq<string> {
    if pairs == [] then []
    else
      var (key, value) := pairs[|pairs| - 1];
      LooseOf(pairs[..|pairs| - 1], evenEmpty) + if value == "" && !evenEmpty then [] else Loose(key, value)
  }

  function DnsLoose(c: PrintedConfig): seq<string> {
    if c.primaryDns != "" then Loose("DNS", Join(DnsServers(c), ", ")) else []
  }

  /** The loose lines ahead of the allowed ranges, read off the values that are printed unchecked. */
  function LooseLines(c: PrintedConfig, extra: seq<(string, string)>): seq<string> {
    (if c.mtu.Some? then Loose("MTU", c.mtu.value) else []) +
    DnsLoose(c) +
    LooseOf(c.obfuscation, false) + LooseOf(c.specialJunk, false) + LooseOf(c.session, false) + LooseOf(extra, true) +
    Loose("Endpoint", c.serverIpv4AddrIn + ":" + c.serverPort)
  }

  /** The lines of a text of lines that may themselves span lines. */
  function PiecesOf(lines: seq<string>): seq<string> {
    if lines == [] then [] else PiecesOf(lines[..|lines| - 1]) + Split(lines[|lines| - 1], '\n')
  }

  lemma {:induction false} PiecesOfConcat(a: seq<string>, b: seq<string>)
    ensures PiecesOf(a + b) == PiecesOf(a) + PiecesOf(b)
  {
    hide Split;
    if b == [] {
      assert a + b == a;
    } else {
      PiecesOfConcat(a, b[..|b| - 1]);
      assert (a + b)[..|a + b| - 1] == a + b[..|b| - 1];
      Reassociate(PiecesOf(a), PiecesOf(b[..|b| - 1]), Split(b[|b| - 1], '\n'));
    }
  }

  lemma PiecesOfOne(line: string)
    ensures PiecesOf([line]) == Split(line, '\n')
  {
    hide Split;
    assert [line][..0] == [];
  }

  lemma {:induction false} RenderPieces(lines: seq<string>)
    ensures Split(Render(lines), '\n') == PiecesOf(lines) + [""]
  {
    hide Split;
    if lines == [] {
      SplitUnfold("", '\n', "");
    } else {
      var front, last := lines[..|lines| - 1], lines[|lines| - 1];
      RenderPieces(front);
      assert Render(lines) == (Render(front) + last) + ['\n'] + "";
      SplitThrough(Render(front) + last, '\n', "");
      SplitUnfold("", '\n', "");
      if front == [] {
        assert Render(front) + last == last;
      } else {
        SplitAfterLines(front, last);
        var fr :| Split(Render(front), '\n') == fr + [""]
          && Split(Render(front) + last, '\n') == fr + Split(last, '\n');
        assert fr == (fr + [""])[..|fr|] == (PiecesOf(front) + [""])[..|fr|] == PiecesOf(front);
      }
    }
  }

  /** Both lists yield the same value under either name. */
  ghost predicate Alike(a: seq<string>, b: seq<string>) {
    FindValue(a, "AllowedIPs") == FindValue(b, "AllowedIPs") &&
    FindValue(a, "PersistentKeepalive") == FindValue(b, "PersistentKeepalive")
  }

  lemma AlikeConcat(a: seq<string>, b: seq<string>, a': seq<string>, b': seq<string>)
    requires Alike(a, a') && Alike(b, b')
    ensures Alike(a + b, a' + b')
  {
    hide FindValue;
    FindConcat(a, b, "AllowedIPs");
    FindConcat(a', b', "AllowedIPs");
    FindConcat(a, b, "PersistentKeepalive");
    FindConcat(a', b', "PersistentKeepalive");
  }

  /** Parts of a text, one behind the other. */
  lemma PartsAlike(x: seq<string>, y: seq<string>, x': seq<string>, y': seq<string>)
    requires Alike(PiecesOf(x), x') && Alike(PiecesOf(y), y')
    ensures Alike(PiecesOf(x + y), x' + y')
  {
    hide Alike;
    PiecesOfConcat(x, y);
    AlikeConcat(PiecesOf(x), PiecesOf(y), x', y');
  }

  /** A value behind text without newline: only the first piece grows. */
  lemma SplitBehind(before: string, value: string)
    requires '\n' !in before
    ensures Split(before + value, '\n') == [before + Split(value, '\n')[0]] + Split(value, '\n')[1..]
  {
    hide Split;
    var p := IndexOf(value, '\n');
    SplitFirst(value, '\n');
    if p == |value| {
      SplitUnfold(before + value, '\n', "");
    } else {
      var first, rest := value[..p], value[p + 1..];
      CutAt(value, p);
      assert before + value == (before + first) + ['\n'] + rest;
      SplitUnfold(before + first, '\n', rest);
      assert ([first] + Split(rest, '\n'))[1..] == Split(rest, '\n');
    }
  }

  lemma EntryAlike(key: string, value: string)
    ensures Alike(PiecesOf([Entry(key, value)]), Loose(key, value))
  {
    PiecesOfOne(Entry(key, value));
    if KeyHarmless(key) {
      hide Split, Named, ValueOf;
      var first, rest := Split(value, '\n')[0], Split(value, '\n')[1..];
      assert Entry(key, value) == (key + " = ") + value;
      SplitBehind(key + " = ", value);
      assert Entry(key, first) == (key + " = ") + first;
      EntryReadsBack(key, first);
      FindFirst(Entry(key, first), rest, "AllowedIPs");
      FindFirst(Entry(key, first), rest, "PersistentKeepalive");
    }
  }

  lemma {:induction false} EntriesAlike(pairs: seq<(string, string)>, evenEmpty: bool)
    ensures Alike(PiecesOf(Entries(pairs, evenEmpty)), LooseOf(pairs, evenEmpty))
  {
    hide Alike, PiecesOf, Loose, Entry;
    if pairs == [] {
      NothingAlike();
    } else {
      var (key, value) := pairs[|pairs| - 1];
      var front := pairs[..|pairs| - 1];
      EntriesAlike(front, evenEmpty);
      if value == "" && !evenEmpty {
        assert Entries(front, evenEmpty) + [] == Entries(front, evenEmpty);
        assert LooseOf(front, evenEmpty) + [] == LooseOf(front, evenEmpty);
      } else {
        EntryAlike(key, value);
        PartsAlike(Entries(front, evenEmpty), [Entry(key, value)], LooseOf(front, evenEmpty), Loose(key, value));
      }
    }
  }

  lemma NothingAlike()
    ensures Alike(PiecesOf([]), [])
  {}

  /** A line in one piece that carries neither name adds nothing. */
  lemma LineAlike(line: string)
    requires '\n' !in line && !Named(line, "AllowedIPs") && !Named(line, "PersistentKeepalive")
    ensures Alike(PiecesOf([line]), [])
  {
    hide Named, ValueOf, Split;
    PiecesOfOne(line);
    SplitUnfold(line, '\n', "");
    FindFirst(line, [], "AllowedIPs");
    FindFirst(line, [], "PersistentKeepalive");
    assert [line] + [] == [line];
  }

  lemma PlainLineAlike(line: string)
    requires '=' !in line && '\n' !in line
    ensures Alike(PiecesOf([line]), [])
  {
    hide Alike, PiecesOf;
    NoFields(line, "AllowedIPs");
    NoFields(line, "PersistentKeepalive");
    LineAlike(line);
  }

  /** A checked value is in one piece. */
  lemma CheckedAlike(key: string, value: string)
    requires KeyHarmless(key) && '\n' !in value
    ensures Alike(PiecesOf([Entry(key, value)]), [])
  {
    hide Alike, PiecesOf, Split;
    EntryAlike(key, value);
    SplitUnfold(value, '\n', "");
    assert [value][1..] == [];
  }

  lemma {:induction false} JoinOneLine(parts: seq<string>)
    requires forall p :: p in parts ==> '\n' !in p
    ensures '\n' !in Join(parts, ", ")
  {
    if parts != [] {
      assert parts[0] in parts;
      JoinOneLine(parts[1..]);
    }
  }

  lemma FixedKeysHarmless()
    ensures KeyHarmless("PrivateKey") && KeyHarmless("Address") && KeyHarmless("MTU") && KeyHarmless("DNS")
    ensures KeyHarmless("PublicKey") && KeyHarmless("Endpoint")
  {}

  /** The interface part: its loose lines come from the MTU and the resolvers. */
  lemma InterfaceAlike(c: PrintedConfig)
    requires Printable(c)
    ensures Alike(PiecesOf(InterfaceLines(c)), (if c.mtu.Some? then Loose("MTU", c.mtu.value) else []) +
                                               DnsLoose(c))
  {
    hide Alike, PiecesOf, Loose, Entry, Join, KeyHarmless;
    var address := Join(Present(c.deviceIpv4) + Present(c.deviceIpv6), ", ");
    var first := ["[Interface]"] + [Entry("PrivateKey", c.privateKey)] + [Entry("Address", address)];
    CheckedInterface(c, address);
    var mtu := if c.mtu.Some? then [Entry("MTU", c.mtu.value)] else [];
    var looseMtu := if c.mtu.Some? then Loose("MTU", c.mtu.value) else [];
    NothingAlike();
    if c.mtu.Some? { EntryAlike("MTU", c.mtu.value); }
    PartsAlike(first, mtu, [], looseMtu);
    assert [] + looseMtu == looseMtu;
    var dns := if c.primaryDns != "" then [Entry("DNS", Join(DnsServers(c), ", "))] else [];
    var looseDns := DnsLoose(c);
    if c.primaryDns != "" { EntryAlike("DNS", Join(DnsServers(c), ", ")); }
    PartsAlike(first + mtu, dns, looseMtu, looseDns);
    assert InterfaceLines(c) == first + mtu + dns;
  }

  lemma CheckedInterface(c: PrintedConfig, address: string)
    requires Printable(c) && address == Join(Present(c.deviceIpv4) + Present(c.deviceIpv6), ", ")
    ensures Alike(PiecesOf(["[Interface]"] + [Entry("PrivateKey", c.privateKey)] + [Entry("Address", address)]), [])
  {
    hide Alike, PiecesOf, Entry, KeyHarmless;
    FixedKeysHarmless();
    JoinOneLine(Present(c.deviceIpv4) + Present(c.deviceIpv6));
    PlainLineAlike("[Interface]");
    CheckedAlike("PrivateKey", c.privateKey);
    CheckedAlike("Address", address);
    var none: seq<string> := [];
    assert none + none == none;
    PartsAlike(["[Interface]"], [Entry("PrivateKey", c.privateKey)], [], []);
    PartsAlike(["[Interface]"] + [Entry("PrivateKey", c.privateKey)], [Entry("Address", address)], [], []);
  }

  /** The peer part: only the port is printed unchecked. */
  lemma PeerAlike(c: PrintedConfig)
    requires Printable(c)
    ensures Alike(PiecesOf(Peer(c)), Loose("Endpoint", c.serverIpv4AddrIn + ":" + c.serverPort))
  {
    hide Alike, PiecesOf, Loose, Entry, KeyHarmless;
    var endpoint := c.serverIpv4AddrIn + ":" + c.serverPort;
    FixedKeysHarmless();
    PlainLineAlike("");
    PlainLineAlike("[Peer]");
    CheckedAlike("PublicKey", c.serverPublicKey);
    EntryAlike("Endpoint", endpoint);
    var none: seq<string> := [];
    assert none + none == none;
    PartsAlike([""], ["[Peer]"], [], []);
    PartsAlike([""] + ["[Peer]"], [Entry("PublicKey", c.serverPublicKey)], [], []);
    var front := [""] + ["[Peer]"] + [Entry("PublicKey", c.serverPublicKey)];
    PartsAlike(front, [Entry("Endpoint", endpoint)], [], Loose("Endpoint", endpoint));
    assert [] + Loose("Endpoint", endpoint) == Loose("Endpoint", endpoint);
    assert Peer(c) == front + [Entry("Endpoint", endpoint)];
  }

  /** In the text ahead of the allowed ranges the parser finds what it finds in the loose lines. */
  lemma HeadAlike(c: PrintedConfig, extra: seq<(string, string)>)
    requires Printable(c)
    ensures Alike(Split(Render(Head(c, extra)), '\n'), LooseLines(c, extra))
  {
    HeadPartsAlike(c, extra);
    hide Named, ValueOf, Split, Head, LooseLines, Render, PiecesOf;
    RenderPieces(Head(c, extra));
    NoFields("", "AllowedIPs");
    NoFields("", "PersistentKeepalive");
    assert Alike([""], []) by { assert [""][1..] == []; }
    AlikeConcat(PiecesOf(Head(c, extra)), [""], LooseLines(c, extra), []);
    assert LooseLines(c, extra) + [] == LooseLines(c, extra);
  }

  lemma HeadPartsAlike(c: PrintedConfig, extra: seq<(string, string)>)
    requires Printable(c)
    ensures Alike(PiecesOf(Head(c, extra)), LooseLines(c, extra))
  {
    hide Alike, PiecesOf, Loose, LooseOf, Entries, InterfaceLines, Peer, Join, Printable;
    InterfaceAlike(c);
    PeerAlike(c);
    EntriesAlike(c.obfuscation, false);
    EntriesAlike(c.specialJunk, false);
    EntriesAlike(c.session, false);
    EntriesAlike(extra, true);
    var lines := InterfaceLines(c);
    var loose := (if c.mtu.Some? then Loose("MTU", c.mtu.value) else []) +
                 DnsLoose(c);
    PartsAlike(lines, Entries(c.obfuscation, false), loose, LooseOf(c.obfuscation, false));
    lines, loose := lines + Entries(c.obfuscation, false), loose + LooseOf(c.obfuscation, false);
    PartsAlike(lines, Entries(c.specialJunk, false), loose, LooseOf(c.specialJunk, false));
    lines, loose := lines + Entries(c.specialJunk, false), loose + LooseOf(c.specialJunk, false);
    PartsAlike(lines, Entries(c.session, false), loose, LooseOf(c.session, false));
    lines, loose := lines + Entries(c.session, false), loose + LooseOf(c.session, false);
    PartsAlike(lines, Entries(extra, true), loose, LooseOf(extra, true));
    lines, loose := lines + Entries(extra, true), loose + LooseOf(extra, true);
    PartsAlike(lines, Peer(c), loose, Loose("Endpoint", c.serverIpv4AddrIn + ":" + c.serverPort));
  }

  // ------------------------------------------------------------- the round trip

  /** What reading a printed configuration gives: the allowed ranges and the first line of the keepalive
      interval, unless a loose line carries one of the two names. */
  lemma ConfReads(c: PrintedConfig, extra: seq<(string, string)>)
    requires Printable(c) && forall r :: r in c.ranges ==> ItemOk(r)
    ensures var loose := FindValue(LooseLines(c, extra), "AllowedIPs");
            ReadRanges(Conf(c, extra)) == if loose.Some? then Some(Pieces(Split(loose.value, ','))) else Some(c.ranges)
    ensures var loose := FindValue(LooseLines(c, extra), "PersistentKeepalive");
            FindValue(Split(Conf(c, extra), '\n'), "PersistentKeepalive")
            == if loose.Some? then loose
               else if c.keepalive == "" then None else Some(Trim(Split(c.keepalive, '\n')[0], Space))
  {
    hide Head, Foot, Conf, Render, FindValue, Pieces, Split, Join, Trim, LooseLines, Printable;
    HeadAlike(c, extra);
    ConfIsRendered(c, extra);
    FootFound(c.ranges, c.keepalive);
    ListReadsBack(c.ranges);
    FindInTwo(Head(c, extra), Render(Foot(c.ranges, c.keepalive)), "AllowedIPs");
    FindInTwo(Head(c, extra), Render(Foot(c.ranges, c.keepalive)), "PersistentKeepalive");
  }

  /** No loose line is taken for the allowed ranges, or the first that is says the same. */
  predicate RangesKept(c: PrintedConfig, extra: seq<(string, string)>) {
    var loose := FindValue(LooseLines(c, extra), "AllowedIPs");
    loose.Some? ==> Pieces(Split(loose.value, ',')) == c.ranges
  }

  /** The interval of a configuration; an empty one is not printed. */
  function Interval(c: PrintedConfig): Option<string> {
    if c.keepalive == "" then None else Some(c.keepalive)
  }

  /** No loose line is taken for the interval, which is in one trimmed piece; or the first that is says the
      same. */
  ghost predicate IntervalKept(c: PrintedConfig, extra: seq<(string, string)>) {
    var loose := FindValue(LooseLines(c, extra), "PersistentKeepalive");
    if loose.Some? then loose == Interval(c)
    else Trimmed(c.keepalive, Space) && '\n' !in c.keepalive
  }

  /** The round trip, for every configuration and every added entries: both values read back if and only if
      the configuration is printed at all and the fields keep them. */
  lemma ConfReadsBackIff(c: PrintedConfig, extra: seq<(string, string)>)
    requires forall r :: r in c.ranges ==> ItemOk(r)
    ensures ReadRanges(Conf(c, extra)) == Some(c.ranges) <==> Printable(c) && RangesKept(c, extra)
    ensures Printable(c) ==>
              (FindValue(Split(Conf(c, extra), '\n'), "PersistentKeepalive") == Interval(c) <==> IntervalKept(c, extra))
  {
    hide Render, Lines, Split, Pieces, LooseLines, Trim, Named, ValueOf, Printable;
    if Printable(c) {
      ConfReads(c, extra);
      FirstPieceIsAll(c.keepalive);
    } else {
      NothingFound("AllowedIPs");
      assert Render([]) == "" by { RenderNone(); }
    }
  }

  lemma RenderNone()
    ensures Render([]) == ""
  {}

  /** The trimmed first line of a text is the text if and only if that is trimmed and in one piece. */
  lemma FirstPieceIsAll(s: string)
    ensures Trim(Split(s, '\n')[0], Space) == s <==> Trimmed(s, Space) && '\n' !in s
  {
    hide Split;
    var p := IndexOf(s, '\n');
    SplitFirst(s, '\n');
    TrimEnds(s[..p], Space);
    if p == |s| {
      assert s[..p] == s;
    } else {
      assert s[p] == '\n';
      assert '\n' !in Split(s, '\n')[0];
    }
  }

  /** Nothing is found in the loose lines if and only if none of them carries the name. */
  lemma {:induction false} NoneFoundIff(lines: seq<string>, name: string)
    ensures FindValue(lines, name).None? <==> forall l :: l in lines ==> !Named(l, name)
  {
    hide Named, ValueOf;
    if lines != [] {
      NoneFoundIff(lines[1..], name);
      assert forall l :: l in lines <==> l == lines[0] || l in lines[1..];
    }
  }

  // ------------------------------------------------------------- configurations in one piece

  /** The keys of the optional settings. */
  const ObfuscationKeys: seq<string> := ["Jc", "JMin", "JMax", "S1", "S2", "S3", "S4", "H1", "H2", "H3", "H4"]
  const TimingKeys: seq<string> := [
    "HeaderProtectionKey", "ContentPaddingAddition", "RekeyAfterTime", "RekeyTimeout", "RejectAfterTime"]
  const HandshakeKeys: seq<string> := ["KeepaliveTimeout", "MaxHandshakeAttempts", "RandomTrailers", "DisableCookies"]

  lemma ObfuscationKeysHarmless(key: string)
    requires key in ObfuscationKeys
    ensures KeyHarmless(key)
  {}

  lemma TimingKeysHarmless(key: string)
    requires key in TimingKeys
    ensures KeyHarmless(key)
  {}

  lemma HandshakeKeysHarmless(key: string)
    requires key in HandshakeKeys
    ensures KeyHarmless(key)
  {}

  /** No key the printer uses for a setting is one the parser looks for. */
  lemma SettingKeysHarmless(key: string)
    requires key in ObfuscationKeys || key in TimingKeys || key in HandshakeKeys
    ensures KeyHarmless(key)
  {
    hide KeyHarmless;
    if key in ObfuscationKeys { ObfuscationKeysHarmless(key); }
    else if key in TimingKeys { TimingKeysHarmless(key); }
    else { HandshakeKeysHarmless(key); }
  }

  /** Settings under their own keys, each on one line. */
  predicate SettingsOk(settings: seq<(string, string)>) {
    forall i :: 0 <= i < |settings| ==>
      var (key, value) := settings[i];
      (key in ObfuscationKeys || key in TimingKeys || key in HandshakeKeys) && '\n' !in value
  }

  /** Entries on one line each, under keys where the parser looks for nothing. */
  predicate Harmless(pairs: seq<(string, string)>) {
    forall i :: 0 <= i < |pairs| ==>
      var (key, value) := pairs[i];
      KeyHarmless(key) && '\n' !in value
  }

  lemma SettingsHarmless(settings: seq<(string, string)>)
    requires SettingsOk(settings)
    ensures Harmless(settings)
  {
    hide KeyHarmless;
    forall i | 0 <= i < |settings| ensures KeyHarmless(settings[i].0) {
      SettingKeysHarmless(settings[i].0);
    }
  }

  lemma {:induction false} HarmlessNotLoose(pairs: seq<(string, string)>, evenEmpty: bool)
    requires Harmless(pairs)
    ensures LooseOf(pairs, evenEmpty) == []
  {
    hide KeyHarmless, Split;
    if pairs != [] {
      var (key, value) := pairs[|pairs| - 1];
      HarmlessNotLoose(pairs[..|pairs| - 1], evenEmpty);
      SplitUnfold(value, '\n', "");
      assert [value][1..] == [];
    }
  }

  /** No printed value spans lines, and no added entry takes one of the two names. */
  ghost predicate OneLineValues(c: PrintedConfig, extra: seq<(string, string)>) {
    && SettingsOk(c.obfuscation) && SettingsOk(c.session) && Harmless(c.specialJunk) && Harmless(extra)
    && '\n' !in c.serverPort && '\n' !in c.primaryDns && '\n' !in c.secondaryDns
    && (c.mtu.Some? ==> '\n' !in c.mtu.value)
  }

  /** Then there are no loose lines, so that the ranges read back, and the interval if it is trimmed. */
  lemma OneLineReadsBack(c: PrintedConfig, extra: seq<(string, string)>)
    requires Printable(c) && OneLineValues(c, extra)
    ensures LooseLines(c, extra) == [] && RangesKept(c, extra)
    ensures IntervalKept(c, extra) <==> Trimmed(c.keepalive, Space) && '\n' !in c.keepalive
  {
    hide KeyHarmless, Split, Join, SettingsOk, Harmless, LooseOf;
    FixedKeysHarmless();
    SettingsHarmless(c.obfuscation);
    SettingsHarmless(c.session);
    HarmlessNotLoose(c.obfuscation, false);
    HarmlessNotLoose(c.specialJunk, false);
    HarmlessNotLoose(c.session, false);
    HarmlessNotLoose(extra, true);
    JoinOneLine(DnsServers(c));
    OnePiece("MTU", if c.mtu.Some? then c.mtu.value else "");
    OnePiece("DNS", Join(DnsServers(c), ", "));
    OnePiece("Endpoint", c.serverIpv4AddrIn + ":" + c.serverPort);
  }

  lemma OnePiece(key: string, value: string)
    requires KeyHarmless(key) && '\n' !in value
    ensures Loose(key, value) == []
  {
    hide KeyHarmless, Split;
    SplitUnfold(value, '\n', "");
    assert [value][1..] == [];
  }

  // ------------------------------------------------------------- configurations that do not read back

  const SecondLine := "2.2.2.2/32"

  /** A resolver of two lines: the parser takes the second for the allowed ranges. */
  lemma SpanningResolverMisread(c: PrintedConfig, extra: seq<(string, string)>)
    requires Printable(c) && (forall r :: r in c.ranges ==> ItemOk(r)) && c.mtu.None? && c.secondaryDns == ""
    requires c.primaryDns == "1.1.1.1" + ['\n'] + Entry("AllowedIPs", SecondLine)
    ensures ReadRanges(Conf(c, extra)) == Some([SecondLine])
  {
    hide Conf, FindValue, Pieces, Split, Entry, Named, Printable, LooseOf, Loose, KeyHarmless, LooseLines;
    ConfReads(c, extra);
    ResolverIsLoose(c, extra);
    var more :| LooseLines(c, extra) == [Entry("AllowedIPs", SecondLine)] + more;
    EntryReadsBack("AllowedIPs", SecondLine);
    FindFirst(Entry("AllowedIPs", SecondLine), more, "AllowedIPs");
    TrimEnds(SecondLine, Space);
    ListReadsBack([SecondLine]);
  }

  lemma ResolverIsLoose(c: PrintedConfig, extra: seq<(string, string)>)
    requires Printable(c) && c.mtu.None? && c.secondaryDns == ""
    requires c.primaryDns == "1.1.1.1" + ['\n'] + Entry("AllowedIPs", SecondLine)
    ensures exists more :: LooseLines(c, extra) == [Entry("AllowedIPs", SecondLine)] + more
  {
    hide Split, Entry, LooseOf, Loose, KeyHarmless;
    var two := Entry("AllowedIPs", SecondLine);
    EntryOneLine("AllowedIPs", SecondLine);
    assert c.primaryDns[|"1.1.1.1"|] == '\n';
    assert DnsServers(c) == [c.primaryDns];
    FixedKeysHarmless();
    SecondIsLoose("DNS", "1.1.1.1", two);
    assert LooseLines(c, extra)[0] == two;
    assert LooseLines(c, extra) == [two] + LooseLines(c, extra)[1..];
  }

  lemma SecondIsLoose(key: string, first: string, second: string)
    requires KeyHarmless(key) && '\n' !in first && '\n' !in second
    ensures Loose(key, first + ['\n'] + second) == [second]
  {
    hide Split, KeyHarmless;
    SplitUnfold(first, '\n', second);
    SplitUnfold(second, '\n', "");
    assert ([first] + [second])[1..] == [second];
  }

  /** An interval that is not trimmed, in an otherwise plain configuration. */
  lemma UntrimmedIntervalMisread(c: PrintedConfig, extra: seq<(string, string)>)
    requires Printable(c) && OneLineValues(c, extra) && c.keepalive == "25 "
    requires forall r :: r in c.ranges ==> ItemOk(r)
    ensures FindValue(Split(Conf(c, extra), '\n'), "PersistentKeepalive") != Some(c.keepalive)
  {
    hide Conf, FindValue, Split, Printable, OneLineValues;
    OneLineReadsBack(c, extra);
    ConfReadsBackIff(c, extra);
  }
}
