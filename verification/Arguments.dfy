/** sanitizeArguments (ipc/ipc.h): which arguments the privileged service passes to a helper process. */
module Arguments {
  import opened Wrappers
  import opened Text

  datatype Process = Invalid | OpenVpn | Wireguard | Tun2Socks | CertUtil

  /** How an argument is looked up: a key that takes a value, a key without one, or neither. */
  datatype Kind = KeyWithValue | BareKey | NotNamed

  function KindOf(proc: Process, key: string): Kind {
    match proc
    case OpenVpn =>
      if key == "--config" || key == "--management" then KeyWithValue
      else if key == "--management-client" then BareKey
      else NotNamed
    case Tun2Socks =>
      if key == "-device" || key == "-proxy" then KeyWithValue else NotNamed
    case _ => NotNamed
  }

  predicate ValueOk(proc: Process, key: string, v: string) {
    match proc
    case OpenVpn => v != ""
    case Tun2Socks => if key == "-device" then "tun://" <= v else "socks5://" <= v
    case _ => false
  }

  function Positionals(proc: Process): nat {
    if proc.OpenVpn? then 1 else 0
  }

  predicate PositionalOk(v: string) {
    var (ok, port) := ToInt(v);
    ok && 0 < port <= 65535
  }

  /** What the loop keeps of `args` when `pos` positionals were already taken. */
  function Kept(proc: Process, args: seq<string>, pos: nat): seq<string> {
    if args == [] then []
    else
      match KindOf(proc, args[0])
      case KeyWithValue =>
        if |args| > 1 && ValueOk(proc, args[0], args[1]) then args[..2] + Kept(proc, args[2..], pos)
        else Kept(proc, args[1..], pos)
      case BareKey => args[..1] + Kept(proc, args[1..], pos)
      case NotNamed =>
        if pos < Positionals(proc) && PositionalOk(args[0]) then args[..1] + Kept(proc, args[1..], pos + 1)
        else Kept(proc, args[1..], pos)
  }

  function Sanitized(proc: Process, args: seq<string>): seq<string> {
    match proc
    case OpenVpn => Kept(proc, args, 0)
    case Tun2Socks => Kept(proc, args, 0)
    case CertUtil => args
    case _ => []
  }

  /** What the loop takes from position i: the strings it keeps, how far it moves, and whether a
      positional was used up. */
  function Take(proc: Process, args: seq<string>, i: nat, pos: nat): (r: (seq<string>, nat, nat))
    requires i < |args|
    ensures i < r.1 <= |args|
  {
    match KindOf(proc, args[i])
    case KeyWithValue =>
      if i + 1 < |args| && ValueOk(proc, args[i], args[i + 1]) then ([args[i], args[i + 1]], i + 2, pos)
      else ([], i + 1, pos)
    case BareKey => ([args[i]], i + 1, pos)
    case NotNamed =>
      if pos < Positionals(proc) && PositionalOk(args[i]) then ([args[i]], i + 1, pos + 1) else ([], i + 1, pos)
  }

  lemma TakeStep(proc: Process, args: seq<string>, i: nat, pos: nat)
    requires i < |args|
    ensures var (out, next, pos') := Take(proc, args, i, pos);
            Kept(proc, args[i..], pos) == out + Kept(proc, args[next..], pos')
  {
    var rest := args[i..];
    assert rest[1..] == args[i + 1..] && rest[..1] == [args[i]];
    if i + 1 < |args| {
      assert rest[2..] == args[i + 2..] && rest[..2] == [args[i], args[i + 1]];
    }
  }

  method SanitizeArguments(proc: Process, args: seq<string>) returns (sanitized: seq<string>)
    ensures sanitized == Sanitized(proc, args)
  {
    if proc.CertUtil? { return args; }
    if !proc.OpenVpn? && !proc.Tun2Socks? { return []; }
    sanitized := KeepAccepted(proc, args);
  }

  /** The loop over the arguments. */
  method KeepAccepted(proc: Process, args: seq<string>) returns (sanitized: seq<string>)
    ensures sanitized == Kept(proc, args, 0)
  {
    hide KindOf, ValueOk, PositionalOk, Kept, Take;
    sanitized := [];
    var i, pos := 0, 0;
    assert args[0..] == args;
    while i < |args|
      invariant 0 <= i <= |args| && 0 <= pos
      invariant sanitized + Kept(proc, args[i..], pos) == Kept(proc, args, 0)
    {
      TakeStep(proc, args, i, pos);
      var out;
      out, i, pos := TakeOne(proc, args, i, pos);
      Reassociate(sanitized, out, Kept(proc, args[i..], pos));
      sanitized := sanitized + out;
    }
    EmptyKept(proc, pos);
    assert args[i..] == [];
  }

  /** One pass through the loop. */
  method TakeOne(proc: Process, args: seq<string>, i: nat, pos: nat) returns (out: seq<string>, next: nat, pos': nat)
    requires i < |args|
    ensures (out, next, pos') == Take(proc, args, i, pos)
  {
    hide KindOf, ValueOk, PositionalOk;
    out, next, pos' := [], i, pos;
    var key := args[i];
    match KindOf(proc, key) {
    case KeyWithValue =>
      if i + 1 < |args| && ValueOk(proc, key, args[i + 1]) {
        out := [key, args[i + 1]];
        next := next + 1;
      }
    case BareKey => out := [key];
    case NotNamed =>
      if pos < Positionals(proc) && PositionalOk(key) {
        out := [key];
        pos' := pos + 1;
      }
    }
    next := next + 1;
  }

  lemma EmptyKept(proc: Process, pos: nat)
    ensures Kept(proc, [], pos) == []
  {}

  // ------------------------------------------------------------- the accepted language

  datatype Token = Pair(key: string, v: string) | Flag(key: string) | Positional(v: string)

  predicate TokenOk(proc: Process, t: Token, pos: nat) {
    match t
    case Pair(key, v) => KindOf(proc, key).KeyWithValue? && ValueOk(proc, key, v)
    case Flag(key) => KindOf(proc, key).BareKey?
    case Positional(v) => KindOf(proc, v).NotNamed? && pos < Positionals(proc) && PositionalOk(v)
  }

  /** A command line: valid pairs and flags, and no more positionals than declared. */
  predicate TokensOk(proc: Process, ts: seq<Token>, pos: nat) {
    ts == [] || (TokenOk(proc, ts[0], pos) && TokensOk(proc, ts[1..], pos + if ts[0].Positional? then 1 else 0))
  }

  function Spell(t: Token): seq<string> {
    match t
    case Pair(key, v) => [key, v]
    case Flag(key) => [key]
    case Positional(v) => [v]
  }

  function Line(ts: seq<Token>): seq<string> {
    if ts == [] then [] else Spell(ts[0]) + Line(ts[1..])
  }

  /** `out` is what is left of `args` after dropping some arguments. */
  ghost predicate Subsequence(out: seq<string>, args: seq<string>) {
    if out == [] then true
    else args != [] && ((out[0] == args[0] && Subsequence(out[1..], args[1..])) || Subsequence(out, args[1..]))
  }

  lemma SubsequenceCons(out: seq<string>, args: seq<string>, a: string)
    requires Subsequence(out, args)
    ensures Subsequence([a] + out, [a] + args) && Subsequence(out, [a] + args)
  {
    assert ([a] + args)[1..] == args && ([a] + out)[1..] == out;
  }

  lemma SubsequenceToken(t: Token, out: seq<string>, args: seq<string>)
    requires Subsequence(out, args)
    ensures Subsequence(Spell(t) + out, Spell(t) + args)
  {
    if t.Pair? {
      SubsequenceCons(out, args, t.v);
      SubsequenceCons([t.v] + out, [t.v] + args, t.key);
      assert [t.key] + ([t.v] + out) == Spell(t) + out;
      assert [t.key] + ([t.v] + args) == Spell(t) + args;
    } else {
      SubsequenceCons(out, args, Spell(t)[0]);
    }
  }

  /** The token at the front of a list, if there is an accepted one. */
  function FirstToken(proc: Process, args: seq<string>, pos: nat): (r: Option<Token>)
    requires args != []
    ensures r.Some? ==> TokenOk(proc, r.value, pos) && Spell(r.value) <= args
    ensures r.None? ==> forall t :: TokenOk(proc, t, pos) ==> !(Spell(t) <= args)
  {
    var key := args[0];
    match KindOf(proc, key)
    case KeyWithValue =>
      if |args| > 1 && ValueOk(proc, key, args[1]) then Some(Pair(key, args[1])) else None
    case BareKey => Some(Flag(key))
    case NotNamed =>
      if pos < Positionals(proc) && PositionalOk(key) then Some(Positional(key)) else None
  }

  lemma OneTokenKept(proc: Process, t: Token, rest: seq<string>, pos: nat)
    requires TokenOk(proc, t, pos)
    ensures Kept(proc, Spell(t) + rest, pos) == Spell(t) + Kept(proc, rest, pos + if t.Positional? then 1 else 0)
  {
    hide KindOf, ValueOk, PositionalOk;
    var line, n := Spell(t) + rest, |Spell(t)|;
    assert line[n..] == rest && line[..n] == Spell(t);
  }

  /** An argument that starts no accepted token is dropped alone. */
  lemma JunkDropped(proc: Process, args: seq<string>, pos: nat)
    requires args != [] && forall t :: TokenOk(proc, t, pos) ==> !(Spell(t) <= args)
    ensures Kept(proc, args, pos) == Kept(proc, args[1..], pos)
  {
    hide ValueOk, PositionalOk, KindOf;
    var key := args[0];
    if |args| > 1 { assert Spell(Pair(key, args[1])) <= args; }
    assert Spell(Flag(key)) <= args && Spell(Positional(key)) <= args;
  }

  /** The output is a command line of the accepted language and a subsequence of the input. */
  lemma {:induction false} OutputIsAccepted(proc: Process, args: seq<string>, pos: nat) returns (ts: seq<Token>)
    ensures TokensOk(proc, ts, pos) && Line(ts) == Kept(proc, args, pos)
    ensures Subsequence(Kept(proc, args, pos), args)
    decreases |args|
  {
    if args == [] { return []; }
    hide Kept, TokenOk, Spell, FirstToken, Subsequence;
    var first := FirstToken(proc, args, pos);
    if first.Some? {
      var t, rest := first.value, args[|Spell(first.value)|..];
      assert args == Spell(t) + rest;
      SpellIsSome(t);
      var pos' := pos + if t.Positional? then 1 else 0;
      ts := OutputIsAccepted(proc, rest, pos');
      OneTokenKept(proc, t, rest, pos);
      SubsequenceToken(t, Kept(proc, rest, pos'), rest);
      var tail := ts;
      ts := [t] + tail;
      assert ts[1..] == tail;
    } else {
      ts := OutputIsAccepted(proc, args[1..], pos);
      JunkDropped(proc, args, pos);
      SubsequenceCons(Kept(proc, args[1..], pos), args[1..], args[0]);
      assert args == [args[0]] + args[1..];
    }
  }

  lemma SpellIsSome(t: Token)
    ensures |Spell(t)| >= 1
  {}

  function PositionalsIn(ts: seq<Token>): nat {
    if ts == [] then 0 else PositionalsIn(ts[1..]) + if ts[0].Positional? then 1 else 0
  }

  /** Together with JunkDropped this fixes what the loop does: an accepted line at the front is passed on
      whole, and the rest is judged by itself. */
  lemma {:induction false} AcceptedPrefixKept(proc: Process, ts: seq<Token>, rest: seq<string>, pos: nat)
    requires TokensOk(proc, ts, pos)
    ensures Kept(proc, Line(ts) + rest, pos) == Line(ts) + Kept(proc, rest, pos + PositionalsIn(ts))
  {
    hide Kept, TokenOk, Spell;
    if ts == [] {
      assert Line(ts) + rest == rest;
    } else {
      var pos' := pos + if ts[0].Positional? then 1 else 0;
      OneTokenKept(proc, ts[0], Line(ts[1..]) + rest, pos);
      AcceptedPrefixKept(proc, ts[1..], rest, pos');
      Reassociate(Spell(ts[0]), Line(ts[1..]), rest);
      Reassociate(Spell(ts[0]), Line(ts[1..]), Kept(proc, rest, pos + PositionalsIn(ts)));
    }
  }

  /** A line already of the accepted form is passed on unchanged. */
  lemma AcceptedIsKept(proc: Process, ts: seq<Token>, pos: nat)
    requires TokensOk(proc, ts, pos)
    ensures Kept(proc, Line(ts), pos) == Line(ts)
  {
    AcceptedPrefixKept(proc, ts, [], pos);
    assert Line(ts) + [] == Line(ts);
  }

  /** For OpenVPN and Tun2Socks an argument list is a fixed point if and only if it is accepted. */
  lemma FixedPointIffAccepted(proc: Process, args: seq<string>)
    requires proc.OpenVpn? || proc.Tun2Socks?
    ensures Sanitized(proc, args) == args <==> exists ts :: TokensOk(proc, ts, 0) && Line(ts) == args
  {
    var ts := OutputIsAccepted(proc, args, 0);
    if ts' :| TokensOk(proc, ts', 0) && Line(ts') == args { AcceptedIsKept(proc, ts', 0); }
  }

  /** Sanitising twice is sanitising once, for every process and every list. */
  lemma SanitizeIdempotent(proc: Process, args: seq<string>)
    ensures Sanitized(proc, Sanitized(proc, args)) == Sanitized(proc, args)
  {
    if proc.OpenVpn? || proc.Tun2Socks? {
      var ts := OutputIsAccepted(proc, args, 0);
      AcceptedIsKept(proc, ts, 0);
    }
  }

  // ------------------------------------------------------------- the two languages written out

  /** Tun2Socks: pairs of a device at tun:// and a proxy at socks5://. */
  ghost predicate TunLine(args: seq<string>) {
    args == [] ||
    (|args| >= 2 && TunPair(args[0], args[1]) && TunLine(args[2..]))
  }

  predicate TunPair(key: string, v: string) {
    (key == "-device" && "tun://" <= v) || (key == "-proxy" && "socks5://" <= v)
  }

  /** OpenVPN: a configuration and a management address, which are any text, the flag of a management
      client, and while `ports` are left a port. */
  ghost predicate VpnLine(args: seq<string>, ports: nat) {
    args == [] ||
    (if args[0] == "--config" || args[0] == "--management" then
       |args| >= 2 && args[1] != "" && VpnLine(args[2..], ports)
     else if args[0] == "--management-client" then VpnLine(args[1..], ports)
     else ports > 0 && Port(args[0]) && VpnLine(args[1..], ports - 1))
  }

  /** A text that reads as a number from 1 to 65535. */
  predicate Port(v: string) {
    ToInt(v).0 && 1 <= ToInt(v).1 < 65536
  }

  lemma {:induction false} KeptNotLonger(proc: Process, args: seq<string>, pos: nat)
    ensures |Kept(proc, args, pos)| <= |args|
    decreases |args|
  {
    hide KindOf, ValueOk, PositionalOk;
    if args != [] {
      KeptNotLonger(proc, args[1..], pos);
      KeptNotLonger(proc, args[1..], pos + 1);
      if |args| > 1 { KeptNotLonger(proc, args[2..], pos); }
    }
  }

  lemma {:induction false} TunKeptIff(args: seq<string>)
    ensures Kept(Tun2Socks, args, 0) == args <==> TunLine(args)
    decreases |args|
  {
    if args != [] {
      KeptNotLonger(Tun2Socks, args[1..], 0);
      if |args| >= 2 && TunPair(args[0], args[1]) {
        TunKeptIff(args[2..]);
        assert args == args[..2] + args[2..];
        assert Kept(Tun2Socks, args, 0) == args[..2] + Kept(Tun2Socks, args[2..], 0);
      }
    }
  }

  lemma {:induction false} VpnKeptIff(args: seq<string>, pos: nat)
    requires pos <= 1
    ensures Kept(OpenVpn, args, pos) == args <==> VpnLine(args, 1 - pos)
    decreases |args|
  {
    if args != [] {
      KeptNotLonger(OpenVpn, args[1..], pos);
      assert args == args[..1] + args[1..];
      if args[0] == "--config" || args[0] == "--management" {
        if |args| >= 2 {
          VpnKeptIff(args[2..], pos);
          assert args == args[..2] + args[2..];
        }
      } else {
        VpnKeptIff(args[1..], pos);
        if pos == 0 { VpnKeptIff(args[1..], 1); }
      }
    }
  }

  /** What each process is let to take: these lines and no others, whatever was asked for. */
  lemma LanguagesWrittenOut(args: seq<string>)
    ensures Sanitized(Tun2Socks, args) == args <==> TunLine(args)
    ensures Sanitized(OpenVpn, args) == args <==> VpnLine(args, 1)
    ensures TunLine(Sanitized(Tun2Socks, args)) && VpnLine(Sanitized(OpenVpn, args), 1)
    ensures Sanitized(CertUtil, args) == args && Sanitized(Wireguard, args) == Sanitized(Invalid, args) == []
  {
    hide Kept, TunLine, VpnLine;
    TunKeptIff(args);
    VpnKeptIff(args, 0);
    SanitizeIdempotent(Tun2Socks, args);
    SanitizeIdempotent(OpenVpn, args);
    TunKeptIff(Kept(Tun2Socks, args, 0));
    VpnKeptIff(Kept(OpenVpn, args, 0), 0);
  }

  lemma PortNumbers(n: nat)
    ensures Port(Decimal(n)) <==> 1 <= n <= 65535
    ensures !Port("-" + Decimal(n))
  {
    ToIntOfDecimal(n);
  }
}
