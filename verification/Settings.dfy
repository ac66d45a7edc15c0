/** SecureQSettings (client/secureQSettings.cpp): a cache over a store of plain and encrypted values. */
module Settings {
  import opened Wrappers
  import opened Text

  /** A QVariant: invalid, a byte array, or anything else. */
  datatype Variant = Invalid | ByteArray(bytes: seq<Byte>) | Value(payload: int)

  type Store = map<string, Variant>

  /** What the class is built on: serialising with AES under the key pair and its inverse, the passage
      through JSON, whether the platform encrypts, and whether the keychain yields the key pair. */
  datatype Env = Env(
    seal: Variant -> seq<Byte>,
    unseal: seq<Byte> -> Variant,
    toJson: Variant -> Variant,
    encryptionRequired: bool,
    keysAvailable: bool)

  /** Decryption undoes encryption and yields no byte array longer than what it was given; JSON holds no
      byte arrays. */
  ghost predicate Lawful(env: Env) {
    && (forall v :: env.unseal(env.seal(v)) == v)
    && (forall x :: env.unseal(x).ByteArray? ==> |env.unseal(x).bytes| <= |x|)
    && (forall v :: !env.toJson(v).ByteArray?)
  }

  const Magic: seq<Byte> := [69, 110, 99, 68, 97, 116, 97]  // "EncData"
  const EncryptedKeys: set<string> := {"Servers/serversList", "TunnelCore/accessToken"}
  const Flag := "Conf/encrypted"
  const Uuid := "Conf/installationUuid"
  const True := Value(1)

  predicate Sealed(v: Variant) {
    v.ByteArray? && Magic <= v.bytes
  }

  /** What reading a stored value without any cache yields. */
  function Decode(env: Env, v: Variant): Variant {
    if !Sealed(v) then v
    else if env.keysAvailable then env.unseal(v.bytes[|Magic|..])
    else Invalid
  }

  function Observed(env: Env, s: Store, key: string, default: Variant): Variant {
    if key in s then Decode(env, s[key]) else default
  }

  predicate Encrypts(env: Env, key: string) {
    env.encryptionRequired && key in EncryptedKeys
  }

  predicate Writable(env: Env, key: string) {
    Encrypts(env, key) ==> env.keysAvailable
  }

  function Encoded(env: Env, key: string, v: Variant): Variant {
    if Encrypts(env, key) then ByteArray(Magic + env.seal(v)) else v
  }

  /** setValue on the store alone. Without a key pair an encrypted key is not written. */
  function Put(env: Env, s: Store, key: string, v: Variant): Store {
    if Writable(env, key) then s[key := Encoded(env, key, v)] else s
  }

  /** QSettings::remove takes the whole group below a key. */
  predicate Below(key: string, k: string) {
    key == "" || k == key || key + "/" <= k
  }

  lemma BelowMeans(key: string, k: string)
    ensures Below(key, k) <==> key == "" || k == key || (|k| > |key| && k[..|key|] == key && k[|key|] == '/')
  {
    if |k| > |key| && k[..|key|] == key && k[|key|] == '/' { assert k[..|key| + 1] == key + "/"; }
    if key + "/" <= k { assert k[..|key| + 1] == key + "/"; }
  }

  function Drop(s: Store, key: string): Store {
    map k | k in s && !Below(key, k) :: s[k]
  }

  /** A write that reads back: an encrypted one, or one of a value that does not look encrypted. */
  predicate Faithful(env: Env, key: string, v: Variant) {
    Encrypts(env, key) || !Sealed(v)
  }

  /** A value that looks encrypted is never read as itself: reading takes the magic prefix off, and
      nothing puts it back. */
  lemma DecodesToItselfIff(env: Env, v: Variant)
    requires Lawful(env)
    ensures Decode(env, v) == v <==> !Sealed(v)
  {
    if Sealed(v) && env.keysAvailable {
      var x := v.bytes[|Magic|..];
      assert |x| < |v.bytes|;
      assert env.unseal(x).ByteArray? ==> |env.unseal(x).bytes| <= |x|;
    }
  }

  lemma SealedReads(env: Env, v: Variant)
    requires Lawful(env) && env.keysAvailable
    ensures Decode(env, ByteArray(Magic + env.seal(v))) == v
  {
    assert (Magic + env.seal(v))[|Magic|..] == env.seal(v);
  }

  /** A written value reads back if and only if it is encrypted or does not look encrypted; a write that is
      dropped for want of the key pair, if and only if the value was there before. */
  lemma ReadsBack(env: Env, s: Store, key: string, v: Variant)
    requires Lawful(env)
    ensures Observed(env, Put(env, s, key, v), key, Invalid) == v <==>
              if Writable(env, key) then Faithful(env, key, v) else Observed(env, s, key, Invalid) == v
    ensures forall k, d :: k != key ==> Observed(env, Put(env, s, key, v), k, d) == Observed(env, s, k, d)
  {
    if !Encrypts(env, key) { DecodesToItselfIff(env, v); } else if env.keysAvailable { SealedReads(env, v); }
  }

  /** The byte array that is the magic prefix, written under a key that is not encrypted. */
  lemma MagicReadsDifferently(env: Env, s: Store)
    requires Lawful(env)
    ensures Observed(env, Put(env, s, "Conf/x", ByteArray(Magic)), "Conf/x", Invalid) != ByteArray(Magic)
  {
    ReadsBack(env, s, "Conf/x", ByteArray(Magic));
  }

  // ------------------------------------------------------------- the cacheless reference

  datatype Op = Get(key: string, default: Variant) | Set(key: string, v: Variant) | Remove(key: string) | Clear

  function After(env: Env, s: Store, op: Op): Store {
    match op
    case Get(_, _) => s
    case Set(key, v) => Put(env, s, key, v)
    case Remove(key) => Drop(s, key)
    case Clear => map[]
  }

  function AfterAll(env: Env, s: Store, ops: seq<Op>): Store {
    if ops == [] then s else After(env, AfterAll(env, s, ops[..|ops| - 1]), ops[|ops| - 1])
  }

  // ------------------------------------------------------------- the cache

  datatype State = State(store: Store, cache: Store)

  /** One operation of the class on values. */
  function Step(env: Env, st: State, op: Op): (r: State)
    ensures r.store == After(env, st.store, op)
  {
    match op
    case Get(key, _) =>
      if key in st.cache || key !in st.store || (Sealed(st.store[key]) && !env.keysAvailable) then st
      else st.(cache := st.cache[key := Decode(env, st.store[key])])
    case Set(key, v) =>
      if Writable(env, key) then State(Put(env, st.store, key, v), st.cache[key := v]) else st
    case Remove(key) => State(Drop(st.store, key), st.cache - {key})
    case Clear => State(map[], map[])
  }

  function Steps(env: Env, st: State, ops: seq<Op>): (r: State)
    ensures r.store == AfterAll(env, st.store, ops)
  {
    if ops == [] then st else Step(env, Steps(env, st, ops[..|ops| - 1]), ops[|ops| - 1])
  }

  function Reply(env: Env, st: State, key: string, default: Variant): Variant {
    if key in st.cache then st.cache[key] else Observed(env, st.store, key, default)
  }

  /** If a key is cached, the cached value is the decoded stored one. */
  ghost predicate FreshAt(env: Env, st: State, k: string) {
    k in st.cache ==> k in st.store && st.cache[k] == Decode(env, st.store[k])
  }

  /** A read is answered as the store alone would if and only if its key is fresh, or the caller's
      default happens to be the value of a key that is gone. */
  lemma ReplyIff(env: Env, st: State, key: string, default: Variant)
    ensures Reply(env, st, key, default) == Observed(env, st.store, key, default)
            <==> FreshAt(env, st, key) || (key !in st.store && st.cache[key] == default)
  {}

  /** When a key is fresh after an operation, in terms of the operation, of the key's being cached and
      of its freshness before. */
  ghost predicate StaysFresh(env: Env, st: State, op: Op, k: string) {
    match op
    case Get(_, _) => FreshAt(env, st, k)
    case Set(key, v) => if key == k && Writable(env, key) then Faithful(env, key, v) else FreshAt(env, st, k)
    case Remove(key) => k == key || (if Below(key, k) then k !in st.cache else FreshAt(env, st, k))
    case Clear => true
  }

  lemma FreshIff(env: Env, st: State, op: Op, k: string)
    requires Lawful(env)
    ensures FreshAt(env, Step(env, st, op), k) <==> StaysFresh(env, st, op, k)
  {
    match op
    case Get(_, _) =>
    case Set(key, v) =>
      if Encrypts(env, key) {
        if env.keysAvailable { SealedReads(env, v); }
      } else {
        DecodesToItselfIff(env, v);
      }
    case Remove(key) =>
    case Clear =>
  }

  /** Operations that keep the cache transparent: faithful writes, and removals of leaf keys. */
  ghost predicate Transparent(env: Env, s: Store, op: Op) {
    match op
    case Set(key, v) => Faithful(env, key, v)
    case Remove(key) => forall k :: k in s && Below(key, k) ==> k == key
    case _ => true
  }

  ghost predicate AllTransparent(env: Env, s: Store, ops: seq<Op>) {
    forall i :: 0 <= i < |ops| ==> Transparent(env, AfterAll(env, s, ops[..i]), ops[i])
  }

  /** Transparent operations keep a coherent cache coherent. */
  lemma {:induction false} TransparentKeepsCoherent(env: Env, st: State, ops: seq<Op>)
    requires Lawful(env) && CoherentWith(env, st.store, st.cache) && AllTransparent(env, st.store, ops)
    ensures CoherentWith(env, Steps(env, st, ops).store, Steps(env, st, ops).cache)
  {
    if ops != [] {
      var front, op := ops[..|ops| - 1], ops[|ops| - 1];
      forall i | 0 <= i < |front| ensures Transparent(env, AfterAll(env, st.store, front[..i]), front[i]) {
        assert front[..i] == ops[..i];
        assert Transparent(env, AfterAll(env, st.store, ops[..i]), ops[i]);
      }
      TransparentKeepsCoherent(env, st, front);
      var mid := Steps(env, st, front);
      assert Transparent(env, mid.store, op);
      forall k ensures FreshAt(env, Step(env, mid, op), k) {
        assert FreshAt(env, mid, k);
        FreshIff(env, mid, op, k);
      }
      assert forall k :: FreshAt(env, Steps(env, st, ops), k);
    }
  }

  /** Every cached entry is the decoded stored entry. */
  ghost predicate CoherentWith(env: Env, s: Store, cache: Store) {
    forall k :: k in cache ==> k in s && cache[k] == Decode(env, s[k])
  }

  /** Removing a group leaves a stale entry behind. */
  lemma GroupRemovalGoesStale(env: Env)
    ensures var s: Store := map["Conf/x" := Value(0)];
            CoherentWith(env, s, s) && !CoherentWith(env, Drop(s, "Conf"), s - {"Conf"})
  {
    assert "Conf" + "/" <= "Conf/x";
    assert "Conf/x" in map["Conf/x" := Value(0)] - {"Conf"};
  }

  /** What the class without cache answers to the read at position `i` of a run. */
  function Reference(env: Env, s: Store, ops: seq<Op>, i: nat): Option<Variant>
    requires i < |ops| && ops[i].Get?
  {
    Some(Observed(env, AfterAll(env, s, ops[..i]), ops[i].key, ops[i].default))
  }

  /** An answer that agrees with the class without cache exactly when it should. */
  ghost predicate AnsweredAt(env: Env, st: State, ops: seq<Op>, i: nat, answer: Option<Variant>)
    requires i < |ops| && ops[i].Get?
  {
    var before, key := Steps(env, st, ops[..i]), ops[i].key;
    && answer == Some(Reply(env, before, key, ops[i].default))
    && (answer == Reference(env, st.store, ops, i)
        <==> FreshAt(env, before, key) || (key !in before.store && before.cache[key] == ops[i].default))
  }

  /** In a run of transparent operations the cache is coherent at every point. */
  lemma TransparentRun(env: Env, st: State, ops: seq<Op>, i: nat)
    requires Lawful(env) && CoherentWith(env, st.store, st.cache) && AllTransparent(env, st.store, ops) && i <= |ops|
    ensures CoherentWith(env, Steps(env, st, ops[..i]).store, Steps(env, st, ops[..i]).cache)
  {
    hide Steps, AfterAll, Transparent, CoherentWith;
    var front := ops[..i];
    forall j | 0 <= j < |front| ensures Transparent(env, AfterAll(env, st.store, front[..j]), front[j]) {
      assert front[..j] == ops[..j];
    }
    TransparentKeepsCoherent(env, st, front);
  }

  lemma TransparentAnswer(env: Env, st: State, ops: seq<Op>, i: nat, answer: Option<Variant>)
    requires Lawful(env) && CoherentWith(env, st.store, st.cache) && AllTransparent(env, st.store, ops)
    requires i < |ops| && ops[i].Get? && AnsweredAt(env, st, ops, i, answer)
    ensures answer == Reference(env, st.store, ops, i)
  {
    hide Steps, Reference, Reply, AllTransparent, Lawful;
    TransparentRun(env, st, ops, i);
  }

  lemma StepsNone(env: Env, st: State, ops: seq<Op>)
    ensures Steps(env, st, ops[..0]) == st
  {}

  lemma StepsNext(env: Env, st: State, ops: seq<Op>, i: nat)
    requires i < |ops|
    ensures Steps(env, st, ops[..i + 1]) == Step(env, Steps(env, st, ops[..i]), ops[i])
    ensures ops[i].Get? ==>
              AnsweredAt(env, st, ops, i, Some(Reply(env, Steps(env, st, ops[..i]), ops[i].key, ops[i].default)))
  {
    assert ops[..i + 1][..i] == ops[..i];
    if ops[i].Get? { ReplyIff(env, Steps(env, st, ops[..i]), ops[i].key, ops[i].default); }
  }

  /** Once everything was cleared, every read yields the caller's default. */
  lemma ClearedReadsDefault(env: Env, st: State, key: string, default: Variant)
    ensures Reply(env, Step(env, st, Clear), key, default) == default
    ensures Observed(env, After(env, st.store, Clear), key, default) == default
  {}

  // ------------------------------------------------------------- backup

  predicate NeedsBackup(key: string) {
    key != Uuid && ("Conf/" <= key || "Servers/" <= key)
  }

  function BackupOf(env: Env, s: Store): Store {
    map k | k in s && NeedsBackup(k) :: env.toJson(Decode(env, s[k]))
  }

  /** restoreAppConfig on the store alone. */
  function RestoreInto(env: Env, s: Store, cfg: Store): Store {
    s + Restored(env, cfg)
  }

  function Restored(env: Env, cfg: Store): Store {
    map k | k in cfg && k != Uuid && Writable(env, k) :: Encoded(env, k, cfg[k])
  }

  lemma RestoreNothing(env: Env, s: Store)
    ensures RestoreInto(env, s, map[]) == s
  {
    assert Restored(env, map[]) == map[];
  }

  lemma RestoreStep(env: Env, s: Store, done: Store, key: string, v: Variant)
    requires key !in done
    ensures RestoreInto(env, s, done[key := v])
         == if key == Uuid then RestoreInto(env, s, done) else Put(env, RestoreInto(env, s, done), key, v)
  {
    var m := Restored(env, done);
    if key == Uuid || !Writable(env, key) {
      assert Restored(env, done[key := v]) == m;
    } else {
      assert Restored(env, done[key := v]) == m[key := Encoded(env, key, v)];
      assert s + m[key := Encoded(env, key, v)] == (s + m)[key := Encoded(env, key, v)];
    }
  }

  /** Restoring a backup makes every backed-up key read as its JSON image, in any target store, and
      leaves every other key as it was there, and without a key pair also the encrypted ones; the
      installation's own identity is never carried over. */
  lemma RestoreReadsBackup(env: Env, s: Store, target: Store, key: string, default: Variant)
    requires Lawful(env)
    ensures Observed(env, RestoreInto(env, target, BackupOf(env, s)), key, default) ==
            if key in s && NeedsBackup(key) && Writable(env, key) then env.toJson(Decode(env, s[key]))
            else Observed(env, target, key, default)
    ensures Uuid !in BackupOf(env, s)
  {
    var cfg := BackupOf(env, s);
    if key in cfg && Writable(env, key) {
      assert Faithful(env, key, cfg[key]);
      ReadsBack(env, map[], key, cfg[key]);
    }
  }

  // ------------------------------------------------------------- migration

  predicate Flagged(s: Store) {
    Flag in s && s[Flag] == True
  }

  ghost predicate AllSealed(s: Store) {
    forall k :: k in s && k in EncryptedKeys ==> Sealed(s[k])
  }

  /** A stored value read and written again under its key. */
  function Rewritten(env: Env, key: string, v: Variant): Variant {
    if Encrypts(env, key) && env.keysAvailable then Encoded(env, key, Decode(env, v)) else v
  }

  function Migrated(env: Env, s: Store): Store {
    map k | k in s :: Rewritten(env, k, s[k])
  }

  /** The store after start-up. */
  function Started(env: Env, s: Store): Store {
    if env.encryptionRequired && !Flagged(s) then Migrated(env, s)[Flag := True] else s
  }

  lemma StartedMeaning(env: Env, s: Store)
    requires Lawful(env)
    ensures forall k, d :: k != Flag ==> Observed(env, Started(env, s), k, d) == Observed(env, s, k, d)
    ensures env.encryptionRequired && !Flagged(s) ==>
              (AllSealed(Started(env, s)) <==> env.keysAvailable || AllSealed(s))
  {
    forall k | k in s ensures Decode(env, Rewritten(env, k, s[k])) == Decode(env, s[k]) {
      if Encrypts(env, k) && env.keysAvailable { SealedReads(env, Decode(env, s[k])); }
    }
    var t := Started(env, s);
    assert Flag !in EncryptedKeys;
    if env.encryptionRequired && !Flagged(s) && !env.keysAvailable {
      assert forall k :: k in s && k in EncryptedKeys ==> k in t && t[k] == s[k];
    }
  }

  /** Without the key pair the flag is set over a list of servers that stays in the clear. */
  lemma MigratedInTheClear(env: Env)
    requires env.encryptionRequired && !env.keysAvailable
    ensures var s: Store := map["Servers/serversList" := Value(0)];
            Started(env, s) == s[Flag := True] && !AllSealed(Started(env, s))
  {
    var s: Store := map["Servers/serversList" := Value(0)];
    assert Migrated(env, s) == s;
    assert "Servers/serversList" in s[Flag := True] && "Servers/serversList" in EncryptedKeys;
    assert s[Flag := True]["Servers/serversList"] == Value(0);
  }

  class SecureSettings {
    const env: Env
    var store: Store
    var cache: Store

    ghost predicate Coherent()
      reads this
    {
      CoherentWith(env, store, cache)
    }

    ghost function Now(): State
      reads this
    {
      State(store, cache)
    }

    method Get(key: string, default: Variant) returns (r: Variant)
      modifies this`cache
      ensures Now() == Step(env, old(Now()), Op.Get(key, default)) && r == Reply(env, old(Now()), key, default)
      ensures old(Coherent()) ==> Coherent() && r == Observed(env, store, key, default)
    {
      if key in cache { return cache[key]; }
      if key !in store { return default; }
      r := store[key];
      if Sealed(r) {
        if !env.keysAvailable { return Invalid; }
        r := env.unseal(r.bytes[|Magic|..]);
      }
      cache := cache[key := r];
    }

    /** A coherent cache stays coherent if and only if the write is faithful. */
    method Set(key: string, v: Variant)
      requires Lawful(env)
      modifies this
      ensures Now() == Step(env, old(Now()), Op.Set(key, v))
      ensures old(Coherent()) ==> (Coherent() <==> Faithful(env, key, v))
      // The list of servers and the access token are the keys that are encrypted.
      ensures var secret := env.encryptionRequired && key in {"Servers/serversList", "TunnelCore/accessToken"};
              if secret && !env.keysAvailable then store == old(store) && cache == old(cache)
              else key in store && cache == old(cache)[key := v] &&
                   store[key] == if secret then ByteArray([69, 110, 99, 68, 97, 116, 97] + env.seal(v)) else v
    {
      ghost var before := Now();
      if Encrypts(env, key) {
        if !env.keysAvailable { return; }
        store := store[key := ByteArray(Magic + env.seal(v))];
      } else {
        store := store[key := v];
      }
      cache := cache[key := v];
      if old(Coherent()) {
        forall k ensures FreshAt(env, Now(), k) <==> StaysFresh(env, before, Op.Set(key, v), k) {
          FreshIff(env, before, Op.Set(key, v), k);
        }
        assert forall k :: FreshAt(env, before, k);
        assert FreshAt(env, Now(), key) <==> Faithful(env, key, v);
      }
    }

    /** A coherent cache stays coherent if and only if no other cached key lies in the removed group. */
    method Remove(key: string)
      modifies this
      ensures Now() == Step(env, old(Now()), Op.Remove(key))
      // The key goes and all that is filed under it; the empty key stands for everything.
      ensures forall k :: k in store ==> k in old(store) && store[k] == old(store)[k]
      ensures forall k :: k in old(store) && k !in store <==>
                k in old(store) && (key == "" || k == key || (|k| > |key| && k[..|key|] == key && k[|key|] == '/'))
      ensures old(Coherent()) ==> (Coherent() <==> forall k :: k in old(cache) && Below(key, k) ==> k == key)
    {
      store := Drop(store, key);
      cache := cache - {key};
      forall k { BelowMeans(key, k); }
      assert forall k :: k in cache <==> k in old(cache) && k != key;
    }

    method Clear()
      modifies this
      ensures Now() == Step(env, old(Now()), Op.Clear) && Coherent() && store == cache == map[]
    {
      store, cache := map[], map[];
    }

    /** Any run at all: the store is that of a class without cache, and a read is answered as that class
        would if and only if its key is fresh at that point (up to a lucky default). If every operation
        is transparent, all reads are. */
    method Run(ops: seq<Op>) returns (answers: seq<Option<Variant>>)
      requires Lawful(env)
      modifies this
      ensures Now() == Steps(env, old(Now()), ops) && store == AfterAll(env, old(store), ops)
      ensures |answers| == |ops| && forall i :: 0 <= i < |ops| ==> (answers[i].Some? <==> ops[i].Get?)
      ensures forall i :: 0 <= i < |ops| && ops[i].Get? ==> AnsweredAt(env, old(Now()), ops, i, answers[i])
      ensures old(Coherent() && AllTransparent(env, store, ops)) ==> Coherent()
      ensures old(Coherent() && AllTransparent(env, store, ops)) ==>
                forall i :: 0 <= i < |ops| && ops[i].Get? ==> answers[i] == Reference(env, old(store), ops, i)
    {
      hide Step, Steps, AfterAll, Reply, AnsweredAt, Reference, CoherentWith, AllTransparent, Lawful;
      answers := [];
      StepsNone(env, Now(), ops);
      for i := 0 to |ops|
        invariant Now() == Steps(env, old(Now()), ops[..i])
        invariant |answers| == i && forall j :: 0 <= j < i ==> (answers[j].Some? <==> ops[j].Get?)
        invariant forall j :: 0 <= j < i && ops[j].Get? ==> AnsweredAt(env, old(Now()), ops, j, answers[j])
      {
        StepsNext(env, old(Now()), ops, i);
        var answer := Perform(ops[i]);
        answers := answers + [answer];
      }
      assert ops[..|ops|] == ops;
      if old(Coherent() && AllTransparent(env, store, ops)) {
        TransparentRun(env, old(Now()), ops, |ops|);
        forall i | 0 <= i < |ops| && ops[i].Get? ensures answers[i] == Reference(env, old(store), ops, i) {
          TransparentAnswer(env, old(Now()), ops, i, answers[i]);
        }
      }
    }

    method Perform(op: Op) returns (answer: Option<Variant>)
      requires Lawful(env)
      modifies this
      ensures Now() == Step(env, old(Now()), op) && (answer.Some? <==> op.Get?)
      ensures op.Get? ==> answer == Some(Reply(env, old(Now()), op.key, op.default))
    {
      answer := None;
      match op
      case Get(key, default) =>
        var r := Get(key, default);
        answer := Some(r);
      case Set(key, v) => Set(key, v);
      case Remove(key) => Remove(key);
      case Clear => Clear();
    }

    /** The constructor with its one-time migration: no key but the flag reads differently afterwards,
        and all listed keys end up encrypted if and only if the key pair was there or they already
        were. The flag is set in either case. */
    constructor (env: Env, initial: Store)
      requires Lawful(env)
      ensures this.env == env && Coherent() && store == Started(env, initial)
      ensures forall k, d :: k != "Conf/encrypted" ==> Observed(env, store, k, d) == Observed(env, initial, k, d)
      ensures env.encryptionRequired ==> "Conf/encrypted" in store && store["Conf/encrypted"] == Value(1)
      ensures env.encryptionRequired && !Flagged(initial) ==>
                (AllSealed(store) <==> env.keysAvailable || AllSealed(initial))
    {
      this.env := env;
      store, cache := initial, map[];
      new;
      if env.encryptionRequired && !Flagged(store) {
        Migrate();
        store := store[Flag := True];
      }
      hide Migrated, Lawful;
      StartedMeaning(env, initial);
    }

    /** The loop of the migration: every listed key is written again. */
    method Migrate()
      requires Lawful(env) && Coherent() && env.encryptionRequired && Flag !in cache
      modifies this
      ensures Coherent() && Flag !in cache && store == Migrated(env, old(store))
    {
      hide Decode, CoherentWith, Lawful, Encoded;
      var pending := store.Keys;
      while pending != {}
        invariant Coherent() && store.Keys == old(store).Keys && pending <= store.Keys && Flag !in cache
        invariant forall k :: k in store ==>
                    store[k] == if k in pending then old(store)[k] else Rewritten(env, k, old(store)[k])
      {
        var key :| key in pending;
        if key in EncryptedKeys { Rewrite(key); }
        pending := pending - {key};
      }
    }

    /** A listed key read and written again: the same value, encrypted if the key pair is there. */
    method Rewrite(key: string)
      requires Lawful(env) && Coherent() && key in store && Encrypts(env, key)
      modifies this
      ensures Coherent() && store.Keys == old(store).Keys
      ensures forall k :: k in store && k != key ==> store[k] == old(store)[k]
      ensures forall k :: k in cache ==> k in old(cache) || k == key
      ensures store[key] == Rewritten(env, key, old(store)[key])
    {
      var val := Get(key, Invalid);
      Set(key, val);
    }

    method Backup() returns (cfg: Store)
      requires Coherent()
      modifies this`cache
      ensures Coherent() && cfg == BackupOf(env, store)
      ensures forall k :: k in cfg <==>
                k in store && k != "Conf/installationUuid" && ("Conf/" <= k || "Servers/" <= k)
    {
      cfg := map[];
      var pending := store.Keys;
      while pending != {}
        invariant Coherent() && pending <= store.Keys
        invariant cfg == map k | k in store && k !in pending && NeedsBackup(k) :: env.toJson(Decode(env, store[k]))
      {
        var key :| key in pending;
        if NeedsBackup(key) {
          var v := Get(key, Invalid);
          cfg := cfg[key := env.toJson(v)];
        }
        pending := pending - {key};
      }
    }

    method Restore(cfg: Store) returns (ok: bool)
      requires Coherent() && Lawful(env)
      requires forall k :: k in cfg ==> !cfg[k].ByteArray?
      modifies this
      ensures ok <==> cfg != map[]
      ensures Coherent() && store == RestoreInto(env, old(store), cfg)
    {
      hide Put, CoherentWith, RestoreInto, Step, Lawful;
      RestoreNothing(env, store);
      if cfg == map[] { assert store == RestoreInto(env, store, cfg); return false; }
      var pending := cfg.Keys;
      assert cfg - pending == map[];
      while pending != {}
        invariant Coherent() && pending <= cfg.Keys
        invariant store == RestoreInto(env, old(store), cfg - pending)
      {
        var key :| key in pending;
        ghost var done := cfg - pending;
        RestoreStep(env, old(store), done, key, cfg[key]);
        if key != Uuid { Set(key, cfg[key]); }
        pending := pending - {key};
        assert cfg - pending == done[key := cfg[key]];
      }
      assert cfg - {} == cfg;
      return true;
    }
  }
}
