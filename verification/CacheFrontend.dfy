/**
 * The cache as the module's own code uses it: keys are hashed and values encrypted under a
 * passphrase, and reads fall back to the previous passphrase after a rotation. Hashing is ideal (no
 * collisions) and so is encryption (a value opens only with the passphrase it was sealed with).
 */
module CacheFrontend {
  import opened CacheKeys
  import opened Options

  /** The key that goes to the backend: as it is, or hashed. */
  datatype BackendKey = Plain(key: string) | Hashed(input: string)

  /** The value that goes to the backend: as it is, or sealed with a passphrase. */
  datatype BackendValue = Clear(text: string) | Sealed(secret: string, text: string)

  /** One section of the backend. */
  type Backend = map<BackendKey, BackendValue>

  datatype Config = Config(encrypt: bool, secret1: Option<string>, secret2: Option<string>)

  /** FALSE (None) when encryption is on without a passphrase. */
  function GetKey(key: string, secret: Option<string>, encrypt: bool): Option<BackendKey> {
    if encrypt then
      if secret == None then None else Some(Hashed(SectionKey(secret.value, key)))
    else if |key| >= KEY_SIZE_MAX then Some(Hashed(key))
    else Some(Plain(key))
  }

  function Fetch(b: Backend, k: BackendKey): Option<BackendValue> {
    if k in b then Some(b[k]) else None
  }

  /** Open a value with the current or, for a value found under the previous passphrase's key, that passphrase. */
  function Decrypt(cfg: Config, v: BackendValue, useSecondary: bool): Option<string> {
    var secret := if useSecondary then cfg.secret2 else cfg.secret1;
    if v.Sealed? && secret == Some(v.secret) then Some(v.text) else None
  }

  class Cache {
    var backend: Backend

    constructor ()
      ensures backend == map[]
    {
      backend := map[];
    }

    /** backendOk says whether the backend's own get succeeds, on the first and on the second try. */
    method Get(cfg: Config, key: string, firstOk: bool, secondOk: bool) returns (rc: bool, value: Option<string>)
      ensures (rc, value) == Lookup(cfg, backend, key, firstOk, secondOk)
    {
      value := None;
      var useSecondary := false;
      var k := GetKey(key, cfg.secret1, cfg.encrypt);
      if k == None {
        return false, value;
      }
      if !firstOk {
        return false, value;
      }
      var cached := Fetch(backend, k.value);
      if cached == None && cfg.encrypt && cfg.secret2.Some? {
        useSecondary := true;
        k := GetKey(key, cfg.secret2, cfg.encrypt);
        if k == None {
          return false, value;
        }
        if !secondOk {
          return false, value;
        }
        cached := Fetch(backend, k.value);
      }
      if cached == None {
        return true, value;
      }
      if !cfg.encrypt {
        return true, Some(cached.value.text);
      }
      value := Decrypt(cfg, cached.value, useSecondary);
      rc := value.Some?;
    }

    /**
     * Store (Some) or delete (None); sealOk says whether encrypting the value succeeds, backendOk whether
     * the backend's set does.
     */
    method Set(cfg: Config, key: string, value: Option<string>, sealOk: bool, backendOk: bool) returns (rc: bool)
      modifies this
      ensures (rc, backend)
                == Update(cfg, old(backend), key, value, (cfg.encrypt && value.Some? ==> sealOk) && backendOk)
    {
      var k := GetKey(key, cfg.secret1, cfg.encrypt);
      if k == None {
        return false;
      }
      if cfg.encrypt && value.Some? && !sealOk {
        return false;
      }
      if !backendOk {
        return false;
      }
      if value == None {
        backend := backend - {k.value};
      } else if cfg.encrypt {
        backend := backend[k.value := Sealed(cfg.secret1.value, value.value)];
      } else {
        backend := backend[k.value := Clear(value.value)];
      }
      rc := true;
    }
  }

  // ---- the same, as functions of the backend's contents ----

  function Lookup(cfg: Config, b: Backend, key: string, firstOk: bool, secondOk: bool): (r: (bool, Option<string>)) {
    var k1 := GetKey(key, cfg.secret1, cfg.encrypt);
    if k1 == None || !firstOk then (false, None)
    else if k1.value in b then Open(cfg, b[k1.value], false)
    else if !cfg.encrypt || cfg.secret2 == None then (true, None)
    else if !secondOk then (false, None)
    else
      var k2 := GetKey(key, cfg.secret2, true).value;
      if k2 in b then Open(cfg, b[k2], true) else (true, None)
  }

  function Open(cfg: Config, v: BackendValue, useSecondary: bool): (bool, Option<string>) {
    if !cfg.encrypt then (true, Some(v.text))
    else
      var text := Decrypt(cfg, v, useSecondary);
      (text.Some?, text)
  }

  function Update(cfg: Config, b: Backend, key: string, value: Option<string>, ok: bool): (bool, Backend) {
    var k := GetKey(key, cfg.secret1, cfg.encrypt);
    if k == None || !ok then (false, b)
    else match value
      case None => (true, b - {k.value})
      case Some(v) => (true, b[k.value := if cfg.encrypt then Sealed(cfg.secret1.value, v) else Clear(v)])
  }

  // ---- without encryption, and when something fails ----

  /** What reaches the backend: short keys as they are and long ones hashed, or all hashed with the passphrase. */
  lemma KeysInUse(key: string, secret: Option<string>)
    ensures GetKey(key, secret, false) == Some(if |key| < 512 then Plain(key) else Hashed(key))
    ensures GetKey(key, secret, true) == if secret == None then None else Some(Hashed(secret.value + ":" + key))
  {
  }

  /** A sealed value opens with the passphrase it was sealed with, and with no other. */
  predicate Opens(v: BackendValue, secret: string) { v.Sealed? && v.secret == secret }

  /** Exactly when a read reports success; without it there is no value. */
  lemma LookupSucceedsIff(cfg: Config, b: Backend, key: string, firstOk: bool, secondOk: bool)
    ensures var (rc, value) := Lookup(cfg, b, key, firstOk, secondOk);
            && (!rc ==> value == None)
            && (!cfg.encrypt ==> rc == firstOk)
            && (cfg.encrypt && cfg.secret1 == None ==> !rc)
            && (cfg.encrypt && cfg.secret1.Some? ==>
                  var k1 := Hashed(cfg.secret1.value + ":" + key);
                  (k1 in b ==> rc == (firstOk && Opens(b[k1], cfg.secret1.value)))
                  && (k1 !in b && cfg.secret2 == None ==> rc == firstOk)
                  && (k1 !in b && cfg.secret2.Some? ==>
                        var k2 := Hashed(cfg.secret2.value + ":" + key);
                        rc == (firstOk && secondOk && (k2 in b ==> Opens(b[k2], cfg.secret2.value)))))
  {
  }

  /** A store or delete succeeds unless the passphrase is missing or something fails; then nothing changes. */
  lemma UpdateSucceedsIff(cfg: Config, b: Backend, key: string, value: Option<string>, ok: bool)
    ensures var (rc, b') := Update(cfg, b, key, value, ok);
            (rc <==> ok && (cfg.encrypt ==> cfg.secret1.Some?)) && (!rc ==> b' == b)
  {
  }

  // ---- layers ----

  /** What the backend holds for a key under one passphrase. */
  function Layer(b: Backend, secret: string, key: string): Option<string> {
    var k := Hashed(SectionKey(secret, key));
    if k in b then Some(b[k].text) else None
  }

  /** Every hashed key of this passphrase opens with it. */
  ghost predicate LayerOk(b: Backend, secret: string) {
    forall key ::
      Hashed(SectionKey(secret, key)) in b ==>
        b[Hashed(SectionKey(secret, key))].Sealed? && b[Hashed(SectionKey(secret, key))].secret == secret
  }

  /** A passphrase without a colon, so that "<secret>:<key>" can be taken apart again. */
  predicate SecretOk(secret: string) { ':' !in secret }

  lemma LayersApart(secret: string, secret': string, key: string, key': string)
    requires SecretOk(secret) && SecretOk(secret')
    requires SectionKey(secret, key) == SectionKey(secret', key')
    ensures secret == secret' && key == key'
  {
    var s, s' := SectionKey(secret, key), SectionKey(secret', key');
    assert s[|secret|] == ':' && s'[|secret'|] == ':';
    assert forall i :: 0 <= i < |secret| ==> s[i] == secret[i];
    assert forall i :: 0 <= i < |secret'| ==> s'[i] == secret'[i];
    assert |secret| == |secret'|;
    assert secret == s[..|secret|] && key == s[|secret| + 1..];
    assert secret' == s'[..|secret'|] && key' == s'[|secret'| + 1..];
  }

  function Encrypted(secret: string, previous: Option<string>): Config {
    Config(true, Some(secret), previous)
  }

  /** A set or delete touches only the current passphrase's entry for its key. */
  lemma UpdateTouchesOneEntry(secret: string, previous: Option<string>, b: Backend, key: string, value: Option<string>,
                              secret': string, key': string)
    requires SecretOk(secret) && SecretOk(secret') && LayerOk(b, secret')
    ensures var (rc, b') := Update(Encrypted(secret, previous), b, key, value, true);
            && rc && LayerOk(b', secret')
            && Layer(b', secret', key') == if secret' == secret && key' == key then value else Layer(b, secret', key')
  {
    var (rc, b') := Update(Encrypted(secret, previous), b, key, value, true);
    forall x | Hashed(SectionKey(secret', x)) in b'
      ensures b'[Hashed(SectionKey(secret', x))].Sealed? && b'[Hashed(SectionKey(secret', x))].secret == secret'
    {
      if SectionKey(secret', x) == SectionKey(secret, key) { LayersApart(secret', secret, x, key); }
    }
    if SectionKey(secret', key') == SectionKey(secret, key) { LayersApart(secret', secret, key', key); }
  }

  /** A read is an overlay: the current passphrase's value if there is one, else the previous one's. */
  lemma ReadIsOverlay(secret: string, previous: Option<string>, b: Backend, key: string)
    requires LayerOk(b, secret) && (previous.Some? ==> LayerOk(b, previous.value))
    ensures Lookup(Encrypted(secret, previous), b, key, true, true) ==
            (true, if Layer(b, secret, key).Some? || previous == None then Layer(b, secret, key)
                   else Layer(b, previous.value, key))
  {
  }

  // ---- runs ----

  datatype Op = SetOp(key: string, value: Option<string>)

  /** The backend after a run of sets and deletes under one configuration. */
  function Replay(cfg: Config, b: Backend, ops: seq<Op>): Backend {
    if ops == [] then b else Update(cfg, Replay(cfg, b, ops[..|ops| - 1]), Last(ops).key, Last(ops).value, true).1
  }

  function Last(ops: seq<Op>): Op
    requires ops != []
  {
    ops[|ops| - 1]
  }

  /** What the last set or delete of a key in the run left, or what was there before. */
  function LastSet(before: Option<string>, ops: seq<Op>, key: string): Option<string> {
    if ops == [] then before
    else if Last(ops).key == key then Last(ops).value
    else LastSet(before, ops[..|ops| - 1], key)
  }

  lemma {:induction false} PlainReplay(cfg: Config, ops: seq<Op>, key: string)
    requires !cfg.encrypt
    ensures var b, k := Replay(cfg, map[], ops), GetKey(key, None, false).value;
            if k in b then LastSet(None, ops, key) == Some(b[k].text) else LastSet(None, ops, key) == None
    decreases |ops|
  {
    if ops != [] { PlainReplay(cfg, ops[..|ops| - 1], key); }
  }

  /** Without encryption: after any run on an empty cache a read of any key, short or long, gives what was last set. */
  lemma PlainReadsBack(cfg: Config, ops: seq<Op>, key: string)
    requires !cfg.encrypt
    ensures Lookup(cfg, Replay(cfg, map[], ops), key, true, true) == (true, LastSet(None, ops, key))
  {
    PlainReplay(cfg, ops, key);
  }

  lemma {:induction false} ReplayLayers(secret: string, previous: Option<string>, b: Backend, ops: seq<Op>,
                                        secret': string, key: string)
    requires SecretOk(secret) && SecretOk(secret') && LayerOk(b, secret')
    ensures var b' := Replay(Encrypted(secret, previous), b, ops);
            && LayerOk(b', secret')
            && Layer(b', secret', key) == if secret' == secret then LastSet(Layer(b, secret', key), ops, key)
                                          else Layer(b, secret', key)
    decreases |ops|
  {
    if ops != [] {
      var init := ops[..|ops| - 1];
      ReplayLayers(secret, previous, b, init, secret', key);
      var b1 := Replay(Encrypted(secret, previous), b, init);
      UpdateTouchesOneEntry(secret, previous, b1, Last(ops).key, Last(ops).value, secret', key);
    }
  }

  /**
   * Passphrase rotation: a run under P on an empty cache, then a switch to P' with P as the previous
   * passphrase and another run. A read returns what was last set under P', else what was last set under P.
   */
  lemma RotationIsOverlay(p: string, p': string, before: seq<Op>, after: seq<Op>, key: string)
    requires SecretOk(p) && SecretOk(p') && p != p'
    ensures var b := Replay(Encrypted(p', Some(p)), Replay(Encrypted(p, None), map[], before), after);
            var new_, old_ := LastSet(None, after, key), LastSet(None, before, key);
            Lookup(Encrypted(p', Some(p)), b, key, true, true) == (true, if new_.Some? then new_ else old_)
  {
    var b0 := Replay(Encrypted(p, None), map[], before);
    ReplayLayers(p, None, map[], before, p, key);
    ReplayLayers(p, None, map[], before, p', key);
    var b := Replay(Encrypted(p', Some(p)), b0, after);
    ReplayLayers(p', Some(p), b0, after, p, key);
    ReplayLayers(p', Some(p), b0, after, p', key);
    ReadIsOverlay(p', Some(p), b, key);
  }

  /**
   * A delete after a rotation clears only the current layer: the key reads as absent afterwards exactly
   * when nothing was left under the previous passphrase.
   */
  lemma DeleteAfterRotation(p: string, p': string, b: Backend, key: string)
    requires SecretOk(p) && SecretOk(p') && p != p' && LayerOk(b, p) && LayerOk(b, p')
    ensures var b' := Update(Encrypted(p', Some(p)), b, key, None, true).1;
            && Lookup(Encrypted(p', Some(p)), b', key, true, true) == (true, Layer(b, p, key))
            && (Lookup(Encrypted(p', Some(p)), b', key, true, true).1 == None <==> Layer(b, p, key) == None)
  {
  }

  /** Such a delete is undone by the next read. */
  lemma DeletedValueReappears()
    ensures var b := Replay(Encrypted("old", None), map[], [SetOp("k", Some("v"))]);
            var b' := Update(Encrypted("new", Some("old")), b, "k", None, true).1;
            Lookup(Encrypted("new", Some("old")), b', "k", true, true) == (true, Some("v"))
  {
    var ops := [SetOp("k", Some("v"))];
    ReplayLayers("old", None, map[], ops, "old", "k");
    ReplayLayers("old", None, map[], ops, "new", "k");
    DeleteAfterRotation("old", "new", Replay(Encrypted("old", None), map[], ops), "k");
  }
}
