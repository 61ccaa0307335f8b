/** The key schedule of sections 7.1 to 7.3 of RFC 8446 as an endpoint of its own follows it. */
module Rfc8446 {
  import opened Base
  import opened Crypto

  /** A traffic secret with its key and iv (section 7.3). */
  datatype Traffic = Traffic(secret: Bytes, key: Bytes, iv: Bytes)

  function TrafficOf(c: Suite, secret: Bytes): Traffic {
    Traffic(secret, c.expand(secret, "key", [], 16), c.expand(secret, "iv", [], 12))
  }

  /** Keys of both directions and the secret that the next stage starts from. */
  datatype Stage = Stage(secret: Bytes, client: Traffic, server: Traffic)

  /** Early secret without and with a PSK. */
  function EarlySecret(c: Suite, psk: Bytes): Bytes { c.extract([], psk) }

  /** From the early secret, the (EC)DHE secret and the hash of ClientHello and ServerHello. */
  function HandshakeStage(c: Suite, early: Bytes, shared: Bytes, hellos: Bytes): Stage {
    var secret := c.extract(c.expand(early, "derived", c.hash([]), 32), shared);
    Stage(secret, TrafficOf(c, c.expand(secret, "c hs traffic", hellos, 32)),
                  TrafficOf(c, c.expand(secret, "s hs traffic", hellos, 32)))
  }

  /** From the handshake secret and the hash of all messages through the server's Finished. */
  function ApplicationStage(c: Suite, handshakeSecret: Bytes, messages: Bytes): Stage {
    var secret := c.extract(c.expand(handshakeSecret, "derived", c.hash([]), 32), Zeros(32));
    Stage(secret, TrafficOf(c, c.expand(secret, "c ap traffic", messages, 32)),
                  TrafficOf(c, c.expand(secret, "s ap traffic", messages, 32)))
  }

  /** verify_data over the hash of the messages before it (section 4.4.4). */
  function VerifyData(c: Suite, baseKey: Bytes, messages: Bytes): Bytes {
    c.hmac(c.expand(baseKey, "finished", [], 32), messages)
  }

  /** A PSK binder over the hash of the truncated ClientHello (section 4.2.11.2). */
  function BinderOf(c: Suite, psk: Bytes, truncated: Bytes): Bytes {
    VerifyData(c, c.expand(EarlySecret(c, psk), "ext binder", c.hash([]), 32), truncated)
  }

  /** The n-th application traffic secret (section 7.2). */
  ghost function Chain(c: Suite, secret: Bytes, n: nat): Bytes {
    if n == 0 then secret else c.expand(Chain(c, secret, n - 1), "traffic upd", [], 32)
  }
}

/** The code's keys are those. */
module ScheduleLaw {
  import opened Base
  import opened Crypto
  import opened KeySchedule
  import opened Rfc8446

  lemma {:induction false} HandshakeKeysAre(c: Suite, early: Bytes, shared: Bytes, hellos: Bytes)
    ensures var keys, hs := HandshakeKeys(c, early, shared, hellos), HandshakeStage(c, early, shared, hellos);
            && keys.hs == hs.secret
            && Traffic(keys.cHs, keys.cKey, keys.cIv) == hs.client
            && Traffic(keys.sHs, keys.sKey, keys.sIv) == hs.server
  {
  }

  function AsHalf(t: Traffic, count: nat, epoch: nat): Half { Half(t.secret, t.key, t.iv, count, epoch) }

  lemma {:induction false} IterateIsChain(c: Suite, secret: Bytes, n: nat)
    ensures Iterate(c, secret, n) == Chain(c, secret, n)
  {
    if n > 0 {
      IterateIsChain(c, secret, n - 1);
    }
  }

  /** Where an endpoint stands in epoch e after n records. */
  lemma {:induction false} HalfAtIs(c: Suite, secret: Bytes, e: nat, n: nat)
    ensures HalfAt(c, secret, e, n) == AsHalf(TrafficOf(c, Chain(c, secret, e)), n, e)
  {
    IterateIsChain(c, secret, e);
  }

  lemma {:induction false} ApplicationKeysAre(c: Suite, hs: Bytes, messages: Bytes)
    ensures var ap := ApplicationStage(c, hs, messages);
            && HalfAt(c, ClientAppSecret(c, hs, messages), 0, 0) == AsHalf(ap.client, 0, 0)
            && HalfAt(c, ServerAppSecret(c, hs, messages), 0, 0) == AsHalf(ap.server, 0, 0)
  {
    HalfAtIs(c, ClientAppSecret(c, hs, messages), 0, 0);
    HalfAtIs(c, ServerAppSecret(c, hs, messages), 0, 0);
  }
}

/** Which inputs the handshake keys depend on. */
module KeySeparation {
  import opened Base
  import opened Crypto
  import opened KeySchedule
  import opened Rfc8446
  import opened ScheduleLaw

  /** The early secret, the shared secret and the hash of both hellos. */
  datatype Inputs = Inputs(early: Bytes, shared: Bytes, hellos: Bytes)
  {
    function Derived(c: Suite): Bytes { c.expand(early, "derived", c.hash([]), 32) }
    function Secret(c: Suite): Bytes { c.extract(Derived(c), shared) }
    function Client(c: Suite): Bytes { c.expand(Secret(c), "c hs traffic", hellos, 32) }
    function Server(c: Suite): Bytes { c.expand(Secret(c), "s hs traffic", hellos, 32) }
    function Keys(c: Suite): HsKeys { HandshakeKeys(c, early, shared, hellos) }
  }

  predicate KeyTells(c: Suite, x: Bytes, y: Bytes) {
    c.expand(x, "key", [], 16) == c.expand(y, "key", [], 16) ==> x == y
  }

  /** On the values of these two handshakes extract and expand are injective. */
  predicate NoCollision(c: Suite, a: Inputs, b: Inputs) {
    && (a.Derived(c) == b.Derived(c) ==> a.early == b.early)
    && (a.Secret(c) == b.Secret(c) ==> a.Derived(c) == b.Derived(c) && a.shared == b.shared)
    && (a.Client(c) == b.Client(c) ==> a.Secret(c) == b.Secret(c) && a.hellos == b.hellos)
    && (a.Server(c) == b.Server(c) ==> a.Secret(c) == b.Secret(c) && a.hellos == b.hellos)
    && a.Client(c) != b.Server(c)
    && KeyTells(c, a.Client(c), b.Client(c)) && KeyTells(c, a.Server(c), b.Server(c))
    && KeyTells(c, a.Client(c), b.Server(c))
  }

  /** The handshake secret fixes the early and the shared secret, either traffic secret and either key all
      three inputs, and no key serves both directions. */
  lemma {:induction false} KeysFixInputs(c: Suite, a: Inputs, b: Inputs)
    requires NoCollision(c, a, b)
    ensures a.Keys(c).hs == b.Keys(c).hs <==> a.early == b.early && a.shared == b.shared
    ensures a.Keys(c).cHs == b.Keys(c).cHs <==> a == b
    ensures a.Keys(c).sHs == b.Keys(c).sHs <==> a == b
    ensures a.Keys(c).cKey == b.Keys(c).cKey <==> a == b
    ensures a.Keys(c).sKey == b.Keys(c).sKey <==> a == b
    ensures a.Keys(c).cKey != b.Keys(c).sKey
  {
    HandshakeKeysAre(c, a.early, a.shared, a.hellos);
    HandshakeKeysAre(c, b.early, b.shared, b.hellos);
  }
}
