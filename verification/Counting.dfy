/** A toy suite whose key derivation counts instead of hashing, for what the theorems ask of one. */
module Counting {
  import opened Base
  import opened Crypto
  import opened Numbers
  import opened Rfc8446
  import opened NonceSafety
  import opened KeySeparation

  function LabelCode(name: string): (r: nat)
    ensures r < 8
  {
    if name == "c hs traffic" then 1
    else if name == "s hs traffic" then 2
    else if name == "key" then 3
    else if name == "derived" then 4
    else 0
  }

  ghost function Expanded(s: Bytes, name: string, ctx: Bytes): nat {
    if name == "traffic upd" then Value(s) + 1 else (Value(s) * 256 + Value(ctx)) * 8 + LabelCode(name)
  }

  ghost function Extracted(s: Bytes, m: Bytes): nat { Value(s) * 256 + Value(m) }

  /** The suites that count like this. */
  ghost predicate Counts(c: Suite) {
    && (forall s, m :: c.extract(s, m) == Big(32, Extracted(s, m)))
    && (forall s, name, ctx, n :: c.expand(s, name, ctx, n) == Big(n, Expanded(s, name, ctx)))
    && (forall m :: c.hash(m) == Zeros(32))
  }

  lemma {:induction false} OneCounts() returns (c: Suite)
    ensures c.Valid() && c.KdfTotal() && Counts(c)
  {
    DemandsConsistent();
    c := KdfReplaced(Example(), (s: Bytes, m: Bytes) => Big(32, Extracted(s, m)),
                     (s: Bytes, name: string, ctx: Bytes, n: nat) => Big(n, Expanded(s, name, ctx)));
    forall m ensures c.hash(m) == Zeros(32) {
      assert c.hash(m) == Example().hash(m);
    }
  }

  lemma {:induction false} KdfReplaced(
      e: Suite, extract: (Bytes, Bytes) -> Bytes, expand: (Bytes, string, Bytes, nat) -> Bytes) returns (c: Suite)
    requires e.Valid() && e.KdfTotal()
    requires (forall s, m :: |extract(s, m)| == HASH_SZ) && (forall s, l, ctx, n :: |expand(s, l, ctx, n)| == n)
    ensures c.Valid() && c.KdfTotal() && c.hash == e.hash && c.extract == extract && c.expand == expand
  {
    c := e.(extract := extract, expand := expand);
  }

  lemma {:induction false} PowLarge()
    ensures Pow(16) == WORD64 * WORD64 && Pow(32) >= Pow(16)
  {
    PowSmall();
    assert Pow(12) == WORD32 * Pow(8);
    assert Pow(16) == WORD32 * Pow(12);
    assert Pow(20) >= Pow(16) && Pow(24) >= Pow(20) && Pow(28) >= Pow(24) && Pow(32) >= Pow(28);
  }

  lemma {:induction false} ValueOfZeros(n: nat)
    ensures Value(Zeros(n)) == 0
  {
    if n > 0 {
      assert Zeros(n)[..n - 1] == Zeros(n - 1);
      ValueOfZeros(n - 1);
    }
  }

  /** Expansions tell values apart as long as they fit. */
  lemma {:induction false} ExpandsTo(c: Suite, s: Bytes, name: string, ctx: Bytes, n: nat)
    requires Counts(c) && (n == 16 || n == 32)
    requires Expanded(s, name, ctx) < WORD64 * WORD64
    ensures Value(c.expand(s, name, ctx, n)) == Expanded(s, name, ctx)
  {
    PowLarge();
    ValueOfBig(n, Expanded(s, name, ctx));
  }

  // ---- a chain that does not repeat ----

  lemma {:induction false} ChainCounts(c: Suite, n: nat)
    requires Counts(c) && n < WORD64
    ensures Value(Chain(c, Zeros(32), n)) == n
  {
    if n == 0 {
      ValueOfZeros(32);
    } else {
      ChainCounts(c, n - 1);
      ExpandsTo(c, Chain(c, Zeros(32), n - 1), "traffic upd", [], 32);
    }
  }

  lemma {:induction false} KeyCounts(c: Suite, n: nat)
    requires Counts(c) && n < WORD64
    ensures Value(KeyAt(c, Zeros(32), n)) == n * 2048 + 3
  {
    ChainCounts(c, n);
    assert Value([]) == 0;
    ExpandsTo(c, Chain(c, Zeros(32), n), "key", [], 16);
  }

  /** For every run of fewer than 2^64 records. */
  lemma {:induction false} NeverRepeats(c: Suite, n: nat)
    requires Counts(c) && n < WORD64
    ensures NoRepeat(c, Zeros(32), n) && KeysSeparate(c, Zeros(32), n)
  {
    forall x, y | 0 <= x < y <= n
      ensures Chain(c, Zeros(32), x) != Chain(c, Zeros(32), y)
      ensures KeyAt(c, Zeros(32), x) != KeyAt(c, Zeros(32), y)
    {
      ChainCounts(c, x);
      ChainCounts(c, y);
      KeyCounts(c, x);
      KeyCounts(c, y);
    }
  }

  // ---- handshakes that do not collide ----

  ghost predicate Small(a: Inputs) {
    && |a.early| == 32 && |a.shared| == 32 && |a.hellos| == 32
    && Value(a.early) < 256 && Value(a.shared) < 256 && Value(a.hellos) < 256
  }

  ghost function SecretNumber(a: Inputs): nat { (Value(a.early) * 2048 + 4) * 256 + Value(a.shared) }

  lemma {:induction false} DerivedValue(c: Suite, a: Inputs)
    requires Counts(c) && Small(a)
    ensures Value(a.Derived(c)) == Value(a.early) * 2048 + 4
  {
    ValueOfZeros(32);
    ExpandsTo(c, a.early, "derived", c.hash([]), 32);
  }

  lemma {:induction false} SecretValue(c: Suite, a: Inputs)
    requires Counts(c) && Small(a)
    ensures Value(a.Secret(c)) == SecretNumber(a) < WORD32
  {
    DerivedValue(c, a);
    PowLarge();
    ValueOfBig(32, SecretNumber(a));
  }

  lemma {:induction false} TrafficValues(c: Suite, a: Inputs)
    requires Counts(c) && Small(a)
    ensures Value(a.Client(c)) == (SecretNumber(a) * 256 + Value(a.hellos)) * 8 + 1
    ensures Value(a.Server(c)) == (SecretNumber(a) * 256 + Value(a.hellos)) * 8 + 2
  {
    SecretValue(c, a);
    ExpandsTo(c, a.Secret(c), "c hs traffic", a.hellos, 32);
    ExpandsTo(c, a.Secret(c), "s hs traffic", a.hellos, 32);
  }

  lemma {:induction false} SameValue(s: Bytes, t: Bytes)
    requires |s| == |t|
    ensures s == t <==> Value(s) == Value(t)
  {
    BigOfValue(s);
    BigOfValue(t);
  }

  lemma {:induction false} KeysApart(c: Suite, x: Bytes, y: Bytes)
    requires Counts(c) && |x| == 32 && |y| == 32 && Value(x) < WORD64 && Value(y) < WORD64
    ensures KeyTells(c, x, y)
  {
    assert Value([]) == 0;
    ExpandsTo(c, x, "key", [], 16);
    ExpandsTo(c, y, "key", [], 16);
    SameValue(x, y);
  }

  lemma {:induction false} Places(x: nat, y: nat, x': nat, y': nat)
    requires y < 256 && y' < 256
    ensures x * 256 + y == x' * 256 + y' <==> x == x' && y == y'
  {
  }

  lemma {:induction false} SecretsApart(c: Suite, a: Inputs, b: Inputs)
    requires Counts(c) && Small(a) && Small(b)
    ensures a.Derived(c) == b.Derived(c) ==> a.early == b.early
    ensures a.Secret(c) == b.Secret(c) ==> a.Derived(c) == b.Derived(c) && a.shared == b.shared
  {
    DerivedValue(c, a);
    DerivedValue(c, b);
    SameValue(a.early, b.early);
    SameValue(a.Derived(c), b.Derived(c));
    SecretValue(c, a);
    SecretValue(c, b);
    SameValue(a.shared, b.shared);
    SameValue(a.Secret(c), b.Secret(c));
    Places(Value(a.early) * 2048 + 4, Value(a.shared), Value(b.early) * 2048 + 4, Value(b.shared));
  }

  lemma {:induction false} TrafficApart(c: Suite, a: Inputs, b: Inputs)
    requires Counts(c) && Small(a) && Small(b)
    ensures a.Client(c) == b.Client(c) ==> a.Secret(c) == b.Secret(c) && a.hellos == b.hellos
    ensures a.Server(c) == b.Server(c) ==> a.Secret(c) == b.Secret(c) && a.hellos == b.hellos
    ensures a.Client(c) != b.Server(c)
  {
    TrafficValues(c, a);
    TrafficValues(c, b);
    SecretValue(c, a);
    SecretValue(c, b);
    SameValue(a.Secret(c), b.Secret(c));
    SameValue(a.hellos, b.hellos);
    Places(SecretNumber(a), Value(a.hellos), SecretNumber(b), Value(b.hellos));
  }

  /** Any two handshakes with secrets and hashes below 256. */
  lemma {:induction false} NeverCollides(c: Suite, a: Inputs, b: Inputs)
    requires Counts(c) && Small(a) && Small(b)
    ensures NoCollision(c, a, b)
  {
    SecretsApart(c, a, b);
    TrafficApart(c, a, b);
    TrafficValues(c, a);
    TrafficValues(c, b);
    SecretValue(c, a);
    SecretValue(c, b);
    KeysApart(c, a.Client(c), b.Client(c));
    KeysApart(c, a.Server(c), b.Server(c));
    KeysApart(c, a.Client(c), b.Server(c));
  }

  /** One suite meets what is asked of the application secrets, for every run of fewer than 2^64 records,
      and of any two such handshakes. */
  lemma {:induction false} SuiteExists(n: nat) returns (c: Suite)
    requires n < WORD64
    ensures c.Valid() && c.KdfTotal() && NoRepeat(c, Zeros(32), n) && KeysSeparate(c, Zeros(32), n)
    ensures forall a, b :: Small(a) && Small(b) ==> NoCollision(c, a, b)
  {
    c := OneCounts();
    NeverRepeats(c, n);
    forall a, b | Small(a) && Small(b) ensures NoCollision(c, a, b) {
      NeverCollides(c, a, b);
    }
  }
}
