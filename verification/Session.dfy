/** Traffic keys of one direction and their update, src/wn_keyschedule.c. */
module KeySchedule {
  import opened Base
  import opened Crypto
  import Rfc8446

  /** One direction of a session. `count` is the number of records since the sequence number was
      last reset, of which the code keeps the low 64 bits; `epoch` counts the writes of `key`. */
  datatype Half = Half(secret: Bytes, key: Bytes, iv: Bytes, count: nat, epoch: nat)
  {
    function SeqNo(): nat { count % WORD64 }

    predicate Valid() { |secret| == HASH_SZ && |iv| == IV_SZ }

    function Bump(): Half { this.(count := count + 1) }
  }

  function UpdatedSecret(c: Suite, secret: Bytes): Bytes {
    c.expand(secret, "traffic upd", [], HASH_SZ)
  }

  function KeyOf(c: Suite, secret: Bytes): Bytes { c.expand(secret, "key", [], KEY_SZ) }

  function IvOf(c: Suite, secret: Bytes): Bytes { c.expand(secret, "iv", [], IV_SZ) }

  function DeriveSecret(c: Suite, secret: Bytes, name: string, th: Bytes): Bytes {
    c.expand(secret, name, th, HASH_SZ)
  }

  /** The verify_data over a transcript hash (section 4.4.4 of RFC 8446). */
  function FinishedMac(c: Suite, baseKey: Bytes, th: Bytes): Bytes {
    c.hmac(c.expand(baseKey, "finished", [], HASH_SZ), th)
  }

  predicate FinishedFails(c: Suite, baseKey: Bytes) { c.expandFails(baseKey, "finished", [], HASH_SZ) }

  /** The handshake secret, both handshake traffic secrets and their keys. */
  datatype HsKeys = HsKeys(hs: Bytes, cHs: Bytes, sHs: Bytes, cKey: Bytes, cIv: Bytes, sKey: Bytes, sIv: Bytes)
  {
    predicate Sized() { |cHs| == HASH_SZ && |cIv| == IV_SZ && |sIv| == IV_SZ }
  }

  /** Section 7.1 of RFC 8446, from the early secret, the shared secret and the hash of the hellos. */
  function HandshakeKeys(c: Suite, early: Bytes, ecdhe: Bytes, th: Bytes): HsKeys {
    var hs := c.extract(DeriveSecret(c, early, "derived", c.hash([])), ecdhe);
    var cHs, sHs := DeriveSecret(c, hs, "c hs traffic", th), DeriveSecret(c, hs, "s hs traffic", th);
    HsKeys(hs, cHs, sHs, KeyOf(c, cHs), IvOf(c, cHs), KeyOf(c, sHs), IvOf(c, sHs))
  }

  predicate TrafficFails(c: Suite, secret: Bytes, name: string, th: Bytes) {
    || c.expandFails(secret, name, th, HASH_SZ)
    || c.expandFails(DeriveSecret(c, secret, name, th), "key", [], KEY_SZ)
    || c.expandFails(DeriveSecret(c, secret, name, th), "iv", [], IV_SZ)
  }

  predicate HandshakeFails(c: Suite, early: Bytes, ecdhe: Bytes, th: Bytes) {
    var hs := HandshakeKeys(c, early, ecdhe, th).hs;
    || c.expandFails(early, "derived", c.hash([]), HASH_SZ)
    || TrafficFails(c, hs, "c hs traffic", th) || TrafficFails(c, hs, "s hs traffic", th)
  }

  function MasterSecret(c: Suite, hs: Bytes): Bytes {
    c.extract(DeriveSecret(c, hs, "derived", c.hash([])), Zeros(HASH_SZ))
  }

  function ClientAppSecret(c: Suite, hs: Bytes, th: Bytes): Bytes {
    DeriveSecret(c, MasterSecret(c, hs), "c ap traffic", th)
  }

  function ServerAppSecret(c: Suite, hs: Bytes, th: Bytes): Bytes {
    DeriveSecret(c, MasterSecret(c, hs), "s ap traffic", th)
  }

  predicate ApplicationFails(c: Suite, hs: Bytes, th: Bytes) {
    || c.expandFails(hs, "derived", c.hash([]), HASH_SZ)
    || TrafficFails(c, MasterSecret(c, hs), "c ap traffic", th)
    || TrafficFails(c, MasterSecret(c, hs), "s ap traffic", th)
  }

  /** wn_DeriveHsKeys. */
  method DeriveHsKeys(c: Suite, early: Bytes, ecdhe: Bytes, th: Bytes) returns (ret: Code, keys: HsKeys)
    ensures ret == Success <==> !HandshakeFails(c, early, ecdhe, th)
    ensures keys == HandshakeKeys(c, early, ecdhe, th)
    ensures var hs := Rfc8446.HandshakeStage(c, early, ecdhe, th);
            && keys.hs == hs.secret && keys.cHs == hs.client.secret && keys.sHs == hs.server.secret
            && keys.cKey == hs.client.key && keys.cIv == hs.client.iv
            && keys.sKey == hs.server.key && keys.sIv == hs.server.iv
  {
    var emptyHash := c.hash([]);
    var bad := c.expandFails(early, "derived", emptyHash, HASH_SZ);
    var derived := c.expand(early, "derived", emptyHash, HASH_SZ);
    var hs := c.extract(derived, ecdhe);
    bad := bad || c.expandFails(hs, "c hs traffic", th, HASH_SZ);
    var cHs := c.expand(hs, "c hs traffic", th, HASH_SZ);
    bad := bad || c.expandFails(hs, "s hs traffic", th, HASH_SZ);
    var sHs := c.expand(hs, "s hs traffic", th, HASH_SZ);
    bad := bad || c.expandFails(cHs, "key", [], KEY_SZ) || c.expandFails(cHs, "iv", [], IV_SZ);
    bad := bad || c.expandFails(sHs, "key", [], KEY_SZ) || c.expandFails(sHs, "iv", [], IV_SZ);
    keys := HsKeys(hs, cHs, sHs,
      c.expand(cHs, "key", [], KEY_SZ), c.expand(cHs, "iv", [], IV_SZ),
      c.expand(sHs, "key", [], KEY_SZ), c.expand(sHs, "iv", [], IV_SZ));
    ret := if bad then Code.Crypto else Success;
  }

  /** The three steps of wn_Tls13_KeyUpdate; an error leaves the earlier steps in place. */
  function Rekey(c: Suite, h: Half): (Half, Code) {
    if c.expandFails(h.secret, "traffic upd", [], HASH_SZ) then (h, Code.Crypto)
    else
      var next := UpdatedSecret(c, h.secret);
      if c.expandFails(next, "key", [], KEY_SZ) then (h.(secret := next), Code.Crypto)
      else
        var keyed := h.(secret := next, key := KeyOf(c, next), epoch := h.epoch + 1);
        if c.expandFails(next, "iv", [], IV_SZ) then (keyed, Code.Crypto)
        else (keyed.(iv := IvOf(c, next)), Success)
  }

  /** The k-fold "traffic upd" iterate (section 7.2 of RFC 8446). */
  ghost function Iterate(c: Suite, secret: Bytes, k: nat): Bytes {
    if k == 0 then secret else UpdatedSecret(c, Iterate(c, secret, k - 1))
  }

  /** What the RFC prescribes for epoch e and the n-th record of it. */
  ghost function HalfAt(c: Suite, secret: Bytes, e: nat, n: nat): Half {
    var s := Iterate(c, secret, e);
    Half(s, KeyOf(c, s), IvOf(c, s), n, e)
  }

  lemma {:induction false} RekeyAt(c: Suite, secret: Bytes, e: nat, n: nat)
    requires c.KdfTotal()
    ensures Rekey(c, HalfAt(c, secret, e, n)) == (HalfAt(c, secret, e + 1, n), Success)
  {
  }

  class Direction {
    var secret: Bytes
    var key: Bytes
    var iv: Bytes
    var seqNo: nat
    ghost var count: nat
    ghost var epoch: nat

    ghost predicate Valid()
      reads this
    {
      |secret| == HASH_SZ && |iv| == IV_SZ && seqNo == count % WORD64
    }

    ghost function View(): Half
      reads this
    {
      Half(secret, key, iv, count, epoch)
    }

    constructor ()
      ensures Valid() && View() == Half(Zeros(HASH_SZ), Zeros(KEY_SZ), Zeros(IV_SZ), 0, 0)
    {
      secret, key, iv, seqNo := Zeros(HASH_SZ), Zeros(KEY_SZ), Zeros(IV_SZ), 0;
      count, epoch := 0, 0;
    }

    method KeyUpdate(c: Suite) returns (ret: Code)
      requires c.Valid() && Valid()
      modifies this
      ensures Valid() && seqNo == old(seqNo)
      ensures (View(), ret) == Rekey(c, old(View()))
      ensures ret == Success ==>
                && secret == c.expand(old(secret), "traffic upd", [], HASH_SZ)
                && key == c.expand(secret, "key", [], KEY_SZ) && iv == c.expand(secret, "iv", [], IV_SZ)
    {
      if c.expandFails(secret, "traffic upd", [], HASH_SZ) {
        return Code.Crypto;
      }
      secret := c.expand(secret, "traffic upd", [], HASH_SZ);
      if c.expandFails(secret, "key", [], KEY_SZ) {
        return Code.Crypto;
      }
      key := c.expand(secret, "key", [], KEY_SZ);
      epoch := epoch + 1;
      if c.expandFails(secret, "iv", [], IV_SZ) {
        return Code.Crypto;
      }
      iv := c.expand(secret, "iv", [], IV_SZ);
      ret := Success;
    }

    /** seq++ on a word64. */
    method Advance()
      requires Valid()
      modifies this`seqNo, this`count
      ensures Valid() && View() == old(View()).Bump()
    {
      seqNo := (seqNo + 1) % WORD64;
      count := count + 1;
    }

    method Restart()
      requires Valid()
      modifies this`seqNo, this`count
      ensures Valid() && View() == old(View()).(count := 0)
    {
      seqNo, count := 0, 0;
    }

    /** A traffic secret and its keys, at sequence number 0. */
    method Install(c: Suite, master: Bytes, name: string, th: Bytes) returns (bad: bool)
      requires c.Valid()
      modifies this
      ensures Valid() && View() == HalfAt(c, DeriveSecret(c, master, name, th), 0, 0)
      ensures bad == TrafficFails(c, master, name, th)
    {
      bad := c.expandFails(master, name, th, HASH_SZ);
      secret := c.expand(master, name, th, HASH_SZ);
      bad := bad || c.expandFails(secret, "key", [], KEY_SZ);
      key := c.expand(secret, "key", [], KEY_SZ);
      bad := bad || c.expandFails(secret, "iv", [], IV_SZ);
      iv := c.expand(secret, "iv", [], IV_SZ);
      seqNo, count, epoch := 0, 0, 0;
    }

    method Wipe()
      modifies this
      ensures Valid() && View() == Wiped(old(View()))
    {
      secret, key, iv, seqNo := Zeros(HASH_SZ), Zeros(KEY_SZ), Zeros(IV_SZ), 0;
      count, epoch := 0, epoch + 1;
    }
  }

  function Wiped(h: Half): Half {
    Half(Zeros(HASH_SZ), Zeros(KEY_SZ), Zeros(IV_SZ), 0, h.epoch + 1)
  }
}

/** The application-data session as a state machine: what each call of src/wn_session.c does. */
module SessionSpec {
  import opened Base
  import opened Crypto
  import opened Record
  import opened KeySchedule

  const NEW_SESSION_TICKET: Byte := 4
  const KEY_UPDATE: Byte := 24

  /** update_not_requested, the only KeyUpdate the client sends. */
  const KU_REPLY: Bytes := [KEY_UPDATE, 0, 0, 1, 0]
  const CLOSE_NOTIFY: Bytes := [1, 0]
  const OVERHEAD: nat := HEADER_SZ + 1 + TAG_SZ

  /** One record handed to the transport and the write state that sealed it. */
  datatype Emission = Emission(half: Half, ty: Byte, content: Bytes)
  {
    ghost function Wire(c: Suite): Bytes
      requires half.Valid()
    {
      SealRecord(c, half.key, half.iv, half.SeqNo(), ty, content)
    }
  }

  datatype State = State(
    tx: Half,
    rx: Half,
    established: bool,
    closed: bool,
    emitted: seq<Emission>,  // every record ever handed to the transport
    accepted: seq<Opened>,   // every record that authenticated and advanced the read state
    answers: seq<int>)       // what the transport will answer to the next sends
  {
    ghost predicate Valid() {
      tx.Valid() && rx.Valid() && forall e <- emitted :: e.half.Valid()
    }
  }

  /** The state wn_SessionEstablish leaves behind. */
  ghost function Established(c: Suite, clientSecret: Bytes, serverSecret: Bytes, answers: seq<int>): State {
    State(HalfAt(c, clientSecret, 0, 0), HalfAt(c, serverSecret, 0, 0), true, false, [], [], answers)
  }

  /** Seal one record under the write state, count it, and hand it over. */
  function Emit(s: State, ty: Byte, content: Bytes): (State, bool) {
    var sent := s.(
      tx := s.tx.Bump(),
      emitted := s.emitted + [Emission(s.tx, ty, content)],
      answers := if s.answers == [] then [] else s.answers[1..]);
    (sent, s.answers != [] && s.answers[0] == |content| + OVERHEAD)
  }

  function SendKeyUpdate(c: Suite, s: State): (State, Code) {
    var (sent, ok) := Emit(s, HANDSHAKE, KU_REPLY);
    if !ok then (sent, Code.Crypto)
    else
      var (h, code) := Rekey(c, sent.tx);
      (sent.(tx := if code == Success then h.(count := 0) else h), code)
  }

  /** The peer's KeyUpdate: rekey the read side, then answer if asked. */
  function ApplyKeyUpdate(c: Suite, s: State, requested: bool): (State, Code) {
    var (h, code) := Rekey(c, s.rx);
    if code != Success then (s.(rx := h), code)
    else
      var rekeyed := s.(rx := h.(count := 0));
      if requested then SendKeyUpdate(c, rekeyed) else (rekeyed, Success)
  }

  /** The messages of one post-handshake record, in order, up to the first error. */
  function PostHs(c: Suite, s: State, msg: Bytes): (State, Code)
    decreases |msg|
  {
    if msg == [] then (s, Success)
    else if msg[0] == NEW_SESSION_TICKET then
      if |msg| < 4 || 4 + GetU24(msg, 1) > |msg| then (s, Decode)
      else PostHs(c, s, msg[4 + GetU24(msg, 1)..])
    else if msg[0] == KEY_UPDATE then
      if |msg| < 5 || GetU24(msg, 1) != 1 || msg[4] > 1 then (s, Decode)
      else
        var (next, code) := ApplyKeyUpdate(c, s, msg[4] == 1);
        if code != Success then (next, code) else PostHs(c, next, msg[5..])
    else (s, UnexpectedMsg)
  }

  datatype Received = Received(s: State, code: Code, out: Option<Bytes>, rest: Bytes)

  /** Act on a record that authenticated. */
  function Dispatch(c: Suite, s: State, ty: Byte, content: Bytes, outCap: nat): Received {
    if ty == APPDATA then
      if |content| > outCap then Received(s, InvalidArg, None, []) else Received(s, Success, Some(content), [])
    else if ty == HANDSHAKE then
      var (after, code) := PostHs(c, s, content);
      Received(after, code, None, [])
    else if ty == ALERT then
      if |content| >= 2 && content[1] == 0 then Received(s.(closed := true), Closed, None, [])
      else Received(s, Code.Crypto, None, [])
    else Received(s, UnexpectedMsg, None, [])
  }

  /** The state once a record has authenticated, before it is acted on. */
  function Advanced(s: State, o: Opened): State
    requires o.Opened?
  {
    s.(rx := s.rx.Bump(), accepted := s.accepted + [o])
  }

  /** One framed record: authenticate, advance, act. */
  function Accept(c: Suite, s: State, rec: Bytes, outCap: nat): Received
    requires s.rx.Valid()
  {
    match OpenRecord(c, s.rx.key, s.rx.iv, s.rx.SeqNo(), rec)
    case OpenError(code) => Received(s, code, None, [])
    case Opened(ty, content) => Dispatch(c, Advanced(s, Opened(ty, content)), ty, content, outCap)
  }

  lemma {:induction false} ApplyKeepsValid(c: Suite, s: State, requested: bool)
    requires c.Valid() && s.Valid()
    ensures ApplyKeyUpdate(c, s, requested).0.Valid()
  {
    RekeyKeepsValid(c, s.rx);
    if requested && Rekey(c, s.rx).1 == Success {
      SendKeepsValid(c, s.(rx := Rekey(c, s.rx).0.(count := 0)));
    }
  }

  lemma {:induction false} RekeyKeepsValid(c: Suite, h: Half)
    requires c.Valid() && h.Valid()
    ensures Rekey(c, h).0.Valid()
  {
  }

  lemma {:induction false} SendKeepsValid(c: Suite, s: State)
    requires c.Valid() && s.Valid()
    ensures SendKeyUpdate(c, s).0.Valid()
  {
    RekeyKeepsValid(c, s.tx.Bump());
  }

  lemma {:induction false} PostHsKeepsValid(c: Suite, s: State, msg: Bytes)
    requires c.Valid() && s.Valid()
    ensures PostHs(c, s, msg).0.Valid()
    decreases |msg|
  {
    if msg != [] && msg[0] == NEW_SESSION_TICKET {
      if |msg| >= 4 && 4 + GetU24(msg, 1) <= |msg| {
        PostHsKeepsValid(c, s, msg[4 + GetU24(msg, 1)..]);
      }
    } else if msg != [] && msg[0] == KEY_UPDATE {
      if |msg| >= 5 && GetU24(msg, 1) == 1 && msg[4] <= 1 {
        var (next, code) := ApplyKeyUpdate(c, s, msg[4] == 1);
        ApplyKeepsValid(c, s, msg[4] == 1);
        if code == Success {
          PostHsKeepsValid(c, next, msg[5..]);
        }
      }
    }
  }

  lemma {:induction false} AcceptKeepsValid(c: Suite, s: State, rec: Bytes, outCap: nat)
    requires c.Valid() && s.Valid()
    ensures Accept(c, s, rec, outCap).s.Valid()
  {
    var o := OpenRecord(c, s.rx.key, s.rx.iv, s.rx.SeqNo(), rec);
    if o.Opened? && o.ty == HANDSHAKE {
      PostHsKeepsValid(c, Advanced(s, o), o.content);
    }
  }

  /** wn_Recv on the bytes the transport still delivers: records are consumed until one of them
      yields data or an error. */
  ghost function Receive(c: Suite, s: State, stream: Bytes, cap: nat, outCap: nat): (r: Received)
    requires c.Valid() && s.Valid()
    ensures r.s.Valid()
    decreases |stream|
  {
    match Frame(stream, cap)
    case NoRecord(code) => Received(s, code, None, [])
    case Framed(ty, rec, rest) =>
      if ty == CHANGE_CIPHER then Received(s, UnexpectedMsg, None, rest)
      else
        var r := Accept(c, s, rec, outCap);
        AcceptKeepsValid(c, s, rec, outCap);
        if r.code == Success && r.out.None? then Receive(c, r.s, rest, cap, outCap)
        else r.(rest := rest)
  }

  lemma {:induction false} ReceiveStep(c: Suite, s: State, stream: Bytes, f: Framed, cap: nat, outCap: nat)
    requires c.Valid() && s.Valid() && f == Frame(stream, cap)
    ensures var r := Receive(c, s, stream, cap, outCap);
            if f.NoRecord? then r == Received(s, f.code, None, [])
            else if f.ty == CHANGE_CIPHER then r.(rest := []) == Received(s, UnexpectedMsg, None, [])
            else var a := Accept(c, s, f.rec, outCap);
              if a.code == Success && a.out.None? then a.s.Valid() && r == Receive(c, a.s, f.rest, cap, outCap)
              else r.(rest := []) == a.(rest := [])
  {
    if f.Framed? && f.ty != CHANGE_CIPHER {
      AcceptKeepsValid(c, s, f.rec, outCap);
    }
  }

  // ---- whole runs ----

  datatype Call =
    | CallSend(data: Bytes)
    | CallRecv(stream: Bytes, outCap: nat) // the bytes the transport delivers to this call
    | CallClose

  predicate Open(s: State) { s.established && !s.closed }

  function Send(s: State, data: Bytes, scratchLen: nat): (State, Code) {
    if s.closed then (s, Closed)
    else if !s.established then (s, BadState)
    else if |data| > MAX_PLAINTEXT || scratchLen < OVERHEAD || |data| > scratchLen - OVERHEAD then (s, InvalidArg)
    else
      var (sent, ok) := Emit(s, APPDATA, data);
      (sent, if ok then Success else Code.Crypto)
  }

  function Close(s: State): State {
    var said := if Open(s) then Emit(s, ALERT, CLOSE_NOTIFY).0 else s;
    said.(tx := Wiped(said.tx), rx := Wiped(said.rx), established := false, closed := false)
  }

  ghost function Do(c: Suite, s: State, call: Call, scratchLen: nat): (r: State)
    requires c.Valid() && s.Valid()
    ensures r.Valid()
  {
    match call
    case CallSend(data) => Send(s, data, scratchLen).0
    case CallRecv(stream, outCap) => if Open(s) then Receive(c, s, stream, scratchLen, outCap).s else s
    case CallClose => Close(s)
  }

  ghost function Run(c: Suite, s: State, calls: seq<Call>, scratchLen: nat): (r: State)
    requires c.Valid() && s.Valid()
    ensures r.Valid()
    decreases calls
  {
    if calls == [] then s else Run(c, Do(c, s, calls[0], scratchLen), calls[1..], scratchLen)
  }
}

/** wn_Session: the same machine over the session object, the scratch buffer and the transport. */
module Session {
  import opened Base
  import opened Crypto
  import opened Wire
  import opened Transport
  import opened Record
  import opened KeySchedule
  import Spec = SessionSpec

  function Last(buffers: seq<Bytes>): Bytes
    requires buffers != []
  {
    buffers[|buffers| - 1]
  }

  class Session {
    const c: Suite
    const tx: Direction
    const rx: Direction
    var io: Channel?
    var scratch: array?<Byte>
    var scratchLen: nat
    var established: bool
    var closed: bool
    ghost var emitted: seq<Spec.Emission>
    ghost var accepted: seq<Opened>
    ghost var start: nat // how many buffers had been handed to the transport before this session

    ghost predicate Valid()
      reads this, tx, rx, io
    {
      && (forall e <- emitted :: e.half.Valid())
      && (io != null ==> Logged(io.outgoing))
      && c.Valid() && tx != rx && tx.Valid() && rx.Valid()
      && (established ==> io != null && scratch != null && HEADER_SZ <= scratchLen <= scratch.Length)
    }

    /** What the transport was handed is what the log of emissions says. */
    ghost predicate Logged(outgoing: seq<Bytes>)
      requires forall e <- emitted :: e.half.Valid()
      reads this
    {
      && |outgoing| == start + |emitted|
      && forall i :: 0 <= i < |emitted| ==> outgoing[start + i] == emitted[i].Wire(c)
    }

    ghost function View(): Spec.State
      reads this, tx, rx, io
    {
      Spec.State(tx.View(), rx.View(), established, closed, emitted, accepted, if io == null then [] else io.answers)
    }

    /** A zeroed session, as both connect calls leave it when they fail. */
    constructor (c: Suite)
      requires c.Valid()
      ensures Valid() && !established && !closed && emitted == [] && accepted == []
      ensures this.c == c && fresh(tx) && fresh(rx) && io == null
    {
      this.c := c;
      tx := new Direction();
      rx := new Direction();
      io, scratch, scratchLen, established, closed := null, null, 0, false, false;
      emitted, accepted := [], [];
    }

    /** What both connect calls do first: no half-open session on failure. */
    method Zero()
      requires c.Valid() && tx != rx
      modifies this, tx, rx
      ensures Valid() && !established && !closed && io == null && emitted == [] && accepted == []
    {
      tx.Wipe();
      rx.Wipe();
      io, scratch, scratchLen, established, closed := null, null, 0, false, false;
      emitted, accepted, start := [], [], 0;
    }

    /** The master secret, both application secrets and their keys. */
    method DeriveTraffic(hs: Bytes, th: Bytes) returns (bad: bool)
      requires c.Valid() && tx != rx
      modifies tx, rx
      ensures tx.Valid() && tx.View() == HalfAt(c, ClientAppSecret(c, hs, th), 0, 0)
      ensures rx.Valid() && rx.View() == HalfAt(c, ServerAppSecret(c, hs, th), 0, 0)
      ensures bad == ApplicationFails(c, hs, th)
    {
      var emptyHash := c.hash([]);
      bad := c.expandFails(hs, "derived", emptyHash, HASH_SZ);
      var derived := c.expand(hs, "derived", emptyHash, HASH_SZ);
      var master := c.extract(derived, Zeros(HASH_SZ));
      var badTx := tx.Install(c, master, "c ap traffic", th);
      var badRx := rx.Install(c, master, "s ap traffic", th);
      bad := bad || badTx || badRx;
    }

    /** wn_SessionEstablish: the secrets are written as they are derived, the flag only if every
        derivation succeeded. */
    method Establish(hs: Bytes, th: Bytes, ioArg: Channel, scratchArg: array<Byte>, scratchLenArg: nat)
        returns (ret: Code)
      requires Valid() && !established && !closed && io == null && emitted == [] && accepted == []
      requires HEADER_SZ <= scratchLenArg <= scratchArg.Length
      modifies this, tx, rx
      ensures Valid() && !closed && established == (ret == Success)
              && (ret == Success <==> !ApplicationFails(c, hs, th))
      ensures ret != Success ==> io == null
      ensures ret == Success ==>
                && View() == Spec.Established(c, ClientAppSecret(c, hs, th), ServerAppSecret(c, hs, th),
                  ioArg.answers)
                && io == ioArg && scratch == scratchArg && scratchLen == scratchLenArg
    {
      var bad := DeriveTraffic(hs, th);
      if bad {
        return Code.Crypto;
      }
      io, scratch, scratchLen, established := ioArg, scratchArg, scratchLenArg, true;
      start := |io.outgoing|;
      ret := Success;
    }

    /** Seal a record into `rec`, count it and hand it to the transport. */
    method Emit(rec: array<Byte>, ty: Byte, content: Bytes) returns (ok: bool)
      requires Valid() && io != null
      requires |content| <= MAX_PLAINTEXT && |content| + Spec.OVERHEAD <= rec.Length
      modifies this`emitted, tx`seqNo, tx`count, io`answers, io`outgoing, rec
      ensures Valid() && (View(), ok) == Spec.Emit(old(View()), ty, content)
      ensures io.outgoing != []
      ensures ty != 0 ==>
                OpenRecord(c, old(tx.key), old(tx.iv), old(tx.seqNo), Last(io.outgoing)) == Opened(ty, content)
    {
      ghost var e := Spec.Emission(tx.View(), ty, content);
      if ty != 0 {
        OpensSealed(c, tx.key, tx.iv, tx.seqNo, ty, content);
      }
      var ret, recLen := Protect(c, rec, tx.key, tx.iv, tx.seqNo, ty, content);
      assert rec[..recLen] == e.Wire(c) && recLen == |content| + Spec.OVERHEAD;
      tx.Advance();
      ok := HandOver(rec[..recLen], e);
    }

    /** One send callback. */
    method HandOver(data: Bytes, ghost e: Spec.Emission) returns (ok: bool)
      requires Valid() && io != null && e.half.Valid() && data == e.Wire(c)
      modifies this`emitted, io`answers, io`outgoing
      ensures Valid() && emitted == old(emitted) + [e] && io.outgoing == old(io.outgoing) + [data]
      ensures io.answers == if old(io.answers) == [] then [] else old(io.answers)[1..]
      ensures ok == (old(io.answers) != [] && old(io.answers)[0] == |data|)
    {
      var r := io.Send(data);
      emitted := emitted + [e];
      ok := r == |data|;
    }

    method SendKeyUpdate() returns (ret: Code)
      requires Valid() && io != null
      modifies this`emitted, tx, io`answers, io`outgoing
      ensures Valid() && (View(), ret) == Spec.SendKeyUpdate(c, old(View()))
    {
      var rec := new Byte[HEADER_SZ + 5 + 1 + TAG_SZ];
      var ok := Emit(rec, HANDSHAKE, Spec.KU_REPLY);
      if !ok {
        return Code.Crypto;
      }
      ret := tx.KeyUpdate(c);
      if ret == Success {
        tx.Restart();
      }
    }

    method ApplyKeyUpdate(requested: bool) returns (ret: Code)
      requires Valid() && io != null
      modifies this`emitted, tx, rx, io`answers, io`outgoing
      ensures Valid() && (View(), ret) == Spec.ApplyKeyUpdate(c, old(View()), requested)
    {
      ret := rx.KeyUpdate(c);
      if ret == Success {
        rx.Restart();
        if requested {
          ret := SendKeyUpdate();
        }
      }
    }

    /** A KeyUpdate whose header has been read off `rest`. */
    method OnKeyUpdate(r: Reader, mLen: nat, ghost rest: Bytes) returns (ret: Code)
      requires Valid() && io != null && r.Valid() && rest != [] && rest[0] == Spec.KEY_UPDATE
      requires r.err == (|rest| < 4) && (!r.err ==> mLen == GetU24(rest, 1) && r.buf[r.pos..] == rest[4..])
      modifies this`emitted, tx, rx, io`answers, io`outgoing, r
      ensures Valid() && r.Valid() && (ret == Success ==> !r.err && old(r.pos) < r.pos)
      ensures Spec.PostHs(c, old(View()), rest) ==
              if ret == Success then Spec.PostHs(c, View(), r.buf[r.pos..]) else (View(), ret)
    {
      var req := r.ReadU8();
      if r.err || mLen != 1 || req > 1 {
        ret := Decode;
      } else {
        assert r.buf[r.pos..] == rest[5..] && req == rest[4];
        ret := ApplyKeyUpdate(req == 1);
      }
    }

    /** The loop body of PostHs: one message off the reader. */
    method PostHsMessage(r: Reader) returns (ret: Code)
      requires Valid() && io != null && r.Valid() && !r.err && r.pos < |r.buf|
      modifies this`emitted, tx, rx, io`answers, io`outgoing, r
      ensures Valid() && r.Valid() && (ret == Success ==> !r.err && old(r.pos) < r.pos)
      ensures Spec.PostHs(c, old(View()), r.buf[old(r.pos)..]) ==
              if ret == Success then Spec.PostHs(c, View(), r.buf[r.pos..]) else (View(), ret)
    {
      ghost var rest := r.buf[r.pos..];
      ret := Success;
      var mType := r.ReadU8();
      var mLen := r.ReadU24();
      if mType == Spec.NEW_SESSION_TICKET {
        var skipped := r.ReadBytes(mLen);
        assert !r.err ==> GetU24(rest, 1) == mLen && r.buf[r.pos..] == rest[4 + mLen..];
      } else if mType == Spec.KEY_UPDATE {
        ret := OnKeyUpdate(r, mLen, rest);
      } else {
        ret := UnexpectedMsg;
      }
      if ret == Success && r.err {
        ret := Decode;
      }
    }

    method PostHs(msg: Bytes) returns (ret: Code)
      requires Valid() && io != null && |msg| <= MAX_BUFFER
      modifies this`emitted, tx, rx, io`answers, io`outgoing
      ensures Valid() && (View(), ret) == Spec.PostHs(c, old(View()), msg)
    {
      ret := Success;
      var r := new Reader(msg);
      assert msg[0..] == msg;
      ghost var goal := Spec.PostHs(c, View(), msg);
      while r.pos < |msg| && ret == Success
        invariant fresh(r) && r.Valid() && r.buf == msg && (ret == Success ==> !r.err)
        invariant Valid()
        invariant goal == if ret == Success then Spec.PostHs(c, View(), msg[r.pos..]) else (View(), ret)
        decreases if ret == Success then 1 + |msg| - r.pos else 0
      {
        ret := PostHsMessage(r);
      }
    }

    method Send(data: Bytes) returns (ret: Code)
      requires Valid()
      modifies this`emitted, tx, io, scratch
      ensures Valid() && (View(), ret) == Spec.Send(old(View()), data, scratchLen)
      ensures ret == Success ==>
                && io != null && io.outgoing != []
                && OpenRecord(c, old(tx.key), old(tx.iv), old(tx.seqNo), Last(io.outgoing)) == Opened(APPDATA, data)
    {
      if closed {
        return Closed;
      }
      if !established {
        return BadState;
      }
      if |data| > MAX_PLAINTEXT || scratchLen < Spec.OVERHEAD || |data| > scratchLen - Spec.OVERHEAD {
        return InvalidArg;
      }
      var ok := Emit(scratch, APPDATA, data);
      ret := if ok then Success else Code.Crypto;
    }

    /** Act on a decrypted record. */
    method Dispatch(ctype: Byte, plain: Bytes, out: array<Byte>, outCap: nat)
      returns (ret: Code, done: bool, outLen: nat)
      requires Valid() && io != null && |plain| <= MAX_BUFFER
      requires outCap <= out.Length
      modifies this`emitted, this`closed, tx, rx, io`answers, io`outgoing, out
      ensures Valid() && outLen <= outCap && (done ==> ret == Success)
      ensures Spec.Dispatch(c, old(View()), ctype, plain, outCap) ==
              Spec.Received(View(), ret, if done then Some(out[..outLen]) else None, [])
    {
      ret, done, outLen := Success, false, 0;
      if ctype == APPDATA {
        if |plain| > outCap {
          ret := InvalidArg;
        } else {
          forall i | 0 <= i < |plain| {
            out[i] := plain[i];
          }
          outLen, done := |plain|, true;
          assert out[..outLen] == plain;
        }
      } else if ctype == HANDSHAKE {
        ret := PostHs(plain);
      } else if ctype == ALERT {
        if |plain| >= 2 && plain[1] == 0 {
          closed := true;
          ret := Closed;
        } else {
          ret := Code.Crypto;
        }
      } else {
        ret := UnexpectedMsg;
      }
    }

    /** Decrypt the record in scratch in place; only a record that authenticates counts. */
    method Authenticate(recLen: nat) returns (ret: Code, ctype: Byte, plain: Bytes)
      requires Valid() && established && recLen <= scratchLen && recLen <= MAX_BUFFER
      modifies this`accepted, rx`seqNo, rx`count, scratch
      ensures Valid() && |plain| <= MAX_BUFFER
      ensures match OpenRecord(c, old(rx.key), old(rx.iv), old(rx.seqNo), old(scratch[..recLen]))
              case OpenError(code) => ret == code && ret != Success && View() == old(View())
              case Opened(ty, content) =>
                ret == Success && ctype == ty && plain == content
                  && View() == Spec.Advanced(old(View()), Opened(ty, content))
    {
      plain := [];
      var plainLen;
      ret, ctype, plainLen := Unprotect(c, scratch, HEADER_SZ, rx.key, rx.iv, rx.seqNo, scratch, recLen);
      if ret == Success {
        plain := scratch[HEADER_SZ..HEADER_SZ + plainLen];
        rx.Advance();
        accepted := accepted + [Opened(ctype, plain)];
      }
    }

    /** Authenticate the record in scratch and act on it. */
    method AcceptRecord(recLen: nat, out: array<Byte>, outCap: nat)
      returns (ret: Code, done: bool, outLen: nat)
      requires Valid() && established && recLen <= scratchLen && recLen <= MAX_BUFFER
      requires outCap <= out.Length && out != scratch
      modifies this`emitted, this`accepted, this`closed, tx, rx, io`answers, io`outgoing, scratch, out
      ensures Valid() && outLen <= outCap && (done ==> ret == Success)
      ensures Spec.Accept(c, old(View()), old(scratch[..recLen]), outCap) ==
              Spec.Received(View(), ret, if done then Some(out[..outLen]) else None, [])
    {
      done, outLen := false, 0;
      var ctype, plain;
      ret, ctype, plain := Authenticate(recLen);
      if ret == Success {
        ret, done, outLen := Dispatch(ctype, plain, out, outCap);
      }
    }

    /** The loop body of Recv: one record off the transport. */
    method RecvNext(out: array<Byte>, outCap: nat) returns (ret: Code, done: bool, outLen: nat)
      requires Valid() && established && outCap <= out.Length && out != scratch
      modifies this`emitted, this`accepted, this`closed, tx, rx, io, scratch, out
      ensures Valid() && outLen <= outCap && (done ==> ret == Success)
      ensures ret == Success && !done ==> |Stream(io.incoming)| < |Stream(old(io.incoming))|
      ensures var r := Spec.Receive(c, old(View()), Stream(old(io.incoming)), scratchLen, outCap);
              if ret == Success && !done then r == Spec.Receive(c, View(), Stream(io.incoming), scratchLen, outCap)
              else r.(rest := []) == Spec.Received(View(), ret, if done then Some(out[..outLen]) else None, [])
    {
      done, outLen := false, 0;
      ghost var s, stream := View(), Stream(io.incoming);
      ghost var f := Frame(stream, scratchLen);
      Spec.ReceiveStep(c, s, stream, f, scratchLen, outCap);
      var recLen;
      ret, recLen := NextRecord();
      if ret != Success {
        return;
      }
      assert f.Framed? && Stream(io.incoming) == f.rest;
      ret, done, outLen := AcceptRecord(recLen, out, outCap);
    }

    /** One record into scratch; a change_cipher_spec has no place here. */
    method NextRecord() returns (ret: Code, recLen: nat)
      requires Valid() && established
      modifies io`incoming, scratch
      ensures Valid() && View() == old(View())
      ensures var f := Frame(Stream(old(io.incoming)), scratchLen);
              if f.NoRecord? then ret == f.code && ret != Success
              else if f.ty == CHANGE_CIPHER then ret == UnexpectedMsg
              else ret == Success && recLen == |f.rec| && scratch[..recLen] == f.rec && Stream(io.incoming) == f.rest
    {
      var rtype;
      ret, rtype, recLen := RecvRecord(io, scratch, scratchLen);
      if ret == Success && rtype == CHANGE_CIPHER {
        ret := UnexpectedMsg;
      }
    }

    /** Receive one application-data record. Records are read and decrypted in place in scratch. */
    method Recv(out: array<Byte>, outCap: nat) returns (ret: Code, outLen: nat)
      requires Valid() && outCap <= out.Length && out != scratch
      modifies this`emitted, this`accepted, this`closed, tx, rx, io, scratch, out
      ensures Valid() && outLen <= outCap
      ensures old(closed) ==> ret == Closed && View() == old(View())
      ensures !old(closed) && !old(established) ==> ret == BadState && View() == old(View())
      ensures Spec.Open(old(View())) ==>
                var r := Spec.Receive(c, old(View()), Stream(old(io.incoming)), scratchLen, outCap);
                View() == r.s && ret == r.code && (ret == Success ==> r.out == Some(out[..outLen]))
    {
      outLen := 0;
      if closed {
        return Closed, outLen;
      }
      if !established {
        return BadState, outLen;
      }
      ret := Success;
      var done := false;
      ghost var goal := Spec.Receive(c, View(), Stream(io.incoming), scratchLen, outCap);
      while ret == Success && !done
        invariant Valid() && outLen <= outCap && (done ==> ret == Success)
        invariant if ret == Success && !done then
                    goal == Spec.Receive(c, View(), Stream(io.incoming), scratchLen, outCap)
                  else goal.(rest := []) == Spec.Received(View(), ret, if done then Some(out[..outLen]) else None, [])
        decreases if ret == Success && !done then 1 + |Stream(io.incoming)| else 0
      {
        ret, done, outLen := RecvNext(out, outCap);
      }
    }

    /** The alert is best effort: its answer is not looked at. */
    method SayClosed()
      requires Valid() && io != null
      modifies this`emitted, tx`seqNo, tx`count, io`answers, io`outgoing
      ensures Valid() && View() == Spec.Emit(old(View()), ALERT, Spec.CLOSE_NOTIFY).0
    {
      var rec := new Byte[HEADER_SZ + 2 + 1 + TAG_SZ];
      var ok := Emit(rec, ALERT, Spec.CLOSE_NOTIFY);
    }

    method Close() returns (ret: Code)
      requires Valid()
      modifies this, tx, rx, io
      ensures Valid() && ret == Success && io == null
      ensures View() == Spec.Close(old(View())).(answers := [])
    {
      ret := Success;
      if !closed && established {
        SayClosed();
      }
      Clear();
    }

    /** Every key, flag and transport reference goes. */
    method Clear()
      requires Valid()
      modifies this, tx, rx
      ensures Valid() && io == null
      ensures View() == old(View()).(tx := Wiped(old(tx.View())), rx := Wiped(old(rx.View())),
                                     established := false, closed := false, answers := [])
    {
      tx.Wipe();
      rx.Wipe();
      io, scratch, scratchLen, established, closed := null, null, 0, false, false;
    }
  }
}
