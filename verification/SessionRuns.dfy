/** Over every run of an established session: nonce uniqueness and key coherence. */
module NonceSafety {
  import opened Base
  import opened Crypto
  import opened Rfc8446
  import opened Record
  import opened KeySchedule
  import opened SessionSpec
  import opened PostMessages

  /** The write state dominates everything sent so far. */
  ghost predicate Ordered(s: State) {
    && (forall e <- s.emitted :: e.half.epoch <= s.tx.epoch)
    && (forall e <- s.emitted :: e.half.epoch == s.tx.epoch ==> e.half.iv == s.tx.iv && e.half.count < s.tx.count)
    && (forall i, j :: 0 <= i < j < |s.emitted| && s.emitted[i].half.epoch == s.emitted[j].half.epoch ==>
          s.emitted[i].half.iv == s.emitted[j].half.iv && s.emitted[i].half.count < s.emitted[j].half.count)
  }

  /** While the key derivation reports no error, both directions hold the keys the RFC prescribes. */
  ghost predicate Coherent(c: Suite, cs: Bytes, ss: Bytes, s: State) {
    s.established && c.KdfTotal() ==>
      && s.tx == HalfAt(c, cs, s.tx.epoch, s.tx.count)
      && s.rx == HalfAt(c, ss, s.rx.epoch, s.rx.count)
  }

  /** Which secrets of the chain the keys come from: that of each record sent, the current secret and
      that of the current key. A failed update may have moved the secret on without the key. */
  datatype Track = Track(of: seq<nat>, secret: nat, key: nat)

  ghost function KeyAt(c: Suite, cs: Bytes, n: nat): Bytes { c.expand(Chain(c, cs, n), "key", [], 16) }

  /** Records have equal epochs exactly if their keys come from one secret, and no secret behind the
      current key's has sealed anything. */
  ghost predicate Tracks(c: Suite, cs: Bytes, tx: Half, emitted: seq<Emission>, live: bool, t: Track) {
    && |t.of| == |emitted| && t.key <= t.secret <= |emitted|
    && (forall i :: 0 <= i < |emitted| ==>
          t.of[i] <= t.key && emitted[i].half.epoch <= tx.epoch && emitted[i].half.key == KeyAt(c, cs, t.of[i]))
    && (forall i, j :: 0 <= i < j < |emitted| ==>
          (t.of[i] == t.of[j] <==> emitted[i].half.epoch == emitted[j].half.epoch))
    && (live ==>
          && tx.secret == Chain(c, cs, t.secret) && tx.key == KeyAt(c, cs, t.key)
          && forall i :: 0 <= i < |emitted| ==> (t.of[i] == t.key <==> emitted[i].half.epoch == tx.epoch))
  }

  ghost predicate Tracked(c: Suite, cs: Bytes, tx: Half, emitted: seq<Emission>, live: bool) {
    exists t :: Tracks(c, cs, tx, emitted, live, t)
  }

  ghost predicate Inv(c: Suite, cs: Bytes, ss: Bytes, s: State) {
    Ordered(s) && Coherent(c, cs, ss, s) && Tracked(c, cs, s.tx, s.emitted, s.established)
  }

  /** Something has been sent since the last update. */
  ghost predicate TrackedBelow(c: Suite, cs: Bytes, tx: Half, emitted: seq<Emission>) {
    exists t :: Tracks(c, cs, tx, emitted, true, t) && t.secret < |emitted|
  }

  lemma {:induction false} EmitTracked(c: Suite, cs: Bytes, s: State, ty: Byte, content: Bytes)
    requires s.established && Tracked(c, cs, s.tx, s.emitted, true)
    ensures var sent := Emit(s, ty, content).0;
            Tracked(c, cs, sent.tx, sent.emitted, true) && TrackedBelow(c, cs, sent.tx, sent.emitted)
  {
    var sent := Emit(s, ty, content).0;
    var t :| Tracks(c, cs, s.tx, s.emitted, true, t);
    assert Tracks(c, cs, sent.tx, sent.emitted, true, t.(of := t.of + [t.key]));
  }

  /** An update that gets as far as the key moves it to a secret that nothing was sealed under. */
  lemma {:induction false} RekeyTracked(c: Suite, cs: Bytes, tx: Half, emitted: seq<Emission>)
    requires TrackedBelow(c, cs, tx, emitted)
    ensures var (h, code) := Rekey(c, tx);
            Tracked(c, cs, h, emitted, true) && Tracked(c, cs, h.(count := 0), emitted, true)
  {
    var t :| Tracks(c, cs, tx, emitted, true, t) && t.secret < |emitted|;
    var (h, code) := Rekey(c, tx);
    var n := t.secret + 1;
    var t' := if h == tx then t else if h.epoch == tx.epoch then t.(secret := n) else t.(secret := n, key := n);
    if h != tx {
      MovedOn(c, cs, tx, emitted, h, t, t');
    }
    CountIsFree(c, cs, h, emitted, t');
  }

  /** One step along the chain, with or without the key. */
  lemma {:induction false} MovedOn(
      c: Suite, cs: Bytes, tx: Half, emitted: seq<Emission>, h: Half, t: Track, t': Track)
    requires Tracks(c, cs, tx, emitted, true, t) && t.secret < |emitted|
    requires h.secret == c.expand(tx.secret, "traffic upd", [], 32)
    requires h.epoch == tx.epoch ==> h.key == tx.key && t' == t.(secret := t.secret + 1)
    requires h.epoch != tx.epoch ==>
               && tx.epoch < h.epoch && h.key == c.expand(h.secret, "key", [], 16)
               && t' == t.(secret := t.secret + 1, key := t.secret + 1)
    ensures Tracks(c, cs, h, emitted, true, t')
  {
    assert Chain(c, cs, t.secret + 1) == c.expand(Chain(c, cs, t.secret), "traffic upd", [], 32);
  }

  lemma {:induction false} CountIsFree(c: Suite, cs: Bytes, h: Half, emitted: seq<Emission>, t: Track)
    requires Tracks(c, cs, h, emitted, true, t)
    ensures Tracks(c, cs, h.(count := 0), emitted, true, t)
  {
  }

  lemma {:induction false} EmitKeeps(c: Suite, cs: Bytes, ss: Bytes, s: State, ty: Byte, content: Bytes)
    requires s.established && Inv(c, cs, ss, s)
    ensures Inv(c, cs, ss, Emit(s, ty, content).0)
  {
    EmitOrdered(s, ty, content);
    EmitTracked(c, cs, s, ty, content);
  }

  lemma {:induction false} EmitOrdered(s: State, ty: Byte, content: Bytes)
    requires Ordered(s)
    ensures Ordered(Emit(s, ty, content).0)
  {
    var sent := Emit(s, ty, content).0;
    var n := |s.emitted|;
    assert forall i :: 0 <= i < n ==> sent.emitted[i] == s.emitted[i] && s.emitted[i] in s.emitted;
  }

  /** A key update either leaves the key alone or starts an epoch nothing was sent in. */
  lemma {:induction false} RekeyKeepsOrdered(c: Suite, s: State)
    requires Ordered(s)
    ensures var (h, code) := Rekey(c, s.tx);
            Ordered(s.(tx := h)) && (code == Success ==> Ordered(s.(tx := h.(count := 0))))
  {
  }

  lemma {:induction false} SendKeyUpdateKeeps(c: Suite, cs: Bytes, ss: Bytes, s: State)
    requires s.established && Inv(c, cs, ss, s)
    ensures SendKeyUpdate(c, s).0.established && Inv(c, cs, ss, SendKeyUpdate(c, s).0)
  {
    var sent := Emit(s, HANDSHAKE, KU_REPLY).0;
    EmitKeeps(c, cs, ss, s, HANDSHAKE, KU_REPLY);
    EmitTracked(c, cs, s, HANDSHAKE, KU_REPLY);
    RekeyTracked(c, cs, sent.tx, sent.emitted);
    RekeyKeepsOrdered(c, sent);
    if s.established && c.KdfTotal() {
      RekeyAt(c, cs, sent.tx.epoch, sent.tx.count);
    }
  }

  lemma {:induction false} PostHsKeeps(c: Suite, cs: Bytes, ss: Bytes, s: State, msg: Bytes)
    requires s.established && Inv(c, cs, ss, s)
    ensures Inv(c, cs, ss, PostHs(c, s, msg).0) && PostHs(c, s, msg).0.established
    decreases |msg|
  {
    if msg != [] && msg[0] == NEW_SESSION_TICKET {
      if |msg| >= 4 && 4 + GetU24(msg, 1) <= |msg| {
        PostHsKeeps(c, cs, ss, s, msg[4 + GetU24(msg, 1)..]);
      }
    } else if msg != [] && msg[0] == KEY_UPDATE && |msg| >= 5 && GetU24(msg, 1) == 1 && msg[4] <= 1 {
      ApplyKeeps(c, cs, ss, s, msg[4] == 1);
      var (next, code) := ApplyKeyUpdate(c, s, msg[4] == 1);
      if code == Success {
        PostHsKeeps(c, cs, ss, next, msg[5..]);
      }
    }
  }

  lemma {:induction false} ApplyKeeps(c: Suite, cs: Bytes, ss: Bytes, s: State, requested: bool)
    requires s.established && Inv(c, cs, ss, s)
    ensures Inv(c, cs, ss, ApplyKeyUpdate(c, s, requested).0) && ApplyKeyUpdate(c, s, requested).0.established
  {
    var (h, code) := Rekey(c, s.rx);
    if s.established && c.KdfTotal() {
      RekeyAt(c, ss, s.rx.epoch, s.rx.count);
    }
    if code == Success && requested {
      SendKeyUpdateKeeps(c, cs, ss, s.(rx := h.(count := 0)));
    }
  }

  lemma {:induction false} AcceptKeeps(c: Suite, cs: Bytes, ss: Bytes, s: State, rec: Bytes, outCap: nat)
    requires c.Valid() && s.Valid() && s.established && Inv(c, cs, ss, s)
    ensures Inv(c, cs, ss, Accept(c, s, rec, outCap).s) && Accept(c, s, rec, outCap).s.established
  {
    var o := OpenRecord(c, s.rx.key, s.rx.iv, s.rx.SeqNo(), rec);
    if o.Opened? {
      AdvanceKeeps(c, cs, ss, s, o);
      DispatchKeeps(c, cs, ss, Advanced(s, o), o.ty, o.content, outCap);
    }
  }

  lemma {:induction false} AdvanceKeeps(c: Suite, cs: Bytes, ss: Bytes, s: State, o: Opened)
    requires Inv(c, cs, ss, s) && o.Opened?
    ensures Inv(c, cs, ss, Advanced(s, o))
  {
  }

  lemma {:induction false} DispatchKeeps(c: Suite, cs: Bytes, ss: Bytes, s: State, ty: Byte, content: Bytes,
      outCap: nat)
    requires s.established && Inv(c, cs, ss, s)
    ensures Inv(c, cs, ss, Dispatch(c, s, ty, content, outCap).s) && Dispatch(c, s, ty, content, outCap).s.established
  {
    if ty == HANDSHAKE {
      PostHsKeeps(c, cs, ss, s, content);
    }
  }

  lemma {:induction false} ReceiveKeeps(c: Suite, cs: Bytes, ss: Bytes, s: State, stream: Bytes, cap: nat,
      outCap: nat)
    requires c.Valid() && s.Valid() && s.established && Inv(c, cs, ss, s)
    ensures Inv(c, cs, ss, Receive(c, s, stream, cap, outCap).s) && Receive(c, s, stream, cap, outCap).s.established
    decreases |stream|
  {
    var f := Frame(stream, cap);
    if f.Framed? && f.ty != CHANGE_CIPHER {
      var r := Accept(c, s, f.rec, outCap);
      AcceptKeeps(c, cs, ss, s, f.rec, outCap);
      AcceptKeepsValid(c, s, f.rec, outCap);
      if r.code == Success && r.out.None? {
        ReceiveKeeps(c, cs, ss, r.s, f.rest, cap, outCap);
      }
    }
  }

  lemma {:induction false} CloseKeeps(c: Suite, cs: Bytes, ss: Bytes, s: State)
    requires Inv(c, cs, ss, s)
    ensures Inv(c, cs, ss, Close(s))
  {
    if Open(s) {
      EmitKeeps(c, cs, ss, s, ALERT, CLOSE_NOTIFY);
    }
    var said := if Open(s) then Emit(s, ALERT, CLOSE_NOTIFY).0 else s;
    var t :| Tracks(c, cs, said.tx, said.emitted, said.established, t);
    assert Tracks(c, cs, Wiped(said.tx), said.emitted, false, t);
  }

  lemma {:induction false} DoKeeps(c: Suite, cs: Bytes, ss: Bytes, s: State, call: Call, scratchLen: nat)
    requires c.Valid() && s.Valid() && Inv(c, cs, ss, s)
    ensures Inv(c, cs, ss, Do(c, s, call, scratchLen))
  {
    match call {
      case CallSend(data) =>
        if Open(s) {
          EmitKeeps(c, cs, ss, s, APPDATA, data);
        }
      case CallClose => CloseKeeps(c, cs, ss, s);
      case CallRecv(stream, outCap) =>
        if Open(s) {
          ReceiveKeeps(c, cs, ss, s, stream, scratchLen, outCap);
        }
    }
  }

  lemma {:induction false} RunKeeps(c: Suite, cs: Bytes, ss: Bytes, s: State, calls: seq<Call>, scratchLen: nat)
    requires c.Valid() && s.Valid() && Inv(c, cs, ss, s)
    ensures Inv(c, cs, ss, Run(c, s, calls, scratchLen))
    decreases calls
  {
    if calls != [] {
      DoKeeps(c, cs, ss, s, calls[0], scratchLen);
      RunKeeps(c, cs, ss, Do(c, s, calls[0], scratchLen), calls[1..], scratchLen);
    }
  }

  /** Whatever the application calls, whatever arrives and however sends and key derivations fail,
      no write key seals two records under one nonce before its 64-bit counter runs out. */
  lemma {:induction false} NonceNeverReused(c: Suite, cs: Bytes, ss: Bytes, answers: seq<int>, calls: seq<Call>,
      scratchLen: nat, i: nat, j: nat)
    requires c.Valid() && |cs| == HASH_SZ && |ss| == HASH_SZ
    requires i < j < |Run(c, Established(c, cs, ss, answers), calls, scratchLen).emitted|
    ensures var sent := Run(c, Established(c, cs, ss, answers), calls, scratchLen).emitted;
            var a, b := sent[i].half, sent[j].half;
            a.epoch == b.epoch && b.count < WORD64 ==> Nonce(a.iv, a.SeqNo()) != Nonce(b.iv, b.SeqNo())
  {
    FromStart(c, cs, ss, answers, calls, scratchLen);
    var sent := Run(c, Established(c, cs, ss, answers), calls, scratchLen).emitted;
    NoncesDiffer(sent[i].half, sent[j].half);
  }

  lemma {:induction false} FromStart(c: Suite, cs: Bytes, ss: Bytes, answers: seq<int>, calls: seq<Call>,
      scratchLen: nat)
    requires c.Valid() && |cs| == HASH_SZ && |ss| == HASH_SZ
    ensures Inv(c, cs, ss, Run(c, Established(c, cs, ss, answers), calls, scratchLen))
  {
    var s := Established(c, cs, ss, answers);
    assert Tracks(c, cs, s.tx, [], true, Track([], 0, 0));
    RunKeeps(c, cs, ss, s, calls, scratchLen);
  }

  // ---- the same on the keys themselves ----

  /** The application traffic secrets up to the n-th do not repeat. */
  ghost predicate NoRepeat(c: Suite, cs: Bytes, n: nat) {
    forall x, y :: 0 <= x < y <= n ==> Chain(c, cs, x) != Chain(c, cs, y)
  }

  /** Different ones of them expand to different keys. */
  ghost predicate KeysSeparate(c: Suite, cs: Bytes, n: nat) {
    forall x, y :: 0 <= x < y <= n && Chain(c, cs, x) != Chain(c, cs, y) ==> KeyAt(c, cs, x) != KeyAt(c, cs, y)
  }

  /** Two records sealed under one and the same key have different nonces, while the chain of secrets
      does not repeat over the run and keys tell its members apart. */
  lemma {:induction false} KeyNeverReusesNonce(c: Suite, cs: Bytes, ss: Bytes, answers: seq<int>, calls: seq<Call>,
      scratchLen: nat, i: nat, j: nat)
    requires c.Valid() && |cs| == HASH_SZ && |ss| == HASH_SZ
    requires i < j < |Run(c, Established(c, cs, ss, answers), calls, scratchLen).emitted|
    requires var n := |Run(c, Established(c, cs, ss, answers), calls, scratchLen).emitted|;
             NoRepeat(c, cs, n) && KeysSeparate(c, cs, n)
    ensures var sent := Run(c, Established(c, cs, ss, answers), calls, scratchLen).emitted;
            var a, b := sent[i].half, sent[j].half;
            a.key == b.key && b.count < WORD64 ==> Nonce(a.iv, a.SeqNo()) != Nonce(b.iv, b.SeqNo())
  {
    FromStart(c, cs, ss, answers, calls, scratchLen);
    var s := Run(c, Established(c, cs, ss, answers), calls, scratchLen);
    if s.emitted[i].half.key == s.emitted[j].half.key {
      SameKeySameEpoch(c, cs, s, i, j);
    }
    NoncesDiffer(s.emitted[i].half, s.emitted[j].half);
  }

  lemma {:induction false} SameKeySameEpoch(c: Suite, cs: Bytes, s: State, i: nat, j: nat)
    requires Tracked(c, cs, s.tx, s.emitted, s.established) && i < j < |s.emitted|
    requires NoRepeat(c, cs, |s.emitted|) && KeysSeparate(c, cs, |s.emitted|)
    requires s.emitted[i].half.key == s.emitted[j].half.key
    ensures s.emitted[i].half.epoch == s.emitted[j].half.epoch
  {
    var t :| Tracks(c, cs, s.tx, s.emitted, s.established, t);
    var x, y := t.of[i], t.of[j];
    assert s.emitted[i].half.key == KeyAt(c, cs, x) && s.emitted[j].half.key == KeyAt(c, cs, y);
  }

  lemma {:induction false} NoncesDiffer(a: Half, b: Half)
    requires a.Valid() && b.Valid() && (a.epoch == b.epoch ==> a.iv == b.iv && a.count < b.count)
    ensures a.epoch == b.epoch && b.count < WORD64 ==> Nonce(a.iv, a.SeqNo()) != Nonce(b.iv, b.SeqNo())
  {
    if a.epoch == b.epoch && b.count < WORD64 && Nonce(a.iv, a.SeqNo()) == Nonce(b.iv, b.SeqNo()) {
      NonceInjective(a.iv, a.SeqNo(), b.SeqNo());
    }
  }

  /** In every reachable state the keys are the expansions of the current secret, which is the
      epoch-fold update of the secret the handshake produced. */
  lemma {:induction false} KeysStayCoherent(c: Suite, cs: Bytes, ss: Bytes, answers: seq<int>, calls: seq<Call>,
      scratchLen: nat)
    requires c.Valid() && c.KdfTotal() && |cs| == HASH_SZ && |ss| == HASH_SZ
    ensures Coherent(c, cs, ss, Run(c, Established(c, cs, ss, answers), calls, scratchLen))
  {
    FromStart(c, cs, ss, answers, calls, scratchLen);
  }

  // ---- replies ----

  /** Each update_requested handled without error causes exactly one reply, no reply requests
      another, and each KeyUpdate advances the read epoch by one. */
  lemma {:induction false} OneReplyPerRequest(c: Suite, s: State, msg: Bytes)
    requires PostHs(c, s, msg).1 == Success
    ensures var after := PostHs(c, s, msg).0;
            && s.emitted <= after.emitted
            && |after.emitted| == |s.emitted| + Requests(Updates(msg))
            && (forall i :: |s.emitted| <= i < |after.emitted| ==>
              after.emitted[i].ty == HANDSHAKE && after.emitted[i].content == KU_REPLY)
            && after.tx.epoch == s.tx.epoch + Requests(Updates(msg))
            && after.rx.epoch == s.rx.epoch + |Updates(msg)|
    decreases |msg|
  {
    if msg == [] {
    } else if msg[0] == NEW_SESSION_TICKET {
      OneReplyPerRequest(c, s, msg[4 + GetU24(msg, 1)..]);
    } else {
      var next := ApplyKeyUpdate(c, s, msg[4] == 1).0;
      OneReplyPerRequest(c, next, msg[5..]);
      assert Updates(msg)[1..] == Updates(msg[5..]);
    }
  }
}
