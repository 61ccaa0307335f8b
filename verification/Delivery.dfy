/** What the other side hears of the calls that the application makes: every record handed to the
    transport, opened under the key that sealed it, says what the call that sent it was given. */
module Delivery {
  import opened Base
  import opened Crypto
  import opened Record
  import opened KeySchedule
  import opened SessionSpec
  import opened Rfc8446

  /** A handshake record with a KeyUpdate that asks for nothing, and a close_notify alert. */
  const REPLY: Opened := Opened(22, [24, 0, 0, 1, 0])
  const CLOSING: Opened := Opened(21, [1, 0])

  /** A record opened under the write state it was logged with. */
  ghost function Reads(c: Suite, e: Emission): Opened
    requires e.half.Valid()
  {
    OpenRecord(c, e.half.key, e.half.iv, e.half.SeqNo(), e.Wire(c))
  }

  ghost function Heard(c: Suite, sent: seq<Emission>): (r: seq<Opened>)
    requires forall e <- sent :: e.half.Valid()
    ensures |r| == |sent|
  {
    seq(|sent|, i requires 0 <= i < |sent| => assert sent[i] in sent; Reads(c, sent[i]))
  }

  /** What a call says. A send says its data if the session is open and the data fits the record and the
      scratch buffer, and nothing otherwise; a receive says nothing but replies, and nothing at all
      unless the session is open; a close of an open session says goodbye. */
  ghost predicate Says(call: Call, before: State, scratchLen: nat, said: seq<Opened>) {
    match call
    case CallSend(data) =>
      said == if before.established && !before.closed && |data| <= 16384 && |data| + 22 <= scratchLen
              then [Opened(23, data)] else []
    case CallRecv(_, _) => (forall o <- said :: o == REPLY) && (said != [] ==> before.established && !before.closed)
    case CallClose => said == if before.established && !before.closed then [CLOSING] else []
  }

  // ---- one call ----

  lemma {:induction false} HeardMore(c: Suite, s: State, ty: Byte, content: Bytes)
    requires c.Valid() && s.Valid() && ty != 0
    ensures Emit(s, ty, content).0.Valid()
    ensures Heard(c, Emit(s, ty, content).0.emitted) == Heard(c, s.emitted) + [Opened(ty, content)]
  {
    var after := Emit(s, ty, content).0;
    OpensSealed(c, s.tx.key, s.tx.iv, s.tx.SeqNo(), ty, content);
    assert forall i :: 0 <= i < |s.emitted| ==> after.emitted[i] == s.emitted[i];
    assert Heard(c, after.emitted)[|s.emitted|] == Opened(ty, content);
  }

  /** Nothing but replies has been added. */
  ghost predicate Replied(c: Suite, s: State, after: State) {
    && s.Valid() && after.Valid() && |s.emitted| <= |after.emitted|
    && after.established == s.established
    && Heard(c, after.emitted)[..|s.emitted|] == Heard(c, s.emitted)
    && forall i :: |s.emitted| <= i < |after.emitted| ==> Heard(c, after.emitted)[i] == REPLY
  }

  lemma {:induction false} NothingReplied(c: Suite, s: State, after: State)
    requires s.Valid() && after.Valid() && after.emitted == s.emitted && after.established == s.established
    ensures Replied(c, s, after)
  {
    assert Heard(c, s.emitted)[..|s.emitted|] == Heard(c, s.emitted);
  }

  lemma {:induction false} RepliedOn(c: Suite, s: State, mid: State, after: State)
    requires Replied(c, s, mid) && Replied(c, mid, after)
    ensures Replied(c, s, after)
  {
    var h, m := Heard(c, after.emitted), Heard(c, mid.emitted);
    assert h[..|s.emitted|] == h[..|mid.emitted|][..|s.emitted|];
    forall i | |s.emitted| <= i < |after.emitted| ensures h[i] == REPLY {
      if i < |mid.emitted| {
        assert h[i] == h[..|mid.emitted|][i] == m[i];
      }
    }
  }

  lemma {:induction false} UpdateReplied(c: Suite, s: State, requested: bool)
    requires c.Valid() && s.Valid()
    ensures Replied(c, s, ApplyKeyUpdate(c, s, requested).0)
  {
    var (h, code) := Rekey(c, s.rx);
    ApplyKeepsValid(c, s, requested);
    if code == Success && requested {
      RekeyKeepsValid(c, s.rx);
      ReplyReplied(c, s.(rx := h.(count := 0)));
      NothingReplied(c, s, s.(rx := h.(count := 0)));
      RepliedOn(c, s, s.(rx := h.(count := 0)), ApplyKeyUpdate(c, s, requested).0);
    } else {
      NothingReplied(c, s, ApplyKeyUpdate(c, s, requested).0);
    }
  }

  lemma {:induction false} ReplyReplied(c: Suite, s: State)
    requires c.Valid() && s.Valid()
    ensures Replied(c, s, SendKeyUpdate(c, s).0)
  {
    var sent, after := Emit(s, HANDSHAKE, KU_REPLY).0, SendKeyUpdate(c, s).0;
    HeardMore(c, s, HANDSHAKE, KU_REPLY);
    SendKeepsValid(c, s);
    assert after.emitted == sent.emitted;
  }

  lemma {:induction false} PostHsReplied(c: Suite, s: State, msg: Bytes)
    requires c.Valid() && s.Valid()
    ensures Replied(c, s, PostHs(c, s, msg).0)
    decreases |msg|
  {
    if msg != [] && msg[0] == NEW_SESSION_TICKET && |msg| >= 4 && 4 + GetU24(msg, 1) <= |msg| {
      PostHsReplied(c, s, msg[4 + GetU24(msg, 1)..]);
    } else if msg != [] && msg[0] == KEY_UPDATE && |msg| >= 5 && GetU24(msg, 1) == 1 && msg[4] <= 1 {
      var (next, code) := ApplyKeyUpdate(c, s, msg[4] == 1);
      UpdateReplied(c, s, msg[4] == 1);
      if code == Success {
        PostHsReplied(c, next, msg[5..]);
        RepliedOn(c, s, next, PostHs(c, next, msg[5..]).0);
      }
    } else {
      NothingReplied(c, s, s);
    }
  }

  lemma {:induction false} AcceptReplied(c: Suite, s: State, rec: Bytes, outCap: nat)
    requires c.Valid() && s.Valid()
    ensures Replied(c, s, Accept(c, s, rec, outCap).s)
  {
    var o := OpenRecord(c, s.rx.key, s.rx.iv, s.rx.SeqNo(), rec);
    AcceptKeepsValid(c, s, rec, outCap);
    if o.Opened? && o.ty == HANDSHAKE {
      NothingReplied(c, s, Advanced(s, o));
      PostHsReplied(c, Advanced(s, o), o.content);
      RepliedOn(c, s, Advanced(s, o), PostHs(c, Advanced(s, o), o.content).0);
    } else {
      NothingReplied(c, s, Accept(c, s, rec, outCap).s);
    }
  }

  lemma {:induction false} ReceiveReplied(c: Suite, s: State, stream: Bytes, cap: nat, outCap: nat)
    requires c.Valid() && s.Valid()
    ensures Replied(c, s, Receive(c, s, stream, cap, outCap).s)
    decreases |stream|
  {
    var f := Frame(stream, cap);
    if f.Framed? && f.ty != CHANGE_CIPHER {
      var r := Accept(c, s, f.rec, outCap);
      AcceptReplied(c, s, f.rec, outCap);
      if r.code == Success && r.out.None? {
        ReceiveReplied(c, r.s, f.rest, cap, outCap);
        RepliedOn(c, s, r.s, Receive(c, r.s, f.rest, cap, outCap).s);
      }
    } else {
      NothingReplied(c, s, s);
    }
  }

  lemma {:induction false} DoSays(c: Suite, s: State, call: Call, scratchLen: nat) returns (said: seq<Opened>)
    requires c.Valid() && s.Valid()
    ensures Says(call, s, scratchLen, said)
    ensures Heard(c, Do(c, s, call, scratchLen).emitted) == Heard(c, s.emitted) + said
  {
    var after := Do(c, s, call, scratchLen);
    match call {
      case CallSend(data) =>
        HeardMore(c, s, APPDATA, data);
      case CallClose =>
        HeardMore(c, s, ALERT, CLOSE_NOTIFY);
      case CallRecv(stream, outCap) =>
        if Open(s) {
          ReceiveReplied(c, s, stream, scratchLen, outCap);
        } else {
          NothingReplied(c, s, s);
        }
    }
    said := Heard(c, after.emitted)[|s.emitted|..];
  }

  // ---- whole runs ----

  ghost function Flat(said: seq<seq<Opened>>): seq<Opened> {
    if said == [] then [] else said[0] + Flat(said[1..])
  }

  /** What the calls say one by one. */
  ghost predicate SaysAll(c: Suite, s: State, calls: seq<Call>, scratchLen: nat, said: seq<seq<Opened>>)
    requires c.Valid() && s.Valid()
    decreases |calls|
  {
    && |said| == |calls|
    && (calls != [] ==>
          && Says(calls[0], s, scratchLen, said[0])
          && SaysAll(c, Do(c, s, calls[0], scratchLen), calls[1..], scratchLen, said[1..]))
  }

  lemma {:induction false} RunSays(c: Suite, s: State, calls: seq<Call>, scratchLen: nat)
    returns (said: seq<seq<Opened>>)
    requires c.Valid() && s.Valid()
    ensures SaysAll(c, s, calls, scratchLen, said)
    ensures Heard(c, Run(c, s, calls, scratchLen).emitted) == Heard(c, s.emitted) + Flat(said)
    decreases |calls|
  {
    if calls == [] {
      said := [];
    } else {
      var first := DoSays(c, s, calls[0], scratchLen);
      var more := RunSays(c, Do(c, s, calls[0], scratchLen), calls[1..], scratchLen);
      said := [first] + more;
      FlatMore(Heard(c, s.emitted), first, more);
    }
  }

  lemma {:induction false} FlatMore(before: seq<Opened>, first: seq<Opened>, more: seq<seq<Opened>>)
    ensures before + first + Flat(more) == before + Flat([first] + more) && ([first] + more)[1..] == more
  {
    assert ([first] + more)[1..] == more;
  }

  /** Call k of the list, and the state it is made in. */
  lemma {:induction false} EachSays(
      c: Suite, s: State, calls: seq<Call>, scratchLen: nat, said: seq<seq<Opened>>, k: nat)
    requires c.Valid() && s.Valid() && SaysAll(c, s, calls, scratchLen, said) && k < |calls|
    ensures Says(calls[k], Run(c, s, calls[..k], scratchLen), scratchLen, said[k])
    decreases |calls|
  {
    if k == 0 {
      assert calls[..0] == [];
    } else {
      EachSays(c, Do(c, s, calls[0], scratchLen), calls[1..], scratchLen, said[1..], k - 1);
      assert calls[..k][1..] == calls[1..][..k - 1];
    }
  }

  /** Over every run: the records handed to the transport say, in order, what the calls say, one after
      the other. */
  lemma {:induction false} RunDelivers(c: Suite, cs: Bytes, ss: Bytes, answers: seq<int>, calls: seq<Call>,
      scratchLen: nat) returns (said: seq<seq<Opened>>)
    requires c.Valid() && |cs| == HASH_SZ && |ss| == HASH_SZ
    ensures |said| == |calls|
    ensures forall k :: 0 <= k < |calls| ==>
              Says(calls[k], Run(c, Established(c, cs, ss, answers), calls[..k], scratchLen), scratchLen, said[k])
    ensures Heard(c, Run(c, Established(c, cs, ss, answers), calls, scratchLen).emitted) == Flat(said)
  {
    var s := Established(c, cs, ss, answers);
    said := RunSays(c, s, calls, scratchLen);
    forall k | 0 <= k < |calls| ensures Says(calls[k], Run(c, s, calls[..k], scratchLen), scratchLen, said[k]) {
      EachSays(c, s, calls, scratchLen, said, k);
    }
    assert Heard(c, s.emitted) == [];
  }

  /** When a send succeeds, and what the other codes mean. */
  lemma {:induction false} SendVerdict(s: State, data: Bytes, scratchLen: nat)
    ensures var code := Send(s, data, scratchLen).1;
            var fits := |data| <= 16384 && |data| + 22 <= scratchLen;
            && (code == Success <==>
                  s.established && !s.closed && fits && s.answers != [] && s.answers[0] == |data| + 22)
            && (code == Closed <==> s.closed)
            && (code == BadState <==> !s.closed && !s.established)
            && (code == InvalidArg <==> s.established && !s.closed && !fits)
            && (code == Code.Crypto <==>
                  s.established && !s.closed && fits && (s.answers == [] || s.answers[0] != |data| + 22))
  {
  }

  // ---- a reader that follows the keys by itself ----

  /** The peer's read state: the keys of section 7.3 of RFC 8446 and the next sequence number. */
  datatype Ear = Ear(at: Traffic, seqNo: nat)

  /** Open one record; a KeyUpdate changes the keys for the next (section 4.6.3 of RFC 8446). */
  ghost function Hear(c: Suite, ear: Ear, rec: Bytes): Option<(Ear, Opened)> {
    if |ear.at.iv| != 12 then None
    else
      var o := OpenRecord(c, ear.at.key, ear.at.iv, ear.seqNo % 0x1_0000_0000_0000_0000, rec);
      if o.OpenError? then None
      else if o == REPLY then Some((Ear(TrafficOf(c, c.expand(ear.at.secret, "traffic upd", [], 32)), 0), o))
      else Some((Ear(ear.at, ear.seqNo + 1), o))
  }

  ghost function HearAll(c: Suite, ear: Ear, recs: seq<Bytes>): Option<(Ear, seq<Opened>)>
    decreases |recs|
  {
    if recs == [] then Some((ear, []))
    else
      match HearAll(c, ear, recs[..|recs| - 1])
      case None => None
      case Some((mid, heard)) =>
        match Hear(c, mid, recs[|recs| - 1])
        case None => None
        case Some((after, o)) => Some((after, heard + [o]))
  }

  ghost function Wires(c: Suite, sent: seq<Emission>): (r: seq<Bytes>)
    requires forall e <- sent :: e.half.Valid()
    ensures |r| == |sent|
  {
    seq(|sent|, i requires 0 <= i < |sent| => assert sent[i] in sent; sent[i].Wire(c))
  }

  /** The transport took every reply whole. */
  ghost predicate RepliesWhole(answers: seq<int>, heard: seq<Opened>) {
    forall i :: 0 <= i < |heard| && heard[i] == REPLY ==> i < |answers| && answers[i] == 27
  }

  ghost function EarOf(h: Half): Ear { Ear(Traffic(h.secret, h.key, h.iv), h.count) }

  /** If every reply was taken whole, a reader that starts from the secret alone hears everything, and
      stands where the writer does while the session lives. */
  ghost predicate InTune(c: Suite, cs: Bytes, answers: seq<int>, s: State) {
    && s.Valid()
    && s.answers == (if |s.emitted| <= |answers| then answers[|s.emitted|..] else [])
    && (RepliesWhole(answers, Heard(c, s.emitted)) ==>
          var r := HearAll(c, Ear(TrafficOf(c, cs), 0), Wires(c, s.emitted));
          && r.Some? && r.value.1 == Heard(c, s.emitted)
          && (s.established ==> r.value.0 == EarOf(s.tx)))
  }

  lemma {:induction false} WiresMore(c: Suite, s: State, e: Emission)
    requires s.Valid() && e.half.Valid()
    ensures Wires(c, s.emitted + [e])[..|s.emitted|] == Wires(c, s.emitted)
    ensures Wires(c, s.emitted + [e])[|s.emitted|] == e.Wire(c)
  {
  }

  lemma {:induction false} EmitInTune(c: Suite, cs: Bytes, answers: seq<int>, s: State, ty: Byte, content: Bytes)
    requires c.Valid() && s.established && InTune(c, cs, answers, s) && ty != 0
    ensures var after := Emit(s, ty, content).0;
            && after.Valid() && |after.emitted| == |s.emitted| + 1
            && after.answers == (if |after.emitted| <= |answers| then answers[|after.emitted|..] else [])
            && (RepliesWhole(answers, Heard(c, after.emitted)) ==>
                  var r := HearAll(c, Ear(TrafficOf(c, cs), 0), Wires(c, after.emitted));
                  var rekeyed := Ear(TrafficOf(c, c.expand(s.tx.secret, "traffic upd", [], 32)), 0);
                  && r.Some? && r.value.1 == Heard(c, after.emitted)
                  && r.value.0 == if Opened(ty, content) == REPLY then rekeyed else EarOf(after.tx))
  {
    var after := Emit(s, ty, content).0;
    var e := Emission(s.tx, ty, content);
    HeardMore(c, s, ty, content);
    WiresMore(c, s, e);
    var h := Heard(c, after.emitted);
    assert h[..|s.emitted|] == Heard(c, s.emitted);
    if RepliesWhole(answers, h) {
      assert forall i :: 0 <= i < |s.emitted| ==> Heard(c, s.emitted)[i] == h[i];
      OpensSealed(c, s.tx.key, s.tx.iv, s.tx.SeqNo(), ty, content);
    }
  }

  /** A reply leaves what sending it left, and with new keys if it was taken whole. */
  lemma {:induction false} ReplySent(c: Suite, s: State)
    requires c.Valid() && c.KdfTotal() && s.Valid() && s.established
    ensures var sent, after := Emit(s, HANDSHAKE, KU_REPLY).0, SendKeyUpdate(c, s).0;
            && after.Valid() && after.established && after.emitted == sent.emitted && after.answers == sent.answers
            && (s.answers != [] && s.answers[0] == 27 ==>
                  EarOf(after.tx) == Ear(TrafficOf(c, c.expand(s.tx.secret, "traffic upd", [], 32)), 0))
  {
    SendKeepsValid(c, s);
  }

  lemma {:induction false} ReplyInTune(c: Suite, cs: Bytes, answers: seq<int>, s: State)
    requires c.Valid() && c.KdfTotal() && s.established && InTune(c, cs, answers, s)
    ensures InTune(c, cs, answers, SendKeyUpdate(c, s).0) && SendKeyUpdate(c, s).0.established
  {
    EmitInTune(c, cs, answers, s, HANDSHAKE, KU_REPLY);
    ReplySent(c, s);
    var heard := Heard(c, SendKeyUpdate(c, s).0.emitted);
    HeardMore(c, s, HANDSHAKE, KU_REPLY);
    assert heard[|s.emitted|] == REPLY;
    if RepliesWhole(answers, heard) {
      assert s.answers[0] == answers[|s.emitted|];
    }
  }

  lemma {:induction false} UpdateInTune(c: Suite, cs: Bytes, answers: seq<int>, s: State, requested: bool)
    requires c.Valid() && c.KdfTotal() && s.established && InTune(c, cs, answers, s)
    ensures InTune(c, cs, answers, ApplyKeyUpdate(c, s, requested).0) && ApplyKeyUpdate(c, s, requested).0.established
  {
    var rekeyed := s.(rx := Rekey(c, s.rx).0.(count := 0));
    RekeyKeepsValid(c, s.rx);
    assert InTune(c, cs, answers, rekeyed);
    if requested {
      ReplyInTune(c, cs, answers, rekeyed);
    }
  }

  lemma {:induction false} PostHsInTune(c: Suite, cs: Bytes, answers: seq<int>, s: State, msg: Bytes)
    requires c.Valid() && c.KdfTotal() && s.established && InTune(c, cs, answers, s)
    ensures InTune(c, cs, answers, PostHs(c, s, msg).0) && PostHs(c, s, msg).0.established
    decreases |msg|
  {
    if msg != [] && msg[0] == NEW_SESSION_TICKET && |msg| >= 4 && 4 + GetU24(msg, 1) <= |msg| {
      PostHsInTune(c, cs, answers, s, msg[4 + GetU24(msg, 1)..]);
    } else if msg != [] && msg[0] == KEY_UPDATE && |msg| >= 5 && GetU24(msg, 1) == 1 && msg[4] <= 1 {
      var (next, code) := ApplyKeyUpdate(c, s, msg[4] == 1);
      UpdateInTune(c, cs, answers, s, msg[4] == 1);
      if code == Success {
        PostHsInTune(c, cs, answers, next, msg[5..]);
      }
    }
  }

  lemma {:induction false} AcceptInTune(c: Suite, cs: Bytes, answers: seq<int>, s: State, rec: Bytes, outCap: nat)
    requires c.Valid() && c.KdfTotal() && s.established && InTune(c, cs, answers, s)
    ensures InTune(c, cs, answers, Accept(c, s, rec, outCap).s) && Accept(c, s, rec, outCap).s.established
  {
    var o := OpenRecord(c, s.rx.key, s.rx.iv, s.rx.SeqNo(), rec);
    AcceptKeepsValid(c, s, rec, outCap);
    if o.Opened? {
      assert InTune(c, cs, answers, Advanced(s, o));
      if o.ty == HANDSHAKE {
        PostHsInTune(c, cs, answers, Advanced(s, o), o.content);
      }
    }
  }

  lemma {:induction false} ReceiveInTune(
      c: Suite, cs: Bytes, answers: seq<int>, s: State, stream: Bytes, cap: nat, outCap: nat)
    requires c.Valid() && c.KdfTotal() && s.established && InTune(c, cs, answers, s)
    ensures InTune(c, cs, answers, Receive(c, s, stream, cap, outCap).s)
    decreases |stream|
  {
    var f := Frame(stream, cap);
    if f.Framed? && f.ty != CHANGE_CIPHER {
      var r := Accept(c, s, f.rec, outCap);
      AcceptInTune(c, cs, answers, s, f.rec, outCap);
      if r.code == Success && r.out.None? {
        ReceiveInTune(c, cs, answers, r.s, f.rest, cap, outCap);
      }
    }
  }

  lemma {:induction false} DoInTune(c: Suite, cs: Bytes, answers: seq<int>, s: State, call: Call, scratchLen: nat)
    requires c.Valid() && c.KdfTotal() && InTune(c, cs, answers, s)
    ensures InTune(c, cs, answers, Do(c, s, call, scratchLen))
  {
    if Open(s) {
      match call {
        case CallSend(data) => EmitInTune(c, cs, answers, s, APPDATA, data);
        case CallClose => EmitInTune(c, cs, answers, s, ALERT, CLOSE_NOTIFY);
        case CallRecv(stream, outCap) => ReceiveInTune(c, cs, answers, s, stream, scratchLen, outCap);
      }
    }
  }

  lemma {:induction false} RunInTune(
      c: Suite, cs: Bytes, answers: seq<int>, s: State, calls: seq<Call>, scratchLen: nat)
    requires c.Valid() && c.KdfTotal() && InTune(c, cs, answers, s)
    ensures InTune(c, cs, answers, Run(c, s, calls, scratchLen))
    decreases |calls|
  {
    if calls != [] {
      DoInTune(c, cs, answers, s, calls[0], scratchLen);
      RunInTune(c, cs, answers, Do(c, s, calls[0], scratchLen), calls[1..], scratchLen);
    }
  }

  /** Over every run in which no key derivation fails and the transport takes the replies whole: a peer
      that knows the client's first application secret, and steps its keys by itself, opens every record
      and hears exactly what the calls say. */
  lemma {:induction false} PeerHears(c: Suite, cs: Bytes, ss: Bytes, answers: seq<int>, calls: seq<Call>,
      scratchLen: nat) returns (said: seq<seq<Opened>>, ear: Ear)
    requires c.Valid() && c.KdfTotal() && |cs| == HASH_SZ && |ss| == HASH_SZ
    requires var s := Run(c, Established(c, cs, ss, answers), calls, scratchLen);
             RepliesWhole(answers, Heard(c, s.emitted))
    ensures |said| == |calls|
    ensures forall k :: 0 <= k < |calls| ==>
              Says(calls[k], Run(c, Established(c, cs, ss, answers), calls[..k], scratchLen), scratchLen, said[k])
    ensures var s := Run(c, Established(c, cs, ss, answers), calls, scratchLen);
            HearAll(c, Ear(TrafficOf(c, cs), 0), Wires(c, s.emitted)) == Some((ear, Flat(said)))
  {
    var s := Established(c, cs, ss, answers);
    said := RunDelivers(c, cs, ss, answers, calls, scratchLen);
    assert Wires(c, s.emitted) == [];
    RunInTune(c, cs, answers, s, calls, scratchLen);
    ear := HearAll(c, Ear(TrafficOf(c, cs), 0), Wires(c, Run(c, s, calls, scratchLen).emitted)).value.0;
  }
}

/** How a receive and a close end. */
module Endings {
  import opened Base
  import opened Crypto
  import opened Record
  import opened KeySchedule
  import opened SessionSpec

  /** A close_notify: any level, description 0 (section 6.1 of RFC 8446). */
  predicate IsCloseNotify(o: Opened) { o.Opened? && o.ty == 21 && |o.content| >= 2 && o.content[1] == 0 }

  /** What a receive makes of the last record it authenticated: a close_notify and nothing else closes
      the session; data goes out whole if it fits; other alerts and types are errors. */
  ghost predicate Decides(o: Opened, r: Received, outCap: nat) {
    && o.Opened?
    && (r.code == Closed <==> IsCloseNotify(o))
    && (r.code == Success <==> o.ty == 23 && |o.content| <= outCap)
    && (r.out == if o.ty == 23 && |o.content| <= outCap then Some(o.content) else None)
    && (o.ty == 23 && |o.content| > outCap ==> r.code == InvalidArg)
    && (o.ty == 21 && !IsCloseNotify(o) ==> r.code == Code.Crypto)
    && (o.ty !in {21, 22, 23} ==> r.code == UnexpectedMsg)
  }

  lemma {:induction false} PostHsNeverCloses(c: Suite, s: State, msg: Bytes)
    ensures PostHs(c, s, msg).1 in {Success, Decode, UnexpectedMsg, Code.Crypto}
    ensures PostHs(c, s, msg).0.closed == s.closed && PostHs(c, s, msg).0.accepted == s.accepted
    decreases |msg|
  {
    if msg != [] && msg[0] == NEW_SESSION_TICKET && |msg| >= 4 && 4 + GetU24(msg, 1) <= |msg| {
      PostHsNeverCloses(c, s, msg[4 + GetU24(msg, 1)..]);
    } else if msg != [] && msg[0] == KEY_UPDATE && |msg| >= 5 && GetU24(msg, 1) == 1 && msg[4] <= 1 {
      var (next, code) := ApplyKeyUpdate(c, s, msg[4] == 1);
      if code == Success {
        PostHsNeverCloses(c, next, msg[5..]);
      }
    }
  }

  /** One record that authenticates. */
  lemma {:induction false} AcceptDecides(c: Suite, s: State, rec: Bytes, outCap: nat)
    requires s.rx.Valid()
    ensures var o, r := OpenRecord(c, s.rx.key, s.rx.iv, s.rx.SeqNo(), rec), Accept(c, s, rec, outCap);
            && r.s.accepted == s.accepted + (if o.Opened? then [o] else [])
            && r.s.closed == (s.closed || r.code == Closed)
            && (o.OpenError? ==> r.code !in {Success, Closed})
            && (o.Opened? && o.ty == 22 ==> r.code != Closed && r.out == None)
            && (o.Opened? && o.ty != 22 ==> Decides(o, r, outCap))
  {
    var o := OpenRecord(c, s.rx.key, s.rx.iv, s.rx.SeqNo(), rec);
    if o.Opened? && o.ty == HANDSHAKE {
      PostHsNeverCloses(c, Advanced(s, o), o.content);
    }
  }

  /** How a receive that began here ended. */
  ghost predicate Ended(s: State, r: Received, outCap: nat) {
    && s.accepted <= r.s.accepted
    && r.s.closed == (s.closed || r.code == Closed)
    && (r.code in {Success, Closed} ==> r.s.accepted != s.accepted)
    && (r.s.accepted != s.accepted ==>
          var o := r.s.accepted[|r.s.accepted| - 1];
          o.Opened? && if o.ty == 22 then r.code !in {Success, Closed} else Decides(o, r, outCap))
  }

  /** After a handshake record it is the rest that decides. */
  lemma {:induction false} RestDecides(s: State, mid: State, o: Opened, r: Received, outCap: nat)
    requires o.Opened? && o.ty == 22 && mid.accepted == s.accepted + [o] && mid.closed == s.closed
    requires Ended(mid, r, outCap)
    ensures Ended(s, r, outCap)
  {
  }

  /** Any receive of any stream. */
  lemma {:induction false} ReceiveVerdict(c: Suite, s: State, stream: Bytes, cap: nat, outCap: nat)
    requires c.Valid() && s.Valid()
    ensures Ended(s, Receive(c, s, stream, cap, outCap), outCap)
    decreases |stream|
  {
    var f := Frame(stream, cap);
    if f.Framed? && f.ty != CHANGE_CIPHER {
      var o := OpenRecord(c, s.rx.key, s.rx.iv, s.rx.SeqNo(), f.rec);
      var a := Accept(c, s, f.rec, outCap);
      AcceptDecides(c, s, f.rec, outCap);
      ReceiveStep(c, s, stream, f, cap, outCap);
      if a.code == Success && a.out.None? {
        ReceiveVerdict(c, a.s, f.rest, cap, outCap);
        RestDecides(s, a.s, o, Receive(c, a.s, f.rest, cap, outCap), outCap);
      } else {
        AcceptEnds(s, o, a, f.rest, outCap);
      }
    }
  }

  lemma {:induction false} AcceptEnds(s: State, o: Opened, a: Received, rest: Bytes, outCap: nat)
    requires a.s.accepted == s.accepted + (if o.Opened? then [o] else [])
    requires a.s.closed == (s.closed || a.code == Closed)
    requires o.OpenError? ==> a.code !in {Success, Closed}
    requires o.Opened? ==> if o.ty == 22 then a.code !in {Success, Closed} else Decides(o, a, outCap)
    ensures Ended(s, a.(rest := rest), outCap)
  {
  }

  /** A close leaves nothing behind: zero secrets, keys and ivs, no flag. */
  lemma {:induction false} CloseWipes(s: State)
    ensures var z := Close(s);
            && !z.established && !z.closed
            && z.tx.secret == z.rx.secret == Zeros(32) && z.tx.key == z.rx.key == Zeros(16)
            && z.tx.iv == z.rx.iv == Zeros(12) && z.tx.count == z.rx.count == 0
  {
  }
}
