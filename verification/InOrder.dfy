/** In-order integrity against a network that may drop, reorder, replay or alter anything. */
module InOrder {
  import opened Base
  import opened Crypto
  import opened Record
  import opened KeySchedule
  import opened SessionSpec
  import opened PostMessages

  // ---- the peer ----

  /** A record the peer sealed, and whether it changed its sending keys right after it. */
  datatype Sent = Sent(ty: Byte, content: Bytes, pad: nat, rekey: bool)
  {
    function Inner(): Bytes { content + [ty] + Zeros(pad) }

    /** The KeyUpdates that a receiver of this record alone reads in it. */
    function Read(): seq<bool> { if ty == HANDSHAKE then Updates(content) else [] }

    function AsOpened(): Opened { Opened(ty, content) }
  }

  datatype Pos = Pos(epoch: nat, count: nat)
  {
    predicate Before(that: Pos) { epoch < that.epoch || (epoch == that.epoch && count < that.count) }
  }

  /** The traffic secret the peer starts from and all it ever seals, over one suite. */
  datatype Peer = Peer(c: Suite, secret: Bytes, log: seq<Sent>)
  {
    ghost predicate Valid() { c.Valid() && c.KdfTotal() && |secret| == HASH_SZ }

    ghost function At(p: Pos): Half { HalfAt(c, secret, p.epoch, p.count) }
  }

  /** Where the peer stands after n records: it counts within an epoch and restarts at a key change
      (sections 5.3 and 7.2 of RFC 8446). */
  ghost function PosAt(log: seq<Sent>, n: nat): Pos
    requires n <= |log|
  {
    if n == 0 then Pos(0, 0)
    else
      var p := PosAt(log, n - 1);
      if log[n - 1].rekey then Pos(p.epoch + 1, 0) else Pos(p.epoch, p.count + 1)
  }

  /** Content types are nonzero, and an epoch has fewer than 2^64 records. */
  ghost predicate Numbered(log: seq<Sent>) {
    && (forall i :: 0 <= i < |log| ==> log[i].ty != 0)
    && (forall i :: 0 <= i <= |log| ==> CountsAt(log, i))
  }

  ghost predicate CountsAt(log: seq<Sent>, i: nat)
    requires i <= |log|
  {
    PosAt(log, i).count + 1 < WORD64
  }

  lemma {:induction false} PosIncreases(log: seq<Sent>, i: nat, j: nat)
    requires i < j <= |log|
    ensures PosAt(log, i).Before(PosAt(log, j))
    decreases j
  {
    if i < j - 1 {
      PosIncreases(log, i, j - 1);
    }
  }

  /** Positions are distinct, so the peer seals at most one record at each. */
  lemma {:induction false} OnlyOneAt(log: seq<Sent>, i: nat, n: nat)
    requires i <= |log| && n <= |log| && PosAt(log, i) == PosAt(log, n)
    ensures i == n
  {
    if i < n {
      PosIncreases(log, i, n);
    } else if n < i {
      PosIncreases(log, n, i);
    }
  }

  // ---- where the receiver goes ----

  /** Handling ends after k of these updates: after all, or after one whose reply is not taken. */
  predicate StopsAfter(u: seq<bool>, k: nat) {
    k <= |u| && (k == |u| || (k > 0 && u[k - 1]))
  }

  /** A record that makes k updates, read at p, leaves the receiver here. */
  function Landing(p: Pos, k: nat): Pos {
    if k == 0 then Pos(p.epoch, p.count + 1) else Pos(p.epoch + k, 0)
  }

  /** A receiver that read record n where the peer sealed it can be where the peer is next. */
  ghost predicate StaysAt(log: seq<Sent>, n: nat)
    requires n < |log|
  {
    exists k :: StopsAfter(log[n].Read(), k) && Landing(PosAt(log, n), k) == PosAt(log, n + 1)
  }

  /** The receiver can have followed the peer over n records. */
  ghost predicate Reachable(log: seq<Sent>, n: nat)
    requires n <= |log|
  {
    forall i :: 0 <= i < n ==> StaysAt(log, i)
  }

  /** A position at which the peer never seals. */
  ghost predicate Stranded(log: seq<Sent>, here: Pos) {
    forall i :: 0 <= i < |log| ==> PosAt(log, i) != here
  }

  ghost predicate SafeAt(log: seq<Sent>, n: nat, k: nat)
    requires n < |log|
  {
    var p := Landing(PosAt(log, n), k);
    p == PosAt(log, n + 1) || Stranded(log, p)
  }

  /** Wherever reading the peer's records one by one can take the receiver, the peer goes too or
      never does. */
  ghost predicate Safe(log: seq<Sent>) {
    forall n, k :: 0 <= n < |log| && Reachable(log, n) && StopsAfter(log[n].Read(), k) ==> SafeAt(log, n, k)
  }

  /** An epoch of the peer, or one that a record of the peer makes the receiver enter. */
  ghost predicate Known(log: seq<Sent>, e: nat) {
    || e <= PosAt(log, |log|).epoch
    || exists n :: 0 <= n < |log| && e <= PosAt(log, n).epoch + |log[n].Read()|
  }

  // ---- the ideal AEAD ----

  /** If a delivered record opens under such a key, then the peer sealed it under that key and nonce. */
  ghost predicate Genuine(peer: Peer, rec: Bytes) {
    forall p: Pos :: Known(peer.log, p.epoch) && p.count < WORD64 ==> GenuineAt(peer, p, rec)
  }

  ghost predicate GenuineAt(peer: Peer, p: Pos, rec: Bytes) {
    var h := peer.At(p);
    h.Valid() && |rec| >= HEADER_SZ && OpenInner(peer.c, h.key, h.iv, h.SeqNo(), rec).Some? ==>
      exists i :: 0 <= i < |peer.log| && Sealed(peer.log, i, h, OpenInner(peer.c, h.key, h.iv, h.SeqNo(), rec).value)
  }

  ghost predicate Sealed(log: seq<Sent>, i: nat, h: Half, inner: Bytes)
    requires i < |log| && h.Valid()
  {
    && PosAt(log, i).epoch == h.epoch
    && Nonce(h.iv, PosAt(log, i).count) == Nonce(h.iv, h.SeqNo())
    && inner == log[i].Inner()
  }

  /** A part of a stream that its length field lets be framed as a record. */
  predicate Frames(rec: Bytes) { |rec| >= HEADER_SZ && GetU16(rec, 3) + HEADER_SZ == |rec| }

  /** No record in the delivered bytes is a forgery. */
  ghost predicate Unforged(peer: Peer, stream: Bytes) {
    forall a, b :: 0 <= a <= b <= |stream| && Frames(stream[a..b]) ==> Genuine(peer, stream[a..b])
  }

  ghost predicate UnforgedCalls(peer: Peer, calls: seq<Call>) {
    forall call <- calls :: call.CallRecv? ==> Unforged(peer, call.stream)
  }

  // ---- what the receiver has ----

  ghost predicate Prefix(log: seq<Sent>, accepted: seq<Opened>) {
    && |accepted| <= |log|
    && forall i :: 0 <= i < |accepted| ==> accepted[i] == log[i].AsOpened()
  }

  /** The receiver waits for the peer's n-th record, or where the peer never seals. */
  ghost predicate Tracks(peer: Peer, h: Half, n: nat)
    requires n <= |peer.log|
  {
    var here := Pos(h.epoch, h.count);
    && h == peer.At(here) && here.count < WORD64 && Known(peer.log, here.epoch)
    && ((here == PosAt(peer.log, n) && Reachable(peer.log, n)) || Stranded(peer.log, here))
  }

  ghost predicate Inv(peer: Peer, s: State) {
    Prefix(peer.log, s.accepted) && (s.established ==> Tracks(peer, s.rx, |s.accepted|))
  }

  // ---- one record ----

  /** The read side after k updates. */
  ghost function Turned(peer: Peer, h: Half, k: nat): Half {
    if k == 0 then h else peer.At(Pos(h.epoch + k, 0))
  }

  /** Handling a record moves the read side over some of its updates, to the last one if no reply
      and no derivation failed. */
  lemma {:induction false} PostHsLands(peer: Peer, s: State, msg: Bytes) returns (k: nat)
    requires peer.c.KdfTotal() && s.rx == peer.At(Pos(s.rx.epoch, s.rx.count))
    ensures LandsAfter(peer, s, msg, k)
    decreases |msg|
  {
    k := 0;
    if msg != [] && msg[0] == NEW_SESSION_TICKET {
      if |msg| >= 4 && 4 + GetU24(msg, 1) <= |msg| {
        k := PostHsLands(peer, s, msg[4 + GetU24(msg, 1)..]);
      }
    } else if msg != [] && msg[0] == KEY_UPDATE && |msg| >= 5 && GetU24(msg, 1) == 1 && msg[4] <= 1 {
      var next, on := UpdateLeads(peer, s, msg);
      var more := 0;
      if on {
        more := PostHsLands(peer, next, msg[5..]);
      }
      k := more + 1;
    }
  }

  /** Over one update, to the rest if its reply is taken. */
  lemma {:induction false} UpdateLeads(peer: Peer, s: State, msg: Bytes) returns (next: State, on: bool)
    requires peer.c.KdfTotal() && s.rx == peer.At(Pos(s.rx.epoch, s.rx.count))
    requires |msg| >= 5 && msg[0] == KEY_UPDATE && GetU24(msg, 1) == 1 && msg[4] <= 1
    ensures next.rx == peer.At(Pos(next.rx.epoch, next.rx.count))
    ensures if on then forall more: nat :: LandsAfter(peer, next, msg[5..], more) ==>
            LandsAfter(peer, s, msg, more + 1)
            else LandsAfter(peer, s, msg, 1)
  {
    UpdateLands(peer, s, msg[4] == 1);
    next := ApplyKeyUpdate(peer.c, s, msg[4] == 1).0;
    on := ApplyKeyUpdate(peer.c, s, msg[4] == 1).1 == Success;
    if on {
      forall more: nat | LandsAfter(peer, next, msg[5..], more) ensures LandsAfter(peer, s, msg, more + 1) {
        UpdateThenRest(peer, s, msg, more);
      }
    } else {
      UpdateThenRest(peer, s, msg, 0);
    }
  }

  /** What one record's handling comes to. */
  ghost predicate LandsAfter(peer: Peer, s: State, msg: Bytes, k: nat) {
    var (after, code) := PostHs(peer.c, s, msg);
    && StopsAfter(Updates(msg), k) && after.rx == Turned(peer, s.rx, k)
    && (code != Code.Crypto ==> k == |Updates(msg)|)
  }

  lemma {:induction false} UpdateThenRest(peer: Peer, s: State, msg: Bytes, more: nat)
    requires peer.c.KdfTotal() && s.rx == peer.At(Pos(s.rx.epoch, s.rx.count))
    requires |msg| >= 5 && msg[0] == KEY_UPDATE && GetU24(msg, 1) == 1 && msg[4] <= 1
    requires var (next, code) := ApplyKeyUpdate(peer.c, s, msg[4] == 1);
             if code == Success then LandsAfter(peer, next, msg[5..], more) else more == 0
    ensures LandsAfter(peer, s, msg, more + 1)
  {
    UpdateLands(peer, s, msg[4] == 1);
    OneMoreUpdate(msg[4] == 1, Updates(msg[5..]), more, ApplyKeyUpdate(peer.c, s, msg[4] == 1).1 == Success);
  }

  lemma {:induction false} UpdateLands(peer: Peer, s: State, requested: bool)
    requires peer.c.KdfTotal() && s.rx == peer.At(Pos(s.rx.epoch, s.rx.count))
    ensures var (next, code) := ApplyKeyUpdate(peer.c, s, requested);
            && next.rx == Turned(peer, s.rx, 1) && next.rx.epoch == s.rx.epoch + 1
            && (code == Success || (code == Code.Crypto && requested))
  {
    RekeyAt(peer.c, peer.secret, s.rx.epoch, s.rx.count);
  }

  lemma {:induction false} OneMoreUpdate(requested: bool, u: seq<bool>, k: nat, went: bool)
    requires if went then StopsAfter(u, k) else requested && k == 0
    ensures StopsAfter([requested] + u, k + 1)
  {
  }

  /** The same for any authenticated record. */
  lemma {:induction false} DispatchLands(peer: Peer, s: State, sent: Sent, outCap: nat) returns (k: nat)
    requires peer.c.KdfTotal() && s.rx == peer.At(Pos(s.rx.epoch, s.rx.count))
    ensures StopsAfter(sent.Read(), k)
    ensures var r := Dispatch(peer.c, s, sent.ty, sent.content, outCap);
            && r.s.rx == Turned(peer, s.rx, k)
            && r.s.accepted == s.accepted && r.s.established == s.established
            && (r.code != Code.Crypto ==> k == |sent.Read()|)
            && (r.code == Success && r.out.None? ==> sent.ty == HANDSHAKE)
            && (r.out.Some? ==> sent.ty == APPDATA && r.out.value == sent.content && r.code == Success)
            && (r.code == Success && sent.ty == APPDATA ==> r.out.Some?)
  {
    k := 0;
    if sent.ty == HANDSHAKE {
      k := PostHsLands(peer, s, sent.content);
      PostHsLeaves(peer.c, s, sent.content);
    }
  }

  /** Handling a record never touches what was authenticated, nor the flags. */
  lemma {:induction false} PostHsLeaves(c: Suite, s: State, msg: Bytes)
    ensures var after := PostHs(c, s, msg).0;
            after.accepted == s.accepted && after.established == s.established && after.closed == s.closed
    decreases |msg|
  {
    if msg != [] && msg[0] == NEW_SESSION_TICKET {
      if |msg| >= 4 && 4 + GetU24(msg, 1) <= |msg| {
        PostHsLeaves(c, s, msg[4 + GetU24(msg, 1)..]);
      }
    } else if msg != [] && msg[0] == KEY_UPDATE && |msg| >= 5 && GetU24(msg, 1) == 1 && msg[4] <= 1 {
      PostHsLeaves(c, ApplyKeyUpdate(c, s, msg[4] == 1).0, msg[5..]);
    }
  }

  /** The record the peer sealed where the receiver stands. */
  lemma {:induction false} SealedHere(peer: Peer, h: Half, rec: Bytes) returns (i: nat)
    requires h.Valid() && Numbered(peer.log) && Genuine(peer, rec)
    requires h == peer.At(Pos(h.epoch, h.count)) && h.count < WORD64 && Known(peer.log, h.epoch)
    requires |rec| >= HEADER_SZ && OpenInner(peer.c, h.key, h.iv, h.SeqNo(), rec).Some?
    ensures i < |peer.log| && PosAt(peer.log, i) == Pos(h.epoch, h.count)
    ensures OpenInner(peer.c, h.key, h.iv, h.SeqNo(), rec).value == peer.log[i].Inner()
  {
    var log := peer.log;
    assert h.SeqNo() == h.count;
    assert GenuineAt(peer, Pos(h.epoch, h.count), rec);
    i :| 0 <= i < |log| && Sealed(log, i, h, OpenInner(peer.c, h.key, h.iv, h.SeqNo(), rec).value);
    assert CountsAt(log, i);
    NonceInjective(h.iv, PosAt(log, i).count, h.count);
  }

  /** A record that opens while the receiver tracks the peer is the next one in the peer's log. */
  lemma {:induction false} OpensTheNext(peer: Peer, s: State, rec: Bytes)
    requires s.rx.Valid() && Numbered(peer.log) && |s.accepted| <= |peer.log| && Tracks(peer, s.rx, |s.accepted|)
    requires Genuine(peer, rec)
    requires OpenRecord(peer.c, s.rx.key, s.rx.iv, s.rx.SeqNo(), rec).Opened?
    ensures var n := |s.accepted|;
            && n < |peer.log| && Pos(s.rx.epoch, s.rx.count) == PosAt(peer.log, n) && Reachable(peer.log, n)
            && OpenRecord(peer.c, s.rx.key, s.rx.iv, s.rx.SeqNo(), rec) == peer.log[n].AsOpened()
  {
    var i := SealedHere(peer, s.rx, rec);
    OnlyOneAt(peer.log, i, |s.accepted|);
    SplitUnique(peer.log[i].content, peer.log[i].ty, peer.log[i].pad);
  }

  /** From the peer's n-th position, a safe step leads on or to where nothing comes. */
  lemma {:induction false} StepTracks(peer: Peer, n: nat, k: nat)
    requires Numbered(peer.log) && Safe(peer.log) && n < |peer.log| && Reachable(peer.log, n)
    requires StopsAfter(peer.log[n].Read(), k)
    ensures Tracks(peer, peer.At(Landing(PosAt(peer.log, n), k)), n + 1)
  {
    var log := peer.log;
    var p := Landing(PosAt(log, n), k);
    assert CountsAt(log, n) && SafeAt(log, n, k);
    assert Known(log, p.epoch);
    if p == PosAt(log, n + 1) {
      assert StaysAt(log, n);
    }
  }

  lemma {:induction false} PrefixGrows(log: seq<Sent>, accepted: seq<Opened>)
    requires Prefix(log, accepted) && |accepted| < |log|
    ensures Prefix(log, accepted + [log[|accepted|].AsOpened()])
  {
  }

  ghost predicate HandshakeOnly(log: seq<Sent>, from: nat, to: int)
    requires to <= |log|
  {
    forall i :: from <= i < to ==> log[i].ty == HANDSHAKE
  }

  /** The receiver went over records k.. of the log; a success delivers the last of them. */
  ghost predicate Delivers(log: seq<Sent>, k: nat, r: Received) {
    var n := |r.s.accepted|;
    && k <= n <= |log|
    && (r.code == Success ==>
          && k < n && HandshakeOnly(log, k, n - 1)
          && log[n - 1].ty == (if r.out.None? then HANDSHAKE else APPDATA)
          && (r.out.Some? ==> r.out.value == log[n - 1].content))
  }

  lemma {:induction false} NextKeeps(peer: Peer, s: State, outCap: nat)
    requires peer.c.KdfTotal() && Numbered(peer.log) && Safe(peer.log)
    requires Prefix(peer.log, s.accepted) && |s.accepted| < |peer.log| && Reachable(peer.log, |s.accepted|)
    requires s.rx == peer.At(PosAt(peer.log, |s.accepted|))
    ensures var sent := peer.log[|s.accepted|];
            var r := Dispatch(peer.c, Advanced(s, sent.AsOpened()), sent.ty, sent.content, outCap);
            && Prefix(peer.log, r.s.accepted) && Tracks(peer, r.s.rx, |r.s.accepted|)
            && r.s.established == s.established && Delivers(peer.log, |s.accepted|, r)
  {
    var n := |s.accepted|;
    var next := Advanced(s, peer.log[n].AsOpened());
    var here := PosAt(peer.log, n);
    assert next.rx == peer.At(Pos(here.epoch, here.count + 1));
    var k := DispatchLands(peer, next, peer.log[n], outCap);
    StepTracks(peer, n, k);
    PrefixGrows(peer.log, s.accepted);
    assert |next.accepted| == n + 1;
  }

  lemma {:induction false} AcceptKeeps(peer: Peer, s: State, rec: Bytes, outCap: nat)
    requires peer.c.KdfTotal() && s.rx.Valid() && Numbered(peer.log) && Safe(peer.log)
    requires s.established && Inv(peer, s) && Genuine(peer, rec)
    ensures var r := Accept(peer.c, s, rec, outCap);
            Inv(peer, r.s) && r.s.established && Delivers(peer.log, |s.accepted|, r)
  {
    if OpenRecord(peer.c, s.rx.key, s.rx.iv, s.rx.SeqNo(), rec).Opened? {
      OpensTheNext(peer, s, rec);
      NextKeeps(peer, s, outCap);
    }
  }

  // ---- one call ----

  lemma {:induction false} UnforgedRest(peer: Peer, front: Bytes, rest: Bytes)
    requires Unforged(peer, front + rest) && Frames(front)
    ensures Genuine(peer, front) && Unforged(peer, rest)
  {
    var m, stream := |front|, front + rest;
    assert stream[0..m] == front;
    forall a, b | 0 <= a <= b <= |rest| && Frames(rest[a..b]) ensures Genuine(peer, rest[a..b]) {
      assert rest[a..b] == stream[m + a..m + b];
    }
  }

  lemma {:induction false} FramedFrames(stream: Bytes, cap: nat)
    requires Frame(stream, cap).Framed?
    ensures Frames(Frame(stream, cap).rec)
  {
    var rec := Frame(stream, cap).rec;
    assert rec[3] == stream[3] && rec[4] == stream[4];
  }

  lemma {:induction false} DeliversMore(log: seq<Sent>, k: nat, first: Received, more: Received)
    requires Delivers(log, k, first) && first.code == Success && first.out.None?
    requires Delivers(log, |first.s.accepted|, more)
    ensures Delivers(log, k, more)
  {
  }

  /** The first record of a stream, if it is framed and no change_cipher_spec. */
  ghost predicate HasRecord(stream: Bytes, cap: nat) {
    Frame(stream, cap).Framed? && Frame(stream, cap).ty != CHANGE_CIPHER
  }

  lemma {:induction false} FirstKeeps(peer: Peer, s: State, stream: Bytes, cap: nat, outCap: nat)
    requires peer.Valid() && s.Valid() && Numbered(peer.log) && Safe(peer.log)
    requires s.established && Inv(peer, s) && Unforged(peer, stream) && HasRecord(stream, cap)
    ensures var r := Accept(peer.c, s, Frame(stream, cap).rec, outCap);
            && r.s.Valid() && r.s.established && Inv(peer, r.s) && Delivers(peer.log, |s.accepted|, r)
            && Unforged(peer, Frame(stream, cap).rest)
  {
    var f := Frame(stream, cap);
    FramedFrames(stream, cap);
    UnforgedRest(peer, f.rec, f.rest);
    AcceptKeeps(peer, s, f.rec, outCap);
    AcceptKeepsValid(peer.c, s, f.rec, outCap);
  }

  ghost predicate GoesOn(c: Suite, s: State, stream: Bytes, cap: nat, outCap: nat)
    requires s.rx.Valid()
  {
    && HasRecord(stream, cap)
    && var r := Accept(c, s, Frame(stream, cap).rec, outCap); r.code == Success && r.out.None?
  }

  /** The receiver is still on the peer's track, and a success returned the first application data
      among the peer's next records. */
  ghost predicate KeepsTrack(peer: Peer, n: nat, r: Received) {
    Inv(peer, r.s) && Delivers(peer.log, n, r) && (r.code == Success ==> r.out.Some?)
  }

  lemma {:induction false} ReceiveStops(peer: Peer, s: State, stream: Bytes, cap: nat, outCap: nat)
    requires peer.Valid() && s.Valid() && Numbered(peer.log) && Safe(peer.log)
    requires s.established && Inv(peer, s) && Unforged(peer, stream) && !GoesOn(peer.c, s, stream, cap, outCap)
    ensures KeepsTrack(peer, |s.accepted|, Receive(peer.c, s, stream, cap, outCap))
  {
    if HasRecord(stream, cap) {
      FirstKeeps(peer, s, stream, cap, outCap);
    }
    StopsThere(peer.c, s, stream, cap, outCap);
  }

  /** A call that does not go on ends with its first record, if it has one. */
  lemma {:induction false} StopsThere(c: Suite, s: State, stream: Bytes, cap: nat, outCap: nat)
    requires c.Valid() && s.Valid() && !GoesOn(c, s, stream, cap, outCap)
    ensures var r := Receive(c, s, stream, cap, outCap);
            if HasRecord(stream, cap) then
              var first := Accept(c, s, Frame(stream, cap).rec, outCap);
              r.s == first.s && r.code == first.code && r.out == first.out
            else r.s == s && r.code != Success && r.out == None
  {
  }

  lemma {:induction false} ReceiveKeeps(peer: Peer, s: State, stream: Bytes, cap: nat, outCap: nat)
    requires peer.Valid() && s.Valid() && Numbered(peer.log) && Safe(peer.log)
    requires s.established && Inv(peer, s) && Unforged(peer, stream)
    ensures KeepsTrack(peer, |s.accepted|, Receive(peer.c, s, stream, cap, outCap))
    decreases |stream|
  {
    if GoesOn(peer.c, s, stream, cap, outCap) {
      var f := Frame(stream, cap);
      var r := Accept(peer.c, s, f.rec, outCap);
      FirstKeeps(peer, s, stream, cap, outCap);
      ReceiveKeeps(peer, r.s, f.rest, cap, outCap);
      DeliversMore(peer.log, |s.accepted|, r, Receive(peer.c, r.s, f.rest, cap, outCap));
    } else {
      ReceiveStops(peer, s, stream, cap, outCap);
    }
  }

  // ---- whole runs ----

  lemma {:induction false} RunKeeps(peer: Peer, s: State, calls: seq<Call>, scratchLen: nat)
    requires peer.Valid() && s.Valid() && Numbered(peer.log) && Safe(peer.log) && Inv(peer, s)
    requires UnforgedCalls(peer, calls)
    ensures Inv(peer, Run(peer.c, s, calls, scratchLen))
    decreases calls
  {
    if calls != [] {
      if calls[0].CallRecv? && Open(s) {
        ReceiveKeeps(peer, s, calls[0].stream, scratchLen, calls[0].outCap);
      }
      RunKeeps(peer, Do(peer.c, s, calls[0], scratchLen), calls[1..], scratchLen);
    }
  }

  lemma {:induction false} EstablishedTracks(peer: Peer, cs: Bytes, answers: seq<int>)
    ensures Inv(peer, Established(peer.c, cs, peer.secret, answers))
  {
    assert Known(peer.log, 0);
  }

  /** Over every run, the records the session authenticates are a prefix of those the peer sealed,
      in order, across all key epochs. */
  lemma {:induction false} AcceptedIsPrefix(peer: Peer, cs: Bytes, answers: seq<int>, calls: seq<Call>,
      scratchLen: nat)
    requires peer.Valid() && |cs| == HASH_SZ && Numbered(peer.log) && Safe(peer.log) && UnforgedCalls(peer, calls)
    ensures Prefix(peer.log, Run(peer.c, Established(peer.c, cs, peer.secret, answers), calls, scratchLen).accepted)
  {
    EstablishedTracks(peer, cs, answers);
    RunKeeps(peer, Established(peer.c, cs, peer.secret, answers), calls, scratchLen);
  }

  /** And after every run, the next successful wn_Recv returns the peer's next application data, byte
      for byte, behind handshake records only. */
  lemma {:induction false} SuccessIsNext(
      peer: Peer, cs: Bytes, answers: seq<int>, calls: seq<Call>, stream: Bytes, scratchLen: nat, outCap: nat)
    requires peer.Valid() && |cs| == HASH_SZ && Numbered(peer.log) && Safe(peer.log) && UnforgedCalls(peer, calls)
    requires Unforged(peer, stream)
             && Open(Run(peer.c, Established(peer.c, cs, peer.secret, answers), calls, scratchLen))
    ensures var s := Run(peer.c, Established(peer.c, cs, peer.secret, answers), calls, scratchLen);
            var r := Receive(peer.c, s, stream, scratchLen, outCap);
            Delivers(peer.log, |s.accepted|, r) && (r.code == Success ==> r.out.Some?)
  {
    EstablishedTracks(peer, cs, answers);
    RunKeeps(peer, Established(peer.c, cs, peer.secret, answers), calls, scratchLen);
    var s := Run(peer.c, Established(peer.c, cs, peer.secret, answers), calls, scratchLen);
    ReceiveKeeps(peer, s, stream, scratchLen, outCap);
  }

  /** A wn_Recv that authenticates nothing changes nothing, whatever arrives. */
  lemma {:induction false} NothingAuthenticated(c: Suite, s: State, stream: Bytes, cap: nat, outCap: nat)
    requires c.Valid() && s.Valid()
    ensures var r := Receive(c, s, stream, cap, outCap);
            && s.accepted <= r.s.accepted
            && (r.s.accepted == s.accepted ==> r.s == s && r.code != Success)
    decreases |stream|
  {
    var f := Frame(stream, cap);
    if f.Framed? && f.ty != CHANGE_CIPHER {
      var r := Accept(c, s, f.rec, outCap);
      AcceptGrows(c, s, f.rec, outCap);
      AcceptKeepsValid(c, s, f.rec, outCap);
      if r.code == Success && r.out.None? {
        NothingAuthenticated(c, r.s, f.rest, cap, outCap);
      }
    }
  }

  lemma {:induction false} AcceptGrows(c: Suite, s: State, rec: Bytes, outCap: nat)
    requires s.rx.Valid()
    ensures var r := Accept(c, s, rec, outCap);
            && s.accepted <= r.s.accepted
            && (r.s.accepted == s.accepted ==> r.s == s && r.code != Success)
  {
    var o := OpenRecord(c, s.rx.key, s.rx.iv, s.rx.SeqNo(), rec);
    if o.Opened? {
      PostHsLeaves(c, Advanced(s, o), o.content);
    }
  }
}

/** When exactly that holds: Safe is necessary too. */
module InOrderExact {
  import opened Base
  import opened Crypto
  import opened Record
  import opened KeySchedule
  import opened SessionSpec
  import opened PostMessages
  import opened InOrder

  // ---- the network only drops ----

  /** Record i as the peer sealed it. */
  ghost function Wire(peer: Peer, i: nat): Bytes
    requires peer.Valid() && i < |peer.log|
  {
    var h := peer.At(PosAt(peer.log, i));
    SealInner(peer.c, h.key, h.iv, h.SeqNo(), peer.log[i].Inner())
  }

  /** Records of a size that the record layer and the receiver's buffer allow. */
  ghost predicate Sized(log: seq<Sent>, scratchLen: nat) {
    forall i :: 0 <= i < |log| ==> SizedAt(log[i], scratchLen)
  }

  predicate SizedAt(sent: Sent, scratchLen: nat) {
    && |sent.content| + sent.pad <= MAX_PLAINTEXT
    && HEADER_SZ + |sent.content| + 1 + sent.pad + TAG_SZ <= scratchLen
  }

  /** Handshake messages and data only: an alert would close the session. */
  ghost predicate NoAlerts(log: seq<Sent>) {
    forall i :: 0 <= i < |log| ==> log[i].ty == HANDSHAKE || log[i].ty == APPDATA
  }

  /** The transport's answers that make the handling of these updates stop after k of them. */
  function Replies(u: seq<bool>, k: nat): seq<int>
    requires k <= |u|
    decreases k
  {
    if k == 0 then []
    else (if !u[0] then [] else if k == 1 && |u| > 1 then [-1] else [REPLY_SZ]) + Replies(u[1..], k - 1)
  }

  // ---- one record ----

  lemma {:induction false} UpdateReplied(peer: Peer, s: State, requested: bool, taken: bool, more: seq<int>)
    requires peer.Valid() && s.rx == peer.At(Pos(s.rx.epoch, s.rx.count))
    requires s.answers == (if !requested then [] else if taken then [REPLY_SZ] else [-1]) + more
    ensures var (next, code) := ApplyKeyUpdate(peer.c, s, requested);
            && (code == Success <==> !requested || taken) && next.answers == more
            && next.rx == Turned(peer, s.rx, 1) && next.rx.epoch == s.rx.epoch + 1
  {
    UpdateLands(peer, s, requested);
    if requested {
      assert s.answers[1..] == more;
    } else {
      assert [] + more == more;
    }
  }

  ghost predicate StopsWith(peer: Peer, s: State, msg: Bytes, k: nat, more: seq<int>) {
    var after := PostHs(peer.c, s, msg).0;
    after.rx == Turned(peer, s.rx, k) && after.answers == more
  }

  lemma {:induction false} RepliesFirst(requested: bool, u: seq<bool>, k: nat, more: seq<int>)
    requires 0 < k <= |u| + 1
    ensures var first := if !requested then [] else if k == 1 && |u| > 0 then [-1] else [REPLY_SZ];
            Replies([requested] + u, k) + more == first + (Replies(u, k - 1) + more)
  {
    assert ([requested] + u)[1..] == u;
  }

  /** An update that is not the last: its reply is taken, and the rest stops where it should. */
  lemma {:induction false} UpdateGoesOn(peer: Peer, s: State, msg: Bytes, k: nat, more: seq<int>)
    requires peer.Valid() && s.rx == peer.At(Pos(s.rx.epoch, s.rx.count))
    requires |msg| >= 5 && msg[0] == KEY_UPDATE && GetU24(msg, 1) == 1 && msg[4] <= 1
    requires k > 0 && ApplyKeyUpdate(peer.c, s, msg[4] == 1).1 == Success
    requires StopsWith(peer, ApplyKeyUpdate(peer.c, s, msg[4] == 1).0, msg[5..], k - 1, more)
    ensures StopsWith(peer, s, msg, k, more)
  {
    UpdateLands(peer, s, msg[4] == 1);
  }

  /** The update at the front of a record that stops after k: its answer, and what remains. */
  lemma {:induction false} UpdateFirst(peer: Peer, s: State, msg: Bytes, k: nat, more: seq<int>)
    requires peer.Valid() && s.rx == peer.At(Pos(s.rx.epoch, s.rx.count))
    requires |msg| >= 5 && msg[0] == KEY_UPDATE && GetU24(msg, 1) == 1 && msg[4] <= 1
    requires StopsAfter(Updates(msg), k) && s.answers == Replies(Updates(msg), k) + more
    ensures var u := Updates(msg[5..]);
            var (next, code) := ApplyKeyUpdate(peer.c, s, msg[4] == 1);
            && k > 0 && next.rx == Turned(peer, s.rx, 1) && next.rx.epoch == s.rx.epoch + 1
            && (if k == 1 && |u| > 0 then code != Success && next.answers == more
                else code == Success && StopsAfter(u, k - 1) && next.answers == Replies(u, k - 1) + more)
  {
    var requested, u := msg[4] == 1, Updates(msg[5..]);
    RepliesFirst(requested, u, k, more);
    UpdateReplied(peer, s, requested, !(k == 1 && |u| > 0), Replies(u, k - 1) + more);
    assert Replies(u, 0) + more == more;
  }

  /** Answers that make the handling stop after k updates. */
  ghost predicate Poised(peer: Peer, s: State, msg: Bytes, k: nat, more: seq<int>) {
    && peer.Valid() && s.rx == peer.At(Pos(s.rx.epoch, s.rx.count))
    && StopsAfter(Updates(msg), k) && s.answers == Replies(Updates(msg), k) + more
  }

  /** Over one update, to where it stops or goes on with the rest. */
  lemma {:induction false} OneUpdate(peer: Peer, s: State, msg: Bytes, k: nat, more: seq<int>)
    returns (next: State, on: bool)
    requires |msg| >= 5 && msg[0] == KEY_UPDATE && GetU24(msg, 1) == 1 && msg[4] <= 1
    requires Poised(peer, s, msg, k, more)
    ensures k > 0
    ensures if on then
              && Poised(peer, next, msg[5..], k - 1, more)
              && (StopsWith(peer, next, msg[5..], k - 1, more) ==> StopsWith(peer, s, msg, k, more))
            else StopsWith(peer, s, msg, k, more)
  {
    UpdateFirst(peer, s, msg, k, more);
    next := ApplyKeyUpdate(peer.c, s, msg[4] == 1).0;
    on := k > 1 || Updates(msg[5..]) == [];
    if on && StopsWith(peer, next, msg[5..], k - 1, more) {
      UpdateGoesOn(peer, s, msg, k, more);
    }
  }

  /** With those answers the handling does stop there. */
  lemma {:induction false} PostHsStops(peer: Peer, s: State, msg: Bytes, k: nat, more: seq<int>)
    requires Poised(peer, s, msg, k, more)
    ensures StopsWith(peer, s, msg, k, more)
    decreases |msg|
  {
    assert [] + more == more;
    if msg != [] && msg[0] == NEW_SESSION_TICKET {
      if |msg| >= 4 && 4 + GetU24(msg, 1) <= |msg| {
        PostHsStops(peer, s, msg[4 + GetU24(msg, 1)..], k, more);
      }
    } else if msg != [] && msg[0] == KEY_UPDATE && |msg| >= 5 && GetU24(msg, 1) == 1 && msg[4] <= 1 {
      var next, on := OneUpdate(peer, s, msg, k, more);
      if on {
        PostHsStops(peer, next, msg[5..], k - 1, more);
      }
    }
  }

  /** The receiver, open, where the peer sealed record n, with these records behind it. */
  ghost predicate Stands(peer: Peer, s: State, p: Pos, accepted: seq<Opened>, answers: seq<int>) {
    s.Valid() && Open(s) && s.rx == peer.At(p) && s.accepted == accepted && s.answers == answers
  }

  lemma {:induction false} DispatchStops(peer: Peer, s: State, sent: Sent, p: Pos, accepted: seq<Opened>, k: nat,
      more: seq<int>)
    requires peer.Valid() && (sent.ty == HANDSHAKE || sent.ty == APPDATA) && StopsAfter(sent.Read(), k)
    requires Stands(peer, s, Pos(p.epoch, p.count + 1), accepted, Replies(sent.Read(), k) + more)
    ensures Stands(peer, Dispatch(peer.c, s, sent.ty, sent.content, 0).s, Landing(p, k), accepted, more)
  {
    if sent.ty == HANDSHAKE {
      HandshakeStops(peer, s, sent.content, p, accepted, k, more);
    } else {
      assert [] + more == more;
    }
  }

  lemma {:induction false} HandshakeStops(
      peer: Peer, s: State, msg: Bytes, p: Pos, accepted: seq<Opened>, k: nat, more: seq<int>)
    requires peer.Valid() && StopsAfter(Updates(msg), k)
    requires Stands(peer, s, Pos(p.epoch, p.count + 1), accepted, Replies(Updates(msg), k) + more)
    ensures Stands(peer, PostHs(peer.c, s, msg).0, Landing(p, k), accepted, more)
  {
    var after := PostHs(peer.c, s, msg).0;
    assert after.rx == Turned(peer, s.rx, k) && after.answers == more by { PostHsStops(peer, s, msg, k, more); }
    assert after.accepted == accepted && Open(after) by { PostHsLeaves(peer.c, s, msg); }
    assert after.Valid() by { PostHsKeepsValid(peer.c, s, msg); }
  }

  /** Framing and opening a record the peer sealed, by itself. */
  lemma {:induction false} WireOpens(peer: Peer, j: nat, scratchLen: nat)
    requires peer.Valid() && Numbered(peer.log) && j < |peer.log| && SizedAt(peer.log[j], scratchLen)
    ensures Frame(Wire(peer, j), scratchLen) == Framed(APPDATA, Wire(peer, j), [])
    ensures var h := peer.At(PosAt(peer.log, j));
            OpenRecord(peer.c, h.key, h.iv, h.SeqNo(), Wire(peer, j)) == peer.log[j].AsOpened()
  {
    var h, sent := peer.At(PosAt(peer.log, j)), peer.log[j];
    RecordRoundTrip(peer.c, h.key, h.iv, h.SeqNo(), sent.ty, sent.content, sent.pad, [], scratchLen);
    assert Wire(peer, j) + [] == Wire(peer, j);
  }

  ghost function Delivery(peer: Peer, i: nat): Call
    requires peer.Valid() && i < |peer.log|
  {
    CallRecv(Wire(peer, i), 0)
  }

  /** A call that is delivered record j, while the receiver stands where the peer sealed it. */
  lemma {:induction false} CallReads(peer: Peer, s: State, j: nat, scratchLen: nat, k: nat, more: seq<int>)
    requires peer.Valid() && Numbered(peer.log) && NoAlerts(peer.log) && j < |peer.log|
             && SizedAt(peer.log[j], scratchLen)
    requires StopsAfter(peer.log[j].Read(), k)
    requires Stands(peer, s, PosAt(peer.log, j), s.accepted, Replies(peer.log[j].Read(), k) + more)
    ensures Stands(peer, Do(peer.c, s, Delivery(peer, j), scratchLen), Landing(PosAt(peer.log, j), k),
                   s.accepted + [peer.log[j].AsOpened()], more)
  {
    var sent := peer.log[j];
    var next := Advanced(s, sent.AsOpened());
    WireOpens(peer, j, scratchLen);
    assert Stands(peer, next, Pos(PosAt(peer.log, j).epoch, PosAt(peer.log, j).count + 1), next.accepted, s.answers);
    DispatchStops(peer, next, sent, PosAt(peer.log, j), next.accepted, k, more);
    EndOfStream(peer, s, Wire(peer, j), scratchLen);
  }

  lemma {:induction false} EndOfStream(peer: Peer, s: State, rec: Bytes, cap: nat)
    requires peer.Valid() && s.Valid() && Frame(rec, cap) == Framed(APPDATA, rec, [])
    ensures Receive(peer.c, s, rec, cap, 0).s == Accept(peer.c, s, rec, 0).s
  {
    AcceptKeepsValid(peer.c, s, rec, 0);
    var r := Accept(peer.c, s, rec, 0);
    assert Receive(peer.c, r.s, [], cap, 0).s == r.s;
  }

  // ---- following the peer, then skipping ----

  /** How far the handling of record i goes to stay with the peer. */
  ghost function Stop(log: seq<Sent>, i: nat): (k: nat)
    requires i < |log| && StaysAt(log, i)
    ensures StopsAfter(log[i].Read(), k) && Landing(PosAt(log, i), k) == PosAt(log, i + 1)
  {
    var k :| StopsAfter(log[i].Read(), k) && Landing(PosAt(log, i), k) == PosAt(log, i + 1);
    k
  }

  ghost function AllReplies(log: seq<Sent>, i: nat, n: nat): seq<int>
    requires i <= n <= |log| && Reachable(log, n)
    decreases n - i
  {
    if i == n then [] else assert StaysAt(log, i); Replies(log[i].Read(), Stop(log, i)) + AllReplies(log, i + 1, n)
  }

  /** One call per record, in order, from record i to before record n. */
  ghost function Calls(peer: Peer, i: nat, n: nat): seq<Call>
    requires peer.Valid() && i <= n <= |peer.log|
  {
    seq(n - i, t requires 0 <= t < n - i => Delivery(peer, i + t))
  }

  function Firsts(log: seq<Sent>, n: nat): seq<Opened>
    requires n <= |log|
  {
    seq(n, i requires 0 <= i < n => log[i].AsOpened())
  }

  /** A peer whose first n records can be delivered one by one. */
  ghost predicate Course(peer: Peer, n: nat, scratchLen: nat) {
    && peer.Valid() && Numbered(peer.log) && NoAlerts(peer.log) && Sized(peer.log, scratchLen)
    && n <= |peer.log| && Reachable(peer.log, n)
  }

  /** Ready to be brought from record i to record n. */
  ghost predicate Ready(peer: Peer, s: State, i: nat, n: nat, more: seq<int>) {
    && peer.Valid() && i <= n <= |peer.log| && Reachable(peer.log, n)
    && Stands(peer, s, PosAt(peer.log, i), Firsts(peer.log, i), AllReplies(peer.log, i, n) + more)
  }

  lemma {:induction false} FirstCall(peer: Peer, s: State, i: nat, n: nat, scratchLen: nat)
    requires peer.Valid() && s.Valid() && i < n <= |peer.log|
    ensures Run(peer.c, s, Calls(peer, i, n), scratchLen) ==
            Run(peer.c, Do(peer.c, s, Delivery(peer, i), scratchLen), Calls(peer, i + 1, n), scratchLen)
  {
    assert Calls(peer, i, n) == [Delivery(peer, i)] + Calls(peer, i + 1, n);
    RunFirst(peer, s, Delivery(peer, i), Calls(peer, i + 1, n), scratchLen);
  }

  /** The calls that deliver records i up to n bring the receiver to where the peer sealed record n. */
  ghost predicate Arrives(peer: Peer, s: State, i: nat, n: nat, scratchLen: nat, more: seq<int>) {
    && peer.Valid() && s.Valid() && i <= n <= |peer.log|
    && Stands(peer, Run(peer.c, s, Calls(peer, i, n), scratchLen), PosAt(peer.log, n), Firsts(peer.log, n), more)
  }

  lemma {:induction false} ArrivesFirst(peer: Peer, s: State, i: nat, n: nat, scratchLen: nat, more: seq<int>)
    requires peer.Valid() && s.Valid() && i < n <= |peer.log|
    requires Arrives(peer, Do(peer.c, s, Delivery(peer, i), scratchLen), i + 1, n, scratchLen, more)
    ensures Arrives(peer, s, i, n, scratchLen, more)
  {
    FirstCall(peer, s, i, n, scratchLen);
  }

  lemma {:induction false} ArrivesHere(peer: Peer, s: State, n: nat, scratchLen: nat, more: seq<int>)
    requires Ready(peer, s, n, n, more)
    ensures Arrives(peer, s, n, n, scratchLen, more)
  {
    NoCalls(peer, s, n, scratchLen);
    assert [] + more == more;
  }

  ghost function ReadyFor(peer: Peer, n: nat, more: seq<int>): (State, nat) -> bool {
    (s: State, i: nat) => Ready(peer, s, i, n, more)
  }

  ghost function ArrivesFor(peer: Peer, n: nat, scratchLen: nat, more: seq<int>): (State, nat) -> bool {
    (s: State, i: nat) => Arrives(peer, s, i, n, scratchLen, more)
  }

  /** From ready to there, or on to a state that is ready and leads there. */
  ghost predicate Leads(ready: (State, nat) -> bool, there: (State, nat) -> bool, s: State, i: nat, n: nat) {
    ready(s, i) && i <= n ==> if i == n then there(s, i) else exists next :: LeadsBy(ready, there, s, i, next)
  }

  ghost predicate LeadsBy(ready: (State, nat) -> bool, there: (State, nat) -> bool, s: State, i: nat, next: State) {
    ready(next, i + 1) && (there(next, i + 1) ==> there(s, i))
  }

  lemma {:induction false} StepByStep(
      ready: (State, nat) -> bool, there: (State, nat) -> bool, s: State, i: nat, n: nat)
    requires i <= n && ready(s, i) && forall t, j: nat :: Leads(ready, there, t, j, n)
    ensures there(s, i)
    decreases n - i
  {
    assert Leads(ready, there, s, i, n);
    if i < n {
      var next :| LeadsBy(ready, there, s, i, next);
      StepByStep(ready, there, next, i + 1, n);
    }
  }

  lemma {:induction false} FollowsOne(peer: Peer, s: State, i: nat, n: nat, scratchLen: nat, more: seq<int>)
    requires Course(peer, n, scratchLen) && i < n && Ready(peer, s, i, n, more)
    ensures ReadyFor(peer, n, more)(Do(peer.c, s, Delivery(peer, i), scratchLen), i + 1)
  {
    assert StaysAt(peer.log, i);
    var k := Stop(peer.log, i);
    var rest := AllReplies(peer.log, i + 1, n) + more;
    assert s.answers == Replies(peer.log[i].Read(), k) + rest;
    CallReads(peer, s, i, scratchLen, k, rest);
    ReadyAt(peer, Do(peer.c, s, Delivery(peer, i), scratchLen), i, n, k, more);
  }

  lemma {:induction false} ReadyAt(peer: Peer, s: State, i: nat, n: nat, k: nat, more: seq<int>)
    requires peer.Valid() && i < n <= |peer.log| && Reachable(peer.log, n) && k == Stop(peer.log, i)
    requires Stands(peer, s, Landing(PosAt(peer.log, i), k), Firsts(peer.log, i) + [peer.log[i].AsOpened()],
                    AllReplies(peer.log, i + 1, n) + more)
    ensures ReadyFor(peer, n, more)(s, i + 1)
  {
    assert StaysAt(peer.log, i);
    FirstsGrow(peer.log, i);
  }

  lemma {:induction false} ArrivesBack(peer: Peer, s: State, i: nat, n: nat, scratchLen: nat, more: seq<int>)
    requires peer.Valid() && s.Valid() && i < n <= |peer.log|
    ensures var there := ArrivesFor(peer, n, scratchLen, more);
            there(Do(peer.c, s, Delivery(peer, i), scratchLen), i + 1) ==> there(s, i)
  {
    if Arrives(peer, Do(peer.c, s, Delivery(peer, i), scratchLen), i + 1, n, scratchLen, more) {
      ArrivesFirst(peer, s, i, n, scratchLen, more);
    }
  }

  /** If anything is left to deliver, deliver the next record. */
  lemma {:induction false} EachLeads(peer: Peer, s: State, i: nat, n: nat, scratchLen: nat, more: seq<int>)
    requires Course(peer, n, scratchLen)
    ensures Leads(ReadyFor(peer, n, more), ArrivesFor(peer, n, scratchLen, more), s, i, n)
  {
    if i == n && Ready(peer, s, n, n, more) {
      ArrivesHere(peer, s, n, scratchLen, more);
    } else if i < n && Ready(peer, s, i, n, more) {
      FollowsOne(peer, s, i, n, scratchLen, more);
      ArrivesBack(peer, s, i, n, scratchLen, more);
      assert LeadsBy(ReadyFor(peer, n, more), ArrivesFor(peer, n, scratchLen, more), s, i,
                     Do(peer.c, s, Delivery(peer, i), scratchLen));
    }
  }

  lemma {:induction false} Follows(peer: Peer, s: State, i: nat, n: nat, scratchLen: nat, more: seq<int>)
    requires Course(peer, n, scratchLen) && i <= n && Ready(peer, s, i, n, more)
    ensures Arrives(peer, s, i, n, scratchLen, more)
  {
    var ready, there := ReadyFor(peer, n, more), ArrivesFor(peer, n, scratchLen, more);
    forall t, j: nat ensures Leads(ready, there, t, j, n) {
      EachLeads(peer, t, j, n, scratchLen, more);
    }
    StepByStep(ready, there, s, i, n);
  }

  lemma {:induction false} NoCalls(peer: Peer, s: State, n: nat, scratchLen: nat)
    requires peer.Valid() && s.Valid() && n <= |peer.log|
    ensures Run(peer.c, s, Calls(peer, n, n), scratchLen) == s
  {
    assert Calls(peer, n, n) == [];
  }

  lemma {:induction false} FirstsGrow(log: seq<Sent>, n: nat)
    requires n < |log|
    ensures Firsts(log, n) + [log[n].AsOpened()] == Firsts(log, n + 1)
  {
  }

  lemma {:induction false} RunFirst(peer: Peer, s: State, call: Call, more: seq<Call>, scratchLen: nat)
    requires peer.c.Valid() && s.Valid()
    ensures Run(peer.c, s, [call] + more, scratchLen) ==
            Run(peer.c, Do(peer.c, s, call, scratchLen), more, scratchLen)
  {
    assert ([call] + more)[1..] == more;
  }

  lemma {:induction false} RunAppend(peer: Peer, s: State, calls: seq<Call>, more: seq<Call>, scratchLen: nat)
    requires peer.c.Valid() && s.Valid()
    ensures Run(peer.c, s, calls + more, scratchLen) ==
            Run(peer.c, Run(peer.c, s, calls, scratchLen), more, scratchLen)
    decreases calls
  {
    if calls == [] {
      assert [] + more == more;
    } else {
      assert (calls + more)[1..] == calls[1..] + more;
      RunAppend(peer, Do(peer.c, s, calls[0], scratchLen), calls[1..], more, scratchLen);
    }
  }

  /** Answers and calls that bring record j right behind record n. */
  ghost function SkipAnswers(log: seq<Sent>, n: nat, k: nat, j: nat): seq<int>
    requires n < |log| && j < |log| && Reachable(log, n) && k <= |log[n].Read()|
  {
    AllReplies(log, 0, n) + (Replies(log[n].Read(), k) + (Replies(log[j].Read(), |log[j].Read()|) + []))
  }

  ghost function SkipCalls(peer: Peer, n: nat, j: nat): seq<Call>
    requires peer.Valid() && n < |peer.log| && j < |peer.log|
  {
    Calls(peer, 0, n) + ([Delivery(peer, n)] + ([Delivery(peer, j)] + []))
  }

  /** If handling record n takes the receiver to where the peer seals record j, then a network that
      only drops records makes it authenticate j right behind n. */
  lemma {:induction false} Skips(peer: Peer, cs: Bytes, n: nat, k: nat, j: nat, scratchLen: nat)
    requires peer.Valid() && |cs| == HASH_SZ && Numbered(peer.log) && NoAlerts(peer.log)
             && Sized(peer.log, scratchLen)
    requires n < |peer.log| && j < |peer.log| && Reachable(peer.log, n) && StopsAfter(peer.log[n].Read(), k)
    requires Landing(PosAt(peer.log, n), k) == PosAt(peer.log, j)
    ensures var s := Established(peer.c, cs, peer.secret, SkipAnswers(peer.log, n, k, j));
            Run(peer.c, s, SkipCalls(peer, n, j), scratchLen).accepted ==
            Firsts(peer.log, n + 1) + [peer.log[j].AsOpened()]
  {
    var s := Established(peer.c, cs, peer.secret, SkipAnswers(peer.log, n, k, j));
    var last := Replies(peer.log[j].Read(), |peer.log[j].Read()|) + [];
    var call, call' := Delivery(peer, n), Delivery(peer, j);
    Follows(peer, s, 0, n, scratchLen, Replies(peer.log[n].Read(), k) + last);
    var s1 := Run(peer.c, s, Calls(peer, 0, n), scratchLen);
    var s3 := TwoCalls(peer, s1, n, k, j, scratchLen);
    RunAppend(peer, s, Calls(peer, 0, n), [call] + ([call'] + []), scratchLen);
  }

  lemma {:induction false} TwoCalls(peer: Peer, s: State, n: nat, k: nat, j: nat, scratchLen: nat) returns (t: State)
    requires peer.Valid() && Numbered(peer.log) && NoAlerts(peer.log) && Sized(peer.log, scratchLen)
    requires n < |peer.log| && j < |peer.log| && StopsAfter(peer.log[n].Read(), k)
    requires Landing(PosAt(peer.log, n), k) == PosAt(peer.log, j)
    requires Stands(peer, s, PosAt(peer.log, n), Firsts(peer.log, n),
                    Replies(peer.log[n].Read(), k) + (Replies(peer.log[j].Read(), |peer.log[j].Read()|) + []))
    ensures t == Run(peer.c, s, [Delivery(peer, n)] + ([Delivery(peer, j)] + []), scratchLen)
    ensures t.accepted == Firsts(peer.log, n + 1) + [peer.log[j].AsOpened()]
  {
    CallReads(peer, s, n, scratchLen, k, Replies(peer.log[j].Read(), |peer.log[j].Read()|) + []);
    FirstsGrow(peer.log, n);
    var next := Do(peer.c, s, Delivery(peer, n), scratchLen);
    CallReads(peer, next, j, scratchLen, |peer.log[j].Read()|, []);
    t := Do(peer.c, next, Delivery(peer, j), scratchLen);
    RunFirst(peer, next, Delivery(peer, j), [], scratchLen);
    RunFirst(peer, s, Delivery(peer, n), [Delivery(peer, j)] + [], scratchLen);
  }

  // ---- the exact condition ----

  /** No two records look the same to the application. */
  ghost predicate Distinct(log: seq<Sent>) {
    forall i, j :: 0 <= i < j < |log| ==> log[i].AsOpened() != log[j].AsOpened()
  }

  /** The ideal AEAD on the peer's own records. */
  ghost predicate WiresUnforged(peer: Peer)
    requires peer.Valid()
  {
    forall i :: 0 <= i < |peer.log| ==> Unforged(peer, Wire(peer, i))
  }

  lemma {:induction false} SkipUnforged(peer: Peer, n: nat, j: nat)
    requires peer.Valid() && WiresUnforged(peer) && n < |peer.log| && j < |peer.log|
    ensures UnforgedCalls(peer, SkipCalls(peer, n, j))
  {
    var calls := SkipCalls(peer, n, j);
    forall call | call in calls ensures Unforged(peer, call.stream) {
      var t :| 0 <= t < |calls| && calls[t] == call;
      assert call == Delivery(peer, if t < n then t else if t == n then n else j);
    }
  }

  /** A landing lies behind record n. */
  lemma {:induction false} LandsLater(log: seq<Sent>, n: nat, k: nat, j: nat)
    requires n < |log| && j < |log| && PosAt(log, j) == Landing(PosAt(log, n), k)
    ensures n < j
  {
    if j < n {
      PosIncreases(log, j, n);
    }
  }

  lemma {:induction false} UnsafeBreaks(peer: Peer, cs: Bytes, scratchLen: nat)
      returns (answers: seq<int>, calls: seq<Call>)
    requires peer.Valid() && |cs| == HASH_SZ && Numbered(peer.log) && NoAlerts(peer.log)
             && Sized(peer.log, scratchLen)
    requires Distinct(peer.log) && WiresUnforged(peer) && !Safe(peer.log)
    ensures UnforgedCalls(peer, calls)
    ensures !Prefix(peer.log, Run(peer.c, Established(peer.c, cs, peer.secret, answers), calls, scratchLen).accepted)
  {
    var log := peer.log;
    var n, k :| 0 <= n < |log| && Reachable(log, n) && StopsAfter(log[n].Read(), k) && !SafeAt(log, n, k);
    var j :| 0 <= j < |log| && PosAt(log, j) == Landing(PosAt(log, n), k);
    answers, calls := SkipAnswers(log, n, k, j), SkipCalls(peer, n, j);
    assert UnforgedCalls(peer, calls) by { SkipUnforged(peer, n, j); }
    Skips(peer, cs, n, k, j, scratchLen);
    assert !Prefix(log, Firsts(log, n + 1) + [log[j].AsOpened()]) by {
      LandsLater(log, n, k, j);
      NotNext(log, n, j);
    }
  }

  lemma {:induction false} NotNext(log: seq<Sent>, n: nat, j: nat)
    requires n + 1 < j < |log| && Distinct(log)
    ensures !Prefix(log, Firsts(log, n + 1) + [log[j].AsOpened()])
  {
    assert (Firsts(log, n + 1) + [log[j].AsOpened()])[n + 1] == log[j].AsOpened() != log[n + 1].AsOpened();
  }

  /** The records authenticated in every run are a prefix of the peer's exactly if the peer's log is
      safe. */
  lemma {:induction false} IntegrityExact(peer: Peer, cs: Bytes, scratchLen: nat)
    requires peer.Valid() && |cs| == HASH_SZ && Numbered(peer.log) && NoAlerts(peer.log)
             && Sized(peer.log, scratchLen)
    requires Distinct(peer.log) && WiresUnforged(peer)
    ensures Safe(peer.log) <==>
            forall answers, calls :: UnforgedCalls(peer, calls) ==>
              Prefix(peer.log, Run(peer.c, Established(peer.c, cs, peer.secret, answers), calls, scratchLen).accepted)
  {
    if Safe(peer.log) {
      forall answers, calls | UnforgedCalls(peer, calls)
        ensures Prefix(peer.log,
                Run(peer.c, Established(peer.c, cs, peer.secret, answers), calls, scratchLen).accepted)
      {
        AcceptedIsPrefix(peer, cs, answers, calls, scratchLen);
      }
    } else {
      var answers, calls := UnsafeBreaks(peer, cs, scratchLen);
    }
  }
}

/** Which peers keep the order, and one that the RFC allows and that does not. */
module PeerRules {
  import opened Base
  import opened Crypto
  import opened Record
  import opened KeySchedule
  import opened SessionSpec
  import opened PostMessages
  import opened Extensions
  import opened InOrder
  import opened InOrderExact

  // ---- peers that keep post-handshake messages whole ----

  ghost predicate WholeAt(sent: Sent) {
    if sent.ty == HANDSHAKE then
      exists bodies, update ::
        Encodable(bodies) && sent.content == PostHandshake(bodies, update) && sent.rekey == update.Some?
    else !sent.rekey
  }

  /** No message is split over records, a KeyUpdate ends its record, and the peer changes keys right
      after it, and only then. */
  ghost predicate Whole(log: seq<Sent>) {
    forall i :: 0 <= i < |log| ==> WholeAt(log[i])
  }

  /** The receiver reads exactly the key changes that the peer makes. */
  predicate Aligned(sent: Sent) { |sent.Read()| == if sent.rekey then 1 else 0 }

  lemma {:induction false} WholeIsAligned(sent: Sent)
    requires WholeAt(sent)
    ensures Aligned(sent)
  {
    if sent.ty == HANDSHAKE {
      var bodies, update :|
        Encodable(bodies) && sent.content == PostHandshake(bodies, update) && sent.rekey == update.Some?;
      UpdatesPostHandshake(bodies, update);
    }
  }

  lemma {:induction false} WholeIsSafe(log: seq<Sent>)
    requires Whole(log)
    ensures Safe(log)
  {
    forall n, k | 0 <= n < |log| && Reachable(log, n) && StopsAfter(log[n].Read(), k) ensures SafeAt(log, n, k) {
      WholeIsAligned(log[n]);
    }
  }

  /** With such a peer the records authenticated in every run are a prefix of those it sealed. */
  lemma {:induction false} WholePeerInOrder(
      peer: Peer, cs: Bytes, answers: seq<int>, calls: seq<Call>, scratchLen: nat)
    requires peer.Valid() && |cs| == HASH_SZ && Numbered(peer.log) && Whole(peer.log) && UnforgedCalls(peer, calls)
    ensures Prefix(peer.log, Run(peer.c, Established(peer.c, cs, peer.secret, answers), calls, scratchLen).accepted)
  {
    WholeIsSafe(peer.log);
    AcceptedIsPrefix(peer, cs, answers, calls, scratchLen);
  }

  /** One step: if no reply and no derivation fails, the receiver is where the peer is next exactly if
      it read as many key changes in the record as the peer made. */
  lemma {:induction false} StepExact(peer: Peer, n: nat, s: State, outCap: nat)
    requires peer.Valid() && n < |peer.log| && peer.log[n].ty != 0 && s.rx == peer.At(PosAt(peer.log, n))
    requires var h := s.rx;
             OpenRecord(peer.c, h.key, h.iv, h.SeqNo(), Wire(peer, n)) == peer.log[n].AsOpened()
    requires Accept(peer.c, s, Wire(peer, n), outCap).code != Code.Crypto
    ensures Accept(peer.c, s, Wire(peer, n), outCap).s.rx == peer.At(PosAt(peer.log, n + 1)) <==> Aligned(peer.log[n])
  {
    var sent, p := peer.log[n], PosAt(peer.log, n);
    var next := Advanced(s, sent.AsOpened());
    assert next.rx == peer.At(Pos(p.epoch, p.count + 1));
    var k := DispatchLands(peer, next, sent, outCap);
  }

  // ---- a peer that splits a ticket ----

  /** A NewSessionTicket (section 4.6.1 of RFC 8446): lifetime, age_add, nonce, ticket, extensions. */
  function TicketBody(lifetime: Bytes, ageAdd: Bytes, nonce: Bytes, ticket: Bytes, exts: seq<RawExt>): Bytes {
    lifetime + ageAdd + Vec(1, nonce) + Vec(2, ticket) + Vec(2, EncodeRaw(exts))
  }

  ghost predicate TicketOf(
      msg: Bytes, lifetime: Bytes, ageAdd: Bytes, nonce: Bytes, ticket: Bytes, exts: seq<RawExt>)
  {
    var body := TicketBody(lifetime, ageAdd, nonce, ticket, exts);
    && |lifetime| == 4 && |ageAdd| == 4 && |nonce| < 0x100 && 0 < |ticket| < 0x1_0000
    && (forall e <- exts :: e.Valid()) && |EncodeRaw(exts)| < 0xFFFF
    && |body| < 0x100_0000 && msg == Message(NEW_SESSION_TICKET, body)
  }

  ghost predicate IsTicket(msg: Bytes) {
    exists lifetime, ageAdd, nonce, ticket, exts :: TicketOf(msg, lifetime, ageAdd, nonce, ticket, exts)
  }

  /** A ticket with one unknown extension whose value looks like a KeyUpdate. */
  const GREASE: RawExt := RawExt(0xFAFA, KU_REPLY)
  const FIRST_PART: Bytes :=
    [NEW_SESSION_TICKET, 0, 0, 23, 0, 0, 0, 9, 0, 0, 0, 7, 0, 0, 1, 5, 0, 9, 0xFA, 0xFA, 0, 5]

  lemma {:induction false} GreaseBlock()
    ensures EncodeRaw([GREASE]) == [0xFA, 0xFA, 0, 5] + KU_REPLY
  {
    assert [GREASE][1..] == [];
    assert U16(0xFAFA) == [0xFA, 0xFA] by { BeBytes(0xFAFA); }
    assert U16(5) == [0, 5] by { BeBytes(5); }
  }

  lemma {:induction false} GreaseVectors()
    ensures Vec(1, []) == [0] && Vec(2, [5]) == [0, 1, 5]
    ensures Vec(2, EncodeRaw([GREASE])) == [0, 9, 0xFA, 0xFA, 0, 5] + KU_REPLY
  {
    GreaseBlock();
    assert Be(1, 0) == [0] by { BeBytes(0); }
    assert U16(1) == [0, 1] by { BeBytes(1); }
    assert U16(9) == [0, 9] by { BeBytes(9); }
  }

  lemma {:induction false} GreaseTicket()
    ensures TicketBody([0, 0, 0, 9], [0, 0, 0, 7], [], [5], [GREASE]) == FIRST_PART[4..] + KU_REPLY
  {
    GreaseVectors();
    assert FIRST_PART[4..] == [0, 0, 0, 9, 0, 0, 0, 7] + [0] + [0, 1, 5] + [0, 9, 0xFA, 0xFA, 0, 5];
  }

  lemma {:induction false} TicketHeader(body: Bytes)
    requires |body| == 23
    ensures Message(NEW_SESSION_TICKET, body) == [NEW_SESSION_TICKET, 0, 0, 23] + body
  {
    BeBytes(23);
  }

  lemma {:induction false} SplitTicketIsTicket()
    ensures IsTicket(FIRST_PART + KU_REPLY)
  {
    var rest := FIRST_PART[4..];
    GreaseTicket();
    GreaseBlock();
    TicketHeader(rest + KU_REPLY);
    assert FIRST_PART + KU_REPLY == [NEW_SESSION_TICKET, 0, 0, 23] + (rest + KU_REPLY) by {
      assert FIRST_PART == [NEW_SESSION_TICKET, 0, 0, 23] + rest;
      Assoc([NEW_SESSION_TICKET, 0, 0, 23], rest, KU_REPLY);
    }
    assert TicketOf(FIRST_PART + KU_REPLY, [0, 0, 0, 9], [0, 0, 0, 7], [], [5], [GREASE]);
  }

  /** The peer sends that ticket in two records, then data, a key change, and data again. */
  function SplitLog(x: Bytes, y: Bytes): seq<Sent> {
    [Sent(HANDSHAKE, FIRST_PART, 0, false), Sent(HANDSHAKE, KU_REPLY, 0, false), Sent(APPDATA, x, 0, false),
     Sent(HANDSHAKE, UpdateMsg(false), 0, true), Sent(APPDATA, y, 0, false)]
  }

  lemma {:induction false} SplitReads(x: Bytes, y: Bytes)
    ensures var log := SplitLog(x, y);
            log[0].Read() == [] && log[1].Read() == [false] && log[4].Read() == []
  {
    assert GetU24(FIRST_PART, 1) == 23;
    assert GetU24(KU_REPLY, 1) == 1 && KU_REPLY[5..] == [] && Updates([]) == [];
  }

  lemma {:induction false} SplitPositions(x: Bytes, y: Bytes)
    ensures var log := SplitLog(x, y);
            && PosAt(log, 0) == Pos(0, 0) && PosAt(log, 1) == Pos(0, 1) && PosAt(log, 2) == Pos(0, 2)
            && PosAt(log, 3) == Pos(0, 3) && PosAt(log, 4) == Pos(1, 0) && PosAt(log, 5) == Pos(1, 1)
  {
    var log := SplitLog(x, y);
    assert PosAt(log, 2) == Pos(0, 2) by { assert PosAt(log, 1) == Pos(0, 1); }
    assert PosAt(log, 4) == Pos(1, 0) by { assert PosAt(log, 3) == Pos(0, 3); }
  }

  lemma {:induction false} SplitShape(x: Bytes, y: Bytes, scratchLen: nat)
    requires |x| <= MAX_PLAINTEXT && |y| <= MAX_PLAINTEXT
    requires |x| + OVERHEAD <= scratchLen && |y| + OVERHEAD <= scratchLen && 2048 <= scratchLen
    ensures var log := SplitLog(x, y);
            && Numbered(log) && NoAlerts(log) && Sized(log, scratchLen) && Reachable(log, 1)
            && StopsAfter(log[1].Read(), 1) && Landing(PosAt(log, 1), 1) == PosAt(log, 4)
  {
    var log := SplitLog(x, y);
    SplitReads(x, y);
    SplitPositions(x, y);
    assert Landing(PosAt(log, 0), 0) == PosAt(log, 1) && StopsAfter(log[0].Read(), 0);
    assert StaysAt(log, 0);
    forall i | 0 <= i <= 5 ensures CountsAt(log, i) {
      assert i == 0 || i == 1 || i == 2 || i == 3 || i == 4 || i == 5;
    }
  }

  /** Over a network that drops records 2 and 3, the receiver authenticates y right behind the
      ticket: x is skipped, with every suite and however the application calls. */
  lemma {:induction false} SplitTicketSkips(c: Suite, secret: Bytes, cs: Bytes, x: Bytes, y: Bytes, scratchLen: nat)
    returns (answers: seq<int>, calls: seq<Call>)
    requires c.Valid() && c.KdfTotal() && |secret| == HASH_SZ && |cs| == HASH_SZ
    requires x != y && |x| <= MAX_PLAINTEXT && |y| <= MAX_PLAINTEXT
    requires |x| + OVERHEAD <= scratchLen && |y| + OVERHEAD <= scratchLen && 2048 <= scratchLen
    ensures var peer := Peer(c, secret, SplitLog(x, y));
            && IsTicket(peer.log[0].content + peer.log[1].content)
            && calls == [Delivery(peer, 0), Delivery(peer, 1), Delivery(peer, 4)]
            && !Prefix(peer.log, Run(c, Established(c, cs, secret, answers), calls, scratchLen).accepted)
  {
    var peer := Peer(c, secret, SplitLog(x, y));
    SplitTicketIsTicket();
    SplitShape(x, y, scratchLen);
    answers, calls := SkipsOver(peer, cs, 1, 1, 4, scratchLen);
    ThreeCalls(peer);
    NotPrefix(peer.log, x, y);
  }

  lemma {:induction false} SkipsOver(peer: Peer, cs: Bytes, n: nat, k: nat, j: nat, scratchLen: nat)
    returns (answers: seq<int>, calls: seq<Call>)
    requires peer.Valid() && |cs| == HASH_SZ && Numbered(peer.log) && NoAlerts(peer.log)
             && Sized(peer.log, scratchLen)
    requires n < |peer.log| && j < |peer.log| && Reachable(peer.log, n) && StopsAfter(peer.log[n].Read(), k)
    requires Landing(PosAt(peer.log, n), k) == PosAt(peer.log, j)
    ensures calls == SkipCalls(peer, n, j)
    ensures Run(peer.c, Established(peer.c, cs, peer.secret, answers), calls, scratchLen).accepted ==
            Firsts(peer.log, n + 1) + [peer.log[j].AsOpened()]
  {
    answers, calls := SkipAnswers(peer.log, n, k, j), SkipCalls(peer, n, j);
    Skips(peer, cs, n, k, j, scratchLen);
  }

  lemma {:induction false} ThreeCalls(peer: Peer)
    requires peer.Valid() && |peer.log| > 4
    ensures SkipCalls(peer, 1, 4) == [Delivery(peer, 0), Delivery(peer, 1), Delivery(peer, 4)]
  {
    assert Calls(peer, 0, 1) == [Delivery(peer, 0)];
  }

  lemma {:induction false} NotPrefix(log: seq<Sent>, x: Bytes, y: Bytes)
    requires x != y && log == SplitLog(x, y)
    ensures !Prefix(log, Firsts(log, 2) + [log[4].AsOpened()])
  {
    assert (Firsts(log, 2) + [log[4].AsOpened()])[2] == Opened(APPDATA, y) != log[2].AsOpened();
  }
}

/** The ideal AEAD that these theorems ask for can hold in a run that authenticates a record. */
module IdealAead {
  import opened Base
  import opened Crypto
  import opened Record
  import opened KeySchedule
  import opened SessionSpec
  import opened InOrder
  import opened InOrderExact
  import opened PeerRules

  /** A peer that sends one byte of data, over the toy suite. */
  function OnePeer(): Peer { Peer(Example(), Zeros(HASH_SZ), [Sent(APPDATA, [7], 0, false)]) }

  lemma {:induction false} OneRecord() returns (iv: Bytes)
    ensures OnePeer().Valid() && |iv| == IV_SZ && iv == IvOf(Example(), Zeros(HASH_SZ))
    ensures Wire(OnePeer(), 0) == [APPDATA, 3, 3, 0, 18, 7, APPDATA] + Tag(Nonce(iv, 0))
  {
    DemandsConsistent();
    iv := Zeros(IV_SZ);
    assert [7] + [APPDATA] + Zeros(0) == [7, APPDATA];
    assert Wire(OnePeer(), 0) == Header(2) + ([7, APPDATA] + Tag(Nonce(iv, 0)));
    OneRecordBytes(Tag(Nonce(iv, 0)));
  }

  lemma {:induction false} OneRecordBytes(tag: Bytes)
    ensures Header(2) + ([7, APPDATA] + tag) == [APPDATA, 3, 3, 0, 18, 7, APPDATA] + tag
  {
    BeBytes(18);
    assert Header(2) == [APPDATA, 3, 3, 0, 18];
  }

  /** The only part of that record that frames as a record and is long enough is itself. */
  lemma {:induction false} OnlyWhole(tag: Bytes, a: nat, b: nat)
    requires |tag| == TAG_SZ && a <= b <= 23
    requires var wire := [APPDATA, 3, 3, 0, 18, 7, APPDATA] + tag;
             Frames(wire[a..b]) && b - a >= HEADER_SZ + TAG_SZ
    ensures a == 0 && b == 23
  {
    var wire := [APPDATA, 3, 3, 0, 18, 7, APPDATA] + tag;
    var rec := wire[a..b];
    assert rec[3] == wire[a + 3] && rec[4] == wire[a + 4];
  }

  lemma {:induction false} TagDetermines(m: Bytes, n: Bytes)
    requires |m| == IV_SZ && |n| == IV_SZ && Tag(m) == Tag(n)
    ensures m == n
  {
    assert Tag(m)[..IV_SZ] == m && Tag(n)[..IV_SZ] == n;
  }

  lemma {:induction false} OneRecordGenuine()
    requires OnePeer().Valid()
    ensures Genuine(OnePeer(), Wire(OnePeer(), 0))
  {
    var peer := OnePeer();
    var iv := OneRecord();
    var wire := Wire(peer, 0);
    forall p: Pos | Known(peer.log, p.epoch) && p.count < WORD64 ensures GenuineAt(peer, p, wire) {
      assert p.epoch == 0;
      var h := peer.At(p);
      if OpenInner(peer.c, h.key, h.iv, h.SeqNo(), wire).Some? {
        var ct := wire[HEADER_SZ..];
        assert ct == [7, APPDATA] + Tag(Nonce(iv, 0));
        assert ct[2..] == Tag(Nonce(iv, 0)) && ct[..2] == [7, APPDATA] == peer.log[0].Inner();
        TagDetermines(Nonce(iv, 0), Nonce(h.iv, h.SeqNo()));
        assert Sealed(peer.log, 0, h, ct[..2]);
      }
    }
  }

  lemma {:induction false} OneRecordUnforged()
    requires OnePeer().Valid()
    ensures Unforged(OnePeer(), Wire(OnePeer(), 0))
  {
    var peer := OnePeer();
    var iv := OneRecord();
    var wire := Wire(peer, 0);
    forall a, b | 0 <= a <= b <= |wire| && Frames(wire[a..b]) ensures Genuine(peer, wire[a..b]) {
      if b - a >= HEADER_SZ + TAG_SZ {
        OnlyWhole(Tag(Nonce(iv, 0)), a, b);
        assert wire[0..23] == wire;
        OneRecordGenuine();
      }
    }
  }

  lemma {:induction false} OnePeerPositions()
    ensures PosAt(OnePeer().log, 0) == Pos(0, 0) && PosAt(OnePeer().log, 1) == Pos(0, 1)
  {
  }

  lemma {:induction false} OnePeerNumbered()
    ensures Numbered(OnePeer().log)
  {
    var log := OnePeer().log;
    OnePeerPositions();
    forall i | 0 <= i <= |log| ensures CountsAt(log, i) {
      assert i == 0 || i == 1;
    }
  }

  lemma {:induction false} OnePeerShape(scratchLen: nat)
    requires 2048 <= scratchLen
    ensures var log := OnePeer().log;
            Whole(log) && NoAlerts(log) && Sized(log, scratchLen) && Distinct(log)
  {
  }

  lemma {:induction false} ReadsOne(cs: Bytes, scratchLen: nat)
    requires |cs| == HASH_SZ && 2048 <= scratchLen && OnePeer().Valid() && Numbered(OnePeer().log)
    ensures var peer := OnePeer();
            var s := Established(peer.c, cs, peer.secret, []);
            Receive(peer.c, s, Wire(peer, 0), scratchLen, 1).out == Some([7])
  {
    WireOpens(OnePeer(), 0, scratchLen);
  }

  /** Everything that the theorems of InOrder assume holds together, and the session returns the
      peer's data. */
  lemma {:induction false} AssumptionsMet(cs: Bytes, scratchLen: nat)
    requires |cs| == HASH_SZ && 2048 <= scratchLen
    ensures var peer := OnePeer();
            && peer.Valid() && Numbered(peer.log) && Whole(peer.log) && Safe(peer.log)
            && NoAlerts(peer.log) && Sized(peer.log, scratchLen) && Distinct(peer.log) && WiresUnforged(peer)
            && var s := Established(peer.c, cs, peer.secret, []);
               Receive(peer.c, s, Wire(peer, 0), scratchLen, 1).out == Some([7])
  {
    var peer := OnePeer();
    DemandsConsistent();
    OnePeerNumbered();
    OnePeerShape(scratchLen);
    assert WiresUnforged(peer) by { OneRecordUnforged(); }
    assert Safe(peer.log) by { WholeIsSafe(peer.log); }
    ReadsOne(cs, scratchLen);
  }
}
