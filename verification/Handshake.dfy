/** The parts of a handshake that both connect calls of src/wn_connect.c share. */
module Handshake {
  import opened Base
  import opened Crypto
  import opened Transport
  import opened Record
  import opened KeySchedule
  import opened HelloBuilder
  import opened Messages
  import opened Flight
  import opened PskReader
  import Division
  import Session
  import Spec = SessionSpec
  import SH = ServerHello

  /** What the random source and the key share provide; agree is the shared secret for a server
      share. */
  datatype Entropy = Entropy(random: Bytes, sid: Bytes, pub: Bytes, agree: Bytes -> Option<Bytes>)
  {
    predicate Valid(cfg: Config) { |random| == 32 && |sid| == 32 && |pub| == cfg.group.PubSz() }
  }

  /** The suite, the build and what it drew for this handshake. */
  datatype Client = Client(c: Suite, cfg: Config, e: Entropy)

  /** The early secret, the ClientHello sent, and the PSK identity the server must select, -1 for
      none. */
  datatype Offer = Offer(early: Bytes, ch: Bytes, psk: int)

  // ---- sending the hello ----

  function PlainHeader(ty: Byte, n: nat): Bytes { [ty, 0x03, 0x03] + U16(n) }

  /** The transport took these buffers whole. */
  predicate Taken(answers: seq<int>, bufs: seq<Bytes>) {
    |bufs| <= |answers| && forall i :: 0 <= i < |bufs| ==> answers[i] == |bufs[i]|
  }

  /** A ClientHello record and the compatibility change_cipher_spec. */
  function HelloBuffers(ch: Bytes): (r: seq<Bytes>)
    ensures |r| == 4
  {
    [PlainHeader(HANDSHAKE, |ch|), ch, PlainHeader(CHANGE_CIPHER, 1), [1]]
  }

  method SendPlain(io: Channel, ty: Byte, body: Bytes) returns (ret: Code, ghost sent: seq<Bytes>)
    modifies io`answers, io`outgoing
    ensures io.outgoing == old(io.outgoing) + sent && sent <= [PlainHeader(ty, |body|), body]
    ensures ret == Success <==> Taken(old(io.answers), [PlainHeader(ty, |body|), body])
    ensures ret == Success ==> |sent| == 2 && io.answers == old(io.answers)[2..]
  {
    var hdr := PlainHeader(ty, |body|);
    var r := io.Send(hdr);
    sent := [hdr];
    if r != 5 {
      return Code.Crypto, sent;
    }
    r := io.Send(body);
    sent := [hdr, body];
    ret := if r == |body| then Success else Code.Crypto;
  }

  method SendHello(io: Channel, ch: Bytes) returns (ret: Code, ghost sent: seq<Bytes>)
    modifies io`answers, io`outgoing
    ensures io.outgoing == old(io.outgoing) + sent && sent <= HelloBuffers(ch)
    ensures ret == Success <==> Taken(old(io.answers), HelloBuffers(ch))
    ensures ret == Success ==> sent == HelloBuffers(ch) && io.answers == old(io.answers)[4..]
  {
    ret, sent := SendPlain(io, HANDSHAKE, ch);
    if ret == Success {
      ghost var more;
      assert sent == HelloBuffers(ch)[..2];
      ret, more := SendPlain(io, CHANGE_CIPHER, [1]);
      sent := sent + more;
    }
  }

  /** The two buffers of the hello are one record that frames back to it exactly while the hello is
      no longer than the code's own limit for a record; a longer one has an illegal or truncated
      length field. (Section 5.1 of RFC 8446 already forbids plaintext records above 2^14 bytes.) */
  lemma {:induction false} HelloFrames(ch: Bytes, rest: Bytes, cap: nat)
    requires ch != [] && HEADER_SZ + |ch| <= cap
    ensures var rec := PlainHeader(HANDSHAKE, |ch|) + ch;
            Frame(rec + rest, cap) == Framed(HANDSHAKE, rec, rest) <==> |ch| <= MAX_PLAINTEXT + 256
  {
    var n := |ch|;
    var rec := PlainHeader(HANDSHAKE, n) + ch;
    var stream := rec + rest;
    BeBytes(n);
    assert stream[3] == n / 256 % 256 && stream[4] == n % 256;
    assert stream[..|rec|] == rec && stream[|rec|..] == rest;
    if n < 0x1_0000 {
      assert GetU16(stream, 3) == n;
    } else {
      assert GetU16(stream, 3) < n;
    }
  }

  // ---- the ServerHello ----

  datatype Found = Found(msg: Bytes, rest: Bytes)

  /** The first record that is not a change_cipher_spec must be a handshake record; its fragment is
      the ServerHello. */
  ghost function FindHello(stream: Bytes, cap: nat): Option<Found>
    decreases |stream|
  {
    match Frame(stream, cap)
    case NoRecord(_) => None
    case Framed(ty, rec, rest) =>
      if ty == CHANGE_CIPHER then FindHello(rest, cap)
      else if ty == HANDSHAKE then Some(Found(rec[HEADER_SZ..], rest))
      else None
  }

  method ReceiveHello(io: Channel, scratch: array<Byte>, cap: nat) returns (ret: Code, msg: Bytes)
    requires HEADER_SZ <= cap <= scratch.Length && cap <= MAX_BUFFER
    modifies io`incoming, scratch
    ensures FindHello(Stream(old(io.incoming)), cap) ==
            if ret == Success then Some(Found(msg, Stream(io.incoming))) else None
    ensures |msg| <= MAX_BUFFER
  {
    var rtype, recLen;
    msg := [];
    ret, rtype, recLen := RecvRecord(io, scratch, cap);
    ghost var goal := FindHello(Stream(old(io.incoming)), cap);
    while ret == Success && rtype == CHANGE_CIPHER
      invariant ret == Success && rtype == CHANGE_CIPHER ==> goal == FindHello(Stream(io.incoming), cap)
      invariant ret == Success && rtype != CHANGE_CIPHER ==>
                  && HEADER_SZ <= recLen <= cap
                  && goal == if rtype == HANDSHAKE then Some(Found(scratch[HEADER_SZ..recLen], Stream(io.incoming)))
                             else None
      invariant ret != Success ==> goal == None
      decreases if ret == Success && rtype == CHANGE_CIPHER then 1 + |Stream(io.incoming)| else 0
    {
      ghost var f := Frame(Stream(io.incoming), cap);
      ret, rtype, recLen := RecvRecord(io, scratch, cap);
      assert ret == Success ==> f.rec[HEADER_SZ..] == scratch[HEADER_SZ..recLen];
    }
    if ret == Success && rtype != HANDSHAKE {
      ret := UnexpectedMsg;
    }
    if ret == Success {
      msg := scratch[HEADER_SZ..recLen];
    }
  }

  /** What the client accepts in a ServerHello; psk is the identity it must select, -1 for none. */
  predicate ParamsOk(f: SH.Fields, cfg: Config, sid: Bytes, psk: int) {
    && f.keyShare.Some? && |f.keyShare.value| == cfg.group.ServerShareSz()
    && f.cipher == 0x1301 && f.version == 0x0304 && f.group == cfg.group.Id()
    && f.psk == psk
    && |f.sessionId| == 32 && f.sessionId == sid
  }

  /** The shared secret a ServerHello leads to. */
  function Agreed(cfg: Config, e: Entropy, psk: int, sh: Bytes): Option<Bytes> {
    match SH.ParseSpec(sh)
    case Parsed(f) => if ParamsOk(f, cfg, e.sid, psk) then e.agree(f.keyShare.value) else None
    case _ => None
  }

  method CheckHello(cfg: Config, e: Entropy, psk: int, sh: Bytes) returns (ret: Code, ecdhe: Bytes)
    requires |sh| <= MAX_BUFFER
    ensures Agreed(cfg, e, psk, sh) == if ret == Success then Some(ecdhe) else None
  {
    ecdhe := [];
    var parsed := SH.Parse(sh);
    if parsed.Rejected? {
      return InvalidArg, ecdhe;
    }
    if parsed.HelloRetry? {
      return Unsupported, ecdhe;
    }
    var f := parsed.fields;
    if f.keyShare.None? || |f.keyShare.value| != cfg.group.ServerShareSz() || f.cipher != 0x1301
       || f.version != 0x0304 || f.group != cfg.group.Id() || f.psk != psk
       || |f.sessionId| != 32 || f.sessionId != e.sid {
      return IllegalParam, ecdhe;
    }
    var shared := e.agree(f.keyShare.value);
    if shared.None? {
      return Code.Crypto, ecdhe;
    }
    ret, ecdhe := Success, shared.value;
  }

  /** A hello that leads to a shared secret is the encoding of one with the right parameters. */
  lemma {:induction false} HelloMeans(cfg: Config, e: Entropy, psk: int, sh: Bytes) returns (h: SH.Hello)
    requires Agreed(cfg, e, psk, sh).Some?
    ensures h.Valid() && h.Encode() == sh && ParamsOk(SH.Report(h), cfg, e.sid, psk)
    ensures Agreed(cfg, e, psk, sh) == e.agree(SH.Report(h).keyShare.value)
  {
    var f := SH.ParseSpec(sh).fields;
    SH.ParserExact(sh, f);
    h :| h.Valid() && h.Encode() == sh && f == SH.Report(h);
  }

  // ---- the handshake keys ----

  datatype Negotiated = Negotiated(sh: Bytes, ecdhe: Bytes, keys: HsKeys, rest: Bytes)

  /** From the ClientHello and the server's bytes to the handshake keys. */
  ghost function Negotiate(cl: Client, o: Offer, stream: Bytes, cap: nat): Option<Negotiated> {
    match FindHello(stream, cap)
    case None => None
    case Some(Found(sh, rest)) => NegotiateWith(cl, o, sh, rest)
  }

  /** The same from the ServerHello. */
  function NegotiateWith(cl: Client, o: Offer, sh: Bytes, rest: Bytes): Option<Negotiated> {
    match Agreed(cl.cfg, cl.e, o.psk, sh)
    case None => None
    case Some(ecdhe) =>
      var th := cl.c.hash(o.ch + sh);
      if HandshakeFails(cl.c, o.early, ecdhe, th) then None
      else Some(Negotiated(sh, ecdhe, HandshakeKeys(cl.c, o.early, ecdhe, th), rest))
  }

  method NegotiateKeys(cl: Client, o: Offer, io: Channel, scratch: array<Byte>, cap: nat)
    returns (ret: Code, transcript: Bytes, keys: HsKeys, ghost n: Option<Negotiated>)
    requires cl.c.Valid() && HEADER_SZ <= cap <= scratch.Length && cap <= MAX_BUFFER
    modifies io`incoming, scratch
    ensures n == Negotiate(cl, o, Stream(old(io.incoming)), cap) && (ret == Success <==> n.Some?)
    ensures ret == Success ==>
              transcript == o.ch + n.value.sh && keys == n.value.keys && keys.Sized()
                && Stream(io.incoming) == n.value.rest
  {
    transcript, keys, n := o.ch, HsKeys([], [], [], [], [], [], []), None;
    var msg;
    ret, msg := ReceiveHello(io, scratch, cap);
    if ret == Success {
      n := NegotiateWith(cl, o, msg, Stream(io.incoming));
      ret, transcript, keys := KeysFromHello(cl, o, msg, Stream(io.incoming));
    }
  }

  method KeysFromHello(cl: Client, o: Offer, sh: Bytes, ghost rest: Bytes)
    returns (ret: Code, transcript: Bytes, keys: HsKeys)
    requires cl.c.Valid() && |sh| <= MAX_BUFFER
    ensures var n := NegotiateWith(cl, o, sh, rest);
            && (ret == Success <==> n.Some?)
            && (n.Some? ==> n.value.sh == sh && n.value.rest == rest && keys == n.value.keys && keys.Sized())
    ensures ret == Success ==> transcript == o.ch + sh
  {
    transcript, keys := o.ch, HsKeys([], [], [], [], [], [], []);
    var ecdhe;
    ret, ecdhe := CheckHello(cl.cfg, cl.e, o.psk, sh);
    if ret == Success {
      transcript := transcript + sh;
      ret, keys := DeriveHsKeys(cl.c, o.early, ecdhe, cl.c.hash(transcript));
    }
  }

  /** What negotiation means: the hello is the encoding of one with the right parameters, and the keys
      are those of the early secret, the agreed secret and both hellos. */
  ghost predicate NegotiatedAs(cl: Client, o: Offer, sh: Bytes, ecdhe: Bytes, keys: HsKeys, h: SH.Hello) {
    && h.Valid() && h.Encode() == sh && ParamsOk(SH.Report(h), cl.cfg, cl.e.sid, o.psk)
    && cl.e.agree(SH.Report(h).keyShare.value) == Some(ecdhe)
    && keys == HandshakeKeys(cl.c, o.early, ecdhe, cl.c.hash(o.ch + sh))
  }

  lemma {:induction false} NegotiatedMeans(cl: Client, o: Offer, stream: Bytes, cap: nat) returns (h: SH.Hello)
    requires Negotiate(cl, o, stream, cap).Some?
    ensures var n := Negotiate(cl, o, stream, cap).value; NegotiatedAs(cl, o, n.sh, n.ecdhe, n.keys, h)
  {
    h := HelloMeans(cl.cfg, cl.e, o.psk, Negotiate(cl, o, stream, cap).value.sh);
  }

  // ---- the client's Finished ----

  function FinishedMsg(c: Suite, cHs: Bytes, th: Bytes): Bytes { Message(FINISHED, FinishedMac(c, cHs, th)) }

  function FinishedRecord(c: Suite, keys: HsKeys, th: Bytes): Bytes
    requires |keys.cIv| == IV_SZ
  {
    SealRecord(c, keys.cKey, keys.cIv, 0, HANDSHAKE, FinishedMsg(c, keys.cHs, th))
  }

  const FINISHED_RECORD_SZ: nat := HEADER_SZ + 36 + 1 + TAG_SZ

  /** Seal and send the Finished; `used` says whether sequence number 0 was consumed. */
  method SendFinished(c: Suite, keys: HsKeys, th: Bytes, io: Channel, scratch: array<Byte>)
      returns (ret: Code, used: bool)
    requires c.Valid() && |keys.cIv| == IV_SZ && FINISHED_RECORD_SZ <= scratch.Length
    modifies io`answers, io`outgoing, scratch
    ensures used == !FinishedFails(c, keys.cHs)
    ensures ret == Success <==> used && old(io.answers) != [] && old(io.answers)[0] == FINISHED_RECORD_SZ
    ensures io.outgoing == old(io.outgoing) + if used then [FinishedRecord(c, keys, th)] else []
    ensures ret == Success ==> io.answers == old(io.answers)[1..]
  {
    used := false;
    var mac;
    ret, mac := ComputeMac(c, keys.cHs, th);
    if ret != Success {
      return;
    }
    used := true;
    var fin := [FINISHED, 0, 0, 32] + mac;
    assert fin == FinishedMsg(c, keys.cHs, th) by { BeBytes(32); }
    var recLen;
    ret, recLen := Protect(c, scratch, keys.cKey, keys.cIv, 0, HANDSHAKE, fin);
    var rec := scratch[..recLen];
    var r := io.Send(rec);
    if r != recLen {
      ret := Code.Crypto;
    }
  }

  /** The last steps succeed: Finished taken whole, application secrets derived. */
  predicate Closes(c: Suite, keys: HsKeys, th: Bytes, answers: seq<int>) {
    && !FinishedFails(c, keys.cHs) && answers != [] && answers[0] == FINISHED_RECORD_SZ
    && !ApplicationFails(c, keys.hs, th)
  }

  /** Everything a successful handshake went through. */
  datatype Evidence = Evidence(ch: Bytes, sh: Bytes, ecdhe: Bytes, keys: HsKeys, flight: State, rest: Bytes)
  {
    function Transcript(): Bytes { flight.p.core.transcript }
  }

  /** What the drivers hold when the flight is complete. */
  predicate Left(ev: Evidence, ch: Bytes, keys: HsKeys, transcript: Bytes, rest: Bytes) {
    ev.ch == ch && ev.keys == keys && keys.Sized() && ev.Transcript() == transcript && ev.rest == rest
  }

  /** The flag is set exactly on success, and a failed session is tied to no transport. */
  ghost predicate Concluded(sess: Session.Session, ret: Code)
    reads sess
  {
    sess.established == (ret == Success) && !sess.closed && (ret != Success ==> sess.io == null)
  }

  /** What a connect call leaves behind when its outcome is this: on success the transport took
      exactly the hello, the change_cipher_spec and the Finished, and the session holds the
      application secrets of section 7.1 of RFC 8446 over the transcript through the server's
      Finished. */
  ghost predicate Reported(
      sess: Session.Session, io: Channel, ret: Code, scratch: array<Byte>, scratchLen: nat,
      sent: seq<Bytes>, answers: seq<int>, outcome: Option<Evidence>)
    reads sess, sess.tx, sess.rx, sess.io, io
  {
    && (ret == Success <==> outcome.Some?)
    && (outcome.Some? ==>
          var ev := outcome.value;
          var th := sess.c.hash(ev.Transcript());
          && |ev.keys.cIv| == IV_SZ && |answers| >= 5
          && io.outgoing == sent + HelloBuffers(ev.ch) + [FinishedRecord(sess.c, ev.keys, th)]
          && Stream(io.incoming) == ev.rest
          && sess.View() == Spec.Established(sess.c, ClientAppSecret(sess.c, ev.keys.hs, th),
                                             ServerAppSecret(sess.c, ev.keys.hs, th), answers[5..])
          && sess.io == io && sess.scratch == scratch && sess.scratchLen == scratchLen)
  }

  /** A zeroed session. */
  ghost predicate Zeroed(sess: Session.Session)
    reads sess, sess.tx, sess.rx, sess.io
  {
    sess.Valid() && !sess.established && !sess.closed && sess.io == null && sess.emitted == [] && sess.accepted == []
  }

  /** The client's Finished and the application secrets. */
  method Finalize(
      sess: Session.Session, io: Channel, keys: HsKeys, transcript: Bytes, scratch: array<Byte>, scratchLen: nat,
      ghost sent: seq<Bytes>, ghost answers: seq<int>, ghost ev: Evidence, ghost outcome: Option<Evidence>)
    returns (ret: Code, used: bool)
    requires Zeroed(sess) && |keys.cIv| == IV_SZ && FINISHED_RECORD_SZ <= scratchLen <= scratch.Length
    requires |answers| >= 4 && io.answers == answers[4..] && io.outgoing == sent + HelloBuffers(ev.ch)
    requires Stream(io.incoming) == ev.rest && ev.keys == keys && ev.Transcript() == transcript
    requires outcome == if Closes(sess.c, keys, sess.c.hash(transcript), answers[4..]) then Some(ev) else None
    modifies sess, sess.tx, sess.rx, io`answers, io`outgoing, scratch
    ensures sess.Valid() && Concluded(sess, ret)
    ensures Reported(sess, io, ret, scratch, scratchLen, sent, answers, outcome)
    ensures io.outgoing == old(io.outgoing) +
                           if used then [FinishedRecord(sess.c, keys, sess.c.hash(transcript))] else []
  {
    var th := sess.c.hash(transcript);
    ret, used := SendFinished(sess.c, keys, th, io, scratch);
    if ret == Success {
      ret := sess.Establish(keys.hs, th, io, scratch, scratchLen);
    }
  }

  // ---- from the ServerHello to the end of the flight ----

  /** A client whose hello is out: the room for one record, and how it reads the flight once there are
      handshake keys. */
  datatype Party = Party(cl: Client, o: Offer, cap: nat, envOf: HsKeys -> Env)
  {
    ghost predicate Valid() {
      cl.c.Valid() && forall keys: HsKeys :: keys.Sized() ==> envOf(keys).Valid()
    }
  }

  /** What reading the flight leads to. */
  ghost function ReadWith(env: Env, o: Offer, n: Negotiated): Option<Evidence>
    requires env.Valid()
  {
    match ReadFlight(env, Begin(o.ch + n.sh), n.rest)
    case Refused => None
    case Complete(s, rest) => Some(Evidence(o.ch, n.sh, n.ecdhe, n.keys, s, rest))
  }

  /** What the server's bytes lead to. */
  ghost function ServerRead(p: Party, stream: Bytes): Option<Evidence>
    requires p.Valid()
  {
    match Negotiate(p.cl, p.o, stream, p.cap)
    case None => None
    case Some(n) =>
      KeysSized(p.cl, p.o, stream, p.cap);
      ReadWith(p.envOf(n.keys), p.o, n)
  }

  /** And with the transport's answers to what is sent from then on. */
  ghost function AfterHello(p: Party, stream: Bytes, answers: seq<int>): Option<Evidence>
    requires p.Valid()
  {
    match ServerRead(p, stream)
    case None => None
    case Some(ev) => if Closes(p.cl.c, ev.keys, p.cl.c.hash(ev.Transcript()), answers) then Some(ev) else None
  }

  /** What every outcome shows, whichever the driver: the hello and the keys are negotiated as they
      should be, the flight is one pass over its contents, and the client's Finished was taken whole. */
  ghost predicate Shown(p: Party, answers: seq<int>, ev: Evidence, h: SH.Hello) {
    && ev.ch == p.o.ch && NegotiatedAs(p.cl, p.o, ev.sh, ev.ecdhe, ev.keys, h)
    && ev.flight.p.core.done && OneShot(p.envOf(ev.keys), ev.ch + ev.sh, ev.flight)
    && |answers| > 0 && answers[0] == FINISHED_RECORD_SZ
  }

  lemma {:induction false} ReadMeans(env: Env, o: Offer, n: Negotiated)
    requires env.Valid() && ReadWith(env, o, n).Some?
    ensures var ev := ReadWith(env, o, n).value;
            && ev.ch == o.ch && ev.sh == n.sh && ev.ecdhe == n.ecdhe && ev.keys == n.keys
            && ev.flight.p.core.done && OneShot(env, ev.ch + ev.sh, ev.flight)
  {
    FlightIsOneShot(env, o.ch + n.sh, Begin(o.ch + n.sh), n.rest);
  }

  lemma {:induction false} AfterHelloMeans(p: Party, stream: Bytes, answers: seq<int>) returns (h: SH.Hello)
    requires p.Valid() && AfterHello(p, stream, answers).Some?
    ensures Shown(p, answers, AfterHello(p, stream, answers).value, h)
  {
    h := NegotiatedMeans(p.cl, p.o, stream, p.cap);
    KeysSized(p.cl, p.o, stream, p.cap);
    var n := Negotiate(p.cl, p.o, stream, p.cap).value;
    ReadMeans(p.envOf(n.keys), p.o, n);
  }

  lemma {:induction false} KeysSized(cl: Client, o: Offer, stream: Bytes, cap: nat)
    requires cl.c.Valid() && Negotiate(cl, o, stream, cap).Some?
    ensures Negotiate(cl, o, stream, cap).value.keys.Sized()
  {
    var sh, ecdhe := KeysAreFor(cl, o, stream, cap);
    KeysForSized(cl, o, sh, ecdhe);
  }

  lemma {:induction false} KeysAreFor(cl: Client, o: Offer, stream: Bytes, cap: nat) returns (sh: Bytes, ecdhe: Bytes)
    requires Negotiate(cl, o, stream, cap).Some?
    ensures Negotiate(cl, o, stream, cap).value.keys == KeysFor(cl, o, sh, ecdhe)
  {
    var n := Negotiate(cl, o, stream, cap).value;
    sh, ecdhe := n.sh, n.ecdhe;
  }

  /** Two streams with the same hello and two divisions of the same handshake messages. */
  ghost predicate SameMessages(
      p: Party, n: Negotiated, n': Negotiated, one: seq<Division.Piece>, other: seq<Division.Piece>)
    requires p.Valid() && n.keys.Sized()
  {
    var env := p.envOf(n.keys);
    && n.sh == n'.sh && n.ecdhe == n'.ecdhe && n.keys == n'.keys
    && n.rest == Division.Wire(env, 0, one) && n'.rest == Division.Wire(env, 0, other)
    && Division.Fits(env, 0, one) && Division.Fits(env, 0, other) && Division.Content(one) == Division.Content(other)
  }

  /** The same verdict, keys, messages, leaf key and transcript. */
  predicate SameVerdict(a: Option<Evidence>, b: Option<Evidence>) {
    a.Some? == b.Some? && (a.Some? ==> a.value.keys == b.value.keys && a.value.flight.p == b.value.flight.p)
  }

  lemma {:induction false} SameRead(
      p: Party, n: Negotiated, n': Negotiated, one: seq<Division.Piece>, other: seq<Division.Piece>)
    requires p.Valid() && n.keys.Sized() && p.envOf(n.keys).ioCap >= 6 && SameMessages(p, n, n', one, other)
    ensures SameVerdict(ReadWith(p.envOf(n.keys), p.o, n), ReadWith(p.envOf(n.keys), p.o, n'))
  {
    Division.DivisionIrrelevant(p.envOf(n.keys), p.o.ch + n.sh, one, other);
  }

  /** After one ClientHello, two divisions of the same messages lead to the same verdict. */
  lemma {:induction false} DivisionIrrelevantToOutcome(
      p: Party, stream: Bytes, stream': Bytes, one: seq<Division.Piece>, other: seq<Division.Piece>)
    requires p.Valid()
    requires Negotiate(p.cl, p.o, stream, p.cap).Some? && Negotiate(p.cl, p.o, stream', p.cap).Some?
    requires var n, n' := Negotiate(p.cl, p.o, stream, p.cap).value, Negotiate(p.cl, p.o, stream', p.cap).value;
             n.keys.Sized() && p.envOf(n.keys).ioCap >= 6 && SameMessages(p, n, n', one, other)
    ensures SameVerdict(ServerRead(p, stream), ServerRead(p, stream'))
  {
    var n, n' := Negotiate(p.cl, p.o, stream, p.cap).value, Negotiate(p.cl, p.o, stream', p.cap).value;
    SameRead(p, n, n', one, other);
  }

  // ---- an honest server's hello ----

  /** A handshake record in plaintext. */
  function PlainRecord(msg: Bytes): Bytes { PlainHeader(HANDSHAKE, |msg|) + msg }

  predicate Framable(msg: Bytes, cap: nat) { 0 < |msg| <= MAX_PLAINTEXT && HEADER_SZ + |msg| <= cap }

  lemma {:induction false} PlainFrames(msg: Bytes, rest: Bytes, cap: nat)
    requires Framable(msg, cap)
    ensures FindHello(PlainRecord(msg) + rest, cap) == Some(Found(msg, rest))
  {
    var hdr, rec := PlainHeader(HANDSHAKE, |msg|), PlainRecord(msg);
    var stream := rec + rest;
    assert hdr[3..5] == U16(|msg|);
    assert stream[3..5] == hdr[3..5];
    ReadsU16(stream, 3, |msg|);
    assert stream[..|rec|] == rec && stream[|rec|..] == rest && rec[HEADER_SZ..] == msg;
  }

  /** A hello the client accepts, in a record of its own. */
  ghost predicate Answers(cl: Client, psk: int, h: SH.Hello, ecdhe: Bytes, cap: nat) {
    && h.Valid() && ParamsOk(SH.Report(h), cl.cfg, cl.e.sid, psk)
    && cl.e.agree(SH.Report(h).keyShare.value) == Some(ecdhe) && Framable(h.Encode(), cap)
  }

  lemma {:induction false} AgreesWith(cl: Client, psk: int, h: SH.Hello, ecdhe: Bytes, cap: nat)
    requires Answers(cl, psk, h, ecdhe, cap)
    ensures Agreed(cl.cfg, cl.e, psk, h.Encode()) == Some(ecdhe)
  {
    SH.ParsesEncoded(h);
  }

  function KeysFor(cl: Client, o: Offer, sh: Bytes, ecdhe: Bytes): HsKeys {
    HandshakeKeys(cl.c, o.early, ecdhe, cl.c.hash(o.ch + sh))
  }

  lemma {:induction false} KeysForSized(cl: Client, o: Offer, sh: Bytes, ecdhe: Bytes)
    requires cl.c.Valid()
    ensures KeysFor(cl, o, sh, ecdhe).Sized()
  {
  }

  lemma {:induction false} NoDerivationFails(c: Suite, early: Bytes, ecdhe: Bytes, th: Bytes)
    requires c.KdfTotal()
    ensures !HandshakeFails(c, early, ecdhe, th)
  {
  }

  lemma {:induction false} NegotiatesWith(cl: Client, o: Offer, sh: Bytes, ecdhe: Bytes, rest: Bytes)
    requires cl.c.KdfTotal() && Agreed(cl.cfg, cl.e, o.psk, sh) == Some(ecdhe)
    ensures NegotiateWith(cl, o, sh, rest) == Some(Negotiated(sh, ecdhe, KeysFor(cl, o, sh, ecdhe), rest))
  {
    NoDerivationFails(cl.c, o.early, ecdhe, cl.c.hash(o.ch + sh));
  }

  lemma {:induction false} Negotiates(cl: Client, o: Offer, cap: nat, sh: Bytes, ecdhe: Bytes, rest: Bytes)
    requires cl.c.KdfTotal() && Framable(sh, cap) && Agreed(cl.cfg, cl.e, o.psk, sh) == Some(ecdhe)
    ensures Negotiate(cl, o, PlainRecord(sh) + rest, cap) ==
            Some(Negotiated(sh, ecdhe, KeysFor(cl, o, sh, ecdhe), rest))
  {
    PlainFrames(sh, rest, cap);
    assert Negotiate(cl, o, PlainRecord(sh) + rest, cap) == NegotiateWith(cl, o, sh, rest);
    NegotiatesWith(cl, o, sh, ecdhe, rest);
  }

  lemma {:induction false} ClosesIfTaken(c: Suite, keys: HsKeys, th: Bytes, answers: seq<int>)
    requires c.KdfTotal() && answers != [] && answers[0] == FINISHED_RECORD_SZ
    ensures Closes(c, keys, th, answers)
  {
  }

  /** The plainest hello for this client and share. */
  function PlainHello(cl: Client, share: Bytes, psk: seq<SH.Ext>): SH.Hello {
    SH.Hello(Zeros(32), cl.e.sid, 0x1301, [SH.KeyShare(cl.cfg.group.Id(), share), SH.SupportedVersions(0x0304)] + psk)
  }

  lemma {:induction false} PlainHelloReport(cl: Client, share: Bytes)
    ensures SH.Report(PlainHello(cl, share, [])) ==
            SH.Fields(Zeros(32), cl.e.sid, 0x1301, Some(share), cl.cfg.group.Id(), 0x0304, -1)
    ensures SH.Report(PlainHello(cl, share, [SH.PreSharedKey(0)])) ==
            SH.Fields(Zeros(32), cl.e.sid, 0x1301, Some(share), cl.cfg.group.Id(), 0x0304, 0)
  {
    var ks, v, p := SH.KeyShare(cl.cfg.group.Id(), share), SH.SupportedVersions(0x0304), SH.PreSharedKey(0);
    var f := SH.Fields(Zeros(32), cl.e.sid, 0x1301, None, 0, 0, -1);
    var f2 := SH.Apply(SH.Apply(f, ks), v);
    assert [ks, v] + [] == [ks, v] && [ks, v] + [p] == [ks, v, p];
    assert [ks, v, p][1..] == [v, p] && [v, p][1..] == [p] && [p][1..] == [] && [ks, v][1..] == [v] && [v][1..] == [];
    assert SH.ApplyAll(f2, []) == f2 && SH.ApplyAll(f2, [p]) == SH.Apply(f2, p);
    assert SH.ApplyAll(SH.Apply(f, ks), [v]) == f2 && SH.ApplyAll(SH.Apply(f, ks), [v, p]) == SH.Apply(f2, p);
  }

  lemma {:induction false} PlainHelloSize(cl: Client, share: Bytes)
    ensures |SH.EncodeExts(PlainHello(cl, share, []).exts)| == 14 + |share|
    ensures |SH.EncodeExts(PlainHello(cl, share, [SH.PreSharedKey(0)]).exts)| == 20 + |share|
  {
    var ks, v, p := SH.KeyShare(cl.cfg.group.Id(), share), SH.SupportedVersions(0x0304), SH.PreSharedKey(0);
    assert [ks, v] + [] == [ks, v] && [ks, v] + [p] == [ks, v, p];
    assert [ks, v, p][1..] == [v, p] && [v, p][1..] == [p] && [p][1..] == [] && [ks, v][1..] == [v] && [v][1..] == [];
    assert |SH.EncodeExts([p])| == 6 && |SH.EncodeExts([v, p])| == 12;
    assert |SH.EncodeExts([v])| == 6;
  }

  lemma {:induction false} PlainHelloAccepted(cl: Client, share: Bytes, ecdhe: Bytes, psk: seq<SH.Ext>, cap: nat)
    requires cl.e.Valid(cl.cfg) && |share| == cl.cfg.group.ServerShareSz() && cl.e.agree(share) == Some(ecdhe)
    requires cap >= 2048 && (psk == [] || psk == [SH.PreSharedKey(0)])
    ensures Answers(cl, if psk == [] then -1 else 0, PlainHello(cl, share, psk), ecdhe, cap)
  {
    PlainHelloReport(cl, share);
    PlainHelloFits(cl, share, psk, cap);
  }

  lemma {:induction false} PlainHelloFits(cl: Client, share: Bytes, psk: seq<SH.Ext>, cap: nat)
    requires cl.e.Valid(cl.cfg) && |share| == cl.cfg.group.ServerShareSz()
    requires cap >= 2048 && (psk == [] || psk == [SH.PreSharedKey(0)])
    ensures var h := PlainHello(cl, share, psk); h.Valid() && Framable(h.Encode(), cap)
  {
    PlainHelloSize(cl, share);
    assert PlainHello(cl, share, psk).random[0] != SH.HRR_RANDOM[0];
  }

  // ---- an honest server's flight ----

  /** The reader that this server meets. */
  ghost function EnvFor(p: Party, sh: Bytes, ecdhe: Bytes): (env: Env)
    requires p.Valid()
    ensures env.Valid()
  {
    KeysForSized(p.cl, p.o, sh, ecdhe);
    p.envOf(KeysFor(p.cl, p.o, sh, ecdhe))
  }

  /** What a server sends that answers with this hello and then with this division of its messages. */
  ghost function HonestStream(p: Party, sh: Bytes, ecdhe: Bytes, pieces: seq<Division.Piece>): Bytes
    requires p.Valid()
  {
    PlainRecord(sh) + Division.Wire(EnvFor(p, sh, ecdhe), 0, pieces)
  }

  /** One pass over the contents of the pieces completes the flight. */
  ghost predicate Completes(env: Env, transcript: Bytes, pieces: seq<Division.Piece>) {
    && env.ioCap >= 6 && Division.Fits(env, 0, pieces)
    && var q := CutAll(env, Progress(Start(transcript), 0), Division.Content(pieces)); q.Some? && q.value.core.done
  }

  lemma {:induction false} HonestRead(p: Party, sh: Bytes, ecdhe: Bytes, pieces: seq<Division.Piece>)
    requires p.Valid() && p.cl.c.KdfTotal() && Framable(sh, p.cap)
    requires Agreed(p.cl.cfg, p.cl.e, p.o.psk, sh) == Some(ecdhe)
    requires Completes(EnvFor(p, sh, ecdhe), p.o.ch + sh, pieces)
    ensures var ev := ServerRead(p, HonestStream(p, sh, ecdhe, pieces));
            ev.Some? && LedTo(p, sh, ecdhe, pieces, ev.value)
  {
    var env := EnvFor(p, sh, ecdhe);
    Negotiates(p.cl, p.o, p.cap, sh, ecdhe, Division.Wire(env, 0, pieces));
    Division.OneDivision(env, p.o.ch + sh, pieces);
  }

  /** The evidence of such a server: its hello, the keys with it, and one pass over its messages. */
  ghost predicate LedTo(p: Party, sh: Bytes, ecdhe: Bytes, pieces: seq<Division.Piece>, ev: Evidence)
    requires p.Valid()
  {
    && ev.ch == p.o.ch && ev.sh == sh && ev.keys == KeysFor(p.cl, p.o, sh, ecdhe)
    && CutAll(EnvFor(p, sh, ecdhe), Progress(Start(p.o.ch + sh), 0), Division.Content(pieces)) == Some(ev.flight.p)
  }

  /** Such a server, over a transport that takes the Finished, leads to an outcome. */
  lemma {:induction false} HonestOutcome(
      p: Party, h: SH.Hello, ecdhe: Bytes, pieces: seq<Division.Piece>, answers: seq<int>)
    requires p.Valid() && p.cl.c.KdfTotal() && Answers(p.cl, p.o.psk, h, ecdhe, p.cap)
    requires Completes(EnvFor(p, h.Encode(), ecdhe), p.o.ch + h.Encode(), pieces)
    requires answers != [] && answers[0] == FINISHED_RECORD_SZ
    ensures var ev := AfterHello(p, HonestStream(p, h.Encode(), ecdhe, pieces), answers);
            ev.Some? && LedTo(p, h.Encode(), ecdhe, pieces, ev.value)
  {
    AgreesWith(p.cl, p.o.psk, h, ecdhe, p.cap);
    HonestRead(p, h.Encode(), ecdhe, pieces);
    var ev := ServerRead(p, HonestStream(p, h.Encode(), ecdhe, pieces)).value;
    ClosesIfTaken(p.cl.c, ev.keys, p.cl.c.hash(ev.Transcript()), answers);
  }

  /** The hello fits, and it and the Finished are taken whole. */
  predicate TakesAll(ch: Bytes, cap: nat, answers: seq<int>) {
    |ch| <= cap && Taken(answers, HelloBuffers(ch)) && |answers| > 4 && answers[4] == FINISHED_RECORD_SZ
  }
}

