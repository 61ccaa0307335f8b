/** wn_connect_cert_impl. */
module ConnectCert {
  import opened Base
  import opened Crypto
  import opened Transport
  import opened Record
  import opened KeySchedule
  import opened HelloBuilder
  import opened Messages
  import opened HostName
  import opened Chain
  import opened IdentityLaw
  import opened Flight
  import opened FlightSteps
  import opened FlightExact
  import opened Handshake
  import opened Rfc8446
  import opened ScheduleLaw
  import opened PeerServer
  import opened PeerLaw
  import opened Interop
  import opened PeerFlight
  import SH = ServerHello
  import CertReader
  import Division
  import Session
  import Spec = SessionSpec

  /** The sizes a build fixes for the regions of the scratch buffer. */
  datatype Layout = Layout(ioMin: nat, accSz: nat, spkiSz: nat)
  {
    predicate Valid() {
      || this == Layout(4096, 6144, 1024)
      || this == Layout(4096, 8192, 2048)
      || this == Layout(8192, 10240, 3072)
    }

    function Min(): nat { ioMin + accSz + spkiSz }
  }

  /** What the caller brings: whom to trust and how to check it. */
  datatype Trust = Trust(pki: Pki, pol: Policy, verify: (nat, Bytes, Bytes, Bytes) -> bool)
  {
    function Name(): Bytes { if pol.serverName.Some? then pol.serverName.value else [] }

    predicate Binds() { pol.serverName.Some? || pol.pin.Some? }

    function Check(layout: Layout): Identity { Identity(Name() != [], pki, pol, layout.spkiSz, verify) }
  }

  // ---- the specification ----

  /** A client with its trust, the layout of its build and the size of its scratch buffer. */
  datatype CertClient = CertClient(cl: Client, layout: Layout, trust: Trust, scratchLen: nat)
  {
    predicate Valid() { layout.Min() <= scratchLen }

    /** The room for one record. */
    function IoCap(): nat
      requires Valid()
    {
      scratchLen - (layout.accSz + layout.spkiSz)
    }

    function Early(): Bytes { cl.c.extract([], Zeros(32)) }

    function Hello(): Bytes { CertHello(cl.cfg, cl.e.random, cl.e.sid, cl.e.pub, trust.Name()).Encode() }

    function Offered(): Offer { Offer(Early(), Hello(), -1) }

    function Side(keys: HsKeys): CertSide
      requires Valid()
    {
      CertSide(cl.c, keys.sHs, keys.sKey, keys.sIv, IoCap(), layout.accSz, trust.Check(layout))
    }

    /** The client once its hello is out. */
    ghost function Said(): (p: Party)
      requires Valid()
      ensures cl.c.Valid() ==> p.Valid()
      ensures p.cl == cl && p.cap == IoCap() && p.o == Offered()
    {
      Party(cl, Offered(), IoCap(), keys => CertEnv(Side(keys)))
    }

    /** The name fits, the hello fits and is taken whole. */
    predicate HelloOut(answers: seq<int>) {
      |trust.Name()| <= 255 && |Hello()| <= scratchLen && Taken(answers, HelloBuffers(Hello()))
    }
  }

  /** What a client that passed its argument checks makes of the server's bytes and the transport's
      answers. */
  ghost function Reach(cc: CertClient, stream: Bytes, answers: seq<int>): Option<Evidence>
    requires cc.cl.c.Valid() && cc.Valid()
  {
    if !cc.HelloOut(answers) then None else AfterHello(cc.Said(), stream, answers[4..])
  }

  /** The random source or the key generation may have failed. */
  ghost function Outcome(
      c: Suite, cfg: Config, source: Option<Entropy>, layout: Layout, trust: Trust, scratchLen: nat,
      stream: Bytes, answers: seq<int>): Option<Evidence>
    requires c.Valid() && layout.Min() <= scratchLen
  {
    if source.None? then None
    else Reach(CertClient(Client(c, cfg, source.value), layout, trust, scratchLen), stream, answers)
  }

  // ---- records under the client handshake key ----

  /** The client handshake write state at a sequence number. */
  ghost function HsHalf(keys: HsKeys, seqNo: nat): Half { Half(keys.cHs, keys.cKey, keys.cIv, seqNo, 0) }

  /** The buffers handed over are hello buffers and then these sealed records, no two of which share
      a nonce. */
  ghost predicate Traffic(c: Suite, keys: HsKeys, before: seq<Bytes>, plain: seq<Bytes>, under: seq<Spec.Emission>,
      outgoing: seq<Bytes>) {
    && |under| <= 2 && |outgoing| == |before| + |plain| + |under|
    && outgoing[..|before| + |plain|] == before + plain
    && (under != [] ==> |keys.cIv| == IV_SZ)
    && (forall i :: 0 <= i < |under| ==>
          under[i].half == HsHalf(keys, i) && under[i].half.Valid()
            && outgoing[|before| + |plain| + i] == under[i].Wire(c))
  }

  /** No two records are sealed with the same nonce (section 5.3 of RFC 8446). */
  lemma {:induction false} HandshakeNoncesDiffer(c: Suite, keys: HsKeys, before: seq<Bytes>, plain: seq<Bytes>,
      under: seq<Spec.Emission>, outgoing: seq<Bytes>, i: nat, j: nat)
    requires Traffic(c, keys, before, plain, under, outgoing) && i < j < |under|
    ensures var a, b := under[i].half, under[j].half;
            a.key == b.key && a.iv == b.iv && |a.iv| == IV_SZ && Nonce(a.iv, a.SeqNo()) != Nonce(b.iv, b.SeqNo())
  {
    if Nonce(keys.cIv, i) == Nonce(keys.cIv, j) {
      NonceInjective(keys.cIv, i, j);
    }
  }

  function AlertFor(ret: Code): Byte {
    match ret
    case UnexpectedMsg => 10
    case BadMac => 20
    case Decode => 50
    case IllegalParam => 47
    case BadCert => 42
    case _ => 80
  }

  /** A fatal alert under the client handshake key; its fate does not matter. */
  method SendAlert(c: Suite, io: Channel, keys: HsKeys, seqNo: nat, ret: Code)
    requires c.Valid() && |keys.cIv| == IV_SZ && seqNo < WORD64
    modifies io`answers, io`outgoing
    ensures io.outgoing == old(io.outgoing) + [SealRecord(c, keys.cKey, keys.cIv, seqNo, ALERT, [2, AlertFor(ret)])]
  {
    var rec := new Byte[HEADER_SZ + 2 + 1 + TAG_SZ];
    var done, recLen := Protect(c, rec, keys.cKey, keys.cIv, seqNo, ALERT, [2, AlertFor(ret)]);
    var r := io.Send(rec[..recLen]);
  }

  // ---- the code ----

  /** The flight loop on the shared array. */
  method ReadMessages(side: CertSide, io: Channel, scratch: array<Byte>, transcript: Bytes, ghost o: Offer,
      ghost n: Negotiated)
    returns (ret: Code, transcript': Bytes, ghost ev: Option<Evidence>)
    requires side.c.Valid() && |side.iv| == IV_SZ && HEADER_SZ <= side.ioCap && side.room <= MAX_BUFFER
    requires side.ioCap + side.room + side.id.spkiCap <= scratch.Length
    requires transcript == o.ch + n.sh && n.rest == Stream(io.incoming)
    modifies io`incoming, scratch
    ensures ev == ReadWith(CertEnv(side), o, n) && (ret == Success <==> ev.Some?)
    ensures ev.Some? ==> transcript' == ev.value.Transcript() && Stream(io.incoming) == ev.value.rest
  {
    var reader := new CertReader.CertReader(side, scratch, transcript);
    ret := reader.Read(io);
    transcript' := reader.transcript;
    ev := if ret == Success then Some(Evidence(o.ch, n.sh, n.ecdhe, n.keys, reader.View(), Stream(io.incoming)))
      else None;
  }

  /** Read the server's hello and flight; `ready` says whether the handshake keys exist. */
  method ReadServer(cc: CertClient, ch: Bytes, io: Channel, scratch: array<Byte>)
    returns (ret: Code, ready: bool, keys: HsKeys, transcript: Bytes, ghost ev: Option<Evidence>)
    requires cc.cl.c.Valid() && cc.Valid() && cc.layout.Valid() && ch == cc.Hello()
    requires cc.scratchLen <= scratch.Length && cc.scratchLen <= MAX_BUFFER
    modifies io`incoming, scratch
    ensures ev == ServerRead(cc.Said(), Stream(old(io.incoming))) && (ret == Success <==> ev.Some?)
    ensures ev.Some? ==> ready && Left(ev.value, ch, keys, transcript, Stream(io.incoming))
    ensures ready ==> keys.Sized()
  {
    ghost var p := cc.Said();
    ghost var n;
    ret, transcript, keys, n := NegotiateKeys(cc.cl, Offer(cc.Early(), ch, -1), io, scratch, cc.IoCap());
    ready, ev := ret == Success, None;
    if ret == Success {
      ret, transcript, ev := ReadMessages(cc.Side(keys), io, scratch, transcript, p.o, n.value);
    }
  }

  /** What is sealed under the client handshake key when the Finished is. */
  ghost function FinishedEmission(c: Suite, keys: HsKeys, th: Bytes): Spec.Emission {
    Spec.Emission(HsHalf(keys, 0), HANDSHAKE, FinishedMsg(c, keys.cHs, th))
  }

  lemma {:induction false} FinishedTraffic(
      c: Suite, keys: HsKeys, th: Bytes, before: seq<Bytes>, plain: seq<Bytes>, used: bool, outgoing: seq<Bytes>)
    requires keys.Sized() && outgoing == before + plain + if used then [FinishedRecord(c, keys, th)] else []
    ensures Traffic(c, keys, before, plain, if used then [FinishedEmission(c, keys, th)] else [], outgoing)
  {
  }

  /** In plaintext nothing goes out but buffers of the hello, in order. */
  ghost predicate SaidOnly(ch: Bytes, plain: seq<Bytes>) { plain <= HelloBuffers(ch) }

  /** The ClientHello out, and the change_cipher_spec. */
  method SayHello(cc: CertClient, io: Channel, scratch: array<Byte>)
      returns (ret: Code, ch: Bytes, ghost plain: seq<Bytes>)
    requires cc.cl.e.Valid(cc.cl.cfg) && cc.scratchLen <= scratch.Length && cc.scratchLen <= MAX_BUFFER
    modifies io`answers, io`outgoing, scratch
    ensures io.outgoing == old(io.outgoing) + plain && SaidOnly(cc.Hello(), plain)
    ensures ret == Success <==> cc.HelloOut(old(io.answers))
    ensures ret == Success ==> ch == cc.Hello() && plain == HelloBuffers(ch) && io.answers == old(io.answers)[4..]
  {
    ch, plain := [], [];
    var e, chLen := cc.cl.e, 0;
    ret, chLen := BuildCert(scratch, cc.scratchLen, cc.cl.cfg, e.random, e.sid, e.pub, cc.trust.Name());
    if ret == Success {
      ch := scratch[..chLen];
      ret, plain := SendHello(io, ch);
    }
  }

  /** The handshake once the hello is out. */
  method Respond(
      sess: Session.Session, io: Channel, cc: CertClient, ch: Bytes, scratch: array<Byte>,
      ghost sent: seq<Bytes>, ghost answers: seq<int>)
    returns (ret: Code, ready: bool, keys: HsKeys, cHsSeq: nat, ghost under: seq<Spec.Emission>)
    requires Zeroed(sess) && sess.c == cc.cl.c && cc.Valid() && cc.layout.Valid() && ch == cc.Hello()
    requires cc.scratchLen <= scratch.Length && cc.scratchLen <= MAX_BUFFER
    requires |answers| >= 4 && io.answers == answers[4..] && io.outgoing == sent + HelloBuffers(ch)
    modifies sess, sess.tx, sess.rx, io, scratch
    ensures sess.Valid() && Concluded(sess, ret)
    ensures Reported(sess, io, ret, scratch, cc.scratchLen, sent, answers,
                     AfterHello(cc.Said(), Stream(old(io.incoming)), answers[4..]))
    ensures Traffic(sess.c, keys, sent, HelloBuffers(ch), under, io.outgoing)
    ensures cHsSeq == |under| <= 1 && (ready ==> keys.Sized())
  {
    ghost var outcome := AfterHello(cc.Said(), Stream(io.incoming), answers[4..]);
    cHsSeq, under := 0, [];
    var transcript;
    ghost var ev;
    ret, ready, keys, transcript, ev := ReadServer(cc, ch, io, scratch);
    if ret != Success {
      assert outcome == None;
      return;
    }
    ret, cHsSeq, under :=
      Conclude(sess, io, keys, transcript, scratch, cc.scratchLen, sent, answers, ev.value, outcome);
  }

  /** The client's Finished, the application secrets, and what was sealed under the handshake key. */
  method Conclude(
      sess: Session.Session, io: Channel, keys: HsKeys, transcript: Bytes, scratch: array<Byte>, scratchLen: nat,
      ghost sent: seq<Bytes>, ghost answers: seq<int>, ghost ev: Evidence, ghost outcome: Option<Evidence>)
    returns (ret: Code, cHsSeq: nat, ghost under: seq<Spec.Emission>)
    requires Zeroed(sess) && keys.Sized() && FINISHED_RECORD_SZ <= scratchLen <= scratch.Length
    requires |answers| >= 4 && io.answers == answers[4..] && io.outgoing == sent + HelloBuffers(ev.ch)
    requires Stream(io.incoming) == ev.rest && ev.keys == keys && ev.Transcript() == transcript
    requires outcome == if Closes(sess.c, keys, sess.c.hash(transcript), answers[4..]) then Some(ev) else None
    modifies sess, sess.tx, sess.rx, io`answers, io`outgoing, scratch
    ensures sess.Valid() && Concluded(sess, ret)
    ensures Reported(sess, io, ret, scratch, scratchLen, sent, answers, outcome)
    ensures Traffic(sess.c, keys, sent, HelloBuffers(ev.ch), under, io.outgoing) && cHsSeq == |under| <= 1
  {
    cHsSeq, under := 0, [];
    var used;
    ret, used := Finalize(sess, io, keys, transcript, scratch, scratchLen, sent, answers, ev, outcome);
    if used {
      cHsSeq, under := 1, [FinishedEmission(sess.c, keys, sess.c.hash(transcript))];
    }
    FinishedTraffic(sess.c, keys, sess.c.hash(transcript), sent, HelloBuffers(ev.ch), used, io.outgoing);
  }

  /** The handshake after the argument checks. */
  method Proceed(sess: Session.Session, io: Channel, cc: CertClient, scratch: array<Byte>)
    returns (ret: Code, ready: bool, keys: HsKeys, cHsSeq: nat, ghost plain: seq<Bytes>,
      ghost under: seq<Spec.Emission>)
    requires Zeroed(sess) && sess.c == cc.cl.c && cc.cl.e.Valid(cc.cl.cfg) && cc.Valid() && cc.layout.Valid()
    requires cc.scratchLen <= scratch.Length && cc.scratchLen <= MAX_BUFFER
    modifies sess, sess.tx, sess.rx, io, scratch
    ensures sess.Valid() && Concluded(sess, ret)
    ensures Reported(sess, io, ret, scratch, cc.scratchLen, old(io.outgoing), old(io.answers),
                     Reach(cc, Stream(old(io.incoming)), old(io.answers)))
    ensures Traffic(sess.c, keys, old(io.outgoing), plain, under, io.outgoing) && SaidOnly(cc.Hello(), plain)
    ensures cHsSeq == |under| <= 1 && (ready ==> keys.Sized())
  {
    ready, cHsSeq, keys, under := false, 0, HsKeys([], [], [], [], [], [], []), [];
    var ch;
    ret, ch, plain := SayHello(cc, io, scratch);
    if ret == Success {
      ret, ready, keys, cHsSeq, under := Respond(sess, io, cc, ch, scratch, old(io.outgoing), old(io.answers));
    }
  }

  /** The optional alert on failure. */
  method Alert(
      c: Suite, io: Channel, keys: HsKeys, cHsSeq: nat, ret: Code,
      ghost before: seq<Bytes>, ghost plain: seq<Bytes>, ghost under: seq<Spec.Emission>)
    returns (ghost under': seq<Spec.Emission>)
    requires c.Valid() && keys.Sized()
    requires Traffic(c, keys, before, plain, under, io.outgoing) && cHsSeq == |under| <= 1
    modifies io`answers, io`outgoing
    ensures Traffic(c, keys, before, plain, under', io.outgoing)
  {
    SendAlert(c, io, keys, cHsSeq, ret);
    under' := under + [Spec.Emission(HsHalf(keys, cHsSeq), ALERT, [2, AlertFor(ret)])];
  }

  /** What goes out in a call with this random source: buffers of its hello, then records sealed under
      the client handshake key. */
  ghost predicate Emitted(
      c: Suite, cfg: Config, source: Option<Entropy>, name: Bytes,
      keys: HsKeys, before: seq<Bytes>, plain: seq<Bytes>, under: seq<Spec.Emission>, outgoing: seq<Bytes>)
  {
    && Traffic(c, keys, before, plain, under, outgoing)
    && if source.None? then plain == [] && under == []
       else SaidOnly(CertHello(cfg, source.value.random, source.value.sid, source.value.pub, name).Encode(), plain)
  }

  /** wn_connect_cert_impl, in a build with or without alerts. Refused arguments touch nothing;
      otherwise the session is zeroed first, and established exactly when the specification reaches
      an outcome. */
  method Connect(
      sess: Session.Session, io: Channel, cfg: Config, source: Option<Entropy>, layout: Layout, trust: Trust,
      scratch: array<Byte>, scratchLen: nat, alerts: bool)
    returns (ret: Code, ghost keys: HsKeys, ghost plain: seq<Bytes>, ghost under: seq<Spec.Emission>)
    requires sess.c.Valid() && sess.tx != sess.rx
    requires source.Some? ==> source.value.Valid(cfg)
    requires layout.Valid() && scratchLen <= scratch.Length && scratchLen <= MAX_BUFFER
    modifies sess, sess.tx, sess.rx, io, scratch
    ensures scratchLen < layout.Min() ==> ret == InvalidArg && unchanged(sess, sess.tx, sess.rx, io, scratch)
    ensures layout.Min() <= scratchLen ==>
              && sess.Valid() && Concluded(sess, ret)
              && Reported(sess, io, ret, scratch, scratchLen, old(io.outgoing), old(io.answers),
                          Outcome(sess.c, cfg, source, layout, trust, scratchLen, Stream(old(io.incoming)),
                            old(io.answers)))
              && Emitted(sess.c, cfg, source, trust.Name(), keys, old(io.outgoing), plain, under, io.outgoing)
  {
    keys, plain, under := HsKeys([], [], [], [], [], [], []), [], [];
    if scratchLen < layout.Min() {
      ret := InvalidArg;
      return;
    }
    sess.Zero();
    if source.None? {
      ret := Code.Crypto;
      return;
    }
    var ready, k, cHsSeq;
    var cc := CertClient(Client(sess.c, cfg, source.value), layout, trust, scratchLen);
    ret, ready, k, cHsSeq, plain, under := Proceed(sess, io, cc, scratch);
    keys := k;
    if alerts && ret != Success && ready {
      under := Alert(sess.c, io, k, cHsSeq, ret, old(io.outgoing), plain, under);
    }
  }

  /** wn_Connect_CertName_ex: the caller must bind the server by name or by key. */
  method ConnectNamed(
      sess: Session.Session, io: Channel, cfg: Config, source: Option<Entropy>, layout: Layout, trust: Trust,
      scratch: array<Byte>, scratchLen: nat, alerts: bool)
    returns (ret: Code, ghost keys: HsKeys, ghost plain: seq<Bytes>, ghost under: seq<Spec.Emission>)
    requires sess.c.Valid() && sess.tx != sess.rx
    requires source.Some? ==> source.value.Valid(cfg)
    requires layout.Valid() && scratchLen <= scratch.Length && scratchLen <= MAX_BUFFER
    modifies sess, sess.tx, sess.rx, io, scratch
    ensures scratchLen < layout.Min() || !trust.Binds() ==>
              ret == InvalidArg && unchanged(sess, sess.tx, sess.rx, io, scratch)
    ensures layout.Min() <= scratchLen && trust.Binds() ==>
              && sess.Valid() && Concluded(sess, ret)
              && Reported(sess, io, ret, scratch, scratchLen, old(io.outgoing), old(io.answers),
                          Outcome(sess.c, cfg, source, layout, trust, scratchLen, Stream(old(io.incoming)),
                            old(io.answers)))
              && Emitted(sess.c, cfg, source, trust.Name(), keys, old(io.outgoing), plain, under, io.outgoing)
  {
    if trust.pol.serverName.None? && trust.pol.pin.None? {
      keys, plain, under := HsKeys([], [], [], [], [], [], []), [], [];
      ret := InvalidArg;
      return;
    }
    ret, keys, plain, under := Connect(sess, io, cfg, source, layout, trust, scratch, scratchLen, alerts);
  }

  // ---- what an established session means ----

  /** A server that received the client's hello and answered with this one. */
  ghost function ServerOf(cc: CertClient, h: SH.Hello, shared: Bytes): Server {
    Server(cc.cl.c, EarlySecret(cc.cl.c, Zeros(32)), shared, cc.Hello(), HelloBytes(h))
  }

  /** The evidence shows: the ClientHello is the client's; the server's hello is the encoding of one that
      echoes the session id, selects what was offered and no PSK; the decrypted flight starts with exactly
      EncryptedExtensions, Certificate, CertificateVerify and Finished, where the chain passes, the leaf's
      key verifies the signature over the messages through Certificate, and the verify_data is that of a
      server that has the agreed secret and both hellos; such a server holds the client's handshake keys
      and application keys over the transcript through its Finished, and accepts the client's Finished;
      and that was taken whole. */
  ghost predicate Shows(
      cc: CertClient, answers: seq<int>, ev: Evidence, h: SH.Hello, share: Bytes, f: CertFlight)
  {
    var srv := ServerOf(cc, h, ev.ecdhe);
    && ev.ch == cc.Hello() && cc.HelloOut(answers)
    && Chooses(cc.cl, None, h, share, ev.ecdhe)
    && CorrectCert(srv, cc.trust.Check(cc.layout), f) && StartsWith(ev.flight.acc, CertMessages(f))
    && Agree(srv, ev, CertMessages(f))
    && |answers| > 4 && answers[4] == 58
  }

  /** Whenever the certificate connect establishes a session. */
  lemma {:induction false} EstablishedMeans(cc: CertClient, stream: Bytes, answers: seq<int>)
    requires cc.cl.c.Valid() && cc.Valid()
    ensures var o := Reach(cc, stream, answers);
            o.Some? ==> exists h, share, f :: Shows(cc, answers, o.value, h, share, f)
  {
    var o := Reach(cc, stream, answers);
    if o.Some? {
      var h := AfterHelloMeans(cc.Said(), stream, answers[4..]);
      var share, f := ShownMeans(cc, answers, o.value, h);
    }
  }

  lemma {:induction false} ShownMeans(cc: CertClient, answers: seq<int>, ev: Evidence, h: SH.Hello)
      returns (share: Bytes, f: CertFlight)
    requires cc.cl.c.Valid() && cc.Valid() && cc.HelloOut(answers)
    requires Shown(cc.Said(), answers[4..], ev, h)
    ensures Shows(cc, answers, ev, h, share, f)
  {
    var srv := ServerOf(cc, h, ev.ecdhe);
    share := NegotiatedChooses(cc.cl, cc.Offered(), None, ev, h, srv);
    f := FlightShown(cc.Side(ev.keys), srv, ev);
  }

  lemma {:induction false} FlightShown(side: CertSide, srv: Server, ev: Evidence) returns (f: CertFlight)
    requires srv.c.Valid() && ev.ch == srv.ch && ev.sh == srv.sh && SameKeys(ev.keys, srv.Hs())
    requires side.c == srv.c && side.secret == ev.keys.sHs
    requires ev.flight.p.core.done && OneShot(CertEnv(side), ev.ch + ev.sh, ev.flight)
    ensures CorrectCert(srv, side.id, f) && StartsWith(ev.flight.acc, CertMessages(f))
    ensures Agree(srv, ev, CertMessages(f))
  {
    f := FlightMeans(CertEnv(side), side, ev.ch + ev.sh, ev.flight);
    CertAgrees(srv, side, ev, f);
  }

  lemma {:induction false} CertAgrees(srv: Server, side: CertSide, ev: Evidence, f: CertFlight)
    requires srv.c.Valid() && ev.ch == srv.ch && ev.sh == srv.sh && SameKeys(ev.keys, srv.Hs())
    requires side.c == srv.c && side.secret == ev.keys.sHs
    requires CertFlightIs(side, ev.ch + ev.sh, ev.flight.acc, f)
    requires ev.Transcript() == ev.ch + ev.sh + f.M1() + f.M2() + f.M3() + f.M4()
    ensures CorrectCert(srv, side.id, f) && StartsWith(ev.flight.acc, CertMessages(f))
    ensures Agree(srv, ev, CertMessages(f))
  {
    AcceptedIsCorrect(srv, side, ev.flight.acc, f);
    CertMessagesAre(ev.ch + ev.sh, f);
    Agreement(srv, ev, CertMessages(f));
  }

  lemma {:induction false} FlightMeans(env: Env, side: CertSide, transcript: Bytes, s: State) returns (f: CertFlight)
    requires IsCertEnv(env, side) && s.p.core.done && OneShot(env, transcript, s)
    ensures CertFlightIs(side, transcript, s.acc, f)
    ensures s.p.core.transcript == transcript + f.M1() + f.M2() + f.M3() + f.M4()
  {
    f := CertRecovered(env, side, transcript, s.acc);
    CertAccepted(env, side, transcript, s.acc, f);
  }

  /** The anchor vouches for the presented chain; its leaf, whose key signed the handshake, has the pinned
      key and bears the name asked for. */
  ghost predicate BoundBy(cc: CertClient, ev: Evidence, f: CertFlight, chain: seq<Bytes>, leaf: Cert) {
    var trust := cc.trust;
    && Presented(f.cert) == Some(chain) && chain != []
    && Vouched(trust.pki, trust.pol.anchor, trust.pol.clock, chain) && trust.pki.parse(chain[0]) == Some(leaf)
    && (exists scheme, sig ::
          && IsVerify(f.cv, scheme, sig)
          && trust.verify(scheme, leaf.pubKey, Signed(cc.cl.c.hash(ev.ch + ev.sh + ThroughCert(f))), sig))
    && (trust.pol.pin.Some? ==> leaf.pubKey == trust.pol.pin.value)
    && (trust.pol.serverName.Some? ==> Bears(leaf, trust.pol.serverName.value))
  }

  lemma {:induction false} IdentityBound(cc: CertClient, stream: Bytes, answers: seq<int>)
    requires cc.cl.c.Valid() && cc.Valid()
    ensures var o := Reach(cc, stream, answers);
            o.Some? ==> exists f, chain, leaf :: BoundBy(cc, o.value, f, chain, leaf)
  {
    var o := Reach(cc, stream, answers);
    if o.Some? {
      EstablishedMeans(cc, stream, answers);
      var h, share, f :| Shows(cc, answers, o.value, h, share, f);
      var chain, leaf := LeafBound(cc, answers, o.value, h, share, f);
    }
  }

  lemma {:induction false} LeafBound(
      cc: CertClient, answers: seq<int>, ev: Evidence, h: SH.Hello, share: Bytes, f: CertFlight)
    returns (chain: seq<Bytes>, leaf: Cert)
    requires Shows(cc, answers, ev, h, share, f)
    ensures BoundBy(cc, ev, f, chain, leaf)
  {
    var trust := cc.trust;
    chain := Presented(f.cert).value;
    ChainMeans(trust.pki, trust.pol, cc.layout.spkiSz, chain);
    leaf := trust.pki.parse(chain[0]).value;
  }
}

/** Servers that the certificate connect accepts. */
module CertServer {
  import opened Base
  import opened Crypto
  import opened Numbers
  import opened Record
  import opened KeySchedule
  import opened Messages
  import opened Chain
  import opened Flight
  import opened FlightSteps
  import opened FlightExact
  import opened Handshake
  import opened HelloGrammar
  import opened HelloServer
  import opened Rfc8446
  import opened PeerServer
  import opened PeerLaw
  import opened Interop
  import opened CertFormat
  import opened PeerFlight
  import opened ConnectCert
  import SH = ServerHello
  import Division

  /** A server that can read the client's hello and finds its group, share and version in it, answers with
      an acceptable hello, then four messages that are correct under its own keys, in records of any size,
      padded and mixed with change_cipher_spec at will. */
  ghost predicate Honest(
      cc: CertClient, h: SH.Hello, share: Bytes, shared: Bytes, pieces: seq<Division.Piece>, f: CertFlight)
    requires cc.cl.c.Valid() && cc.Valid()
  {
    var srv := ServerOf(cc, h, shared);
    && HelloRead(cc)
    && AnswersTo(cc.cl, None, h, share, shared, cc.IoCap())
    && CorrectCert(srv, cc.trust.Check(cc.layout), f)
    && Contents(pieces) == CertMessages(f) && FitInto(cc.IoCap(), cc.layout.accSz, false, 0, pieces)
  }

  /** What a server reads in the client's hello. */
  ghost predicate HelloRead(cc: CertClient) {
    var d := DecodeHello(cc.Hello());
    && d.Some? && Received(cc.Hello(), d.value) && d.value.sessionId == cc.cl.e.sid
    && Offers(d.value, cc.cl.cfg.group.Id(), cc.cl.e.pub)
  }

  lemma {:induction false} HelloIsRead(cc: CertClient)
    requires cc.cl.e.Valid(cc.cl.cfg) && |cc.trust.Name()| <= 255
    ensures HelloRead(cc)
  {
    var e := cc.cl.e;
    CertHelloOffers(cc.cl.cfg, e.random, e.sid, e.pub, cc.trust.Name());
  }

  lemma {:induction false} EnvIsCert(cc: CertClient, sh: Bytes, shared: Bytes)
    requires cc.cl.c.Valid() && cc.Valid()
    ensures IsCertEnv(EnvFor(cc.Said(), sh, shared), cc.Side(KeysFor(cc.cl, cc.Said().o, sh, shared)))
  {
  }

  lemma {:induction false} FlightIs(srv: Server, env: Env, side: CertSide, f: CertFlight, pieces: seq<Division.Piece>)
    requires srv.c.KdfTotal() && IsCertEnv(env, side) && side.c == srv.c && side.secret == srv.Hs().server.secret
    requires CorrectCert(srv, side.id, f)
    requires Contents(pieces) == CertMessages(f) && FitInto(env.ioCap, env.room, env.strict, 0, pieces)
    ensures Division.Fits(env, 0, pieces)
    ensures CertFlightIs(side, srv.ch + srv.sh, Division.Content(pieces), f)
  {
    ContentsAre(pieces);
    FitsAre(env, 0, pieces);
    var m := CertMessages(f);
    assert m[..|m|] == m;
    CorrectIsAccepted(srv, side, m, f);
  }

  lemma {:induction false} HonestAnswer(
      cc: CertClient, h: SH.Hello, share: Bytes, shared: Bytes, pieces: seq<Division.Piece>, f: CertFlight,
      answers: seq<int>)
    requires cc.cl.c.Valid() && cc.cl.c.KdfTotal() && cc.Valid() && cc.layout.Valid()
    requires Honest(cc, h, share, shared, pieces, f)
    requires answers != [] && answers[0] == FINISHED_RECORD_SZ
    ensures var srv := ServerOf(cc, h, shared);
            var o := AfterHello(cc.Said(), srv.Sends(pieces), answers);
            o.Some? && Agree(srv, o.value, CertMessages(f))
  {
    var p, srv := cc.Said(), ServerOf(cc, h, shared);
    HelloIsHello(h);
    var env := EnvFor(p, srv.sh, shared);
    var side := cc.Side(KeysFor(cc.cl, p.o, srv.sh, shared));
    KeysForAre(cc.cl, p.o, srv);
    EnvIsCert(cc, srv.sh, shared);
    StreamIs(p, srv, env, pieces);
    AnswersAre(cc.cl, None, h, share, shared, cc.IoCap());
    FlightIs(srv, env, side, f, pieces);
    CertAccepted(env, side, srv.ch + srv.sh, Division.Content(pieces), f);
    HonestOutcome(p, h, shared, pieces, answers);
    var ev := AfterHello(p, srv.Sends(pieces), answers).value;
    CertMessagesAre(srv.ch + srv.sh, f);
    Agreement(srv, ev, CertMessages(f));
  }

  /** Against every honest server with an acceptable certificate, over a transport that takes what it is
      handed, the connect establishes a session, and the server accepts the client's Finished and holds the
      same application keys. */
  lemma {:induction false} HonestServerConnects(
      cc: CertClient, h: SH.Hello, share: Bytes, shared: Bytes, pieces: seq<Division.Piece>, f: CertFlight,
      answers: seq<int>)
    requires cc.cl.c.Valid() && cc.cl.c.KdfTotal() && cc.Valid() && cc.layout.Valid()
    requires Honest(cc, h, share, shared, pieces, f)
    requires |cc.trust.Name()| <= 255 && TakesAll(cc.Hello(), cc.scratchLen, answers)
    ensures var srv := ServerOf(cc, h, shared);
            var o := Reach(cc, srv.Sends(pieces), answers);
            o.Some? && Agree(srv, o.value, CertMessages(f))
  {
    HonestAnswer(cc, h, share, shared, pieces, f, answers[4..]);
    ReachIs(cc, ServerOf(cc, h, shared).Sends(pieces), answers);
  }

  lemma {:induction false} ReachIs(cc: CertClient, stream: Bytes, answers: seq<int>)
    requires cc.cl.c.Valid() && cc.Valid()
    requires |cc.trust.Name()| <= 255 && TakesAll(cc.Hello(), cc.scratchLen, answers)
    ensures Reach(cc, stream, answers) == AfterHello(cc.Said(), stream, answers[4..])
  {
  }

  // ---- there is one for every trust that accepts some chain and some signer ----

  /** A chain without extensions. */
  function EntriesOf(chain: seq<Bytes>): (r: seq<Entry>)
    ensures |r| == |chain|
  {
    seq(|chain|, i requires 0 <= i < |chain| => Entry(chain[i], []))
  }

  ghost function ListOf(chain: seq<Bytes>): Bytes { ListBytes(EntriesOf(chain)) }

  ghost function CertBodyOf(chain: seq<Bytes>): Bytes { [0] + Big(3, |ListOf(chain)|) + ListOf(chain) }

  ghost function CvBodyOf(scheme: nat, sig: Bytes): Bytes { Big(2, scheme) + Big(2, |sig|) + sig }

  /** The client's trust accepts this chain and whatever this signer signs, and the whole flight fits its
      accumulator. */
  ghost predicate Convinces(trust: Trust, layout: Layout, chain: seq<Bytes>, sign: Bytes -> (nat, Bytes)) {
    && 0 < |chain| <= 4 && (forall i :: 0 <= i < |chain| ==> |chain[i]| < 0x100_0000)
    && ChainOk(trust.pki, trust.pol, layout.spkiSz, chain)
    && forall content :: Signs(trust, layout, chain, sign, content)
  }

  ghost predicate Signs(trust: Trust, layout: Layout, chain: seq<Bytes>, sign: Bytes -> (nat, Bytes), content: Bytes)
    requires chain != [] && trust.pki.parse(chain[0]).Some?
  {
    var (scheme, sig) := sign(content);
    && trust.verify(scheme, trust.pki.parse(chain[0]).value.pubKey, content, sig)
    && scheme < 0x1_0000 && |sig| < 0x1_0000
    && 58 + |ListOf(chain)| + |sig| <= layout.accSz
  }

  lemma {:induction false} PresentsChain(chain: seq<Bytes>)
    requires |chain| <= 4 && |ListOf(chain)| < 0x100_0000
    requires forall i :: 0 <= i < |chain| ==> |chain[i]| < 0x100_0000
    ensures Presented(CertBodyOf(chain)) == Some(chain)
  {
    var entries := EntriesOf(chain);
    assert Certs(entries) == chain;
    assert ListBytes(entries) + [] == ListBytes(entries);
    assert IsCertificate(CertBodyOf(chain), entries, []);
    PresentedExact(CertBodyOf(chain), chain);
  }

  /** The flight of such a server. */
  ghost function FlightOf(srv: Server, chain: seq<Bytes>, sign: Bytes -> (nat, Bytes)): CertFlight {
    var (scheme, sig) := sign(ToSign(srv, chain));
    var f := CertFlight([0, 0], CertBodyOf(chain), CvBodyOf(scheme, sig), []);
    f.(fin := srv.Mac(ThroughVerify(f)))
  }

  /** What its signer signs. */
  ghost function ToSign(srv: Server, chain: seq<Bytes>): Bytes {
    Signed(srv.c.hash(srv.ch + srv.sh + ThroughCert(CertFlight([0, 0], CertBodyOf(chain), [], []))))
  }

  lemma {:induction false} FlightSize(srv: Server, chain: seq<Bytes>, sign: Bytes -> (nat, Bytes))
    requires srv.c.Valid()
    ensures var f := FlightOf(srv, chain, sign);
            |f.fin| == 32 && |CertMessages(f)| == 58 + |ListOf(chain)| + |sign(ToSign(srv, chain)).1|
  {
  }

  lemma {:induction false} ChainPasses(trust: Trust, layout: Layout, chain: seq<Bytes>)
    requires 0 < |chain| <= 4 && |ListOf(chain)| < 0x100_0000
    requires forall i :: 0 <= i < |chain| ==> |chain[i]| < 0x100_0000
    requires ChainOk(trust.pki, trust.pol, layout.spkiSz, chain)
    ensures var id, body := trust.Check(layout), CertBodyOf(chain);
            CertOk(id, body) && LeafKey(id, body) == trust.pki.parse(chain[0]).value.pubKey
  {
    PresentsChain(chain);
  }

  lemma {:induction false} FlightPasses(
      srv: Server, trust: Trust, layout: Layout, chain: seq<Bytes>, sign: Bytes -> (nat, Bytes))
    requires srv.c.Valid() && layout.Valid() && Convinces(trust, layout, chain, sign)
    ensures var f := FlightOf(srv, chain, sign);
            CorrectCert(srv, trust.Check(layout), f) && |CertMessages(f)| <= layout.accSz
  {
    var id, f := trust.Check(layout), FlightOf(srv, chain, sign);
    var (scheme, sig) := sign(ToSign(srv, chain));
    assert Signs(trust, layout, chain, sign, ToSign(srv, chain));
    FlightSize(srv, chain, sign);
    ChainPasses(trust, layout, chain);
    EmptyList(id.sni);
    assert IsVerify(f.cv, scheme, sig);
  }

  lemma {:induction false} EmptyList(sni: bool)
    ensures EncExtOk([0, 0], sni)
  {
    var ee: Bytes := [0, 0];
    assert ee[2..] == [] && GetU16(ee, 0) == 0;
  }

  /** Any content in records of at most 1000 bytes. */
  function Chop(all: Bytes): seq<Division.Piece>
    decreases |all|
  {
    if |all| <= 1000 then [Division.Piece(all, 0)] else [Division.Piece(all[..1000], 0)] + Chop(all[1000..])
  }

  lemma {:induction false} ChopFits(io: nat, room: nat, used: nat, all: Bytes)
    requires io >= 2048 && used + |all| <= room
    ensures Contents(Chop(all)) == all && FitInto(io, room, false, used, Chop(all))
    decreases |all|
  {
    var pieces := Chop(all);
    if |all| <= 1000 {
      assert pieces[1..] == [] && all + [] == all;
    } else {
      ChopFits(io, room, used + 1000, all[1000..]);
      assert pieces[1..] == Chop(all[1000..]) && all == all[..1000] + all[1000..];
    }
  }

  lemma {:induction false} HonestServerExists(
      cc: CertClient, share: Bytes, shared: Bytes, chain: seq<Bytes>, sign: Bytes -> (nat, Bytes))
    requires cc.cl.c.Valid() && cc.Valid() && cc.layout.Valid() && cc.cl.e.Valid(cc.cl.cfg)
    requires |share| == cc.cl.cfg.group.ServerShareSz() && cc.cl.e.agree(share) == Some(shared)
    requires |cc.trust.Name()| <= 255 && Convinces(cc.trust, cc.layout, chain, sign)
    ensures exists h, pieces, f :: Honest(cc, h, share, shared, pieces, f)
  {
    var h := PlainHello(cc.cl, share, []);
    var srv := ServerOf(cc, h, shared);
    var f := FlightOf(srv, chain, sign);
    HelloIsRead(cc);
    PlainHelloAnswers(cc.cl, share, shared, None, cc.IoCap());
    FlightPasses(srv, cc.trust, cc.layout, chain, sign);
    ChopFits(cc.IoCap(), cc.layout.accSz, 0, CertMessages(f));
    assert Honest(cc, h, share, shared, Chop(CertMessages(f)), f);
  }
}
