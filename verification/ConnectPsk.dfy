/** wn_Connect_Psk_ex. */
module ConnectPsk {
  import opened Base
  import opened Crypto
  import opened Wire
  import opened Transport
  import opened Record
  import opened KeySchedule
  import opened HelloBuilder
  import opened Messages
  import opened Flight
  import opened FlightSteps
  import opened FlightExact
  import opened Handshake
  import opened HelloGrammar
  import opened HelloServer
  import opened Rfc8446
  import opened PeerServer
  import opened PeerLaw
  import opened Interop
  import opened PeerFlight
  import opened ScheduleLaw
  import SH = ServerHello
  import PskHello
  import PskReader
  import Division
  import Session

  // ---- the specification ----

  /** A client with its key, its identity and the size of its scratch buffer. */
  datatype PskClient = PskClient(cl: Client, psk: Bytes, id: Bytes, cap: nat)
  {
    function Early(): Bytes { cl.c.extract([], psk) }

    function BinderKey(): Bytes { DeriveSecret(cl.c, Early(), "ext binder", cl.c.hash([])) }

    predicate BinderFails() {
      cl.c.expandFails(Early(), "ext binder", cl.c.hash([]), HASH_SZ) || FinishedFails(cl.c, BinderKey())
    }

    function Stem(): Bytes { PskHello.Stem(cl.cfg, cl.e.random, cl.e.sid, cl.e.pub, id) }

    /** The MAC over the hello's stem. */
    function Binder(): Bytes { FinishedMac(cl.c, BinderKey(), cl.c.hash(Stem())) }

    function HelloWith(binder: Bytes): Bytes {
      PskHello.Hello(cl.cfg, cl.e.random, cl.e.sid, cl.e.pub, id, binder).Encode()
    }

    function SignedHello(): Bytes { HelloWith(Binder()) }

    function Side(keys: HsKeys): PskSide { PskSide(cl.c, keys.sHs, keys.sKey, keys.sIv, cap) }

    /** The client once this hello is out. */
    ghost function Said(): (p: Party)
      ensures cl.c.Valid() ==> p.Valid()
      ensures p.cl == cl && p.cap == cap && p.o == Offer(Early(), SignedHello(), 0)
    {
      Party(cl, Offer(Early(), SignedHello(), 0), cap, keys => PskEnv(Side(keys)))
    }
  }

  /** What a client that passed its argument checks makes of the server's bytes and the transport's
      answers. */
  ghost function Reach(pc: PskClient, stream: Bytes, answers: seq<int>): Option<Evidence>
    requires pc.cl.c.Valid()
  {
    if |pc.SignedHello()| > pc.cap || pc.BinderFails() || !Taken(answers, HelloBuffers(pc.SignedHello())) then None
    else AfterHello(pc.Said(), stream, answers[4..])
  }

  /** The random source or the key generation may have failed. */
  ghost function Outcome(
      c: Suite, cfg: Config, source: Option<Entropy>, psk: Bytes, id: Bytes, cap: nat,
      stream: Bytes, answers: seq<int>): Option<Evidence>
    requires c.Valid()
  {
    if source.None? then None else Reach(PskClient(Client(c, cfg, source.value), psk, id, cap), stream, answers)
  }

  predicate ArgsOk(psk: Bytes, id: Bytes, scratchLen: nat) {
    psk != [] && 2048 <= scratchLen && |id| <= 0xFFFF
  }

  // ---- the code ----

  /** The hello into scratch with a zero binder. */
  method WriteHello(pc: PskClient, scratch: array<Byte>) returns (ok: bool, truncOff: nat, binderOff: nat)
    requires pc.cl.e.Valid(pc.cl.cfg) && |pc.id| <= 0xFFFF && pc.cap <= scratch.Length && pc.cap <= MAX_BUFFER
    modifies scratch
    ensures var stem := pc.Stem();
            && ok == (|stem| + 35 <= pc.cap)
            && (ok ==> truncOff == |stem| && binderOff == |stem| + 3
                       && scratch[..truncOff] == stem && scratch[..binderOff] == stem + (U16(33) + [32]))
  {
    ghost var stem := pc.Stem();
    var e := pc.cl.e;
    PskHello.StemAndBinder(pc.cl.cfg, e.random, e.sid, e.pub, pc.id, Zeros(32));
    var w := new Writer(scratch, pc.cap);
    truncOff, binderOff := PskHello.Build(w, pc.cl.cfg, e.random, e.sid, e.pub, pc.id);
    ok := !w.err;
    if ok {
      ghost var ch := scratch[..w.len];
      assert ch == stem + (U16(33) + [32] + Zeros(32));
      Prefixes(stem, U16(33) + [32], Zeros(32));
      assert scratch[..truncOff] == ch[..truncOff] && scratch[..binderOff] == ch[..binderOff];
    }
  }

  lemma {:induction false} Prefixes(a: Bytes, b: Bytes, c: Bytes)
    ensures (a + (b + c))[..|a|] == a && (a + (b + c))[..|a + b|] == a + b
  {
    assert a + (b + c) == (a + b) + c;
  }

  method FillBinder(scratch: array<Byte>, binderOff: nat, binder: Bytes, ghost front: Bytes)
    requires |binder| == 32 && binderOff + 32 <= scratch.Length && scratch[..binderOff] == front
    modifies scratch
    ensures scratch[..binderOff + 32] == front + binder
  {
    forall i | 0 <= i < 32 {
      scratch[binderOff + i] := binder[i];
    }
    assert scratch[..binderOff] == front && scratch[binderOff..binderOff + 32] == binder;
  }

  lemma {:induction false} SignedHelloParts(pc: PskClient)
    requires pc.cl.c.Valid()
    ensures pc.SignedHello() == pc.Stem() + (U16(33) + [32] + pc.Binder()) && |pc.Binder()| == 32
  {
    var e := pc.cl.e;
    PskHello.StemAndBinder(pc.cl.cfg, e.random, e.sid, e.pub, pc.id, pc.Binder());
  }

  /** The hello into scratch, binder last. */
  method BuildHello(pc: PskClient, scratch: array<Byte>) returns (ret: Code, ch: Bytes)
    requires pc.cl.c.Valid() && pc.cl.e.Valid(pc.cl.cfg)
    requires |pc.id| <= 0xFFFF && pc.cap <= scratch.Length && pc.cap <= MAX_BUFFER
    modifies scratch
    ensures ret == Success <==> |pc.SignedHello()| <= pc.cap && !pc.BinderFails()
    ensures ret == Success ==> ch == pc.SignedHello()
    ensures ret == Success && PskHello.BlockFits(pc.cl.cfg, pc.cl.e.pub, pc.id) ==>
              AcceptsPsk(pc.cl.c, pc.psk, pc.id, ch)
  {
    ch := [];
    SignedHelloParts(pc);
    BinderAccepted(pc);
    var c, early := pc.cl.c, pc.cl.c.extract([], pc.psk);
    var ok, truncOff, binderOff := WriteHello(pc, scratch);
    if !ok || c.expandFails(early, "ext binder", c.hash([]), HASH_SZ) {
      return Code.Crypto, ch;
    }
    var binderKey, binder := c.expand(early, "ext binder", c.hash([]), HASH_SZ), [];
    ret, binder := PskReader.ComputeMac(c, binderKey, c.hash(scratch[..truncOff]));
    if ret == Success {
      FillBinder(scratch, binderOff, binder, pc.Stem() + (U16(33) + [32]));
      ch := scratch[..binderOff + 32];
      Assoc(pc.Stem(), U16(33) + [32], binder);
    }
  }

  /** Read the server's hello and flight. */
  method ReadServer(pc: PskClient, ch: Bytes, io: Channel, scratch: array<Byte>)
    returns (ret: Code, keys: HsKeys, transcript: Bytes, ghost ev: Option<Evidence>)
    requires pc.cl.c.Valid() && ch == pc.SignedHello()
    requires HEADER_SZ <= pc.cap <= scratch.Length && pc.cap <= MAX_BUFFER
    modifies io`incoming, scratch
    ensures ev == ServerRead(pc.Said(), Stream(old(io.incoming))) && (ret == Success <==> ev.Some?)
    ensures ev.Some? ==> Left(ev.value, ch, keys, transcript, Stream(io.incoming))
  {
    ghost var p := pc.Said();
    ghost var n;
    ret, transcript, keys, n := NegotiateKeys(pc.cl, Offer(pc.Early(), ch, 0), io, scratch, pc.cap);
    ev := None;
    if ret == Success {
      ret, transcript, ev := ReadMessages(pc.Side(keys), io, scratch, transcript, p.o, n.value);
    }
  }

  /** The flight loop on plain[512]. */
  method ReadMessages(side: PskSide, io: Channel, scratch: array<Byte>, transcript: Bytes, ghost o: Offer,
      ghost n: Negotiated)
    returns (ret: Code, transcript': Bytes, ghost ev: Option<Evidence>)
    requires side.c.Valid() && |side.iv| == IV_SZ && HEADER_SZ <= side.ioCap <= scratch.Length
    requires transcript == o.ch + n.sh && n.rest == Stream(io.incoming)
    modifies io`incoming, scratch
    ensures ev == ReadWith(PskEnv(side), o, n) && (ret == Success <==> ev.Some?)
    ensures ev.Some? ==> transcript' == ev.value.Transcript() && Stream(io.incoming) == ev.value.rest
  {
    var reader := new PskReader.PskReader(side, scratch, transcript);
    ret := reader.Read(io);
    transcript' := reader.transcript;
    ev := if ret == Success then Some(Evidence(o.ch, n.sh, n.ecdhe, n.keys, reader.View(), Stream(io.incoming)))
      else None;
  }

  /** The handshake after the argument checks. */
  method Proceed(sess: Session.Session, io: Channel, pc: PskClient, scratch: array<Byte>) returns (ret: Code)
    requires Zeroed(sess) && sess.c == pc.cl.c && pc.cl.e.Valid(pc.cl.cfg)
    requires ArgsOk(pc.psk, pc.id, pc.cap) && pc.cap <= scratch.Length && pc.cap <= MAX_BUFFER
    modifies sess, sess.tx, sess.rx, io, scratch
    ensures sess.Valid() && Concluded(sess, ret)
    ensures Reported(sess, io, ret, scratch, pc.cap, old(io.outgoing), old(io.answers),
                     Reach(pc, Stream(old(io.incoming)), old(io.answers)))
  {
    var ch;
    ret, ch := BuildHello(pc, scratch);
    ghost var sent;
    if ret == Success {
      ret, sent := SendHello(io, ch);
    }
    if ret == Success {
      ret := Respond(sess, io, pc, ch, scratch, old(io.outgoing), old(io.answers));
    }
  }

  /** The handshake once the hello is out. */
  method Respond(
      sess: Session.Session, io: Channel, pc: PskClient, ch: Bytes, scratch: array<Byte>,
      ghost sent: seq<Bytes>, ghost answers: seq<int>) returns (ret: Code)
    requires Zeroed(sess) && sess.c == pc.cl.c && ch == pc.SignedHello()
    requires 2048 <= pc.cap <= scratch.Length && pc.cap <= MAX_BUFFER
    requires |answers| >= 4 && io.answers == answers[4..] && io.outgoing == sent + HelloBuffers(ch)
    modifies sess, sess.tx, sess.rx, io, scratch
    ensures sess.Valid() && Concluded(sess, ret)
    ensures Reported(sess, io, ret, scratch, pc.cap, sent, answers,
                     AfterHello(pc.Said(), Stream(old(io.incoming)), answers[4..]))
  {
    var keys, transcript;
    ghost var ev;
    ghost var outcome := AfterHello(pc.Said(), Stream(io.incoming), answers[4..]);
    ret, keys, transcript, ev := ReadServer(pc, ch, io, scratch);
    if ret != Success {
      assert outcome == None;
      return;
    }
    var used;
    ret, used := Finalize(sess, io, keys, transcript, scratch, pc.cap, sent, answers, ev.value, outcome);
  }

  /** wn_Connect_Psk_ex: refused arguments touch nothing; otherwise the session is zeroed first, and
      established exactly when the specification reaches an outcome. */
  method Connect(
      sess: Session.Session, io: Channel, cfg: Config, source: Option<Entropy>, psk: Bytes, id: Bytes,
      scratch: array<Byte>, scratchLen: nat) returns (ret: Code)
    requires sess.c.Valid() && sess.tx != sess.rx
    requires source.Some? ==> source.value.Valid(cfg)
    requires scratchLen <= scratch.Length && scratchLen <= MAX_BUFFER
    modifies sess, sess.tx, sess.rx, io, scratch
    ensures !ArgsOk(psk, id, scratchLen) ==> ret == InvalidArg && unchanged(sess, sess.tx, sess.rx, io, scratch)
    ensures ArgsOk(psk, id, scratchLen) ==>
              && sess.Valid() && Concluded(sess, ret)
              && Reported(sess, io, ret, scratch, scratchLen, old(io.outgoing), old(io.answers),
                          Outcome(sess.c, cfg, source, psk, id, scratchLen, Stream(old(io.incoming)),
                            old(io.answers)))
  {
    if |psk| == 0 || scratchLen < 2048 || |id| > 0xFFFF {
      return InvalidArg;
    }
    sess.Zero();
    if source.None? {
      return Code.Crypto;
    }
    ret := Proceed(sess, io, PskClient(Client(sess.c, cfg, source.value), psk, id, scratchLen), scratch);
  }

  /** The hello's record frames back to it exactly for identities up to this length; section 5.1 of
      RFC 8446 stops 256 bytes earlier. The code accepts longer ones and sends a record with an illegal
      or truncated length. */
  lemma {:induction false} HelloRecordLegal(pc: PskClient, rest: Bytes)
    requires pc.cl.c.Valid() && pc.cl.e.Valid(pc.cl.cfg)
    ensures var ch := pc.SignedHello();
            var rec := PlainHeader(HANDSHAKE, |ch|) + ch;
            var n := 167 + |pc.cl.e.pub| + (if pc.cl.cfg.mldsa then 2 else 0) + |pc.id|;
            && (Frame(rec + rest, |rec|) == Framed(HANDSHAKE, rec, rest) <==> n <= MAX_PLAINTEXT + 256)
            && (|ch| <= MAX_PLAINTEXT <==> n <= MAX_PLAINTEXT)
  {
    var e := pc.cl.e;
    SignedHelloParts(pc);
    PskHello.HelloSize(pc.cl.cfg, e.random, e.sid, e.pub, pc.id, pc.Binder());
    HelloFrames(pc.SignedHello(), rest, HEADER_SZ + |pc.SignedHello()|);
  }

  // ---- what an established session means ----

  /** A server with this key that received the client's hello and answered with this one. */
  ghost function ServerOf(pc: PskClient, h: SH.Hello, shared: Bytes): Server {
    Server(pc.cl.c, EarlySecret(pc.cl.c, pc.psk), shared, pc.SignedHello(), HelloBytes(h))
  }

  /** The evidence shows: the ClientHello is the one signed with the PSK; the server's hello is the
      encoding of one that echoes the session id, selects identity 0 and what was offered; the decrypted
      flight starts with exactly EncryptedExtensions and Finished, with the verify_data of a server that
      has the PSK, the agreed secret and both hellos; such a server holds the client's handshake keys and
      application keys over the transcript through its Finished, and accepts the client's Finished; and
      that was taken whole. */
  ghost predicate Shows(
      pc: PskClient, answers: seq<int>, ev: Evidence, h: SH.Hello, share: Bytes, ee: Bytes, fin: Bytes)
  {
    var srv := ServerOf(pc, h, ev.ecdhe);
    && ev.ch == pc.SignedHello() && !pc.BinderFails() && Taken(answers, HelloBuffers(ev.ch))
    && Chooses(pc.cl, Some(0), h, share, ev.ecdhe)
    && CorrectPsk(srv, ee, fin) && StartsWith(ev.flight.acc, PskMessages(ee, fin))
    && Agree(srv, ev, PskMessages(ee, fin))
    && |answers| > 4 && answers[4] == 58
  }

  /** Whenever the PSK connect establishes a session. */
  lemma {:induction false} EstablishedMeans(pc: PskClient, stream: Bytes, answers: seq<int>)
    requires pc.cl.c.Valid()
    ensures var o := Reach(pc, stream, answers);
            o.Some? ==> exists h, share, ee, fin :: Shows(pc, answers, o.value, h, share, ee, fin)
  {
    var o := Reach(pc, stream, answers);
    if o.Some? {
      var h := AfterHelloMeans(pc.Said(), stream, answers[4..]);
      var share, ee, fin := ShownMeans(pc, answers, o.value, h);
    }
  }

  lemma {:induction false} ShownMeans(pc: PskClient, answers: seq<int>, ev: Evidence, h: SH.Hello)
      returns (share: Bytes, ee: Bytes, fin: Bytes)
    requires pc.cl.c.Valid() && Taken(answers, HelloBuffers(ev.ch)) && !pc.BinderFails()
    requires Shown(pc.Said(), answers[4..], ev, h)
    ensures Shows(pc, answers, ev, h, share, ee, fin)
  {
    var srv := ServerOf(pc, h, ev.ecdhe);
    share := NegotiatedChooses(pc.cl, pc.Said().o, Some(0), ev, h, srv);
    ee, fin := FlightShown(pc.Side(ev.keys), srv, ev);
  }

  lemma {:induction false} FlightShown(side: PskSide, srv: Server, ev: Evidence) returns (ee: Bytes, fin: Bytes)
    requires srv.c.Valid() && ev.ch == srv.ch && ev.sh == srv.sh && SameKeys(ev.keys, srv.Hs())
    requires side.c == srv.c && side.secret == ev.keys.sHs
    requires ev.flight.p.core.done && OneShot(PskEnv(side), ev.ch + ev.sh, ev.flight)
    ensures CorrectPsk(srv, ee, fin) && StartsWith(ev.flight.acc, PskMessages(ee, fin))
    ensures Agree(srv, ev, PskMessages(ee, fin))
  {
    ee, fin := FlightMeans(PskEnv(side), side, ev.ch + ev.sh, ev.flight);
    PskAgrees(srv, ev, ee, fin);
  }

  lemma {:induction false} PskAgrees(srv: Server, ev: Evidence, ee: Bytes, fin: Bytes)
    requires srv.c.Valid() && ev.ch == srv.ch && ev.sh == srv.sh && SameKeys(ev.keys, srv.Hs())
    requires PskFlightIs(srv.c, ev.keys.sHs, ev.ch + ev.sh, ev.flight.acc, ee, fin)
    requires ev.Transcript() == ev.ch + ev.sh + Message(ENCRYPTED_EXT, ee) + Message(FINISHED, fin)
    ensures CorrectPsk(srv, ee, fin) && StartsWith(ev.flight.acc, PskMessages(ee, fin))
    ensures Agree(srv, ev, PskMessages(ee, fin))
  {
    PskIsCorrect(srv, ev.flight.acc, ee, fin);
    Assoc(ev.ch + ev.sh, Message(ENCRYPTED_EXT, ee), Message(FINISHED, fin));
    Agreement(srv, ev, PskMessages(ee, fin));
  }

  lemma {:induction false} FlightMeans(env: Env, side: PskSide, transcript: Bytes, s: State)
      returns (ee: Bytes, fin: Bytes)
    requires IsPskEnv(env, side) && s.p.core.done && OneShot(env, transcript, s)
    ensures PskFlightIs(side.c, side.secret, transcript, s.acc, ee, fin)
    ensures s.p.core.transcript == transcript + Message(ENCRYPTED_EXT, ee) + Message(FINISHED, fin)
  {
    ee, fin := PskRecovered(env, side, transcript, s.acc);
    PskAccepted(env, side, transcript, s.acc, ee, fin);
  }

  // ---- and that it can be reached ----

  /** Its messages. */
  ghost function FlightOf(srv: Server, ee: Bytes): Bytes { PskMessages(ee, srv.Mac(Msg(8, ee))) }

  /** A server that can read the client's hello, finds its group, version, mode and identity in it and
      accepts the binder, answers with an acceptable hello, then EncryptedExtensions and Finished under its
      own keys in records of any size, padded and mixed with change_cipher_spec at will. */
  ghost predicate Honest(
      pc: PskClient, h: SH.Hello, share: Bytes, shared: Bytes, pieces: seq<Division.Piece>, ee: Bytes)
    requires pc.cl.c.Valid()
  {
    var srv := ServerOf(pc, h, shared);
    && AcceptsPsk(pc.cl.c, pc.psk, pc.id, srv.ch)
    && (var d := DecodeHello(srv.ch).value;
        Received(srv.ch, d) && d.sessionId == pc.cl.e.sid && Offers(d, pc.cl.cfg.group.Id(), pc.cl.e.pub))
    && AnswersTo(pc.cl, Some(0), h, share, shared, pc.cap) && EncExtOk(ee, false)
    && Contents(pieces) == FlightOf(srv, ee) && FitInto(pc.cap, 512, true, 0, pieces)
  }

  /** The binder sent is the one a server computes: it accepts the client's hello exactly if the block
      fits. */
  lemma {:induction false} BinderAccepted(pc: PskClient)
    requires pc.cl.c.Valid() && pc.cl.e.Valid(pc.cl.cfg) && |pc.id| <= 0xFFFF
    ensures AcceptsPsk(pc.cl.c, pc.psk, pc.id, pc.SignedHello()) <==>
            PskHello.BlockFits(pc.cl.cfg, pc.cl.e.pub, pc.id)
  {
    var e := pc.cl.e;
    SignedHelloParts(pc);
    PskAcceptedExactly(pc.cl.c, pc.psk, pc.cl.cfg, e.random, e.sid, e.pub, pc.id, pc.Binder());
  }

  lemma {:induction false} HelloReceived(pc: PskClient)
    requires pc.cl.c.Valid() && pc.cl.e.Valid(pc.cl.cfg) && |pc.id| <= 0xFFFF
    requires PskHello.BlockFits(pc.cl.cfg, pc.cl.e.pub, pc.id)
    ensures var d := DecodeHello(pc.SignedHello());
            && d.Some? && Received(pc.SignedHello(), d.value) && d.value.sessionId == pc.cl.e.sid
            && Offers(d.value, pc.cl.cfg.group.Id(), pc.cl.e.pub)
  {
    var e := pc.cl.e;
    SignedHelloParts(pc);
    PskHelloOffers(pc.cl.cfg, e.random, e.sid, e.pub, pc.id, pc.Binder());
  }

  lemma {:induction false} FlightIs(srv: Server, env: Env, ee: Bytes, pieces: seq<Division.Piece>)
    requires srv.c.Valid() && srv.c.KdfTotal() && EncExtOk(ee, false)
    requires Contents(pieces) == FlightOf(srv, ee) && FitInto(env.ioCap, 512, true, 0, pieces)
    requires env.room == PLAIN_SZ && env.strict
    ensures var fin := srv.Mac(Msg(8, ee));
            && Division.Fits(env, 0, pieces)
            && PskFlightIs(srv.c, srv.Hs().server.secret, srv.ch + srv.sh, Division.Content(pieces), ee, fin)
            && FlightOf(srv, ee) == Message(ENCRYPTED_EXT, ee) + Message(FINISHED, fin)
  {
    var fin := srv.Mac(Msg(8, ee));
    ContentsAre(pieces);
    FitsAre(env, 0, pieces);
    Division.ContentBounded(env, 0, pieces);
    var m := PskMessages(ee, fin);
    assert Division.Content(pieces) == m && m[..|m|] == m;
    PskIsCorrect(srv, m, ee, fin);
  }

  lemma {:induction false} EnvIsPsk(pc: PskClient, sh: Bytes, shared: Bytes)
    requires pc.cl.c.Valid()
    ensures IsPskEnv(EnvFor(pc.Said(), sh, shared), pc.Side(KeysFor(pc.cl, pc.Said().o, sh, shared)))
  {
  }

  lemma {:induction false} NoBinderFails(pc: PskClient)
    requires pc.cl.c.KdfTotal()
    ensures !pc.BinderFails()
  {
  }

  /** Against every honest server, over a transport that takes what it is handed, the connect
      establishes a session, and the server accepts the client's Finished and holds the same application
      keys. */
  lemma {:induction false} HonestServerConnects(
      pc: PskClient, h: SH.Hello, share: Bytes, shared: Bytes, pieces: seq<Division.Piece>, ee: Bytes,
      answers: seq<int>)
    requires pc.cl.c.Valid() && pc.cl.c.KdfTotal() && pc.cap >= 2048
    requires Honest(pc, h, share, shared, pieces, ee) && TakesAll(pc.SignedHello(), pc.cap, answers)
    ensures var srv := ServerOf(pc, h, shared);
            var o := Reach(pc, srv.Sends(pieces), answers);
            o.Some? && Agree(srv, o.value, FlightOf(srv, ee))
  {
    NoBinderFails(pc);
    HonestAnswer(pc, h, share, shared, pieces, ee, answers[4..]);
    ReachIs(pc, ServerOf(pc, h, shared).Sends(pieces), answers);
  }

  lemma {:induction false} ReachIs(pc: PskClient, stream: Bytes, answers: seq<int>)
    requires pc.cl.c.Valid() && !pc.BinderFails() && TakesAll(pc.SignedHello(), pc.cap, answers)
    ensures Reach(pc, stream, answers) == AfterHello(pc.Said(), stream, answers[4..])
  {
  }

  lemma {:induction false} HonestAnswer(
      pc: PskClient, h: SH.Hello, share: Bytes, shared: Bytes, pieces: seq<Division.Piece>, ee: Bytes,
      answers: seq<int>)
    requires pc.cl.c.Valid() && pc.cl.c.KdfTotal() && pc.cap >= 2048
    requires Honest(pc, h, share, shared, pieces, ee)
    requires answers != [] && answers[0] == FINISHED_RECORD_SZ
    ensures var srv := ServerOf(pc, h, shared);
            var o := AfterHello(pc.Said(), srv.Sends(pieces), answers);
            o.Some? && Agree(srv, o.value, FlightOf(srv, ee))
  {
    var p, srv := pc.Said(), ServerOf(pc, h, shared);
    HelloIsHello(h);
    var env := EnvFor(p, srv.sh, shared);
    KeysForAre(pc.cl, p.o, srv);
    EnvIsPsk(pc, srv.sh, shared);
    StreamIs(p, srv, env, pieces);
    AnswersAre(pc.cl, Some(0), h, share, shared, pc.cap);
    FlightIs(srv, env, ee, pieces);
    PskAccepted(env, pc.Side(KeysFor(pc.cl, p.o, srv.sh, shared)), srv.ch + srv.sh, Division.Content(pieces), ee,
                srv.Mac(Msg(8, ee)));
    HonestOutcome(p, h, shared, pieces, answers);
    var ev := AfterHello(p, srv.Sends(pieces), answers).value;
    Assoc(srv.ch + srv.sh, Message(ENCRYPTED_EXT, ee), Message(FINISHED, srv.Mac(Msg(8, ee))));
    Agreement(srv, ev, FlightOf(srv, ee));
  }

  /** After an acceptable hello, one record is enough. */
  lemma {:induction false} OnePiece(pc: PskClient, h: SH.Hello, share: Bytes, shared: Bytes)
    returns (pieces: seq<Division.Piece>)
    requires pc.cl.c.Valid() && pc.cl.e.Valid(pc.cl.cfg) && pc.cap >= 2048 && |pc.id| <= 0xFFFF
    requires PskHello.BlockFits(pc.cl.cfg, pc.cl.e.pub, pc.id) && AnswersTo(pc.cl, Some(0), h, share, shared, pc.cap)
    ensures Honest(pc, h, share, shared, pieces, [0, 0])
  {
    BinderAccepted(pc);
    HelloReceived(pc);
    EmptyEncExt();
    pieces := ShortFlight(ServerOf(pc, h, shared), pc.cap);
  }

  lemma {:induction false} ShortFlight(srv: Server, cap: nat) returns (pieces: seq<Division.Piece>)
    requires srv.c.Valid() && cap >= 2048
    ensures Contents(pieces) == FlightOf(srv, [0, 0]) && FitInto(cap, 512, true, 0, pieces)
  {
    var all := FlightOf(srv, [0, 0]);
    assert |all| == 42;
    pieces := [Division.Piece(all, 0)];
    assert pieces[1..] == [] && all + [] == all;
  }

  /** And there is one for every client whose agreement accepts some share, exactly if its identity leaves
      room for the extension block. */
  lemma {:induction false} HonestServerExists(pc: PskClient, share: Bytes, shared: Bytes)
    requires pc.cl.c.Valid() && pc.cl.e.Valid(pc.cl.cfg) && pc.cap >= 2048 && |pc.id| <= 0xFFFF
    requires |share| == pc.cl.cfg.group.ServerShareSz() && pc.cl.e.agree(share) == Some(shared)
    ensures (exists h, pieces, ee :: Honest(pc, h, share, shared, pieces, ee)) <==>
            PskHello.BlockFits(pc.cl.cfg, pc.cl.e.pub, pc.id)
  {
    BinderAccepted(pc);
    if PskHello.BlockFits(pc.cl.cfg, pc.cl.e.pub, pc.id) {
      var h := PlainHello(pc.cl, share, [SH.PreSharedKey(0)]);
      PlainHelloAnswers(pc.cl, share, shared, Some(0), pc.cap);
      var pieces := OnePiece(pc, h, share, shared);
    }
  }

  lemma {:induction false} EmptyEncExt()
    ensures EncExtOk([0, 0], false)
  {
    var ee: Bytes := [0, 0];
    assert ee[2..] == [] && GetU16(ee, 0) == 0;
  }
}
