/** A server of its own: what it sends and what it checks, spelled out from the RFC without the client's
    code or constants. */
module PeerServer {
  import opened Base
  import opened Crypto
  import opened Numbers
  import opened Record
  import opened RecordLaw
  import opened Rfc8446
  import SH = ServerHello
  import Division

  // ---- messages ----

  /** A handshake message (section 4 of RFC 8446). */
  ghost function Msg(ty: Byte, body: Bytes): Bytes { [ty] + Big(3, |body|) + body }

  ghost function ExtBytes(e: SH.Ext): Bytes {
    match e
    case KeyShare(group, key) => Big(2, 51) + Big(2, 4 + |key|) + Big(2, group) + Big(2, |key|) + key
    case SupportedVersions(version) => Big(2, 43) + Big(2, 2) + Big(2, version)
    case PreSharedKey(identity) => Big(2, 41) + Big(2, 2) + Big(2, identity)
  }

  ghost function ExtsBytes(exts: seq<SH.Ext>): Bytes {
    if exts == [] then [] else ExtBytes(exts[0]) + ExtsBytes(exts[1..])
  }

  /** A ServerHello (section 4.1.3 of RFC 8446). */
  ghost function HelloBytes(h: SH.Hello): Bytes { Msg(2, HelloBody(h)) }

  ghost function HelloBody(h: SH.Hello): Bytes {
    var exts := ExtsBytes(h.exts);
    [3, 3] + h.random + Big(1, |h.sessionId|) + h.sessionId + Big(2, h.cipher) + [0] + Big(2, |exts|) + exts
  }

  /** The random that makes it a HelloRetryRequest instead: SHA-256 of that word. */
  function RetryRandom(): Bytes {
    [ 207,  33, 173, 116, 229, 154,  97,  17, 190,  29, 140,   2,  30, 101, 184, 145,
      194, 162,  17,  22, 122, 187, 140,  94,   7, 158,   9, 226, 200, 168,  51, 156]
  }

  /** It goes on with what was offered: this session id, group and share, version 0x0304, and either
      this PSK or none. */
  ghost predicate Selects(h: SH.Hello, sid: Bytes, group: nat, share: Bytes, psk: Option<nat>) {
    && h.sessionId == sid && h.cipher == 0x1301
    && SH.KeyShare(group, share) in h.exts && SH.SupportedVersions(0x0304) in h.exts
    && match psk
       case None => forall i :: SH.PreSharedKey(i) !in h.exts
       case Some(i) => SH.PreSharedKey(i) in h.exts
  }

  // ---- records ----

  /** A handshake record in plaintext. */
  ghost function Plain(msg: Bytes): Bytes { [22, 3, 3] + Big(2, |msg|) + msg }

  /** A division of the handshake messages into protected records, numbered from n, with compatibility
      change_cipher_spec records in between. */
  ghost function Protected(c: Suite, t: Traffic, n: nat, pieces: seq<Division.Piece>): Bytes
    requires |t.iv| == 12
    decreases |pieces|
  {
    if pieces == [] then []
    else
      match pieces[0]
      case Ccs => [20, 3, 3, 0, 1, 1] + Protected(c, t, n, pieces[1..])
      case Piece(content, pad) =>
        Ciphertext(c, t.key, t.iv, n % 0x1_0000_0000_0000_0000, content + [22] + Zeros(pad))
        + Protected(c, t, n + 1, pieces[1..])
  }

  ghost function Contents(pieces: seq<Division.Piece>): Bytes {
    if pieces == [] then []
    else
      match pieces[0]
      case Ccs => Contents(pieces[1..])
      case Piece(content, _) => content + Contents(pieces[1..])
  }

  /** No record is longer than a record may be, or than the reader has room for: `io` for the record
      and `room` for all contents, type and padding of the current record included if `padded`. */
  ghost predicate FitInto(io: nat, room: nat, padded: bool, used: nat, pieces: seq<Division.Piece>)
    decreases |pieces|
  {
    pieces == [] ||
    match pieces[0]
    case Ccs => FitInto(io, room, padded, used, pieces[1..])
    case Piece(content, pad) =>
      && |content| + pad <= 0x4000 && 5 + |content| + 1 + pad + 16 <= io
      && used + |content| + (if padded then 1 + pad else 0) <= room
      && FitInto(io, room, padded, used + |content|, pieces[1..])
  }

  // ---- one handshake ----

  /** The server knows the early secret, shares the (EC)DHE secret with the client, received this
      ClientHello and answered with this ServerHello. */
  datatype Server = Server(c: Suite, early: Bytes, shared: Bytes, ch: Bytes, sh: Bytes)
  {
    function Hs(): Stage { HandshakeStage(c, early, shared, c.hash(ch + sh)) }

    /** The application keys once these messages have followed the hellos. */
    function Ap(messages: Bytes): Stage { ApplicationStage(c, Hs().secret, c.hash(ch + sh + messages)) }

    /** Its verify_data behind these messages. */
    function Mac(messages: Bytes): Bytes { VerifyData(c, Hs().server.secret, c.hash(ch + sh + messages)) }

    ghost function Sends(pieces: seq<Division.Piece>): Bytes
      requires c.Valid()
    {
      Plain(sh) + Protected(c, Hs().server, 0, pieces)
    }

    /** The record is the client's Finished behind these messages: the first under the client's handshake
        key, and it holds the client's verify_data. */
    ghost predicate AcceptsFinished(rec: Bytes, messages: Bytes) {
      && |Hs().client.iv| == 12
      && Opens(c, Hs().client.key, Hs().client.iv, 0, rec, 22,
               Msg(20, VerifyData(c, Hs().client.secret, c.hash(ch + sh + messages))), 0)
    }
  }
}

/** That this is what the client's specification expects. */
module PeerLaw {
  import opened Base
  import opened Crypto
  import opened Numbers
  import opened Record
  import opened RecordLaw
  import opened Rfc8446
  import opened PeerServer
  import opened Flight
  import SH = ServerHello
  import Division

  lemma {:induction false} TwoBytes(n: nat)
    requires n < 0x1_0000
    ensures U16(n) == Big(2, n)
  {
    PowSmall();
    WrittenBigEndian(2, n);
  }

  lemma {:induction false} OneByte(n: nat)
    requires n < 0x100
    ensures Be(1, n) == Big(1, n)
  {
    PowSmall();
    WrittenBigEndian(1, n);
  }

  lemma {:induction false} LegacyVersion()
    ensures U16(0x0303) == [3, 3]
  {
    BeBytes(0x0303);
  }

  lemma {:induction false} MsgIsMessage(ty: Byte, body: Bytes)
    requires |body| < 0x100_0000
    ensures Msg(ty, body) == Message(ty, body)
  {
    PowSmall();
    WrittenBigEndian(3, |body|);
    Assoc([ty], U24(|body|), body);
  }

  lemma {:induction false} ExtIsExt(e: SH.Ext)
    requires e.Valid()
    ensures ExtBytes(e) == e.Encode()
  {
    TwoBytes(51);
    TwoBytes(43);
    TwoBytes(41);
    TwoBytes(2);
    match e {
      case KeyShare(g, k) =>
        TwoBytes(4 + |k|);
        TwoBytes(g);
        TwoBytes(|k|);
        Assoc(U16(51) + U16(4 + |k|) + U16(g), U16(|k|), k);
        Assoc(U16(51) + U16(4 + |k|), U16(g), U16(|k|) + k);
        Assoc(U16(51), U16(4 + |k|), U16(g) + (U16(|k|) + k));
      case SupportedVersions(v) =>
        TwoBytes(v);
        Assoc(U16(43), U16(2), U16(v));
      case PreSharedKey(i) =>
        TwoBytes(i);
        Assoc(U16(41), U16(2), U16(i));
    }
  }

  lemma {:induction false} ExtsAreExts(exts: seq<SH.Ext>)
    requires forall e <- exts :: e.Valid()
    ensures ExtsBytes(exts) == SH.EncodeExts(exts)
    decreases |exts|
  {
    if exts != [] {
      ExtIsExt(exts[0]);
      ExtsAreExts(exts[1..]);
    }
  }

  lemma {:induction false} Nested(a: Bytes, b: Bytes, c: Bytes, d: Bytes, e: Bytes, f: Bytes, g: Bytes, h: Bytes)
    ensures a + b + c + d + e + f + g + h == a + (b + (c + (d + (e + (f + (g + h))))))
  {
    Assoc(a + b + c + d + e + f, g, h);
    Assoc(a + b + c + d + e, f, g + h);
    Assoc(a + b + c + d, e, f + (g + h));
    Assoc(a + b + c, d, e + (f + (g + h)));
    Assoc(a + b, c, d + (e + (f + (g + h))));
    Assoc(a, b, c + (d + (e + (f + (g + h)))));
  }

  lemma {:induction false} BodyIsBody(h: SH.Hello)
    requires h.Valid()
    ensures HelloBody(h) == h.Body()
  {
    var exts := SH.EncodeExts(h.exts);
    ExtsAreExts(h.exts);
    OneByte(|h.sessionId|);
    TwoBytes(h.cipher);
    TwoBytes(|exts|);
    LegacyVersion();
    Nested([3, 3], h.random, Be(1, |h.sessionId|), h.sessionId, U16(h.cipher), [0], U16(|exts|), exts);
  }

  /** The grammar of the parser is that of the RFC. */
  lemma {:induction false} HelloIsHello(h: SH.Hello)
    requires h.Valid()
    ensures HelloBytes(h) == h.Encode()
  {
    BodyIsBody(h);
    MsgIsMessage(2, h.Body());
  }

  /** Exactly the hellos with that random are taken for a HelloRetryRequest. */
  lemma {:induction false} RetryExact(msg: Bytes)
    ensures SH.ParseSpec(msg) == SH.HelloRetry <==> |msg| >= 38 && msg[0] == 2 && msg[6..38] == RetryRandom()
  {
    forall i | 0 <= i < 32 ensures RetryRandom()[i] == SH.HRR_RANDOM[i] {
    }
    assert RetryRandom() == SH.HRR_RANDOM;
  }

  // ---- what the client reports of a hello ----

  /** Extensions of other kinds leave a field alone. */
  lemma {:induction false} Untouched(f: SH.Fields, exts: seq<SH.Ext>)
    ensures var r := SH.ApplyAll(f, exts);
            && r.random == f.random && r.sessionId == f.sessionId && r.cipher == f.cipher
            && ((forall e <- exts :: !e.KeyShare?) ==> r.keyShare == f.keyShare && r.group == f.group)
            && ((forall e <- exts :: !e.SupportedVersions?) ==> r.version == f.version)
            && ((forall e <- exts :: !e.PreSharedKey?) ==> r.psk == f.psk)
    decreases |exts|
  {
    if exts != [] {
      Untouched(SH.Apply(f, exts[0]), exts[1..]);
    }
  }

  /** And one of its kind sets it. */
  lemma {:induction false} Sets(f: SH.Fields, exts: seq<SH.Ext>, k: nat)
    requires k < |exts| && forall i, j :: 0 <= i < j < |exts| ==> exts[i].Type() != exts[j].Type()
    ensures var r := SH.ApplyAll(f, exts);
            match exts[k]
            case KeyShare(g, s) => r.keyShare == Some(s) && r.group == g
            case SupportedVersions(v) => r.version == v
            case PreSharedKey(i) => r.psk == i
    decreases |exts|
  {
    if k == 0 {
      forall e | e in exts[1..] ensures e.Type() != exts[0].Type() {
        var j :| 0 <= j < |exts[1..]| && exts[1..][j] == e;
        assert exts[j + 1] == e;
      }
      Untouched(SH.Apply(f, exts[0]), exts[1..]);
    } else {
      Sets(SH.Apply(f, exts[0]), exts[1..], k - 1);
    }
  }

  lemma {:induction false} SetsIn(h: SH.Hello, e: SH.Ext)
    requires h.Valid() && e in h.exts
    ensures var r := SH.Report(h);
            match e
            case KeyShare(g, s) => r.keyShare == Some(s) && r.group == g
            case SupportedVersions(v) => r.version == v
            case PreSharedKey(i) => r.psk == i
  {
    var k :| 0 <= k < |h.exts| && h.exts[k] == e;
    Sets(SH.Fields(h.random, h.sessionId, h.cipher, None, 0, 0, -1), h.exts, k);
  }

  /** The parser reports exactly what the hello selects. */
  lemma {:induction false} ReportsSelection(h: SH.Hello, sid: Bytes, group: nat, share: Bytes, psk: Option<nat>)
    requires h.Valid()
    ensures var f := SH.Report(h);
            Selects(h, sid, group, share, psk) <==>
            && f.sessionId == sid && f.cipher == 0x1301 && f.keyShare == Some(share) && f.group == group
            && f.version == 0x0304 && f.psk == (if psk.None? then -1 else psk.value)
  {
    var f := SH.Report(h);
    Untouched(SH.Fields(h.random, h.sessionId, h.cipher, None, 0, 0, -1), h.exts);
    forall e | e in h.exts
      ensures e.KeyShare? ==> f.keyShare == Some(e.key) && f.group == e.group
      ensures e.SupportedVersions? ==> f.version == e.version
      ensures e.PreSharedKey? ==> f.psk == e.identity
    {
      SetsIn(h, e);
    }
  }
}

/** The client and this server with each other: keys, records and Finished of one are those of the
    other. */
module Interop {
  import opened Base
  import opened Crypto
  import opened Numbers
  import opened Record
  import opened RecordLaw
  import opened KeySchedule
  import opened Rfc8446
  import opened ScheduleLaw
  import opened SessionSpec
  import opened Messages
  import opened Flight
  import opened Handshake
  import opened PeerServer
  import opened PeerLaw
  import SH = ServerHello
  import Division

  // ---- records ----

  lemma {:induction false} ContentsAre(pieces: seq<Division.Piece>)
    ensures Contents(pieces) == Division.Content(pieces)
    decreases |pieces|
  {
    if pieces != [] {
      ContentsAre(pieces[1..]);
      assert [] + Division.Content(pieces[1..]) == Division.Content(pieces[1..]);
    }
  }

  lemma {:induction false} FitsAre(env: Env, used: nat, pieces: seq<Division.Piece>)
    requires FitInto(env.ioCap, env.room, env.strict, used, pieces)
    ensures Division.Fits(env, used, pieces)
    decreases |pieces|
  {
    if pieces != [] {
      match pieces[0] {
        case Ccs => FitsAre(env, used, pieces[1..]);
        case Piece(content, pad) => FitsAre(env, used + |content|, pieces[1..]);
      }
    }
  }

  lemma {:induction false} WireIsProtected(env: Env, t: Traffic, n: nat, pieces: seq<Division.Piece>, used: nat)
    requires |env.iv| == IV_SZ && t.key == env.key && t.iv == env.iv
    requires FitInto(env.ioCap, env.room, env.strict, used, pieces)
    ensures Division.Wire(env, n, pieces) == Protected(env.c, t, n, pieces)
    decreases |pieces|
  {
    if pieces != [] {
      match pieces[0] {
        case Ccs => WireIsProtected(env, t, n, pieces[1..], used);
        case Piece(content, pad) =>
          SealedIsCiphertext(env.c, env.key, env.iv, n % WORD64, content + [HANDSHAKE] + Zeros(pad));
          WireIsProtected(env, t, n + 1, pieces[1..], used + |content|);
      }
    }
  }

  lemma {:induction false} PlainIsPlain(msg: Bytes)
    requires |msg| < 0x1_0000
    ensures Plain(msg) == PlainRecord(msg)
  {
    TwoBytes(|msg|);
  }

  /** The client's hello goes out as one plaintext record and a change_cipher_spec. */
  lemma {:induction false} HelloOnTheWire(ch: Bytes)
    requires |ch| < 0x1_0000
    ensures var b := HelloBuffers(ch); b[0] + b[1] == Plain(ch) && b[2] + b[3] == [20, 3, 3, 0, 1, 1]
  {
    TwoBytes(|ch|);
    BeBytes(1);
  }

  // ---- keys ----

  /** The client's handshake keys are this server's. */
  ghost predicate SameKeys(keys: HsKeys, hs: Stage) {
    && keys.hs == hs.secret
    && Traffic(keys.cHs, keys.cKey, keys.cIv) == hs.client && Traffic(keys.sHs, keys.sKey, keys.sIv) == hs.server
  }

  lemma {:induction false} KeysForAre(cl: Client, o: Offer, srv: Server)
    requires srv.c == cl.c && srv.early == o.early && srv.ch == o.ch
    ensures SameKeys(KeysFor(cl, o, srv.sh, srv.shared), srv.Hs())
  {
    HandshakeKeysAre(cl.c, o.early, srv.shared, cl.c.hash(o.ch + srv.sh));
  }

  lemma {:induction false} MacIsMac(c: Suite, baseKey: Bytes, messages: Bytes)
    ensures FinishedMac(c, baseKey, messages) == VerifyData(c, baseKey, messages)
  {
  }

  /** The server accepts the client's Finished over the same messages. */
  lemma {:induction false} FinishedAccepted(srv: Server, keys: HsKeys, messages: Bytes)
    requires srv.c.Valid() && SameKeys(keys, srv.Hs())
    ensures |keys.cIv| == IV_SZ
    ensures srv.AcceptsFinished(FinishedRecord(srv.c, keys, srv.c.hash(srv.ch + srv.sh + messages)), messages)
  {
    var th := srv.c.hash(srv.ch + srv.sh + messages);
    var fin := FinishedMsg(srv.c, keys.cHs, th);
    MsgIsMessage(20, VerifyData(srv.c, keys.cHs, th));
    OpensExactly(srv.c, keys.cKey, keys.cIv, fin);
  }

  /** What is sealed without padding opens without. */
  lemma {:induction false} OpensExactly(c: Suite, key: Bytes, iv: Bytes, fin: Bytes)
    requires c.Valid() && |iv| == IV_SZ
    ensures Opens(c, key, iv, 0, SealRecord(c, key, iv, 0, HANDSHAKE, fin), 22, fin, 0)
  {
    var inner := fin + [HANDSHAKE];
    var rec := SealRecord(c, key, iv, 0, HANDSHAKE, fin);
    NonceIsPerRecord(iv, 0);
    assert rec[..5] == Header(|inner|);
    assert rec[5..] == c.seal(key, Nonce(iv, 0), Header(|inner|), inner);
    assert inner == fin + [22] + Zeros(0);
  }

  /** Both sides hold the same application keys: what the session writes with the server reads with, and
      the other way round, both from sequence number 0 on. */
  ghost predicate SameSession(c: Suite, hs: Bytes, messages: Bytes, ap: Stage) {
    forall answers ::
      var s := Established(c, ClientAppSecret(c, hs, messages), ServerAppSecret(c, hs, messages), answers);
      s.tx == AsHalf(ap.client, 0, 0) && s.rx == AsHalf(ap.server, 0, 0) && s.established && !s.closed
  }

  /** What the server may conclude from an outcome of the client's over these messages of its flight. */
  ghost predicate Agree(srv: Server, ev: Evidence, messages: Bytes) {
    match ev
    case Evidence(ch, sh, _, keys, flight, _) =>
      var transcript := flight.p.core.transcript;
      && ch == srv.ch && sh == srv.sh && transcript == srv.ch + srv.sh + messages
      && SameKeys(keys, srv.Hs()) && |keys.cIv| == IV_SZ
      && srv.AcceptsFinished(FinishedRecord(srv.c, keys, srv.c.hash(transcript)), messages)
      && SameSession(srv.c, keys.hs, srv.c.hash(transcript), srv.Ap(messages))
  }

  lemma {:induction false} Agreement(srv: Server, ev: Evidence, messages: Bytes)
    requires srv.c.Valid() && ev.ch == srv.ch && ev.sh == srv.sh && SameKeys(ev.keys, srv.Hs())
    requires ev.Transcript() == srv.ch + srv.sh + messages
    ensures Agree(srv, ev, messages)
  {
    FinishedAccepted(srv, ev.keys, messages);
    ApplicationKeysAre(srv.c, ev.keys.hs, srv.c.hash(ev.Transcript()));
  }

  // ---- the hello ----

  /** The hello goes on with what was offered, and the agreement on its share gives this secret. */
  ghost predicate Chooses(cl: Client, psk: Option<nat>, h: SH.Hello, share: Bytes, shared: Bytes) {
    && h.Valid() && Selects(h, cl.e.sid, cl.cfg.group.Id(), share, psk)
    && |cl.e.sid| == 32 && |share| == cl.cfg.group.ServerShareSz() && cl.e.agree(share) == Some(shared)
  }

  /** And it comes in a record of its own. */
  ghost predicate AnswersTo(cl: Client, psk: Option<nat>, h: SH.Hello, share: Bytes, shared: Bytes, cap: nat) {
    Chooses(cl, psk, h, share, shared) && 5 + |HelloBytes(h)| <= cap && |HelloBytes(h)| <= 0x4000
  }

  lemma {:induction false} AnswersAre(
      cl: Client, psk: Option<nat>, h: SH.Hello, share: Bytes, shared: Bytes, cap: nat)
    requires AnswersTo(cl, psk, h, share, shared, cap)
    ensures Answers(cl, if psk.None? then -1 else psk.value, h, shared, cap)
  {
    ReportsSelection(h, cl.e.sid, cl.cfg.group.Id(), share, psk);
    HelloIsHello(h);
  }

  /** What the client negotiated was chosen by this hello, and with it come the server's keys. */
  lemma {:induction false} NegotiatedChooses(
      cl: Client, o: Offer, psk: Option<nat>, ev: Evidence, h: SH.Hello, srv: Server)
    returns (share: Bytes)
    requires NegotiatedAs(cl, o, ev.sh, ev.ecdhe, ev.keys, h) && ev.ch == o.ch
    requires o.psk == if psk.None? then -1 else psk.value
    requires srv == Server(cl.c, o.early, ev.ecdhe, o.ch, HelloBytes(h))
    ensures Chooses(cl, psk, h, share, ev.ecdhe) && ev.sh == srv.sh && SameKeys(ev.keys, srv.Hs())
  {
    share := SH.Report(h).keyShare.value;
    ReportsSelection(h, cl.e.sid, cl.cfg.group.Id(), share, psk);
    HelloIsHello(h);
    HandshakeKeysAre(cl.c, o.early, ev.ecdhe, cl.c.hash(o.ch + ev.sh));
  }

  /** What the reader meets on the wire. */
  lemma {:induction false} StreamIs(p: Party, srv: Server, env: Env, pieces: seq<Division.Piece>)
    requires p.Valid() && srv.c == p.cl.c && srv.early == p.o.early && srv.ch == p.o.ch
    requires env == EnvFor(p, srv.sh, srv.shared) && |srv.sh| < 0x1_0000 && env.c == srv.c
    requires var keys := KeysFor(p.cl, p.o, srv.sh, srv.shared); env.key == keys.sKey && env.iv == keys.sIv
    requires FitInto(env.ioCap, env.room, env.strict, 0, pieces)
    ensures srv.Sends(pieces) == HonestStream(p, srv.sh, srv.shared, pieces)
  {
    KeysForAre(p.cl, p.o, srv);
    WireIsProtected(env, srv.Hs().server, 0, pieces, 0);
    PlainIsPlain(srv.sh);
  }

  /** The plainest hello for this client and share is such an answer. */
  lemma {:induction false} PlainHelloAnswers(cl: Client, share: Bytes, shared: Bytes, psk: Option<nat>, cap: nat)
    requires cl.e.Valid(cl.cfg) && |share| == cl.cfg.group.ServerShareSz() && cl.e.agree(share) == Some(shared)
    requires cap >= 2048 && (psk == None || psk == Some(0))
    ensures var h := PlainHello(cl, share, if psk.None? then [] else [SH.PreSharedKey(0)]);
            AnswersTo(cl, psk, h, share, shared, cap)
  {
    var h := PlainHello(cl, share, if psk.None? then [] else [SH.PreSharedKey(0)]);
    PlainHelloAccepted(cl, share, shared, if psk.None? then [] else [SH.PreSharedKey(0)], cap);
    HelloIsHello(h);
    assert h.exts[0] == SH.KeyShare(cl.cfg.group.Id(), share) && h.exts[1] == SH.SupportedVersions(0x0304);
    assert psk.Some? ==> h.exts[2] == SH.PreSharedKey(0);
  }
}

/** The Certificate message in the RFC's words. */
module CertFormat {
  import opened Base
  import opened Numbers
  import opened Messages
  import opened PeerLaw
  import opened FlightSteps

  /** A certificate with its extensions (section 4.4.2 of RFC 8446). */
  ghost function EntryBytes(e: Entry): Bytes { Big(3, |e.cert|) + e.cert + Big(2, |e.ext|) + e.ext }

  ghost function ListBytes(entries: seq<Entry>): Bytes {
    if entries == [] then [] else EntryBytes(entries[0]) + ListBytes(entries[1..])
  }

  ghost predicate Sized(entries: seq<Entry>) {
    forall e <- entries :: |e.cert| < 0x100_0000 && |e.ext| < 0x1_0000
  }

  /** An empty context and a list that starts with these entries; only behind a fourth may anything else
      follow. */
  ghost predicate IsCertificate(body: Bytes, entries: seq<Entry>, behind: Bytes) {
    var list := ListBytes(entries) + behind;
    && Sized(entries) && |entries| <= 4 && (|entries| < 4 ==> behind == [])
    && |list| < 0x100_0000 && body == [0] + Big(3, |list|) + list
  }

  ghost function Certs(entries: seq<Entry>): (r: seq<Bytes>)
    ensures |r| == |entries|
  {
    seq(|entries|, i requires 0 <= i < |entries| => entries[i].cert)
  }

  lemma {:induction false} EntryBytesAre(e: Entry)
    requires e.Valid()
    ensures EntryBytes(e) == e.Encode()
  {
    PowSmall();
    WrittenBigEndian(3, |e.cert|);
    TwoBytes(|e.ext|);
    Assoc(U24(|e.cert|) + e.cert, U16(|e.ext|), e.ext);
  }

  lemma {:induction false} ListedFrom(body: Bytes, p: nat, room: nat, entries: seq<Entry>) returns (behind: Bytes)
    requires p <= |body| && EntriesFrom(body, p, room, entries)
    ensures Sized(entries) && |entries| <= room && (|entries| < room ==> behind == [])
    ensures body[p..] == ListBytes(entries) + behind
    decreases |entries|
  {
    if entries == [] {
      behind := body[p..];
    } else {
      var e := entries[0];
      var q := p + |e.Encode()|;
      behind := ListedFrom(body, q, room - 1, entries[1..]);
      EntryBytesAre(e);
      assert body[p..] == body[p..q] + body[q..];
      Assoc(e.Encode(), ListBytes(entries[1..]), behind);
      assert entries == [e] + entries[1..];
    }
  }

  lemma {:induction false} FromListed(body: Bytes, p: nat, room: nat, entries: seq<Entry>, behind: Bytes)
    requires Sized(entries) && |entries| <= room && (|entries| < room ==> behind == [])
    requires p <= |body| && body[p..] == ListBytes(entries) + behind
    ensures EntriesFrom(body, p, room, entries)
    decreases |entries|
  {
    if entries != [] {
      var e := entries[0];
      assert e in entries;
      EntryBytesAre(e);
      Assoc(e.Encode(), ListBytes(entries[1..]), behind);
      Front(body, p, e.Encode(), ListBytes(entries[1..]) + behind);
      FromListed(body, p + |e.Encode()|, room - 1, entries[1..], behind);
    }
  }

  lemma {:induction false} BodyIsCertificate(body: Bytes, entries: seq<Entry>)
    ensures CertBody(body, entries) <==> exists behind :: IsCertificate(body, entries, behind)
  {
    if CertBody(body, entries) {
      var behind := ListedFrom(body, 4, 4, entries);
      PowSmall();
      WrittenBigEndian(3, |body| - 4);
      assert body == [0] + body[1..4] + body[4..];
      assert IsCertificate(body, entries, behind);
    }
    forall behind | IsCertificate(body, entries, behind) ensures CertBody(body, entries) {
      var list := ListBytes(entries) + behind;
      PowSmall();
      WrittenBigEndian(3, |list|);
      assert body[1..4] == U24(|list|) && body[4..] == list;
      FromListed(body, 4, 4, entries, behind);
    }
  }

  /** The reader takes exactly these bodies, and the chain it presents is that of the entries. */
  lemma {:induction false} PresentedExact(body: Bytes, chain: seq<Bytes>)
    ensures Presented(body) == Some(chain) <==>
            exists entries, behind :: IsCertificate(body, entries, behind) && Certs(entries) == chain
  {
    CertListExact(body);
    if Presented(body) == Some(chain) {
      var entries: seq<Entry> :| CertBody(body, entries);
      PresentedAre(body, entries);
      BodyIsCertificate(body, entries);
    }
    forall entries, behind | IsCertificate(body, entries, behind) && Certs(entries) == chain
      ensures Presented(body) == Some(chain)
    {
      BodyIsCertificate(body, entries);
      PresentedAre(body, entries);
    }
  }

  lemma {:induction false} PresentedAre(body: Bytes, entries: seq<Entry>)
    requires CertBody(body, entries)
    ensures Presented(body) == Some(Certs(entries))
  {
    CertBodyAccepted(body, entries);
    SlicesInOrder(body, 4, 4);
    var chain := Presented(body).value;
    assert |chain| == |entries|;
    forall i | 0 <= i < |entries| ensures chain[i] == Certs(entries)[i] {
    }
    assert chain == Certs(entries);
  }
}

/** The server's flight, message by message. */
module PeerFlight {
  import opened Base
  import opened Crypto
  import opened Numbers
  import opened KeySchedule
  import opened Rfc8446
  import opened Messages
  import opened Flight
  import opened FlightSteps
  import opened FlightExact
  import opened PeerServer
  import opened PeerLaw
  import opened Interop

  function Ascii(s: string): Bytes {
    seq(|s|, i requires 0 <= i < |s| => if s[i] as int < 256 then s[i] as int else 0)
  }

  /** What a server signs (section 4.4.3 of RFC 8446). */
  function Signed(hash: Bytes): Bytes { seq(64, i => 32) + Ascii("TLS 1.3, server CertificateVerify") + [0] + hash }

  lemma {:induction false} SignedIs(hash: Bytes)
    ensures Signed(hash) == CvContent(hash)
  {
    var context := Ascii("TLS 1.3, server CertificateVerify");
    assert |context| == |CV_LABEL|;
    forall i | 0 <= i < |context| ensures context[i] == CV_LABEL[i] {
    }
    assert context == CV_LABEL;
  }

  /** A scheme and a signature with its length, nothing behind it. */
  ghost predicate IsVerify(body: Bytes, scheme: nat, sig: Bytes) {
    scheme < 0x1_0000 && |sig| < 0x1_0000 && body == Big(2, scheme) + Big(2, |sig|) + sig
  }

  lemma {:induction false} VerifyExact(body: Bytes, scheme: nat, sig: Bytes)
    ensures CvParts(body) == Some((scheme, sig)) <==> IsVerify(body, scheme, sig)
  {
    if CvParts(body) == Some((scheme, sig)) {
      U16Unique(body, 0);
      U16Unique(body, 2);
      TwoBytes(scheme);
      TwoBytes(|sig|);
      assert body == body[0..2] + body[2..4] + body[4..];
    }
    if IsVerify(body, scheme, sig) {
      TwoBytes(scheme);
      TwoBytes(|sig|);
      assert body[0..2] == U16(scheme) && body[2..4] == U16(|sig|) && body[4..] == sig;
      ReadsU16(body, 0, scheme);
      ReadsU16(body, 2, |sig|);
    }
  }

  // ---- the PSK flight ----

  ghost function PskMessages(ee: Bytes, fin: Bytes): Bytes { Msg(8, ee) + Msg(20, fin) }

  /** EncryptedExtensions that allow nothing of a server name, and the server's verify_data behind it. */
  ghost predicate CorrectPsk(srv: Server, ee: Bytes, fin: Bytes) {
    EncExtOk(ee, false) && fin == srv.Mac(Msg(8, ee)) && 8 + |ee| + |fin| <= 512
  }

  lemma {:induction false} PskIsCorrect(srv: Server, acc: Bytes, ee: Bytes, fin: Bytes)
    ensures PskFlightIs(srv.c, srv.Hs().server.secret, srv.ch + srv.sh, acc, ee, fin) ==>
              CorrectPsk(srv, ee, fin) && StartsWith(acc, PskMessages(ee, fin))
    ensures srv.c.KdfTotal() && CorrectPsk(srv, ee, fin) && StartsWith(acc, PskMessages(ee, fin)) ==>
              PskFlightIs(srv.c, srv.Hs().server.secret, srv.ch + srv.sh, acc, ee, fin)
    ensures 8 + |ee| + |fin| <= 512 ==>
              PskMessages(ee, fin) == Message(ENCRYPTED_EXT, ee) + Message(FINISHED, fin)
  {
    if 8 + |ee| + |fin| <= 512 {
      MsgIsMessage(8, ee);
      MsgIsMessage(20, fin);
    }
  }

  // ---- the certificate flight ----

  ghost function ThroughCert(f: CertFlight): Bytes { Msg(8, f.ee) + Msg(11, f.cert) }

  ghost function ThroughVerify(f: CertFlight): Bytes { ThroughCert(f) + Msg(15, f.cv) }

  ghost function CertMessages(f: CertFlight): Bytes { ThroughVerify(f) + Msg(20, f.fin) }

  /** The leaf key verifies the signature over the messages through Certificate. */
  ghost predicate CorrectlySigned(srv: Server, id: Identity, f: CertFlight)
    requires CertOk(id, f.cert)
  {
    exists scheme, sig ::
      && IsVerify(f.cv, scheme, sig)
      && id.verify(scheme, LeafKey(id, f.cert), Signed(srv.c.hash(srv.ch + srv.sh + ThroughCert(f))), sig)
  }

  /** EncryptedExtensions, a chain that passes, the signature, and the verify_data over all of them. */
  ghost predicate CorrectCert(srv: Server, id: Identity, f: CertFlight) {
    && f.Valid() && EncExtOk(f.ee, id.sni) && CertOk(id, f.cert) && CorrectlySigned(srv, id, f)
    && f.fin == srv.Mac(ThroughVerify(f))
  }

  lemma {:induction false} CertMessagesAre(transcript: Bytes, f: CertFlight)
    requires f.Valid()
    ensures CertMessages(f) == f.Encode()
    ensures transcript + ThroughCert(f) == transcript + f.M1() + f.M2()
    ensures transcript + ThroughVerify(f) == transcript + f.M1() + f.M2() + f.M3()
    ensures transcript + CertMessages(f) == transcript + f.M1() + f.M2() + f.M3() + f.M4()
  {
    MsgIsMessage(8, f.ee);
    MsgIsMessage(11, f.cert);
    MsgIsMessage(15, f.cv);
    MsgIsMessage(20, f.fin);
    Assoc(transcript, f.M1(), f.M2());
    Assoc(transcript, f.M1() + f.M2(), f.M3());
    Assoc(transcript, f.M1() + f.M2() + f.M3(), f.M4());
  }

  lemma {:induction false} SignatureIsCorrect(srv: Server, id: Identity, f: CertFlight)
    requires f.Valid() && CertOk(id, f.cert)
    ensures SignatureOk(srv.c, id, srv.ch + srv.sh + f.M1() + f.M2(), LeafKey(id, f.cert), f.cv) <==>
            CorrectlySigned(srv, id, f)
  {
    CertMessagesAre(srv.ch + srv.sh, f);
    var hash := srv.c.hash(srv.ch + srv.sh + ThroughCert(f));
    SignedIs(hash);
    if CvParts(f.cv).Some? {
      var (scheme, sig) := CvParts(f.cv).value;
      VerifyExact(f.cv, scheme, sig);
    }
    forall scheme: nat, sig | IsVerify(f.cv, scheme, sig) ensures CvParts(f.cv) == Some((scheme, sig)) {
      VerifyExact(f.cv, scheme, sig);
    }
  }

  /** The client's checks are exactly these. */
  lemma {:induction false} CertIsCorrect(srv: Server, side: CertSide, f: CertFlight)
    requires side.c == srv.c && side.secret == srv.Hs().server.secret && f.Valid() && CertOk(side.id, f.cert)
    ensures f.Encode() == CertMessages(f)
    ensures SignatureOk(srv.c, side.id, srv.ch + srv.sh + f.M1() + f.M2(), LeafKey(side.id, f.cert), f.cv) <==>
            CorrectlySigned(srv, side.id, f)
    ensures f.fin == srv.Mac(ThroughVerify(f)) && srv.c.KdfTotal() ==>
            MacOk(srv.c, side.secret, srv.ch + srv.sh + f.M1() + f.M2() + f.M3(), f.fin)
    ensures MacOk(srv.c, side.secret, srv.ch + srv.sh + f.M1() + f.M2() + f.M3(), f.fin) ==>
            f.fin == srv.Mac(ThroughVerify(f))
  {
    CertMessagesAre(srv.ch + srv.sh, f);
    SignatureIsCorrect(srv, side.id, f);
    MacIsMac(srv.c, side.secret, srv.c.hash(srv.ch + srv.sh + ThroughVerify(f)));
  }

  lemma {:induction false} AcceptedIsCorrect(srv: Server, side: CertSide, acc: Bytes, f: CertFlight)
    requires side.c == srv.c && side.secret == srv.Hs().server.secret
    requires CertFlightIs(side, srv.ch + srv.sh, acc, f)
    ensures CorrectCert(srv, side.id, f) && StartsWith(acc, CertMessages(f))
  {
    CertIsCorrect(srv, side, f);
  }

  lemma {:induction false} CorrectIsAccepted(srv: Server, side: CertSide, acc: Bytes, f: CertFlight)
    requires side.c == srv.c && side.secret == srv.Hs().server.secret && srv.c.KdfTotal()
    requires CorrectCert(srv, side.id, f) && StartsWith(acc, CertMessages(f))
    ensures CertFlightIs(side, srv.ch + srv.sh, acc, f)
  {
    CertIsCorrect(srv, side, f);
  }
}
