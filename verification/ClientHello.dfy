/** The ClientHello grammar of section 4.1.2 of RFC 8446. */
module HelloGrammar {
  import opened Base
  import opened Extensions

  const CLIENT_HELLO: Byte := 1

  datatype ClientHello = ClientHello(random: Bytes, sessionId: Bytes, suites: Bytes, compressions: Bytes,
      exts: seq<RawExt>)
  {
    /** Every field fits its place; the size of the extension block is a condition of its own. */
    ghost predicate Valid() {
      && |random| == 32 && |sessionId| < 0x100 && |suites| < 0x1_0000 && |compressions| < 0x100
      && (forall e <- exts :: e.Valid())
      && |Body()| < 0x100_0000
    }

    function Body(): Bytes { U16(0x0303) + (random + Tail()) }

    function Tail(): Bytes {
      Vec(1, sessionId) + (Vec(2, suites) + (Vec(1, compressions) + Vec(2, EncodeRaw(exts))))
    }

    function Encode(): Bytes { Message(CLIENT_HELLO, Body()) }
  }

  /** A decoder that reads the grammar left to right and insists on consuming the whole message. */
  function DecodeHello(msg: Bytes): Option<ClientHello> {
    if |msg| < 38 || msg[0] != CLIENT_HELLO || GetU24(msg, 1) != |msg| - 4 || GetU16(msg, 4) != 0x0303 then None
    else DecodeTail(msg[6..38], msg[38..])
  }

  function DecodeTail(random: Bytes, s: Bytes): Option<ClientHello> {
    match TakeVec(1, s)
    case None => None
    case Some((sid, s1)) =>
      match TakeVec(2, s1)
      case None => None
      case Some((suites, s2)) =>
        match TakeVec(1, s2)
        case None => None
        case Some((comps, s3)) =>
          match DecodeBlock(s3)
          case None => None
          case Some(exts) => Some(ClientHello(random, sid, suites, comps, exts))
  }

  /** The extension block that ends a message. */
  function DecodeBlock(s: Bytes): Option<seq<RawExt>> {
    match TakeVec(2, s)
    case None => None
    case Some((block, rest)) => if rest != [] then None else ParseRaw(block)
  }

  lemma {:induction false} BlockIffFits(exts: seq<RawExt>)
    requires forall x <- exts :: x.Valid()
    ensures DecodeBlock(Vec(2, EncodeRaw(exts))) == if |EncodeRaw(exts)| < 0x1_0000 then Some(exts) else None
  {
    var block := EncodeRaw(exts);
    if |block| < 0x1_0000 {
      assert Vec(2, block) == Vec(2, block) + [];
      TakesVec(2, block, []);
      ParsesRaw(exts);
    } else {
      assert BeValue(2, Vec(2, block)) < 0x1_0000;
    }
  }

  lemma {:induction false} TailIffFits(h: ClientHello)
    requires h.Valid()
    ensures DecodeTail(h.random, h.Tail()) == if |EncodeRaw(h.exts)| < 0x1_0000 then Some(h) else None
  {
    var block := Vec(2, EncodeRaw(h.exts));
    TakesVec(1, h.sessionId, Vec(2, h.suites) + (Vec(1, h.compressions) + block));
    TakesVec(2, h.suites, Vec(1, h.compressions) + block);
    TakesVec(1, h.compressions, block);
    BlockIffFits(h.exts);
  }

  lemma {:induction false} EncodedHead(h: ClientHello)
    requires h.Valid()
    ensures var msg := h.Encode();
            && 38 <= |msg| && msg[0] == CLIENT_HELLO && GetU24(msg, 1) == |msg| - 4 && GetU16(msg, 4) == 0x0303
            && msg[6..38] == h.random && msg[38..] == h.Tail()
  {
    var msg, body := h.Encode(), h.Body();
    Front(msg, 1, U24(|body|), body);
    Front(msg, 4, U16(0x0303), h.random + h.Tail());
    Front(msg, 6, h.random, h.Tail());
    ReadsU24(msg, 1, |body|);
    ReadsU16(msg, 4, 0x0303);
  }

  /** An encoded ClientHello decodes to itself exactly when its extension block fits 16 bits. */
  lemma {:induction false} DecodesIffBlockFits(h: ClientHello)
    requires h.Valid()
    ensures DecodeHello(h.Encode()) == if |EncodeRaw(h.exts)| < 0x1_0000 then Some(h) else None
  {
    EncodedHead(h);
    TailIffFits(h);
  }
}

/** The ClientHello builders, src/wn_clienthello.c and build_client_hello in src/wn_connect.c. */
module HelloBuilder {
  import opened Base
  import opened Wire
  import opened Extensions
  import opened HelloGrammar

  /** The build options that decide what is offered. */
  datatype KeyGroup = X25519 | P256 | Hybrid
  {
    function Id(): nat {
      match this
      case X25519 => 0x001d
      case P256 => 0x0017
      case Hybrid => 0x11ec
    }

    function PubSz(): nat {
      match this
      case X25519 => 32
      case P256 => 65
      case Hybrid => 1216
    }

    function ServerShareSz(): nat {
      match this
      case X25519 => 32
      case P256 => 65
      case Hybrid => 1120
    }
  }

  datatype Config = Config(group: KeyGroup, fips: bool, mldsa: bool, mldsaScheme: nat, ecc384: bool, rsa: bool,
      sha384: bool, sha512: bool)

  function IfOffered(offered: bool, scheme: nat): Bytes {
    if offered then U16(scheme) else []
  }

  /** signature_algorithms of the certificate hello, in wire order. */
  function CertSchemes(cfg: Config): (r: Bytes)
    ensures |r| <= 14
  {
    EdSchemes(cfg) + EcRsaSchemes(cfg)
  }

  function EdSchemes(cfg: Config): (r: Bytes)
    ensures |r| <= 4
  {
    IfOffered(!cfg.fips && cfg.mldsa, cfg.mldsaScheme) + IfOffered(!cfg.fips, 0x0807)
  }

  function EcRsaSchemes(cfg: Config): (r: Bytes)
    ensures |r| <= 10
  {
    IfOffered(cfg.ecc384 && cfg.sha384, 0x0503) + U16(0x0403) + RsaSchemes(cfg)
  }

  function RsaSchemes(cfg: Config): (r: Bytes)
    ensures |r| <= 6
  {
    IfOffered(cfg.rsa && cfg.sha512, 0x0806) + IfOffered(cfg.rsa && cfg.sha384, 0x0805) + IfOffered(cfg.rsa, 0x0804)
  }

  function VersionsExt(): RawExt { RawExt(43, Vec(1, U16(0x0304))) }

  function GroupsExt(cfg: Config): RawExt { RawExt(10, Vec(2, U16(cfg.group.Id()))) }

  function KeyShareExt(cfg: Config, pub: Bytes): RawExt { RawExt(51, Vec(2, U16(cfg.group.Id()) + Vec(2, pub))) }

  /** A single host_name entry (section 3 of RFC 6066). */
  function SniExt(name: Bytes): RawExt { RawExt(0, Vec(2, [0] + Vec(2, name))) }

  function FrontName(name: Bytes): seq<RawExt> { if name == [] then [] else [SniExt(name)] }

  function CertExts(cfg: Config, pub: Bytes, name: Bytes): seq<RawExt> {
    FrontName(name) + [VersionsExt(), GroupsExt(cfg), SigAlgsExt(cfg), KeyShareExt(cfg, pub)]
  }

  /** What the certificate client means to say. */
  function CertHello(cfg: Config, random: Bytes, sid: Bytes, pub: Bytes, name: Bytes): ClientHello {
    ClientHello(random, sid, U16(0x1301), [0], CertExts(cfg, pub, name))
  }

  // ---- writing one extension each ----

  /** One more extension behind those written since `base`. */
  lemma {:induction false} ExtDone(w: Writer, mid: Bytes, ty: nat, body: Bytes)
    requires w.Emitted(mid + U16(ty), Vec(2, body))
    ensures w.Emitted(mid, ExtBytes(ty, body))
  {
    Assoc(mid, U16(ty), Vec(2, body));
  }

  lemma {:induction false} Grew(w: Writer, base: Bytes, exts: seq<RawExt>, e: RawExt, mid: Bytes)
    requires w.Emitted(mid, ExtBytes(e.ty, e.body))
    requires |mid| == |base| + |EncodeRaw(exts)| && (!w.err ==> mid == base + EncodeRaw(exts))
    ensures w.Emitted(base, EncodeRaw(exts + [e]))
  {
    RawAppend(exts, e);
    assert base + EncodeRaw(exts) + ExtBytes(e.ty, e.body) == base + EncodeRaw(exts + [e]);
  }

  /** A list that fills its extension, with both lengths written ahead. */
  lemma {:induction false} ListDone(w: Writer, mid: Bytes, ty: nat, list: Bytes)
    requires w.want == mid + U16(ty) + U16(|list| + 2) + U16(|list|) + list
    ensures w.Emitted(mid, ExtBytes(ty, Vec(2, list)))
  {
    Assoc(mid + U16(ty) + U16(|list| + 2), U16(|list|), list);
    Assoc(mid + U16(ty), U16(|list| + 2), Vec(2, list));
    Assoc(mid, U16(ty), Vec(2, Vec(2, list)));
  }

  lemma {:induction false} RawAppend(exts: seq<RawExt>, e: RawExt)
    ensures EncodeRaw(exts + [e]) == EncodeRaw(exts) + ExtBytes(e.ty, e.body)
    decreases |exts|
  {
    if exts == [] {
      assert exts + [e] == [e];
    } else {
      assert (exts + [e])[1..] == exts[1..] + [e];
      RawAppend(exts[1..], e);
    }
  }

  method WriteSni(w: Writer, name: Bytes, ghost base: Bytes, ghost exts: seq<RawExt>)
    requires w.Valid() && |name| <= 255
    requires w.Emitted(base, EncodeRaw(exts))
    modifies w, w.buf
    ensures w.Valid() && w.Emitted(base, EncodeRaw(exts + [SniExt(name)]))
  {
    ghost var mid := w.want;
    var n := |name|;
    w.WriteU16(0);
    w.WriteU16(2 + 1 + 2 + n);
    w.WriteU16(1 + 2 + n);
    w.WriteU8(0);
    w.WriteU16(n);
    w.WriteBytes(name);
    Assoc3(mid + U16(0) + U16(5 + n) + U16(3 + n), [0], U16(n), name);
    ListDone(w, mid, 0, [0] + Vec(2, name));
    Grew(w, base, exts, SniExt(name), mid);
  }

  method WriteVersions(w: Writer, ghost base: Bytes, ghost exts: seq<RawExt>)
    requires w.Valid()
    requires w.Emitted(base, EncodeRaw(exts))
    modifies w, w.buf
    ensures w.Valid() && w.Emitted(base, EncodeRaw(exts + [VersionsExt()]))
  {
    ghost var mid := w.want;
    w.WriteU16(43);
    w.WriteU16(3);
    w.WriteU8(2);
    w.WriteU16(0x0304);
    BeBytes(2);
    assert ExtBytes(43, VersionsExt().body) == U16(43) + U16(3) + [2] + U16(0x0304);
    Grew(w, base, exts, VersionsExt(), mid);
  }

  method WriteGroups(w: Writer, cfg: Config, ghost base: Bytes, ghost exts: seq<RawExt>)
    requires w.Valid()
    requires w.Emitted(base, EncodeRaw(exts))
    modifies w, w.buf
    ensures w.Valid() && w.Emitted(base, EncodeRaw(exts + [GroupsExt(cfg)]))
  {
    ghost var mid := w.want;
    w.WriteU16(10);
    w.WriteU16(4);
    w.WriteU16(2);
    w.WriteU16(cfg.group.Id());
    ListDone(w, mid, 10, U16(cfg.group.Id()));
    Grew(w, base, exts, GroupsExt(cfg), mid);
  }

  method WriteKeyShare(w: Writer, cfg: Config, pub: Bytes, ghost base: Bytes, ghost exts: seq<RawExt>)
    requires w.Valid() && |pub| == cfg.group.PubSz()
    requires w.Emitted(base, EncodeRaw(exts))
    modifies w, w.buf
    ensures w.Valid() && w.Emitted(base, EncodeRaw(exts + [KeyShareExt(cfg, pub)]))
  {
    ghost var mid := w.want;
    var n := |pub|;
    w.WriteU16(51);
    w.WriteU16(2 + 2 + 2 + n);
    w.WriteU16(2 + 2 + n);
    w.WriteU16(cfg.group.Id());
    w.WriteU16(n);
    w.WriteBytes(pub);
    Assoc3(mid + U16(51) + U16(6 + n) + U16(4 + n), U16(cfg.group.Id()), U16(n), pub);
    ListDone(w, mid, 51, U16(cfg.group.Id()) + Vec(2, pub));
    Grew(w, base, exts, KeyShareExt(cfg, pub), mid);
  }

  method WriteScheme(w: Writer, offered: bool, scheme: nat)
    requires w.Valid()
    modifies w, w.buf
    ensures w.Valid() && w.want == old(w.want) + IfOffered(offered, scheme)
  {
    if offered {
      w.WriteU16(scheme);
    }
  }

  method WriteSchemes(w: Writer, cfg: Config)
    requires w.Valid()
    modifies w, w.buf
    ensures w.Valid() && w.want == old(w.want) + CertSchemes(cfg)
  {
    WriteEdSchemes(w, cfg);
    WriteEcRsaSchemes(w, cfg);
    Assoc(old(w.want), EdSchemes(cfg), EcRsaSchemes(cfg));
  }

  method WriteEdSchemes(w: Writer, cfg: Config)
    requires w.Valid()
    modifies w, w.buf
    ensures w.Valid() && w.want == old(w.want) + EdSchemes(cfg)
  {
    WriteScheme(w, !cfg.fips && cfg.mldsa, cfg.mldsaScheme);
    WriteScheme(w, !cfg.fips, 0x0807);
    Assoc(old(w.want), IfOffered(!cfg.fips && cfg.mldsa, cfg.mldsaScheme), IfOffered(!cfg.fips, 0x0807));
  }

  method WriteEcRsaSchemes(w: Writer, cfg: Config)
    requires w.Valid()
    modifies w, w.buf
    ensures w.Valid() && w.want == old(w.want) + EcRsaSchemes(cfg)
  {
    WriteScheme(w, cfg.ecc384 && cfg.sha384, 0x0503);
    w.WriteU16(0x0403);
    WriteRsaSchemes(w, cfg);
    Assoc3(old(w.want), IfOffered(cfg.ecc384 && cfg.sha384, 0x0503), U16(0x0403), RsaSchemes(cfg));
  }

  method WriteRsaSchemes(w: Writer, cfg: Config)
    requires w.Valid()
    modifies w, w.buf
    ensures w.Valid() && w.want == old(w.want) + RsaSchemes(cfg)
  {
    WriteScheme(w, cfg.rsa && cfg.sha512, 0x0806);
    WriteScheme(w, cfg.rsa && cfg.sha384, 0x0805);
    WriteScheme(w, cfg.rsa, 0x0804);
    Assoc3(old(w.want), IfOffered(cfg.rsa && cfg.sha512, 0x0806), IfOffered(cfg.rsa && cfg.sha384, 0x0805),
           IfOffered(cfg.rsa, 0x0804));
  }

  /** A length-prefixed list of schemes. */
  method WriteSchemeList(w: Writer, cfg: Config)
    requires w.Valid()
    modifies w, w.buf
    ensures w.Valid() && w.Emitted(old(w.want), Vec(2, CertSchemes(cfg)))
  {
    ghost var before := w.want;
    var saList := w.LenStart(2);
    WriteSchemes(w, cfg);
    Close(w, saList, before, CertSchemes(cfg));
  }

  /** LenEnd on a 2-byte length. */
  method Close(w: Writer, off: nat, ghost before: Bytes, ghost body: Bytes)
    requires w.Valid() && w.Emitted(before + Zeros(2), body) && (!w.err ==> off == |before| + 2)
    modifies w, w.buf
    ensures w.Valid() && w.Emitted(before, Vec(2, body))
  {
    ghost var open := w.want;
    w.LenEnd(off, 2);
    w.Bracket(before, 2, body, open);
  }

  function SigAlgsExt(cfg: Config): RawExt { RawExt(13, Vec(2, CertSchemes(cfg))) }

  /** Self-sized with two nested length backfills. */
  method WriteSigAlgs(w: Writer, cfg: Config, ghost base: Bytes, ghost exts: seq<RawExt>)
    requires w.Valid() && w.Emitted(base, EncodeRaw(exts))
    modifies w, w.buf
    ensures w.Valid() && w.Emitted(base, EncodeRaw(exts + [SigAlgsExt(cfg)]))
  {
    ghost var mid := w.want;
    w.WriteU16(13);
    ghost var before := w.want;
    var saExt := w.LenStart(2);
    WriteSchemeList(w, cfg);
    Close(w, saExt, before, Vec(2, CertSchemes(cfg)));
    ExtDone(w, mid, 13, Vec(2, CertSchemes(cfg)));
    Grew(w, base, exts, SigAlgsExt(cfg), mid);
  }

  // ---- the frame around the extensions ----

  /** Everything between the handshake header and the extension block. */
  function Preamble(random: Bytes, sid: Bytes): Bytes {
    U16(0x0303) + random + Vec(1, sid) + Vec(2, U16(0x1301)) + Vec(1, [0])
  }

  method WriteIds(w: Writer, random: Bytes, sid: Bytes)
    requires w.Valid() && |random| == 32 && |sid| <= 32
    modifies w, w.buf
    ensures w.Valid() && w.want == old(w.want) + (U16(0x0303) + random + Vec(1, sid))
  {
    w.WriteU16(0x0303);
    w.WriteBytes(random);
    w.WriteU8(|sid|);
    if |sid| > 0 {
      w.WriteBytes(sid);
    }
    BeBytes(|sid|);
  }

  method WritePreamble(w: Writer, random: Bytes, sid: Bytes)
    requires w.Valid() && |random| == 32 && |sid| <= 32
    modifies w, w.buf
    ensures w.Valid() && w.want == old(w.want) + Preamble(random, sid)
  {
    WriteIds(w, random, sid);
    ghost var mid := w.want;
    w.WriteU16(2);
    w.WriteU16(0x1301);
    w.WriteU8(1);
    w.WriteU8(0);
    assert w.want == mid + Vec(2, U16(0x1301)) + Vec(1, [0]) by { BeBytes(1); }
    Assoc(old(w.want), U16(0x0303) + random + Vec(1, sid), Vec(2, U16(0x1301)));
    Assoc(old(w.want), U16(0x0303) + random + Vec(1, sid) + Vec(2, U16(0x1301)), Vec(1, [0]));
  }

  lemma {:induction false} FrameIsHello(h: ClientHello)
    requires h.suites == U16(0x1301) && h.compressions == [0]
    ensures [CLIENT_HELLO] + Vec(3, Preamble(h.random, h.sessionId) + Vec(2, EncodeRaw(h.exts))) == h.Encode()
  {
    assert Preamble(h.random, h.sessionId) + Vec(2, EncodeRaw(h.exts)) == h.Body();
  }

  method WriteName(w: Writer, name: Bytes)
    requires w.Valid() && |name| <= 255
    modifies w, w.buf
    ensures w.Valid() && w.Emitted(old(w.want), EncodeRaw(FrontName(name)))
  {
    if name != [] {
      WriteSni(w, name, w.want, []);
      assert [] + [SniExt(name)] == [SniExt(name)];
    }
  }

  /** The certificate hello's extensions, written in order. */
  method WriteCertExts(w: Writer, cfg: Config, pub: Bytes, name: Bytes)
    requires w.Valid() && |pub| == cfg.group.PubSz() && |name| <= 255
    modifies w, w.buf
    ensures w.Valid() && w.Emitted(old(w.want), EncodeRaw(CertExts(cfg, pub, name)))
  {
    ghost var base, exts := w.want, FrontName(name);
    WriteName(w, name);
    WriteVersions(w, base, exts);
    exts := exts + [VersionsExt()];
    WriteGroups(w, cfg, base, exts);
    exts := exts + [GroupsExt(cfg)];
    WriteSigAlgs(w, cfg, base, exts);
    exts := exts + [SigAlgsExt(cfg)];
    WriteKeyShare(w, cfg, pub, base, exts);
    CertExtsListed(cfg, pub, name);
  }

  lemma {:induction false} CertExtsListed(cfg: Config, pub: Bytes, name: Bytes)
    ensures CertExts(cfg, pub, name) ==
            FrontName(name) + [VersionsExt()] + [GroupsExt(cfg)] + [SigAlgsExt(cfg)] + [KeyShareExt(cfg, pub)]
  {
  }

  /** wn_ClientHello_Build_ex. It succeeds exactly when the arguments are in range and the encoding
      fits, and then the buffer holds the hello of section 4.1.2 of RFC 8446 with these inputs. */
  method BuildCert(out: array<Byte>, outCap: nat, cfg: Config, random: Bytes, sid: Bytes, pub: Bytes, name: Bytes)
    returns (ret: Code, outLen: nat)
    requires outCap <= out.Length && outCap <= MAX_BUFFER && |random| == 32
    modifies out
    ensures var h := CertHello(cfg, random, sid, pub, name);
            && (ret == Success <==>
              |pub| == cfg.group.PubSz() && |sid| <= 32 && |name| <= 255 && |h.Encode()| <= outCap)
            && (ret == Success ==> outLen == |h.Encode()| && out[..outLen] == h.Encode())
            && (ret != Success ==> ret == InvalidArg)
  {
    if |pub| != cfg.group.PubSz() || |sid| > 32 || |name| > 255 {
      return InvalidArg, 0;
    }
    ghost var h := CertHello(cfg, random, sid, pub, name);
    var w := new Writer(out, outCap);
    w.WriteU8(CLIENT_HELLO);
    var hsLen := w.LenStart(3);
    WritePreamble(w, random, sid);
    ghost var before := w.want;
    var extLen := w.LenStart(2);
    WriteCertExts(w, cfg, pub, name);
    Finish(w, h, before, extLen, hsLen);
    if w.err {
      return InvalidArg, 0;
    }
    ret, outLen := Success, w.len;
  }

  /** Close the extension block and the message. */
  method Finish(w: Writer, ghost h: ClientHello, ghost before: Bytes, extLen: nat, hsLen: nat)
    requires w.Valid() && h.suites == U16(0x1301) && h.compressions == [0]
    requires before == [CLIENT_HELLO] + Zeros(3) + Preamble(h.random, h.sessionId)
    requires w.Emitted(before + Zeros(2), EncodeRaw(h.exts))
    requires !w.err ==> extLen == |before| + 2 && hsLen == 4
    modifies w, w.buf
    ensures w.Valid() && w.Emitted([], h.Encode())
  {
    ghost var body := Preamble(h.random, h.sessionId) + Vec(2, EncodeRaw(h.exts));
    Close(w, extLen, before, EncodeRaw(h.exts));
    Assoc([CLIENT_HELLO] + Zeros(3), Preamble(h.random, h.sessionId), Vec(2, EncodeRaw(h.exts)));
    CloseMessage(w, hsLen, body);
    FrameIsHello(h);
  }

  /** LenEnd on the length of the handshake header. */
  method CloseMessage(w: Writer, hsLen: nat, ghost body: Bytes)
    requires w.Valid() && w.Emitted([CLIENT_HELLO] + Zeros(3), body) && (!w.err ==> hsLen == 4)
    modifies w, w.buf
    ensures w.Valid() && w.Emitted([], [CLIENT_HELLO] + Vec(3, body))
  {
    ghost var open := w.want;
    w.LenEnd(hsLen, 3);
    w.Bracket([CLIENT_HELLO], 3, body, open);
    assert [] + ([CLIENT_HELLO] + Vec(3, body)) == [CLIENT_HELLO] + Vec(3, body);
  }

  // ---- the certificate hello says what was put in ----

  function Lookup(exts: seq<RawExt>, ty: nat): Option<Bytes> {
    if exts == [] then None else if exts[0].ty == ty then Some(exts[0].body) else Lookup(exts[1..], ty)
  }

  /** The single host_name of a server_name body. */
  function NameIn(body: Bytes): Option<Bytes> {
    match TakeVec(2, body)
    case None => None
    case Some((list, _)) =>
      if list == [] || list[0] != 0 || TakeVec(2, list[1..]).None? then None else Some(TakeVec(2, list[1..]).value.0)
  }

  /** The single entry of a ClientHello key_share body. */
  function ShareIn(body: Bytes): Option<(nat, Bytes)> {
    match TakeVec(2, body)
    case None => None
    case Some((list, _)) =>
      if |list| < 2 || TakeVec(2, list[2..]).None? then None
      else Some((GetU16(list, 0), TakeVec(2, list[2..]).value.0))
  }

  function NameOf(exts: seq<RawExt>): Option<Bytes> {
    match Lookup(exts, 0)
    case None => None
    case Some(body) => NameIn(body)
  }

  function ShareOf(exts: seq<RawExt>): Option<(nat, Bytes)> {
    match Lookup(exts, 51)
    case None => None
    case Some(body) => ShareIn(body)
  }

  lemma {:induction false} TakesWholeVec(content: Bytes)
    requires |content| < 0x1_0000
    ensures TakeVec(2, Vec(2, content)) == Some((content, []))
  {
    assert Vec(2, content) == Vec(2, content) + [];
    TakesVec(2, content, []);
  }

  lemma {:induction false} NameReads(name: Bytes)
    requires |name| <= 255
    ensures NameIn(SniExt(name).body) == Some(name)
  {
    var list := [0] + Vec(2, name);
    TakesWholeVec(list);
    assert list[1..] == Vec(2, name);
    TakesWholeVec(name);
  }

  lemma {:induction false} ShareReads(cfg: Config, pub: Bytes)
    requires |pub| == cfg.group.PubSz()
    ensures ShareIn(KeyShareExt(cfg, pub).body) == Some((cfg.group.Id(), pub))
  {
    var list := U16(cfg.group.Id()) + Vec(2, pub);
    TakesWholeVec(list);
    assert list[0..2] == U16(cfg.group.Id()) && list[2..] == Vec(2, pub);
    ReadsU16(list, 0, cfg.group.Id());
    TakesWholeVec(pub);
  }

  lemma {:induction false} CertExtsValid(cfg: Config, pub: Bytes, name: Bytes)
    requires |pub| == cfg.group.PubSz() && |name| <= 255
    ensures forall e <- CertExts(cfg, pub, name) :: e.Valid()
  {
    assert SigAlgsExt(cfg).Valid() && KeyShareExt(cfg, pub).Valid() && SniExt(name).Valid();
  }

  lemma {:induction false} OneExt(e: RawExt)
    ensures EncodeRaw([e]) == ExtBytes(e.ty, e.body)
  {
    assert [e][1..] == [];
  }

  lemma {:induction false} CertBlockSize(cfg: Config, pub: Bytes, name: Bytes)
    requires |pub| == cfg.group.PubSz() && |name| <= 255
    ensures |EncodeRaw(CertExts(cfg, pub, name))| <= 7 + 8 + 20 + 10 + |pub| + 264
  {
    var front := FrontName(name);
    OneExt(SniExt(name));
    assert |EncodeRaw(front)| <= 264;
    OneMore(front, VersionsExt());
    OneMore(front + [VersionsExt()], GroupsExt(cfg));
    OneMore(front + [VersionsExt()] + [GroupsExt(cfg)], SigAlgsExt(cfg));
    OneMore(front + [VersionsExt()] + [GroupsExt(cfg)] + [SigAlgsExt(cfg)], KeyShareExt(cfg, pub));
    CertExtsListed(cfg, pub, name);
  }

  lemma {:induction false} OneMore(exts: seq<RawExt>, e: RawExt)
    ensures |EncodeRaw(exts + [e])| == |EncodeRaw(exts)| + 4 + |e.body|
  {
    RawAppend(exts, e);
  }

  lemma {:induction false} CertLookups(cfg: Config, pub: Bytes, name: Bytes)
    ensures Lookup(CertExts(cfg, pub, name), 0) == if name == [] then None else Some(SniExt(name).body)
    ensures Lookup(CertExts(cfg, pub, name), 51) == Some(KeyShareExt(cfg, pub).body)
  {
    var exts := CertExts(cfg, pub, name);
    var fixed := [VersionsExt(), GroupsExt(cfg), SigAlgsExt(cfg), KeyShareExt(cfg, pub)];
    var last := [KeyShareExt(cfg, pub)];
    var tail := [SigAlgsExt(cfg)] + last;
    assert last[1..] == [] && tail[1..] == last && fixed[1..] == [GroupsExt(cfg)] + tail && fixed[1..][1..] == tail;
    assert Lookup(last, 0) == None && Lookup(tail, 0) == None && Lookup(fixed[1..], 0) == None;
    assert Lookup(tail, 51) == Lookup(last, 51) && Lookup(fixed[1..], 51) == Lookup(tail, 51);
    assert Lookup(fixed, 0) == None && Lookup(fixed, 51) == Some(KeyShareExt(cfg, pub).body);
    if name != [] {
      assert exts[1..] == fixed;
    } else {
      assert exts == fixed;
    }
  }

  /** Whatever the build options, the certificate hello decodes to its inputs: the hand-computed
      extension lengths agree with the grammar. */
  lemma {:induction false} CertInputsRecovered(cfg: Config, random: Bytes, sid: Bytes, pub: Bytes, name: Bytes)
    requires |random| == 32 && |sid| <= 32 && |pub| == cfg.group.PubSz() && |name| <= 255
    ensures var d := DecodeHello(CertHello(cfg, random, sid, pub, name).Encode());
            && d.Some? && d.value.random == random && d.value.sessionId == sid
            && (name == [] ==> Lookup(d.value.exts, 0) == None)
            && NameOf(d.value.exts) == (if name == [] then None else Some(name))
            && ShareOf(d.value.exts) == Some((cfg.group.Id(), pub))
  {
    CertHelloDecodes(cfg, random, sid, pub, name);
    CertLookups(cfg, pub, name);
    ShareReads(cfg, pub);
    if name != [] {
      NameReads(name);
    }
  }

  lemma {:induction false} CertHelloDecodes(cfg: Config, random: Bytes, sid: Bytes, pub: Bytes, name: Bytes)
    requires |random| == 32 && |sid| <= 32 && |pub| == cfg.group.PubSz() && |name| <= 255
    ensures var h := CertHello(cfg, random, sid, pub, name); DecodeHello(h.Encode()) == Some(h)
  {
    CertBlockSize(cfg, pub, name);
    CertExtsValid(cfg, pub, name);
    DecodesIffBlockFits(CertHello(cfg, random, sid, pub, name));
  }
}

/** The PSK hello and its binder (section 4.2.11 of RFC 8446). */
module PskHello {
  import opened Base
  import opened Crypto
  import opened Wire
  import opened Extensions
  import opened HelloGrammar
  import opened HelloBuilder

  function PskSchemes(cfg: Config): Bytes {
    IfOffered(cfg.mldsa, cfg.mldsaScheme) + U16(0x0807) + U16(0x0403)
  }

  function PskSigAlgsExt(cfg: Config): RawExt { RawExt(13, Vec(2, PskSchemes(cfg))) }

  function ModesExt(): RawExt { RawExt(45, [1, 1]) }

  /** One identity with an obfuscated ticket age of zero. */
  function Identities(id: Bytes): Bytes { Vec(2, Vec(2, id) + U16(0) + U16(0)) }

  function Binders(binder: Bytes): Bytes { Vec(2, Vec(1, binder)) }

  function PskExt(id: Bytes, binder: Bytes): RawExt { RawExt(41, Identities(id) + Binders(binder)) }

  function FrontExts(cfg: Config, pub: Bytes): seq<RawExt> {
    [VersionsExt(), GroupsExt(cfg), PskSigAlgsExt(cfg), KeyShareExt(cfg, pub), ModesExt()]
  }

  /** What the PSK client means to say. */
  function Hello(cfg: Config, random: Bytes, sid: Bytes, pub: Bytes, id: Bytes, binder: Bytes): ClientHello {
    ClientHello(random, sid, U16(0x1301), [0], FrontExts(cfg, pub) + [PskExt(id, binder)])
  }

  // ---- the builder ----

  method WritePskSigAlgs(w: Writer, cfg: Config, ghost base: Bytes, ghost exts: seq<RawExt>)
    requires w.Valid() && w.Emitted(base, EncodeRaw(exts))
    modifies w, w.buf
    ensures w.Valid() && w.Emitted(base, EncodeRaw(exts + [PskSigAlgsExt(cfg)]))
  {
    ghost var mid := w.want;
    w.WriteU16(13);
    if cfg.mldsa {
      w.WriteU16(8);
      w.WriteU16(6);
      w.WriteU16(cfg.mldsaScheme);
    } else {
      w.WriteU16(6);
      w.WriteU16(4);
    }
    w.WriteU16(0x0807);
    w.WriteU16(0x0403);
    assert w.want == mid + U16(13) + U16(|PskSchemes(cfg)| + 2) + U16(|PskSchemes(cfg)|) + PskSchemes(cfg);
    ListDone(w, mid, 13, PskSchemes(cfg));
    Grew(w, base, exts, PskSigAlgsExt(cfg), mid);
  }

  method WriteModes(w: Writer, ghost base: Bytes, ghost exts: seq<RawExt>)
    requires w.Valid() && w.Emitted(base, EncodeRaw(exts))
    modifies w, w.buf
    ensures w.Valid() && w.Emitted(base, EncodeRaw(exts + [ModesExt()]))
  {
    ghost var mid := w.want;
    w.WriteU16(45);
    w.WriteU16(2);
    w.WriteU8(1);
    w.WriteU8(1);
    assert ExtBytes(45, [1, 1]) == U16(45) + U16(2) + [1] + [1];
    Grew(w, base, exts, ModesExt(), mid);
  }

  method WriteIdentities(w: Writer, id: Bytes)
    requires w.Valid() && |id| <= 0xFFFF
    modifies w, w.buf
    ensures w.Valid() && w.Emitted(old(w.want), Identities(id))
  {
    ghost var before := w.want;
    var idsLen := w.LenStart(2);
    w.WriteU16(|id|);
    w.WriteBytes(id);
    w.WriteU16(0);
    w.WriteU16(0);
    Assoc(before + Zeros(2), U16(|id|), id);
    Assoc3(before + Zeros(2), Vec(2, id), U16(0), U16(0));
    Close(w, idsLen, before, Vec(2, id) + U16(0) + U16(0));
  }

  /** The binder list with a zero placeholder; binderOff is where the binder goes. */
  method WriteBinders(w: Writer) returns (binderOff: nat)
    requires w.Valid()
    modifies w, w.buf
    ensures w.Valid() && w.want == old(w.want) + Binders(Zeros(32))
    ensures !w.err ==> binderOff == |w.want| - 32
  {
    w.WriteU16(33);
    w.WriteU8(32);
    binderOff := w.len;
    ghost var mid := w.want;
    for i := 0 to 32
      invariant w.Valid() && w.want == mid + Zeros(i)
    {
      w.WriteU8(0);
      assert Zeros(i) + [0] == Zeros(i + 1);
    }
    BeBytes(32);
    assert Binders(Zeros(32)) == U16(33) + [32] + Zeros(32);
  }

  method WritePsk(w: Writer, id: Bytes, ghost base: Bytes, ghost exts: seq<RawExt>)
      returns (truncOff: nat, binderOff: nat)
    requires w.Valid() && |id| <= 0xFFFF && w.Emitted(base, EncodeRaw(exts))
    modifies w, w.buf
    ensures w.Valid() && w.Emitted(base, EncodeRaw(exts + [PskExt(id, Zeros(32))]))
    ensures !w.err ==> truncOff == |w.want| - 35 && binderOff == |w.want| - 32
  {
    ghost var mid := w.want;
    w.WriteU16(41);
    ghost var before := w.want;
    var pskLen := w.LenStart(2);
    WriteIdentities(w, id);
    truncOff := w.len;
    binderOff := WriteBinders(w);
    Assoc(before + Zeros(2), Identities(id), Binders(Zeros(32)));
    Close(w, pskLen, before, PskExt(id, Zeros(32)).body);
    ExtDone(w, mid, 41, PskExt(id, Zeros(32)).body);
    Grew(w, base, exts, PskExt(id, Zeros(32)), mid);
  }

  method WriteFrontExts(w: Writer, cfg: Config, pub: Bytes)
    requires w.Valid() && |pub| == cfg.group.PubSz()
    modifies w, w.buf
    ensures w.Valid() && w.Emitted(old(w.want), EncodeRaw(FrontExts(cfg, pub)))
  {
    ghost var base, exts := w.want, [];
    WriteVersions(w, base, exts);
    exts := exts + [VersionsExt()];
    WriteGroups(w, cfg, base, exts);
    exts := exts + [GroupsExt(cfg)];
    WritePskSigAlgs(w, cfg, base, exts);
    exts := exts + [PskSigAlgsExt(cfg)];
    WriteKeyShare(w, cfg, pub, base, exts);
    exts := exts + [KeyShareExt(cfg, pub)];
    WriteModes(w, base, exts);
    assert exts + [ModesExt()] == FrontExts(cfg, pub);
  }

  /** build_client_hello: the hello with a zero binder, every length already final. */
  method Build(w: Writer, cfg: Config, random: Bytes, sid: Bytes, pub: Bytes, id: Bytes)
      returns (truncOff: nat, binderOff: nat)
    requires w.Valid() && w.want == [] && |random| == 32 && |sid| == 32 && |pub| == cfg.group.PubSz()
             && |id| <= 0xFFFF
    modifies w, w.buf
    ensures w.Valid() && w.Emitted([], Hello(cfg, random, sid, pub, id, Zeros(32)).Encode())
    ensures !w.err ==> truncOff == |w.want| - 35 && binderOff == |w.want| - 32
  {
    ghost var h := Hello(cfg, random, sid, pub, id, Zeros(32));
    w.WriteU8(CLIENT_HELLO);
    var hsLen := w.LenStart(3);
    WritePreamble(w, random, sid);
    ghost var before := w.want;
    assert before == [CLIENT_HELLO] + Zeros(3) + Preamble(random, sid);
    var extLen := w.LenStart(2);
    ghost var base := w.want;
    WriteFrontExts(w, cfg, pub);
    truncOff, binderOff := WritePsk(w, id, base, FrontExts(cfg, pub));
    Finish(w, h, before, extLen, hsLen);
  }

  // ---- the binder ----

  /** The hello up to the binder list, with every length as it is in the finished message. */
  function Stem(cfg: Config, random: Bytes, sid: Bytes, pub: Bytes, id: Bytes): Bytes {
    Ahead(Preamble(random, sid), EncodeRaw(FrontExts(cfg, pub)), Identities(id))
  }

  /** Whatever the 32-byte binder, the hello is the stem, the two list lengths and the binder. */
  lemma {:induction false} StemAndBinder(cfg: Config, random: Bytes, sid: Bytes, pub: Bytes, id: Bytes, binder: Bytes)
    requires |binder| == 32
    ensures Hello(cfg, random, sid, pub, id, binder).Encode() ==
            Stem(cfg, random, sid, pub, id) + (U16(33) + [32] + binder)
  {
    BinderList(binder);
    RawAppend(FrontExts(cfg, pub), PskExt(id, binder));
    var h := Hello(cfg, random, sid, pub, id, binder);
    LaidOut(h, EncodeRaw(FrontExts(cfg, pub)), Identities(id), Binders(binder));
  }

  /** A message up to its trailing binder list. */
  function Ahead(pre: Bytes, front: Bytes, ids: Bytes): Bytes {
    var ext := |ids| + 35;
    var block := |front| + 4 + ext;
    [CLIENT_HELLO] + U24(|pre| + 2 + block) + pre + U16(block) + front + U16(41) + U16(ext) + ids
  }

  lemma {:induction false} LaidOut(h: ClientHello, front: Bytes, ids: Bytes, binders: Bytes)
    requires h.suites == U16(0x1301) && h.compressions == [0] && |binders| == 35
    requires EncodeRaw(h.exts) == front + ExtBytes(41, ids + binders)
    ensures h.Encode() == Ahead(Preamble(h.random, h.sessionId), front, ids) + binders
  {
    var pre, last := Preamble(h.random, h.sessionId), ExtBytes(41, ids + binders);
    FrameIsHello(h);
    BlockLaidOut(pre, front, last);
    var ahead := [CLIENT_HELLO] + U24(|pre| + 2 + |front| + |last|) + pre + U16(|front| + |last|) + front;
    LastLaidOut(ahead, ids, binders);
  }

  lemma {:induction false} BlockLaidOut(pre: Bytes, front: Bytes, last: Bytes)
    ensures [CLIENT_HELLO] + Vec(3, pre + Vec(2, front + last)) ==
            [CLIENT_HELLO] + U24(|pre| + 2 + |front| + |last|) + pre + U16(|front| + |last|) + front + last
  {
    var a, b, c := [CLIENT_HELLO], U24(|pre| + 2 + |front| + |last|), U16(|front| + |last|);
    Assoc(a + b + pre + c, front, last);
    Assoc(a + b + pre, c, front + last);
    Assoc(a + b, pre, c + (front + last));
    Assoc(a, b, pre + (c + (front + last)));
  }

  lemma {:induction false} LastLaidOut(ahead: Bytes, ids: Bytes, binders: Bytes)
    ensures ahead + ExtBytes(41, ids + binders) == ahead + U16(41) + U16(|ids| + |binders|) + ids + binders
  {
    var a, b := U16(41), U16(|ids| + |binders|);
    Assoc(ahead + a + b, ids, binders);
    Assoc(ahead + a, b, ids + binders);
    Assoc(ahead, a, b + (ids + binders));
  }

  lemma {:induction false} BinderList(binder: Bytes)
    requires |binder| == 32
    ensures Binders(binder) == U16(33) + [32] + binder
  {
    BeBytes(32);
  }

  /** What a server hashes (section 4.2.11.2 of RFC 8446): the received hello without the binder
      list that ends its last extension, pre_shared_key. */
  function ServerTruncation(msg: Bytes): Option<Bytes> {
    match DecodeHello(msg)
    case None => None
    case Some(h) =>
      if h.exts == [] || h.exts[|h.exts| - 1].ty != 41 then None
      else
        match TakeVec(2, h.exts[|h.exts| - 1].body)
        case None => None
        case Some((ids, binders)) => if |binders| > |msg| then None else Some(msg[..|msg| - |binders|])
  }

  lemma {:induction false} HelloValid(cfg: Config, random: Bytes, sid: Bytes, pub: Bytes, id: Bytes, binder: Bytes)
    requires |random| == 32 && |sid| == 32 && |pub| == cfg.group.PubSz() && |binder| == 32
    requires |id| <= 0xFFFF
    ensures Hello(cfg, random, sid, pub, id, binder).Valid()
    ensures |EncodeRaw(Hello(cfg, random, sid, pub, id, binder).exts)| < 0x1_0000 ==> |Identities(id)| < 0x1_0000
  {
    var front, e := FrontExts(cfg, pub), PskExt(id, binder);
    RawAppend(front, e);
    FrontBytes(cfg, pub);
    assert e.Valid() && forall x <- front :: x.Valid();
  }

  /** What a caller can check: the extension block fits its 16-bit length. */
  predicate BlockFits(cfg: Config, pub: Bytes, id: Bytes) {
    88 + |pub| + (if cfg.mldsa then 2 else 0) + |id| < 0x1_0000
  }

  lemma {:induction false} FrontBytes(cfg: Config, pub: Bytes)
    ensures |EncodeRaw(FrontExts(cfg, pub))| == 41 + |pub| + if cfg.mldsa then 2 else 0
  {
    var exts := FrontExts(cfg, pub);
    var last := [ModesExt()];
    var tail := [PskSigAlgsExt(cfg), KeyShareExt(cfg, pub)] + last;
    assert last[1..] == [] && tail[1..] == [KeyShareExt(cfg, pub)] + last && tail[1..][1..] == last;
    assert exts[1..] == [GroupsExt(cfg)] + tail && exts[1..][1..] == tail;
    assert |EncodeRaw(last)| == 6 && |EncodeRaw(tail[1..])| == 16 + |pub|;
    assert |EncodeRaw(tail)| == 26 + |pub| + if cfg.mldsa then 2 else 0;
    assert |EncodeRaw(exts[1..])| == 34 + |pub| + if cfg.mldsa then 2 else 0;
  }

  lemma {:induction false} BlockSize(cfg: Config, random: Bytes, sid: Bytes, pub: Bytes, id: Bytes, binder: Bytes)
    requires |binder| == 32
    ensures |EncodeRaw(Hello(cfg, random, sid, pub, id, binder).exts)| ==
            88 + |pub| + (if cfg.mldsa then 2 else 0) + |id|
  {
    FrontBytes(cfg, pub);
    RawAppend(FrontExts(cfg, pub), PskExt(id, binder));
  }

  /** The finished hello decodes exactly if the block fits; it then decodes to its inputs and the
      server's truncation is the stem: the very bytes the client hashed. */
  lemma {:induction false} BinderConsistent(cfg: Config, random: Bytes, sid: Bytes, pub: Bytes, id: Bytes,
      binder: Bytes)
    requires |random| == 32 && |sid| == 32 && |pub| == cfg.group.PubSz() && |binder| == 32 && |id| <= 0xFFFF
    ensures var h := Hello(cfg, random, sid, pub, id, binder);
            if BlockFits(cfg, pub, id) then
              DecodeHello(h.Encode()) == Some(h)
                && ServerTruncation(h.Encode()) == Some(Stem(cfg, random, sid, pub, id))
            else DecodeHello(h.Encode()) == None
  {
    BlockSize(cfg, random, sid, pub, id, binder);
    HelloValid(cfg, random, sid, pub, id, binder);
    DecodesIffBlockFits(Hello(cfg, random, sid, pub, id, binder));
    if BlockFits(cfg, pub, id) {
      TruncatesToStem(cfg, random, sid, pub, id, binder);
    }
  }

  lemma {:induction false} TruncatesToStem(cfg: Config, random: Bytes, sid: Bytes, pub: Bytes, id: Bytes,
      binder: Bytes)
    requires |binder| == 32 && |Identities(id)| < 0x1_0000
    requires var h := Hello(cfg, random, sid, pub, id, binder); DecodeHello(h.Encode()) == Some(h)
    ensures ServerTruncation(Hello(cfg, random, sid, pub, id, binder).Encode()) ==
            Some(Stem(cfg, random, sid, pub, id))
  {
    var h, stem := Hello(cfg, random, sid, pub, id, binder), Stem(cfg, random, sid, pub, id);
    assert h.exts[|h.exts| - 1] == PskExt(id, binder);
    TakesVec(2, Vec(2, id) + U16(0) + U16(0), Binders(binder));
    assert h.Encode() == stem + Binders(binder) by {
      StemAndBinder(cfg, random, sid, pub, id, binder);
      BinderList(binder);
    }
    DropTail(stem, Binders(binder));
  }

  lemma {:induction false} DropTail(a: Bytes, b: Bytes)
    ensures (a + b)[..|a + b| - |b|] == a
  {
  }

  /** The longest identity that the code accepts is one that breaks it. */
  lemma {:induction false} LongestIdentityBreaks(cfg: Config, random: Bytes, sid: Bytes, pub: Bytes, binder: Bytes)
    requires |random| == 32 && |sid| == 32 && |pub| == cfg.group.PubSz() && |binder| == 32
    ensures DecodeHello(Hello(cfg, random, sid, pub, Zeros(65535), binder).Encode()) == None
  {
    BinderConsistent(cfg, random, sid, pub, Zeros(65535), binder);
  }

  /** The size of the finished hello. */
  lemma {:induction false} HelloSize(cfg: Config, random: Bytes, sid: Bytes, pub: Bytes, id: Bytes, binder: Bytes)
    requires |random| == 32 && |sid| == 32 && |binder| == 32
    ensures |Hello(cfg, random, sid, pub, id, binder).Encode()| ==
            167 + |pub| + (if cfg.mldsa then 2 else 0) + |id|
  {
    BlockSize(cfg, random, sid, pub, id, binder);
  }
}
