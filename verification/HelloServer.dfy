/** What a server reads out of the ClientHellos, field by field and by number. */
module HelloServer {
  import opened Base
  import opened Crypto
  import opened Numbers
  import opened Extensions
  import opened HelloGrammar
  import opened HelloBuilder
  import opened Rfc8446
  import PskHello

  /** A ClientHello of version 0x0303 in a handshake message of its length (sections 4 and 4.1.2 of
      RFC 8446). */
  ghost predicate Received(msg: Bytes, d: ClientHello) {
    && |msg| >= 38 && msg[0] == 1 && Value(msg[1..4]) == |msg| - 4 && msg[4..6] == [3, 3] && msg[6..38] == d.random
    && DecodeHello(msg) == Some(d)
  }

  /** The scheme is in a signature_algorithms body. */
  ghost predicate Lists(body: Bytes, scheme: nat) {
    && |body| >= 2 && |body| % 2 == 0 && body[..2] == Big(2, |body| - 2)
    && exists i: nat :: i >= 1 && At(body, i, scheme)
  }

  /** Number i of a list of two-byte numbers. */
  ghost predicate At(list: Bytes, i: nat, scheme: nat) {
    2 * i + 2 <= |list| && list[2 * i..2 * i + 2] == Big(2, scheme)
  }

  /** TLS_AES_128_GCM_SHA256 without compression, version 0x0304, one group and one share of it, and
      ecdsa_secp256r1_sha256 among the signature schemes. */
  ghost predicate Offers(d: ClientHello, group: nat, share: Bytes) {
    && d.suites == [0x13, 0x01] && d.compressions == [0]
    && Lookup(d.exts, 43) == Some([2, 3, 4])
    && Lookup(d.exts, 10) == Some([0, 2] + Big(2, group))
    && Lookup(d.exts, 51) == Some(Big(2, 4 + |share|) + (Big(2, group) + (Big(2, |share|) + share)))
    && Lookup(d.exts, 13).Some? && Lists(Lookup(d.exts, 13).value, 0x0403)
  }

  /** What a pre_shared_key body offers first: identity and binder, if it offers just one. */
  function OnePsk(body: Bytes): Option<(Bytes, Bytes)> {
    match TakeVec(2, body)
    case None => None
    case Some((identities, binders)) =>
      match TakeVec(2, identities)
      case None => None
      case Some((id, age)) =>
        match TakeVec(2, binders)
        case None => None
        case Some((list, behind)) =>
          match TakeVec(1, list)
          case None => None
          case Some((binder, more)) =>
            if |age| != 4 || behind != [] || more != [] then None else Some((id, binder))
  }

  /** The check of section 4.2.11 of RFC 8446: psk_dhe_ke is offered, pre_shared_key comes last, offers
      this identity, and its binder is the MAC of the message up to the binder list. */
  ghost predicate AcceptsPsk(c: Suite, psk: Bytes, id: Bytes, msg: Bytes) {
    && DecodeHello(msg).Some?
    && var exts := DecodeHello(msg).value.exts;
       && Lookup(exts, 45) == Some([1, 1])
       && exts != [] && exts[|exts| - 1].ty == 41
       && OnePsk(exts[|exts| - 1].body).Some?
       && var (offered, binder) := OnePsk(exts[|exts| - 1].body).value;
          && offered == id && |binder| == 32 && |msg| >= 35
          && binder == BinderOf(c, psk, c.hash(msg[..|msg| - 35]))
  }

  // ---- finding an extension ----

  lemma {:induction false} LookupAt(exts: seq<RawExt>, i: nat)
    requires i < |exts| && forall j :: 0 <= j < i ==> exts[j].ty != exts[i].ty
    ensures Lookup(exts, exts[i].ty) == Some(exts[i].body)
  {
    if i > 0 {
      assert exts[0].ty != exts[i].ty;
      forall j | 0 <= j < i - 1 ensures exts[1..][j].ty != exts[1..][i - 1].ty {
        assert exts[j + 1].ty != exts[i].ty;
      }
      LookupAt(exts[1..], i - 1);
    }
  }

  // ---- the bodies ----

  lemma {:induction false} NumbersWritten(n: nat)
    requires n < 0x1_0000
    ensures U16(n) == Big(2, n)
  {
    PowSmall();
    WrittenBigEndian(2, n);
  }

  lemma {:induction false} VersionsBody()
    ensures VersionsExt().body == [2, 3, 4]
  {
    BeBytes(2);
    BeBytes(0x0304);
  }

  lemma {:induction false} GroupsBody(cfg: Config)
    ensures GroupsExt(cfg).body == [0, 2] + Big(2, cfg.group.Id())
  {
    BeBytes(2);
    NumbersWritten(cfg.group.Id());
  }

  lemma {:induction false} ShareBody(cfg: Config, pub: Bytes)
    requires |pub| == cfg.group.PubSz()
    ensures var g := cfg.group.Id();
            KeyShareExt(cfg, pub).body == Big(2, 4 + |pub|) + (Big(2, g) + (Big(2, |pub|) + pub))
  {
    NumbersWritten(cfg.group.Id());
    NumbersWritten(|pub|);
    NumbersWritten(4 + |pub|);
  }

  /** A list of schemes with this one behind `front`. */
  lemma {:induction false} ListsAt(front: Bytes, scheme: nat, behind: Bytes)
    requires |front| % 2 == 0 && |behind| % 2 == 0 && scheme < 0x1_0000 && |front| + |behind| < 1000
    ensures Lists(Vec(2, front + U16(scheme) + behind), scheme)
  {
    var list := front + U16(scheme) + behind;
    var body := Vec(2, list);
    NumbersWritten(|list|);
    NumbersWritten(scheme);
    var i := 1 + |front| / 2;
    assert body[..2] == U16(|list|);
    assert body[2 * i..2 * i + 2] == U16(scheme);
    assert At(body, i, scheme);
  }

  lemma {:induction false} CertSchemesListed(cfg: Config)
    ensures Lists(SigAlgsExt(cfg).body, 0x0403)
  {
    var a, b, r := EdSchemes(cfg), IfOffered(cfg.ecc384 && cfg.sha384, 0x0503), RsaSchemes(cfg);
    SchemesEven(cfg);
    ListsAt(a + b, 0x0403, r);
    Assoc3(a, b, U16(0x0403), r);
  }

  lemma {:induction false} SchemesEven(cfg: Config)
    ensures |EdSchemes(cfg)| % 2 == 0 && |RsaSchemes(cfg)| % 2 == 0
  {
  }

  lemma {:induction false} PskSchemesListed(cfg: Config)
    ensures Lists(PskHello.PskSigAlgsExt(cfg).body, 0x0403)
  {
    var a := IfOffered(cfg.mldsa, cfg.mldsaScheme) + U16(0x0807);
    ListsAt(a, 0x0403, []);
    assert a + U16(0x0403) + [] == PskHello.PskSchemes(cfg);
  }

  /** The schemes of section 4.2.3 of RFC 8446 that build options switch on: the ECDSA schemes of P-256 and
      P-384, rsa_pss_rsae_sha256, sha384 and sha512, and ed25519. */
  predicate Enabled(cfg: Config, scheme: nat) {
    match scheme
    case 0x0403 => true
    case 0x0503 => cfg.ecc384 && cfg.sha384
    case 0x0804 => cfg.rsa
    case 0x0805 => cfg.rsa && cfg.sha384
    case 0x0806 => cfg.rsa && cfg.sha512
    case 0x0807 => !cfg.fips
    case _ => false
  }

  /** The scheme stands somewhere in the list. */
  ghost predicate InList(list: Bytes, scheme: nat) { exists i: nat :: At(list, i, scheme) }

  lemma {:induction false} AtFront(a: Bytes, b: Bytes, i: nat, scheme: nat)
    requires 2 * i + 2 <= |a|
    ensures At(a + b, i, scheme) <==> At(a, i, scheme)
  {
    assert (a + b)[2 * i..2 * i + 2] == a[2 * i..2 * i + 2];
  }

  lemma {:induction false} AtBack(a: Bytes, b: Bytes, n: nat, i: nat, scheme: nat)
    requires |a| == 2 * n
    ensures At(a + b, n + i, scheme) <==> At(b, i, scheme)
  {
    if 2 * i + 2 <= |b| {
      assert (a + b)[2 * (n + i)..2 * (n + i) + 2] == b[2 * i..2 * i + 2];
    }
  }

  lemma {:induction false} InEither(a: Bytes, b: Bytes, scheme: nat)
    requires |a| % 2 == 0 && |b| % 2 == 0
    ensures InList(a + b, scheme) <==> InList(a, scheme) || InList(b, scheme)
  {
    var n := |a| / 2;
    if i: nat :| At(a, i, scheme) {
      AtFront(a, b, i, scheme);
    }
    if i: nat :| At(b, i, scheme) {
      AtBack(a, b, n, i, scheme);
    }
    if i: nat :| At(a + b, i, scheme) {
      if i < n {
        AtFront(a, b, i, scheme);
      } else {
        AtBack(a, b, n, i - n, scheme);
      }
    }
  }

  lemma {:induction false} InOne(offered: bool, n: nat, scheme: nat)
    requires n < 0x1_0000 && scheme < 0x1_0000
    ensures InList(IfOffered(offered, n), scheme) <==> offered && n == scheme
  {
    PowSmall();
    NumbersWritten(n);
    var list := IfOffered(offered, n);
    if offered {
      assert At(list, 0, n);
    }
    if i: nat :| At(list, i, scheme) {
      assert i == 0;
      BigInjective(2, n, scheme);
    }
  }

  lemma {:induction false} ListsThose(list: Bytes, scheme: nat)
    requires |list| % 2 == 0 && |list| < 1000
    ensures Lists(Vec(2, list), scheme) <==> InList(list, scheme)
  {
    var body := Vec(2, list);
    NumbersWritten(|list|);
    assert body[..2] == U16(|list|);
    if i: nat :| At(list, i, scheme) {
      AtBack(U16(|list|), list, 1, i, scheme);
    }
    if i: nat :| i >= 1 && At(body, i, scheme) {
      AtBack(U16(|list|), list, 1, i - 1, scheme);
    }
  }

  /** The certificate hello offers exactly those, and ML-DSA at the build's level outside a FIPS build. */
  lemma {:induction false} CertSchemesExact(cfg: Config, scheme: nat)
    requires cfg.mldsaScheme < 0x1_0000 && scheme < 0x1_0000
    ensures Lists(SigAlgsExt(cfg).body, scheme) <==>
            Enabled(cfg, scheme) || (cfg.mldsa && !cfg.fips && scheme == cfg.mldsaScheme)
  {
    EdSchemesExact(cfg, scheme);
    EcRsaSchemesExact(cfg, scheme);
    InEither(EdSchemes(cfg), EcRsaSchemes(cfg), scheme);
    ListsThose(CertSchemes(cfg), scheme);
  }

  lemma {:induction false} EdSchemesExact(cfg: Config, scheme: nat)
    requires cfg.mldsaScheme < 0x1_0000 && scheme < 0x1_0000
    ensures InList(EdSchemes(cfg), scheme) <==>
            !cfg.fips && ((cfg.mldsa && scheme == cfg.mldsaScheme) || scheme == 0x0807)
    ensures |EdSchemes(cfg)| % 2 == 0
  {
    InOne(!cfg.fips && cfg.mldsa, cfg.mldsaScheme, scheme);
    InOne(!cfg.fips, 0x0807, scheme);
    InEither(IfOffered(!cfg.fips && cfg.mldsa, cfg.mldsaScheme), IfOffered(!cfg.fips, 0x0807), scheme);
  }

  lemma {:induction false} EcRsaSchemesExact(cfg: Config, scheme: nat)
    requires scheme < 0x1_0000
    ensures InList(EcRsaSchemes(cfg), scheme) <==> Enabled(cfg, scheme) && scheme != 0x0807
    ensures |EcRsaSchemes(cfg)| % 2 == 0
  {
    var e, p := IfOffered(cfg.ecc384 && cfg.sha384, 0x0503), IfOffered(true, 0x0403);
    InOne(cfg.ecc384 && cfg.sha384, 0x0503, scheme);
    InOne(true, 0x0403, scheme);
    RsaSchemesExact(cfg, scheme);
    InEither(e, p, scheme);
    InEither(e + p, RsaSchemes(cfg), scheme);
  }

  lemma {:induction false} RsaSchemesExact(cfg: Config, scheme: nat)
    requires scheme < 0x1_0000
    ensures InList(RsaSchemes(cfg), scheme) <==> Enabled(cfg, scheme) && 0x0804 <= scheme <= 0x0806
    ensures |RsaSchemes(cfg)| % 2 == 0
  {
    var x, y, z := IfOffered(cfg.rsa && cfg.sha512, 0x0806), IfOffered(cfg.rsa && cfg.sha384, 0x0805),
      IfOffered(cfg.rsa, 0x0804);
    InOne(cfg.rsa && cfg.sha512, 0x0806, scheme);
    InOne(cfg.rsa && cfg.sha384, 0x0805, scheme);
    InOne(cfg.rsa, 0x0804, scheme);
    InEither(x, y, scheme);
    InEither(x + y, z, scheme);
  }

  /** The PSK hello offers these, whatever else is switched on. */
  lemma {:induction false} PskSchemesExact(cfg: Config, scheme: nat)
    requires cfg.mldsaScheme < 0x1_0000 && scheme < 0x1_0000
    ensures Lists(PskHello.PskSigAlgsExt(cfg).body, scheme) <==>
            scheme == 0x0403 || scheme == 0x0807 || (cfg.mldsa && scheme == cfg.mldsaScheme)
  {
    var m, d, p := IfOffered(cfg.mldsa, cfg.mldsaScheme), IfOffered(true, 0x0807), IfOffered(true, 0x0403);
    InOne(cfg.mldsa, cfg.mldsaScheme, scheme);
    InOne(true, 0x0807, scheme);
    InOne(true, 0x0403, scheme);
    InEither(m, d, scheme);
    InEither(m + d, p, scheme);
    ListsThose(PskHello.PskSchemes(cfg), scheme);
  }

  /** Vectors are taken apart by the number their prefix is. */
  lemma {:induction false} PrefixIsNumber(width: Width, s: Bytes)
    requires width <= |s|
    ensures BeValue(width, s) == Value(s[..width])
  {
    var one, two := s[..1], s[..width];
    assert one == [s[0]] && one[..0] == [];
    assert Value(one) == s[0];
    if width == 2 {
      assert two[..1] == one;
    } else if width == 3 {
      assert two[..2][..1] == one;
      assert Value(two[..2]) == 256 * Value(one) + s[1];
    }
  }

  // ---- the two hellos ----

  lemma {:induction false} Head(h: ClientHello)
    requires h.Valid() && DecodeHello(h.Encode()) == Some(h)
    ensures Received(h.Encode(), h)
  {
    var msg := h.Encode();
    EncodedHead(h);
    ReadBigEndian(msg, 1);
    U16Unique(msg, 4);
    BeBytes(0x0303);
  }

  lemma {:induction false} BodiesOffer(h: ClientHello, cfg: Config, pub: Bytes, schemes: Bytes)
    requires h.suites == U16(0x1301) && h.compressions == [0] && |pub| == cfg.group.PubSz()
    requires Lookup(h.exts, 43) == Some(VersionsExt().body) && Lookup(h.exts, 10) == Some(GroupsExt(cfg).body)
    requires Lookup(h.exts, 51) == Some(KeyShareExt(cfg, pub).body)
    requires Lookup(h.exts, 13) == Some(schemes) && Lists(schemes, 0x0403)
    ensures Offers(h, cfg.group.Id(), pub)
  {
    BeBytes(0x1301);
    VersionsBody();
    GroupsBody(cfg);
    ShareBody(cfg, pub);
  }

  /** Whatever the build options, the certificate hello is received as one that offers this. */
  lemma {:induction false} CertHelloOffers(cfg: Config, random: Bytes, sid: Bytes, pub: Bytes, name: Bytes)
    requires |random| == 32 && |sid| <= 32 && |pub| == cfg.group.PubSz() && |name| <= 255
    ensures var h := CertHello(cfg, random, sid, pub, name);
            && Received(h.Encode(), h) && Offers(h, cfg.group.Id(), pub)
            && Lookup(h.exts, 0) == (if name == [] then None else Some(HostEntry(name)))
  {
    var h := CertHello(cfg, random, sid, pub, name);
    CertHelloDecodes(cfg, random, sid, pub, name);
    assert h.Valid() by {
      CertBlockSize(cfg, pub, name);
      CertExtsValid(cfg, pub, name);
    }
    Head(h);
    CertFinds(cfg, pub, name);
    CertSchemesListed(cfg);
    BodiesOffer(h, cfg, pub, SigAlgsExt(cfg).body);
    CertLookups(cfg, pub, name);
    HostEntryWritten(name);
  }

  /** A server_name list of one host_name. */
  ghost function HostEntry(name: Bytes): Bytes { Big(2, |name| + 3) + ([0] + (Big(2, |name|) + name)) }

  lemma {:induction false} HostEntryWritten(name: Bytes)
    requires |name| <= 255
    ensures SniExt(name).body == HostEntry(name)
  {
    NumbersWritten(|name|);
    NumbersWritten(|name| + 3);
  }

  lemma {:induction false} CertFinds(cfg: Config, pub: Bytes, name: Bytes)
    ensures var exts := CertExts(cfg, pub, name);
            && Lookup(exts, 43) == Some(VersionsExt().body) && Lookup(exts, 10) == Some(GroupsExt(cfg).body)
            && Lookup(exts, 13) == Some(SigAlgsExt(cfg).body) && Lookup(exts, 51) == Some(KeyShareExt(cfg, pub).body)
  {
    var v, g, s, k := VersionsExt(), GroupsExt(cfg), SigAlgsExt(cfg), KeyShareExt(cfg, pub);
    FourFound(FrontName(name), v, g, s, k, []);
    assert CertExts(cfg, pub, name) == FrontName(name) + [v, g, s, k] + [];
  }

  /** Four different extensions, none of which is in front of them. */
  lemma {:induction false} FourFound(
      front: seq<RawExt>, v: RawExt, g: RawExt, s: RawExt, k: RawExt, behind: seq<RawExt>)
    requires v.ty == 43 && g.ty == 10 && s.ty == 13 && k.ty == 51 && forall x <- front :: x.ty == 0
    ensures var exts := front + [v, g, s, k] + behind;
            && Lookup(exts, 43) == Some(v.body) && Lookup(exts, 10) == Some(g.body)
            && Lookup(exts, 13) == Some(s.body) && Lookup(exts, 51) == Some(k.body)
  {
    var exts, n := front + [v, g, s, k] + behind, |front|;
    assert exts[n] == v && exts[n + 1] == g && exts[n + 2] == s && exts[n + 3] == k;
    assert forall j :: 0 <= j < n ==> exts[j] in front;
    LookupAt(exts, n);
    LookupAt(exts, n + 1);
    LookupAt(exts, n + 2);
    LookupAt(exts, n + 3);
  }

  lemma {:induction false} LookupBehind(front: seq<RawExt>, e: RawExt, behind: seq<RawExt>)
    requires forall x <- front :: x.ty != e.ty
    ensures Lookup(front + [e] + behind, e.ty) == Some(e.body)
  {
    LookupAt(front + [e] + behind, |front|);
  }

  /** So is the PSK hello, whatever its binder, exactly if its block fits. */
  lemma {:induction false} PskHelloOffers(
      cfg: Config, random: Bytes, sid: Bytes, pub: Bytes, id: Bytes, binder: Bytes)
    requires |random| == 32 && |sid| == 32 && |pub| == cfg.group.PubSz() && |binder| == 32 && |id| <= 0xFFFF
    requires PskHello.BlockFits(cfg, pub, id)
    ensures var h := PskHello.Hello(cfg, random, sid, pub, id, binder);
            Received(h.Encode(), h) && Offers(h, cfg.group.Id(), pub) && Lookup(h.exts, 45) == Some([1, 1])
  {
    var h := PskHello.Hello(cfg, random, sid, pub, id, binder);
    PskHello.BinderConsistent(cfg, random, sid, pub, id, binder);
    PskHello.HelloValid(cfg, random, sid, pub, id, binder);
    Head(h);
    PskFinds(cfg, pub, [PskHello.PskExt(id, binder)]);
    PskSchemesListed(cfg);
    BodiesOffer(h, cfg, pub, PskHello.PskSigAlgsExt(cfg).body);
  }

  lemma {:induction false} PskFinds(cfg: Config, pub: Bytes, last: seq<RawExt>)
    ensures var exts := PskHello.FrontExts(cfg, pub) + last;
            && Lookup(exts, 43) == Some(VersionsExt().body) && Lookup(exts, 10) == Some(GroupsExt(cfg).body)
            && Lookup(exts, 13) == Some(PskHello.PskSigAlgsExt(cfg).body)
            && Lookup(exts, 51) == Some(KeyShareExt(cfg, pub).body) && Lookup(exts, 45) == Some([1, 1])
  {
    var m := PskHello.ModesExt();
    FourFound([], VersionsExt(), GroupsExt(cfg), PskHello.PskSigAlgsExt(cfg), KeyShareExt(cfg, pub), [m] + last);
    var front := [VersionsExt(), GroupsExt(cfg), PskHello.PskSigAlgsExt(cfg), KeyShareExt(cfg, pub)];
    LookupBehind(front, m, last);
    assert PskHello.FrontExts(cfg, pub) + last == front + [m] + last == [] + front + ([m] + last);
  }

  lemma {:induction false} PskBodyReads(id: Bytes, binder: Bytes)
    requires |binder| == 32 && |id| + 6 < 0x1_0000
    ensures OnePsk(PskHello.PskExt(id, binder).body) == Some((id, binder))
  {
    var age := U16(0) + U16(0);
    Assoc(Vec(2, id), U16(0), U16(0));
    TakesVec(2, Vec(2, id) + age, PskHello.Binders(binder));
    TakesVec(2, id, age);
    TakesWholeVec(Vec(1, binder));
    assert Vec(1, binder) == Vec(1, binder) + [];
    TakesVec(1, binder, []);
  }

  /** A server accepts the PSK of the hello that carries this binder exactly if the binder is the MAC of
      the hello's stem. */
  lemma {:induction false} PskAcceptedExactly(
      c: Suite, psk: Bytes, cfg: Config, random: Bytes, sid: Bytes, pub: Bytes, id: Bytes, binder: Bytes)
    requires |random| == 32 && |sid| == 32 && |pub| == cfg.group.PubSz() && |binder| == 32 && |id| <= 0xFFFF
    ensures var msg := PskHello.Hello(cfg, random, sid, pub, id, binder).Encode();
            AcceptsPsk(c, psk, id, msg) <==>
            PskHello.BlockFits(cfg, pub, id)
            && binder == BinderOf(c, psk, c.hash(PskHello.Stem(cfg, random, sid, pub, id)))
  {
    var h, stem := PskHello.Hello(cfg, random, sid, pub, id, binder), PskHello.Stem(cfg, random, sid, pub, id);
    PskHello.BinderConsistent(cfg, random, sid, pub, id, binder);
    if PskHello.BlockFits(cfg, pub, id) {
      PskHelloOffers(cfg, random, sid, pub, id, binder);
      assert h.exts[|h.exts| - 1] == PskHello.PskExt(id, binder);
      PskBodyReads(id, binder);
      PskHello.StemAndBinder(cfg, random, sid, pub, id, binder);
      PskHello.DropTail(stem, U16(33) + [32] + binder);
    }
  }
}
