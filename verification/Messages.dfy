/** The bodies of the server's flight messages: wn_CheckEncExt, the Certificate list and
    CertificateVerify in src/wn_connect.c. */
module Messages {
  import opened Base
  import opened Wire
  import opened Extensions

  const ENCRYPTED_EXT: Byte := 8
  const CERTIFICATE: Byte := 11
  const CERT_REQUEST: Byte := 13
  const CERT_VERIFY: Byte := 15
  const FINISHED: Byte := 20
  const MAX_CHAIN: nat := 4

  // ---- EncryptedExtensions (section 4.3.1 of RFC 8446) ----

  predicate Allowed(e: RawExt, sniOffered: bool) {
    e.ty == 10 || (e.ty == 0 && sniOffered && e.body == [])
  }

  predicate AllAllowed(exts: seq<RawExt>, sniOffered: bool) {
    forall e <- exts :: Allowed(e, sniOffered)
  }

  predicate EncExtOk(body: Bytes, sniOffered: bool) {
    && |body| >= 2 && 2 + GetU16(body, 0) == |body|
    && ParseRaw(body[2..]).Some? && AllAllowed(ParseRaw(body[2..]).value, sniOffered)
  }

  /** Accepted bodies are exactly the extension vectors that hold supported_groups and, if it was
      offered, an empty server_name, any number of times. */
  lemma {:induction false} EncExtExact(body: Bytes, sniOffered: bool)
    ensures EncExtOk(body, sniOffered) <==>
            exists exts: seq<RawExt> ::
              && (forall e <- exts :: e.ty == 10 || (e.ty == 0 && sniOffered && e.body == []))
              && |EncodeRaw(exts)| < 0x1_0000 && body == Vec(2, EncodeRaw(exts))
  {
    if EncExtOk(body, sniOffered) {
      U16Unique(body, 0);
      DecodesRaw(body[2..]);
      assert body == body[0..2] + body[2..];
    }
    forall exts: seq<RawExt> | AllAllowed(exts, sniOffered) && |EncodeRaw(exts)| < 0x1_0000
      && body == Vec(2, EncodeRaw(exts))
      ensures EncExtOk(body, sniOffered)
    {
      assert body[0..2] == U16(|EncodeRaw(exts)|) && body[2..] == EncodeRaw(exts);
      ReadsU16(body, 0, |EncodeRaw(exts)|);
      ParsesRaw(exts);
    }
  }

  /** All extensions of a block parse and are allowed. */
  predicate BlockOk(s: Bytes, sniOffered: bool) {
    ParseRaw(s).Some? && AllAllowed(ParseRaw(s).value, sniOffered)
  }

  lemma {:induction false} BlockStep(s: Bytes, sniOffered: bool)
    requires s != []
    ensures BlockOk(s, sniOffered) <==>
            && 4 <= |s| && 4 + GetU16(s, 2) <= |s|
            && Allowed(RawExt(GetU16(s, 0), s[4..4 + GetU16(s, 2)]), sniOffered)
            && BlockOk(s[4 + GetU16(s, 2)..], sniOffered)
  {
    if 4 <= |s| && 4 + GetU16(s, 2) <= |s| {
      var more := ParseRaw(s[4 + GetU16(s, 2)..]);
      if more.Some? {
        var exts := [RawExt(GetU16(s, 0), s[4..4 + GetU16(s, 2)])] + more.value;
        assert exts[0] in exts && exts[1..] == more.value;
        assert forall e <- more.value :: e in exts;
      }
    }
  }

  /** The same at an offset. */
  lemma {:induction false} BlockStepAt(buf: Bytes, p: nat, sniOffered: bool)
    requires p < |buf|
    ensures BlockOk(buf[p..], sniOffered) <==>
            && p + 4 <= |buf| && p + 4 + GetU16(buf, p + 2) <= |buf|
            && (GetU16(buf, p) == 10 || (GetU16(buf, p) == 0 && sniOffered && GetU16(buf, p + 2) == 0))
            && BlockOk(buf[p + 4 + GetU16(buf, p + 2)..], sniOffered)
  {
    var s := buf[p..];
    BlockStep(s, sniOffered);
    if p + 4 <= |buf| {
      var el := GetU16(buf, p + 2);
      assert GetU16(s, 0) == GetU16(buf, p) && GetU16(s, 2) == el;
      assert p + 4 + el <= |buf| ==> s[4 + el..] == buf[p + 4 + el..] && |s[4..4 + el]| == el;
    }
  }

  method CheckEncExt(body: Bytes, sniOffered: bool) returns (ret: Code)
    requires |body| <= MAX_BUFFER
    ensures ret == Success <==> EncExtOk(body, sniOffered)
  {
    var r := new Reader(body);
    var extLen := r.ReadU16();
    var extEnd := r.pos + extLen;
    ret := Success;
    if r.err || extEnd != |body| {
      return Decode;
    }
    ghost var goal := EncExtOk(body, sniOffered);
    while ret == Success && r.pos < extEnd && !r.err
      invariant r.Valid() && r.buf == body && fresh(r) && (ret == Success ==> !r.err)
      invariant ret == Success ==> goal == BlockOk(body[r.pos..], sniOffered)
      invariant ret != Success ==> !goal
      decreases if ret == Success then 1 + |body| - r.pos else 0
    {
      ret := CheckOneExt(r, sniOffered);
    }
  }

  /** The loop body of CheckEncExt: one extension off the reader. */
  method CheckOneExt(r: Reader, sniOffered: bool) returns (ret: Code)
    requires r.Valid() && !r.err && r.pos < |r.buf|
    modifies r
    ensures r.Valid() && (ret == Success ==> !r.err && old(r.pos) < r.pos)
    ensures BlockOk(r.buf[old(r.pos)..], sniOffered) <==> ret == Success && BlockOk(r.buf[r.pos..], sniOffered)
  {
    ret := Success;
    BlockStepAt(r.buf, r.pos, sniOffered);
    var et := r.ReadU16();
    var el := r.ReadU16();
    var skipped := r.ReadBytes(el);
    if r.err {
      ret := Decode;
    } else if et != 10 && !(et == 0 && sniOffered && el == 0) {
      ret := UnexpectedMsg;
    }
  }

  // ---- Certificate (section 4.4.2 of RFC 8446) ----

  datatype Entry = Entry(cert: Bytes, ext: Bytes)
  {
    predicate Valid() { |cert| < 0x100_0000 && |ext| < 0x1_0000 }

    function Encode(): (r: Bytes)
      ensures |r| == 5 + |cert| + |ext|
    {
      Vec(3, cert) + Vec(2, ext)
    }
  }

  /** A certificate inside the message body. */
  datatype Slice = Slice(off: nat, len: nat)

  /** The end of the entry at offset p, if it is complete. */
  function EntryEnd(body: Bytes, p: nat): Option<nat> {
    if p + 3 > |body| || p + 3 + GetU24(body, p) + 2 > |body| then None
    else
      var q := p + 3 + GetU24(body, p);
      if q + 2 + GetU16(body, q) > |body| then None else Some(q + 2 + GetU16(body, q))
  }

  /** The certificates of at most `room` entries from p on; bytes behind the last of them are not
      looked at. */
  function Slices(body: Bytes, p: nat, room: nat): Option<seq<Slice>>
    decreases room
  {
    if p >= |body| || room == 0 then Some([])
    else
      match EntryEnd(body, p)
      case None => None
      case Some(end) =>
        match Slices(body, end, room - 1)
        case None => None
        case Some(more) => Some([Slice(p + 3, GetU24(body, p))] + more)
  }

  /** A Certificate body: empty context, exact list length. */
  function CertList(body: Bytes): Option<seq<Slice>> {
    if |body| < 4 || body[0] != 0 || GetU24(body, 1) != |body| - 4 then None else Slices(body, 4, MAX_CHAIN)
  }

  /** In bounds from `start` to `end`, in order and disjoint. */
  ghost predicate InOrder(slices: seq<Slice>, start: nat, end: nat) {
    && (forall i :: 0 <= i < |slices| ==> start <= slices[i].off && slices[i].off + slices[i].len <= end)
    && (forall i, j :: 0 <= i < j < |slices| ==> slices[i].off + slices[i].len <= slices[j].off)
  }

  lemma {:induction false} SlicesInOrder(body: Bytes, p: nat, room: nat)
    requires Slices(body, p, room).Some?
    ensures InOrder(Slices(body, p, room).value, p, |body|)
    decreases room
  {
    if p < |body| && room > 0 {
      var end := EntryEnd(body, p).value;
      SlicesInOrder(body, end, room - 1);
      OneMoreSlice(Slice(p + 3, GetU24(body, p)), Slices(body, end, room - 1).value, p, end, |body|);
    }
  }

  lemma {:induction false} OneMoreSlice(s: Slice, more: seq<Slice>, p: nat, mid: nat, end: nat)
    requires p <= s.off && s.off + s.len <= mid <= end && InOrder(more, mid, end)
    ensures InOrder([s] + more, p, end)
  {
    var all := [s] + more;
    assert forall i :: 0 < i < |all| ==> all[i] == more[i - 1];
  }

  function ChainOf(body: Bytes, slices: seq<Slice>): (r: seq<Bytes>)
    requires forall s <- slices :: s.off + s.len <= |body|
    ensures |r| == |slices| && forall i :: 0 <= i < |slices| ==>
            r[i] == body[slices[i].off..slices[i].off + slices[i].len]
  {
    seq(|slices|, i requires 0 <= i < |slices| => assert slices[i] in slices;
      body[slices[i].off..slices[i].off + slices[i].len])
  }

  /** The body reads this entry at offset p. */
  predicate EntryIs(body: Bytes, p: nat, e: Entry) {
    e.Valid() && p + |e.Encode()| <= |body| && body[p..p + |e.Encode()|] == e.Encode()
  }

  /** From p on the body reads these entries, and there is nothing behind fewer than `room`. */
  predicate EntriesFrom(body: Bytes, p: nat, room: nat, entries: seq<Entry>)
    decreases |entries|
  {
    if entries == [] then room == 0 || p >= |body|
    else
      && room > 0 && EntryIs(body, p, entries[0])
      && EntriesFrom(body, p + |entries[0].Encode()|, room - 1, entries[1..])
  }

  /** The slices hold the certificates of these entries. */
  ghost predicate Holds(body: Bytes, slices: seq<Slice>, entries: seq<Entry>) {
    && |slices| == |entries|
    && forall i :: 0 <= i < |slices| ==>
         slices[i].off + slices[i].len <= |body|
           && body[slices[i].off..slices[i].off + slices[i].len] == entries[i].cert
  }

  lemma {:induction false} EntryRead(body: Bytes, p: nat, e: Entry)
    requires EntryIs(body, p, e)
    ensures p < |body| && EntryEnd(body, p) == Some(p + |e.Encode()|)
            && e.cert == body[p + 3..p + 3 + GetU24(body, p)]
  {
    SlicePieces(body, p, p + |e.Encode()|, U24(|e.cert|), e.cert, U16(|e.ext|), e.ext);
    ReadsU24(body, p, |e.cert|);
    ReadsU16(body, p + 3 + |e.cert|, |e.ext|);
  }

  lemma {:induction false} EntryFound(body: Bytes, p: nat) returns (e: Entry)
    requires EntryEnd(body, p).Some?
    ensures EntryIs(body, p, e) && EntryEnd(body, p) == Some(p + |e.Encode()|)
            && e.cert == body[p + 3..p + 3 + GetU24(body, p)]
  {
    var n, end := GetU24(body, p), EntryEnd(body, p).value;
    var q := p + 3 + n;
    e := Entry(body[p + 3..q], body[q + 2..end]);
    assert body[p..q] == Vec(3, e.cert) by {
      U24Unique(body, p);
      assert body[p..q] == body[p..p + 3] + body[p + 3..q];
    }
    assert body[q..end] == Vec(2, e.ext) by {
      U16Unique(body, q);
      assert body[q..end] == body[q..q + 2] + body[q + 2..end];
    }
    assert body[p..end] == body[p..q] + body[q..end];
  }

  lemma {:induction false} HoldsMore(body: Bytes, s: Slice, slices: seq<Slice>, e: Entry, entries: seq<Entry>)
    requires Holds(body, slices, entries) && s.off + s.len <= |body| && body[s.off..s.off + s.len] == e.cert
    ensures Holds(body, [s] + slices, [e] + entries)
  {
  }

  lemma {:induction false} SlicesEncoded(body: Bytes, p: nat, room: nat, entries: seq<Entry>)
    requires EntriesFrom(body, p, room, entries)
    ensures Slices(body, p, room).Some? && Holds(body, Slices(body, p, room).value, entries)
    decreases room
  {
    if entries != [] {
      var e := entries[0];
      EntryRead(body, p, e);
      var end := EntryEnd(body, p).value;
      SlicesEncoded(body, end, room - 1, entries[1..]);
      HeldMore(body, p, room, e, entries[1..]);
      assert entries == [e] + entries[1..];
    }
  }

  lemma {:induction false} EntriesMore(body: Bytes, p: nat, room: nat, e: Entry, more: seq<Entry>)
    requires room > 0 && EntryIs(body, p, e) && EntriesFrom(body, p + |e.Encode()|, room - 1, more)
    ensures EntriesFrom(body, p, room, [e] + more)
  {
    assert ([e] + more)[1..] == more;
  }

  lemma {:induction false} SlicesDecoded(body: Bytes, p: nat, room: nat) returns (entries: seq<Entry>)
    requires Slices(body, p, room).Some?
    ensures EntriesFrom(body, p, room, entries) && Holds(body, Slices(body, p, room).value, entries)
    decreases room
  {
    if p >= |body| || room == 0 {
      entries := [];
    } else {
      var end := EntryEnd(body, p).value;
      var e := EntryFound(body, p);
      var more := SlicesDecoded(body, end, room - 1);
      EntriesMore(body, p, room, e, more);
      HeldMore(body, p, room, e, more);
      entries := [e] + more;
    }
  }

  lemma {:induction false} HeldMore(body: Bytes, p: nat, room: nat, e: Entry, more: seq<Entry>)
    requires p < |body| && room > 0 && EntryEnd(body, p).Some?
    requires e.cert == body[p + 3..p + 3 + GetU24(body, p)]
    requires var rest := Slices(body, EntryEnd(body, p).value, room - 1); rest.Some? && Holds(body, rest.value, more)
    ensures Slices(body, p, room).Some? && Holds(body, Slices(body, p, room).value, [e] + more)
  {
    var first := Slice(p + 3, GetU24(body, p));
    HoldsMore(body, first, Slices(body, EntryEnd(body, p).value, room - 1).value, e, more);
  }

  /** A Certificate body with an empty context whose list holds these entries: up to four, and
      nothing behind fewer than four. */
  ghost predicate CertBody(body: Bytes, entries: seq<Entry>) {
    && 4 <= |body| < 0x100_0004 && body[0] == 0 && body[1..4] == U24(|body| - 4)
    && EntriesFrom(body, 4, MAX_CHAIN, entries)
  }

  lemma {:induction false} CertBodyAccepted(body: Bytes, entries: seq<Entry>)
    requires CertBody(body, entries)
    ensures CertList(body).Some? && Holds(body, CertList(body).value, entries)
  {
    ReadsU24(body, 1, |body| - 4);
    SlicesEncoded(body, 4, MAX_CHAIN, entries);
  }

  /** Accepted bodies are exactly those, and the slices hold the entries' certificates. */
  lemma {:induction false} CertListExact(body: Bytes)
    ensures CertList(body).Some? <==> exists entries: seq<Entry> :: CertBody(body, entries)
    ensures forall entries: seq<Entry> :: CertBody(body, entries) ==>
            CertList(body).Some? && Holds(body, CertList(body).value, entries)
  {
    if CertList(body).Some? {
      U24Unique(body, 1);
      var entries := SlicesDecoded(body, 4, MAX_CHAIN);
      assert CertBody(body, entries);
    }
    forall entries: seq<Entry> | CertBody(body, entries)
      ensures CertList(body).Some? && Holds(body, CertList(body).value, entries)
    {
      CertBodyAccepted(body, entries);
    }
  }

  method ReadEntry(r: Reader) returns (s: Slice)
    requires r.Valid() && !r.err
    modifies r
    ensures r.Valid() && old(r.pos) <= r.pos
    ensures var end := EntryEnd(r.buf, old(r.pos));
            if end.None? then r.err
            else !r.err && r.pos == end.value && s == Slice(old(r.pos) + 3, GetU24(r.buf, old(r.pos)))
  {
    var cl := r.ReadU24();
    s := Slice(r.pos, cl);
    var cert := r.ReadBytes(cl);
    var extl := r.ReadU16();
    var ext := r.ReadBytes(extl);
  }

  function Prepend(front: seq<Slice>, more: Option<seq<Slice>>): Option<seq<Slice>> {
    if more.None? then None else Some(front + more.value)
  }

  lemma {:induction false} PrependOne(front: seq<Slice>, s: Slice, more: Option<seq<Slice>>)
    ensures Prepend(front, Prepend([s], more)) == Prepend(front + [s], more)
  {
    if more.Some? {
      assert front + ([s] + more.value) == front + [s] + more.value;
    }
  }

  method ReadEntries(r: Reader) returns (slices: seq<Slice>)
    requires r.Valid() && !r.err
    modifies r
    ensures r.Valid() && Slices(r.buf, old(r.pos), MAX_CHAIN) == if r.err then None else Some(slices)
  {
    slices := [];
    var room := MAX_CHAIN;
    ghost var goal := Slices(r.buf, r.pos, room);
    assert goal == Prepend([], goal) by { if goal.Some? { assert [] + goal.value == goal.value; } }
    while r.pos < |r.buf| && room > 0 && !r.err
      invariant r.Valid()
      invariant goal == if r.err then None else Prepend(slices, Slices(r.buf, r.pos, room))
      decreases room
    {
      ghost var p := r.pos;
      var s := ReadEntry(r);
      if !r.err {
        PrependOne(slices, s, Slices(r.buf, r.pos, room - 1));
        slices := slices + [s];
      }
      room := room - 1;
    }
    assert slices + [] == slices;
  }

  /** The Certificate parser of the driver. */
  method ParseCertificate(body: Bytes) returns (ret: Code, slices: seq<Slice>)
    requires |body| <= MAX_BUFFER
    ensures ret == Success <==> CertList(body).Some?
    ensures ret == Success ==> slices == CertList(body).value && InOrder(slices, 4, |body|)
  {
    slices := [];
    var r := new Reader(body);
    var ctxLen := r.ReadU8();
    var ctx := r.ReadBytes(ctxLen);
    var listLen := r.ReadU24();
    var listEnd := r.pos + listLen;
    if r.err || ctxLen != 0 || listEnd != |body| {
      return Decode, slices;
    }
    slices := ReadEntries(r);
    if r.err {
      return Decode, slices;
    }
    ret := Success;
    SlicesInOrder(body, 4, MAX_CHAIN);
  }

  // ---- CertificateVerify (section 4.4.3 of RFC 8446) ----

  /** "TLS 1.3, server CertificateVerify" */
  const CV_LABEL: Bytes := [
    84, 76, 83, 32, 49, 46, 51, 44, 32, 115, 101, 114, 118, 101, 114, 32, 67, 101, 114, 116, 105, 102,
    105, 99, 97, 116, 101, 86, 101, 114, 105, 102, 121]

  function CvContent(hash: Bytes): Bytes { seq(64, i => 0x20) + CV_LABEL + [0] + hash }

  /** A body is a scheme and a signature that spans the rest. */
  function CvParts(body: Bytes): Option<(nat, Bytes)> {
    if |body| < 4 || 4 + GetU16(body, 2) != |body| then None else Some((GetU16(body, 0), body[4..]))
  }

  method ParseCertVerify(body: Bytes) returns (ok: bool, scheme: nat, sig: Bytes)
    requires |body| <= MAX_BUFFER
    ensures CvParts(body) == if ok then Some((scheme, sig)) else None
  {
    sig := [];
    var r := new Reader(body);
    scheme := r.ReadU16();
    var cvLen := r.ReadU16();
    ok := !r.err && r.pos + cvLen == |body|;
    if ok {
      sig := body[r.pos..];
    }
  }

  // ---- the order of the flight (src/wn_flight.h) ----

  datatype Flags = Flags(ee: bool, cert: bool, cv: bool)

  /** A message type acceptable after the ones seen. */
  predicate InFlightOrder(ty: Byte, f: Flags) {
    || (ty == ENCRYPTED_EXT && !f.ee)
    || (ty == CERTIFICATE && f.ee && !f.cert)
    || (ty == CERT_VERIFY && f.cert && !f.cv)
    || (ty == FINISHED && f.cv)
  }

  function Mark(ty: Byte, f: Flags): Flags {
    if ty == ENCRYPTED_EXT then f.(ee := true)
    else if ty == CERTIFICATE then f.(cert := true)
    else if ty == CERT_VERIFY then f.(cv := true)
    else f
  }

  method FlightOrder(mType: Byte, got: Flags) returns (ret: Code, got': Flags)
    ensures ret == Success <==> InFlightOrder(mType, got)
    ensures got' == Mark(mType, got)
  {
    ret, got' := Success, got;
    if mType == ENCRYPTED_EXT {
      if got.ee { ret := UnexpectedMsg; }
      got' := got'.(ee := true);
    } else if mType == CERT_REQUEST {
      ret := Unsupported;
    } else if mType == CERTIFICATE {
      if !got.ee || got.cert { ret := UnexpectedMsg; }
      got' := got'.(cert := true);
    } else if mType == CERT_VERIFY {
      if !got.cert || got.cv { ret := UnexpectedMsg; }
      got' := got'.(cv := true);
    } else if mType == FINISHED {
      if !got.cv { ret := UnexpectedMsg; }
    } else {
      ret := UnexpectedMsg;
    }
  }

  /** A sequence of types the gate lets through, one after the other. */
  predicate Accepts(types: seq<Byte>, got: Flags)
    decreases types
  {
    types != [] ==> InFlightOrder(types[0], got) && Accepts(types[1..], Mark(types[0], got))
  }

  const NOTHING: Flags := Flags(false, false, false)
  const FIRST_THREE: seq<Byte> := [ENCRYPTED_EXT, CERTIFICATE, CERT_VERIFY]

  ghost predicate OnlyFinished(types: seq<Byte>) {
    forall i :: 0 <= i < |types| ==> types[i] == FINISHED
  }

  lemma {:induction false} AfterCertVerify(types: seq<Byte>)
    ensures Accepts(types, Flags(true, true, true)) <==> OnlyFinished(types)
    decreases types
  {
    if types != [] {
      AfterCertVerify(types[1..]);
      assert forall i :: 0 < i < |types| ==> types[i] == types[1..][i - 1];
    }
  }

  /** The gate alone lets through exactly the three first messages in order, or a part of them, and
      then any number of Finished. */
  lemma {:induction false} GateExact(types: seq<Byte>)
    ensures Accepts(types, NOTHING) <==> types <= FIRST_THREE || (FIRST_THREE <= types && OnlyFinished(types[3..]))
  {
    if types != [] {
      var rest := types[1..];
      assert Accepts(types, NOTHING) <==> types[0] == ENCRYPTED_EXT && Accepts(rest, Flags(true, false, false));
      AfterEncExt(rest);
      assert forall i :: 0 < i < |types| ==> types[i] == rest[i - 1];
      assert |types| >= 3 ==> types[3..] == rest[2..];
    }
  }

  lemma {:induction false} AfterEncExt(types: seq<Byte>)
    ensures Accepts(types, Flags(true, false, false)) <==>
            && (|types| > 0 ==> types[0] == CERTIFICATE) && (|types| > 1 ==> types[1] == CERT_VERIFY)
            && (|types| > 2 ==> OnlyFinished(types[2..]))
  {
    if |types| > 1 {
      assert types[1..][1..] == types[2..];
      AfterCertVerify(types[2..]);
    }
  }

  /** So "no duplicates" holds of what it lets through exactly up to four messages; the driver's done
      flag stops at the first Finished. */
  lemma {:induction false} GateRepeats(types: seq<Byte>)
    requires Accepts(types, NOTHING)
    ensures (forall i, j :: 0 <= i < j < |types| ==> types[i] != types[j]) <==> |types| <= 4
  {
    GateExact(types);
    if |types| > 4 {
      assert types[3] == types[3..][0] && types[4] == types[3..][1];
    } else if |types| == 4 {
      assert types[3] == types[3..][0];
    }
  }

  lemma {:induction false} SecondFinished()
    ensures Accepts(FIRST_THREE + [FINISHED, FINISHED], NOTHING)
  {
    var types := FIRST_THREE + [FINISHED, FINISHED];
    assert types[3..] == [FINISHED, FINISHED];
    GateExact(types);
  }
}
