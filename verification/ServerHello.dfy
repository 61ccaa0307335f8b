/** The ServerHello grammar of section 4.1.3 of RFC 8446 and its parser, src/wn_serverhello.c. */
module ServerHello {
  import opened Base
  import opened Wire
  import opened Extensions

  const SERVER_HELLO: Byte := 2
  const EXT_SUPPORTED_VERSIONS: nat := 43
  const EXT_PRE_SHARED_KEY: nat := 41
  const EXT_KEY_SHARE: nat := 51

  /** The random of a HelloRetryRequest. */
  const HRR_RANDOM: Bytes := [
    0xCF, 0x21, 0xAD, 0x74, 0xE5, 0x9A, 0x61, 0x11,
    0xBE, 0x1D, 0x8C, 0x02, 0x1E, 0x65, 0xB8, 0x91,
    0xC2, 0xA2, 0x11, 0x16, 0x7A, 0xBB, 0x8C, 0x5E,
    0x07, 0x9E, 0x09, 0xE2, 0xC8, 0xA8, 0x33, 0x9C]

  // ---- the grammar ----

  datatype Ext =
    | KeyShare(group: nat, key: Bytes)
    | SupportedVersions(version: nat)
    | PreSharedKey(identity: nat)
  {
    predicate Valid() {
      match this
      case KeyShare(g, k) => g < 0x1_0000 && |k| + 4 < 0x1_0000
      case SupportedVersions(v) => v < 0x1_0000
      case PreSharedKey(i) => i < 0x1_0000
    }

    function Type(): nat {
      match this
      case KeyShare(_, _) => EXT_KEY_SHARE
      case SupportedVersions(_) => EXT_SUPPORTED_VERSIONS
      case PreSharedKey(_) => EXT_PRE_SHARED_KEY
    }

    function Body(): Bytes {
      match this
      case KeyShare(g, k) => U16(g) + Vec(2, k)
      case SupportedVersions(v) => U16(v)
      case PreSharedKey(i) => U16(i)
    }

    function Encode(): Bytes { ExtBytes(Type(), Body()) }
  }

  function EncodeExts(exts: seq<Ext>): Bytes {
    if exts == [] then [] else exts[0].Encode() + EncodeExts(exts[1..])
  }

  datatype Hello = Hello(random: Bytes, sessionId: Bytes, cipher: nat, exts: seq<Ext>)
  {
    /** Each kind of extension at most once, in any order, and nothing else. */
    ghost predicate Valid() {
      && |random| == 32 && random != HRR_RANDOM && |sessionId| < 0x100 && cipher < 0x1_0000
      && (forall e <- exts :: e.Valid())
      && (forall i, j :: 0 <= i < j < |exts| ==> exts[i].Type() != exts[j].Type())
      && |EncodeExts(exts)| < 0x1_0000
    }

    function Body(): Bytes { U16(0x0303) + (random + Tail()) }

    function Tail(): Bytes {
      Be(1, |sessionId|) + (sessionId + (U16(cipher) + ([0] + Vec(2, EncodeExts(exts)))))
    }

    function Encode(): Bytes { Message(SERVER_HELLO, Body()) }
  }

  // ---- what the parser reports ----

  /** wn_ServerHello; an absent extension leaves its default. */
  datatype Fields = Fields(
    random: Bytes, sessionId: Bytes, cipher: nat,
    keyShare: Option<Bytes>, group: nat, version: nat, psk: int)

  datatype Parsed = Rejected | HelloRetry | Parsed(fields: Fields)

  /** The extensions' contribution to the report. */
  function Apply(f: Fields, e: Ext): Fields {
    match e
    case KeyShare(g, k) => f.(keyShare := Some(k), group := g)
    case SupportedVersions(v) => f.(version := v)
    case PreSharedKey(i) => f.(psk := i)
  }

  function ApplyAll(f: Fields, exts: seq<Ext>): Fields
    decreases exts
  {
    if exts == [] then f else ApplyAll(Apply(f, exts[0]), exts[1..])
  }

  function Report(h: Hello): Fields {
    ApplyAll(Fields(h.random, h.sessionId, h.cipher, None, 0, 0, -1), h.exts)
  }

  // ---- a functional parser, the bridge between the grammar and the loop ----

  /** The first extension of a block and the bytes behind it. */
  function FirstExt(s: Bytes): Option<(Ext, Bytes)> {
    if |s| < 4 || 4 + GetU16(s, 2) > |s| then None
    else
      var et, el := GetU16(s, 0), GetU16(s, 2);
      var rest := s[4 + el..];
      if et == EXT_KEY_SHARE then
        if el >= 4 && 4 + GetU16(s, 6) == el then Some((KeyShare(GetU16(s, 4), s[8..4 + el]), rest)) else None
      else if et == EXT_SUPPORTED_VERSIONS then
        if el == 2 then Some((SupportedVersions(GetU16(s, 4)), rest)) else None
      else if et == EXT_PRE_SHARED_KEY then
        if el == 2 then Some((PreSharedKey(GetU16(s, 4)), rest)) else None
      else None
  }

  /** The extension loop, with the types seen so far. */
  function Scan(s: Bytes, seen: set<nat>, f: Fields): Option<Fields>
    decreases |s|
  {
    if s == [] then Some(f)
    else
      match FirstExt(s)
      case None => None
      case Some((e, rest)) => if e.Type() in seen then None else Scan(rest, seen + {e.Type()}, Apply(f, e))
  }

  lemma {:induction false} KeyShareParts(g: nat, k: Bytes)
    requires g < 0x1_0000 && |k| + 4 < 0x1_0000
    ensures var body := U16(g) + Vec(2, k); GetU16(body, 0) == g && GetU16(body, 2) == |k| && body[4..] == k
  {
    var body := U16(g) + Vec(2, k);
    Front(body, 0, U16(g), Vec(2, k));
    Front(body, 2, U16(|k|), k);
    ReadsU16(body, 0, g);
    ReadsU16(body, 2, |k|);
  }

  lemma {:induction false} FirstExtEncoded(e: Ext, rest: Bytes)
    requires e.Valid()
    ensures FirstExt(e.Encode() + rest) == Some((e, rest))
  {
    var s, body := e.Encode() + rest, e.Body();
    var eEnd := 4 + |body|;
    ExtParts(e.Type(), body, rest);
    U16OfSlice(s, 4, eEnd, 0);
    match e {
      case KeyShare(g, k) =>
        KeyShareParts(g, k);
        U16OfSlice(s, 4, eEnd, 2);
        SliceOfSlice(s, 4, eEnd, 4, |body|);
      case SupportedVersions(v) => ReadsU16(body, 0, v);
      case PreSharedKey(i) => ReadsU16(body, 0, i);
    }
  }

  lemma {:induction false} FirstExtDecoded(s: Bytes)
    requires FirstExt(s).Some?
    ensures var (e, rest) := FirstExt(s).value; e.Valid() && s == e.Encode() + rest && |rest| < |s|
  {
    var e := FirstExt(s).value.0;
    var el := GetU16(s, 2);
    ExtUnique(s);
    if e.KeyShare? {
      KeyShareBody(s, 4 + el);
    } else {
      U16Unique(s, 4);
    }
  }

  lemma {:induction false} KeyShareBody(s: Bytes, end: nat)
    requires 8 <= end <= |s| && GetU16(s, 6) == end - 8
    ensures s[4..end] == U16(GetU16(s, 4)) + Vec(2, s[8..end])
  {
    U16Unique(s, 4);
    U16Unique(s, 6);
    assert s[4..end] == s[4..6] + (s[6..8] + s[8..end]);
  }

  ghost predicate Distinct(exts: seq<Ext>, seen: set<nat>) {
    && (forall e <- exts :: e.Valid() && e.Type() !in seen)
    && (forall i, j :: 0 <= i < j < |exts| ==> exts[i].Type() != exts[j].Type())
  }

  lemma {:induction false} ScanEncoded(exts: seq<Ext>, seen: set<nat>, f: Fields)
    requires Distinct(exts, seen)
    ensures Scan(EncodeExts(exts), seen, f) == Some(ApplyAll(f, exts))
    decreases |exts|
  {
    if exts != [] {
      var e, rest := exts[0], exts[1..];
      FirstExtEncoded(e, EncodeExts(rest));
      ScanEncoded(rest, seen + {e.Type()}, Apply(f, e));
    }
  }

  lemma {:induction false} ScanDecoded(s: Bytes, seen: set<nat>, f: Fields) returns (exts: seq<Ext>)
    requires Scan(s, seen, f).Some?
    ensures Distinct(exts, seen) && EncodeExts(exts) == s && ApplyAll(f, exts) == Scan(s, seen, f).value
    decreases |s|
  {
    if s == [] {
      exts := [];
    } else {
      var (e, rest) := FirstExt(s).value;
      FirstExtDecoded(s);
      var more := ScanDecoded(rest, seen + {e.Type()}, Apply(f, e));
      exts := [e] + more;
      assert exts[1..] == more;
      DistinctGrows(e, more, seen);
    }
  }

  lemma {:induction false} DistinctGrows(e: Ext, more: seq<Ext>, seen: set<nat>)
    requires e.Valid() && e.Type() !in seen && Distinct(more, seen + {e.Type()})
    ensures Distinct([e] + more, seen)
  {
    var exts := [e] + more;
    forall i, j | 0 <= i < j < |exts| ensures exts[i].Type() != exts[j].Type() {
      assert exts[j] == more[j - 1] && more[j - 1] in more;
    }
  }

  /** The header up to the extension block, which starts at offset p + 5. */
  predicate HeaderOk(msg: Bytes, p: nat)
    requires 39 <= p && p + 5 <= |msg|
  {
    && msg[0] == SERVER_HELLO && GetU24(msg, 1) == |msg| - 4 && GetU16(msg, 4) == 0x0303
    && msg[p + 2] == 0 && p + 5 + GetU16(msg, p + 3) == |msg|
  }

  function Before(msg: Bytes, p: nat): Fields
    requires 39 <= p && p + 5 <= |msg|
  {
    Fields(msg[6..38], msg[39..p], GetU16(msg, p), None, 0, 0, -1)
  }

  predicate IsRetry(msg: Bytes) {
    |msg| >= 38 && msg[0] == SERVER_HELLO && msg[6..38] == HRR_RANDOM
  }

  function ParseSpec(msg: Bytes): Parsed {
    if IsRetry(msg) then HelloRetry
    else if |msg| < 39 || 39 + msg[38] as int + 5 > |msg| then Rejected
    else
      var p := 39 + msg[38] as int;
      if !HeaderOk(msg, p) then Rejected
      else
        match Scan(msg[p + 5..], {}, Before(msg, p))
        case None => Rejected
        case Some(f) => Parsed(f)
  }

  /** The pieces of an encoded hello, at their offsets. */
  lemma {:induction false} EncodedHead(h: Hello)
    requires h.Valid()
    ensures var msg := h.Encode();
            && 38 < |msg| && msg[0] == SERVER_HELLO && msg[1..4] == U24(|msg| - 4) && msg[4..6] == U16(0x0303)
            && msg[6..38] == h.random && msg[38..] == h.Tail()
  {
    var msg, body := h.Encode(), h.Body();
    Front(msg, 1, U24(|body|), body);
    Front(msg, 4, U16(0x0303), h.random + h.Tail());
    Front(msg, 6, h.random, h.Tail());
  }

  lemma {:induction false} EncodedTail(msg: Bytes, h: Hello)
    requires h.Valid() && 38 < |msg| && msg[38..] == h.Tail()
    ensures var p, ext := 39 + |h.sessionId|, EncodeExts(h.exts);
            && p + 5 + |ext| == |msg| && msg[38] == |h.sessionId| && msg[39..p] == h.sessionId
            && msg[p..p + 2] == U16(h.cipher) && msg[p + 2] == 0
            && msg[p + 3..p + 5] == U16(|ext|) && msg[p + 5..] == ext
  {
    var p, ext := 39 + |h.sessionId|, EncodeExts(h.exts);
    FrontPieces(msg, 38, Be(1, |h.sessionId|), h.sessionId, U16(h.cipher), [0] + Vec(2, ext));
    Front(msg, p + 2, [0], Vec(2, ext));
    Front(msg, p + 3, U16(|ext|), ext);
    assert msg[38] == msg[38..39][0] && Be(1, |h.sessionId|)[0] == |h.sessionId| by { BeBytes(|h.sessionId|); }
    assert msg[p + 2] == msg[p + 2..p + 3][0];
  }

  lemma {:induction false} EncodedHeader(h: Hello)
    requires h.Valid()
    ensures var msg, p := h.Encode(), 39 + |h.sessionId|;
            && p + 5 <= |msg| && msg[38] == |h.sessionId| && HeaderOk(msg, p) && !IsRetry(msg)
            && Before(msg, p) == Fields(h.random, h.sessionId, h.cipher, None, 0, 0, -1)
            && msg[p + 5..] == EncodeExts(h.exts)
  {
    var msg, p := h.Encode(), 39 + |h.sessionId|;
    EncodedHead(h);
    EncodedTail(msg, h);
    ReadsU24(msg, 1, |msg| - 4);
    ReadsU16(msg, 4, 0x0303);
    ReadsU16(msg, p, h.cipher);
    ReadsU16(msg, p + 3, |EncodeExts(h.exts)|);
  }

  lemma {:induction false} ParsesEncoded(h: Hello)
    requires h.Valid()
    ensures ParseSpec(h.Encode()) == Parsed(Report(h))
  {
    EncodedHeader(h);
    ScanEncoded(h.exts, {}, Fields(h.random, h.sessionId, h.cipher, None, 0, 0, -1));
    ParsesScanned(h.Encode(), 39 + |h.sessionId|, Report(h));
  }

  lemma {:induction false} ParsesScanned(msg: Bytes, p: nat, f: Fields)
    requires |msg| > 38 && p == 39 + msg[38] as int && p + 5 <= |msg| && HeaderOk(msg, p) && !IsRetry(msg)
    requires Scan(msg[p + 5..], {}, Before(msg, p)) == Some(f)
    ensures ParseSpec(msg) == Parsed(f)
  {
  }

  lemma {:induction false} DecodesParsed(msg: Bytes) returns (h: Hello)
    requires ParseSpec(msg).Parsed?
    ensures h.Valid() && h.Encode() == msg && ParseSpec(msg) == Parsed(Report(h))
  {
    var p := ParsedShape(msg);
    h := DecodesScanned(msg, p, ParseSpec(msg).fields);
  }

  lemma {:induction false} DecodesScanned(msg: Bytes, p: nat, f: Fields) returns (h: Hello)
    requires |msg| > 38 && p == 39 + msg[38] as int && p + 5 <= |msg| && HeaderOk(msg, p) && !IsRetry(msg)
    requires Scan(msg[p + 5..], {}, Before(msg, p)) == Some(f)
    ensures h.Valid() && h.Encode() == msg && f == Report(h)
  {
    var exts := ScanDecoded(msg[p + 5..], {}, Before(msg, p));
    h := Assembled(msg, p, exts);
  }

  /** The hello with this header and these extensions. */
  lemma {:induction false} Assembled(msg: Bytes, p: nat, exts: seq<Ext>) returns (h: Hello)
    requires |msg| > 38 && p == 39 + msg[38] as int && p + 5 <= |msg| && HeaderOk(msg, p) && !IsRetry(msg)
    requires Distinct(exts, {}) && EncodeExts(exts) == msg[p + 5..]
    ensures h.Valid() && h.Encode() == msg && Report(h) == ApplyAll(Before(msg, p), exts)
  {
    h := Hello(msg[6..38], msg[39..p], GetU16(msg, p), exts);
    ReassemblesTail(msg, p, h);
    Reassembles(msg, h);
  }

  /** The tests that a parsed message has passed. */
  lemma {:induction false} ParsedShape(msg: Bytes) returns (p: nat)
    requires ParseSpec(msg).Parsed?
    ensures |msg| > 38 && p == 39 + msg[38] as int && p + 5 <= |msg| && HeaderOk(msg, p) && !IsRetry(msg)
    ensures Scan(msg[p + 5..], {}, Before(msg, p)) == Some(ParseSpec(msg).fields)
  {
    p := 39 + msg[38] as int;
  }

  lemma {:induction false} ReassemblesTail(msg: Bytes, p: nat, h: Hello)
    requires 39 <= p && p + 5 <= |msg| && msg[p + 2] == 0 && p + 5 + GetU16(msg, p + 3) == |msg|
             && p == 39 + msg[38] as int
    requires h.sessionId == msg[39..p] && h.cipher == GetU16(msg, p) && EncodeExts(h.exts) == msg[p + 5..]
    ensures h.Tail() == msg[38..]
  {
    var rest := U16(h.cipher) + ([0] + Vec(2, EncodeExts(h.exts)));
    ReassemblesExts(msg, p, h);
    Cut(msg, 39, p);
    Cut(msg, 38, 39);
    BeBytes(|h.sessionId|);
    assert msg[38..39] == Be(1, |h.sessionId|);
  }

  lemma {:induction false} ReassemblesExts(msg: Bytes, p: nat, h: Hello)
    requires 39 <= p && p + 5 <= |msg| && msg[p + 2] == 0 && p + 5 + GetU16(msg, p + 3) == |msg|
    requires h.cipher == GetU16(msg, p) && EncodeExts(h.exts) == msg[p + 5..]
    ensures msg[p..] == U16(h.cipher) + ([0] + Vec(2, EncodeExts(h.exts)))
  {
    U16Unique(msg, p);
    U16Unique(msg, p + 3);
    CutPieces(msg, p, p + 2, p + 3, p + 5);
    assert msg[p + 2..p + 3] == [0];
  }

  lemma {:induction false} Reassembles(msg: Bytes, h: Hello)
    requires |msg| > 38 && msg[0] == SERVER_HELLO && GetU24(msg, 1) == |msg| - 4 && GetU16(msg, 4) == 0x0303
    requires h.random == msg[6..38] && h.Tail() == msg[38..]
    ensures h.Encode() == msg
  {
    assert msg[4..] == h.Body() by { U16Unique(msg, 4); Cut(msg, 6, 38); Cut(msg, 4, 6); }
    U24Unique(msg, 1);
    Cut(msg, 1, 4);
    assert msg == [msg[0]] + msg[1..];
  }

  /** Parsing succeeds exactly on the encodings of well-formed ServerHellos, and reports their
      fields; a HelloRetryRequest is recognised by its random alone. */
  lemma {:induction false} ParserExact(msg: Bytes, f: Fields)
    ensures ParseSpec(msg) == Parsed(f) <==> exists h: Hello :: h.Valid() && h.Encode() == msg && f == Report(h)
    ensures ParseSpec(msg) == HelloRetry <==> IsRetry(msg)
  {
    if ParseSpec(msg) == Parsed(f) {
      var h := DecodesParsed(msg);
    }
    forall h: Hello | h.Valid() && h.Encode() == msg ensures ParseSpec(msg) == Parsed(Report(h)) {
      ParsesEncoded(h);
    }
  }

  // ---- the parser itself ----

  function Seen(ks: bool, ver: bool, psk: bool): set<nat> {
    (if ks then {EXT_KEY_SHARE} else {}) + (if ver then {EXT_SUPPORTED_VERSIONS} else {})
      + (if psk then {EXT_PRE_SHARED_KEY} else {})
  }

  /** The reader took one extension off the block ending at extEnd, or latched its error because
      there is no acceptable one. */
  ghost predicate TookExt(block: Bytes, seen: set<nat>, f: Fields, err: bool, rest: Bytes, seen': set<nat>,
      f': Fields) {
    var x := FirstExt(block);
    if err then x.None? || x.value.0.Type() in seen
    else
      && x.Some? && x.value.0.Type() !in seen && x.value.1 == rest
      && seen' == seen + {x.value.0.Type()} && f' == Apply(f, x.value.0)
  }

  method ReadKeyShare(r: Reader, eEnd: nat, f: Fields) returns (f': Fields)
    requires r.Valid() && !r.err && r.pos <= eEnd <= |r.buf| && eEnd < r.pos + 0x1_0000
    modifies r
    ensures r.Valid()
    ensures var p, el := old(r.pos), eEnd - old(r.pos);
            if el >= 4 && 4 + GetU16(r.buf, p + 2) == el then
              !r.err && r.pos == eEnd && f' == Apply(f, KeyShare(GetU16(r.buf, p), r.buf[p + 4..eEnd]))
            else r.err
  {
    var group := r.ReadU16();
    var klen := r.ReadU16();
    var key := r.ReadBytes(klen);
    f' := f.(group := group, keyShare := key);
    if r.pos != eEnd {
      r.err := true;
    }
  }

  /** A two-byte extension body. */
  method ReadValue(r: Reader, eEnd: nat) returns (v: nat)
    requires r.Valid() && !r.err && r.pos <= eEnd <= |r.buf|
    modifies r
    ensures r.Valid()
    ensures if eEnd - old(r.pos) == 2 then !r.err && r.pos == eEnd && v == GetU16(r.buf, old(r.pos)) else r.err
  {
    v := r.ReadU16();
    if r.pos != eEnd {
      r.err := true;
    }
  }

  /** FirstExt of a block, in terms of the buffer the block is part of. */
  lemma {:induction false} FirstExtIn(buf: Bytes, p: nat, extEnd: nat)
    requires p + 4 <= extEnd <= |buf| && p + 4 + GetU16(buf, p + 2) <= extEnd
    ensures var et, el := GetU16(buf, p), GetU16(buf, p + 2);
            var eEnd := p + 4 + el;
            FirstExt(buf[p..extEnd]) ==
              if et == EXT_KEY_SHARE then
                if el < 4 || 4 + GetU16(buf, p + 6) != el then None
                else Some((KeyShare(GetU16(buf, p + 4), buf[p + 8..eEnd]), buf[eEnd..extEnd]))
              else if et == EXT_SUPPORTED_VERSIONS then
                if el == 2 then Some((SupportedVersions(GetU16(buf, p + 4)), buf[eEnd..extEnd])) else None
              else if et == EXT_PRE_SHARED_KEY then
                if el == 2 then Some((PreSharedKey(GetU16(buf, p + 4)), buf[eEnd..extEnd])) else None
              else None
  {
    var el := GetU16(buf, p + 2);
    U16OfSlice(buf, p, extEnd, 0);
    U16OfSlice(buf, p, extEnd, 2);
    SliceOfSlice(buf, p, extEnd, 4 + el, extEnd - p);
    if el >= 2 {
      U16OfSlice(buf, p, extEnd, 4);
    }
    if el >= 4 {
      U16OfSlice(buf, p, extEnd, 6);
      SliceOfSlice(buf, p, extEnd, 8, 4 + el);
    }
  }

  lemma {:induction false} NoFirstExt(buf: Bytes, p: nat, extEnd: nat)
    requires p <= extEnd <= |buf| && (extEnd < p + 4 || p + 4 + GetU16(buf, p + 2) > extEnd)
    ensures FirstExt(buf[p..extEnd]) == None
  {
    if p + 4 <= extEnd {
      U16OfSlice(buf, p, extEnd, 2);
    }
  }

  method ReadExt(r: Reader, extEnd: nat, f: Fields, ks: bool, ver: bool, psk: bool)
    returns (f': Fields, ks': bool, ver': bool, psk': bool)
    requires r.Valid() && !r.err && r.pos < extEnd <= |r.buf|
    modifies r
    ensures r.Valid() && (!r.err ==> old(r.pos) < r.pos <= extEnd)
    ensures TookExt(r.buf[old(r.pos)..extEnd], Seen(ks, ver, psk), f, r.err,
                    if r.err then [] else r.buf[r.pos..extEnd], Seen(ks', ver', psk'), f')
  {
    f', ks', ver', psk' := f, ks, ver, psk;
    ghost var p := r.pos;
    var et := r.ReadU16();
    var el := r.ReadU16();
    var eEnd := r.pos + el;
    if r.err || eEnd > extEnd {
      r.err := true;
      NoFirstExt(r.buf, p, extEnd);
      return;
    }
    FirstExtIn(r.buf, p, extEnd);
    if et == EXT_KEY_SHARE {
      f' := ReadKeyShare(r, eEnd, f);
      if ks { r.err := true; }
      ks' := true;
    } else if et == EXT_SUPPORTED_VERSIONS {
      var v := ReadValue(r, eEnd);
      f' := f.(version := v);
      if ver { r.err := true; }
      ver' := true;
    } else if et == EXT_PRE_SHARED_KEY {
      var v := ReadValue(r, eEnd);
      f' := f.(psk := v);
      if psk { r.err := true; }
      psk' := true;
    } else {
      r.err := true;
    }
  }

  method ReadExts(r: Reader, extEnd: nat, f0: Fields) returns (f: Fields)
    requires r.Valid() && !r.err && r.pos <= extEnd <= |r.buf|
    modifies r
    ensures r.Valid()
    ensures Scan(r.buf[old(r.pos)..extEnd], {}, f0) == if r.err then None else Some(f)
  {
    f := f0;
    var seenKs, seenVer, seenPsk := false, false, false;
    while r.pos < extEnd && !r.err
      invariant r.Valid() && (!r.err ==> r.pos <= extEnd)
      invariant Scan(r.buf[old(r.pos)..extEnd], {}, f0) ==
                if r.err then None else Scan(r.buf[r.pos..extEnd], Seen(seenKs, seenVer, seenPsk), f)
      decreases if r.err then 0 else 1 + extEnd - r.pos
    {
      f, seenKs, seenVer, seenPsk := ReadExt(r, extEnd, f, seenKs, seenVer, seenPsk);
    }
  }

  /** From the session id to the length of the extensions. */
  method ReadHead(r: Reader, random: Bytes) returns (before: Fields, comp: Byte, extLen: nat)
    requires r.Valid() && !r.err && r.pos == 38 && random == r.buf[6..38]
    modifies r
    ensures r.Valid() && r.err == (|r.buf| < 39 || 39 + r.buf[38] as int + 5 > |r.buf|)
    ensures !r.err ==>
              var p := 39 + r.buf[38] as int;
              && r.pos == p + 5 && before == Before(r.buf, p)
              && comp == r.buf[p + 2] && extLen == GetU16(r.buf, p + 3) < 0x1_0000
  {
    var sidLen := r.ReadU8();
    var sid := r.ReadBytes(sidLen);
    var cipher := r.ReadU16();
    comp := r.ReadU8();
    extLen := r.ReadU16();
    before := Fields(random, if sid.Some? then sid.value else [], cipher, None, 0, 0, -1);
  }

  /** From the session id on. */
  method ParseRest(r: Reader, ty: Byte, hsLen: nat, lver: nat, random: Bytes) returns (out: Parsed)
    requires r.Valid() && !r.err && r.pos == 38 && !IsRetry(r.buf)
    requires ty == r.buf[0] && hsLen == GetU24(r.buf, 1) && lver == GetU16(r.buf, 4) && random == r.buf[6..38]
    modifies r
    ensures out == ParseSpec(r.buf)
  {
    ghost var msg := r.buf;
    var before, comp, extLen := ReadHead(r, random);
    if r.err {
      return Rejected;
    }
    ghost var p := 39 + msg[38] as int;
    var extEnd := r.pos + extLen;
    if extEnd > |r.buf| {
      return Rejected;
    }
    var f := ReadExts(r, extEnd, before);
    assert extEnd == |msg| ==> msg[p + 5..extEnd] == msg[p + 5..];
    if r.err || ty != SERVER_HELLO || hsLen != |r.buf| - 4 || lver != 0x0303 || comp != 0 || extEnd != |r.buf| {
      return Rejected;
    }
    out := Parsed(f);
  }

  /** wn_ServerHello_Parse. */
  method Parse(msg: Bytes) returns (out: Parsed)
    requires |msg| <= MAX_BUFFER
    ensures out == ParseSpec(msg)
  {
    var r := new Reader(msg);
    var ty := r.ReadU8();
    var hsLen := r.ReadU24();
    var lver := r.ReadU16();
    var random := r.ReadBytes(32);
    if r.err || random.None? {
      return Rejected;
    }
    if ty == SERVER_HELLO && random.value == HRR_RANDOM {
      return HelloRetry;
    }
    out := ParseRest(r, ty, hsLen, lver, random.value);
  }
}
