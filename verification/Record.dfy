/** The provider seam: AES-GCM, SHA-256, HMAC and HKDF as functions. */
module Crypto {
  import opened Base

  const TAG_SZ: nat := 16
  const KEY_SZ: nat := 16
  const IV_SZ: nat := 12
  const HASH_SZ: nat := 32

  datatype Suite = Suite(
    seal: (Bytes, Bytes, Bytes, Bytes) -> Bytes,         // key, nonce, additional data, plaintext
    open: (Bytes, Bytes, Bytes, Bytes) -> Option<Bytes>, // key, nonce, additional data, ciphertext
    hash: Bytes -> Bytes,
    hmac: (Bytes, Bytes) -> Bytes,                       // key, message
    extract: (Bytes, Bytes) -> Bytes,                    // salt, input keying material
    expand: (Bytes, string, Bytes, nat) -> Bytes,        // secret, label, context, length
    expandFails: (Bytes, string, Bytes, nat) -> bool)    // the library reported an error instead
  {
    /** Output sizes, and decryption inverts encryption. */
    ghost predicate Valid() {
      && (forall k, n, a, p :: |seal(k, n, a, p)| == |p| + TAG_SZ)
      && (forall k, n, a, p :: open(k, n, a, seal(k, n, a, p)) == Some(p))
      && (forall k, n, a, c :: open(k, n, a, c).Some? ==> |open(k, n, a, c).value| + TAG_SZ == |c|)
      && (forall m :: |hash(m)| == HASH_SZ)
      && (forall k, m :: |hmac(k, m)| == HASH_SZ)
      && (forall s, m :: |extract(s, m)| == HASH_SZ)
      && (forall s, l, c, n :: |expand(s, l, c, n)| == n)
    }

    /** The key derivation never reports an error. */
    ghost predicate KdfTotal() {
      forall s, l, c, n :: !expandFails(s, l, c, n)
    }
  }

  /** A toy suite whose tag is the nonce, so that a record opens under no other sequence number. */
  function Tag(nonce: Bytes): (r: Bytes)
    ensures |r| == TAG_SZ
  {
    (nonce + Zeros(TAG_SZ))[..TAG_SZ]
  }

  function Example(): Suite {
    Suite(
      (k: Bytes, n: Bytes, a: Bytes, p: Bytes) => p + Tag(n),
      (k: Bytes, n: Bytes, a: Bytes, ct: Bytes) =>
        if |ct| < TAG_SZ || ct[|ct| - TAG_SZ..] != Tag(n) then None else Some(ct[..|ct| - TAG_SZ]),
      (m: Bytes) => Zeros(HASH_SZ),
      (k: Bytes, m: Bytes) => Zeros(HASH_SZ),
      (s: Bytes, m: Bytes) => Zeros(HASH_SZ),
      (s: Bytes, l: string, ctx: Bytes, n: nat) => Zeros(n),
      (s: Bytes, l: string, ctx: Bytes, n: nat) => false)
  }

  /** It meets the demands above, so no theorem about such suites is empty. */
  lemma {:induction false} DemandsConsistent()
    ensures Example().Valid() && Example().KdfTotal()
  {
    var c := Example();
    forall k, n, a, p: Bytes ensures c.open(k, n, a, c.seal(k, n, a, p)) == Some(p) {
      assert (p + Tag(n))[..|p|] == p && (p + Tag(n))[|p|..] == Tag(n);
    }
  }
}

/** The transport callbacks: what each recv delivers and each send answers is fixed in advance,
    in every possible way. */
module Transport {
  import opened Base

  /** The bytes that arrive before the next recv failure; an empty chunk is a failing recv. */
  ghost function Stream(chunks: seq<Bytes>): Bytes {
    if chunks == [] || chunks[0] == [] then [] else chunks[0] + Stream(chunks[1..])
  }

  class Channel {
    var incoming: seq<Bytes>
    var answers: seq<int>
    var outgoing: seq<Bytes>

    constructor (incoming: seq<Bytes>, answers: seq<int>)
      ensures this.incoming == incoming && this.answers == answers && outgoing == []
    {
      this.incoming, this.answers, outgoing := incoming, answers, [];
    }

    method Recv(buf: array<Byte>, off: nat, n: nat) returns (r: int)
      requires 0 < n && off + n <= buf.Length
      modifies this`incoming, buf
      ensures r <= n
      ensures r <= 0 <==> Stream(old(incoming)) == []
      ensures r > 0 ==> r <= |Stream(old(incoming))| && Stream(incoming) == Stream(old(incoming))[r..]
      ensures r > 0 ==> forall i :: off <= i < off + r ==> buf[i] == Stream(old(incoming))[i - off]
      ensures forall i :: 0 <= i < buf.Length && !(off <= i < off + r) ==> buf[i] == old(buf[i])
    {
      if incoming == [] {
        return -1;
      }
      var head := incoming[0];
      r := if |head| <= n then |head| else n;
      forall i | 0 <= i < r {
        buf[off + i] := head[i];
      }
      if r < |head| {
        incoming := [head[r..]] + incoming[1..];
      } else {
        incoming := incoming[1..];
      }
    }

    /** Every buffer handed to the transport counts as emitted, whatever the callback answers. */
    method Send(data: Bytes) returns (r: int)
      modifies this`answers, this`outgoing
      ensures outgoing == old(outgoing) + [data]
      ensures r == if old(answers) == [] then -1 else old(answers)[0]
      ensures answers == if old(answers) == [] then [] else old(answers)[1..]
    {
      outgoing := outgoing + [data];
      if answers == [] {
        r := -1;
      } else {
        r := answers[0];
        answers := answers[1..];
      }
    }
  }
}

/** Record framing and protection, src/wn_record.c. */
module Record {
  import opened Base
  import opened Crypto
  import opened Numbers
  import opened Transport

  const HEADER_SZ: nat := 5
  const MAX_PLAINTEXT: nat := 16384
  const CHANGE_CIPHER: Byte := 20
  const ALERT: Byte := 21
  const HANDSHAKE: Byte := 22
  const APPDATA: Byte := 23

  // ---- framing ----

  datatype Framed = NoRecord(code: Code) | Framed(ty: Byte, rec: Bytes, rest: Bytes)

  /** One record cut off the front of a byte stream. */
  function Frame(stream: Bytes, cap: nat): (f: Framed)
    ensures f.Framed? ==> stream == f.rec + f.rest && 6 <= |f.rec| <= cap && f.ty == f.rec[0]
  {
    if |stream| < HEADER_SZ then NoRecord(Code.Crypto)
    else
      var frag := GetU16(stream, 3);
      if frag == 0 || frag + HEADER_SZ > cap || frag > MAX_PLAINTEXT + 256 || |stream| < HEADER_SZ + frag then
        NoRecord(Code.Crypto)
      else if stream[0] == CHANGE_CIPHER && (frag != 1 || stream[5] != 1) then NoRecord(Decode)
      else Framed(stream[0], stream[..HEADER_SZ + frag], stream[HEADER_SZ + frag..])
  }

  method RecvExact(io: Channel, buf: array<Byte>, off: nat, n: nat) returns (ret: Code)
    requires off + n <= buf.Length
    modifies io`incoming, buf
    ensures ret == if n <= |Stream(old(io.incoming))| then Success else Code.Crypto
    ensures ret == Success ==> Stream(io.incoming) == Stream(old(io.incoming))[n..]
    ensures ret == Success ==> buf[off..off + n] == Stream(old(io.incoming))[..n]
    ensures forall i :: 0 <= i < buf.Length && !(off <= i < off + n) ==> buf[i] == old(buf[i])
  {
    ghost var all := Stream(io.incoming);
    var got := 0;
    ret := Success;
    while got < n && ret == Success
      invariant 0 <= got <= n
      invariant if ret == Success then got <= |all| && Stream(io.incoming) == all[got..]
                else ret == Code.Crypto && |all| < n
      invariant ret == Success ==> forall i :: off <= i < off + got ==> buf[i] == all[i - off]
      invariant forall i :: 0 <= i < buf.Length && !(off <= i < off + got) ==> buf[i] == old(buf[i])
      decreases n - got, ret == Success
    {
      var r := io.Recv(buf, off + got, n - got);
      if r <= 0 {
        ret := Code.Crypto;
      } else {
        Behind(all, got, r);
        got := got + r;
      }
    }
  }

  lemma {:induction false} Behind(all: Bytes, got: nat, r: nat)
    requires got + r <= |all|
    ensures all[got..][r..] == all[got + r..]
    ensures forall i :: 0 <= i < r ==> all[got..][i] == all[got + i]
  {
  }

  /** The record read depends on the byte stream alone, not on how recv divides it, and nothing
      behind `cap` is written. */
  method RecvRecord(io: Channel, rec: array<Byte>, cap: nat) returns (ret: Code, ty: Byte, recLen: nat)
    requires HEADER_SZ <= cap <= rec.Length
    modifies io`incoming, rec
    ensures var f := Frame(Stream(old(io.incoming)), cap);
            if f.Framed? then
              && ret == Success && ty == f.ty && recLen == |f.rec|
              && rec[..recLen] == f.rec && Stream(io.incoming) == f.rest
            else ret == f.code
    ensures forall i :: cap <= i < rec.Length ==> rec[i] == old(rec[i])
  {
    ghost var stream := Stream(io.incoming);
    ty, recLen := 0, 0;
    ret := RecvExact(io, rec, 0, HEADER_SZ);
    if ret != Success {
      return;
    }
    ghost var hdr := rec[..5];
    assert forall i :: 0 <= i < 5 ==> rec[i] == hdr[i] == stream[i];
    ty := rec[0];
    var frag := rec[3] as int * 0x100 + rec[4];
    if frag == 0 || frag + HEADER_SZ > cap || frag > MAX_PLAINTEXT + 256 {
      return Code.Crypto, ty, 0;
    }
    ret := RecvExact(io, rec, HEADER_SZ, frag);
    recLen := frag + HEADER_SZ;
    if ret == Success {
      assert rec[..5] == hdr;
      assert rec[..recLen] == rec[..5] + rec[5..recLen];
      HeaderAndRest(stream, frag);
      if ty == CHANGE_CIPHER && (frag != 1 || rec[5] != 1) {
        ret := Decode;
      }
    }
  }

  lemma {:induction false} HeaderAndRest(stream: Bytes, frag: nat)
    requires 5 + frag <= |stream|
    ensures stream[..5] + stream[5..][..frag] == stream[..5 + frag]
    ensures stream[5..][frag..] == stream[5 + frag..]
  {
  }

  // ---- the per-record nonce ----

  function Nonce(iv: Bytes, seqNo: nat): (r: Bytes)
    requires |iv| == IV_SZ
    ensures |r| == IV_SZ
  {
    seq(IV_SZ, j requires 0 <= j < IV_SZ => if j < 4 then iv[j] else Xor(iv[j], Digit(seqNo, 11 - j)))
  }

  method BuildNonce(iv: Bytes, seqNo: nat) returns (nonce: array<Byte>)
    requires |iv| == IV_SZ && seqNo < WORD64
    ensures fresh(nonce) && nonce[..] == Nonce(iv, seqNo)
  {
    nonce := new Byte[12](j requires 0 <= j < 12 => iv[j]);
    for i := 0 to 8
      invariant forall j :: 0 <= j < 12 ==> nonce[j] == if j <= 11 - i then iv[j] else Nonce(iv, seqNo)[j]
    {
      nonce[11 - i] := Xor(nonce[11 - i], Digit(seqNo, i));
    }
  }

  lemma {:induction false} DigitsDetermine(a: nat, b: nat, n: nat)
    requires a < Pow(n) && b < Pow(n)
    requires forall i :: 0 <= i < n ==> Digit(a, i) == Digit(b, i)
    ensures a == b
  {
    if n > 0 {
      forall i | 0 <= i < n - 1 ensures Digit(a / 256, i) == Digit(b / 256, i) {
        assert Digit(a, i + 1) == Digit(b, i + 1);
      }
      DigitsDetermine(a / 256, b / 256, n - 1);
      assert Digit(a, 0) == Digit(b, 0);
    }
  }

  /** For one iv, distinct sequence numbers give distinct nonces (section 5.3 of RFC 8446). */
  lemma {:induction false} NonceInjective(iv: Bytes, a: nat, b: nat)
    requires |iv| == IV_SZ && a < WORD64 && b < WORD64
    requires Nonce(iv, a) == Nonce(iv, b)
    ensures a == b
  {
    forall i | 0 <= i < 8 ensures Digit(a, i) == Digit(b, i) {
      var j := 11 - i;
      assert Nonce(iv, a)[j] == Nonce(iv, b)[j];
      XorCancels(iv[j], Digit(a, i), Digit(b, i));
    }
    PowSmall();
    DigitsDetermine(a, b, 8);
  }

  // ---- protection ----

  function Header(innerLen: nat): (r: Bytes)
    ensures |r| == HEADER_SZ
  {
    [APPDATA, 0x03, 0x03] + U16(innerLen + TAG_SZ)
  }

  /** A protected record holding an inner plaintext: content, content type, padding. */
  function SealInner(c: Suite, key: Bytes, iv: Bytes, seqNo: nat, inner: Bytes): Bytes
    requires |iv| == IV_SZ
  {
    Header(|inner|) + c.seal(key, Nonce(iv, seqNo), Header(|inner|), inner)
  }

  function SealRecord(c: Suite, key: Bytes, iv: Bytes, seqNo: nat, ty: Byte, content: Bytes): Bytes
    requires |iv| == IV_SZ
  {
    SealInner(c, key, iv, seqNo, content + [ty])
  }

  datatype Opened = OpenError(code: Code) | Opened(ty: Byte, content: Bytes)

  /** The length left once trailing zeros are dropped. */
  function Trimmed(inner: Bytes): (n: nat)
    ensures n <= |inner|
  {
    if inner != [] && inner[|inner| - 1] == 0 then Trimmed(inner[..|inner| - 1]) else |inner|
  }

  function SplitInner(inner: Bytes): Opened {
    var n := Trimmed(inner);
    if n == 0 then OpenError(Decode) else Opened(inner[n - 1], inner[..n - 1])
  }

  function OpenInner(c: Suite, key: Bytes, iv: Bytes, seqNo: nat, rec: Bytes): Option<Bytes>
    requires |iv| == IV_SZ && |rec| >= HEADER_SZ
  {
    c.open(key, Nonce(iv, seqNo), rec[..HEADER_SZ], rec[HEADER_SZ..])
  }

  function OpenRecord(c: Suite, key: Bytes, iv: Bytes, seqNo: nat, rec: Bytes): Opened
    requires |iv| == IV_SZ
  {
    if |rec| < HEADER_SZ + TAG_SZ + 1 then OpenError(InvalidArg)
    else
      var inner := OpenInner(c, key, iv, seqNo, rec);
      if inner.None? then OpenError(BadMac) else SplitInner(inner.value)
  }

  method Protect(c: Suite, rec: array<Byte>, key: Bytes, iv: Bytes, seqNo: nat, ty: Byte, content: Bytes)
    returns (ret: Code, recLen: nat)
    requires c.Valid() && |iv| == IV_SZ && seqNo < WORD64
    requires |content| <= MAX_PLAINTEXT ==> HEADER_SZ + |content| + 1 + TAG_SZ <= rec.Length
    modifies rec
    ensures ret == if |content| <= MAX_PLAINTEXT then Success else InvalidArg
    ensures ret == Success ==> recLen <= rec.Length && rec[..recLen] == SealRecord(c, key, iv, seqNo, ty, content)
    ensures ret != Success ==> rec[..] == old(rec[..])
  {
    if |content| > MAX_PLAINTEXT {
      return InvalidArg, 0;
    }
    var innerLen := |content| + 1;
    var ctLen := innerLen + TAG_SZ;
    var nonce := BuildNonce(iv, seqNo);
    Stage(rec, ty, content);
    var ct := c.seal(key, nonce[..], rec[..HEADER_SZ], rec[HEADER_SZ..HEADER_SZ + innerLen]);
    Overwrite(rec, HEADER_SZ, ct);
    ret, recLen := Success, HEADER_SZ + ctLen;
    assert rec[..recLen] == rec[..HEADER_SZ] + ct;
  }

  method Overwrite(buf: array<Byte>, off: nat, data: Bytes)
    requires off + |data| <= buf.Length
    modifies buf
    ensures buf[..off] == old(buf[..off]) && buf[off..off + |data|] == data
  {
    forall i | 0 <= i < |data| {
      buf[off + i] := data[i];
    }
  }

  /** The header and the inner plaintext, where the record will stand. */
  method Stage(rec: array<Byte>, ty: Byte, content: Bytes)
    requires |content| <= MAX_PLAINTEXT && HEADER_SZ + |content| + 1 + TAG_SZ <= rec.Length
    modifies rec
    ensures rec[..HEADER_SZ] == Header(|content| + 1)
    ensures rec[HEADER_SZ..HEADER_SZ + |content| + 1] == content + [ty]
  {
    var ctLen := |content| + 1 + TAG_SZ;
    rec[0], rec[1], rec[2] := APPDATA, 0x03, 0x03;
    rec[3] := Digit(ctLen, 1);
    rec[4] := Digit(ctLen, 0);
    forall i | 0 <= i < |content| {
      rec[HEADER_SZ + i] := content[i];
    }
    rec[HEADER_SZ + |content|] := ty;
  }

  /** Decryption may go to another buffer or happen in place (out == rec, off == 5). */
  method Unprotect(c: Suite, out: array<Byte>, off: nat, key: Bytes, iv: Bytes, seqNo: nat, rec: array<Byte>,
      recLen: nat)
    returns (ret: Code, ty: Byte, contentLen: nat)
    requires c.Valid() && |iv| == IV_SZ && seqNo < WORD64
    requires recLen <= rec.Length
    requires recLen > HEADER_SZ + TAG_SZ ==> off + recLen - HEADER_SZ - TAG_SZ <= out.Length
    modifies out
    ensures var o := OpenRecord(c, key, iv, seqNo, old(rec[..recLen]));
            if o.Opened? then
              && ret == Success && ty == o.ty && contentLen == |o.content|
              && recLen > HEADER_SZ + TAG_SZ && contentLen < recLen - HEADER_SZ - TAG_SZ
              && out[off..off + contentLen] == o.content
            else ret == o.code
    ensures forall i :: 0 <= i < out.Length && !(off <= i < off + recLen - HEADER_SZ - TAG_SZ) ==>
            out[i] == old(out[i])
  {
    ty, contentLen := 0, 0;
    if recLen < HEADER_SZ + TAG_SZ + 1 {
      return InvalidArg, ty, contentLen;
    }
    var innerLen := recLen - HEADER_SZ - TAG_SZ;
    var nonce := BuildNonce(iv, seqNo);
    assert rec[..recLen][..HEADER_SZ] == rec[..HEADER_SZ] && rec[..recLen][HEADER_SZ..] == rec[HEADER_SZ..recLen];
    var inner := c.open(key, nonce[..], rec[..HEADER_SZ], rec[HEADER_SZ..recLen]);
    if inner.None? {
      return BadMac, ty, contentLen;
    }
    forall i | 0 <= i < innerLen {
      out[off + i] := inner.value[i];
    }
    assert out[off..off + innerLen] == inner.value;
    ret, ty, contentLen := DropPadding(out, off, inner.value, innerLen);
  }

  /** Find the content type behind which only zeros follow. */
  method DropPadding(out: array<Byte>, off: nat, ghost inner: Bytes, innerLen: nat)
      returns (ret: Code, ty: Byte, contentLen: nat)
    requires innerLen == |inner| && off + innerLen <= out.Length && out[off..off + innerLen] == inner
    ensures var o := SplitInner(inner);
            if o.Opened? then
              && ret == Success && ty == o.ty && contentLen == |o.content| < |inner|
              && out[off..off + contentLen] == o.content
            else ret == o.code
  {
    ty, contentLen := 0, 0;
    var n := innerLen;
    assert inner[..n] == inner && forall i :: 0 <= i < innerLen ==> out[off + i] == inner[i];
    while n > 0 && out[off + n - 1] == 0
      invariant 0 <= n <= innerLen && Trimmed(inner) == Trimmed(inner[..n])
    {
      assert inner[..n][..n - 1] == inner[..n - 1];
      n := n - 1;
    }
    if n == 0 {
      ret := Decode;
    } else {
      ret, ty, contentLen := Success, out[off + n - 1], n - 1;
    }
  }

  // ---- what protection means ----

  /** An inner plaintext has at most one split into content, nonzero type and zero padding;
      SplitInner finds it, and rejects exactly the all-zero plaintexts (section 5.4 of RFC 8446). */
  lemma {:induction false} SplitUnique(content: Bytes, ty: Byte, pad: nat)
    requires ty != 0
    ensures SplitInner(content + [ty] + Zeros(pad)) == Opened(ty, content)
  {
    var inner := content + [ty] + Zeros(pad);
    if pad > 0 {
      assert inner[..|inner| - 1] == content + [ty] + Zeros(pad - 1);
      SplitUnique(content, ty, pad - 1);
      assert SplitInner(inner[..|inner| - 1]) == Opened(ty, content);
      assert Trimmed(inner) == Trimmed(inner[..|inner| - 1]);
    } else {
      assert inner == content + [ty];
    }
  }

  lemma {:induction false} SplitExists(inner: Bytes)
    ensures SplitInner(inner).OpenError? <==> forall i :: 0 <= i < |inner| ==> inner[i] == 0
    ensures SplitInner(inner).Opened? ==>
              var o := SplitInner(inner);
              o.ty != 0 && |o.content| < |inner| && inner == o.content + [o.ty] + Zeros(|inner| - |o.content| - 1)
  {
    if inner != [] && inner[|inner| - 1] == 0 {
      var shorter := inner[..|inner| - 1];
      SplitExists(shorter);
      assert inner == shorter + [0];
    }
  }

  /** Opening what was sealed under the same key, iv and sequence number, of any size. */
  lemma {:induction false} OpensSealed(c: Suite, key: Bytes, iv: Bytes, seqNo: nat, ty: Byte, content: Bytes)
    requires c.Valid() && |iv| == IV_SZ && ty != 0
    ensures OpenRecord(c, key, iv, seqNo, SealRecord(c, key, iv, seqNo, ty, content)) == Opened(ty, content)
  {
    var inner := content + [ty];
    var rec := SealRecord(c, key, iv, seqNo, ty, content);
    assert rec[..HEADER_SZ] == Header(|inner|);
    assert rec[HEADER_SZ..] == c.seal(key, Nonce(iv, seqNo), Header(|inner|), inner);
    assert inner == content + [ty] + Zeros(0);
    SplitUnique(content, ty, 0);
  }

  /** Seal, carry over any stream, frame and open: the content and type come back. */
  lemma {:induction false} RecordRoundTrip(c: Suite, key: Bytes, iv: Bytes, seqNo: nat, ty: Byte, content: Bytes,
      pad: nat, rest: Bytes, cap: nat)
    requires c.Valid() && |iv| == IV_SZ && ty != 0
    requires |content| + pad <= MAX_PLAINTEXT && HEADER_SZ + |content| + 1 + pad + TAG_SZ <= cap
    ensures var rec := SealInner(c, key, iv, seqNo, content + [ty] + Zeros(pad));
            && Frame(rec + rest, cap) == Framed(APPDATA, rec, rest)
            && OpenRecord(c, key, iv, seqNo, rec) == Opened(ty, content)
  {
    var inner := content + [ty] + Zeros(pad);
    var hdr := Header(|inner|);
    var ct := c.seal(key, Nonce(iv, seqNo), hdr, inner);
    var rec := hdr + ct;
    var stream := rec + rest;
    U16RoundTrip(|inner| + TAG_SZ);
    assert stream[3] == hdr[3] && stream[4] == hdr[4];
    assert GetU16(stream, 3) == |inner| + TAG_SZ;
    assert stream[..|rec|] == rec && stream[|rec|..] == rest;
    assert rec[..HEADER_SZ] == hdr && rec[HEADER_SZ..] == ct;
    SplitUnique(content, ty, pad);
  }
}
