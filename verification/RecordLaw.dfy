/** Records as sections 5.1 to 5.3 of RFC 8446 lay them out, in numbers and byte strings; what the code
    frames, seals and opens is exactly that. */
module RecordLaw {
  import opened Base
  import opened Crypto
  import opened Numbers
  import opened Record

  // ---- the per-record nonce ----

  /** The sequence number in network order, padded on the left to the length of the iv. */
  ghost function Padded(seqNo: nat): (r: Bytes)
    ensures |r| == 12
  {
    Zeros(4) + Big(8, seqNo)
  }

  /** That, exclusive-ored with the iv. */
  ghost function PerRecordNonce(iv: Bytes, seqNo: nat): (r: Bytes)
    requires |iv| == 12
    ensures |r| == 12
  {
    seq(12, j requires 0 <= j < 12 => Xor(iv[j], Padded(seqNo)[j]))
  }

  lemma {:induction false} NonceIsPerRecord(iv: Bytes, seqNo: nat)
    requires |iv| == IV_SZ
    ensures Nonce(iv, seqNo) == PerRecordNonce(iv, seqNo)
  {
    forall j | 0 <= j < 12 ensures Nonce(iv, seqNo)[j] == PerRecordNonce(iv, seqNo)[j] {
      if j < 4 {
        XorZero(iv[j]);
      } else {
        BigDigits(8, seqNo, j - 4);
      }
    }
  }

  /** Under a zero iv the last eight bytes are the sequence number; any other iv is exclusive-ored with
      those and kept in front of them. */
  lemma {:induction false} NonceLaw(iv: Bytes, seqNo: nat)
    requires |iv| == IV_SZ && seqNo < WORD64
    ensures Value(Nonce(Zeros(12), seqNo)[4..]) == seqNo
    ensures Nonce(iv, seqNo)[..4] == iv[..4]
    ensures forall j :: 4 <= j < 12 ==> Nonce(iv, seqNo)[j] == Xor(iv[j], Nonce(Zeros(12), seqNo)[j])
  {
    NonceIsPerRecord(Zeros(12), seqNo);
    NonceIsPerRecord(iv, seqNo);
    forall j | 0 <= j < 12 ensures Nonce(Zeros(12), seqNo)[j] == Padded(seqNo)[j] {
      XorZero(Padded(seqNo)[j]);
    }
    forall j | 0 <= j < 4 ensures Nonce(iv, seqNo)[j] == iv[j] {
      XorZero(iv[j]);
    }
    assert Nonce(Zeros(12), seqNo)[4..] == Big(8, seqNo);
    PowSmall();
    ValueOfBig(8, seqNo);
  }

  // ---- framing ----

  /** A record of this type: a version nobody looks at, a length that is the fragment's and within the
      limits, and a change_cipher_spec is the single byte 1. */
  ghost predicate IsRecord(rec: Bytes, ty: Byte, cap: nat) {
    && 6 <= |rec| <= cap && rec[0] == ty
    && Value(rec[3..5]) == |rec| - 5 <= 0x4000 + 256
    && (ty == 20 ==> rec[5..] == [1])
  }

  lemma {:induction false} FrameExact(stream: Bytes, cap: nat, ty: Byte, rec: Bytes, rest: Bytes)
    ensures Frame(stream, cap) == Framed(ty, rec, rest) <==> stream == rec + rest && IsRecord(rec, ty, cap)
  {
    if |stream| >= 6 {
      ReadBigEndian(stream, 3);
      if stream == rec + rest && |rec| >= 6 {
        assert rec[3..5] == stream[3..5];
        assert stream[..|rec|] == rec && stream[|rec|..] == rest;
        assert |rec| == 6 ==> rec[5..] == [rec[5]];
      }
      if Frame(stream, cap) == Framed(ty, rec, rest) {
        assert rec[3..5] == stream[3..5];
        assert |rec| == 6 ==> rec[5..] == [rec[5]];
      }
    }
  }

  // ---- protection ----

  /** TLSCiphertext: type application_data, version 0x0303, the length of the ciphertext, and the inner
      plaintext sealed with this header as additional data. */
  ghost function Ciphertext(c: Suite, key: Bytes, iv: Bytes, seqNo: nat, inner: Bytes): Bytes
    requires |iv| == 12
  {
    var header := [23, 3, 3] + Big(2, |inner| + 16);
    header + c.seal(key, PerRecordNonce(iv, seqNo), header, inner)
  }

  lemma {:induction false} SealedIsCiphertext(c: Suite, key: Bytes, iv: Bytes, seqNo: nat, inner: Bytes)
    requires |iv| == IV_SZ && |inner| + 16 < 0x1_0000
    ensures SealInner(c, key, iv, seqNo, inner) == Ciphertext(c, key, iv, seqNo, inner)
  {
    NonceIsPerRecord(iv, seqNo);
    PowSmall();
    WrittenBigEndian(2, |inner| + 16);
  }

  /** A record opens exactly if it is long enough and decrypts, header as additional data, to content,
      a nonzero type and zeros. */
  ghost predicate Opens(c: Suite, key: Bytes, iv: Bytes, seqNo: nat, rec: Bytes, ty: Byte, content: Bytes, pad: nat)
    requires |iv| == 12
  {
    && |rec| >= 22 && ty != 0
    && c.open(key, PerRecordNonce(iv, seqNo), rec[..5], rec[5..]) == Some(content + [ty] + Zeros(pad))
  }

  lemma {:induction false} OpenExact(
      c: Suite, key: Bytes, iv: Bytes, seqNo: nat, rec: Bytes, ty: Byte, content: Bytes)
    requires |iv| == IV_SZ
    ensures OpenRecord(c, key, iv, seqNo, rec) == Opened(ty, content) <==>
            exists pad :: Opens(c, key, iv, seqNo, rec, ty, content, pad)
  {
    NonceIsPerRecord(iv, seqNo);
    if OpenRecord(c, key, iv, seqNo, rec) == Opened(ty, content) {
      var inner := OpenInner(c, key, iv, seqNo, rec).value;
      SplitExists(inner);
      assert Opens(c, key, iv, seqNo, rec, ty, content, |inner| - |content| - 1);
    }
    forall pad | Opens(c, key, iv, seqNo, rec, ty, content, pad)
      ensures OpenRecord(c, key, iv, seqNo, rec) == Opened(ty, content)
    {
      SplitUnique(content, ty, pad);
    }
  }

  /** And otherwise it says why: too short, not authentic, or nothing but zeros inside. */
  lemma {:induction false} OpenErrors(c: Suite, key: Bytes, iv: Bytes, seqNo: nat, rec: Bytes)
    requires |iv| == IV_SZ && OpenRecord(c, key, iv, seqNo, rec).OpenError?
    ensures var code := OpenRecord(c, key, iv, seqNo, rec).code;
            if |rec| < 22 then code == InvalidArg
            else
              match c.open(key, PerRecordNonce(iv, seqNo), rec[..5], rec[5..])
              case None => code == BadMac
              case Some(inner) => code == Decode && inner == Zeros(|inner|)
  {
    NonceIsPerRecord(iv, seqNo);
    if |rec| >= 22 && OpenInner(c, key, iv, seqNo, rec).Some? {
      SplitExists(OpenInner(c, key, iv, seqNo, rec).value);
    }
  }
}
