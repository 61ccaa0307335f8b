/** The PSK driver's flight loop: records are decrypted from the scratch buffer into plain[512]. */
module PskReader {
  import opened Base
  import opened Crypto
  import opened Transport
  import opened Record
  import opened KeySchedule
  import opened Messages
  import opened Flight
  import opened FlightSteps

  /** wn_Tls13_FinishedMac. */
  method ComputeMac(c: Suite, baseKey: Bytes, th: Bytes) returns (ret: Code, mac: Bytes)
    ensures ret == Success <==> !FinishedFails(c, baseKey)
    ensures ret == Success ==> mac == FinishedMac(c, baseKey, th)
  {
    if c.expandFails(baseKey, "finished", [], HASH_SZ) {
      return Code.Crypto, [];
    }
    var finishedKey := c.expand(baseKey, "finished", [], HASH_SZ);
    ret, mac := Success, c.hmac(finishedKey, th);
  }

  class PskReader {
    const c: Suite
    const secret: Bytes
    const key: Bytes
    const iv: Bytes
    const scratch: array<Byte>
    const scratchLen: nat
    ghost const env: Env
    const plain: array<Byte>
    var accLen: nat
    var accOff: nat
    var sSeq: nat
    var gotEE: bool
    var done: bool
    var transcript: Bytes
    ghost var count: nat

    ghost predicate Valid()
      reads this
    {
      && c.Valid() && |iv| == IV_SZ && Wired()
      && HEADER_SZ <= scratchLen <= scratch.Length
      && plain != scratch && plain.Length == PLAIN_SZ
      && accOff <= accLen <= PLAIN_SZ
      && sSeq == count % WORD64
    }

    /** The reader that the specification means. */
    ghost predicate Wired() { IsPskEnv(env, PskSide(c, secret, key, iv, scratchLen)) }

    ghost function Known(): Core
      reads this
    {
      Core(Flags(gotEE, false, false), done, transcript, [])
    }

    ghost function Acc(): Bytes
      requires Valid()
      reads this, plain
    {
      plain[..accLen]
    }

    ghost function View(): State
      requires Valid()
      reads this, plain
    {
      State(Progress(Known(), accOff), Acc(), count)
    }

    constructor (side: PskSide, scratch: array<Byte>, transcript: Bytes)
      requires side.c.Valid() && |side.iv| == IV_SZ && HEADER_SZ <= side.ioCap <= scratch.Length
      ensures Valid() && fresh(plain) && View() == Begin(transcript)
      ensures this.scratch == scratch && env == PskEnv(side)
    {
      c, secret, key, iv, scratchLen := side.c, side.secret, side.key, side.iv, side.ioCap;
      this.scratch := scratch;
      env := PskEnv(side);
      plain := new Byte[PLAIN_SZ](i => 0);
      accLen, accOff, sSeq, gotEE, done := 0, 0, 0, false, false;
      this.transcript := transcript;
      count := 0;
    }

    /** One complete message: gate, check, transcript. */
    method OnMessage(mType: Byte, body: Bytes, m: Bytes) returns (ret: Code)
      requires Valid() && !done && |body| <= MAX_BUFFER && m == Message(mType, body)
      modifies this`gotEE, this`done, this`transcript
      ensures Valid()
      ensures env.step(old(Known()), mType, body) == if ret == Success then Some(Known()) else None
    {
      assert Asked(Known(), mType, body);
      ret := Success;
      if mType == ENCRYPTED_EXT {
        if gotEE {
          ret := UnexpectedMsg;
        } else {
          ret := CheckEncExt(body, false);
          if ret == Success {
            transcript := transcript + m;
          }
          gotEE := true;
        }
      } else if mType == FINISHED {
        if !gotEE || |body| != 32 {
          ret := BadMac;
        }
        var mac := [];
        if ret == Success {
          ret, mac := ComputeMac(c, secret, c.hash(transcript));
        }
        if ret == Success && mac != body {
          ret := BadMac;
        }
        if ret == Success {
          transcript := transcript + m;
          done := true;
        }
      } else {
        ret := UnexpectedMsg;
      }
    }

    /** Process the complete message at accOff and step over it. */
    method Process(mType: Byte, mLen: nat) returns (ret: Code)
      requires Valid() && !done && accOff + 4 + mLen <= accLen && mType == Acc()[accOff]
               && mLen == GetU24(Acc(), accOff + 1)
      modifies this`accOff, this`gotEE, this`done, this`transcript
      ensures Valid() && accOff == old(accOff) + 4 + mLen
      ensures env.step(old(Known()), mType, Acc()[old(accOff) + 4..accOff]) ==
              if ret == Success then Some(Known()) else None
    {
      var mStart := accOff;
      accOff := accOff + 4 + mLen;
      ghost var acc := Acc();
      MessageSlice(acc, mStart);
      assert plain[mStart..accOff] == acc[mStart..accOff] && plain[mStart + 4..accOff] == acc[mStart + 4..accOff];
      ret := OnMessage(mType, plain[mStart + 4..accOff], plain[mStart..accOff]);
    }

    /** One turn of the loop over plain[accOff..accLen]. */
    method CutNext() returns (ret: Code, more: bool)
      requires Valid() && !done && accLen - accOff >= 4
      modifies this`accOff, this`gotEE, this`done, this`transcript
      ensures Valid() && (more ==> old(accOff) < accOff)
      ensures CutAll(env, old(View()).p, Acc()) ==
              if ret != Success then None else if more then CutAll(env, View().p, Acc()) else Some(View().p)
    {
      ghost var acc := Acc();
      var mType := plain[accOff];
      var mLen := plain[accOff + 1] as int * 0x1_0000 + plain[accOff + 2] as int * 0x100 + plain[accOff + 3];
      assert mLen == GetU24(acc, accOff + 1);
      if accOff + 4 + mLen > PLAIN_SZ {
        return Decode, false;
      }
      if accOff + 4 + mLen > accLen {
        return Success, false;
      }
      ret := Process(mType, mLen);
      more := true;
      CutTurn(env, old(Known()), acc, old(accOff), if ret == Success then Some(Known()) else None);
    }

    /** Cut complete messages off plain[accOff..accLen]. */
    method CutMessages() returns (ret: Code)
      requires Valid()
      modifies this`accOff, this`gotEE, this`done, this`transcript
      ensures Valid()
      ensures CutAll(env, old(View()).p, Acc()) == if ret == Success then Some(View().p) else None
    {
      ret := Success;
      var more := true;
      ghost var goal := CutAll(env, View().p, Acc());
      while ret == Success && more && !done && accLen - accOff >= 4
        invariant Valid()
        invariant goal == if ret != Success then None
                          else if more then CutAll(env, View().p, Acc()) else Some(View().p)
        decreases if ret == Success && more then 1 + accLen - accOff else 0
      {
        ret, more := CutNext();
      }
    }

    /** Decrypt the record in scratch behind what is there. */
    method Append(recLen: nat) returns (ret: Code)
      requires Valid() && recLen <= scratchLen
      modifies this`accLen, this`sSeq, this`count, plain
      ensures Valid() && (ret != Success <==> Decrypted(env, old(View()), old(scratch[..recLen])).None?)
      ensures ret == Success ==>
                && Acc() == old(Acc()) + Decrypted(env, old(View()), old(scratch[..recLen])).value
                && count == old(count) + 1
    {
      if recLen < HEADER_SZ + TAG_SZ || recLen - HEADER_SZ - TAG_SZ > PLAIN_SZ - accLen {
        return Decode;
      }
      ghost var before := Acc();
      var ctype, plainLen;
      ret, ctype, plainLen := Unprotect(c, plain, accLen, key, iv, sSeq, scratch, recLen);
      sSeq, count := (sSeq + 1) % WORD64, count + 1;
      if ret == Success && ctype != HANDSHAKE {
        ret := UnexpectedMsg;
      }
      if ret == Success {
        assert plain[..accLen] == before;
        assert plain[..accLen + plainLen] == before + plain[accLen..accLen + plainLen];
        accLen := accLen + plainLen;
      }
    }

    method TakeRecord(recLen: nat) returns (ret: Code)
      requires Valid() && recLen <= scratchLen
      modifies this, plain
      ensures Valid()
      ensures OnRecord(env, old(View()), old(scratch[..recLen])) == if ret == Success then Some(View()) else None
    {
      ret := Append(recLen);
      if ret == Success {
        ret := CutMessages();
      }
    }

    /** One record off the transport. */
    method ReadNext(io: Channel) returns (ret: Code)
      requires Valid() && !done
      modifies this, plain, scratch, io`incoming
      ensures Valid() && (ret == Success ==> |Stream(io.incoming)| < |Stream(old(io.incoming))|)
      ensures ReadFlight(env, old(View()), Stream(old(io.incoming))) ==
              if ret == Success then ReadFlight(env, View(), Stream(io.incoming)) else Refused
    {
      ghost var f := Frame(Stream(io.incoming), scratchLen);
      ghost var before := View();
      var rtype, recLen;
      ret, rtype, recLen := RecvRecord(io, scratch, scratchLen);
      assert View() == before;
      if ret == Success && rtype == CHANGE_CIPHER {
        return;
      }
      if ret == Success && rtype != APPDATA {
        ret := UnexpectedMsg;
      }
      if ret == Success {
        assert scratch[..recLen] == f.rec;
        ret := TakeRecord(recLen);
      }
    }

    /** The flight loop: the verdict, the state and what is left on the transport depend on the
        delivered bytes alone. */
    method Read(io: Channel) returns (ret: Code)
      requires Valid()
      modifies this, plain, scratch, io`incoming
      ensures Valid()
      ensures ReadFlight(env, old(View()), Stream(old(io.incoming))) ==
              if ret == Success then Complete(View(), Stream(io.incoming)) else Refused
    {
      ret := Success;
      ghost var goal := ReadFlight(env, View(), Stream(io.incoming));
      while ret == Success && !done
        invariant Valid()
        invariant goal == if ret == Success then ReadFlight(env, View(), Stream(io.incoming)) else Refused
        decreases if ret == Success then 1 + |Stream(io.incoming)| else 0
      {
        ret := ReadNext(io);
      }
    }
  }
}

/** The certificate driver's flight loop. One caller array holds [record I/O | accumulator | leaf key];
    records are decrypted in place in the first region. */
module CertReader {
  import opened Base
  import opened Crypto
  import opened Transport
  import opened Record
  import opened KeySchedule
  import opened Messages
  import opened Chain
  import opened Flight
  import opened FlightSteps
  import opened PskReader

  class CertReader {
    const c: Suite
    const secret: Bytes
    const key: Bytes
    const iv: Bytes
    const id: Identity
    const scratch: array<Byte>
    const ioCap: nat
    const accSz: nat
    ghost const env: Env
    var accLen: nat
    var off: nat
    var spkiLen: nat
    var sSeq: nat
    var got: Flags
    var done: bool
    var transcript: Bytes
    ghost var count: nat
    ghost var acc: Bytes  // the decrypted contents so far
    ghost var spki: Bytes // the leaf key, once Certificate was accepted

    /** The three regions are disjoint and in bounds. */
    ghost predicate Shaped()
      reads this
    {
      && c.Valid() && |iv| == IV_SZ && Wired()
      && HEADER_SZ <= ioCap && ioCap + accSz + id.spkiCap <= scratch.Length
      && off <= accLen <= accSz <= MAX_BUFFER && accLen == |acc| && spkiLen == |spki| <= id.spkiCap
      && sSeq == count % WORD64
    }

    /** The accumulator and the leaf key stand in theirs. */
    ghost predicate Holds()
      requires Shaped()
      reads this, scratch
    {
      && (forall i :: 0 <= i < accLen ==> scratch[ioCap + i] == acc[i])
      && (forall i :: 0 <= i < spkiLen ==> scratch[ioCap + accSz + i] == spki[i])
    }

    ghost predicate Valid()
      reads this, scratch
    {
      Shaped() && Holds()
    }

    /** The reader that the specification means. */
    ghost predicate Wired() { IsCertEnv(env, CertSide(c, secret, key, iv, ioCap, accSz, id)) }

    ghost function Known(): Core
      reads this
    {
      Core(got, done, transcript, spki)
    }

    ghost function View(): State
      reads this
    {
      State(Progress(Known(), off), acc, count)
    }

    constructor (side: CertSide, scratch: array<Byte>, transcript: Bytes)
      requires side.c.Valid() && |side.iv| == IV_SZ && HEADER_SZ <= side.ioCap && side.room <= MAX_BUFFER
      requires side.ioCap + side.room + side.id.spkiCap <= scratch.Length
      ensures Valid() && View() == Begin(transcript)
      ensures this.scratch == scratch && env == CertEnv(side)
    {
      c, secret, key, iv, id := side.c, side.secret, side.key, side.iv, side.id;
      ioCap, accSz := side.ioCap, side.room;
      this.scratch := scratch;
      env := CertEnv(side);
      accLen, off, spkiLen, sSeq := 0, 0, 0, 0;
      got, done := Flags(false, false, false), false;
      this.transcript := transcript;
      count, acc, spki := 0, [], [];
    }

    /** The Certificate message: parse, verify the chain, keep the leaf key. */
    method OnCertificate(body: Bytes) returns (ret: Code)
      requires Valid() && |body| <= MAX_BUFFER
      modifies this`spkiLen, this`spki, scratch
      ensures Valid() && (ret == Success <==> CertOk(id, body)) && (ret == Success ==> spki == LeafKey(id, body))
    {
      var slices;
      ret, slices := ParseCertificate(body);
      if ret == Success {
        var n;
        ret, n := VerifyChain(id.pki, id.pol, id.spkiCap, ChainOf(body, slices), scratch, ioCap + accSz);
        spkiLen, spki := n, scratch[ioCap + accSz..ioCap + accSz + n];
      }
    }

    method OnCertVerify(body: Bytes, thCert: Bytes, ghost before: Bytes) returns (ret: Code)
      requires Valid() && |body| <= MAX_BUFFER && thCert == c.hash(before)
      ensures ret == Success <==> SignatureOk(c, id, before, spki, body)
    {
      var ok, scheme, sig := ParseCertVerify(body);
      if !ok {
        return Decode;
      }
      assert scratch[ioCap + accSz..ioCap + accSz + spkiLen] == spki;
      ok := id.verify(scheme, scratch[ioCap + accSz..ioCap + accSz + spkiLen], CvContent(thCert), sig);
      ret := if ok then Success else BadCert;
    }

    method OnFinished(body: Bytes, th: Bytes, ghost before: Bytes) returns (ret: Code)
      requires Shaped() && th == c.hash(before)
      ensures ret == Success <==> MacOk(c, secret, before, body)
    {
      var mac;
      ret, mac := ComputeMac(c, secret, th);
      if ret == Success && (|body| != 32 || mac != body) {
        ret := BadMac;
      }
    }

    /** The check of one message against the transcript before it. */
    method CheckBody(mType: Byte, body: Bytes, th: Bytes, ghost before: Bytes) returns (ret: Code)
      requires Valid() && |body| <= MAX_BUFFER && th == c.hash(before)
      modifies this`spkiLen, this`spki, this`done, scratch
      ensures Valid() && done == (old(done) || (ret == Success && mType == FINISHED))
      ensures Checked(c, secret, id, before, old(spki), mType, body) == if ret == Success then Some(spki) else None
    {
      if mType == ENCRYPTED_EXT {
        ret := CheckEncExt(body, id.sni);
      } else if mType == CERTIFICATE {
        ret := OnCertificate(body);
      } else if mType == CERT_VERIFY {
        ret := OnCertVerify(body, th, before);
      } else if mType == FINISHED {
        ret := OnFinished(body, th, before);
        if ret == Success {
          done := true;
        }
      } else {
        ret := UnexpectedMsg;
      }
    }

    /** One complete message: order, snapshot, transcript, check. */
    method OnMessage(mType: Byte, body: Bytes, m: Bytes) returns (ret: Code)
      requires Valid() && !done && |body| <= MAX_BUFFER && m == Message(mType, body)
      modifies this`got, this`done, this`transcript, this`spkiLen, this`spki, scratch
      ensures Valid()
      ensures env.step(old(Known()), mType, body) == if ret == Success then Some(Known()) else None
    {
      ghost var before := Known();
      assert Asked(before, mType, body);
      ret, got := FlightOrder(mType, got);
      if ret != Success {
        return;
      }
      var th := c.hash(transcript);
      transcript := transcript + m;
      ret := CheckBody(mType, body, th, before.transcript);
    }

    /** The header at off. */
    method Peek() returns (mType: Byte, mLen: nat)
      requires Valid() && off + 4 <= accLen
      ensures mType == acc[off] && mLen == GetU24(acc, off + 1)
    {
      var at := ioCap + off;
      mType := scratch[at];
      mLen := scratch[at + 1] as int * 0x1_0000 + scratch[at + 2] as int * 0x100 + scratch[at + 3];
      assert acc[off] == mType && acc[off + 1] == scratch[at + 1] && acc[off + 2] == scratch[at + 2]
        && acc[off + 3] == scratch[at + 3];
    }

    /** The complete message at off. */
    method Take(mLen: nat) returns (body: Bytes, m: Bytes)
      requires Valid() && off + 4 + mLen <= accLen && mLen == GetU24(acc, off + 1)
      ensures body == acc[off + 4..off + 4 + mLen] && m == Message(acc[off], body)
    {
      var at := ioCap + off;
      body, m := scratch[at + 4..at + 4 + mLen], scratch[at..at + 4 + mLen];
      MessageSlice(acc, off);
      assert m == acc[off..off + 4 + mLen] && body == acc[off + 4..off + 4 + mLen];
    }

    /** Process the complete message at off and step over it. */
    method Process(mType: Byte, mLen: nat) returns (ret: Code)
      requires Valid() && !done && off + 4 + mLen <= accLen && mType == acc[off] && mLen == GetU24(acc, off + 1)
      modifies this`off, this`got, this`done, this`transcript, this`spkiLen, this`spki, scratch
      ensures Valid() && off == old(off) + 4 + mLen
      ensures env.step(old(Known()), mType, acc[old(off) + 4..off]) == if ret == Success then Some(Known()) else None
    {
      var body, m := Take(mLen);
      ret := OnMessage(mType, body, m);
      off := off + 4 + mLen;
    }

    /** One turn of the loop over hsacc[off..accLen]. */
    method CutNext() returns (ret: Code, more: bool)
      requires Valid() && !done && accLen - off >= 4
      modifies this`off, this`got, this`done, this`transcript, this`spkiLen, this`spki, scratch
      ensures Valid() && (more ==> old(off) < off)
      ensures CutAll(env, old(View()).p, acc) ==
              if ret != Success then None else if more then CutAll(env, View().p, acc) else Some(View().p)
    {
      var mType, mLen := Peek();
      if off + 4 + mLen > accLen {
        return Success, false;
      }
      ret := Process(mType, mLen);
      more := true;
      CutTurn(env, old(Known()), acc, old(off), if ret == Success then Some(Known()) else None);
    }

    /** Cut complete messages off hsacc[off..accLen]. */
    method CutMessages() returns (ret: Code)
      requires Valid()
      modifies this`off, this`got, this`done, this`transcript, this`spkiLen, this`spki, scratch
      ensures Valid()
      ensures CutAll(env, old(View()).p, acc) == if ret == Success then Some(View().p) else None
    {
      ret := Success;
      var more := true;
      ghost var goal := CutAll(env, View().p, acc);
      while ret == Success && more && !done && accLen - off >= 4
        invariant Valid()
        invariant goal == if ret != Success then None else if more then CutAll(env, View().p, acc) else Some(View().p)
        decreases if ret == Success && more then 1 + accLen - off else 0
      {
        ret, more := CutNext();
      }
    }

    /** Decrypt the record in place, in the first region. */
    method OpenInPlace(recLen: nat) returns (ret: Code, ctype: Byte, plainLen: nat)
      requires Valid() && recLen <= ioCap
      modifies this`sSeq, this`count, scratch
      ensures Valid() && count == old(count) + 1
      ensures var o := OpenRecord(c, key, iv, old(sSeq), old(scratch[..recLen]));
              if o.Opened? then
                && ret == Success && ctype == o.ty && plainLen == |o.content| && HEADER_SZ + plainLen <= ioCap
                && scratch[HEADER_SZ..HEADER_SZ + plainLen] == o.content
              else ret != Success
    {
      ret, ctype, plainLen := Unprotect(c, scratch, HEADER_SZ, key, iv, sSeq, scratch, recLen);
      sSeq, count := (sSeq + 1) % WORD64, count + 1;
    }

    /** Move the decrypted content behind what is there. */
    method MoveContent(plainLen: nat, ghost content: Bytes)
      requires Valid() && HEADER_SZ + plainLen <= ioCap && accLen + plainLen <= accSz
      requires content == scratch[HEADER_SZ..HEADER_SZ + plainLen]
      modifies this`accLen, this`acc, scratch
      ensures Valid() && acc == old(acc) + content
    {
      var at := ioCap + accLen;
      forall i | 0 <= i < plainLen {
        scratch[at + i] := scratch[HEADER_SZ + i];
      }
      assert forall i :: 0 <= i < plainLen ==> scratch[at + i] == content[i];
      accLen, acc := accLen + plainLen, acc + content;
    }

    method Append(recLen: nat) returns (ret: Code)
      requires Valid() && recLen <= ioCap
      modifies this`accLen, this`acc, this`sSeq, this`count, scratch
      ensures Valid()
      ensures Decrypted(env, old(View()), old(scratch[..recLen])).Some? <==> ret == Success
      ensures ret == Success ==>
                acc == old(acc) + Decrypted(env, old(View()), old(scratch[..recLen])).value && count == old(count) + 1
    {
      ghost var inner := OpenRecord(c, key, iv, sSeq, scratch[..recLen]);
      var ctype, plainLen;
      ret, ctype, plainLen := OpenInPlace(recLen);
      if ret == Success && ctype != HANDSHAKE {
        ret := UnexpectedMsg;
      }
      if ret == Success {
        if accLen + plainLen > accSz {
          ret := Decode;
        } else {
          MoveContent(plainLen, inner.content);
        }
      }
    }

    method TakeRecord(recLen: nat) returns (ret: Code)
      requires Valid() && recLen <= ioCap
      modifies this, scratch
      ensures Valid()
      ensures OnRecord(env, old(View()), old(scratch[..recLen])) == if ret == Success then Some(View()) else None
    {
      ret := Append(recLen);
      if ret == Success {
        ret := CutMessages();
      }
    }

    /** Reading a record does not touch the accumulator or the leaf key. */
    method ReceiveRecord(io: Channel) returns (ret: Code, rtype: Byte, recLen: nat)
      requires Valid()
      modifies scratch, io`incoming
      ensures Valid()
      ensures var f := Frame(Stream(old(io.incoming)), ioCap);
              if f.Framed? then
                && ret == Success && rtype == f.ty && recLen == |f.rec| <= ioCap
                && scratch[..recLen] == f.rec && Stream(io.incoming) == f.rest
              else ret != Success
    {
      ret, rtype, recLen := RecvRecord(io, scratch, ioCap);
    }

    /** One record off the transport. */
    method ReadNext(io: Channel) returns (ret: Code)
      requires Valid() && !done
      modifies this, scratch, io`incoming
      ensures Valid() && (ret == Success ==> |Stream(io.incoming)| < |Stream(old(io.incoming))|)
      ensures ReadFlight(env, old(View()), Stream(old(io.incoming))) ==
              if ret == Success then ReadFlight(env, View(), Stream(io.incoming)) else Refused
    {
      ghost var f := Frame(Stream(io.incoming), ioCap);
      var rtype, recLen;
      ret, rtype, recLen := ReceiveRecord(io);
      if ret == Success && rtype == CHANGE_CIPHER {
        return;
      }
      if ret == Success && rtype != APPDATA {
        ret := UnexpectedMsg;
      }
      if ret == Success {
        ret := TakeRecord(recLen);
      }
    }

    /** The flight loop. The view read back from the shared array is the specification's state: the
        accumulator is the concatenation of the decrypted contents and the leaf key is the one that
        Certificate left, however many records went through the first region in between. */
    method Read(io: Channel) returns (ret: Code)
      requires Valid()
      modifies this, scratch, io`incoming
      ensures Valid()
      ensures ReadFlight(env, old(View()), Stream(old(io.incoming))) ==
              if ret == Success then Complete(View(), Stream(io.incoming)) else Refused
    {
      ret := Success;
      ghost var goal := ReadFlight(env, View(), Stream(io.incoming));
      while ret == Success && !done
        invariant Valid()
        invariant goal == if ret == Success then ReadFlight(env, View(), Stream(io.incoming)) else Refused
        decreases if ret == Success then 1 + |Stream(io.incoming)| else 0
      {
        ret := ReadNext(io);
      }
    }
  }
}
