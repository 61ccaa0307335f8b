/** The server's encrypted flight as both handshake drivers of src/wn_connect.c read it: records are
    decrypted onto an accumulator, and complete messages are cut off it and checked. */
module Flight {
  import opened Base
  import opened Crypto
  import opened Record
  import opened Messages

  /** What the messages seen so far have established. */
  datatype Core = Core(flags: Flags, done: bool, transcript: Bytes, spki: Bytes)

  function Start(transcript: Bytes): Core { Core(Flags(false, false, false), false, transcript, []) }

  /** A reader of flights: the server's handshake keys, the room for one record and for all
      contents, and what one message does (None: the handshake fails). The PSK driver is strict: it
      counts padding against the room and gives up on a header that announces too much. */
  datatype Env = Env(c: Suite, key: Bytes, iv: Bytes, ioCap: nat, room: nat, strict: bool,
      step: (Core, Byte, Bytes) -> Option<Core>)
  {
    ghost predicate Valid() { c.Valid() && |iv| == IV_SZ }
  }

  /** A marker that names the messages whose step a proof looks up. */
  ghost predicate Asked(core: Core, ty: Byte, body: Bytes) { true }

  // ---- one accumulator ----

  /** The end of the message at `off`, as its header says. */
  function MessageEnd(acc: Bytes, off: nat): nat
    requires off + 4 <= |acc|
  {
    off + 4 + GetU24(acc, off + 1)
  }

  /** The bytes of a complete message are the encoding of its type and body. */
  lemma {:induction false} MessageSlice(acc: Bytes, off: nat)
    requires off + 4 <= |acc| && MessageEnd(acc, off) <= |acc|
    ensures acc[off..MessageEnd(acc, off)] == Message(acc[off], acc[off + 4..MessageEnd(acc, off)])
  {
    var m := acc[off..MessageEnd(acc, off)];
    assert m[0] == acc[off] && GetU24(m, 1) == GetU24(acc, off + 1);
    MessageUnique(m);
    assert m[..|m|] == m && m[4..|m|] == acc[off + 4..MessageEnd(acc, off)];
  }

  /** A strict reader gives up on the header alone. */
  predicate TooLong(env: Env, acc: Bytes, off: nat)
    requires off + 4 <= |acc|
  {
    env.strict && MessageEnd(acc, off) > env.room
  }

  datatype Progress = Progress(core: Core, off: nat)

  /** Cut complete messages off the accumulator until one is incomplete, an error (None) or the end
      of the flight. */
  ghost function CutAll(env: Env, p: Progress, acc: Bytes): Option<Progress>
    requires p.off <= |acc|
    decreases |acc| - p.off
  {
    if p.core.done || |acc| - p.off < 4 then Some(p)
    else if TooLong(env, acc, p.off) then None
    else
      var end := MessageEnd(acc, p.off);
      if end > |acc| then Some(p)
      else
        match env.step(p.core, acc[p.off], acc[p.off + 4..end])
        case None => None
        case Some(next) => CutAll(env, Progress(next, end), acc)
  }

  /** One turn of the loop. */
  lemma {:induction false} CutTurn(env: Env, core: Core, acc: Bytes, off: nat, next: Option<Core>)
    requires off + 4 <= |acc| && !core.done && !TooLong(env, acc, off) && MessageEnd(acc, off) <= |acc|
    requires next == env.step(core, acc[off], acc[off + 4..MessageEnd(acc, off)])
    ensures CutAll(env, Progress(core, off), acc) ==
            if next.None? then None else CutAll(env, Progress(next.value, MessageEnd(acc, off)), acc)
  {
  }

  lemma {:induction false} CutInside(env: Env, p: Progress, acc: Bytes)
    requires p.off <= |acc|
    ensures CutAll(env, p, acc).Some? ==> p.off <= CutAll(env, p, acc).value.off <= |acc|
    decreases |acc| - p.off
  {
    if !p.core.done && |acc| - p.off >= 4 && !TooLong(env, acc, p.off) && MessageEnd(acc, p.off) <= |acc| {
      var end := MessageEnd(acc, p.off);
      var next := env.step(p.core, acc[p.off], acc[p.off + 4..end]);
      if next.Some? {
        CutInside(env, Progress(next.value, end), acc);
      }
    }
  }

  /** Stopping at a partial message and going on when more has arrived is the same as having had
      all bytes at once, and an error stays one. */
  lemma {:induction false} CutResumes(env: Env, p: Progress, acc: Bytes, more: Bytes)
    requires p.off <= |acc|
    ensures var first := CutAll(env, p, acc);
            && (first.Some? ==> first.value.off <= |acc|)
            && CutAll(env, p, acc + more) == if first.None? then None else CutAll(env, first.value, acc + more)
    decreases |acc| - p.off
  {
    CutInside(env, p, acc);
    if !p.core.done && |acc| - p.off >= 4 {
      assert MessageEnd(acc + more, p.off) == MessageEnd(acc, p.off);
      var end := MessageEnd(acc, p.off);
      if !TooLong(env, acc, p.off) && end <= |acc| {
        assert (acc + more)[p.off + 4..end] == acc[p.off + 4..end];
        var next := env.step(p.core, acc[p.off], acc[p.off + 4..end]);
        if next.Some? {
          CutResumes(env, Progress(next.value, end), acc, more);
        }
      }
    }
  }

  // ---- one record, the whole stream ----

  datatype State = State(p: Progress, acc: Bytes, count: nat)
  {
    ghost predicate Valid(env: Env) {
      p.off <= |acc| && |acc| <= env.room
    }
  }

  /** A strict reader counts the inner type and padding and checks before it decrypts, another one
      counts the content. */
  predicate RecordFits(env: Env, acc: Bytes, recLen: nat) {
    env.strict ==> recLen >= HEADER_SZ + TAG_SZ && |acc| + recLen - HEADER_SZ - TAG_SZ <= env.room
  }

  predicate ContentFits(env: Env, acc: Bytes, content: Bytes) {
    |acc| + |content| <= env.room
  }

  /** The handshake content of a record, if it fits and authenticates. */
  function Decrypted(env: Env, s: State, rec: Bytes): Option<Bytes>
    requires |env.iv| == IV_SZ
  {
    if !RecordFits(env, s.acc, |rec|) then None
    else
      match OpenRecord(env.c, env.key, env.iv, s.count % WORD64, rec)
      case OpenError(_) => None
      case Opened(ty, content) => if ty != HANDSHAKE || !ContentFits(env, s.acc, content) then None else Some(content)
  }

  ghost function OnRecord(env: Env, s: State, rec: Bytes): (r: Option<State>)
    requires env.Valid() && s.Valid(env)
    ensures r.Some? ==> r.value.Valid(env)
  {
    match Decrypted(env, s, rec)
    case None => None
    case Some(content) =>
      var acc := s.acc + content;
      CutInside(env, s.p, acc);
      match CutAll(env, s.p, acc)
      case None => None
      case Some(p) => Some(State(p, acc, s.count + 1))
  }

  datatype Verdict = Refused | Complete(s: State, rest: Bytes)

  /** Records off the byte stream until the flight is complete. */
  ghost function ReadFlight(env: Env, s: State, stream: Bytes): (v: Verdict)
    requires env.Valid() && s.Valid(env)
    ensures v.Complete? ==> v.s.p.core.done && v.s.Valid(env)
    decreases |stream|
  {
    if s.p.core.done then Complete(s, stream)
    else
      match Frame(stream, env.ioCap)
      case NoRecord(_) => Refused
      case Framed(ty, rec, rest) =>
        if ty == CHANGE_CIPHER then ReadFlight(env, s, rest)
        else if ty != APPDATA then Refused
        else
          match OnRecord(env, s, rec)
          case None => Refused
          case Some(next) => ReadFlight(env, next, rest)
  }

  /** Nothing read yet, after this transcript. */
  function Begin(transcript: Bytes): State { State(Progress(Start(transcript), 0), [], 0) }

  /** The state is what one pass over everything decrypted so far gives. */
  ghost predicate OneShot(env: Env, transcript: Bytes, s: State) {
    CutAll(env, Progress(Start(transcript), 0), s.acc) == Some(s.p)
  }

  lemma {:induction false} RecordKeepsOneShot(env: Env, transcript: Bytes, s: State, rec: Bytes)
    requires env.Valid() && s.Valid(env) && OneShot(env, transcript, s)
    requires OnRecord(env, s, rec).Some?
    ensures OneShot(env, transcript, OnRecord(env, s, rec).value)
  {
    CutResumes(env, Progress(Start(transcript), 0), s.acc, Decrypted(env, s, rec).value);
  }

  /** Any sequence of protected records; None once one is refused. */
  ghost function Fed(env: Env, s: State, recs: seq<Bytes>): (r: Option<State>)
    requires env.Valid() && s.Valid(env)
    ensures r.Some? ==> r.value.Valid(env)
    decreases |recs|
  {
    if recs == [] then Some(s)
    else
      match OnRecord(env, s, recs[0])
      case None => None
      case Some(next) => Fed(env, next, recs[1..])
  }

  /** Whatever records have been read, the state is that of one pass over all their contents. */
  lemma {:induction false} FedIsOneShot(env: Env, transcript: Bytes, s: State, recs: seq<Bytes>)
    requires env.Valid() && s.Valid(env) && OneShot(env, transcript, s)
    ensures Fed(env, s, recs).Some? ==> OneShot(env, transcript, Fed(env, s, recs).value)
    decreases |recs|
  {
    if recs != [] && OnRecord(env, s, recs[0]).Some? {
      RecordKeepsOneShot(env, transcript, s, recs[0]);
      FedIsOneShot(env, transcript, OnRecord(env, s, recs[0]).value, recs[1..]);
    }
  }

  /** The incremental reassembler refines a one-shot parse of the concatenated contents. */
  lemma {:induction false} FlightIsOneShot(env: Env, transcript: Bytes, s: State, stream: Bytes)
    requires env.Valid() && s.Valid(env) && OneShot(env, transcript, s)
    requires ReadFlight(env, s, stream).Complete?
    ensures OneShot(env, transcript, ReadFlight(env, s, stream).s)
    decreases |stream|
  {
    if !s.p.core.done {
      var f := Frame(stream, env.ioCap);
      if f.ty == CHANGE_CIPHER {
        FlightIsOneShot(env, transcript, s, f.rest);
      } else {
        RecordKeepsOneShot(env, transcript, s, f.rec);
        FlightIsOneShot(env, transcript, OnRecord(env, s, f.rec).value, f.rest);
      }
    }
  }
}

/** The verdict on a flight does not depend on how the server divides it into records. */
module Division {
  import opened Base
  import opened Crypto
  import opened Record
  import opened Flight

  /** One record of the server: a compatibility change_cipher_spec, or a piece of the handshake
      stream with padding. */
  datatype Piece = Ccs | Piece(content: Bytes, pad: nat)

  const CCS_RECORD: Bytes := [20, 3, 3, 0, 1, 1]

  function Content(pieces: seq<Piece>): Bytes {
    if pieces == [] then []
    else (if pieces[0].Ccs? then [] else pieces[0].content) + Content(pieces[1..])
  }

  function Sealed(env: Env, seqNo: nat, piece: Piece): Bytes
    requires |env.iv| == IV_SZ && piece.Piece?
  {
    SealInner(env.c, env.key, env.iv, seqNo, piece.content + [HANDSHAKE] + Zeros(piece.pad))
  }

  /** The bytes on the wire, records numbered from `count`. */
  function Wire(env: Env, count: nat, pieces: seq<Piece>): Bytes
    requires |env.iv| == IV_SZ
    decreases pieces
  {
    if pieces == [] then []
    else if pieces[0].Ccs? then CCS_RECORD + Wire(env, count, pieces[1..])
    else Sealed(env, count % WORD64, pieces[0]) + Wire(env, count + 1, pieces[1..])
  }

  function Count(pieces: seq<Piece>): nat {
    if pieces == [] then 0 else (if pieces[0].Ccs? then 0 else 1) + Count(pieces[1..])
  }

  /** Every record passes the size checks, with `used` bytes before it. */
  predicate Fits(env: Env, used: nat, pieces: seq<Piece>)
    decreases pieces
  {
    pieces != [] ==>
      if pieces[0].Ccs? then Fits(env, used, pieces[1..])
      else
        var n, pad := |pieces[0].content|, pieces[0].pad;
        && n + pad <= MAX_PLAINTEXT && HEADER_SZ + n + 1 + pad + TAG_SZ <= env.ioCap
        && (env.strict ==> used + n + 1 + pad <= env.room)
        && used + n <= env.room
        && Fits(env, used + n, pieces[1..])
  }

  lemma {:induction false} CcsFrames(rest: Bytes, cap: nat)
    requires 6 <= cap
    ensures Frame(CCS_RECORD + rest, cap) == Framed(CHANGE_CIPHER, CCS_RECORD, rest)
  {
    var s := CCS_RECORD + rest;
    assert s[..6] == CCS_RECORD && s[6..] == rest && GetU16(s, 3) == 1;
  }

  /** Everything that is complete has been cut off. */
  ghost predicate Settled(env: Env, s: State)
    requires s.Valid(env)
  {
    CutAll(env, s.p, s.acc) == Some(s.p)
  }

  lemma {:induction false} ContentBounded(env: Env, used: nat, pieces: seq<Piece>)
    requires Fits(env, used, pieces) && used <= env.room
    ensures used + |Content(pieces)| <= env.room
    decreases pieces
  {
    if pieces != [] {
      ContentBounded(env, used + (if pieces[0].Ccs? then 0 else |pieces[0].content|), pieces[1..]);
    }
  }

  /** A verdict against one pass over all contents: that pass's or, while it is incomplete, the one
      that going on with what follows leads to. */
  ghost predicate Agrees(env: Env, pass: Option<Progress>, acc: Bytes, count: nat, tail: Bytes, v: Verdict)
    requires env.Valid() && (pass.Some? ==> State(pass.value, acc, count).Valid(env))
  {
    match pass
    case None => v == Refused
    case Some(p) =>
      if p.core.done then v.Complete? && v.s.p == p else v == ReadFlight(env, State(p, acc, count), tail)
  }

  /** The verdict is that of one pass over `content`, which came in n records. */
  ghost predicate ReadsAs(env: Env, s: State, content: Bytes, n: nat, tail: Bytes, v: Verdict)
    requires env.Valid() && s.Valid(env) && |s.acc| + |content| <= env.room
  {
    var acc := s.acc + content;
    CutInside(env, s.p, acc);
    Agrees(env, CutAll(env, s.p, acc), acc, s.count + n, tail, v)
  }

  /** Reading a division of the stream is one pass over its contents. */
  ghost predicate ReadsAsOne(env: Env, s: State, pieces: seq<Piece>, tail: Bytes, v: Verdict)
    requires env.Valid() && s.Valid(env) && Fits(env, |s.acc|, pieces)
  {
    ContentBounded(env, |s.acc|, pieces);
    ReadsAs(env, s, Content(pieces), Count(pieces), tail, v)
  }

  lemma {:induction false} PieceOpens(env: Env, s: State, piece: Piece, rest: Bytes)
    requires env.Valid() && s.Valid(env) && piece.Piece? && Fits(env, |s.acc|, [piece])
    ensures var rec := Sealed(env, s.count % WORD64, piece);
            && Frame(rec + rest, env.ioCap) == Framed(APPDATA, rec, rest)
            && RecordFits(env, s.acc, |rec|)
            && OpenRecord(env.c, env.key, env.iv, s.count % WORD64, rec) == Opened(HANDSHAKE, piece.content)
  {
    RecordRoundTrip(env.c, env.key, env.iv, s.count % WORD64, HANDSHAKE, piece.content, piece.pad, rest, env.ioCap);
  }

  /** The record of a piece has the effect of its content. */
  lemma {:induction false} PieceRead(env: Env, s: State, piece: Piece, rest: Bytes)
    requires env.Valid() && s.Valid(env) && piece.Piece? && Fits(env, |s.acc|, [piece]) && !s.p.core.done
    ensures var v := ReadFlight(env, s, Sealed(env, s.count % WORD64, piece) + rest);
            var acc := s.acc + piece.content;
            match CutAll(env, s.p, acc)
            case None => v == Refused
            case Some(p) =>
              var next := State(p, acc, s.count + 1);
              next.Valid(env) && Settled(env, next) && v == ReadFlight(env, next, rest)
  {
    var rec := Sealed(env, s.count % WORD64, piece);
    PieceOpens(env, s, piece, rest);
    RecordRead(env, s, rec + rest, rec, rest);
    PieceTaken(env, s, piece, rec);
  }

  lemma {:induction false} RecordRead(env: Env, s: State, stream: Bytes, rec: Bytes, rest: Bytes)
    requires env.Valid() && s.Valid(env) && !s.p.core.done && Frame(stream, env.ioCap) == Framed(APPDATA, rec, rest)
    ensures ReadFlight(env, s, stream) ==
            match OnRecord(env, s, rec)
            case None => Refused
            case Some(next) => ReadFlight(env, next, rest)
  {
  }

  lemma {:induction false} PieceTaken(env: Env, s: State, piece: Piece, rec: Bytes)
    requires env.Valid() && s.Valid(env) && piece.Piece? && RecordFits(env, s.acc, |rec|)
    requires OpenRecord(env.c, env.key, env.iv, s.count % WORD64, rec) == Opened(HANDSHAKE, piece.content)
    requires |s.acc| + |piece.content| <= env.room
    ensures var acc := s.acc + piece.content;
            match CutAll(env, s.p, acc)
            case None => OnRecord(env, s, rec) == None
            case Some(p) =>
              var next := State(p, acc, s.count + 1);
              next.Valid(env) && Settled(env, next) && OnRecord(env, s, rec) == Some(next)
  {
    var acc := s.acc + piece.content;
    CutInside(env, s.p, acc);
    CutResumes(env, s.p, acc, []);
    assert acc + [] == acc;
  }

  lemma {:induction false} PieceFirst(env: Env, s: State, pieces: seq<Piece>)
    requires pieces != [] && pieces[0].Piece? && Fits(env, |s.acc|, pieces)
    ensures Fits(env, |s.acc|, [pieces[0]]) && Fits(env, |s.acc + pieces[0].content|, pieces[1..])
  {
    assert [pieces[0]][1..] == [];
  }

  /** What the first content leads to, led on by the others, is what all of it leads to. */
  lemma {:induction false} ReadsJoin(env: Env, s: State, one: Bytes, more: Bytes, n: nat, tail: Bytes, v: Verdict)
    requires env.Valid() && s.Valid(env) && |s.acc| + |one| + |more| <= env.room
    requires var acc := s.acc + one;
             var first := CutAll(env, s.p, acc);
             if first.None? then v == Refused
             else
               var next := State(first.value, acc, s.count + 1);
               next.Valid(env) && ReadsAs(env, next, more, n, tail, v)
    ensures ReadsAs(env, s, one + more, n + 1, tail, v)
  {
    var first := CutAll(env, s.p, s.acc + one);
    if first.Some? {
      GoesOn(env, s, State(first.value, s.acc + one, s.count + 1), one, more, n, tail, v);
    } else {
      PassJoins(env, s.p, s.acc, one, more);
      assert CutAll(env, s.p, s.acc + (one + more)) == None;
    }
  }

  lemma {:induction false} GoesOn(
      env: Env, s: State, next: State, one: Bytes, more: Bytes, n: nat, tail: Bytes, v: Verdict)
    requires env.Valid() && s.Valid(env) && next.Valid(env) && |s.acc| + |one| + |more| <= env.room
    requires CutAll(env, s.p, s.acc + one) == Some(next.p) && next.acc == s.acc + one && next.count == s.count + 1
    requires ReadsAs(env, next, more, n, tail, v)
    ensures ReadsAs(env, s, one + more, n + 1, tail, v)
  {
    PassJoins(env, s.p, s.acc, one, more);
    assert CutAll(env, s.p, s.acc + (one + more)) == CutAll(env, next.p, next.acc + more);
  }

  lemma {:induction false} PassJoins(env: Env, p: Progress, acc: Bytes, one: Bytes, more: Bytes)
    requires p.off <= |acc|
    ensures acc + one + more == acc + (one + more)
    ensures var first := CutAll(env, p, acc + one);
            && (first.Some? ==> first.value.off <= |acc + one|)
            && CutAll(env, p, acc + (one + more)) ==
               if first.None? then None else CutAll(env, first.value, acc + one + more)
  {
    Assoc(acc, one, more);
    CutResumes(env, p, acc + one, more);
  }

  lemma {:induction false} PieceCounts(env: Env, s: State, pieces: seq<Piece>, tail: Bytes, v: Verdict)
    requires env.Valid() && s.Valid(env) && pieces != [] && pieces[0].Piece? && Fits(env, |s.acc|, pieces)
    requires var acc := s.acc + pieces[0].content;
             var first := CutAll(env, s.p, acc);
             if first.None? then v == Refused
             else
               var next := State(first.value, acc, s.count + 1);
               next.Valid(env) && Fits(env, |acc|, pieces[1..]) && ReadsAsOne(env, next, pieces[1..], tail, v)
    ensures ReadsAsOne(env, s, pieces, tail, v)
  {
    ContentBounded(env, |s.acc|, pieces);
    ReadsJoin(env, s, pieces[0].content, Content(pieces[1..]), Count(pieces[1..]), tail, v);
  }

  lemma {:induction false} CcsCounts(env: Env, s: State, pieces: seq<Piece>, tail: Bytes, v: Verdict)
    requires env.Valid() && s.Valid(env) && pieces != [] && pieces[0].Ccs? && Fits(env, |s.acc|, pieces)
    requires ReadsAsOne(env, s, pieces[1..], tail, v)
    ensures ReadsAsOne(env, s, pieces, tail, v)
  {
    CcsAddsNothing(pieces);
  }

  lemma {:induction false} CcsAddsNothing(pieces: seq<Piece>)
    requires pieces != [] && pieces[0].Ccs?
    ensures Content(pieces) == Content(pieces[1..]) && Count(pieces) == Count(pieces[1..])
  {
    assert [] + Content(pieces[1..]) == Content(pieces[1..]);
  }

  lemma {:induction false} NothingLeft(env: Env, s: State, tail: Bytes)
    requires env.Valid() && s.Valid(env) && Settled(env, s)
    ensures ReadsAs(env, s, [], 0, tail, ReadFlight(env, s, tail))
  {
    assert s.acc + [] == s.acc;
    assert State(s.p, s.acc, s.count + 0) == s;
  }

  lemma {:induction false} NothingAfterDone(env: Env, s: State, content: Bytes, n: nat, stream: Bytes, tail: Bytes)
    requires env.Valid() && s.Valid(env) && s.p.core.done && |s.acc| + |content| <= env.room
    ensures ReadsAs(env, s, content, n, tail, ReadFlight(env, s, stream))
  {
    assert CutAll(env, s.p, s.acc + content) == Some(s.p);
    assert ReadFlight(env, s, stream) == Complete(s, stream);
  }

  lemma {:induction false} CcsRead(env: Env, s: State, rest: Bytes)
    requires env.Valid() && env.ioCap >= 6 && s.Valid(env) && !s.p.core.done
    ensures ReadFlight(env, s, CCS_RECORD + rest) == ReadFlight(env, s, rest)
  {
    CcsFrames(rest, env.ioCap);
  }

  lemma {:induction false} DividedReadsAsOne(env: Env, s: State, pieces: seq<Piece>, tail: Bytes)
    requires env.Valid() && env.ioCap >= 6
    requires s.Valid(env) && Settled(env, s) && Fits(env, |s.acc|, pieces)
    ensures ReadsAsOne(env, s, pieces, tail, ReadFlight(env, s, Wire(env, s.count, pieces) + tail))
    decreases pieces, 1
  {
    if pieces == [] {
      assert [] + tail == tail;
      NothingLeft(env, s, tail);
    } else if s.p.core.done {
      ContentBounded(env, |s.acc|, pieces);
      NothingAfterDone(env, s, Content(pieces), Count(pieces), Wire(env, s.count, pieces) + tail, tail);
    } else if pieces[0].Ccs? {
      var v := ReadFlight(env, s, Wire(env, s.count, pieces) + tail);
      var rest := Wire(env, s.count, pieces[1..]);
      Assoc(CCS_RECORD, rest, tail);
      CcsRead(env, s, rest + tail);
      DividedReadsAsOne(env, s, pieces[1..], tail);
      CcsCounts(env, s, pieces, tail, v);
    } else {
      PieceThenRest(env, s, pieces, tail);
    }
  }

  lemma {:induction false} PieceThenRest(env: Env, s: State, pieces: seq<Piece>, tail: Bytes)
    requires env.Valid() && env.ioCap >= 6
    requires s.Valid(env) && !s.p.core.done && pieces != [] && pieces[0].Piece? && Fits(env, |s.acc|, pieces)
    ensures ReadsAsOne(env, s, pieces, tail, ReadFlight(env, s, Wire(env, s.count, pieces) + tail))
    decreases pieces, 0
  {
    PieceFirst(env, s, pieces);
    var acc, rest := s.acc + pieces[0].content, Wire(env, s.count + 1, pieces[1..]);
    var v := ReadFlight(env, s, Wire(env, s.count, pieces) + tail);
    Assoc(Sealed(env, s.count % WORD64, pieces[0]), rest, tail);
    PieceRead(env, s, pieces[0], rest + tail);
    var first := CutAll(env, s.p, acc);
    if first.Some? {
      DividedReadsAsOne(env, State(first.value, acc, s.count + 1), pieces[1..], tail);
    }
    PieceCounts(env, s, pieces, tail, v);
  }

  /** Any two divisions of one handshake stream that pass the size checks, padded and interleaved
      with change_cipher_spec at will, get the same verdict, the same messages in the same order,
      the same transcript and the same leaf key. */
  lemma {:induction false} DivisionIrrelevant(env: Env, transcript: Bytes, one: seq<Piece>, other: seq<Piece>)
    requires env.Valid() && env.ioCap >= 6
    requires Fits(env, 0, one) && Fits(env, 0, other) && Content(one) == Content(other)
    ensures var v := ReadFlight(env, Begin(transcript), Wire(env, 0, one));
            var w := ReadFlight(env, Begin(transcript), Wire(env, 0, other));
            v.Complete? == w.Complete? && (v.Complete? ==> v.s.p == w.s.p)
    ensures ReadFlight(env, Begin(transcript), Wire(env, 0, one)).Complete? <==>
            var p := CutAll(env, Progress(Start(transcript), 0), Content(one)); p.Some? && p.value.core.done
  {
    OneDivision(env, transcript, one);
    OneDivision(env, transcript, other);
  }

  lemma {:induction false} OneDivision(env: Env, transcript: Bytes, pieces: seq<Piece>)
    requires env.Valid() && env.ioCap >= 6 && Fits(env, 0, pieces)
    ensures var v := ReadFlight(env, Begin(transcript), Wire(env, 0, pieces));
            var pass := CutAll(env, Progress(Start(transcript), 0), Content(pieces));
            && (v.Complete? <==> pass.Some? && pass.value.core.done)
            && (v.Complete? ==> v.s.p == pass.value)
  {
    DividedReadsAsOne(env, Begin(transcript), pieces, []);
    assert [] + Content(pieces) == Content(pieces);
    assert Wire(env, 0, pieces) + [] == Wire(env, 0, pieces);
  }
}

/** What the two drivers do with one message of the flight. */
module FlightSteps {
  import opened Base
  import opened Crypto
  import opened KeySchedule
  import opened Messages
  import opened Chain
  import opened Flight

  /** The reassembly buffer of the PSK driver. */
  const PLAIN_SZ: nat := 512

  /** The verify_data is the MAC of the transcript so far. */
  predicate MacOk(c: Suite, secret: Bytes, transcript: Bytes, body: Bytes) {
    !FinishedFails(c, secret) && body == FinishedMac(c, secret, c.hash(transcript))
  }

  function OnPskMessage(c: Suite, secret: Bytes, core: Core, ty: Byte, body: Bytes): Option<Core> {
    var next := core.transcript + Message(ty, body);
    if ty == ENCRYPTED_EXT && !core.flags.ee && EncExtOk(body, false) then
      Some(core.(flags := core.flags.(ee := true), transcript := next))
    else if ty == FINISHED && core.flags.ee && MacOk(c, secret, core.transcript, body) then
      Some(core.(done := true, transcript := next))
    else None
  }

  /** How the certificate driver knows the server. */
  datatype Identity = Identity(
    sni: bool, pki: Pki, pol: Policy, spkiCap: nat,
    verify: (nat, Bytes, Bytes, Bytes) -> bool) // scheme, leaf key, signed content, signature

  /** The chain of a Certificate body. */
  ghost function Presented(body: Bytes): Option<seq<Bytes>> {
    if CertList(body).None? then None
    else
      SlicesInOrder(body, 4, MAX_CHAIN);
      Some(ChainOf(body, CertList(body).value))
  }

  ghost predicate CertOk(id: Identity, body: Bytes) {
    Presented(body).Some? && ChainOk(id.pki, id.pol, id.spkiCap, Presented(body).value)
  }

  ghost function LeafKey(id: Identity, body: Bytes): Bytes
    requires CertOk(id, body)
  {
    id.pki.parse(Presented(body).value[0]).value.pubKey
  }

  /** The signature is over the transcript hash so far, by this key. */
  predicate SignatureOk(c: Suite, id: Identity, transcript: Bytes, spki: Bytes, body: Bytes) {
    var cv := CvParts(body);
    cv.Some? && id.verify(cv.value.0, spki, CvContent(c.hash(transcript)), cv.value.1)
  }

  /** The check that belongs to a message type, after this transcript; the result is the leaf key
      known from then on. */
  ghost function Checked(
      c: Suite, secret: Bytes, id: Identity, transcript: Bytes, spki: Bytes, ty: Byte, body: Bytes): Option<Bytes>
  {
    if ty == ENCRYPTED_EXT then if EncExtOk(body, id.sni) then Some(spki) else None
    else if ty == CERTIFICATE then if CertOk(id, body) then Some(LeafKey(id, body)) else None
    else if ty == CERT_VERIFY then if SignatureOk(c, id, transcript, spki, body) then Some(spki) else None
    else if ty == FINISHED && MacOk(c, secret, transcript, body) then Some(spki)
    else None
  }

  ghost function OnCertMessage(
      c: Suite, secret: Bytes, id: Identity, core: Core, ty: Byte, body: Bytes): Option<Core>
  {
    if !InFlightOrder(ty, core.flags) then None
    else
      match Checked(c, secret, id, core.transcript, core.spki, ty, body)
      case None => None
      case Some(spki) => Some(Core(Mark(ty, core.flags), ty == FINISHED, core.transcript + Message(ty, body), spki))
  }

  // ---- the two readers ----

  /** What the PSK driver knows when the flight begins: the server's handshake secret and keys, and
      the room for one record. */
  datatype PskSide = PskSide(c: Suite, secret: Bytes, key: Bytes, iv: Bytes, ioCap: nat)

  /** The certificate driver's accumulator size and checks besides. */
  datatype CertSide = CertSide(c: Suite, secret: Bytes, key: Bytes, iv: Bytes, ioCap: nat, room: nat, id: Identity)

  ghost predicate IsPskEnv(env: Env, side: PskSide) {
    && env.c == side.c && env.key == side.key && env.iv == side.iv && env.ioCap == side.ioCap
    && env.room == PLAIN_SZ && env.strict
    && forall core, ty, body {:trigger Asked(core, ty, body)} ::
         env.step(core, ty, body) == OnPskMessage(side.c, side.secret, core, ty, body)
  }

  ghost predicate IsCertEnv(env: Env, side: CertSide) {
    && env.c == side.c && env.key == side.key && env.iv == side.iv && env.ioCap == side.ioCap
    && env.room == side.room && !env.strict
    && forall core, ty, body {:trigger Asked(core, ty, body)} ::
         env.step(core, ty, body) == OnCertMessage(side.c, side.secret, side.id, core, ty, body)
  }

  /** The reader is fixed by what its steps do. */
  ghost function PskEnv(side: PskSide): (env: Env)
    ensures IsPskEnv(env, side)
  {
    var step := (core: Core, ty: Byte, body: Bytes) => OnPskMessage(side.c, side.secret, core, ty, body);
    assert IsPskEnv(Env(side.c, side.key, side.iv, side.ioCap, PLAIN_SZ, true, step), side);
    var env: Env :| IsPskEnv(env, side);
    env
  }

  ghost function CertEnv(side: CertSide): (env: Env)
    ensures IsCertEnv(env, side)
  {
    var step := (core: Core, ty: Byte, body: Bytes) => OnCertMessage(side.c, side.secret, side.id, core, ty, body);
    assert IsCertEnv(Env(side.c, side.key, side.iv, side.ioCap, side.room, false, step), side);
    var env: Env :| IsCertEnv(env, side);
    env
  }
}

/** A flight is complete exactly when it is the one the RFC prescribes, each hash snapshot taken over
    the messages before it. */
module FlightExact {
  import opened Base
  import opened Crypto
  import opened Messages
  import opened Flight
  import opened FlightSteps

  predicate Sized(body: Bytes) { |body| < 0x100_0000 }

  ghost predicate StartsWith(acc: Bytes, s: Bytes) { |s| <= |acc| && acc[..|s|] == s }

  /** The message at an offset, as far as the reader accepts its length. */
  ghost predicate At(env: Env, acc: Bytes, off: nat, ty: Byte, body: Bytes) {
    && off + 4 + |body| <= |acc| && MessageEnd(acc, off) == off + 4 + |body|
    && acc[off] == ty && acc[off + 4..off + 4 + |body|] == body
    && (env.strict ==> off + 4 + |body| <= env.room)
  }

  ghost predicate Finishes(env: Env, p: Progress, acc: Bytes)
    requires p.off <= |acc|
  {
    CutAll(env, p, acc).Some? && CutAll(env, p, acc).value.core.done
  }

  /** A complete message is processed. */
  lemma {:induction false} Processes(env: Env, core: Core, acc: Bytes, off: nat, ty: Byte, body: Bytes)
    requires At(env, acc, off, ty, body) && !core.done
    ensures CutAll(env, Progress(core, off), acc) ==
            match env.step(core, ty, body)
            case None => None
            case Some(next) => CutAll(env, Progress(next, off + 4 + |body|), acc)
  {
  }

  /** Only a complete message that passes its checks leads on. */
  lemma {:induction false} Found(env: Env, core: Core, acc: Bytes, off: nat)
      returns (ty: Byte, body: Bytes, next: Core)
    requires off <= |acc| && !core.done && Finishes(env, Progress(core, off), acc)
    ensures At(env, acc, off, ty, body) && env.step(core, ty, body) == Some(next)
    ensures Finishes(env, Progress(next, off + 4 + |body|), acc)
  {
    var end := MessageEnd(acc, off);
    ty, body := acc[off], acc[off + 4..end];
    next := env.step(core, ty, body).value;
  }

  /** An offset shows the message exactly when the bytes there are its encoding. */
  lemma {:induction false} AtIsMessage(env: Env, acc: Bytes, off: nat, ty: Byte, body: Bytes)
    requires Sized(body) && (env.strict ==> off + 4 + |body| <= env.room)
    ensures At(env, acc, off, ty, body) <==>
            off + 4 + |body| <= |acc| && acc[off..off + 4 + |body|] == Message(ty, body)
  {
    if off + 4 + |body| <= |acc| {
      var m := acc[off..off + 4 + |body|];
      assert m[0] == acc[off] && GetU24(m, 1) == GetU24(acc, off + 1) && m[4..] == acc[off + 4..off + 4 + |body|];
      if m == Message(ty, body) {
        MessageParts(ty, body, []);
        assert m + [] == m && m[4..4 + |body|] == m[4..];
      }
      if At(env, acc, off, ty, body) {
        MessageUnique(m);
        assert m[..|m|] == m && m[4..|m|] == m[4..];
      }
    }
  }

  lemma {:induction false} AtFront(env: Env, acc: Bytes, pre: Bytes, ty: Byte, body: Bytes)
    requires Sized(body) && (env.strict ==> |pre| + 4 + |body| <= env.room)
    ensures StartsWith(acc, pre + Message(ty, body)) <==> StartsWith(acc, pre) && At(env, acc, |pre|, ty, body)
  {
    var m := Message(ty, body);
    var n := |pre| + |m|;
    AtIsMessage(env, acc, |pre|, ty, body);
    if n <= |acc| {
      assert acc[..n] == acc[..|pre|] + acc[|pre|..n];
      if acc[..n] == pre + m {
        assert acc[..n][..|pre|] == pre && acc[..n][|pre|..] == m;
      }
    }
  }

  // ---- the PSK flight ----

  /** EncryptedExtensions, then Finished over everything before it. */
  ghost predicate PskFlightIs(c: Suite, secret: Bytes, transcript: Bytes, acc: Bytes, ee: Bytes, fin: Bytes) {
    var m1, m2 := Message(ENCRYPTED_EXT, ee), Message(FINISHED, fin);
    && StartsWith(acc, m1 + m2) && |m1 + m2| <= PLAIN_SZ
    && EncExtOk(ee, false)
    && MacOk(c, secret, transcript + m1, fin)
  }

  /** Two messages that the reader's steps accept, whatever those steps are. */
  lemma {:induction false} TwoSteps(
      env: Env, acc: Bytes, off: nat, c0: Core, ty1: Byte, b1: Bytes, c1: Core, ty2: Byte, b2: Bytes, c2: Core)
    requires At(env, acc, off, ty1, b1) && !c0.done && env.step(c0, ty1, b1) == Some(c1)
    requires At(env, acc, off + 4 + |b1|, ty2, b2) && !c1.done && env.step(c1, ty2, b2) == Some(c2)
    ensures CutAll(env, Progress(c0, off), acc) == CutAll(env, Progress(c2, off + 8 + |b1| + |b2|), acc)
  {
    Processes(env, c0, acc, off, ty1, b1);
    Processes(env, c1, acc, off + 4 + |b1|, ty2, b2);
  }

  ghost function PskAfterEe(transcript: Bytes, ee: Bytes): Core {
    Core(Flags(true, false, false), false, transcript + Message(ENCRYPTED_EXT, ee), [])
  }

  ghost function PskAfterFin(transcript: Bytes, ee: Bytes, fin: Bytes): Core {
    Core(Flags(true, false, false), true, transcript + Message(ENCRYPTED_EXT, ee) + Message(FINISHED, fin), [])
  }

  lemma {:induction false} PskPlaced(env: Env, acc: Bytes, ee: Bytes, fin: Bytes)
    requires 8 + |ee| + |fin| <= env.room && Sized(ee) && Sized(fin)
    ensures StartsWith(acc, Message(ENCRYPTED_EXT, ee) + Message(FINISHED, fin)) <==>
            At(env, acc, 0, ENCRYPTED_EXT, ee) && At(env, acc, 4 + |ee|, FINISHED, fin)
  {
    var m1 := Message(ENCRYPTED_EXT, ee);
    assert [] + m1 == m1;
    AtFront(env, acc, [], ENCRYPTED_EXT, ee);
    AtFront(env, acc, m1, FINISHED, fin);
  }

  lemma {:induction false} PskAccepted(env: Env, side: PskSide, transcript: Bytes, acc: Bytes, ee: Bytes, fin: Bytes)
    requires IsPskEnv(env, side) && PskFlightIs(side.c, side.secret, transcript, acc, ee, fin)
    ensures CutAll(env, Progress(Start(transcript), 0), acc) ==
            Some(Progress(PskAfterFin(transcript, ee, fin), 8 + |ee| + |fin|))
  {
    var c0, c1, c2 := Start(transcript), PskAfterEe(transcript, ee), PskAfterFin(transcript, ee, fin);
    PskPlaced(env, acc, ee, fin);
    assert Asked(c0, ENCRYPTED_EXT, ee) && Asked(c1, FINISHED, fin);
    TwoSteps(env, acc, 0, c0, ENCRYPTED_EXT, ee, c1, FINISHED, fin, c2);
  }

  lemma {:induction false} PskRecovered(env: Env, side: PskSide, transcript: Bytes, acc: Bytes)
    returns (ee: Bytes, fin: Bytes)
    requires IsPskEnv(env, side) && Finishes(env, Progress(Start(transcript), 0), acc)
    ensures PskFlightIs(side.c, side.secret, transcript, acc, ee, fin)
  {
    var ty1, ty2, c1, c2;
    ty1, ee, c1 := Found(env, Start(transcript), acc, 0);
    assert Asked(Start(transcript), ty1, ee);
    assert ty1 == ENCRYPTED_EXT && c1 == PskAfterEe(transcript, ee);
    ty2, fin, c2 := Found(env, c1, acc, 4 + |ee|);
    assert Asked(c1, ty2, fin);
    assert ty2 == FINISHED;
    PskPlaced(env, acc, ee, fin);
  }

  /** The PSK driver's flight ends exactly on EncryptedExtensions and Finished that pass, and the
      transcript then runs through Finished. */
  lemma {:induction false} PskFlightExact(env: Env, side: PskSide, transcript: Bytes, acc: Bytes)
    requires IsPskEnv(env, side)
    ensures Finishes(env, Progress(Start(transcript), 0), acc) <==>
            exists ee, fin :: PskFlightIs(side.c, side.secret, transcript, acc, ee, fin)
    ensures forall ee, fin :: PskFlightIs(side.c, side.secret, transcript, acc, ee, fin) ==>
              CutAll(env, Progress(Start(transcript), 0), acc) ==
              Some(Progress(PskAfterFin(transcript, ee, fin), 8 + |ee| + |fin|))
  {
    if Finishes(env, Progress(Start(transcript), 0), acc) {
      var ee, fin := PskRecovered(env, side, transcript, acc);
    }
    forall ee, fin | PskFlightIs(side.c, side.secret, transcript, acc, ee, fin)
      ensures CutAll(env, Progress(Start(transcript), 0), acc) ==
              Some(Progress(PskAfterFin(transcript, ee, fin), 8 + |ee| + |fin|))
    {
      PskAccepted(env, side, transcript, acc, ee, fin);
    }
  }

  // ---- the certificate flight ----

  datatype CertFlight = CertFlight(ee: Bytes, cert: Bytes, cv: Bytes, fin: Bytes)
  {
    predicate Valid() { Sized(ee) && Sized(cert) && Sized(cv) && Sized(fin) }
    function M1(): Bytes { Message(ENCRYPTED_EXT, ee) }
    function M2(): Bytes { Message(CERTIFICATE, cert) }
    function M3(): Bytes { Message(CERT_VERIFY, cv) }
    function M4(): Bytes { Message(FINISHED, fin) }
    function Encode(): Bytes { M1() + M2() + M3() + M4() }
  }

  /** EncryptedExtensions, Certificate, CertificateVerify over the transcript through Certificate,
      Finished over everything before it. */
  ghost predicate CertFlightIs(side: CertSide, transcript: Bytes, acc: Bytes, f: CertFlight) {
    && f.Valid() && StartsWith(acc, f.Encode())
    && EncExtOk(f.ee, side.id.sni)
    && CertOk(side.id, f.cert)
    && SignatureOk(side.c, side.id, transcript + f.M1() + f.M2(), LeafKey(side.id, f.cert), f.cv)
    && MacOk(side.c, side.secret, transcript + f.M1() + f.M2() + f.M3(), f.fin)
  }

  /** What is known after each message. */
  ghost function AfterEe(transcript: Bytes, f: CertFlight): Core {
    Core(Flags(true, false, false), false, transcript + f.M1(), [])
  }

  ghost function AfterCert(id: Identity, transcript: Bytes, f: CertFlight): Core
    requires CertOk(id, f.cert)
  {
    Core(Flags(true, true, false), false, transcript + f.M1() + f.M2(), LeafKey(id, f.cert))
  }

  ghost function AfterCv(id: Identity, transcript: Bytes, f: CertFlight): Core
    requires CertOk(id, f.cert)
  {
    Core(Flags(true, true, true), false, transcript + f.M1() + f.M2() + f.M3(), LeafKey(id, f.cert))
  }

  ghost function AfterFin(id: Identity, transcript: Bytes, f: CertFlight): Core
    requires CertOk(id, f.cert)
  {
    Core(Flags(true, true, true), true, transcript + f.M1() + f.M2() + f.M3() + f.M4(), LeafKey(id, f.cert))
  }

  ghost predicate CertPlaced(env: Env, acc: Bytes, f: CertFlight) {
    && At(env, acc, 0, ENCRYPTED_EXT, f.ee)
    && At(env, acc, 4 + |f.ee|, CERTIFICATE, f.cert)
    && At(env, acc, 8 + |f.ee| + |f.cert|, CERT_VERIFY, f.cv)
    && At(env, acc, 12 + |f.ee| + |f.cert| + |f.cv|, FINISHED, f.fin)
  }

  lemma {:induction false} PlacedIsPrefix(env: Env, acc: Bytes, f: CertFlight)
    requires f.Valid() && !env.strict
    ensures CertPlaced(env, acc, f) <==> StartsWith(acc, f.Encode())
  {
    assert [] + f.M1() == f.M1();
    AtFront(env, acc, [], ENCRYPTED_EXT, f.ee);
    AtFront(env, acc, f.M1(), CERTIFICATE, f.cert);
    AtFront(env, acc, f.M1() + f.M2(), CERT_VERIFY, f.cv);
    AtFront(env, acc, f.M1() + f.M2() + f.M3(), FINISHED, f.fin);
  }

  /** The steps of a flight that passes. */
  lemma {:induction false} StepsEe(env: Env, side: CertSide, transcript: Bytes, f: CertFlight)
    requires IsCertEnv(env, side) && EncExtOk(f.ee, side.id.sni) && CertOk(side.id, f.cert)
    ensures env.step(Start(transcript), ENCRYPTED_EXT, f.ee) == Some(AfterEe(transcript, f))
    ensures env.step(AfterEe(transcript, f), CERTIFICATE, f.cert) == Some(AfterCert(side.id, transcript, f))
  {
    assert Asked(Start(transcript), ENCRYPTED_EXT, f.ee) && Asked(AfterEe(transcript, f), CERTIFICATE, f.cert);
  }

  lemma {:induction false} StepsCv(env: Env, side: CertSide, transcript: Bytes, acc: Bytes, f: CertFlight)
    requires IsCertEnv(env, side) && CertFlightIs(side, transcript, acc, f)
    ensures env.step(AfterCert(side.id, transcript, f), CERT_VERIFY, f.cv) == Some(AfterCv(side.id, transcript, f))
    ensures env.step(AfterCv(side.id, transcript, f), FINISHED, f.fin) == Some(AfterFin(side.id, transcript, f))
  {
    assert Asked(AfterCert(side.id, transcript, f), CERT_VERIFY, f.cv);
    assert Asked(AfterCv(side.id, transcript, f), FINISHED, f.fin);
  }

  /** What is known before and after each of four messages. */
  datatype Trail = Trail(c0: Core, c1: Core, c2: Core, c3: Core, c4: Core)
  {
    ghost predicate Leads(env: Env, f: CertFlight) {
      && !c0.done && !c1.done && !c2.done && !c3.done && c4.done
      && env.step(c0, ENCRYPTED_EXT, f.ee) == Some(c1)
      && env.step(c1, CERTIFICATE, f.cert) == Some(c2)
      && env.step(c2, CERT_VERIFY, f.cv) == Some(c3)
      && env.step(c3, FINISHED, f.fin) == Some(c4)
    }
  }

  ghost function TrailOf(id: Identity, transcript: Bytes, f: CertFlight): Trail
    requires CertOk(id, f.cert)
  {
    Trail(Start(transcript), AfterEe(transcript, f), AfterCert(id, transcript, f), AfterCv(id, transcript, f),
          AfterFin(id, transcript, f))
  }

  lemma {:induction false} TrailLeads(env: Env, side: CertSide, transcript: Bytes, acc: Bytes, f: CertFlight)
    requires IsCertEnv(env, side) && CertFlightIs(side, transcript, acc, f)
    ensures TrailOf(side.id, transcript, f).Leads(env, f)
  {
    StepsEe(env, side, transcript, f);
    StepsCv(env, side, transcript, acc, f);
  }

  /** Two pairs of messages that the reader's steps accept, whatever those steps are. */
  lemma {:induction false} FourSteps(env: Env, acc: Bytes, t: Trail, ee: Bytes, cert: Bytes, cv: Bytes, fin: Bytes)
    requires At(env, acc, 0, ENCRYPTED_EXT, ee) && At(env, acc, 4 + |ee|, CERTIFICATE, cert)
    requires var off := 8 + |ee| + |cert|;
             At(env, acc, off, CERT_VERIFY, cv) && At(env, acc, off + 4 + |cv|, FINISHED, fin)
    requires t.Leads(env, CertFlight(ee, cert, cv, fin))
    ensures CutAll(env, Progress(t.c0, 0), acc) == Some(Progress(t.c4, 16 + |ee| + |cert| + |cv| + |fin|))
  {
    var off := 8 + |ee| + |cert|;
    assert CutAll(env, Progress(t.c0, 0), acc) == CutAll(env, Progress(t.c2, off), acc) by {
      TwoSteps(env, acc, 0, t.c0, ENCRYPTED_EXT, ee, t.c1, CERTIFICATE, cert, t.c2);
    }
    assert CutAll(env, Progress(t.c2, off), acc) == CutAll(env, Progress(t.c4, off + 8 + |cv| + |fin|), acc) by {
      TwoSteps(env, acc, off, t.c2, CERT_VERIFY, cv, t.c3, FINISHED, fin, t.c4);
    }
  }

  lemma {:induction false} TrailRuns(env: Env, acc: Bytes, f: CertFlight, t: Trail)
    requires !env.strict && f.Valid() && StartsWith(acc, f.Encode()) && t.Leads(env, f)
    ensures CutAll(env, Progress(t.c0, 0), acc) == Some(Progress(t.c4, |f.Encode()|))
  {
    PlacedIsPrefix(env, acc, f);
    FourSteps(env, acc, t, f.ee, f.cert, f.cv, f.fin);
  }

  lemma {:induction false} CertAccepted(env: Env, side: CertSide, transcript: Bytes, acc: Bytes, f: CertFlight)
    requires IsCertEnv(env, side) && CertFlightIs(side, transcript, acc, f)
    ensures CutAll(env, Progress(Start(transcript), 0), acc) ==
            Some(Progress(AfterFin(side.id, transcript, f), |f.Encode()|))
  {
    TrailLeads(env, side, transcript, acc, f);
    TrailRuns(env, acc, f, TrailOf(side.id, transcript, f));
  }

  /** The next message extends the prefix read so far. */
  lemma {:induction false} FoundNext(env: Env, side: CertSide, acc: Bytes, core: Core, pre: Bytes)
    returns (ty: Byte, body: Bytes, next: Core)
    requires IsCertEnv(env, side) && StartsWith(acc, pre) && !core.done && Finishes(env, Progress(core, |pre|), acc)
    ensures Sized(body) && StartsWith(acc, pre + Message(ty, body)) && InFlightOrder(ty, core.flags)
    ensures OnCertMessage(side.c, side.secret, side.id, core, ty, body) == Some(next)
    ensures Finishes(env, Progress(next, |pre + Message(ty, body)|), acc)
  {
    ty, body, next := Found(env, core, acc, |pre|);
    assert Asked(core, ty, body);
    AtFront(env, acc, pre, ty, body);
  }

  /** Going backwards: only Finished can come last, only CertificateVerify before it, only
      Certificate before that, and only EncryptedExtensions first. */
  lemma {:induction false} LastIsFinished(env: Env, side: CertSide, transcript: Bytes, acc: Bytes, g: CertFlight)
    returns (f: CertFlight)
    requires IsCertEnv(env, side)
    requires Sized(g.ee) && Sized(g.cert) && Sized(g.cv) && EncExtOk(g.ee, side.id.sni) && CertOk(side.id, g.cert)
    requires SignatureOk(side.c, side.id, transcript + g.M1() + g.M2(), LeafKey(side.id, g.cert), g.cv)
    requires StartsWith(acc, g.M1() + g.M2() + g.M3())
    requires Finishes(env, Progress(AfterCv(side.id, transcript, g), |g.M1() + g.M2() + g.M3()|), acc)
    ensures CertFlightIs(side, transcript, acc, f)
  {
    var ty, fin, next := FoundNext(env, side, acc, AfterCv(side.id, transcript, g), g.M1() + g.M2() + g.M3());
    f := CertFlight(g.ee, g.cert, g.cv, fin);
  }

  lemma {:induction false} ThirdIsCertVerify(env: Env, side: CertSide, transcript: Bytes, acc: Bytes, g: CertFlight)
    returns (f: CertFlight)
    requires IsCertEnv(env, side)
    requires Sized(g.ee) && Sized(g.cert) && EncExtOk(g.ee, side.id.sni) && CertOk(side.id, g.cert)
    requires StartsWith(acc, g.M1() + g.M2())
    requires Finishes(env, Progress(AfterCert(side.id, transcript, g), |g.M1() + g.M2()|), acc)
    ensures CertFlightIs(side, transcript, acc, f)
  {
    var ty, cv, next := FoundNext(env, side, acc, AfterCert(side.id, transcript, g), g.M1() + g.M2());
    f := LastIsFinished(env, side, transcript, acc, CertFlight(g.ee, g.cert, cv, []));
  }

  lemma {:induction false} SecondIsCertificate(env: Env, side: CertSide, transcript: Bytes, acc: Bytes, g: CertFlight)
    returns (f: CertFlight)
    requires IsCertEnv(env, side)
    requires Sized(g.ee) && EncExtOk(g.ee, side.id.sni) && StartsWith(acc, g.M1())
    requires Finishes(env, Progress(AfterEe(transcript, g), |g.M1()|), acc)
    ensures CertFlightIs(side, transcript, acc, f)
  {
    var ty, cert, next := FoundNext(env, side, acc, AfterEe(transcript, g), g.M1());
    f := ThirdIsCertVerify(env, side, transcript, acc, CertFlight(g.ee, cert, [], []));
  }

  lemma {:induction false} CertRecovered(env: Env, side: CertSide, transcript: Bytes, acc: Bytes)
      returns (f: CertFlight)
    requires IsCertEnv(env, side) && Finishes(env, Progress(Start(transcript), 0), acc)
    ensures CertFlightIs(side, transcript, acc, f)
  {
    var ty, ee, next := FoundNext(env, side, acc, Start(transcript), []);
    assert [] + Message(ty, ee) == Message(ty, ee);
    f := SecondIsCertificate(env, side, transcript, acc, CertFlight(ee, [], [], []));
  }

  /** The certificate driver's flight ends exactly on EncryptedExtensions, Certificate,
      CertificateVerify and Finished that pass; the transcript then runs through Finished. */
  lemma {:induction false} CertFlightExact(env: Env, side: CertSide, transcript: Bytes, acc: Bytes)
    requires IsCertEnv(env, side)
    ensures Finishes(env, Progress(Start(transcript), 0), acc) <==> exists f :: CertFlightIs(side, transcript, acc, f)
    ensures forall f :: CertFlightIs(side, transcript, acc, f) ==>
              CutAll(env, Progress(Start(transcript), 0), acc) ==
              Some(Progress(AfterFin(side.id, transcript, f), |f.Encode()|))
  {
    if Finishes(env, Progress(Start(transcript), 0), acc) {
      var f := CertRecovered(env, side, transcript, acc);
    }
    forall f | CertFlightIs(side, transcript, acc, f)
      ensures CutAll(env, Progress(Start(transcript), 0), acc) ==
              Some(Progress(AfterFin(side.id, transcript, f), |f.Encode()|))
    {
      CertAccepted(env, side, transcript, acc, f);
    }
  }
}
