/** Two endpoints over reliable ordered queues: both directions stay synchronised. */
module KeySync {
  import opened Base
  import opened Crypto
  import opened Record
  import opened KeySchedule
  import opened SessionSpec
  import opened NonceSafety
  import opened PostMessages

  // ---- the read side of either endpoint ----

  /** Walk the messages of a post-handshake record, rekeying at each KeyUpdate. */
  function ReadMsgs(c: Suite, h: Half, msg: Bytes): Option<Half>
    decreases |msg|
  {
    if msg == [] then Some(h)
    else if msg[0] == NEW_SESSION_TICKET then
      if |msg| < 4 || 4 + GetU24(msg, 1) > |msg| then None else ReadMsgs(c, h, msg[4 + GetU24(msg, 1)..])
    else if msg[0] == KEY_UPDATE then
      if |msg| < 5 || GetU24(msg, 1) != 1 || msg[4] > 1 || Rekey(c, h).1 != Success then None
      else ReadMsgs(c, Rekey(c, h).0.(count := 0), msg[5..])
    else None
  }

  /** Receive one record. */
  function ReadRecord(c: Suite, h: Half, rec: Bytes): Option<Half>
    requires h.Valid()
  {
    match OpenRecord(c, h.key, h.iv, h.SeqNo(), rec)
    case OpenError(_) => None
    case Opened(ty, content) =>
      if ty == APPDATA then Some(h.Bump())
      else if ty == HANDSHAKE then ReadMsgs(c, h.Bump(), content)
      else None
  }

  /** Receive everything that is in flight. */
  function Drain(c: Suite, h: Half, queue: seq<Bytes>): Option<Half>
    decreases |queue|
  {
    if queue == [] then Some(h)
    else if !h.Valid() then None
    else
      var next := ReadRecord(c, h, queue[0]);
      if next.None? then None else Drain(c, next.value, queue[1..])
  }

  lemma {:induction false} DrainAppend(c: Suite, h: Half, queue: seq<Bytes>, more: seq<Bytes>)
    requires Drain(c, h, queue).Some?
    ensures Drain(c, h, queue + more) == Drain(c, Drain(c, h, queue).value, more)
    decreases |queue|
  {
    if queue == [] {
      assert queue + more == more;
    } else {
      assert (queue + more)[1..] == queue[1..] + more;
      DrainAppend(c, ReadRecord(c, h, queue[0]).value, queue[1..], more);
    }
  }

  lemma {:induction false} DrainOne(c: Suite, h: Half, rec: Bytes)
    requires h.Valid()
    ensures Drain(c, h, [rec]) == ReadRecord(c, h, rec)
  {
    assert [rec][1..] == [];
  }

  /** Opening what the same half sealed. */
  lemma {:induction false} OpensOwnSeal(c: Suite, h: Half, ty: Byte, content: Bytes)
    requires c.Valid() && h.Valid() && ty != 0
    ensures OpenRecord(c, h.key, h.iv, h.SeqNo(), SealRecord(c, h.key, h.iv, h.SeqNo(), ty, content)) ==
            Opened(ty, content)
  {
    OpensSealed(c, h.key, h.iv, h.SeqNo(), ty, content);
  }

  lemma {:induction false} ReadsUpdate(c: Suite, h: Half, requested: bool)
    requires Rekey(c, h).1 == Success
    ensures ReadMsgs(c, h, UpdateMsg(requested)) == Some(Rekey(c, h).0.(count := 0))
  {
    var msg := UpdateMsg(requested);
    assert GetU24(msg, 1) == 1;
    assert msg[5..] == [];
  }

  /** The reader parses a compliant record to its end and rekeys exactly if it holds a KeyUpdate. */
  lemma {:induction false} ReadsPostHandshake(c: Suite, h: Half, bodies: seq<Bytes>, update: Option<bool>)
    requires Encodable(bodies) && (update.Some? ==> Rekey(c, h).1 == Success)
    ensures ReadMsgs(c, h, PostHandshake(bodies, update)) ==
            Some(if update.None? then h else Rekey(c, h).0.(count := 0))
    decreases |bodies|
  {
    if bodies == [] {
      if update.Some? {
        assert PostHandshake(bodies, update) == UpdateMsg(update.value);
        ReadsUpdate(c, h, update.value);
      }
    } else {
      TicketFirst(bodies, update, []);
      assert PostHandshake(bodies, update) + [] == PostHandshake(bodies, update);
      assert PostHandshake(bodies[1..], update) + [] == PostHandshake(bodies[1..], update);
      ReadsPostHandshake(c, h, bodies[1..], update);
    }
  }

  /** A record that ends inside a message does not read. */
  lemma {:induction false} TailStops(c: Suite, h: Half, tail: Bytes)
    requires Incomplete(tail)
    ensures ReadMsgs(c, h, tail) == None
  {
    var m: Msg :| m.Valid() && tail < m.Encode();
    assert tail[0] == m.Encode()[0];
    if m.Ticket? && |tail| >= 4 {
      MessageParts(NEW_SESSION_TICKET, m.body, []);
      assert m.Encode() + [] == m.Encode();
      assert GetU24(tail, 1) == GetU24(m.Encode(), 1);
    }
  }

  lemma {:induction false} PartialStops(c: Suite, h: Half, bodies: seq<Bytes>, tail: Bytes)
    requires Encodable(bodies) && Incomplete(tail)
    ensures ReadMsgs(c, h, PostHandshake(bodies, None) + tail) == None
    decreases |bodies|
  {
    if bodies == [] {
      TailStops(c, h, tail);
      assert PostHandshake(bodies, None) + tail == tail;
    } else {
      TicketFirst(bodies, None, tail);
      PartialStops(c, h, bodies[1..], tail);
    }
  }

  // ---- the client's own sends ----

  ghost function Wires(c: Suite, sent: seq<Emission>): (r: seq<Bytes>)
    requires forall e <- sent :: e.half.Valid()
    ensures |r| == |sent|
  {
    seq(|sent|, i requires 0 <= i < |sent| => assert sent[i] in sent; sent[i].Wire(c))
  }

  /** The records emitted on the way from one state to a later one. */
  ghost function Since(c: Suite, before: State, after: State): seq<Bytes>
    requires after.Valid() && |before.emitted| <= |after.emitted|
  {
    Wires(c, after.emitted[|before.emitted|..])
  }

  /** A reader at the client's old write state, given what the client emitted, ends at its new one. */
  ghost predicate Follows(c: Suite, before: State, after: State)
    requires after.Valid()
  {
    && |before.emitted| <= |after.emitted|
    && Drain(c, before.tx, Since(c, before, after)) == Some(after.tx)
  }

  lemma {:induction false} NothingFollows(c: Suite, before: State, after: State)
    requires after.Valid() && after.tx == before.tx && after.emitted == before.emitted
    ensures Follows(c, before, after)
  {
    assert Since(c, before, after) == [];
  }

  lemma {:induction false} FollowsTransitive(c: Suite, a: State, b: State, d: State)
    requires b.Valid() && d.Valid() && b.emitted <= d.emitted && Follows(c, a, b) && Follows(c, b, d)
    ensures Follows(c, a, d)
  {
    assert Since(c, a, d) == Since(c, a, b) + Since(c, b, d);
    DrainAppend(c, a.tx, Since(c, a, b), Since(c, b, d));
  }

  lemma {:induction false} DataFollows(c: Suite, s: State, data: Bytes)
    requires c.Valid() && s.Valid()
    ensures Emit(s, APPDATA, data).0.Valid() && Follows(c, s, Emit(s, APPDATA, data).0)
  {
    var after := Emit(s, APPDATA, data).0;
    var rec := Emission(s.tx, APPDATA, data).Wire(c);
    assert Since(c, s, after) == [rec];
    OpensOwnSeal(c, s.tx, APPDATA, data);
    DrainOne(c, s.tx, rec);
  }

  lemma {:induction false} ReplyFollows(c: Suite, s: State)
    requires c.Valid() && s.Valid() && SendKeyUpdate(c, s).1 == Success
    ensures SendKeyUpdate(c, s).0.Valid() && s.emitted <= SendKeyUpdate(c, s).0.emitted
            && Follows(c, s, SendKeyUpdate(c, s).0)
  {
    var after := SendKeyUpdate(c, s).0;
    ApplyKeepsValid(c, s, false);
    var rec := Emission(s.tx, HANDSHAKE, KU_REPLY).Wire(c);
    assert after.Valid();
    assert Since(c, s, after) == [rec];
    OpensOwnSeal(c, s.tx, HANDSHAKE, KU_REPLY);
    ReadsUpdate(c, s.tx.Bump(), false);
    DrainOne(c, s.tx, rec);
  }

  /** A handled post-handshake record: the read side moves as ReadMsgs says, and whatever was
      answered takes a reader of the answers to the new write state. */
  lemma {:induction false} PostHsFollows(c: Suite, s: State, msg: Bytes)
    requires c.Valid() && s.Valid() && PostHs(c, s, msg).1 == Success
    ensures var after := PostHs(c, s, msg).0;
            && after.Valid() && s.emitted <= after.emitted && Follows(c, s, after)
            && ReadMsgs(c, s.rx, msg) == Some(after.rx)
    decreases |msg|
  {
    PostHsKeepsValid(c, s, msg);
    if msg == [] {
      NothingFollows(c, s, s);
    } else if msg[0] == NEW_SESSION_TICKET {
      PostHsFollows(c, s, msg[4 + GetU24(msg, 1)..]);
    } else {
      var next := ApplyKeyUpdate(c, s, msg[4] == 1).0;
      ApplyKeepsValid(c, s, msg[4] == 1);
      UpdateFollows(c, s, msg[4] == 1);
      PostHsFollows(c, next, msg[5..]);
      FollowsTransitive(c, s, next, PostHs(c, next, msg[5..]).0);
    }
  }

  lemma {:induction false} UpdateFollows(c: Suite, s: State, requested: bool)
    requires c.Valid() && s.Valid() && ApplyKeyUpdate(c, s, requested).1 == Success
    ensures var next := ApplyKeyUpdate(c, s, requested).0;
            && next.Valid() && s.emitted <= next.emitted && Follows(c, s, next)
            && Rekey(c, s.rx).1 == Success && next.rx == Rekey(c, s.rx).0.(count := 0)
  {
    ApplyKeepsValid(c, s, requested);
    var rekeyed := s.(rx := Rekey(c, s.rx).0.(count := 0));
    assert rekeyed.Valid();
    NothingFollows(c, s, rekeyed);
    if requested {
      ReplyFollows(c, rekeyed);
      FollowsTransitive(c, s, rekeyed, SendKeyUpdate(c, rekeyed).0);
    }
  }

  // ---- the two endpoints ----

  /** A record on its way to the client; whole if the peer's message stream stands between two
      messages behind it. */
  datatype Flying = Flying(rec: Bytes, whole: bool)

  /** `begun` is what the peer has sent of a message it has not finished. */
  datatype Net = Net(client: State, peerTx: Half, peerRx: Half, begun: Bytes, toClient: seq<Flying>,
      toPeer: seq<Bytes>)
  {
    ghost predicate Valid() { client.Valid() && peerTx.Valid() && peerRx.Valid() }
  }

  /** The peer's handshake record carries any nonempty part of its message stream: with what it had
      begun, these complete messages and then the beginning of another. A KeyUpdate ends its record,
      and no other record comes between the parts of a message (section 5.1 of RFC 8446). */
  datatype Event =
    | ClientSends(data: Bytes)
    | ClientReceives(outCap: nat)
    | PeerSendsData(data: Bytes)
    | PeerSendsHandshake(content: Bytes, bodies: seq<Bytes>, update: Option<bool>, tail: Bytes)
    | PeerReceives

  ghost predicate Continues(begun: Bytes, content: Bytes, bodies: seq<Bytes>, update: Option<bool>, tail: Bytes) {
    && content != [] && Encodable(bodies) && begun + content == PostHandshake(bodies, update) + tail
    && (tail != [] ==> update.None? && Incomplete(tail))
  }

  function SealedBy(c: Suite, h: Half, ty: Byte, content: Bytes): Bytes
    requires h.Valid()
  {
    SealRecord(c, h.key, h.iv, h.SeqNo(), ty, content)
  }

  /** The peer's write state after a handshake record. */
  function AfterHandshake(c: Suite, h: Half, update: Option<bool>): Half {
    if update.None? then h.Bump() else Rekey(c, h.Bump()).0.(count := 0)
  }

  /** One step of either endpoint; None if it is not possible or a call fails. */
  ghost function Next(c: Suite, net: Net, ev: Event, scratchLen: nat): Option<Net>
    requires c.Valid() && net.Valid()
  {
    match ev
    case ClientSends(data) =>
      var (after, code) := Send(net.client, data, scratchLen);
      if code != Success then None
      else Some(net.(client := after, toPeer := net.toPeer + Since(c, net.client, after)))
    case ClientReceives(outCap) =>
      if net.toClient == [] then None
      else
        var r := Accept(c, net.client, net.toClient[0].rec, outCap);
        if r.code != Success then None
        else
          AcceptFollows(c, net.client, net.toClient[0].rec, outCap);
          Some(net.(client := r.s, toClient := net.toClient[1..], toPeer := net.toPeer + Since(c, net.client, r.s)))
    case PeerSendsData(data) =>
      if net.begun != [] then None
      else Some(PeerSent(c, net, APPDATA, data, net.peerTx.Bump(), []))
    case PeerSendsHandshake(content, bodies, update, tail) =>
      if !Continues(net.begun, content, bodies, update, tail) then None
      else if update.Some? && Rekey(c, net.peerTx.Bump()).1 != Success then None
      else Some(PeerSent(c, net, HANDSHAKE, content, AfterHandshake(c, net.peerTx, update), tail))
    case PeerReceives =>
      if net.toPeer == [] then None
      else
        var h := ReadRecord(c, net.peerRx, net.toPeer[0]);
        if h.None? then None else Some(net.(peerRx := h.value, toPeer := net.toPeer[1..]))
  }

  /** The peer has sealed one more record. */
  function PeerSent(c: Suite, net: Net, ty: Byte, content: Bytes, after: Half, tail: Bytes): Net
    requires net.peerTx.Valid()
  {
    var rec := SealedBy(c, net.peerTx, ty, content);
    net.(peerTx := after, begun := tail, toClient := net.toClient + [Flying(rec, tail == [])])
  }

  ghost predicate AllWhole(queue: seq<Flying>) { forall f <- queue :: f.whole }

  function Recs(queue: seq<Flying>): (r: seq<Bytes>)
    ensures |r| == |queue|
  {
    seq(|queue|, i requires 0 <= i < |queue| => queue[i].rec)
  }

  /** A reader gets over the whole records in front, ends exactly at the peer's write state if all
      are, and is stopped by the first that is not. */
  ghost predicate Reads(c: Suite, h: Half, queue: seq<Flying>, tx: Half, begun: Bytes)
    decreases |queue|
  {
    if queue == [] then h == tx && begun == []
    else
      && h.Valid()
      && var next := ReadRecord(c, h, queue[0].rec);
         if queue[0].whole then next.Some? && Reads(c, next.value, queue[1..], tx, begun) else next == None
  }

  /** Both directions: what is in flight leads each receiver to its sender. */
  ghost predicate Synced(c: Suite, net: Net) {
    && Reads(c, net.client.rx, net.toClient, net.peerTx, net.begun)
    && Drain(c, net.peerRx, net.toPeer) == Some(net.client.tx)
  }

  lemma {:induction false} AcceptFollows(c: Suite, s: State, rec: Bytes, outCap: nat)
    requires c.Valid() && s.Valid() && Accept(c, s, rec, outCap).code == Success
    ensures var r := Accept(c, s, rec, outCap);
            && r.s.Valid() && Follows(c, s, r.s)
            && ReadRecord(c, s.rx, rec) == Some(r.s.rx)
  {
    AcceptKeepsValid(c, s, rec, outCap);
    var o := OpenRecord(c, s.rx.key, s.rx.iv, s.rx.SeqNo(), rec);
    var next := Advanced(s, o);
    NothingFollows(c, s, next);
    if o.ty == HANDSHAKE {
      PostHsFollows(c, next, o.content);
      FollowsTransitive(c, s, next, PostHs(c, next, o.content).0);
    }
  }

  lemma {:induction false} ReadKeepsValid(c: Suite, h: Half, rec: Bytes)
    requires c.Valid() && h.Valid() && ReadRecord(c, h, rec).Some?
    ensures ReadRecord(c, h, rec).value.Valid()
  {
    var o := OpenRecord(c, h.key, h.iv, h.SeqNo(), rec);
    if o.ty == HANDSHAKE {
      ReadMsgsKeepsValid(c, h.Bump(), o.content);
    }
  }

  lemma {:induction false} ReadMsgsKeepsValid(c: Suite, h: Half, msg: Bytes)
    requires c.Valid() && h.Valid() && ReadMsgs(c, h, msg).Some?
    ensures ReadMsgs(c, h, msg).value.Valid()
    decreases |msg|
  {
    if msg == [] {
    } else if msg[0] == NEW_SESSION_TICKET {
      ReadMsgsKeepsValid(c, h, msg[4 + GetU24(msg, 1)..]);
    } else {
      ReadMsgsKeepsValid(c, Rekey(c, h).0.(count := 0), msg[5..]);
    }
  }

  /** One more record behind a queue. */
  lemma {:induction false} ReadsAppend(c: Suite, h: Half, queue: seq<Flying>, tx: Half, begun: Bytes, f: Flying,
      after: Half, tail: Bytes)
    requires Reads(c, h, queue, tx, begun) && tx.Valid() && f.whole == (tail == [])
    requires AllWhole(queue) ==> ReadRecord(c, tx, f.rec) == if f.whole then Some(after) else None
    ensures Reads(c, h, queue + [f], after, tail)
    decreases |queue|
  {
    if queue == [] {
      assert queue + [f] == [f] && [f][1..] == [];
    } else {
      assert (queue + [f])[0] == queue[0] && (queue + [f])[1..] == queue[1..] + [f];
      if queue[0].whole {
        assert AllWhole(queue[1..]) ==> AllWhole(queue);
        ReadsAppend(c, ReadRecord(c, h, queue[0].rec).value, queue[1..], tx, begun, f, after, tail);
      }
    }
  }

  /** While all in flight is whole, nothing is begun. */
  lemma {:induction false} WholeIsComplete(c: Suite, h: Half, queue: seq<Flying>, tx: Half, begun: Bytes)
    requires Reads(c, h, queue, tx, begun)
    ensures AllWhole(queue) <==> Drain(c, h, Recs(queue)).Some?
    ensures AllWhole(queue) ==> begun == [] && Drain(c, h, Recs(queue)) == Some(tx)
    decreases |queue|
  {
    if queue != [] {
      assert Recs(queue)[0] == queue[0].rec && Recs(queue)[1..] == Recs(queue[1..]);
      if queue[0].whole {
        WholeIsComplete(c, ReadRecord(c, h, queue[0].rec).value, queue[1..], tx, begun);
        assert AllWhole(queue) <==> AllWhole(queue[1..]) by {
          assert queue == [queue[0]] + queue[1..];
        }
      }
    }
  }

  lemma {:induction false} ClientSynced(c: Suite, net: Net, after: State, toClient: seq<Flying>)
    requires c.Valid() && net.Valid() && after.Valid() && Synced(c, net) && Follows(c, net.client, after)
    requires Reads(c, after.rx, toClient, net.peerTx, net.begun)
    ensures Synced(c, net.(client := after, toClient := toClient, toPeer := net.toPeer + Since(c, net.client, after)))
  {
    DrainAppend(c, net.peerRx, net.toPeer, Since(c, net.client, after));
  }

  lemma {:induction false} ClientNextSynced(c: Suite, net: Net, ev: Event, scratchLen: nat)
    requires c.Valid() && net.Valid() && Synced(c, net) && Next(c, net, ev, scratchLen).Some?
    requires ev.ClientSends? || ev.ClientReceives?
    ensures Next(c, net, ev, scratchLen).value.Valid() && Synced(c, Next(c, net, ev, scratchLen).value)
  {
    if ev.ClientSends? {
      DataFollows(c, net.client, ev.data);
      ClientSynced(c, net, Emit(net.client, APPDATA, ev.data).0, net.toClient);
    } else {
      var r := Accept(c, net.client, net.toClient[0].rec, ev.outCap);
      AcceptFollows(c, net.client, net.toClient[0].rec, ev.outCap);
      ClientSynced(c, net, r.s, net.toClient[1..]);
    }
  }

  /** A reader at the peer's state follows the whole records the peer sends, and no others. */
  lemma {:induction false} ReadsBackHandshake(
      c: Suite, h: Half, content: Bytes, bodies: seq<Bytes>, update: Option<bool>, tail: Bytes)
    requires c.Valid() && h.Valid() && Continues([], content, bodies, update, tail)
    requires update.Some? ==> Rekey(c, h.Bump()).1 == Success
    ensures ReadRecord(c, h, SealedBy(c, h, HANDSHAKE, content)) ==
            if tail == [] then Some(AfterHandshake(c, h, update)) else None
  {
    OpensOwnSeal(c, h, HANDSHAKE, content);
    assert [] + content == content;
    if tail == [] {
      assert PostHandshake(bodies, update) + [] == PostHandshake(bodies, update);
      ReadsPostHandshake(c, h.Bump(), bodies, update);
    } else {
      PartialStops(c, h.Bump(), bodies, tail);
    }
  }

  lemma {:induction false} PeerNextSynced(c: Suite, net: Net, ty: Byte, content: Bytes, after: Half, tail: Bytes)
    requires c.Valid() && net.Valid() && Synced(c, net)
    requires AllWhole(net.toClient) ==>
               ReadRecord(c, net.peerTx, SealedBy(c, net.peerTx, ty, content)) ==
               if tail == [] then Some(after) else None
    ensures Synced(c, PeerSent(c, net, ty, content, after, tail))
  {
    var f := Flying(SealedBy(c, net.peerTx, ty, content), tail == []);
    ReadsAppend(c, net.client.rx, net.toClient, net.peerTx, net.begun, f, after, tail);
  }

  lemma {:induction false} PeerDataSynced(c: Suite, net: Net, data: Bytes, scratchLen: nat)
    requires c.Valid() && net.Valid() && Synced(c, net) && net.begun == []
    ensures var next := PeerSent(c, net, APPDATA, data, net.peerTx.Bump(), []); next.Valid() && Synced(c, next)
  {
    OpensOwnSeal(c, net.peerTx, APPDATA, data);
    PeerNextSynced(c, net, APPDATA, data, net.peerTx.Bump(), []);
  }

  lemma {:induction false} HandshakeReadBack(
      c: Suite, net: Net, content: Bytes, bodies: seq<Bytes>, update: Option<bool>, tail: Bytes)
    requires c.Valid() && net.Valid() && Synced(c, net) && Continues(net.begun, content, bodies, update, tail)
    requires update.Some? ==> Rekey(c, net.peerTx.Bump()).1 == Success
    ensures AllWhole(net.toClient) ==>
              ReadRecord(c, net.peerTx, SealedBy(c, net.peerTx, HANDSHAKE, content)) ==
              if tail == [] then Some(AfterHandshake(c, net.peerTx, update)) else None
  {
    WholeIsComplete(c, net.client.rx, net.toClient, net.peerTx, net.begun);
    if AllWhole(net.toClient) {
      ReadsBackHandshake(c, net.peerTx, content, bodies, update, tail);
    }
  }

  lemma {:induction false} PeerHandshakeSynced(
      c: Suite, net: Net, content: Bytes, bodies: seq<Bytes>, update: Option<bool>, tail: Bytes)
    requires c.Valid() && net.Valid() && Synced(c, net) && Continues(net.begun, content, bodies, update, tail)
    requires update.Some? ==> Rekey(c, net.peerTx.Bump()).1 == Success
    ensures var next := PeerSent(c, net, HANDSHAKE, content, AfterHandshake(c, net.peerTx, update), tail);
            next.Valid() && Synced(c, next)
  {
    assert AfterHandshake(c, net.peerTx, update).Valid();
    HandshakeReadBack(c, net, content, bodies, update, tail);
    PeerNextSynced(c, net, HANDSHAKE, content, AfterHandshake(c, net.peerTx, update), tail);
  }

  lemma {:induction false} NextSynced(c: Suite, net: Net, ev: Event, scratchLen: nat)
    requires c.Valid() && net.Valid() && Synced(c, net) && Next(c, net, ev, scratchLen).Some?
    ensures Next(c, net, ev, scratchLen).value.Valid() && Synced(c, Next(c, net, ev, scratchLen).value)
  {
    match ev {
      case ClientSends(_) => ClientNextSynced(c, net, ev, scratchLen);
      case ClientReceives(_) => ClientNextSynced(c, net, ev, scratchLen);
      case PeerReceives => ReadKeepsValid(c, net.peerRx, net.toPeer[0]);
      case PeerSendsData(data) => PeerDataSynced(c, net, data, scratchLen);
      case PeerSendsHandshake(content, bodies, update, tail) => PeerHandshakeSynced(c, net, content, bodies, update,
        tail);
    }
  }

  ghost function Execute(c: Suite, net: Net, events: seq<Event>, scratchLen: nat): Option<Net>
    requires c.Valid() && net.Valid()
    decreases |events|
  {
    if events == [] then Some(net)
    else
      var next := Next(c, net, events[0], scratchLen);
      if next.None? || !next.value.Valid() then None else Execute(c, next.value, events[1..], scratchLen)
  }

  ghost function Start(c: Suite, cs: Bytes, ss: Bytes, answers: seq<int>): Net {
    Net(Established(c, cs, ss, answers), HalfAt(c, ss, 0, 0), HalfAt(c, cs, 0, 0), [], [], [])
  }

  lemma {:induction false} ExecuteSynced(c: Suite, net: Net, events: seq<Event>, scratchLen: nat)
    requires c.Valid() && net.Valid() && Synced(c, net) && Execute(c, net, events, scratchLen).Some?
    ensures Execute(c, net, events, scratchLen).value.Valid() && Synced(c, Execute(c, net, events, scratchLen).value)
    decreases |events|
  {
    if events != [] {
      NextSynced(c, net, events[0], scratchLen);
      ExecuteSynced(c, Next(c, net, events[0], scratchLen).value, events[1..], scratchLen);
    }
  }

  /** For any interleaving of sends, receives, key updates and split messages in which no call failed:
      folding the receive step over the records in flight succeeds exactly if every one of them ends
      between two messages, and then takes each receiver's secret, key, iv and sequence number to
      exactly the sender's; otherwise the first record that ends inside a message is the one that
      stops it. Towards the peer it always goes through. */
  lemma {:induction false} AlwaysSynced(c: Suite, cs: Bytes, ss: Bytes, answers: seq<int>, events: seq<Event>,
      scratchLen: nat)
    requires c.Valid() && |cs| == HASH_SZ && |ss| == HASH_SZ
    requires Execute(c, Start(c, cs, ss, answers), events, scratchLen).Some?
    ensures var net := Execute(c, Start(c, cs, ss, answers), events, scratchLen).value;
            && (Drain(c, net.client.rx, Recs(net.toClient)).Some? <==> AllWhole(net.toClient))
            && (AllWhole(net.toClient) ==> Drain(c, net.client.rx, Recs(net.toClient)) == Some(net.peerTx))
            && (!AllWhole(net.toClient) ==> exists w :: StopsAt(c, net.client.rx, net.toClient, w))
            && Drain(c, net.peerRx, net.toPeer) == Some(net.client.tx)
  {
    ExecuteSynced(c, Start(c, cs, ss, answers), events, scratchLen);
    var net := Execute(c, Start(c, cs, ss, answers), events, scratchLen).value;
    WholeIsComplete(c, net.client.rx, net.toClient, net.peerTx, net.begun);
    if !AllWhole(net.toClient) {
      var w := StopsInsideMessage(c, net.client.rx, net.toClient, net.peerTx, net.begun);
    }
  }

  /** Record w ends inside a message and does not read; all before it do. */
  ghost predicate StopsAt(c: Suite, h: Half, queue: seq<Flying>, w: nat) {
    && w < |queue| && !queue[w].whole && AllWhole(queue[..w])
    && Drain(c, h, Recs(queue[..w])).Some? && Drain(c, h, Recs(queue[..w + 1])) == None
  }

  lemma {:induction false} DrainFirst(c: Suite, h: Half, queue: seq<Flying>, v: nat)
    requires h.Valid() && v < |queue| && ReadRecord(c, h, queue[0].rec).Some?
    ensures Drain(c, h, Recs(queue[..v + 1])) == Drain(c, ReadRecord(c, h, queue[0].rec).value, Recs(queue[1..][..v]))
  {
    assert Recs(queue[..v + 1])[0] == queue[0].rec;
    assert Recs(queue[..v + 1])[1..] == Recs(queue[1..][..v]);
  }

  lemma {:induction false} StopsInsideMessage(c: Suite, h: Half, queue: seq<Flying>, tx: Half, begun: Bytes)
      returns (w: nat)
    requires Reads(c, h, queue, tx, begun) && !AllWhole(queue)
    ensures StopsAt(c, h, queue, w)
    decreases |queue|
  {
    if queue[0].whole {
      assert !AllWhole(queue[1..]) by { assert queue == [queue[0]] + queue[1..]; }
      var next := ReadRecord(c, h, queue[0].rec).value;
      var v := StopsInsideMessage(c, next, queue[1..], tx, begun);
      w := v + 1;
      assert AllWhole(queue[..w]) by { assert queue[..w] == [queue[0]] + queue[1..][..v]; }
      DrainFirst(c, h, queue, v);
      DrainFirst(c, h, queue, v + 1);
    } else {
      w := 0;
      assert Recs(queue[..0]) == [];
      assert Recs(queue[..1]) == [queue[0].rec];
      DrainOne(c, h, queue[0].rec);
    }
  }

  // ---- the next record ----

  /** A record of a tickets-and-update shape is answered as its update asks. */
  lemma {:induction false} HandshakeHandled(c: Suite, s: State, msg: Bytes)
    requires ReadMsgs(c, s.rx, msg).Some? && |Updates(msg)| <= 1
    ensures PostHs(c, s, msg).1 ==
            if Updates(msg) == [true] then SendKeyUpdate(c, s.(rx := Rekey(c, s.rx).0.(count := 0))).1 else Success
    decreases |msg|
  {
    if msg == [] {
    } else if msg[0] == NEW_SESSION_TICKET {
      HandshakeHandled(c, s, msg[4 + GetU24(msg, 1)..]);
    } else {
      var requested := msg[4] == 1;
      var (next, code) := ApplyKeyUpdate(c, s, requested);
      assert Updates(msg) == [requested] + Updates(msg[5..]) && |Updates(msg[5..])| == 0;
      assert Updates(msg)[0] == requested;
      if requested {
        assert Updates(msg) == [true];
        assert code == SendKeyUpdate(c, s.(rx := Rekey(c, s.rx).0.(count := 0))).1;
      }
      if code == Success {
        assert next.rx == Rekey(c, s.rx).0.(count := 0);
        HandshakeHandled(c, next, msg[5..]);
      }
    }
  }

  /** In a synchronised state the next whole record in flight authenticates and parses. Data fails
      exactly if the caller's buffer is too small for it; a handshake record with at most one
      KeyUpdate fails exactly if the answer that it asks for does. */
  lemma {:induction false} NextRecordIsHandled(c: Suite, net: Net, outCap: nat)
    requires c.Valid() && net.Valid() && Synced(c, net) && net.toClient != [] && net.toClient[0].whole
    ensures var s, rec := net.client, net.toClient[0].rec;
            var o := OpenRecord(c, s.rx.key, s.rx.iv, s.rx.SeqNo(), rec);
            var code := Accept(c, s, rec, outCap).code;
            && o.Opened?
            && (o.ty == APPDATA ==> code == if |o.content| <= outCap then Success else InvalidArg)
            && (o.ty != APPDATA ==> o.ty == HANDSHAKE)
            && (o.ty == HANDSHAKE && |Updates(o.content)| <= 1 ==>
                  code == if Updates(o.content) != [true] then Success else
                    SendKeyUpdate(c, Advanced(s, o).(rx := Rekey(c, s.rx.Bump()).0.(count := 0))).1)
  {
    var s, rec := net.client, net.toClient[0].rec;
    var o := OpenRecord(c, s.rx.key, s.rx.iv, s.rx.SeqNo(), rec);
    if o.ty == HANDSHAKE && |Updates(o.content)| <= 1 {
      HandshakeHandled(c, Advanced(s, o), o.content);
    }
  }
}
