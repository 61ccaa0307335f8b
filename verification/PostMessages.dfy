/** The messages that may follow the handshake, as a peer sends them and as the session reads them. */
module PostMessages {
  import opened Base
  import opened Crypto
  import opened Record
  import opened KeySchedule
  import opened SessionSpec

  datatype Msg = Ticket(body: Bytes) | Update(requested: bool)
  {
    predicate Valid() { Ticket? ==> |body| < 0x100_0000 }

    function Encode(): Bytes {
      match this
      case Ticket(body) => Message(NEW_SESSION_TICKET, body)
      case Update(requested) => UpdateMsg(requested)
    }
  }

  function UpdateMsg(requested: bool): (r: Bytes)
    ensures |r| == 5
  {
    [KEY_UPDATE, 0, 0, 1, if requested then 1 else 0]
  }

  ghost predicate AllValid(msgs: seq<Msg>) { forall m <- msgs :: m.Valid() }

  function EncodeAll(msgs: seq<Msg>): Bytes {
    if msgs == [] then [] else msgs[0].Encode() + EncodeAll(msgs[1..])
  }

  // ---- what the session reads ----

  /** The KeyUpdates of a record that the parser reaches: was an answer requested? */
  function Updates(msg: Bytes): seq<bool>
    decreases |msg|
  {
    if msg == [] then []
    else if msg[0] == NEW_SESSION_TICKET then
      if |msg| < 4 || 4 + GetU24(msg, 1) > |msg| then [] else Updates(msg[4 + GetU24(msg, 1)..])
    else if msg[0] == KEY_UPDATE then
      if |msg| < 5 || GetU24(msg, 1) != 1 || msg[4] > 1 then [] else [msg[4] == 1] + Updates(msg[5..])
    else []
  }

  function Requests(updates: seq<bool>): nat {
    if updates == [] then 0 else (if updates[0] then 1 else 0) + Requests(updates[1..])
  }

  /** The size of a KeyUpdate record of the client. */
  const REPLY_SZ: nat := 5 + OVERHEAD

  /** The transport takes this many replies whole. */
  predicate RepliesTaken(answers: seq<int>, q: nat) {
    q <= |answers| && forall i :: 0 <= i < q ==> answers[i] == REPLY_SZ
  }

  lemma {:induction false} UpdateAt(msg: Bytes)
    requires |msg| >= 5 && msg[0] == KEY_UPDATE && GetU24(msg, 1) == 1 && msg[4] <= 1
    ensures msg == Update(msg[4] == 1).Encode() + msg[5..]
  {
    assert msg[1] == 0 && msg[2] == 0 && msg[3] == 1;
    assert msg == msg[..5] + msg[5..];
  }

  lemma {:induction false} TicketAt(msg: Bytes)
    requires |msg| >= 4 && msg[0] == NEW_SESSION_TICKET && 4 + GetU24(msg, 1) <= |msg|
    ensures var n := GetU24(msg, 1);
            Ticket(msg[4..4 + n]).Valid() && msg == Ticket(msg[4..4 + n]).Encode() + msg[4 + n..]
  {
    MessageUnique(msg);
    Cut(msg, 0, 4 + GetU24(msg, 1));
    assert msg[0..] == msg;
  }

  lemma {:induction false} PrependMsg(m: Msg, more: seq<Msg>)
    requires m.Valid() && AllValid(more)
    ensures AllValid([m] + more) && EncodeAll([m] + more) == m.Encode() + EncodeAll(more)
  {
    assert ([m] + more)[1..] == more;
  }

  /** A record that is handled without error is a concatenation of complete messages. */
  lemma {:induction false} HandledIsWhole(c: Suite, s: State, msg: Bytes) returns (msgs: seq<Msg>)
    requires PostHs(c, s, msg).1 == Success
    ensures AllValid(msgs) && msg == EncodeAll(msgs)
    decreases |msg|
  {
    if msg == [] {
      msgs := [];
    } else if msg[0] == NEW_SESSION_TICKET {
      var n := GetU24(msg, 1);
      var more := HandledIsWhole(c, s, msg[4 + n..]);
      TicketAt(msg);
      PrependMsg(Ticket(msg[4..4 + n]), more);
      msgs := [Ticket(msg[4..4 + n])] + more;
    } else {
      var more := HandledIsWhole(c, ApplyKeyUpdate(c, s, msg[4] == 1).0, msg[5..]);
      UpdateAt(msg);
      PrependMsg(Update(msg[4] == 1), more);
      msgs := [Update(msg[4] == 1)] + more;
    }
  }

  lemma {:induction false} FirstTicket(body: Bytes, rest: Bytes)
    requires |body| < 0x100_0000
    ensures var msg, n := Ticket(body).Encode() + rest, |body|;
            && msg[0] == NEW_SESSION_TICKET && GetU24(msg, 1) == n && 4 + n <= |msg| && msg[4 + n..] == rest
  {
    MessageParts(NEW_SESSION_TICKET, body, rest);
  }

  lemma {:induction false} FirstUpdate(requested: bool, rest: Bytes)
    ensures var msg := UpdateMsg(requested) + rest;
            && |msg| >= 5 && msg[0] == KEY_UPDATE && GetU24(msg, 1) == 1 && msg[4] <= 1 && (msg[4] == 1) == requested
            && msg[5..] == rest
  {
  }

  lemma {:induction false} UpdateApplied(c: Suite, s: State, requested: bool)
    requires c.KdfTotal() && (requested ==> s.answers != [] && s.answers[0] == REPLY_SZ)
    ensures var (next, code) := ApplyKeyUpdate(c, s, requested);
            code == Success && next.answers == if requested then s.answers[1..] else s.answers
  {
  }

  /** A concatenation of complete messages is handled without error if its replies are taken. */
  lemma {:induction false} WholeIsHandled(c: Suite, s: State, msgs: seq<Msg>)
    requires c.KdfTotal() && AllValid(msgs) && RepliesTaken(s.answers, Requests(Updates(EncodeAll(msgs))))
    ensures PostHs(c, s, EncodeAll(msgs)).1 == Success
    decreases |msgs|
  {
    if msgs != [] {
      var rest := EncodeAll(msgs[1..]);
      assert msgs[0].Valid();
      match msgs[0] {
        case Ticket(body) =>
          FirstTicket(body, rest);
          WholeIsHandled(c, s, msgs[1..]);
        case Update(requested) =>
          FirstUpdate(requested, rest);
          var msg := UpdateMsg(requested) + rest;
          assert Updates(msg) == [requested] + Updates(rest) && Updates(msg)[1..] == Updates(rest);
          UpdateApplied(c, s, requested);
          WholeIsHandled(c, ApplyKeyUpdate(c, s, requested).0, msgs[1..]);
      }
    }
  }

  /** The language the session reads: records are handled to the end exactly if they are
      concatenations of complete tickets and KeyUpdates. */
  lemma {:induction false} LanguageExact(c: Suite, s: State, msg: Bytes)
    requires c.KdfTotal() && RepliesTaken(s.answers, Requests(Updates(msg)))
    ensures PostHs(c, s, msg).1 == Success <==> exists msgs :: AllValid(msgs) && msg == EncodeAll(msgs)
  {
    if PostHs(c, s, msg).1 == Success {
      var msgs := HandledIsWhole(c, s, msg);
    }
    forall msgs | AllValid(msgs) && msg == EncodeAll(msgs) ensures PostHs(c, s, msg).1 == Success {
      WholeIsHandled(c, s, msgs);
    }
  }

  // ---- what a peer sends in one record ----

  /** NewSessionTicket messages, then at most one KeyUpdate at the end of the record. */
  function Tickets(bodies: seq<Bytes>): Bytes {
    if bodies == [] then [] else Message(NEW_SESSION_TICKET, bodies[0]) + Tickets(bodies[1..])
  }

  function PostHandshake(bodies: seq<Bytes>, update: Option<bool>): Bytes {
    Tickets(bodies) + if update.None? then [] else UpdateMsg(update.value)
  }

  ghost predicate Encodable(bodies: seq<Bytes>) {
    forall b <- bodies :: |b| < 0x100_0000
  }

  /** The bytes of a message that has begun and is not complete. */
  ghost predicate Incomplete(tail: Bytes) {
    tail != [] && exists m: Msg :: m.Valid() && tail < m.Encode()
  }

  lemma {:induction false} TicketFirst(bodies: seq<Bytes>, update: Option<bool>, tail: Bytes)
    requires Encodable(bodies) && bodies != []
    ensures var msg, n := PostHandshake(bodies, update) + tail, |bodies[0]|;
            && 4 + n <= |msg| && msg[0] == NEW_SESSION_TICKET && GetU24(msg, 1) == n
            && msg[4 + n..] == PostHandshake(bodies[1..], update) + tail
  {
    var rest := PostHandshake(bodies[1..], update) + tail;
    assert PostHandshake(bodies, update) + tail == Message(NEW_SESSION_TICKET, bodies[0]) + rest;
    MessageParts(NEW_SESSION_TICKET, bodies[0], rest);
  }

  /** Such a record is read as exactly its update. */
  lemma {:induction false} UpdatesPostHandshake(bodies: seq<Bytes>, update: Option<bool>)
    requires Encodable(bodies)
    ensures Updates(PostHandshake(bodies, update)) == if update.None? then [] else [update.value]
    decreases |bodies|
  {
    var msg := PostHandshake(bodies, update);
    assert msg + [] == msg;
    if bodies == [] {
      if update.Some? {
        FirstUpdate(update.value, []);
        assert msg == UpdateMsg(update.value) + [] && Updates([]) == [];
      }
    } else {
      TicketFirst(bodies, update, []);
      UpdatesPostHandshake(bodies[1..], update);
      assert PostHandshake(bodies[1..], update) + [] == PostHandshake(bodies[1..], update);
    }
  }

  lemma {:induction false} TailRefused(c: Suite, s: State, tail: Bytes)
    requires Incomplete(tail)
    ensures PostHs(c, s, tail) == (s, Decode)
  {
    var m: Msg :| m.Valid() && tail < m.Encode();
    assert tail[0] == m.Encode()[0];
    if m.Ticket? && |tail| >= 4 {
      MessageParts(NEW_SESSION_TICKET, m.body, []);
      assert m.Encode() + [] == m.Encode();
      assert GetU24(tail, 1) == GetU24(m.Encode(), 1);
    }
  }

  /** A record that ends inside a message is refused, but the session stays as it was, and open. */
  lemma {:induction false} PartialRefused(c: Suite, s: State, bodies: seq<Bytes>, tail: Bytes)
    requires Encodable(bodies) && Incomplete(tail)
    ensures PostHs(c, s, PostHandshake(bodies, None) + tail) == (s, Decode)
    decreases |bodies|
  {
    if bodies == [] {
      TailRefused(c, s, tail);
      assert PostHandshake(bodies, None) + tail == tail;
    } else {
      TicketFirst(bodies, None, tail);
      PartialRefused(c, s, bodies[1..], tail);
    }
  }
}
