/** The client object: its fields and the methods that change them. */
module StandaloneClient {
  import opened LpjFrames
  import opened LpjClient

  class StandaloneClient<T> {
    const decode: Decoder<T>
    const requestTimeoutMs: int

    var connected: bool
    var socket: bool
    var recvBuf: Bytes
    var pending: seq<Entry>
    /** Armed timers by promise, with the request id each will delete. */
    var timers: map<nat, string>

    /** How many promises were handed out, how they were settled, what was written. */
    var issued: nat
    ghost var log: seq<Settlement<T>>
    ghost var sent: Bytes

    constructor (decode: Decoder<T>, requestTimeoutMs: int)
      ensures this.decode == decode && this.requestTimeoutMs == requestTimeoutMs
      ensures Value() == Fresh()
    {
      this.decode := decode;
      this.requestTimeoutMs := requestTimeoutMs;
      connected := false;
      socket := false;
      recvBuf := [];
      pending := [];
      timers := map[];
      issued := 0;
      log := [];
      sent := [];
    }

    ghost function Value(): Client<T>
      reads this
    {
      Client.Client(connected, socket, recvBuf, pending, timers, issued, log, sent)
    }

    /** The callback of a successful `connect`. */
    method OnConnect()
      modifies this
      ensures Value() == old(Value()).(connected := true, socket := true)
    {
      socket := true;
      connected := true;
    }

    /** `_request`; the result says whether a promise is now waiting. */
    method Request(id: string, payload: Bytes) returns (ok: bool, ticket: nat)
      requires |payload| < 0x1_0000_0000
      modifies this
      ensures Value() == LpjClient.Request(old(Value()), id, payload, requestTimeoutMs > 0)
      ensures ok == (old(connected) && old(socket)) && ticket == old(issued)
    {
      ticket := issued;
      if !connected || !socket { return false, ticket; }
      issued := issued + 1;
      var timed := requestTimeoutMs > 0;
      if timed { timers := timers[ticket := id]; }
      var i := Find(pending, id);
      if i < 0 { pending := pending + [Entry(id, ticket, timed)]; } else { pending := pending[i := Entry(id, ticket, timed)]; }
      sent := sent + Encode(payload);
      ok := true;
    }

    /** The timer callback installed by `_request`. */
    method OnTimeout(ticket: nat)
      requires ticket in timers
      modifies this
      ensures Value() == Timeout(old(Value()), ticket)
    {
      DeletePending(timers[ticket]);
      timers := timers - {ticket};
      log := log + [TimedOut(ticket)];
    }

    method DeletePending(id: string)
      modifies this`pending
      ensures pending == Delete(old(pending), id)
    {
      var i := Find(pending, id);
      if i >= 0 { pending := pending[..i] + pending[i + 1..]; }
    }

    /** The loop of `disconnect` and `_onClose` over the pending requests. */
    method RejectPending()
      modifies this`timers, this`log
      ensures timers == old(timers) - Tickets(pending)
      ensures log == old(log) + RejectAll(pending)
    {
      assert log == old(log) + RejectAll(pending[..0]);
      for i := 0 to |pending|
        invariant timers == old(timers) - Tickets(pending[..i])
        invariant log == old(log) + RejectAll(pending[..i])
      {
        var entry := pending[i];
        TicketsGrow(pending, i);
        assert RejectAll<T>(pending[..i + 1]) == RejectAll(pending[..i]) + [Rejected(entry.ticket)];
        timers := timers - {entry.ticket};
        log := log + [Rejected(entry.ticket)];
      }
      assert pending[..|pending|] == pending;
    }

    lemma TicketsGrow(p: seq<Entry>, i: nat)
      requires i < |p|
      ensures Tickets(p[..i + 1]) == Tickets(p[..i]) + {p[i].ticket}
    {
      assert p[..i + 1] == p[..i] + [p[i]];
      forall t | t in Tickets(p[..i]) ensures t in Tickets(p[..i + 1]) {
        var k :| 0 <= k < |p[..i]| && p[..i][k].ticket == t;
        assert p[..i + 1][k].ticket == t;
      }
      assert p[..i + 1][i].ticket == p[i].ticket;
    }

    /** `disconnect`; `_onClose` changes the same fields in the same way. */
    method Disconnect()
      modifies this
      ensures Value() == LpjClient.Disconnect(old(Value()))
    {
      connected := false;
      socket := false;
      RejectPending();
      pending := [];
      recvBuf := [];
    }

    /** Looking up the id of a message and settling its request. */
    method Settle(m: Decoded<T>)
      modifies this`pending, this`timers, this`log
      ensures Value() == Deliver(old(Value()), m)
    {
      if m.Message? && m.id != "" {
        var i := Find(pending, m.id);
        if i >= 0 {
          var entry := pending[i];
          DeletePending(m.id);
          timers := timers - {entry.ticket};
          log := log + [Resolved(entry.ticket, m.body)];
        }
      }
    }

    lemma DataUnfold(c: Client<T>)
      ensures HasOversize(c.buf) ==> Data(decode, c, []) == LpjClient.Disconnect(c)
      ensures !HasOversize(c.buf) && !HasFrame(c.buf) ==> Data(decode, c, []) == c
      ensures HasFrame(c.buf) && !HasOversize(c.buf) ==>
        var c1 := Deliver(c.(buf := RestOf(c.buf)), decode(PayloadOf(c.buf)));
        if decode(PayloadOf(c.buf)).NullValue? then Data(decode, c, []) == c.(buf := RestOf(c.buf))
        else c1.buf == RestOf(c.buf) && Data(decode, c, []) == Data(decode, c1, [])
    {
      hide Deliver, LpjClient.Disconnect, HasFrame, HasOversize, PayloadOf, RestOf;
      assert c.buf + [] == c.buf;
      var p := Parse(decode, c.buf);
      assert c.(buf := c.buf) == c;
      if HasFrame(c.buf) && !HasOversize(c.buf) {
        var payload, rest := PayloadOf(c.buf), RestOf(c.buf);
        DeliverKeepsBuf(c.(buf := rest), decode(payload));
        NullIsIgnored(c.(buf := rest), decode(payload));
        var c1 := Deliver(c.(buf := rest), decode(payload));
        var q := Parse(decode, rest);
        assert rest + [] == rest;
        if decode(payload).NullValue? {
          OneDelivered(c.(buf := rest), payload);
        } else {
          FirstDelivered(c.(buf := p.rest), payload, q.payloads);
          DeliverMovesBuf(c, decode(payload), rest, p.rest);
        }
      }
    }

    lemma OneDelivered(c: Client<T>, payload: Bytes)
      ensures DeliverAll(decode, c, [payload]) == Deliver(c, decode(payload))
    {
      FirstDelivered(c, payload, []);
    }

    lemma FirstDelivered(c: Client<T>, payload: Bytes, rest: seq<Bytes>)
      ensures DeliverAll(decode, c, [payload] + rest) == DeliverAll(decode, Deliver(c, decode(payload)), rest)
    {
      hide Deliver;
      assert ([payload] + rest)[1..] == rest;
    }

    lemma DeliverKeepsBuf(c: Client<T>, m: Decoded<T>)
      ensures Deliver(c, m).buf == c.buf
    {
    }

    lemma NullIsIgnored(c: Client<T>, m: Decoded<T>)
      ensures m.NullValue? ==> Deliver(c, m) == c
    {
    }

    lemma DeliverMovesBuf(c: Client<T>, m: Decoded<T>, a: Bytes, b: Bytes)
      ensures Deliver(c.(buf := b), m) == Deliver(c.(buf := a), m).(buf := b)
    {
    }

    /** `_onData`; the result says whether reading the id of a null message threw. */
    method OnData(chunk: Bytes) returns (threw: bool)
      modifies this
      ensures Value() == Data(decode, old(Value()), chunk)
      ensures threw == (Parse(decode, old(recvBuf) + chunk).stop == Threw)
    {
      hide *;
      ghost var c0 := Value();
      BufOf(c0);
      recvBuf := recvBuf + chunk;
      BufOf(Value());
      Buffered(c0, chunk);
      while |recvBuf| >= 4
        invariant Data(decode, Value(), []) == Data(decode, c0, chunk)
        invariant (Parse(decode, recvBuf).stop == Threw) == (Parse(decode, c0.buf + chunk).stop == Threw)
        decreases |recvBuf|
      {
        ghost var c := Value();
        BufOf(c);
        DataUnfold(c);
        StopUnfold(recvBuf);
        FrameTests(recvBuf);
        var payloadLen := ReadUInt32LE(recvBuf);
        if payloadLen > MAX_PAYLOAD_BYTES {
          Disconnect();
          return false;
        }
        if |recvBuf| < 4 + payloadLen { break; }
        var payload := recvBuf[4..4 + payloadLen];
        recvBuf := recvBuf[4 + payloadLen..];
        var msg := decode(payload);
        NullIsIgnored(Value(), msg);
        BufOf(Value());
        if msg.NullValue? { return true; }
        Settle(msg);
        BufOf(Value());
      }
      BufOf(Value());
      DataUnfold(Value());
      StopUnfold(recvBuf);
      FrameTests(recvBuf);
      threw := false;
    }

    lemma BufOf(c: Client<T>)
      requires c == Value()
      ensures c.buf == recvBuf && c == Client.Client(connected, socket, recvBuf, pending, timers, issued, log, sent)
      ensures forall b :: c.(buf := b) == Client.Client(connected, socket, b, pending, timers, issued, log, sent)
    {
    }

    lemma Buffered(c: Client<T>, chunk: Bytes)
      ensures Data(decode, c.(buf := c.buf + chunk), []) == Data(decode, c, chunk)
    {
      assert c.buf + chunk + [] == c.buf + chunk;
    }

    lemma StopUnfold(buf: Bytes)
      ensures HasOversize(buf) ==> Parse(decode, buf).stop == TooLong
      ensures !HasOversize(buf) && !HasFrame(buf) ==> Parse(decode, buf).stop == Waiting
      ensures HasFrame(buf) && !HasOversize(buf) ==>
        if decode(PayloadOf(buf)).NullValue? then Parse(decode, buf).stop == Threw
        else Parse(decode, buf).stop == Parse(decode, RestOf(buf)).stop
      ensures TooLong != Threw && Waiting != Threw
    {
      hide HasFrame, HasOversize, PayloadOf, RestOf;
    }

    lemma FrameTests(buf: Bytes)
      ensures |buf| < 4 ==> !HasFrame(buf) && !HasOversize(buf)
      ensures |buf| >= 4 ==> (HasOversize(buf) <==> ReadUInt32LE(buf) > MAX_PAYLOAD_BYTES)
      ensures |buf| >= 4 && !HasOversize(buf) ==> (HasFrame(buf) <==> |buf| >= 4 + ReadUInt32LE(buf))
      ensures HasFrame(buf) ==>
        PayloadOf(buf) == buf[4..4 + ReadUInt32LE(buf)] && RestOf(buf) == buf[4 + ReadUInt32LE(buf)..]
    {
      hide ReadUInt32LE;
    }
  }
}
