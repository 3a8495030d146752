/** The request table of the client, as a value, and what every interleaving of
    requests, data, timeouts, disconnects and closes does to it. */
module LpjClient {
  import opened LpjFrames

  /** A request in flight.  The ticket stands for its promise. */
  datatype Entry = Entry(id: string, ticket: nat, timed: bool)

  datatype Settlement<+T> = Resolved(ticket: nat, body: T) | TimedOut(ticket: nat) | Rejected(ticket: nat)

  /** `pending` is in insertion order; `timers` are the armed timers by ticket. */
  datatype Client<+T> = Client(
    connected: bool, socket: bool, buf: Bytes,
    pending: seq<Entry>, timers: map<nat, string>,
    issued: nat, log: seq<Settlement<T>>, sent: Bytes)

  // ---------------------------------------------------------------- the pending map

  function Find(pending: seq<Entry>, id: string): (i: int)
    ensures -1 <= i < |pending|
    ensures i >= 0 ==> pending[i].id == id
    ensures i < 0 ==> forall j :: 0 <= j < |pending| ==> pending[j].id != id
  {
    if pending == [] then -1
    else if pending[0].id == id then 0
    else
      var j := Find(pending[1..], id);
      if j < 0 then -1 else j + 1
  }

  /** `Map.set`: an existing key keeps its place. */
  function Put(pending: seq<Entry>, e: Entry): seq<Entry> {
    var i := Find(pending, e.id);
    if i < 0 then pending + [e] else pending[i := e]
  }

  function Delete(pending: seq<Entry>, id: string): seq<Entry> {
    var i := Find(pending, id);
    if i < 0 then pending else pending[..i] + pending[i + 1..]
  }

  // ---------------------------------------------------------------- the transitions

  /** `_request`; without a connection the promise is rejected and nothing is kept. */
  function Request<T>(c: Client<T>, id: string, payload: Bytes, timed: bool): Client<T>
    requires |payload| < 0x1_0000_0000
  {
    if !c.connected || !c.socket then c
    else
      c.(issued := c.issued + 1,
         pending := Put(c.pending, Entry(id, c.issued, timed)),
         timers := if timed then c.timers[c.issued := id] else c.timers,
         sent := c.sent + Encode(payload))
  }

  /** A timer goes off: its request is deleted by id and its promise rejected. */
  function Timeout<T>(c: Client<T>, ticket: nat): Client<T>
    requires ticket in c.timers
  {
    c.(pending := Delete(c.pending, c.timers[ticket]), timers := c.timers - {ticket}, log := c.log + [TimedOut(ticket)])
  }

  /** One frame's message. */
  function Deliver<T>(c: Client<T>, m: Decoded<T>): Client<T> {
    if m.Message? && m.id != "" && Find(c.pending, m.id) >= 0 then
      var e := c.pending[Find(c.pending, m.id)];
      c.(pending := Delete(c.pending, m.id), timers := c.timers - {e.ticket}, log := c.log + [Resolved(e.ticket, m.body)])
    else c
  }

  function DeliverAll<T>(decode: Decoder<T>, c: Client<T>, payloads: seq<Bytes>): Client<T>
    decreases |payloads|
  {
    if payloads == [] then c else DeliverAll(decode, Deliver(c, decode(payloads[0])), payloads[1..])
  }

  function Tickets(pending: seq<Entry>): set<nat> {
    set i | 0 <= i < |pending| :: pending[i].ticket
  }

  function RejectAll<T>(pending: seq<Entry>): (log: seq<Settlement<T>>)
    ensures |log| == |pending| && forall i :: 0 <= i < |log| ==> log[i] == Rejected(pending[i].ticket)
  {
    seq(|pending|, i requires 0 <= i < |pending| => Rejected(pending[i].ticket))
  }

  /** `disconnect` and `_onClose`: everything pending is rejected. */
  function Disconnect<T>(c: Client<T>): Client<T> {
    c.(connected := false, socket := false, buf := [], pending := [],
       timers := c.timers - Tickets(c.pending), log := c.log + RejectAll(c.pending))
  }

  /** `_onData` */
  function Data<T>(decode: Decoder<T>, c: Client<T>, chunk: Bytes): Client<T> {
    var p := Parse(decode, c.buf + chunk);
    var c1 := DeliverAll(decode, c.(buf := p.rest), p.payloads);
    if p.stop == TooLong then Disconnect(c1) else c1
  }

  // ---------------------------------------------------------------- what always holds

  predicate TicketsOpen<T>(c: Client<T>, t: nat) {
    forall i :: 0 <= i < |c.log| ==> c.log[i].ticket != t
  }

  /** Ids and promises in the table are distinct. */
  predicate TableDistinct(pending: seq<Entry>) {
    forall i, j :: 0 <= i < j < |pending| ==> pending[i].id != pending[j].id && pending[i].ticket != pending[j].ticket
  }

  /** No promise is settled twice. */
  predicate SettledOnce<T>(log: seq<Settlement<T>>) {
    forall i, j :: 0 <= i < j < |log| ==> log[i].ticket != log[j].ticket
  }

  /** Promises in the table and behind armed timers are not settled yet. */
  predicate Sound<T>(c: Client<T>) {
    && TableDistinct(c.pending) && SettledOnce(c.log)
    && (forall i :: 0 <= i < |c.pending| ==> c.pending[i].ticket < c.issued && TicketsOpen(c, c.pending[i].ticket))
    && (forall t :: t in c.timers ==> t < c.issued && TicketsOpen(c, t))
    && (forall i :: 0 <= i < |c.log| ==> c.log[i].ticket < c.issued)
    && (forall i :: 0 <= i < |c.pending| && c.pending[i].ticket in c.timers ==> c.timers[c.pending[i].ticket] == c.pending[i].id)
  }

  /** Every issued request is pending or settled. */
  predicate Conserved<T>(c: Client<T>) {
    c.issued == |c.pending| + |c.log|
  }

  /** Every armed timer belongs to a pending request. */
  predicate TimersPending<T>(c: Client<T>) {
    forall t :: t in c.timers ==> exists i :: 0 <= i < |c.pending| && c.pending[i].ticket == t && c.pending[i].id == c.timers[t]
  }

  lemma DeleteFacts(pending: seq<Entry>, id: string)
    requires TableDistinct(pending)
    ensures var d, i := Delete(pending, id), Find(pending, id);
      && TableDistinct(d)
      && |d| == |pending| - (if i >= 0 then 1 else 0)
      && (forall j :: 0 <= j < |d| ==> d[j] in pending && d[j].id != id)
      && (forall e :: e in pending && e.id != id ==> e in d)
  {
    var i, d := Find(pending, id), Delete(pending, id);
    hide Find;
    if i >= 0 {
      forall e | e in pending && e.id != id ensures e in d {
        var k :| 0 <= k < |pending| && pending[k] == e;
        assert d[if k < i then k else k - 1] == e;
      }
    }
  }

  lemma FindUnique(pending: seq<Entry>, i: nat)
    requires TableDistinct(pending) && i < |pending|
    ensures Find(pending, pending[i].id) == i
  {
  }

  // ---------------------------------------------------------------- soundness of each transition

  lemma RequestIsSound<T>(c: Client<T>, id: string, payload: Bytes, timed: bool)
    requires Sound(c) && |payload| < 0x1_0000_0000
    ensures Sound(Request(c, id, payload, timed))
  {
    hide Encode;
    var c' := Request(c, id, payload, timed);
    if c.connected && c.socket {
      forall i | 0 <= i < |c.log| ensures c.log[i].ticket != c.issued {}
    }
  }

  /** Settling one open promise that has left the table and the timers. */
  lemma SettleIsSound<T>(c: Client<T>, c': Client<T>, id: string, s: Settlement<T>)
    requires Sound(c) && s.ticket < c.issued && TicketsOpen(c, s.ticket)
    requires c' == c.(pending := Delete(c.pending, id), timers := c.timers - {s.ticket}, log := c.log + [s])
    requires forall i :: 0 <= i < |c.pending| && c.pending[i].id != id ==> c.pending[i].ticket != s.ticket
    ensures Sound(c')
  {
    hide Delete, Find;
    DeleteFacts(c.pending, id);
    forall t | TicketsOpen(c, t) && t != s.ticket ensures TicketsOpen(c', t) { StillOpen(c.log, s, t, c, c'); }
    SettledGrows(c, s);
    forall i | 0 <= i < |c'.pending|
      ensures c'.pending[i].ticket < c'.issued && TicketsOpen(c', c'.pending[i].ticket)
      ensures c'.pending[i].ticket in c'.timers ==> c'.timers[c'.pending[i].ticket] == c'.pending[i].id
    {
      var k :| 0 <= k < |c.pending| && c.pending[k] == c'.pending[i];
      assert TicketsOpen(c, c.pending[k].ticket);
    }
    forall t | t in c'.timers ensures t < c'.issued && TicketsOpen(c', t) { assert TicketsOpen(c, t); }
  }

  lemma StillOpen<T>(log: seq<Settlement<T>>, s: Settlement<T>, t: nat, c: Client<T>, c': Client<T>)
    requires c.log == log && c'.log == log + [s] && TicketsOpen(c, t) && t != s.ticket
    ensures TicketsOpen(c', t)
  {
  }

  lemma SettledGrows<T>(c: Client<T>, s: Settlement<T>)
    requires SettledOnce(c.log) && TicketsOpen(c, s.ticket)
    ensures SettledOnce(c.log + [s])
  {
  }

  lemma TimeoutIsSound<T>(c: Client<T>, ticket: nat)
    requires Sound(c) && ticket in c.timers
    ensures Sound(Timeout(c, ticket))
  {
    SettleIsSound(c, Timeout(c, ticket), c.timers[ticket], TimedOut(ticket));
  }

  lemma DeliverIsSound<T>(c: Client<T>, m: Decoded<T>)
    requires Sound(c)
    ensures Sound(Deliver(c, m))
  {
    if m.Message? && m.id != "" && Find(c.pending, m.id) >= 0 {
      var e := c.pending[Find(c.pending, m.id)];
      SettleIsSound(c, Deliver(c, m), m.id, Resolved(e.ticket, m.body));
    }
  }

  lemma {:induction false} DeliverAllIsSound<T>(decode: Decoder<T>, c: Client<T>, payloads: seq<Bytes>)
    requires Sound(c)
    ensures Sound(DeliverAll(decode, c, payloads))
    decreases |payloads|
  {
    hide Sound, Deliver;
    if payloads != [] {
      DeliverIsSound(c, decode(payloads[0]));
      DeliverAllIsSound(decode, Deliver(c, decode(payloads[0])), payloads[1..]);
    }
  }

  lemma DisconnectIsSound<T>(c: Client<T>)
    requires Sound(c)
    ensures Sound(Disconnect(c)) && Disconnect(c).pending == []
  {
    var c' := Disconnect(c);
    forall i, j | 0 <= i < j < |c'.log| ensures c'.log[i].ticket != c'.log[j].ticket {
      if i < |c.log| <= j { assert TicketsOpen(c, c.pending[j - |c.log|].ticket); }
    }
    forall t | t in c'.timers ensures t < c'.issued && TicketsOpen(c', t) {
      assert TicketsOpen(c, t) && t !in Tickets(c.pending);
      forall i | 0 <= i < |c'.log| ensures c'.log[i].ticket != t {
        if i >= |c.log| { assert c.pending[i - |c.log|].ticket in Tickets(c.pending); }
      }
    }
  }

  lemma BufIsIrrelevant<T>(c: Client<T>, buf: Bytes)
    ensures Sound(c.(buf := buf)) <==> Sound(c)
    ensures Conserved(c.(buf := buf)) <==> Conserved(c)
    ensures TimersPending(c.(buf := buf)) <==> TimersPending(c)
  {
    forall t ensures TicketsOpen(c.(buf := buf), t) == TicketsOpen(c, t) {}
  }

  lemma DataIsSound<T>(decode: Decoder<T>, c: Client<T>, chunk: Bytes)
    requires Sound(c)
    ensures Sound(Data(decode, c, chunk))
  {
    hide Sound, Parse, DeliverAll, Disconnect;
    var p := Parse(decode, c.buf + chunk);
    BufIsIrrelevant(c, p.rest);
    DeliverAllIsSound(decode, c.(buf := p.rest), p.payloads);
    DisconnectIsSound(DeliverAll(decode, c.(buf := p.rest), p.payloads));
  }

  // ---------------------------------------------------------------- conservation

  /** Issuing a request keeps the count exactly when its id is not in flight. */
  lemma RequestConserves<T>(c: Client<T>, id: string, payload: Bytes, timed: bool)
    requires Conserved(c) && |payload| < 0x1_0000_0000
    ensures Conserved(Request(c, id, payload, timed)) <==> !(c.connected && c.socket && Find(c.pending, id) >= 0)
  {
    hide Encode;
  }

  /** Issuing the same id twice: the first promise is neither pending nor settled, and
      stays so. */
  lemma ReusedIdLosesRequest<T>(id: string, payload: Bytes)
    requires |payload| < 0x1_0000_0000
    ensures var c: Client<T> := Client(true, true, [], [], map[], 0, [], []);
      var c1 := Request(c, id, payload, false);
      var c2 := Request(c1, id, payload, false);
      && Conserved(c) && Conserved(c1) && !Conserved(c2)
      && c2.issued == 2 && c2.pending == [Entry(id, 1, false)] && c2.log == []
  {
    hide Encode;
    var c: Client<T> := Client(true, true, [], [], map[], 0, [], []);
    assert Request(c, id, payload, false).pending == [Entry(id, 0, false)];
  }

  lemma RequestKeepsTimers<T>(c: Client<T>, id: string, payload: Bytes, timed: bool)
    requires Sound(c) && TimersPending(c) && |payload| < 0x1_0000_0000 && Find(c.pending, id) < 0
    ensures TimersPending(Request(c, id, payload, timed))
  {
    hide Encode;
    var c' := Request(c, id, payload, timed);
    if c.connected && c.socket {
      forall t | t in c'.timers
        ensures exists i :: 0 <= i < |c'.pending| && c'.pending[i].ticket == t && c'.pending[i].id == c'.timers[t]
      {
        if t == c.issued {
          assert c'.pending[|c.pending|].ticket == t;
        } else {
          var i :| 0 <= i < |c.pending| && c.pending[i].ticket == t && c.pending[i].id == c.timers[t];
          assert c'.pending[i] == c.pending[i];
        }
      }
    }
  }

  lemma TableOf<T>(c: Client<T>)
    requires Sound(c)
    ensures TableDistinct(c.pending)
  {
  }

  lemma SettleKeepsCount<T>(c: Client<T>, c': Client<T>, i: nat, s: Settlement<T>)
    requires Sound(c) && Conserved(c) && TimersPending(c) && i < |c.pending| && s.ticket == c.pending[i].ticket
    requires c' == c.(pending := Delete(c.pending, c.pending[i].id), timers := c.timers - {s.ticket}, log := c.log + [s])
    ensures Conserved(c') && TimersPending(c')
  {
    hide Sound, Find, Delete;
    TableOf(c);
    FindUnique(c.pending, i);
    DeleteFacts(c.pending, c.pending[i].id);
    forall t | t in c'.timers
      ensures exists k :: 0 <= k < |c'.pending| && c'.pending[k].ticket == t && c'.pending[k].id == c'.timers[t]
    {
      var k :| 0 <= k < |c.pending| && c.pending[k].ticket == t && c.pending[k].id == c.timers[t];
      assert c.pending[k] in c'.pending;
    }
  }

  lemma TimeoutConserves<T>(c: Client<T>, ticket: nat)
    requires Sound(c) && Conserved(c) && TimersPending(c) && ticket in c.timers
    ensures Conserved(Timeout(c, ticket)) && TimersPending(Timeout(c, ticket))
  {
    var i :| 0 <= i < |c.pending| && c.pending[i].ticket == ticket && c.pending[i].id == c.timers[ticket];
    SettleKeepsCount(c, Timeout(c, ticket), i, TimedOut(ticket));
  }

  lemma DeliverConserves<T>(c: Client<T>, m: Decoded<T>)
    requires Sound(c) && Conserved(c) && TimersPending(c)
    ensures Conserved(Deliver(c, m)) && TimersPending(Deliver(c, m))
  {
    if m.Message? && m.id != "" && Find(c.pending, m.id) >= 0 {
      var i := Find(c.pending, m.id);
      SettleKeepsCount(c, Deliver(c, m), i, Resolved(c.pending[i].ticket, m.body));
    }
  }

  lemma {:induction false} DeliverAllConserves<T>(decode: Decoder<T>, c: Client<T>, payloads: seq<Bytes>)
    requires Sound(c) && Conserved(c) && TimersPending(c)
    ensures var c' := DeliverAll(decode, c, payloads); Conserved(c') && TimersPending(c')
    decreases |payloads|
  {
    hide Sound, Conserved, TimersPending, Deliver;
    if payloads != [] {
      DeliverConserves(c, decode(payloads[0]));
      DeliverIsSound(c, decode(payloads[0]));
      DeliverAllConserves(decode, Deliver(c, decode(payloads[0])), payloads[1..]);
    }
  }

  /** Disconnecting leaves nothing pending and no timer armed. */
  lemma DisconnectConserves<T>(c: Client<T>)
    requires Conserved(c) && TimersPending(c)
    ensures var c' := Disconnect(c); Conserved(c') && TimersPending(c') && c'.pending == [] && c'.timers == map[]
  {
    forall t | t in c.timers ensures t in Tickets(c.pending) {
      var i :| 0 <= i < |c.pending| && c.pending[i].ticket == t && c.pending[i].id == c.timers[t];
    }
    assert Disconnect(c).timers == map[];
  }

  lemma DataConserves<T>(decode: Decoder<T>, c: Client<T>, chunk: Bytes)
    requires Sound(c) && Conserved(c) && TimersPending(c)
    ensures var c' := Data(decode, c, chunk); Conserved(c') && TimersPending(c')
  {
    hide Sound, Conserved, TimersPending, Parse, DeliverAll, Disconnect;
    var p := Parse(decode, c.buf + chunk);
    BufIsIrrelevant(c, p.rest);
    DeliverAllConserves(decode, c.(buf := p.rest), p.payloads);
    DisconnectConserves(DeliverAll(decode, c.(buf := p.rest), p.payloads));
  }

  // ---------------------------------------------------------------- runs

  datatype Event =
    | Connect
    | Issue(id: string, payload: Bytes, timed: bool)
    | Arrive(chunk: Bytes)
    | Expire(ticket: nat)
    | Hangup
    | Closed

  predicate Possible<T>(c: Client<T>, e: Event) {
    match e
    case Issue(_, payload, _) => |payload| < 0x1_0000_0000
    case Expire(ticket) => ticket in c.timers
    case _ => true
  }

  function Step<T>(decode: Decoder<T>, c: Client<T>, e: Event): Client<T>
    requires Possible(c, e)
  {
    match e
    case Connect => c.(connected := true, socket := true)
    case Issue(id, payload, timed) => Request(c, id, payload, timed)
    case Arrive(chunk) => Data(decode, c, chunk)
    case Expire(ticket) => Timeout(c, ticket)
    case Hangup => Disconnect(c)
    case Closed => Disconnect(c)
  }

  predicate PossibleRun<T>(decode: Decoder<T>, c: Client<T>, es: seq<Event>)
    decreases |es|
  {
    es == [] || (Possible(c, es[0]) && PossibleRun(decode, Step(decode, c, es[0]), es[1..]))
  }

  function Run<T>(decode: Decoder<T>, c: Client<T>, es: seq<Event>): Client<T>
    requires PossibleRun(decode, c, es)
    decreases |es|
  {
    if es == [] then c else Run(decode, Step(decode, c, es[0]), es[1..])
  }

  /** No request reuses the id of one that is still in flight. */
  predicate FreshIds<T>(decode: Decoder<T>, c: Client<T>, es: seq<Event>)
    requires PossibleRun(decode, c, es)
    decreases |es|
  {
    es == [] || ((es[0].Issue? ==> Find(c.pending, es[0].id) < 0) && FreshIds(decode, Step(decode, c, es[0]), es[1..]))
  }

  function Fresh<T>(): Client<T> {
    Client.Client(false, false, [], [], map[], 0, [], [])
  }

  lemma StepIsSound<T>(decode: Decoder<T>, c: Client<T>, e: Event)
    requires Sound(c) && Possible(c, e)
    ensures Sound(Step(decode, c, e))
  {
    hide Data, Request, Timeout, Disconnect;
    match e
    case Connect => forall t ensures TicketsOpen(Step(decode, c, e), t) == TicketsOpen(c, t) {}
    case Issue(id, payload, timed) => RequestIsSound(c, id, payload, timed);
    case Arrive(chunk) => DataIsSound(decode, c, chunk);
    case Expire(ticket) => TimeoutIsSound(c, ticket);
    case Hangup => DisconnectIsSound(c);
    case Closed => DisconnectIsSound(c);
  }

  lemma StepConserves<T>(decode: Decoder<T>, c: Client<T>, e: Event)
    requires Sound(c) && Conserved(c) && TimersPending(c) && Possible(c, e) && (e.Issue? ==> Find(c.pending, e.id) < 0)
    ensures Conserved(Step(decode, c, e)) && TimersPending(Step(decode, c, e))
  {
    hide Data, Request, Timeout, Disconnect, Sound;
    match e
    case Connect =>
    case Issue(id, payload, timed) => RequestConserves(c, id, payload, timed); RequestKeepsTimers(c, id, payload, timed);
    case Arrive(chunk) => DataConserves(decode, c, chunk);
    case Expire(ticket) => TimeoutConserves(c, ticket);
    case Hangup => DisconnectConserves(c);
    case Closed => DisconnectConserves(c);
  }

  /** In every interleaving no promise is settled twice, even when ids are reused. */
  lemma {:induction false} RunSettlesOnce<T>(decode: Decoder<T>, c: Client<T>, es: seq<Event>)
    requires Sound(c) && PossibleRun(decode, c, es)
    ensures Sound(Run(decode, c, es)) && SettledOnce(Run(decode, c, es).log)
    decreases |es|
  {
    hide Step, Possible;
    if es != [] {
      StepIsSound(decode, c, es[0]);
      RunSettlesOnce(decode, Step(decode, c, es[0]), es[1..]);
    }
  }

  /** With ids that are fresh when issued, every issued request is pending or settled
      at every moment, and no timer outlives its request. */
  lemma {:induction false} RunConserves<T>(decode: Decoder<T>, c: Client<T>, es: seq<Event>)
    requires Sound(c) && Conserved(c) && TimersPending(c) && PossibleRun(decode, c, es) && FreshIds(decode, c, es)
    ensures var c' := Run(decode, c, es); Sound(c') && Conserved(c') && TimersPending(c')
    decreases |es|
  {
    hide Step, Possible, Sound, Conserved, TimersPending;
    if es != [] {
      StepIsSound(decode, c, es[0]);
      StepConserves(decode, c, es[0]);
      RunConserves(decode, Step(decode, c, es[0]), es[1..]);
    }
  }

  lemma FreshIsSound<T>()
    ensures var c: Client<T> := Fresh(); Sound(c) && Conserved(c) && TimersPending(c)
  {
  }
}
