/** The administrative socket server: one poll at a time over a bounded list of connections. */
module IpcTransport {
  import opened Common
  import opened IpcWire

  const MAX_CONNECTIONS := 32
  const FIRST_PACKET_TIMEOUT := 2000
  const WRITE_TIMEOUT := 5000

  datatype State = Waiting | Ready | Writing

  /** `serial` counts accepted connections; descriptors are reused, serials are not. */
  datatype Connection = Connection(serial: nat, fd: int, state: State, deadline: int, request: Bytes,
    response: Bytes, offset: nat)

  predicate Closed(c: Connection) {
    c.fd < 0
  }

  function Close(c: Connection): Connection {
    c.(fd := -1)
  }

  // ----- inputs of one poll

  datatype Receiving = ReceiveAgain | ReceiveFailed | PeerGone | TooLong | Received(request: Bytes)

  datatype Events = Events(error: bool, readable: bool, writable: bool, hangup: bool, receiving: Receiving,
    sending: Sending)

  const QUIET := Events(false, false, false, false, ReceiveAgain, Again)

  datatype Offer = BadClient | Client(fd: int)

  /** `reply` is what the handler answers to a descriptor and a request: its response, or the error
      response made from its exception. */
  datatype Poll = Poll(
    start: int,
    interrupted: bool,
    failed: bool,
    offers: seq<Offer>,
    acceptFailed: bool,
    listenerError: bool,
    events: map<nat, Events>,
    now: int,
    reply: (int, Bytes) -> Bytes,
    errorText: Bytes,
    end: int)

  /** The poll goes on to read, write and dispatch. */
  predicate Dispatching(p: Poll) {
    !p.interrupted && !p.failed && !p.acceptFailed && !p.listenerError
  }

  predicate Usable(p: Poll) {
    0 < |p.errorText| <= MAX_RESPONSE
  }

  function EventsOf(p: Poll, c: Connection): Events {
    if c.serial in p.events then p.events[c.serial] else QUIET
  }

  // ----- steps on one connection

  function Queue(c: Connection, response: Bytes, p: Poll): Connection
    requires Usable(p)
  {
    c.(response := Bounded(response, p.errorText), offset := 0, deadline := p.now + WRITE_TIMEOUT, state := Writing)
  }

  function Receive(c: Connection, r: Receiving, p: Poll): Connection
    requires Usable(p)
  {
    match r
    case ReceiveAgain => c
    case ReceiveFailed => Close(c)
    case PeerGone => Close(c)
    case TooLong => Queue(c, p.errorText, p)
    case Received(request) => c.(request := request, state := Ready)
  }

  function Write(c: Connection, s: Sending): Connection
    requires c.offset <= |c.response|
  {
    match s
    case Again => c
    case Refused => Close(c)
    case Short => Close(c)
    case Whole =>
      var sent := c.(offset := c.offset + ChunkAt(c.response, c.offset));
      if sent.offset == |c.response| then Close(sent) else sent
  }

  /** A response being written is one the client can take, and not finished. */
  predicate SoundConnection(c: Connection) {
    c.state == Writing ==>
        0 < |c.response| <= MAX_RESPONSE && c.offset <= |c.response| && (!Closed(c) ==> c.offset < |c.response|)
  }

  function Touch(c: Connection, e: Events, p: Poll): (d: Connection)
    requires Usable(p) && SoundConnection(c) && !Closed(c)
    ensures d.serial == c.serial && SoundConnection(d)
    ensures c.state == Writing ==> d.state == Writing
    ensures c.state == Ready ==> d == if e.error then Close(c) else c
    ensures Closed(d) || d.fd == c.fd
  {
    if e.error then Close(c)
    else
      var d := if c.state == Waiting && e.readable then Receive(c, e.receiving, p)
               else if c.state == Writing && e.writable then Write(c, e.sending) else c;
      if e.hangup && d.state == Waiting then Close(d) else d
  }

  predicate Expired(c: Connection, now: int) {
    c.state != Ready && now >= c.deadline
  }

  // ----- the list

  ghost predicate InOrder(cs: seq<Connection>) {
    forall i, j :: 0 <= i < j < |cs| ==> cs[i].serial < cs[j].serial
  }

  ghost predicate AllOpen(cs: seq<Connection>) {
    forall i :: 0 <= i < |cs| ==> !Closed(cs[i]) && SoundConnection(cs[i])
  }

  ghost predicate Below(cs: seq<Connection>, next: nat) {
    forall i :: 0 <= i < |cs| ==> cs[i].serial < next
  }

  ghost predicate ValidList(cs: seq<Connection>, next: nat) {
    |cs| <= MAX_CONNECTIONS && InOrder(cs) && AllOpen(cs) && Below(cs, next)
  }

  /** erase(remove_if(fd < 0)) */
  function Erased(cs: seq<Connection>): seq<Connection> {
    if cs == [] then []
    else Erased(cs[..|cs| - 1]) + if Closed(cs[|cs| - 1]) then [] else [cs[|cs| - 1]]
  }

  function CloseExpired(cs: seq<Connection>, now: int): seq<Connection> {
    seq(|cs|, i requires 0 <= i < |cs| => if Expired(cs[i], now) then Close(cs[i]) else cs[i])
  }

  function AfterExpiry(cs: seq<Connection>, now: int): seq<Connection> {
    Erased(CloseExpired(cs, now))
  }

  /** Clients are taken while there is room; each taken one gets the next serial. */
  function AfterAccept(cs: seq<Connection>, next: nat, offers: seq<Offer>, now: int): (seq<Connection>, nat)
    decreases |offers|
  {
    if offers == [] then (cs, next)
    else match offers[0]
      case BadClient => AfterAccept(cs, next, offers[1..], now)
      case Client(fd) =>
        if |cs| >= MAX_CONNECTIONS || fd < 0 then AfterAccept(cs, next, offers[1..], now)
        else AfterAccept(cs + [Connection(next, fd, Waiting, now + FIRST_PACKET_TIMEOUT, [], [], 0)], next + 1,
          offers[1..], now)
  }

  /** The first n connections meet their events; those accepted in this poll do not. */
  function AfterEvents(cs: seq<Connection>, n: nat, p: Poll): seq<Connection>
    requires Usable(p) && AllOpen(cs) && n <= |cs|
  {
    seq(|cs|, i requires 0 <= i < |cs| => if i < n then Touch(cs[i], EventsOf(p, cs[i]), p) else cs[i])
  }

  /** The first connection with a request nobody has seen. */
  function FirstReady(cs: seq<Connection>): (i: nat)
    ensures i <= |cs| && (i < |cs| ==> cs[i].state == Ready)
    ensures forall k :: 0 <= k < i ==> cs[k].state != Ready
  {
    if cs == [] || cs[0].state == Ready then 0 else 1 + FirstReady(cs[1..])
  }

  function AfterDispatch(cs: seq<Connection>, p: Poll): seq<Connection>
    requires Usable(p)
  {
    var i := FirstReady(cs);
    if i == |cs| then cs else cs[i := Queue(cs[i], p.reply(cs[i].fd, cs[i].request), p)]
  }

  /** The frame that leaves while the connection meets its events, if one does. */
  function SentBy(c: Connection, e: Events): seq<Bytes>
    requires SoundConnection(c)
  {
    if !e.error && c.state == Writing && e.writable && e.sending == Whole then
      [ResponseFrame(c.response, c.offset, ChunkAt(c.response, c.offset))]
    else []
  }

  /** All frames that leave in one poll, each with its connection. */
  function SentIn(cs: seq<Connection>, n: nat, p: Poll): seq<(nat, Bytes)>
    requires AllOpen(cs) && n <= |cs|
  {
    if n == 0 then []
    else
      var c := cs[n - 1];
      SentIn(cs, n - 1, p) + if SentBy(c, EventsOf(p, c)) == [] then [] else [(c.serial, SentBy(c, EventsOf(p, c))[0])]
  }

  datatype Polled = Polled(connections: seq<Connection>, next: nat, handled: Option<nat>, ok: bool,
    sent: seq<(nat, Bytes)>)

  /** One whole poll. */
  function AfterPoll(cs: seq<Connection>, next: nat, p: Poll): Polled
    requires Usable(p) && ValidList(cs, next)
  {
    var c1 := AfterExpiry(cs, p.start);
    if p.interrupted then Polled(c1, next, None, true, [])
    else if p.failed then Polled(c1, next, None, false, [])
    else
      var (c2, next2) := AfterAccept(c1, next, p.offers, p.now);
      if p.acceptFailed || p.listenerError then Polled(c2, next2, None, false, [])
      else
        ExpiryKeeps(cs, next, p.start);
        AcceptKeeps(c1, next, p.offers, p.now);
        var c3 := Erased(AfterEvents(c2, |c1|, p));
        var i := FirstReady(c3);
        Polled(AfterExpiry(AfterDispatch(c3, p), p.end), next2, if i < |c3| then Some(c3[i].serial) else None, true,
               SentIn(c2, |c1|, p))
  }

  // ----- what the list steps keep

  lemma {:induction false} ErasedMembers(cs: seq<Connection>, c: Connection)
    ensures c in Erased(cs) <==> c in cs && !Closed(c)
  {
    if cs != [] {
      var n := |cs| - 1;
      ErasedMembers(cs[..n], c);
      assert cs == cs[..n] + [cs[n]];
    }
  }

  lemma {:induction false} ErasedKeeps(cs: seq<Connection>, next: nat)
    requires InOrder(cs) && Below(cs, next) && forall i :: 0 <= i < |cs| ==> SoundConnection(cs[i])
    ensures InOrder(Erased(cs)) && AllOpen(Erased(cs)) && Below(Erased(cs), next) && |Erased(cs)| <= |cs|
  {
    if cs != [] {
      var n := |cs| - 1;
      var rest := cs[..n];
      ErasedKeeps(rest, next);
      var e := Erased(rest);
      forall i | 0 <= i < |e| ensures e[i].serial < cs[n].serial {
        assert e[i] in e;
        ErasedMembers(rest, e[i]);
        var k :| 0 <= k < |rest| && rest[k] == e[i];
      }
    }
  }

  lemma ExpiryKeeps(cs: seq<Connection>, next: nat, now: int)
    requires ValidList(cs, next)
    ensures ValidList(AfterExpiry(cs, now), next)
  {
    ErasedKeeps(CloseExpired(cs, now), next);
  }

  lemma {:induction false} AcceptKeeps(cs: seq<Connection>, next: nat, offers: seq<Offer>, now: int)
    requires ValidList(cs, next)
    ensures var (c2, next2) := AfterAccept(cs, next, offers, now);
            ValidList(c2, next2) && cs <= c2 && next <= next2
    ensures forall i :: |cs| <= i < |AfterAccept(cs, next, offers, now).0| ==>
              AfterAccept(cs, next, offers, now).0[i].serial >= next
    decreases |offers|
  {
    if offers != [] {
      match offers[0] {
        case BadClient => AcceptKeeps(cs, next, offers[1..], now);
        case Client(fd) =>
          if |cs| >= MAX_CONNECTIONS || fd < 0 {
            AcceptKeeps(cs, next, offers[1..], now);
          } else {
            AcceptKeeps(cs + [Connection(next, fd, Waiting, now + FIRST_PACKET_TIMEOUT, [], [], 0)], next + 1,
              offers[1..], now);
          }
      }
    }
  }

  lemma EventsKeep(cs: seq<Connection>, next: nat, n: nat, p: Poll)
    requires Usable(p) && ValidList(cs, next) && n <= |cs|
    ensures ValidList(Erased(AfterEvents(cs, n, p)), next)
  {
    hide Touch;
    ErasedKeeps(AfterEvents(cs, n, p), next);
  }

  lemma DispatchKeeps(cs: seq<Connection>, next: nat, p: Poll)
    requires Usable(p) && ValidList(cs, next)
    ensures ValidList(AfterDispatch(cs, p), next)
  {
  }

  /** The limit, the order and the soundness of all connections survive every poll. */
  lemma PollKeeps(cs: seq<Connection>, next: nat, p: Poll)
    requires Usable(p) && ValidList(cs, next)
    ensures ValidList(AfterPoll(cs, next, p).connections, AfterPoll(cs, next, p).next) &&
            next <= AfterPoll(cs, next, p).next
  {
    hide ValidList, AfterExpiry, AfterEvents, Erased, AfterDispatch;
    ExpiryKeeps(cs, next, p.start);
    var c1 := AfterExpiry(cs, p.start);
    AcceptKeeps(c1, next, p.offers, p.now);
    var (c2, next2) := AfterAccept(c1, next, p.offers, p.now);
    if Dispatching(p) {
      EventsKeep(c2, next2, |c1|, p);
      var c3 := Erased(AfterEvents(c2, |c1|, p));
      DispatchKeeps(c3, next2, p);
      ExpiryKeeps(AfterDispatch(c3, p), next2, p.end);
    }
  }

  // ----- who has been served

  /** A connection whose request the handler has not seen. */
  predicate Unserved(c: Connection) {
    c.state != Writing
  }

  ghost predicate IsUnserved(cs: seq<Connection>, serial: nat) {
    exists i :: 0 <= i < |cs| && cs[i].serial == serial && Unserved(cs[i])
  }

  ghost predicate IsReady(cs: seq<Connection>, serial: nat) {
    exists i :: 0 <= i < |cs| && cs[i].serial == serial && cs[i].state == Ready
  }

  /** The connections that can still be dispatched before a given one. */
  ghost function Ahead(cs: seq<Connection>, serial: nat): set<nat> {
    set t | 0 <= t < serial && IsUnserved(cs, t)
  }

  /** No connection of `a` becomes unserved again, and none with an old serial appears. */
  ghost predicate OnlyServes(a: seq<Connection>, b: seq<Connection>, next: nat) {
    forall t: nat :: t < next && IsUnserved(b, t) ==> IsUnserved(a, t)
  }

  lemma ErasureServes(a: seq<Connection>, b: seq<Connection>, t: nat)
    requires forall c :: c in b ==> c in a
    ensures IsUnserved(b, t) ==> IsUnserved(a, t)
  {
    if IsUnserved(b, t) {
      var i :| 0 <= i < |b| && b[i].serial == t && Unserved(b[i]);
      assert b[i] in b;
      var k :| 0 <= k < |a| && a[k] == b[i];
    }
  }

  lemma PointwiseServes(a: seq<Connection>, b: seq<Connection>, t: nat)
    requires |a| == |b| && forall i :: 0 <= i < |a| ==>
               b[i].serial == a[i].serial && (Unserved(b[i]) ==> Unserved(a[i]))
    ensures IsUnserved(b, t) ==> IsUnserved(a, t)
  {
    if IsUnserved(b, t) {
      var i :| 0 <= i < |b| && b[i].serial == t && Unserved(b[i]);
      assert a[i].serial == t && Unserved(a[i]);
    }
  }

  lemma ExpiryServes(cs: seq<Connection>, now: int, next: nat)
    ensures OnlyServes(cs, AfterExpiry(cs, now), next)
  {
    var closed := CloseExpired(cs, now);
    forall t: nat ensures IsUnserved(AfterExpiry(cs, now), t) ==> IsUnserved(cs, t) {
      forall c | c in Erased(closed) ensures c in closed {
        ErasedMembers(closed, c);
      }
      ErasureServes(closed, Erased(closed), t);
      PointwiseServes(cs, closed, t);
    }
  }

  lemma {:induction false} AcceptServes(cs: seq<Connection>, next: nat, offers: seq<Offer>, now: int)
    requires ValidList(cs, next)
    ensures OnlyServes(cs, AfterAccept(cs, next, offers, now).0, next)
  {
    AcceptKeeps(cs, next, offers, now);
    var c2 := AfterAccept(cs, next, offers, now).0;
    forall t: nat | t < next && IsUnserved(c2, t) ensures IsUnserved(cs, t) {
      var i :| 0 <= i < |c2| && c2[i].serial == t && Unserved(c2[i]);
      assert i < |cs| && cs[i] == c2[i];
    }
  }

  lemma EventsServe(cs: seq<Connection>, n: nat, p: Poll, next: nat)
    requires Usable(p) && AllOpen(cs) && n <= |cs|
    ensures OnlyServes(cs, Erased(AfterEvents(cs, n, p)), next)
  {
    hide Touch;
    var touched := AfterEvents(cs, n, p);
    forall t: nat ensures IsUnserved(Erased(touched), t) ==> IsUnserved(cs, t) {
      forall c | c in Erased(touched) ensures c in touched {
        ErasedMembers(touched, c);
      }
      ErasureServes(touched, Erased(touched), t);
      PointwiseServes(cs, touched, t);
    }
  }

  /** Dispatch serves one connection and leaves the others as they are. */
  lemma {:induction false} DispatchServes(cs: seq<Connection>, p: Poll, next: nat)
    requires Usable(p) && InOrder(cs)
    ensures OnlyServes(cs, AfterDispatch(cs, p), next)
    ensures FirstReady(cs) < |cs| ==> !IsUnserved(AfterDispatch(cs, p), cs[FirstReady(cs)].serial)
  {
    forall t: nat ensures IsUnserved(AfterDispatch(cs, p), t) ==> IsUnserved(cs, t) {
      PointwiseServes(cs, AfterDispatch(cs, p), t);
    }
  }

  // ----- a ready request waits until it is served

  lemma {:induction false} ErasureKeepsReady(cs: seq<Connection>, serial: nat, i: nat)
    requires i < |cs| && cs[i].serial == serial && cs[i].state == Ready && !Closed(cs[i])
    ensures IsReady(Erased(cs), serial)
  {
    assert cs[i] in cs;
    ErasedMembers(cs, cs[i]);
    var k :| 0 <= k < |Erased(cs)| && Erased(cs)[k] == cs[i];
  }

  /** A ready request does not expire. */
  lemma ExpiryKeepsReady(cs: seq<Connection>, now: int, serial: nat)
    requires AllOpen(cs) && IsReady(cs, serial)
    ensures IsReady(AfterExpiry(cs, now), serial)
  {
    var i :| 0 <= i < |cs| && cs[i].serial == serial && cs[i].state == Ready;
    assert CloseExpired(cs, now)[i] == cs[i];
    ErasureKeepsReady(CloseExpired(cs, now), serial, i);
  }

  lemma {:induction false} AcceptKeepsReady(cs: seq<Connection>, next: nat, offers: seq<Offer>, now: int, serial: nat)
    requires ValidList(cs, next) && IsReady(cs, serial)
    ensures IsReady(AfterAccept(cs, next, offers, now).0, serial)
  {
    AcceptKeeps(cs, next, offers, now);
    var i :| 0 <= i < |cs| && cs[i].serial == serial && cs[i].state == Ready;
    assert AfterAccept(cs, next, offers, now).0[i] == cs[i];
  }

  /** The socket of the connection reports an error in this poll. */
  predicate SocketError(p: Poll, serial: nat) {
    serial in p.events && p.events[serial].error
  }

  lemma EventsKeepReady(cs: seq<Connection>, n: nat, p: Poll, serial: nat)
    requires Usable(p) && AllOpen(cs) && n <= |cs| && IsReady(cs, serial) && !SocketError(p, serial)
    ensures IsReady(Erased(AfterEvents(cs, n, p)), serial)
  {
    var i :| 0 <= i < |cs| && cs[i].serial == serial && cs[i].state == Ready;
    assert AfterEvents(cs, n, p)[i] == cs[i];
    hide Touch;
    ErasureKeepsReady(AfterEvents(cs, n, p), serial, i);
  }

  lemma ServedShrinks(a: seq<Connection>, b: seq<Connection>, serial: nat)
    requires OnlyServes(a, b, serial)
    ensures Ahead(b, serial) <= Ahead(a, serial)
  {
    forall t | t in Ahead(b, serial) ensures t in Ahead(a, serial) {
    }
  }

  lemma SubsetFewer(a: set<nat>, b: set<nat>)
    requires a <= b
    ensures |a| <= |b|
    ensures a != b ==> |a| < |b|
  {
    var rest := b - a;
    assert b == a + rest;
    assert |b| == |a| + |rest|;
    if rest == {} {
      assert a == b;
    }
  }

  /** The part of a poll after the events: serve the first ready one, expire the idle. */
  lemma {:induction false} DispatchAdvances(cs: seq<Connection>, next: nat, p: Poll, serial: nat)
    requires Usable(p) && ValidList(cs, next) && IsReady(cs, serial)
    ensures var i := FirstReady(cs);
            var after := AfterExpiry(AfterDispatch(cs, p), p.end);
            && i < |cs| && cs[i].serial <= serial
            && (cs[i].serial < serial ==> IsReady(after, serial) && |Ahead(after, serial)| < |Ahead(cs, serial)|)
  {
    var i := FirstReady(cs);
    var k :| 0 <= k < |cs| && cs[k].serial == serial && cs[k].state == Ready;
    assert i <= k;
    if i < k {
      var served := AfterDispatch(cs, p);
      DispatchKeeps(cs, next, p);
      assert served[k] == cs[k];
      ExpiryKeepsReady(served, p.end, serial);
      DispatchServes(cs, p, serial);
      ExpiryServes(served, p.end, serial);
      var after := AfterExpiry(served, p.end);
      ServedShrinks(cs, served, serial);
      ServedShrinks(served, after, serial);
      var t := cs[i].serial;
      hide AfterExpiry, AfterDispatch;
      assert IsUnserved(cs, t);
      assert t in Ahead(cs, serial) && t !in Ahead(after, serial);
      SubsetFewer(Ahead(after, serial), Ahead(cs, serial));
    }
  }

  /** What a dispatching poll does for a ready connection: an error, its turn, or one fewer ahead of it. */
  ghost predicate Advanced(cs: seq<Connection>, next: nat, p: Poll, serial: nat)
    requires Usable(p) && ValidList(cs, next)
  {
    var q := AfterPoll(cs, next, p);
    || SocketError(p, serial)
    || q.handled == Some(serial)
    || (IsReady(q.connections, serial) && |Ahead(q.connections, serial)| < |Ahead(cs, serial)|)
  }

  lemma PollAdvances(cs: seq<Connection>, next: nat, p: Poll, serial: nat)
    requires Usable(p) && ValidList(cs, next) && Dispatching(p) && IsReady(cs, serial)
    ensures Advanced(cs, next, p, serial)
  {
    ReadyIsOld(cs, next, serial);
    ExpiryKeeps(cs, next, p.start);
    ExpiryServes(cs, p.start, serial);
    ExpiryKeepsReady(cs, p.start, serial);
    var c1 := AfterExpiry(cs, p.start);
    AcceptKeeps(c1, next, p.offers, p.now);
    AcceptServes(c1, next, p.offers, p.now);
    AcceptKeepsReady(c1, next, p.offers, p.now, serial);
    var (c2, next2) := AfterAccept(c1, next, p.offers, p.now);
    EventsKeep(c2, next2, |c1|, p);
    EventsServe(c2, |c1|, p, serial);
    var c3 := Erased(AfterEvents(c2, |c1|, p));
    if !SocketError(p, serial) {
      EventsKeepReady(c2, |c1|, p, serial);
      DispatchAdvances(c3, next2, p, serial);
      assert OnlyServes(c1, c2, serial);
      ServedShrinks(cs, c1, serial);
      ServedShrinks(c1, c2, serial);
      ServedShrinks(c2, c3, serial);
      hide AfterExpiry, AfterEvents, Erased, AfterDispatch, AfterAccept, IsReady, Ahead, IsUnserved, InOrder, AllOpen;
      SubsetFewer(Ahead(c3, serial), Ahead(cs, serial));
    }
  }

  lemma ReadyIsOld(cs: seq<Connection>, next: nat, serial: nat)
    requires Below(cs, next) && IsReady(cs, serial)
    ensures serial < next
  {
  }

  /** A poll that does not get to dispatch leaves a ready connection ready, with no more ahead of it. */
  lemma OtherPollKeeps(cs: seq<Connection>, next: nat, p: Poll, serial: nat)
    requires Usable(p) && ValidList(cs, next) && !Dispatching(p) && IsReady(cs, serial)
    ensures var q := AfterPoll(cs, next, p);
            q.handled == None && IsReady(q.connections, serial) && |Ahead(q.connections, serial)| <= |Ahead(cs, serial)|
  {
    ReadyIsOld(cs, next, serial);
    ExpiryKeeps(cs, next, p.start);
    ExpiryServes(cs, p.start, serial);
    ExpiryKeepsReady(cs, p.start, serial);
    var c1 := AfterExpiry(cs, p.start);
    AcceptServes(c1, next, p.offers, p.now);
    AcceptKeepsReady(c1, next, p.offers, p.now, serial);
    var c2 := AfterAccept(c1, next, p.offers, p.now).0;
    assert OnlyServes(c1, c2, serial);
    ServedShrinks(cs, c1, serial);
    ServedShrinks(c1, c2, serial);
    hide AfterExpiry, AfterAccept, IsReady, Ahead, IsUnserved;
    SubsetFewer(Ahead(c1, serial), Ahead(cs, serial));
    SubsetFewer(Ahead(c2, serial), Ahead(c1, serial));
  }

  // ----- every run

  /** Somewhere in the run the connection gets its turn or its socket fails. */
  ghost predicate Answered(cs: seq<Connection>, next: nat, polls: seq<Poll>, serial: nat)
    requires ValidList(cs, next) && forall i :: 0 <= i < |polls| ==> Usable(polls[i])
    decreases |polls|
  {
    polls != [] &&
    var q := AfterPoll(cs, next, polls[0]);
    PollKeeps(cs, next, polls[0]);
    (Dispatching(polls[0]) && (SocketError(polls[0], serial) || q.handled == Some(serial))) ||
      Answered(q.connections, q.next, polls[1..], serial)
  }

  function DispatchCount(polls: seq<Poll>): nat {
    if polls == [] then 0 else (if Dispatching(polls[0]) then 1 else 0) + DispatchCount(polls[1..])
  }

  lemma {:induction false} AnsweredInTime(cs: seq<Connection>, next: nat, polls: seq<Poll>, serial: nat)
    requires ValidList(cs, next) && IsReady(cs, serial)
    requires forall i :: 0 <= i < |polls| ==> Usable(polls[i])
    requires DispatchCount(polls) > |Ahead(cs, serial)|
    ensures Answered(cs, next, polls, serial)
    decreases |polls|
  {
    hide AfterPoll, IsReady, Ahead, ValidList;
    var p, rest := polls[0], polls[1..];
    PollKeeps(cs, next, p);
    var q := AfterPoll(cs, next, p);
    if Dispatching(p) {
      PollAdvances(cs, next, p, serial);
      if !SocketError(p, serial) && q.handled != Some(serial) {
        AnsweredInTime(q.connections, q.next, rest, serial);
      }
    } else {
      OtherPollKeeps(cs, next, p, serial);
      AnsweredInTime(q.connections, q.next, rest, serial);
    }
  }

  ghost function Serials(cs: seq<Connection>): set<nat> {
    set i | 0 <= i < |cs| :: cs[i].serial
  }

  lemma {:induction false} SerialsBounded(cs: seq<Connection>)
    ensures |Serials(cs)| <= |cs|
  {
    if cs != [] {
      var n := |cs| - 1;
      var rest := cs[..n];
      SerialsBounded(rest);
      assert Serials(cs) == Serials(rest) + {cs[n].serial} by {
        forall t ensures t in Serials(cs) <==> t in Serials(rest) || t == cs[n].serial {
          if t in Serials(cs) {
            var i :| 0 <= i < |cs| && cs[i].serial == t;
            assert i < n ==> rest[i] == cs[i];
          }
          if t in Serials(rest) {
            var i :| 0 <= i < |rest| && rest[i].serial == t;
            assert cs[i].serial == t;
          }
          assert cs[n].serial in Serials(cs);
        }
      }
    }
  }

  lemma AheadBounded(cs: seq<Connection>, next: nat, serial: nat)
    requires ValidList(cs, next) && IsReady(cs, serial)
    ensures |Ahead(cs, serial)| < MAX_CONNECTIONS
  {
    SerialsBounded(cs);
    assert serial in Serials(cs) && serial !in Ahead(cs, serial);
    assert Ahead(cs, serial) <= Serials(cs);
    SubsetFewer(Ahead(cs, serial), Serials(cs));
  }

  /** Bounded overtaking: a ready request is answered within MAX_CONNECTIONS dispatching polls. */
  lemma {:induction false} BoundedOvertaking(cs: seq<Connection>, next: nat, polls: seq<Poll>, serial: nat)
    requires ValidList(cs, next) && IsReady(cs, serial)
    requires forall i :: 0 <= i < |polls| ==> Usable(polls[i])
    requires DispatchCount(polls) >= MAX_CONNECTIONS
    ensures Answered(cs, next, polls, serial)
  {
    AheadBounded(cs, next, serial);
    AnsweredInTime(cs, next, polls, serial);
  }

  // ----- the handler sees a connection once

  /** The connections the handler has seen: all accepted, none of them seen twice, none unserved. */
  ghost predicate SeenOnce(cs: seq<Connection>, next: nat, seen: seq<nat>) {
    && (forall i, j :: 0 <= i < j < |seen| ==> seen[i] != seen[j])
    && (forall i :: 0 <= i < |seen| ==> seen[i] < next && !IsUnserved(cs, seen[i]))
  }

  lemma PollServes(cs: seq<Connection>, next: nat, p: Poll)
    requires Usable(p) && ValidList(cs, next)
    ensures var q := AfterPoll(cs, next, p);
            && OnlyServes(cs, q.connections, next)
            && (q.handled.Some? ==> q.handled.value < q.next && !IsUnserved(q.connections, q.handled.value))
            && (q.handled.Some? && q.handled.value < next ==> IsUnserved(cs, q.handled.value))
  {
    ExpiryKeeps(cs, next, p.start);
    ExpiryServes(cs, p.start, next);
    var c1 := AfterExpiry(cs, p.start);
    AcceptKeeps(c1, next, p.offers, p.now);
    AcceptServes(c1, next, p.offers, p.now);
    var (c2, next2) := AfterAccept(c1, next, p.offers, p.now);
    if Dispatching(p) {
      EventsKeep(c2, next2, |c1|, p);
      EventsServe(c2, |c1|, p, next);
      var c3 := Erased(AfterEvents(c2, |c1|, p));
      DispatchServes(c3, p, next2);
      var c4 := AfterDispatch(c3, p);
      ExpiryServes(c4, p.end, next2);
      hide AfterExpiry, AfterEvents, Erased, AfterDispatch, AfterAccept;
      var i := FirstReady(c3);
      if i < |c3| {
        assert c3[i].serial < next2;
        assert IsUnserved(c3, c3[i].serial);
      }
      hide IsUnserved, FirstReady;
    }
  }

  lemma SeenStaysOnce(cs: seq<Connection>, next: nat, seen: seq<nat>, p: Poll)
    requires Usable(p) && ValidList(cs, next) && SeenOnce(cs, next, seen)
    ensures var q := AfterPoll(cs, next, p);
            SeenOnce(q.connections, q.next, if q.handled.Some? then seen + [q.handled.value] else seen)
  {
    PollServes(cs, next, p);
    PollKeeps(cs, next, p);
    hide AfterPoll, IsUnserved, ValidList;
  }

  class Transport {
    var connections: seq<Connection>
    var nextSerial: nat
    ghost var seen: seq<nat>
    ghost var sent: seq<(nat, Bytes)>

    ghost predicate Valid()
      reads this
    {
      ValidList(connections, nextSerial) && SeenOnce(connections, nextSerial, seen)
    }

    constructor ()
      ensures Valid() && connections == [] && seen == [] && sent == []
    {
      connections, nextSerial, seen, sent := [], 0, [], [];
    }

    method EraseClosed()
      modifies this`connections
      ensures connections == Erased(old(connections))
    {
      var all, kept := connections, [];
      for i := 0 to |all|
        invariant kept == Erased(all[..i])
      {
        assert all[..i + 1][..i] == all[..i];
        if !Closed(all[i]) {
          kept := kept + [all[i]];
        }
      }
      assert all[..|all|] == all;
      connections := kept;
    }

    method ExpireConnections(now: int)
      modifies this`connections
      ensures connections == AfterExpiry(old(connections), now)
    {
      ghost var before := connections;
      for i := 0 to |connections|
        invariant |connections| == |before|
        invariant forall k :: 0 <= k < i ==> connections[k] == CloseExpired(before, now)[k]
        invariant forall k :: i <= k < |before| ==> connections[k] == before[k]
      {
        if connections[i].state != Ready && now >= connections[i].deadline {
          connections := connections[i := Close(connections[i])];
        }
      }
      assert connections == CloseExpired(before, now);
      EraseClosed();
    }

    method AcceptClients(offers: seq<Offer>, now: int)
      modifies this`connections, this`nextSerial
      ensures (connections, nextSerial) == AfterAccept(old(connections), old(nextSerial), offers, now)
    {
      ghost var cs, next := connections, nextSerial;
      for i := 0 to |offers|
        invariant AfterAccept(cs, next, offers, now) == AfterAccept(connections, nextSerial, offers[i..], now)
      {
        assert offers[i..][1..] == offers[i + 1..];
        match offers[i] {
          case BadClient =>
          case Client(fd) =>
            if |connections| < MAX_CONNECTIONS && fd >= 0 {
              connections := connections + [Connection(nextSerial, fd, Waiting, now + FIRST_PACKET_TIMEOUT, [], [], 0)];
              nextSerial := nextSerial + 1;
            }
        }
      }
    }

    /** writeResponseChunk: one frame, put down as sent when the socket took all of it. */
    method WriteChunk(i: nat, s: Sending)
      requires i < |connections| && SoundConnection(connections[i]) && !Closed(connections[i]) &&
               connections[i].state == Writing
      modifies this`connections, this`sent
      ensures connections == old(connections)[i := Write(old(connections)[i], s)]
      ensures sent == old(sent) + if s == Whole then
                [(old(connections)[i].serial,
                  SentBy(old(connections)[i], QUIET.(writable := true, sending := s))[0])] else []
    {
      var c := connections[i];
      var remaining := |c.response| - c.offset;
      var chunk := if remaining < CHUNK then remaining else CHUNK;
      var frame := ResponseFrame(c.response, c.offset, chunk);
      if s == Again {
        return;
      }
      if s != Whole {
        connections := connections[i := Close(c)];
        return;
      }
      sent := sent + [(c.serial, frame)];
      c := c.(offset := c.offset + chunk);
      connections := connections[i := if c.offset == |c.response| then Close(c) else c];
    }

    /** One connection meets its events. */
    method HandleConnection(i: nat, p: Poll)
      requires Usable(p) && i < |connections| && SoundConnection(connections[i]) && !Closed(connections[i])
      modifies this`connections, this`sent
      ensures var c, e := old(connections)[i], EventsOf(p, old(connections)[i]);
              && connections == old(connections)[i := Touch(c, e, p)]
              && sent == old(sent) + if SentBy(c, e) == [] then [] else [(c.serial, SentBy(c, e)[0])]
    {
      hide ResponseFrame, Queue;
      var c, e := connections[i], EventsOf(p, connections[i]);
      if e.error {
        connections := connections[i := Close(c)];
        return;
      }
      if c.state == Waiting && e.readable {
        connections := connections[i := Receive(c, e.receiving, p)];
      } else if c.state == Writing && e.writable {
        WriteChunk(i, e.sending);
      }
      if e.hangup && connections[i].state == Waiting {
        connections := connections[i := Close(connections[i])];
      }
    }

    method HandleEvents(n: nat, p: Poll)
      requires Usable(p) && AllOpen(connections) && n <= |connections|
      modifies this`connections, this`sent
      ensures connections == AfterEvents(old(connections), n, p)
      ensures sent == old(sent) + SentIn(old(connections), n, p)
    {
      hide Touch, SentBy;
      ghost var before := connections;
      for i := 0 to n
        invariant |connections| == |before|
        invariant forall k :: 0 <= k < i ==> connections[k] == AfterEvents(before, n, p)[k]
        invariant forall k :: i <= k < |before| ==> connections[k] == before[k]
        invariant sent == old(sent) + SentIn(before, i, p)
      {
        HandleConnection(i, p);
      }
      assert connections == AfterEvents(before, n, p);
    }

    method FindReady() returns (i: nat)
      ensures i == FirstReady(connections)
    {
      i := 0;
      while i < |connections| && connections[i].state != Ready
        invariant 0 <= i <= |connections| && forall k :: 0 <= k < i ==> connections[k].state != Ready
      {
        i := i + 1;
      }
    }

    method PollOnce(p: Poll) returns (ok: bool)
      requires Valid() && Usable(p)
      modifies this
      ensures Valid()
      ensures var q := AfterPoll(old(connections), old(nextSerial), p);
              && connections == q.connections && nextSerial == q.next && ok == q.ok
              && seen == (if q.handled.Some? then old(seen) + [q.handled.value] else old(seen))
              && sent == old(sent) + q.sent
    {
      hide AfterAccept, AfterEvents, Erased, CloseExpired, AfterExpiry, ValidList, SeenOnce, SentIn, Queue;
      ghost var cs, next := connections, nextSerial;
      SeenStaysOnce(cs, next, seen, p);
      PollKeeps(cs, next, p);
      ExpireConnections(p.start);
      if p.interrupted {
        return true;
      }
      if p.failed {
        return false;
      }
      var n := |connections|;
      ExpiryKeeps(cs, next, p.start);
      AcceptKeeps(connections, next, p.offers, p.now);
      AcceptClients(p.offers, p.now);
      if p.acceptFailed || p.listenerError {
        return false;
      }
      assert AllOpen(connections) by { ListIsOpen(connections, nextSerial); }
      HandleEvents(n, p);
      EraseClosed();
      var i := FindReady();
      if i < |connections| {
        seen := seen + [connections[i].serial];
        var c := connections[i];
        connections := connections[i := Queue(c, p.reply(c.fd, c.request), p)];
      }
      ExpireConnections(p.end);
      ok := true;
    }
  }

  lemma ListIsOpen(cs: seq<Connection>, next: nat)
    requires ValidList(cs, next)
    ensures AllOpen(cs)
  {
  }
}
