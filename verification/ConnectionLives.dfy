/** The server's list taken apart: each connection lives by itself, given when it is its turn, and what
    it sends is the handler's answer to its own request. */
module ConnectionLives {
  import opened Common
  import opened IpcWire
  import opened IpcTransport

  // ----- one connection in one poll

  /** What one poll makes of a connection; `turn` says that the handler is asked for it. */
  function Life(c: Connection, p: Poll, turn: bool): (after: Option<Connection>)
    requires Usable(p) && SoundConnection(c) && !Closed(c)
    ensures after.Some? ==> after.value.serial == c.serial && after.value.fd == c.fd
  {
    if Expired(c, p.start) then None
    else if !Dispatching(p) then Some(c)
    else
      var d := Touch(c, EventsOf(p, c), p);
      if Closed(d) then None
      else
        var e := if turn then Queue(d, p.reply(d.fd, d.request), p) else d;
        if Expired(e, p.end) then None else Some(e)
  }

  /** The frame it sends. */
  function LifeSent(c: Connection, p: Poll): seq<Bytes>
    requires SoundConnection(c) && !Closed(c)
  {
    if Expired(c, p.start) || !Dispatching(p) then [] else SentBy(c, EventsOf(p, c))
  }

  /** The frames of one connection among all that left. */
  function FramesOf(sent: seq<(nat, Bytes)>, serial: nat): seq<Bytes> {
    if sent == [] then []
    else
      var last := sent[|sent| - 1];
      FramesOf(sent[..|sent| - 1], serial) + if last.0 == serial then [last.1] else []
  }

  // ----- the list, by membership

  /** `d` is what became of connection `c`. */
  ghost predicate Becomes(cs: seq<Connection>, c: Connection, d: Option<Connection>) {
    (d.Some? ==> d.value in cs) && forall x :: x in cs && x.serial == c.serial ==> d == Some(x)
  }

  lemma SameSerial(cs: seq<Connection>, a: Connection, b: Connection)
    requires InOrder(cs) && a in cs && b in cs && a.serial == b.serial
    ensures a == b
  {
    var i :| 0 <= i < |cs| && cs[i] == a;
    var j :| 0 <= j < |cs| && cs[j] == b;
  }

  /** A connection stays unless its deadline has come and its request is not there yet or being answered. */
  lemma ExpiryExactly(cs: seq<Connection>, now: int, c: Connection)
    requires AllOpen(cs)
    ensures c in AfterExpiry(cs, now) <==> c in cs && (c.state == Ready || now < c.deadline)
  {
    var closed := CloseExpired(cs, now);
    ErasedMembers(closed, c);
    if c in cs && !Expired(c, now) {
      var i :| 0 <= i < |cs| && cs[i] == c;
      assert closed[i] == c;
    }
    if c in closed {
      var i :| 0 <= i < |closed| && closed[i] == c;
      assert cs[i] in cs;
    }
  }

  lemma ExpiryIsLife(cs: seq<Connection>, next: nat, now: int, c: Connection)
    requires ValidList(cs, next) && c in cs
    ensures Becomes(AfterExpiry(cs, now), c, if Expired(c, now) then None else Some(c))
  {
    hide AfterExpiry, SoundConnection;
    ExpiryExactly(cs, now, c);
    forall x | x in AfterExpiry(cs, now) && x.serial == c.serial ensures x == c {
      ExpiryExactly(cs, now, x);
      SameSerial(cs, x, c);
    }
  }

  lemma {:induction false} AcceptIsLife(cs: seq<Connection>, next: nat, offers: seq<Offer>, now: int, c: Connection)
    requires ValidList(cs, next) && c in cs
    ensures Becomes(AfterAccept(cs, next, offers, now).0, c, Some(c))
  {
    AcceptKeeps(cs, next, offers, now);
    var c2 := AfterAccept(cs, next, offers, now).0;
    var i :| 0 <= i < |cs| && cs[i] == c;
    assert c2[i] == c;
    forall x | x in c2 && x.serial == c.serial ensures x == c {
      SameSerial(c2, x, c);
    }
  }

  /** What is not in the list before does not appear in it under an old serial. */
  lemma {:induction false} AcceptAddsNew(cs: seq<Connection>, next: nat, offers: seq<Offer>, now: int, x: Connection)
    requires ValidList(cs, next) && x in AfterAccept(cs, next, offers, now).0 && x.serial < next
    ensures x in cs
  {
    AcceptKeeps(cs, next, offers, now);
    var c2 := AfterAccept(cs, next, offers, now).0;
    var i :| 0 <= i < |c2| && c2[i] == x;
    assert i < |cs|;
  }

  lemma EventsAreLife(cs: seq<Connection>, next: nat, n: nat, p: Poll, i: nat)
    requires Usable(p) && ValidList(cs, next) && i < n <= |cs|
    ensures var d := Touch(cs[i], EventsOf(p, cs[i]), p);
            Becomes(Erased(AfterEvents(cs, n, p)), cs[i], if Closed(d) then None else Some(d))
  {
    hide Touch;
    var touched := AfterEvents(cs, n, p);
    var d := touched[i];
    assert d in touched;
    ErasedMembers(touched, d);
    forall x | x in Erased(touched) && x.serial == cs[i].serial ensures x == d && !Closed(x) {
      ErasedMembers(touched, x);
      var k :| 0 <= k < |touched| && touched[k] == x;
      assert touched[k].serial == cs[k].serial;
      assert k == i;
    }
  }

  lemma {:induction false} DispatchIsLife(cs: seq<Connection>, next: nat, p: Poll, c: Connection)
    requires Usable(p) && ValidList(cs, next) && c in cs
    ensures var turn := FirstReady(cs) < |cs| && cs[FirstReady(cs)].serial == c.serial;
            && (turn ==> c.state == Ready)
            && Becomes(AfterDispatch(cs, p), c, Some(if turn then Queue(c, p.reply(c.fd, c.request), p) else c))
  {
    hide FirstReady, Queue;
    var i := FirstReady(cs);
    if i < |cs| {
      QueueKeepsSerial(cs[i], p);
      ReplacedBecomes(cs, i, Queue(cs[i], p.reply(cs[i].fd, cs[i].request), p), c);
      assert cs[i] in cs;
      if cs[i].serial == c.serial {
        SameSerial(cs, cs[i], c);
      }
    } else {
      forall x | x in cs && x.serial == c.serial ensures x == c {
        SameSerial(cs, x, c);
      }
    }
  }

  lemma ReplacedBecomes(cs: seq<Connection>, i: nat, now: Connection, c: Connection)
    requires InOrder(cs) && i < |cs| && now.serial == cs[i].serial && c in cs
    ensures Becomes(cs[i := now], c, Some(if c.serial == now.serial then now else c))
  {
    var after := cs[i := now];
    var k :| 0 <= k < |cs| && cs[k] == c;
    assert after[k] in after;
    forall x | x in after && x.serial == c.serial ensures x == after[k] {
      var j :| 0 <= j < |after| && after[j] == x;
      assert after[j].serial == cs[j].serial;
    }
  }

  lemma QueueKeepsSerial(d: Connection, p: Poll)
    requires Usable(p)
    ensures Queue(d, p.reply(d.fd, d.request), p).serial == d.serial
  {
  }

  lemma {:induction false} FramesConcat(a: seq<(nat, Bytes)>, b: seq<(nat, Bytes)>, serial: nat)
    ensures FramesOf(a + b, serial) == FramesOf(a, serial) + FramesOf(b, serial)
  {
    if b == [] {
      assert a + b == a;
    } else {
      var n := |b| - 1;
      FramesConcat(a, b[..n], serial);
      var last := if b[n].0 == serial then [b[n].1] else [];
      assert (a + b)[..|a + b| - 1] == a + b[..n] && (a + b)[|a + b| - 1] == b[n];
      FramesLast(a + b, serial);
      FramesLast(b, serial);
      hide FramesOf;
      assert FramesOf(a + b, serial) == (FramesOf(a, serial) + FramesOf(b[..n], serial)) + last;
    }
  }

  lemma {:induction false} FramesLast(sent: seq<(nat, Bytes)>, serial: nat)
    requires sent != []
    ensures var last := sent[|sent| - 1];
            FramesOf(sent, serial) ==
            FramesOf(sent[..|sent| - 1], serial) + if last.0 == serial then [last.1] else []
  {
  }

  lemma {:induction false} OneFrame(serial: nat, frame: Bytes, other: nat)
    ensures FramesOf([(serial, frame)], other) == if serial == other then [frame] else []
  {
    assert [(serial, frame)][..0] == [];
  }

  lemma AtMostOne(c: Connection, e: Events)
    requires SoundConnection(c)
    ensures SentBy(c, e) == [] || SentBy(c, e) == [SentBy(c, e)[0]]
  {
    hide ResponseFrame;
  }

  /** One more connection adds what it sends. */
  lemma {:induction false} SentNext(cs: seq<Connection>, n: nat, p: Poll, serial: nat)
    requires AllOpen(cs) && 0 < n <= |cs|
    ensures cs[n - 1].serial != serial ==>
              FramesOf(SentIn(cs, n, p), serial) == FramesOf(SentIn(cs, n - 1, p), serial)
    ensures cs[n - 1].serial == serial && FramesOf(SentIn(cs, n - 1, p), serial) == [] ==>
              FramesOf(SentIn(cs, n, p), serial) == SentBy(cs[n - 1], EventsOf(p, cs[n - 1]))
  {
    hide SentBy, EventsOf, SoundConnection, FramesOf;
    var c, before := cs[n - 1], SentIn(cs, n - 1, p);
    var own := SentBy(c, EventsOf(p, c));
    if own != [] {
      AtMostOne(c, EventsOf(p, c));
      assert SentIn(cs, n, p) == before + [(c.serial, own[0])];
      FramesConcat(before, [(c.serial, own[0])], serial);
      OneFrame(c.serial, own[0], serial);
      EmptyPlus(FramesOf([(c.serial, own[0])], serial));
    } else {
      assert SentIn(cs, n, p) == before;
    }
  }

  lemma EmptyPlus(s: seq<Bytes>)
    ensures [] + s == s && s + [] == s
  {
  }

  lemma {:induction false} NothingSent(cs: seq<Connection>, p: Poll, serial: nat)
    requires AllOpen(cs)
    ensures FramesOf(SentIn(cs, 0, p), serial) == []
  {
  }

  lemma SerialsDiffer(cs: seq<Connection>, i: nat, j: nat)
    requires InOrder(cs) && i < |cs| && j < |cs|
    ensures cs[i].serial == cs[j].serial <==> i == j
  {
  }

  /** A poll sends for a connection what that connection sends. */
  lemma {:induction false} SentIsOwn(cs: seq<Connection>, n: nat, p: Poll, i: nat)
    requires InOrder(cs) && AllOpen(cs) && i < |cs| && n <= |cs|
    ensures FramesOf(SentIn(cs, n, p), cs[i].serial) == if i < n then SentBy(cs[i], EventsOf(p, cs[i])) else []
    decreases n
  {
    hide *;
    if n == 0 {
      NothingSent(cs, p, cs[i].serial);
    } else {
      SerialsDiffer(cs, i, n - 1);
      SentIsOwn(cs, n - 1, p, i);
      SentNext(cs, n, p, cs[i].serial);
    }
  }

  // ----- the whole poll

  ghost predicate Absent(cs: seq<Connection>, serial: nat) {
    forall x :: x in cs ==> x.serial != serial
  }

  lemma ExpiryAbsent(cs: seq<Connection>, now: int, serial: nat)
    requires Absent(cs, serial)
    ensures Absent(AfterExpiry(cs, now), serial)
  {
    var closed := CloseExpired(cs, now);
    forall x | x in AfterExpiry(cs, now) ensures x.serial != serial {
      ErasedMembers(closed, x);
      var i :| 0 <= i < |closed| && closed[i] == x;
      assert cs[i] in cs;
    }
  }

  lemma {:induction false} AcceptAbsent(cs: seq<Connection>, next: nat, offers: seq<Offer>, now: int, serial: nat)
    requires ValidList(cs, next) && serial < next && Absent(cs, serial)
    ensures Absent(AfterAccept(cs, next, offers, now).0, serial)
  {
    forall x | x in AfterAccept(cs, next, offers, now).0 && x.serial < next ensures x in cs {
      AcceptAddsNew(cs, next, offers, now, x);
    }
  }

  lemma EventsAbsent(cs: seq<Connection>, n: nat, p: Poll, serial: nat)
    requires Usable(p) && AllOpen(cs) && n <= |cs| && Absent(cs, serial)
    ensures Absent(Erased(AfterEvents(cs, n, p)), serial)
  {
    hide Touch;
    var touched := AfterEvents(cs, n, p);
    forall x | x in Erased(touched) ensures x.serial != serial {
      ErasedMembers(touched, x);
      var i :| 0 <= i < |touched| && touched[i] == x;
      assert cs[i] in cs && touched[i].serial == cs[i].serial;
    }
  }

  lemma {:induction false} DispatchAbsent(cs: seq<Connection>, p: Poll, serial: nat)
    requires Usable(p) && Absent(cs, serial)
    ensures Absent(AfterDispatch(cs, p), serial)
    ensures FirstReady(cs) < |cs| ==> cs[FirstReady(cs)].serial != serial
  {
    var after := AfterDispatch(cs, p);
    forall x | x in after ensures x.serial != serial {
      var i :| 0 <= i < |after| && after[i] == x;
      assert cs[i] in cs;
    }
  }

  lemma {:induction false} SentAbsent(cs: seq<Connection>, n: nat, p: Poll, serial: nat)
    requires AllOpen(cs) && n <= |cs| && Absent(cs, serial)
    ensures FramesOf(SentIn(cs, n, p), serial) == []
    decreases n
  {
    hide SentBy, EventsOf, FramesOf, SentIn, AllOpen, SoundConnection, Closed;
    if n == 0 {
      NothingSent(cs, p, serial);
    } else {
      assert cs[n - 1] in cs;
      SentAbsent(cs, n - 1, p, serial);
      SentNext(cs, n, p, serial);
    }
  }

  /** From the events on, for a connection that is there. */
  lemma RestIsLife(c2: seq<Connection>, next: nat, n: nat, p: Poll, i: nat)
    requires Usable(p) && ValidList(c2, next) && i < n <= |c2|
    ensures var c, c3 := c2[i], Erased(AfterEvents(c2, n, p));
            var r, d := FirstReady(c3), Touch(c2[i], EventsOf(p, c2[i]), p);
            var turn := r < |c3| && c3[r].serial == c.serial;
            && (turn ==> d.state == Ready && !Closed(d))
            && Becomes(AfterExpiry(AfterDispatch(c3, p), p.end), c,
                 if Closed(d) then None
                 else
                   var e := if turn then Queue(d, p.reply(d.fd, d.request), p) else d;
                   if Expired(e, p.end) then None else Some(e))
  {
    var c, c3 := c2[i], Erased(AfterEvents(c2, n, p));
    var d := Touch(c, EventsOf(p, c), p);
    hide Touch, AfterEvents, Erased, AfterDispatch, AfterExpiry, FirstReady, Queue;
    EventsAreLife(c2, next, n, p, i);
    EventsKeep(c2, next, n, p);
    DispatchKeeps(c3, next, p);
    var c4 := AfterDispatch(c3, p);
    if Closed(d) {
      DispatchAbsent(c3, p, c.serial);
      ExpiryAbsent(c4, p.end, c.serial);
    } else {
      DispatchIsLife(c3, next, p, d);
      var turn := FirstReady(c3) < |c3| && c3[FirstReady(c3)].serial == c.serial;
      var e := if turn then Queue(d, p.reply(d.fd, d.request), p) else d;
      QueueKeepsSerial(d, p);
      ExpiryIsLife(c4, next, p.end, e);
    }
  }

  /** The poll is, for each connection, its own life, and the turn goes to one that is ready. */
  lemma PollIsLife(cs: seq<Connection>, next: nat, p: Poll, c: Connection)
    requires Usable(p) && ValidList(cs, next) && c in cs
    ensures !Closed(c) && SoundConnection(c)
    ensures var q := AfterPoll(cs, next, p);
            && Becomes(q.connections, c, Life(c, p, q.handled == Some(c.serial)))
            && (q.handled == Some(c.serial) ==>
                  Dispatching(p) && !Expired(c, p.start) && Touch(c, EventsOf(p, c), p).state == Ready &&
                  !Closed(Touch(c, EventsOf(p, c), p)))
            && FramesOf(q.sent, c.serial) == LifeSent(c, p)
  {
    InListIsOpen(cs, next, c);
    ExpiryIsLife(cs, next, p.start, c);
    ExpiryKeeps(cs, next, p.start);
    var c1 := AfterExpiry(cs, p.start);
    AcceptKeeps(c1, next, p.offers, p.now);
    var (c2, next2) := AfterAccept(c1, next, p.offers, p.now);
    hide Touch, AfterEvents, Erased, AfterDispatch, AfterExpiry, FirstReady, Queue, AfterAccept, ValidList, SentIn,
         SentBy,
         Expired;
    if Expired(c, p.start) {
      AcceptAbsent(c1, next, p.offers, p.now, c.serial);
      if Dispatching(p) {
        ListIsOpen(c2, next2);
        EventsAbsent(c2, |c1|, p, c.serial);
        var c3 := Erased(AfterEvents(c2, |c1|, p));
        DispatchAbsent(c3, p, c.serial);
        ExpiryAbsent(AfterDispatch(c3, p), p.end, c.serial);
        SentAbsent(c2, |c1|, p, c.serial);
      }
    } else {
      AcceptIsLife(c1, next, p.offers, p.now, c);
      if Dispatching(p) {
        var i :| 0 <= i < |c1| && c1[i] == c;
        assert c2[i] == c;
        RestIsLife(c2, next2, |c1|, p, i);
        ListIsOpen(c2, next2);
        ListInOrder(c2, next2);
        SentIsOwn(c2, |c1|, p, i);
      }
    }
  }

  lemma ListInOrder(cs: seq<Connection>, next: nat)
    requires ValidList(cs, next)
    ensures InOrder(cs)
  {
  }

  lemma InListIsOpen(cs: seq<Connection>, next: nat, c: Connection)
    requires ValidList(cs, next) && c in cs
    ensures !Closed(c) && SoundConnection(c) && c.serial < next
  {
    var i :| 0 <= i < |cs| && cs[i] == c;
  }

  /** Every way a connection ends while its events are handled: an error, a client that left before its
      request was there, a socket that takes no whole frame, or the last frame. */
  lemma WhoIsClosed(c: Connection, e: Events, p: Poll)
    requires Usable(p) && SoundConnection(c) && !Closed(c)
    ensures Closed(Touch(c, e, p)) <==>
            || e.error
            || (c.state == Waiting && e.readable && (e.receiving == ReceiveFailed || e.receiving == PeerGone))
            || (c.state == Waiting && e.hangup && !(e.readable && (e.receiving == TooLong || e.receiving.Received?)))
            || (c.state == Writing && e.writable && (e.sending == Refused || e.sending == Short))
            || (c.state == Writing && e.writable && e.sending == Whole && |c.response| - c.offset <= CHUNK)
  {
  }

  /** The clients a poll can take. */
  function Clients(offers: seq<Offer>): nat {
    if offers == [] then 0
    else (if offers[0].Client? && offers[0].fd >= 0 then 1 else 0) + Clients(offers[1..])
  }

  /** Clients are taken in order while there is room, each with a new serial and its time to send. */
  lemma {:induction false} TakenExactly(cs: seq<Connection>, next: nat, offers: seq<Offer>, now: int)
    requires |cs| <= MAX_CONNECTIONS
    ensures var (c2, next2) := AfterAccept(cs, next, offers, now);
            && cs <= c2 && |c2| == Least(MAX_CONNECTIONS, |cs| + Clients(offers)) && next2 == next + |c2| - |cs|
            && forall i :: |cs| <= i < |c2| ==>
                 c2[i].serial == next + i - |cs| && c2[i].state == Waiting &&
                   c2[i].deadline == now + FIRST_PACKET_TIMEOUT
    decreases |offers|
  {
    if offers != [] {
      match offers[0] {
        case BadClient => TakenExactly(cs, next, offers[1..], now);
        case Client(fd) =>
          if |cs| >= MAX_CONNECTIONS || fd < 0 {
            TakenExactly(cs, next, offers[1..], now);
          } else {
            TakenExactly(cs + [Connection(next, fd, Waiting, now + FIRST_PACKET_TIMEOUT, [], [], 0)], next + 1,
              offers[1..], now);
          }
      }
    }
  }

  // ----- the turn

  /** Whoever gets the turn was there before the poll. */
  lemma HandledWasThere(cs: seq<Connection>, next: nat, p: Poll) returns (c: Connection)
    requires Usable(p) && ValidList(cs, next) && AfterPoll(cs, next, p).handled.Some?
    ensures c in cs && AfterPoll(cs, next, p).handled == Some(c.serial)
  {
    ExpiryKeeps(cs, next, p.start);
    var c1 := AfterExpiry(cs, p.start);
    AcceptKeeps(c1, next, p.offers, p.now);
    TakenExactly(c1, next, p.offers, p.now);
    var (c2, next2) := AfterAccept(c1, next, p.offers, p.now);
    var touched := AfterEvents(c2, |c1|, p);
    var c3 := Erased(touched);
    hide Touch, Erased, AfterDispatch, AfterExpiry, AfterAccept;
    var r := c3[FirstReady(c3)];
    assert r in c3;
    ErasedMembers(touched, r);
    var i :| 0 <= i < |touched| && touched[i] == r;
    assert i < |c1|;
    c := c2[i];
    assert c1[i] == c && c1[i] in c1;
    ExpiryExactly(cs, p.start, c);
  }

  /** The request the connection has when its events are over. */
  predicate Holds(c: Connection, p: Poll, request: Bytes) {
    if c.state == Ready then request == c.request
    else c.state == Waiting && EventsOf(p, c).readable && EventsOf(p, c).receiving == Received(request)
  }

  lemma TouchedReady(c: Connection, p: Poll)
    requires Usable(p) && SoundConnection(c) && !Closed(c)
    ensures var d := Touch(c, EventsOf(p, c), p);
            d.state == Ready && !Closed(d) ==> Holds(c, p, d.request) && d.fd == c.fd && !EventsOf(p, c).error
  {
  }

  predicate Fits(response: Bytes) {
    0 < |response| <= MAX_RESPONSE
  }

  /** After a poll that gave a connection its turn in time: the answer to its own request lies ready for
      it, and every other response that was being written still is the one it was. */
  lemma TurnQueuesAnswer(cs: seq<Connection>, next: nat, p: Poll) returns (c: Connection, d: Connection, request: Bytes)
    requires Usable(p) && ValidList(cs, next) && AfterPoll(cs, next, p).handled.Some?
    requires p.end < p.now + WRITE_TIMEOUT
    ensures var q := AfterPoll(cs, next, p);
            && c in cs && q.handled == Some(c.serial) && Holds(c, p, request)
            && d in q.connections && d.serial == c.serial && d.fd == c.fd && d.state == Writing && d.offset == 0
            && d.deadline == p.now + WRITE_TIMEOUT
            && d.response == (if Fits(p.reply(c.fd, request)) then p.reply(c.fd, request) else p.errorText)
            && (forall x, y :: x in cs && x.state == Writing && y in q.connections && y.serial == x.serial ==>
                  y.state == Writing && y.response == x.response)
  {
    c := HandledWasThere(cs, next, p);
    PollIsLife(cs, next, p, c);
    TouchedReady(c, p);
    var t := Touch(c, EventsOf(p, c), p);
    request := t.request;
    d := Queue(t, p.reply(t.fd, t.request), p);
    assert Life(c, p, true) == Some(d);
    hide AfterPoll, ValidList, Holds;
    forall x, y | x in cs && x.state == Writing && y in AfterPoll(cs, next, p).connections && y.serial == x.serial
      ensures y.state == Writing && y.response == x.response
    {
      PollIsLife(cs, next, p, x);
      WritingStays(x, p, AfterPoll(cs, next, p).handled == Some(x.serial));
    }
  }

  lemma WritingStays(x: Connection, p: Poll, turn: bool)
    requires Usable(p) && SoundConnection(x) && !Closed(x) && x.state == Writing
    requires turn ==> Touch(x, EventsOf(p, x), p).state == Ready
    ensures !turn
    ensures Life(x, p, turn).Some? ==>
              Life(x, p, turn).value.state == Writing && Life(x, p, turn).value.response == x.response
  {
  }

  // ----- runs

  ghost predicate AllUsable(polls: seq<Poll>) {
    forall i :: 0 <= i < |polls| ==> Usable(polls[i])
  }

  /** The frames that leave for a connection in a run. */
  ghost function RunSent(cs: seq<Connection>, next: nat, polls: seq<Poll>, serial: nat): seq<Bytes>
    requires ValidList(cs, next) && AllUsable(polls)
    decreases |polls|
  {
    if polls == [] then []
    else
      PollKeeps(cs, next, polls[0]);
      var q := AfterPoll(cs, next, polls[0]);
      FramesOf(q.sent, serial) + RunSent(q.connections, q.next, polls[1..], serial)
  }

  /** The turns of a run. */
  ghost function Turns(cs: seq<Connection>, next: nat, polls: seq<Poll>): (turns: seq<Option<nat>>)
    requires ValidList(cs, next) && AllUsable(polls)
    ensures |turns| == |polls|
    decreases |polls|
  {
    if polls == [] then []
    else
      PollKeeps(cs, next, polls[0]);
      var q := AfterPoll(cs, next, polls[0]);
      [q.handled] + Turns(q.connections, q.next, polls[1..])
  }

  /** The response the run gives a connection to send. */
  ghost predicate Told(cs: seq<Connection>, next: nat, polls: seq<Poll>, c: Connection, response: Bytes)
    requires ValidList(cs, next) && AllUsable(polls)
    decreases |polls|
  {
    if c.state == Writing then response == c.response
    else
      polls != [] &&
      (PollKeeps(cs, next, polls[0]);
       var q := AfterPoll(cs, next, polls[0]);
       exists d :: d in q.connections && d.serial == c.serial && Told(q.connections, q.next, polls[1..], d, response))
  }

  lemma {:induction false} PollAbsent(cs: seq<Connection>, next: nat, p: Poll, serial: nat)
    requires Usable(p) && ValidList(cs, next) && Absent(cs, serial) && serial < next
    ensures var q := AfterPoll(cs, next, p);
            Absent(q.connections, serial) && FramesOf(q.sent, serial) == []
  {
    ExpiryAbsent(cs, p.start, serial);
    ExpiryKeeps(cs, next, p.start);
    var c1 := AfterExpiry(cs, p.start);
    AcceptKeeps(c1, next, p.offers, p.now);
    AcceptAbsent(c1, next, p.offers, p.now, serial);
    var (c2, next2) := AfterAccept(c1, next, p.offers, p.now);
    hide Touch, AfterEvents, Erased, AfterDispatch, AfterExpiry, FirstReady, AfterAccept, ValidList, SentIn;
    if Dispatching(p) {
      ListIsOpen(c2, next2);
      EventsAbsent(c2, |c1|, p, serial);
      var c3 := Erased(AfterEvents(c2, |c1|, p));
      DispatchAbsent(c3, p, serial);
      ExpiryAbsent(AfterDispatch(c3, p), p.end, serial);
      SentAbsent(c2, |c1|, p, serial);
    }
  }

  lemma {:induction false} RunAbsent(cs: seq<Connection>, next: nat, polls: seq<Poll>, serial: nat)
    requires ValidList(cs, next) && AllUsable(polls) && Absent(cs, serial) && serial < next
    ensures RunSent(cs, next, polls, serial) == []
    decreases |polls|
  {
    hide AfterPoll, ValidList, Absent;
    if polls != [] {
      PollKeeps(cs, next, polls[0]);
      PollAbsent(cs, next, polls[0], serial);
      var q := AfterPoll(cs, next, polls[0]);
      RunAbsent(q.connections, q.next, polls[1..], serial);
    }
  }

  /** One poll of a connection that is writing: nothing leaves and it stays as it is or ends, or one frame
      leaves and it goes on behind it or ends. */
  lemma WritingPoll(c: Connection, p: Poll)
    requires Usable(p) && SoundConnection(c) && !Closed(c) && c.state == Writing
    ensures var chunk, after := ChunkAt(c.response, c.offset), Life(c, p, false);
            if LifeSent(c, p) == [] then after == None || after == Some(c)
            else
              && LifeSent(c, p) == [ResponseFrame(c.response, c.offset, chunk)]
              && (after.Some? ==> after == Some(c.(offset := c.offset + chunk)))
  {
    hide ResponseFrame;
  }

  /** Whatever happens to its socket, a response being written leaves as a beginning of its own frames. */
  lemma {:induction false} WritingRun(cs: seq<Connection>, next: nat, polls: seq<Poll>, c: Connection)
    returns (outcomes: seq<Sending>)
    requires ValidList(cs, next) && AllUsable(polls) && c in cs && c.state == Writing
    ensures c.offset <= |c.response| && RunSent(cs, next, polls, c.serial) == FramesSent(c.response, c.offset, outcomes)
    decreases |polls|
  {
    hide AfterPoll, ValidList, ResponseFrame, Life, LifeSent;
    InListIsOpen(cs, next, c);
    outcomes := [];
    if polls != [] {
      var p, rest := polls[0], polls[1..];
      var q := AfterPoll(cs, next, p);
      PollKeeps(cs, next, p);
      PollIsLife(cs, next, p, c);
      WritingStays(c, p, q.handled == Some(c.serial));
      WritingPoll(c, p);
      var after := Life(c, p, false);
      if after.Some? {
        outcomes := WritingRun(q.connections, q.next, rest, after.value);
      } else {
        RunAbsent(q.connections, q.next, rest, c.serial);
      }
      if LifeSent(c, p) != [] {
        outcomes := [Whole] + outcomes;
        WholeFirst(c.response, c.offset, outcomes);
      }
    }
  }

  lemma WholeFirst(response: Bytes, offset: nat, outcomes: seq<Sending>)
    requires offset < |response| && outcomes != [] && outcomes[0] == Whole
    ensures FramesSent(response, offset, outcomes) ==
            [ResponseFrame(response, offset, ChunkAt(response, offset))] +
            FramesSent(response, offset + ChunkAt(response, offset), outcomes[1..])
  {
    hide ResponseFrame;
  }

  // ----- from the request to the answer

  /** What one poll makes of a connection the handler has not answered: it goes on waiting, with its request
      once it has come; or a response was queued for it, from the start. */
  lemma UnservedPoll(c: Connection, p: Poll, turn: bool)
    requires Usable(p) && SoundConnection(c) && !Closed(c) && c.state != Writing
    requires turn ==>
               Dispatching(p) && Touch(c, EventsOf(p, c), p).state == Ready && !Closed(Touch(c, EventsOf(p, c), p))
    ensures LifeSent(c, p) == []
    ensures var after := Life(c, p, turn);
            after.Some? ==>
              match after.value.state
              case Waiting => c.state == Waiting
              case Ready => (!Dispatching(p) && after.value == c) || Holds(c, p, after.value.request)
              case Writing =>
                && after.value.offset == 0 && Dispatching(p)
                && if turn then
                     exists request :: Holds(c, p, request) &&
                       after.value.response == Bounded(p.reply(c.fd, request), p.errorText)
                   else
                     c.state == Waiting && EventsOf(p, c).receiving == TooLong && after.value.response == p.errorText
  {
    TouchedReady(c, p);
    var d := Touch(c, EventsOf(p, c), p);
    if turn {
      assert Holds(c, p, d.request);
    }
  }

  /** The run answers the request of the connection at some turn of it. */
  ghost predicate AnsweredAt(cs: seq<Connection>, next: nat, polls: seq<Poll>, c: Connection, request: Bytes,
                             response: Bytes, k: nat)
    requires ValidList(cs, next) && AllUsable(polls)
  {
    k < |polls| && Turns(cs, next, polls)[k] == Some(c.serial) &&
    response == Bounded(polls[k].reply(c.fd, request), polls[k].errorText)
  }

  /** The run brings the request of the connection in poll `j`. */
  predicate ArrivesAt(polls: seq<Poll>, c: Connection, request: Bytes, j: nat) {
    j < |polls| && EventsOf(polls[j], c).readable && EventsOf(polls[j], c).receiving == Received(request)
  }

  /** The request was too long in poll `j`. */
  predicate RefusedAt(polls: seq<Poll>, c: Connection, response: Bytes, j: nat) {
    j < |polls| && EventsOf(polls[j], c).receiving == TooLong && response == polls[j].errorText
  }

  lemma TurnsLater(cs: seq<Connection>, next: nat, polls: seq<Poll>, c: Connection, d: Connection, request: Bytes,
                   response: Bytes, k: nat)
    requires ValidList(cs, next) && AllUsable(polls) && polls != [] && d.serial == c.serial && d.fd == c.fd
    requires ValidList(AfterPoll(cs, next, polls[0]).connections, AfterPoll(cs, next, polls[0]).next)
    requires var q := AfterPoll(cs, next, polls[0]);
             AnsweredAt(q.connections, q.next, polls[1..], d, request, response, k)
    ensures AnsweredAt(cs, next, polls, c, request, response, k + 1)
  {
    hide AfterPoll, ValidList;
    assert polls[1..][k] == polls[k + 1];
  }

  /** A response given to a connection with a request answers that request. */
  lemma {:induction false} ToldWhenReady(cs: seq<Connection>, next: nat, polls: seq<Poll>, c: Connection,
                                         response: Bytes)
    returns (k: nat)
    requires ValidList(cs, next) && AllUsable(polls) && c in cs && c.state == Ready
    requires Told(cs, next, polls, c, response)
    ensures AnsweredAt(cs, next, polls, c, c.request, response, k)
    decreases |polls|
  {
    hide AfterPoll, ValidList, Life, LifeSent, Touch;
    var p := polls[0];
    var q := AfterPoll(cs, next, p);
    PollKeeps(cs, next, p);
    PollIsLife(cs, next, p, c);
    var d :| d in q.connections && d.serial == c.serial && Told(q.connections, q.next, polls[1..], d, response);
    var turn := q.handled == Some(c.serial);
    assert Life(c, p, turn) == Some(d);
    UnservedPoll(c, p, turn);
    if d.state == Writing {
      k := 0;
      hide Holds, Bounded;
      var request :| Holds(c, p, request) && d.response == Bounded(p.reply(c.fd, request), p.errorText);
      ReadyHolds(c, p, request);
    } else {
      ReadyStays(c, p, turn);
      k := ToldWhenReady(q.connections, q.next, polls[1..], d, response);
      TurnsLater(cs, next, polls, c, d, c.request, response, k);
      k := k + 1;
    }
  }

  lemma ReadyHolds(c: Connection, p: Poll, request: Bytes)
    requires c.state == Ready && Holds(c, p, request)
    ensures request == c.request
  {
  }

  lemma ReadyStays(c: Connection, p: Poll, turn: bool)
    requires Usable(p) && SoundConnection(c) && !Closed(c) && c.state == Ready
    ensures Life(c, p, turn).Some? && Life(c, p, turn).value.state != Writing ==> Life(c, p, turn) == Some(c)
  {
  }

  /** A response given to a connection that waits: its request came and was answered, or was too long. */
  lemma {:induction false} ToldWhenWaiting(cs: seq<Connection>, next: nat, polls: seq<Poll>, c: Connection,
                                           response: Bytes)
    returns (j: nat, k: nat, request: Bytes)
    requires ValidList(cs, next) && AllUsable(polls) && c in cs && c.state == Waiting
    requires Told(cs, next, polls, c, response)
    ensures || RefusedAt(polls, c, response, j)
            || (j <= k && ArrivesAt(polls, c, request, j) && AnsweredAt(cs, next, polls, c, request, response, k))
    decreases |polls|
  {
    hide AfterPoll, ValidList, Life, LifeSent, Touch, AnsweredAt;
    var p := polls[0];
    var q := AfterPoll(cs, next, p);
    PollKeeps(cs, next, p);
    PollIsLife(cs, next, p, c);
    var d :| d in q.connections && d.serial == c.serial && Told(q.connections, q.next, polls[1..], d, response);
    var turn := q.handled == Some(c.serial);
    assert Life(c, p, turn) == Some(d);
    UnservedPoll(c, p, turn);
    j, k, request := 0, 0, [];
    match d.state {
      case Writing =>
        if turn {
          request :| Holds(c, p, request) && d.response == Bounded(p.reply(c.fd, request), p.errorText);
          AnsweredNow(cs, next, polls, c, request, response);
        }
      case Ready =>
        request := d.request;
        k := ToldWhenReady(q.connections, q.next, polls[1..], d, response);
        TurnsLater(cs, next, polls, c, d, request, response, k);
        k := k + 1;
      case Waiting =>
        j, k, request := ToldWhenWaiting(q.connections, q.next, polls[1..], d, response);
        if !RefusedAt(polls[1..], d, response, j) {
          TurnsLater(cs, next, polls, c, d, request, response, k);
        }
        j, k := j + 1, k + 1;
    }
  }

  lemma AnsweredNow(cs: seq<Connection>, next: nat, polls: seq<Poll>, c: Connection, request: Bytes, response: Bytes)
    requires ValidList(cs, next) && AllUsable(polls) && polls != []
    requires AfterPoll(cs, next, polls[0]).handled == Some(c.serial)
    requires response == Bounded(polls[0].reply(c.fd, request), polls[0].errorText)
    ensures AnsweredAt(cs, next, polls, c, request, response, 0)
  {
    hide AfterPoll, ValidList;
    PollKeeps(cs, next, polls[0]);
  }

  /** What a run sends for a connection that had nothing to send: nothing, or frames of one response it was
      given, from the start. */
  lemma {:induction false} UnservedRun(cs: seq<Connection>, next: nat, polls: seq<Poll>, c: Connection)
    returns (response: Bytes, outcomes: seq<Sending>)
    requires ValidList(cs, next) && AllUsable(polls) && c in cs && c.state != Writing
    ensures || RunSent(cs, next, polls, c.serial) == []
            || (Fits(response) && Told(cs, next, polls, c, response) &&
                RunSent(cs, next, polls, c.serial) == FramesSent(response, 0, outcomes))
    decreases |polls|
  {
    hide AfterPoll, ValidList, ResponseFrame, Life, LifeSent, FramesSent, Touch, Holds, Bounded;
    response, outcomes := [], [];
    InListIsOpen(cs, next, c);
    if polls != [] {
      var p, rest := polls[0], polls[1..];
      var q := AfterPoll(cs, next, p);
      PollKeeps(cs, next, p);
      PollIsLife(cs, next, p, c);
      var turn := q.handled == Some(c.serial);
      UnservedPoll(c, p, turn);
      var after := Life(c, p, turn);
      if after == None {
        RunAbsent(q.connections, q.next, rest, c.serial);
      } else if after.value.state == Writing {
        outcomes := WritingRun(q.connections, q.next, rest, after.value);
        response := after.value.response;
        InListIsOpen(q.connections, q.next, after.value);
      } else {
        response, outcomes := UnservedRun(q.connections, q.next, rest, after.value);
      }
    }
  }

  /** End to end: the client of a connection whose request the server has, over every run and whatever
      happens to the frames on the way, gets the handler's answer to that request, in full, or an error. */
  lemma ClientGetsItsAnswer(cs: seq<Connection>, next: nat, polls: seq<Poll>, c: Connection, arrivals: seq<Arrival>)
    returns (k: nat)
    requires ValidList(cs, next) && AllUsable(polls) && c in cs && c.state == Ready
    requires FramesMet(arrivals) <= RunSent(cs, next, polls, c.serial)
    ensures var got := Reassemble(arrivals, Partial(0, []));
            got == None || AnsweredAt(cs, next, polls, c, c.request, got.value, k)
  {
    hide ValidList, AnsweredAt, Told, RunSent, FramesSent, Reassemble, FramesMet, FramesFrom;
    k := 0;
    var response, outcomes := UnservedRun(cs, next, polls, c);
    if RunSent(cs, next, polls, c.serial) == [] {
      NothingMet(arrivals);
    } else {
      ReassemblyExact(response, outcomes, arrivals);
      k := ToldWhenReady(cs, next, polls, c, response);
    }
  }

  lemma {:induction false} NothingMet(arrivals: seq<Arrival>)
    requires FramesMet(arrivals) == []
    ensures Reassemble(arrivals, Partial(0, [])) == None
  {
    if arrivals != [] && arrivals[0] == Retry {
      NothingMet(arrivals[1..]);
    }
  }

  /** The same from the moment the client is connected: the answer is to the request it sent. */
  lemma NewClientGetsItsAnswer(cs: seq<Connection>, next: nat, polls: seq<Poll>, c: Connection, arrivals: seq<Arrival>)
    returns (j: nat, k: nat, request: Bytes)
    requires ValidList(cs, next) && AllUsable(polls) && c in cs && c.state == Waiting
    requires FramesMet(arrivals) <= RunSent(cs, next, polls, c.serial)
    ensures var got := Reassemble(arrivals, Partial(0, []));
            || got == None || RefusedAt(polls, c, got.value, j)
            || (j <= k && ArrivesAt(polls, c, request, j) && AnsweredAt(cs, next, polls, c, request, got.value, k))
  {
    hide ValidList, AnsweredAt, Told, RunSent, FramesSent, Reassemble, FramesMet, FramesFrom, ArrivesAt, RefusedAt;
    j, k, request := 0, 0, [];
    var response, outcomes := UnservedRun(cs, next, polls, c);
    if RunSent(cs, next, polls, c.serial) == [] {
      NothingMet(arrivals);
    } else {
      ReassemblyExact(response, outcomes, arrivals);
      j, k, request := ToldWhenWaiting(cs, next, polls, c, response);
    }
  }
}
