/** The device daemon's main loop: event intake, and the obligation to reconcile after any loss. */
module DaemonLoop {
  import opened Common
  import opened EventQueue

  const MAX_EVENT_BYTES := 65536
  const RETRY_INTERVAL := 5000
  const EVENTS_PER_PASS := 8

  /** What recvmsg delivered; `payload` is None when the text is not a valid event. */
  datatype Datagram = Datagram(truncated: bool, size: int, fromRoot: bool, payload: Option<Envelope>)

  datatype Marker = Present | Absent | Unreadable

  /** Results of the stages of one reconciliation pass, in the order they happen. */
  datatype Stages = Stages(
    udevadmFound: bool,
    exportOk: bool,
    eventsOk: seq<bool>,
    databaseOk: bool,
    bootIdKnown: bool,
    removalsOk: seq<bool>,
    permanentOk: bool)

  predicate AllOk(results: seq<bool>) {
    forall i :: 0 <= i < |results| ==> results[i]
  }

  /** Every mandatory stage succeeded. */
  predicate Succeeds(s: Stages) {
    s.udevadmFound && s.exportOk && AllOk(s.eventsOk) && s.databaseOk && s.bootIdKnown && AllOk(s.removalsOk) &&
      s.permanentOk
  }

  /** One reconciliation pass; single failures do not stop it but are not forgotten. */
  method RunReconciliation(s: Stages) returns (ok: bool)
    ensures ok <==> Succeeds(s)
    ensures ok <==> s.udevadmFound && s.exportOk && s.databaseOk && s.bootIdKnown && s.permanentOk &&
                    (forall i :: 0 <= i < |s.eventsOk| ==> s.eventsOk[i]) &&
                    (forall i :: 0 <= i < |s.removalsOk| ==> s.removalsOk[i])
  {
    if !s.udevadmFound || !s.exportOk {
      return false;
    }
    var stagesOk := true;
    for i := 0 to |s.eventsOk|
      invariant stagesOk <==> forall k :: 0 <= k < i ==> s.eventsOk[k]
    {
      if !s.eventsOk[i] {
        stagesOk := false;
      }
    }
    if !s.databaseOk || !s.bootIdKnown {
      return false;
    }
    for i := 0 to |s.removalsOk|
      invariant stagesOk <==> AllOk(s.eventsOk) && forall k :: 0 <= k < i ==> s.removalsOk[k]
    {
      if !s.removalsOk[i] {
        stagesOk := false;
      }
    }
    ok := stagesOk && s.permanentOk;
  }

  // ----- what the daemon has seen

  datatype Observation =
    | Oversized
    | Untrusted
    | Malformed
    | Queued(event: Envelope)
    | Dropped(event: Envelope)
    | MarkerSeen
    | Processed(event: Envelope)
    | Failed(event: Envelope)
    | LoopReconciled
    | LoopFailed
    | StartupReconciled
    | StartupFailed
    | RequestedPass(ok: bool)

  /** Observations after which the inventory may no longer match the machine. */
  predicate Raises(o: Observation) {
    o.Oversized? || o.Malformed? || o.Dropped? || o.MarkerSeen? || o.Failed? || o.StartupFailed?
  }

  function Owed(log: seq<Observation>): bool {
    if log == [] then false
    else if Raises(log[|log| - 1]) then true
    else if log[|log| - 1].LoopReconciled? then false
    else Owed(log[..|log| - 1])
  }

  /** Something was lost at i and no successful pass of the loop came after it. */
  ghost predicate LostSince(log: seq<Observation>, i: int) {
    0 <= i < |log| && Raises(log[i]) && forall j :: i < j < |log| ==> !log[j].LoopReconciled?
  }

  lemma {:induction false} OwedExactly(log: seq<Observation>)
    ensures Owed(log) <==> exists i :: LostSince(log, i)
  {
    if log != [] {
      var n := |log| - 1;
      var rest := log[..n];
      OwedExactly(rest);
      if Raises(log[n]) {
        assert LostSince(log, n);
      } else if !log[n].LoopReconciled? {
        if i :| LostSince(rest, i) {
          assert LostSince(log, i);
        }
        if i :| LostSince(log, i) {
          assert LostSince(rest, i);
        }
      }
    }
  }

  lemma {:induction false} OwedSnoc(log: seq<Observation>, o: Observation)
    ensures Owed(log + [o]) == (Raises(o) || (!o.LoopReconciled? && Owed(log)))
  {
    assert (log + [o])[..|log|] == log;
  }

  /** The observation a datagram must lead to; only the queue decides between the last two. */
  predicate Explains(d: Datagram, o: Observation) {
    if d.truncated || d.size <= 0 || d.size > MAX_EVENT_BYTES then o == Oversized
    else if !d.fromRoot then o == Untrusted
    else match d.payload
      case None => o == Malformed
      case Some(e) => o == Queued(e) || o == Dropped(e)
  }

  /** Attempts of the loop are at least the retry interval apart. */
  ghost predicate Spaced(attempts: seq<int>) {
    forall i :: 0 < i < |attempts| ==> attempts[i] - attempts[i - 1] >= RETRY_INTERVAL
  }

  class Daemon {
    const queue: DeviceEventQueue
    var nextAttempt: int
    ghost var log: seq<Observation>
    ghost var attempts: seq<int>

    /** The flag of the queue is up exactly while something lost has not been reconciled. */
    ghost predicate Valid()
      reads this, queue
    {
      && queue.Valid()
      && queue.reconciliationRequired == Owed(log)
      && Spaced(attempts)
      && (attempts != [] ==> attempts[|attempts| - 1] + RETRY_INTERVAL <= nextAttempt)
    }

    constructor (startup: Stages)
      ensures Valid() && fresh(queue) && attempts == [] && nextAttempt == 0
      ensures log == [if Succeeds(startup) then StartupReconciled else StartupFailed]
      ensures queue.reconciliationRequired <==> !Succeeds(startup)
    {
      var q := new DeviceEventQueue();
      queue, nextAttempt, log, attempts := q, 0, [], [];
      new;
      var ok := RunReconciliation(startup);
      log := [if Succeeds(startup) then StartupReconciled else StartupFailed];
      OwedSnoc([], log[0]);
      assert [] + [log[0]] == log;
      if !ok {
        queue.RequestReconciliation();
      }
    }

    method ReceiveDatagram(d: Datagram)
      requires Valid()
      modifies this`log, queue
      ensures Valid() && |log| == |old(log)| + 1 && old(log) <= log && Explains(d, log[|log| - 1])
      ensures var oversized := d.truncated || d.size <= 0 || d.size > 65536;
              && (log[|log| - 1].Oversized? <==> oversized)
              && (log[|log| - 1].Untrusted? <==> !oversized && !d.fromRoot)
              && (log[|log| - 1].Malformed? <==> !oversized && d.fromRoot && d.payload == None)
      ensures queue.reconciliationRequired <==>
              old(queue.reconciliationRequired) || log[|log| - 1].Oversized? || log[|log| - 1].Malformed? ||
              log[|log| - 1].Dropped?
      ensures log[|log| - 1].Queued? ==> queue.queue == Enqueued(old(queue.queue), log[|log| - 1].event)
      ensures log[|log| - 1].Dropped? ==> |old(queue.queue)| == MAX_PENDING
      ensures !log[|log| - 1].Queued? ==> queue.queue == old(queue.queue)
    {
      hide Owed, Enqueued;
      if d.truncated || d.size <= 0 || d.size > MAX_EVENT_BYTES {
        OwedSnoc(log, Oversized);
        queue.RequestReconciliation();
        log := log + [Oversized];
        return;
      }
      if !d.fromRoot {
        OwedSnoc(log, Untrusted);
        log := log + [Untrusted];
        return;
      }
      match d.payload {
        case None =>
          OwedSnoc(log, Malformed);
          queue.RequestReconciliation();
          log := log + [Malformed];
        case Some(e) =>
          OwedSnoc(log, Queued(e));
          OwedSnoc(log, Dropped(e));
          DroppedKeepsQueue(queue.queue, e);
          var ok := queue.Enqueue(e);
          log := log + [if ok then Queued(e) else Dropped(e)];
      }
    }

    method ReceiveDatagrams(datagrams: seq<Datagram>)
      requires Valid()
      modifies this`log, queue
      ensures Valid() && |log| == |old(log)| + |datagrams| && old(log) <= log
      ensures forall i :: 0 <= i < |datagrams| ==> Explains(datagrams[i], log[|old(log)| + i])
      ensures queue.queue == Filled(old(queue.queue), log[|old(log)|..])
      ensures attempts == old(attempts) && nextAttempt == old(nextAttempt)
    {
      hide Owed, Explains, Enqueued;
      for i := 0 to |datagrams|
        invariant Valid() && |log| == |old(log)| + i && old(log) <= log
        invariant forall k :: 0 <= k < i ==> Explains(datagrams[k], log[|old(log)| + k])
        invariant queue.queue == Filled(old(queue.queue), log[|old(log)|..])
      {
        ghost var before := log;
        ReceiveDatagram(datagrams[i]);
        assert forall k :: 0 <= k < |before| ==> log[k] == before[k];
        ghost var seen := log[|old(log)|..];
        assert seen[..i] == before[|old(log)|..] && seen[i] == log[|log| - 1];
      }
    }

    method CheckMarker(m: Marker)
      requires Valid()
      modifies this`log, queue`reconciliationRequired
      ensures Valid() && log == old(log) + if m.Present? then [MarkerSeen] else []
      ensures queue.reconciliationRequired <==> old(queue.reconciliationRequired) || m.Present?
    {
      hide Owed;
      OwedSnoc(log, MarkerSeen);
      if m.Present? {
        queue.RequestReconciliation();
        log := log + [MarkerSeen];
      }
      assert log == old(log) + if m.Present? then [MarkerSeen] else [];
    }

    /** `now` is read for the comparison, `later` for the next deadline. */
    method TryReconcile(now: int, later: int, s: Stages) returns (attempted: bool)
      requires Valid() && now <= later
      modifies this, queue`reconciliationRequired
      ensures Valid()
      ensures attempted <==> Owed(old(log)) && now >= old(nextAttempt)
      ensures attempts == old(attempts) + if attempted then [now] else []
      ensures log == old(log) + if attempted then [if Succeeds(s) then LoopReconciled else LoopFailed] else []
      ensures nextAttempt == if attempted then later + RETRY_INTERVAL else old(nextAttempt)
      ensures queue.reconciliationRequired <==> old(queue.reconciliationRequired) && !(attempted && Succeeds(s))
    {
      hide Owed, Succeeds;
      attempted := queue.reconciliationRequired && now >= nextAttempt;
      if attempted {
        OwedSnoc(log, LoopReconciled);
        OwedSnoc(log, LoopFailed);
        nextAttempt := later + RETRY_INTERVAL;
        attempts := attempts + [now];
        var ok := RunReconciliation(s);
        if ok {
          queue.ClearReconciliationRequired();
        }
        log := log + [if ok then LoopReconciled else LoopFailed];
      }
      assert log == old(log) + if attempted then [if Succeeds(s) then LoopReconciled else LoopFailed] else [];
      assert attempts == old(attempts) + if attempted then [now] else [];
    }

    /** Takes the front event, if any; a failure is an obligation. */
    method ProcessQueuedEvent(result: bool) returns (ok: bool)
      requires Valid()
      modifies this`log, queue
      ensures Valid() && ok == (old(queue.queue) != [])
      ensures ok ==> queue.queue == old(queue.queue)[1..] && log == old(log) + [Handled(old(queue.queue)[0], result)]
      ensures !ok ==> queue.queue == [] && log == old(log)
      ensures queue.reconciliationRequired <==> old(queue.reconciliationRequired) || (ok && !result)
    {
      hide Owed;
      var event;
      ok, event := queue.Pop();
      if ok {
        OwedSnoc(log, Handled(event, result));
        if !result {
          queue.RequestReconciliation();
        }
        log := log + [Handled(event, result)];
      }
    }

    /** Takes events from the front, as many as a pass may and the queue has. */
    method ProcessEvents(results: seq<bool>) returns (count: nat)
      requires Valid() && |results| == EVENTS_PER_PASS
      modifies this`log, queue
      ensures Valid() && count == Least(EVENTS_PER_PASS, |old(queue.queue)|)
      ensures queue.queue == old(queue.queue)[count..]
      ensures |log| == |old(log)| + count && old(log) <= log
      ensures forall i :: 0 <= i < count ==> log[|old(log)| + i] == Handled(old(queue.queue)[i], results[i])
    {
      hide Owed, Handled, Raises, Indexes;
      ghost var all, start := queue.queue, log;
      count := 0;
      while count < EVENTS_PER_PASS
        invariant Valid() && count <= Least(EVENTS_PER_PASS, |all|)
        invariant queue.queue == all[count..]
        invariant |log| == |start| + count && start <= log
        invariant forall i :: 0 <= i < count ==> log[|start| + i] == Handled(all[i], results[i])
      {
        ghost var before := log;
        var ok := ProcessQueuedEvent(results[count]);
        if !ok {
          return;
        }
        assert forall k :: 0 <= k < |before| ==> log[k] == before[k];
        count := count + 1;
      }
    }

    /** One turn of the loop, in its order: the datagrams, the marker, a reconciliation that is owed and due,
        and a few events from the front of the queue. The log only grows, so nothing observed is forgotten. */
    method Turn(datagrams: seq<Datagram>, m: Marker, now: int, later: int, s: Stages, results: seq<bool>)
      returns (attempted: bool, count: nat, ghost pending: seq<Envelope>)
      requires Valid() && now <= later && |results| == EVENTS_PER_PASS
      modifies this, queue
      ensures Valid() && old(log) <= log && old(attempts) <= attempts
      ensures Turned(old(log), log, datagrams, m, attempted, Succeeds(s), pending, results, count)
      ensures pending == Filled(old(queue.queue), log[|old(log)|..|old(log)| + |datagrams|])
      ensures count == Least(EVENTS_PER_PASS, |pending|) && queue.queue == pending[count..]
      ensures attempted <==> now >= old(nextAttempt) && Owed(log[..|old(log)| + |datagrams| + Marked(m)])
      ensures attempts == old(attempts) + if attempted then [now] else []
      ensures nextAttempt == if attempted then later + RETRY_INTERVAL else old(nextAttempt)
      ensures forall k :: |old(log)| <= k < |log| && log[k].LoopReconciled? ==> attempted && Succeeds(s)
    {
      hide Owed, Explains, Succeeds, Handled, Quiet, Filled, Turned;
      ghost var start := log;
      ReceiveDatagrams(datagrams);
      ghost var l1 := log;
      IntakeNeverClears(start, l1, datagrams);
      CheckMarker(m);
      ghost var l2 := log;
      attempted := TryReconcile(now, later, s);
      ghost var l3 := log;
      pending := queue.queue;
      count := ProcessEvents(results);
      PassNeverClears(l3, log, pending, results, count);
      GrewBy(start, l1, l2, l3, log, attempted && Succeeds(s));
      TurnedParts(start, l1, l2, l3, log, datagrams, m, attempted, Succeeds(s), pending, results, count);
    }

    /** A pass asked for over the admin socket reports its result and leaves the obligation alone. */
    method RequestedReconciliation(s: Stages) returns (ok: bool)
      requires Valid()
      modifies this`log
      ensures Valid() && ok == Succeeds(s) && log == old(log) + [RequestedPass(ok)]
    {
      ok := RunReconciliation(s);
      OwedSnoc(log, RequestedPass(ok));
      log := log + [RequestedPass(ok)];
    }
  }

  function Marked(m: Marker): nat {
    if m.Present? then 1 else 0
  }

  /** What a turn adds to the log, in order. */
  ghost predicate Turned(before: seq<Observation>, after: seq<Observation>, datagrams: seq<Datagram>, m: Marker,
                         attempted: bool, succeeds: bool, pending: seq<Envelope>, results: seq<bool>, count: nat)
  {
    var afterIntake := |before| + |datagrams|;
    var afterMarker := afterIntake + Marked(m);
    var afterAttempt := afterMarker + if attempted then 1 else 0;
    && before <= after && |after| == afterAttempt + count && count <= |pending| && count <= |results|
    && (forall i :: 0 <= i < |datagrams| ==> Explains(datagrams[i], after[|before| + i]))
    && (m.Present? ==> after[afterIntake] == MarkerSeen)
    && (attempted ==> after[afterMarker] == if succeeds then LoopReconciled else LoopFailed)
    && (forall i :: 0 <= i < count ==> after[afterAttempt + i] == Handled(pending[i], results[i]))
  }

  lemma TurnedParts(start: seq<Observation>, l1: seq<Observation>, l2: seq<Observation>, l3: seq<Observation>,
                    l4: seq<Observation>, datagrams: seq<Datagram>, m: Marker, attempted: bool, succeeds: bool,
                    pending: seq<Envelope>, results: seq<bool>, count: nat)
    requires start <= l1 && |l1| == |start| + |datagrams|
    requires forall i :: 0 <= i < |datagrams| ==> Explains(datagrams[i], l1[|start| + i])
    requires l2 == l1 + if m.Present? then [MarkerSeen] else []
    requires l3 == l2 + if attempted then [if succeeds then LoopReconciled else LoopFailed] else []
    requires l3 <= l4 && |l4| == |l3| + count && count <= |pending| && count <= |results|
    requires forall i :: 0 <= i < count ==> l4[|l3| + i] == Handled(pending[i], results[i])
    ensures Turned(start, l4, datagrams, m, attempted, succeeds, pending, results, count)
    ensures l4[|start|..|start| + |datagrams|] == l1[|start|..] && l4[..|l2|] == l2 && |l2| == |l1| + Marked(m)
  {
    hide Explains, Handled;
    assert forall k :: 0 <= k < |l3| ==> l4[k] == l3[k];
    assert forall k :: 0 <= k < |l1| ==> l3[k] == l1[k];
    assert forall k :: 0 <= k < |start| ==> l1[k] == start[k];
  }

  /** The queue after intake: what was put in it, one after the other. */
  ghost function Filled(q: seq<Envelope>, seen: seq<Observation>): seq<Envelope> {
    if seen == [] then q
    else
      var before, last := Filled(q, seen[..|seen| - 1]), seen[|seen| - 1];
      if last.Queued? then Enqueued(before, last.event) else before
  }

  function Handled(e: Envelope, ok: bool): Observation {
    if ok then Processed(e) else Failed(e)
  }

  lemma DroppedKeepsQueue(q: seq<Envelope>, e: Envelope)
    ensures OutcomeOf(q, e).Overflowed? ==> Enqueued(q, e) == q
  {
  }

  lemma IntakeNeverClears(before: seq<Observation>, after: seq<Observation>, datagrams: seq<Datagram>)
    requires before <= after && |after| == |before| + |datagrams|
    requires forall i :: 0 <= i < |datagrams| ==> Explains(datagrams[i], after[|before| + i])
    ensures Quiet(before, after)
  {
    forall k | |before| <= k < |after| ensures !after[k].LoopReconciled? {
      assert Explains(datagrams[k - |before|], after[|before| + (k - |before|)]);
    }
  }

  /** No reconciliation among the new entries. */
  ghost predicate Quiet(before: seq<Observation>, after: seq<Observation>) {
    before <= after && forall k :: |before| <= k < |after| ==> !after[k].LoopReconciled?
  }

  lemma PassNeverClears(before: seq<Observation>, after: seq<Observation>, pending: seq<Envelope>,
                        results: seq<bool>, count: nat)
    requires before <= after && |after| == |before| + count && count <= |pending| && count <= |results|
    requires forall i :: 0 <= i < count ==> after[|before| + i] == Handled(pending[i], results[i])
    ensures Quiet(before, after)
  {
    forall k | |before| <= k < |after| ensures !after[k].LoopReconciled? {
      var i := k - |before|;
      assert after[|before| + i] == Handled(pending[i], results[i]);
    }
  }

  lemma GrewBy(start: seq<Observation>, l1: seq<Observation>, l2: seq<Observation>, l3: seq<Observation>,
               l4: seq<Observation>, reconciled: bool)
    requires Quiet(start, l1)
    requires l2 == l1 || l2 == l1 + [MarkerSeen]
    requires l3 == l2 || l3 == l2 + [LoopFailed] || (reconciled && l3 == l2 + [LoopReconciled])
    requires Quiet(l3, l4)
    ensures start <= l4
    ensures forall k :: |start| <= k < |l4| && l4[k].LoopReconciled? ==> reconciled
  {
    assert forall k :: 0 <= k < |l3| ==> l4[k] == l3[k];
    assert forall k :: 0 <= k < |l1| ==> l3[k] == l1[k];
  }
}
