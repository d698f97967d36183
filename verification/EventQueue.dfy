/** The bounded queue of udev events, which keeps at most one pending change per device. */
module EventQueue {
  import opened Common

  datatype Envelope = Envelope(action: string, devpath: string, subsystem: string, env: Attributes,
    enforcementExpected: bool)

  const MAX_PENDING := 256
  const CHANGE := "change"

  function Key(e: Envelope): string {
    e.subsystem + "\n" + e.devpath
  }

  predicate IsChange(e: Envelope) {
    e.action == CHANGE
  }

  predicate IsChangeOf(e: Envelope, key: string) {
    IsChange(e) && Key(e) == key
  }

  /** Managed subsystems have no line break in their names, so a key names one device. */
  lemma KeyNamesDevice(a: Envelope, b: Envelope)
    requires '\n' !in a.subsystem && '\n' !in b.subsystem
    ensures Key(a) == Key(b) <==> a.subsystem == b.subsystem && a.devpath == b.devpath
  {
    if Key(a) == Key(b) {
      var i, j := |a.subsystem|, |b.subsystem|;
      assert Key(a)[i] == '\n' && Key(b)[j] == '\n';
      assert forall k :: 0 <= k < i ==> Key(a)[k] in a.subsystem;
      assert forall k :: 0 <= k < j ==> Key(b)[k] in b.subsystem;
      assert a.subsystem == Key(a)[..i] == b.subsystem;
      assert a.devpath == Key(a)[i + 1..] == b.devpath;
    }
  }

  // ----- the queue as a value

  ghost predicate OneChangePerKey(q: seq<Envelope>) {
    forall i, j :: 0 <= i < j < |q| && IsChange(q[i]) && IsChange(q[j]) ==> Key(q[i]) != Key(q[j])
  }

  ghost predicate HasChange(q: seq<Envelope>, key: string) {
    exists i :: 0 <= i < |q| && IsChangeOf(q[i], key)
  }

  ghost function ChangeAt(q: seq<Envelope>, key: string): (i: nat)
    requires HasChange(q, key)
    ensures i < |q| && IsChangeOf(q[i], key)
  {
    var i :| 0 <= i < |q| && IsChangeOf(q[i], key);
    i
  }

  datatype Outcome = Accepted | Coalesced | Overflowed

  ghost function OutcomeOf(q: seq<Envelope>, e: Envelope): Outcome {
    if IsChange(e) && HasChange(q, Key(e)) then Coalesced else if |q| >= MAX_PENDING then Overflowed else Accepted
  }

  ghost function Enqueued(q: seq<Envelope>, e: Envelope): seq<Envelope> {
    match OutcomeOf(q, e)
    case Coalesced => q[ChangeAt(q, Key(e)) := e]
    case Overflowed => q
    case Accepted => q + [e]
  }

  /** The index maps exactly the pending changes to their positions. */
  ghost predicate Indexes(index: map<string, nat>, q: seq<Envelope>) {
    && (forall key :: key in index ==> index[key] < |q| && IsChangeOf(q[index[key]], key))
    && (forall i :: 0 <= i < |q| && IsChange(q[i]) ==> Key(q[i]) in index && index[Key(q[i])] == i)
  }

  class DeviceEventQueue {
    var queue: seq<Envelope>
    var pendingChangeByKey: map<string, nat>
    var reconciliationRequired: bool
    var coalesced: nat
    var overflowed: nat

    ghost predicate Valid()
      reads this
    {
      Indexes(pendingChangeByKey, queue) && |queue| <= MAX_PENDING
    }

    constructor ()
      ensures Valid() && queue == [] && !reconciliationRequired && coalesced == 0 && overflowed == 0
    {
      queue, pendingChangeByKey, reconciliationRequired, coalesced, overflowed := [], map[], false, 0, 0;
    }

    method Enqueue(event: Envelope) returns (ok: bool)
      requires Valid()
      modifies this
      ensures Valid()
      ensures queue == Enqueued(old(queue), event)
      ensures ok <==> !OutcomeOf(old(queue), event).Overflowed?
      ensures ok <==> |old(queue)| < MAX_PENDING || (event.action == CHANGE && HasChange(old(queue), Key(event)))
      ensures coalesced == old(coalesced) + (if OutcomeOf(old(queue), event).Coalesced? then 1 else 0)
      ensures overflowed == old(overflowed) + (if ok then 0 else 1)
      ensures reconciliationRequired <==> old(reconciliationRequired) || !ok
    {
      hide Key;
      var key := Key(event);
      if event.action == CHANGE {
        if key in pendingChangeByKey && pendingChangeByKey[key] < |queue| &&
            queue[pendingChangeByKey[key]].action == CHANGE {
          ghost var before := queue;
          queue := queue[pendingChangeByKey[key] := event];
          coalesced := coalesced + 1;
          assert IsChangeOf(before[pendingChangeByKey[key]], key);
          return true;
        }
      }
      assert !(IsChange(event) && HasChange(queue, key));
      if |queue| >= MAX_PENDING {
        reconciliationRequired := true;
        overflowed := overflowed + 1;
        return false;
      }
      queue := queue + [event];
      if queue[|queue| - 1].action == CHANGE {
        pendingChangeByKey := pendingChangeByKey[key := |queue| - 1];
      }
      ok := true;
    }

    method Pop() returns (ok: bool, event: Envelope)
      requires Valid()
      modifies this
      ensures Valid()
      ensures ok <==> old(queue) != []
      ensures ok ==> event == old(queue)[0] && queue == old(queue)[1..]
      ensures !ok ==> queue == []
      ensures reconciliationRequired == old(reconciliationRequired) && coalesced == old(coalesced) &&
              overflowed == old(overflowed)
    {
      if queue == [] {
        return false, Envelope("", "", "", map[], false);
      }
      OneChangeAfterPop(pendingChangeByKey, queue);
      event := queue[0];
      queue := queue[1..];
      RebuildChangeIndex();
      ok := true;
    }

    method RebuildChangeIndex()
      requires OneChangePerKey(queue) && |queue| <= MAX_PENDING
      modifies this`pendingChangeByKey
      ensures Valid()
    {
      hide Key;
      pendingChangeByKey := map[];
      for i := 0 to |queue|
        invariant forall key :: key in pendingChangeByKey ==>
                    pendingChangeByKey[key] < i && IsChangeOf(queue[pendingChangeByKey[key]], key)
        invariant forall k :: 0 <= k < i && IsChange(queue[k]) ==>
                    Key(queue[k]) in pendingChangeByKey && pendingChangeByKey[Key(queue[k])] == k
      {
        if queue[i].action == CHANGE {
          pendingChangeByKey := pendingChangeByKey[Key(queue[i]) := i];
        }
      }
    }

    method RequestReconciliation()
      modifies this`reconciliationRequired
      ensures reconciliationRequired
    {
      reconciliationRequired := true;
    }

    method ClearReconciliationRequired()
      modifies this`reconciliationRequired
      ensures !reconciliationRequired
    {
      reconciliationRequired := false;
    }
  }

  lemma OneChangeAfterPop(index: map<string, nat>, q: seq<Envelope>)
    requires Indexes(index, q) && q != []
    ensures OneChangePerKey(q) && OneChangePerKey(q[1..])
  {
    hide Key;
    var r := q[1..];
    assert forall i :: 0 <= i < |r| ==> r[i] == q[i + 1];
  }

  // ----- every run of the queue

  datatype Op = Put(event: Envelope) | Take

  /** The queue with everything that ever happened to it. */
  datatype History = History(
    pending: seq<Envelope>,
    taken: seq<Envelope>,
    accepted: seq<Envelope>,
    coalesced: nat,
    overflowed: nat)

  ghost function Apply(h: History, op: Op): History {
    match op
    case Put(e) =>
      (match OutcomeOf(h.pending, e)
       case Overflowed => h.(overflowed := h.overflowed + 1)
       case Coalesced => h.(pending := Enqueued(h.pending, e), accepted := h.accepted + [e],
           coalesced := h.coalesced + 1)
       case Accepted => h.(pending := Enqueued(h.pending, e), accepted := h.accepted + [e]))
    case Take =>
      if h.pending == [] then h else h.(pending := h.pending[1..], taken := h.taken + [h.pending[0]])
  }

  ghost function HistoryOf(ops: seq<Op>): History {
    if ops == [] then History([], [], [], 0, 0) else Apply(HistoryOf(ops[..|ops| - 1]), ops[|ops| - 1])
  }

  ghost function Puts(ops: seq<Op>): nat {
    if ops == [] then 0 else Puts(ops[..|ops| - 1]) + if ops[|ops| - 1].Put? then 1 else 0
  }

  /** The events that are not changes, in order. */
  ghost function Others(s: seq<Envelope>): seq<Envelope> {
    if s == [] then []
    else Others(s[..|s| - 1]) + if IsChange(s[|s| - 1]) then [] else [s[|s| - 1]]
  }

  /** The last change reported for a key. */
  ghost function LastChange(s: seq<Envelope>, key: string): Option<Envelope> {
    if s == [] then None
    else if IsChangeOf(s[|s| - 1], key) then Some(s[|s| - 1])
    else LastChange(s[..|s| - 1], key)
  }

  /** Each pending change is the latest one accepted for its key. */
  ghost predicate Freshest(pending: seq<Envelope>, accepted: seq<Envelope>) {
    forall i :: 0 <= i < |pending| && IsChange(pending[i]) ==> LastChange(accepted, Key(pending[i])) == Some(pending[i])
  }

  ghost predicate Sound(h: History) {
    && OneChangePerKey(h.pending) && |h.pending| <= MAX_PENDING
    && Others(h.taken) + Others(h.pending) == Others(h.accepted)
    && Freshest(h.pending, h.accepted)
  }

  lemma {:induction false} OthersSnoc(s: seq<Envelope>, e: Envelope)
    ensures Others(s + [e]) == Others(s) + if IsChange(e) then [] else [e]
  {
    assert (s + [e])[..|s|] == s;
  }

  function Other(e: Envelope): seq<Envelope> {
    if IsChange(e) then [] else [e]
  }

  lemma {:induction false} OthersLast(s: seq<Envelope>)
    requires s != []
    ensures Others(s) == Others(s[..|s| - 1]) + Other(s[|s| - 1])
  {
    hide IsChange;
  }

  lemma {:induction false} OthersCons(s: seq<Envelope>)
    requires s != []
    ensures Others(s) == Other(s[0]) + Others(s[1..])
  {
    hide Others, Other;
    var n := |s| - 1;
    OthersLast(s);
    if n == 0 {
      NoOthers();
      assert s[1..] == [] && s[..0] == [];
    } else {
      OthersCons(s[..n]);
      OthersLast(s[1..]);
      assert s[1..][..n - 1] == s[..n][1..];
      assert s[1..][n - 1] == s[n] && s[..n][0] == s[0];
    }
  }

  lemma {:induction false} NoOthers()
    ensures Others([]) == []
  {
  }

  lemma {:induction false} OthersReplaceChange(s: seq<Envelope>, i: nat, e: Envelope)
    requires i < |s| && IsChange(s[i]) && IsChange(e)
    ensures Others(s[i := e]) == Others(s)
  {
    var n := |s| - 1;
    if i == n {
      assert s[i := e][..n] == s[..n];
    } else {
      OthersReplaceChange(s[..n], i, e);
      assert s[i := e][..n] == s[..n][i := e];
    }
  }

  lemma {:induction false} LastChangeSnoc(s: seq<Envelope>, e: Envelope, key: string)
    ensures LastChange(s + [e], key) == if IsChangeOf(e, key) then Some(e) else LastChange(s, key)
  {
    assert (s + [e])[..|s|] == s;
  }

  lemma PutKeepsOrder(h: History, e: Envelope)
    requires Sound(h)
    ensures var g := Apply(h, Put(e));
            OneChangePerKey(g.pending) && |g.pending| <= MAX_PENDING &&
              Others(g.taken) + Others(g.pending) == Others(g.accepted)
  {
    hide Key, Freshest, LastChange;
    OthersSnoc(h.accepted, e);
    match OutcomeOf(h.pending, e) {
      case Coalesced =>
        OthersReplaceChange(h.pending, ChangeAt(h.pending, Key(e)), e);
      case Accepted =>
        OthersSnoc(h.pending, e);
        assert Others(h.taken) + Others(h.pending + [e]) == Others(h.accepted + [e]);
      case Overflowed =>
    }
  }

  lemma PutKeepsFreshest(h: History, e: Envelope)
    requires Sound(h)
    ensures var g := Apply(h, Put(e));
            Freshest(g.pending, g.accepted)
  {
    hide Key, Others, LastChange;
    var g := Apply(h, Put(e));
    forall i | 0 <= i < |g.pending| && IsChange(g.pending[i])
      ensures LastChange(g.accepted, Key(g.pending[i])) == Some(g.pending[i])
    {
      LastChangeSnoc(h.accepted, e, Key(g.pending[i]));
    }
  }

  lemma TailKeeps(pending: seq<Envelope>, accepted: seq<Envelope>)
    requires pending != [] && OneChangePerKey(pending) && Freshest(pending, accepted)
    ensures OneChangePerKey(pending[1..]) && Freshest(pending[1..], accepted)
  {
    hide Key, LastChange;
    var rest := pending[1..];
    assert forall i :: 0 <= i < |rest| ==> rest[i] == pending[i + 1];
  }

  lemma TakeKeepsSound(h: History)
    requires Sound(h)
    ensures Sound(Apply(h, Take))
  {
    if h.pending != [] {
      hide Others, OneChangePerKey, Freshest;
      var first, rest := h.pending[0], h.pending[1..];
      TailKeeps(h.pending, h.accepted);
      OthersCons(h.pending);
      OthersSnoc(h.taken, first);
      assert Others(h.taken + [first]) + Others(rest) == Others(h.accepted);
    }
  }

  lemma PutKeepsSound(h: History, e: Envelope)
    requires Sound(h)
    ensures Sound(Apply(h, Put(e)))
  {
    PutKeepsOrder(h, e);
    PutKeepsFreshest(h, e);
  }

  /** In every run: bounds, one change per key, accounts balance, other events leave in arrival order. */
  lemma {:induction false} EveryRunIsSound(ops: seq<Op>)
    ensures Sound(HistoryOf(ops))
    ensures var h := HistoryOf(ops);
            Puts(ops) == |h.pending| + |h.taken| + h.coalesced + h.overflowed
  {
    hide Sound;
    if ops == [] {
      EmptyIsSound();
    } else {
      var n := |ops| - 1;
      EveryRunIsSound(ops[..n]);
      match ops[n] {
        case Put(e) => PutKeepsSound(HistoryOf(ops[..n]), e);
        case Take => TakeKeepsSound(HistoryOf(ops[..n]));
      }
    }
  }

  lemma EmptyIsSound()
    ensures Sound(HistoryOf([]))
  {
  }

  /** Events other than changes leave the queue unchanged and in the order they were accepted. */
  lemma {:induction false} OthersLeaveInOrder(ops: seq<Op>)
    ensures var h := HistoryOf(ops);
            Others(h.taken) <= Others(h.accepted) && Others(h.accepted)[|Others(h.taken)|..] == Others(h.pending)
  {
    EveryRunIsSound(ops);
    var h := HistoryOf(ops);
    assert Others(h.accepted) == Others(h.taken) + Others(h.pending);
  }

  /** A change taken out is the latest change accepted for its device. */
  lemma {:induction false} TakenChangeIsLatest(ops: seq<Op>)
    requires HistoryOf(ops).pending != [] && IsChange(HistoryOf(ops).pending[0])
    ensures var h, g := HistoryOf(ops), HistoryOf(ops + [Take]);
            var e := h.pending[0];
            g.taken == h.taken + [e] && LastChange(h.accepted, Key(e)) == Some(e)
  {
    EveryRunIsSound(ops);
    assert (ops + [Take])[..|ops|] == ops;
  }

  // ----- order between a change and the other events of its device

  /** The last pending event of a key. */
  ghost function LastOf(q: seq<Envelope>, key: string): Option<Envelope> {
    if q == [] then None else if Key(q[|q| - 1]) == key then Some(q[|q| - 1]) else LastOf(q[..|q| - 1], key)
  }

  lemma {:induction false} LastOfAt(q: seq<Envelope>, key: string, i: nat)
    requires i < |q| && Key(q[i]) == key
    ensures (forall j :: i < j < |q| ==> Key(q[j]) != key) ==> LastOf(q, key) == Some(q[i])
    ensures (exists j :: i < j < |q| && Key(q[j]) == key) ==>
              exists j :: i < j < |q| && Key(q[j]) == key && LastOf(q, key) == Some(q[j])
  {
    hide Key;
    var n := |q| - 1;
    if i < n && Key(q[n]) != key {
      LastOfAt(q[..n], key, i);
      if j :| i < j < |q| && Key(q[j]) == key {
        assert q[..n][j] == q[j];
        var k :| i < k < n && Key(q[..n][k]) == key && LastOf(q[..n], key) == Some(q[..n][k]);
        assert q[k] == q[..n][k];
      }
    }
  }

  /**
   * A coalesced change takes the place of the pending one. It is the last thing the queue will say
   * about its device exactly when nothing about that device was queued behind the pending change.
   */
  lemma CoalescedOrderExactly(q: seq<Envelope>, e: Envelope)
    requires OneChangePerKey(q) && OutcomeOf(q, e).Coalesced?
    ensures LastOf(Enqueued(q, e), Key(e)) == Some(e) <==>
            forall j :: ChangeAt(q, Key(e)) < j < |q| ==> Key(q[j]) != Key(e)
  {
    hide Key;
    var i, after := ChangeAt(q, Key(e)), Enqueued(q, e);
    assert after == q[i := e];
    LastOfAt(after, Key(e), i);
    if j :| i < j < |q| && Key(q[j]) == Key(e) {
      assert after[j] == q[j];
      var k :| i < k < |after| && Key(after[k]) == Key(e) && LastOf(after, Key(e)) == Some(after[k]);
      assert after[k] == q[k] && Key(q[k]) == Key(q[i]);
      assert !IsChange(q[k]);
    }
  }

  /** A change reported after a removal is delivered before it when an older change still waits. */
  lemma ChangeOvertakesRemoval(path: string, subsystem: string, env: Attributes, newer: Attributes)
    ensures var change := Envelope(CHANGE, path, subsystem, env, true);
            var remove := Envelope("remove", path, subsystem, env, true);
            var again := Envelope(CHANGE, path, subsystem, newer, true);
            HistoryOf([Put(change), Put(remove), Put(again), Take, Take]).taken == [again, remove]
  {
    var change := Envelope(CHANGE, path, subsystem, env, true);
    var remove := Envelope("remove", path, subsystem, env, true);
    var again := Envelope(CHANGE, path, subsystem, newer, true);
    KeyOfParts(change, remove, again);
    Overtakes(change, remove, again);
    hide Apply, HistoryOf, Key;
    FiveSteps(Put(change), Put(remove), Put(again), Take, Take);
  }

  lemma FiveSteps(a: Op, b: Op, c: Op, d: Op, e: Op)
    ensures HistoryOf([a, b, c, d, e]) == Apply(Apply(Apply(Apply(Apply(HistoryOf([]), a), b), c), d), e)
  {
    hide Apply, HistoryOf;
    HistorySnoc([], a);
    assert [] + [a] == [a];
    HistorySnoc([a], b);
    assert [a] + [b] == [a, b];
    HistorySnoc([a, b], c);
    assert [a, b] + [c] == [a, b, c];
    HistorySnoc([a, b, c], d);
    assert [a, b, c] + [d] == [a, b, c, d];
    HistorySnoc([a, b, c, d], e);
    assert [a, b, c, d] + [e] == [a, b, c, d, e];
  }

  lemma {:induction false} HistorySnoc(ops: seq<Op>, op: Op)
    ensures HistoryOf(ops + [op]) == Apply(HistoryOf(ops), op)
  {
    assert (ops + [op])[..|ops|] == ops;
  }

  lemma Overtakes(change: Envelope, remove: Envelope, again: Envelope)
    requires IsChange(change) && IsChange(again) && !IsChange(remove) && Key(change) == Key(again)
    ensures Apply(Apply(Apply(Apply(Apply(HistoryOf([]), Put(change)), Put(remove)), Put(again)), Take),
            Take).taken == [again, remove]
  {
    hide Key;
    var h1 := Apply(HistoryOf([]), Put(change));
    assert h1.pending == [change] && h1.taken == [];
    var h2 := Apply(h1, Put(remove));
    assert h2.pending == [change, remove] && h2.taken == [];
    assert IsChangeOf(h2.pending[0], Key(again));
    assert ChangeAt(h2.pending, Key(again)) == 0;
    var h3 := Apply(h2, Put(again));
    assert h3.pending == [again, remove] && h3.taken == [];
    var h4 := Apply(h3, Take);
    assert h4.pending == [remove] && h4.taken == [again];
  }

  lemma KeyOfParts(a: Envelope, b: Envelope, c: Envelope)
    requires a.subsystem == b.subsystem == c.subsystem && a.devpath == b.devpath == c.devpath
    ensures Key(a) == Key(b) == Key(c)
  {
  }
}
