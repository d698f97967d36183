/** Previewing a control change: what it would do, to whom, and that nobody else is touched. */
module PolicyOverride {
  import opened Common
  import opened DeviceTable
  import opened RowOrder
  import opened TreePaths
  import opened CategoryPolicy
  import opened EffectivePolicy

  /** UPDATE devices SET control_level, control_explicit, ignore_hierarchy, children_control WHERE id:
      four columns of one row. */
  function Commit(db: Database, ov: Override): (after: Database)
    ensures after.rows.Keys == db.rows.Keys && after.attributes == db.attributes && after.categories == db.categories
    ensures forall id :: id in db.rows && id != ov.deviceId ==> after.rows[id] == db.rows[id]
    ensures ov.deviceId in db.rows ==> Rewritten(db.rows[ov.deviceId], after.rows[ov.deviceId], ov)
    ensures db.Valid() ==> after.Valid()
  {
    if ov.deviceId in db.rows then
      var r := db.rows[ov.deviceId];
      db.(rows := db.rows[ov.deviceId := r.(
            level := ov.level, explicit := ov.explicit, ignoreHierarchy := ov.ignoreHierarchy,
              children := ov.children)])
    else db
  }

  /** The control columns are the override's, the others the row's own. */
  predicate Rewritten(was: Row, now: Row, ov: Override) {
    now.level == ov.level && now.explicit == ov.explicit && now.ignoreHierarchy == ov.ignoreHierarchy &&
    now.children == ov.children && now.id == was.id && now.hash == was.hash && now.devpath == was.devpath &&
    now.subsystem == was.subsystem && now.parentId == was.parentId && now.bootId == was.bootId
  }

  // ----- preview equals commit

  lemma CommitRow(db: Database, ov: Override, id: int)
    requires db.Valid() && id in db.rows
    ensures id in Commit(db, ov).rows && Commit(db, ov).rows[id] == WithOverride(db.rows[id], Some(ov))
  {
  }

  lemma {:induction false} PathAfterCommit(db: Database, ov: Override, device: Row, seen: set<int>)
    requires db.Valid()
    ensures PathFrom(db.rows, device, Some(ov), seen) == PathFrom(Commit(db, ov).rows, device, None, seen)
    decreases |db.rows.Keys - seen|, if device.id in db.rows then 0 else 1
  {
    var t := db.rows;
    if device.id > 0 && device.id !in seen && device.parentId > 0 && device.parentId in t {
      CommitRow(db, ov, device.parentId);
      assert device.id in t ==> t.Keys - (seen + {device.id}) == (t.Keys - seen) - {device.id};
      assert device.id !in t ==> t.Keys - (seen + {device.id}) == t.Keys - seen;
      PathAfterCommit(db, ov, WithOverride(t[device.parentId], Some(ov)), seen + {device.id});
    }
  }

  function Overridden(rows: seq<Row>, ov: Override): seq<Row> {
    seq(|rows|, i requires 0 <= i < |rows| => WithOverride(rows[i], Some(ov)))
  }

  lemma ByIdAfterCommit(db: Database, ov: Override)
    requires db.Valid()
    ensures ById(Commit(db, ov).rows) == Overridden(ById(db.rows), ov)
  {
    var ids := SortedIds(db.rows.Keys);
    assert SortedIds(Commit(db, ov).rows.Keys) == ids;
    forall i | 0 <= i < |ids| ensures ById(Commit(db, ov).rows)[i] == WithOverride(ById(db.rows)[i], Some(ov)) {
      CommitRow(db, ov, ids[i]);
    }
  }

  lemma {:induction false} RuleAfterCommit(rows: seq<Row>, ov: Override, hash: string, subsystem: string)
    ensures FirstIdentityRule(Occurrences(Overridden(rows, ov), hash, subsystem), None)
         == FirstIdentityRule(Occurrences(rows, hash, subsystem), Some(ov))
  {
    if rows != [] {
      RuleAfterCommit(rows[1..], ov, hash, subsystem);
      var o := Overridden(rows, ov);
      assert o[1..] == Overridden(rows[1..], ov) && o[0] == WithOverride(rows[0], Some(ov));
      if rows[0].hash == hash && rows[0].subsystem == subsystem {
        assert ([o[0]] + Occurrences(o[1..], hash, subsystem))[1..] == Occurrences(o[1..], hash, subsystem);
        assert ([rows[0]] + Occurrences(rows[1..], hash, subsystem))[1..] == Occurrences(rows[1..], hash, subsystem);
      }
    }
  }

  /** The previewed policy of any device is its policy after the write. */
  lemma PreviewEqualsCommit(db: Database, ov: Override, device: Row, live: Option<Attributes>)
    requires db.Valid()
    ensures Effective(db, device, Some(ov), live) ==
            Effective(Commit(db, ov), WithOverride(device, Some(ov)), None, live)
  {
    hide CategoryDenial, FirstIdentityRule, Occurrences, ById, NearestRule, PathFrom, Resolve;
    var d := WithOverride(device, Some(ov));
    ByIdAfterCommit(db, ov);
    RuleAfterCommit(ById(db.rows), ov, d.hash, d.subsystem);
    PathAfterCommit(db, ov, d, {});
  }

  // ----- the blast radius

  /** The devices a change of the target can reach. */
  ghost predicate Affected(db: Database, target: Row, id: int) {
    id in db.rows && (id == target.id || Below(db.rows, id, target.id) || SameIdentity(db.rows[id], target))
  }

  lemma {:induction false} RuleUntouched(rows: seq<Row>, ov: Override, hash: string, subsystem: string)
    requires forall r :: r in rows && r.id == ov.deviceId ==> r.hash != hash || r.subsystem != subsystem
    ensures FirstIdentityRule(Occurrences(rows, hash, subsystem), Some(ov)) ==
            FirstIdentityRule(Occurrences(rows, hash, subsystem), None)
  {
    if rows != [] {
      RuleUntouched(rows[1..], ov, hash, subsystem);
      if rows[0].hash == hash && rows[0].subsystem == subsystem {
        assert rows[0] in rows;
        assert ([rows[0]] + Occurrences(rows[1..], hash, subsystem))[1..] == Occurrences(rows[1..], hash, subsystem);
      }
    }
  }

  lemma {:induction false} PathUntouched(t: Table, ov: Override, id: int, seen: set<int>)
    requires ValidTable(t) && id in t && id != ov.deviceId && !Below(t, id, ov.deviceId)
    ensures PathFrom(t, t[id], Some(ov), seen) == PathFrom(t, t[id], None, seen)
    decreases |t.Keys - seen|
  {
    var parent := t[id].parentId;
    if id !in seen && parent > 0 && parent in t {
      assert Up(t, id, 1) == Up(t, parent, 0) == parent;
      assert parent != ov.deviceId;
      if Below(t, parent, ov.deviceId) {
        BelowTransitive(t, id, parent, ov.deviceId);
      }
      assert t.Keys - (seen + {id}) == (t.Keys - seen) - {id};
      PathUntouched(t, ov, parent, seen + {id});
    }
  }

  /** Outside target, descendants and same-identity rows nothing changes. */
  lemma UnaffectedKeepsPolicy(db: Database, ov: Override, id: int)
    requires db.Valid() && ov.deviceId in db.rows && id in db.rows
    requires !Affected(db, db.rows[ov.deviceId], id)
    ensures Effective(db, db.rows[id], Some(ov), None) == Effective(db, db.rows[id], None, None)
  {
    hide CategoryDenial, FirstIdentityRule, Occurrences, ById, NearestRule, PathFrom, Below, Resolve;
    var d := db.rows[id];
    ByIdExact(db.rows);
    RuleUntouched(ById(db.rows), ov, d.hash, d.subsystem);
    PathUntouched(db.rows, ov, id, {});
  }

  // ----- collecting the affected devices

  ghost function Descendants(t: Table, top: int): set<int> {
    set id | id in t && Below(t, id, top)
  }

  /** Off a cycle, every child is off a cycle too and has fewer rows below it. */
  lemma ChildDescends(t: Table, top: int, child: int)
    requires ValidTable(t) && top in t && child in t && t[child].parentId == top && !OnCycle(t, top)
    ensures !OnCycle(t, child)
    ensures |Descendants(t, child)| < |Descendants(t, top)|
  {
    assert Up(t, child, 1) == Up(t, top, 0) == top;
    assert Below(t, child, top);
    if OnCycle(t, child) {
      CycleAbove(t, child, top);
    }
    hide Below;
    var a, b := Descendants(t, child), Descendants(t, top);
    forall id | id in a ensures id in b {
      BelowTransitive(t, id, child, top);
    }
    var rest := b - a;
    assert child in rest;
    assert b == a + rest;
    assert |b| == |a| + |rest|;
  }

  /** On a cycle the recursion over children always finds another row on it. */
  lemma CycleContinues(t: Table, top: int)
    requires ValidTable(t) && top in t && OnCycle(t, top)
    ensures exists child :: child in t && t[child].parentId == top && OnCycle(t, child)
  {
    var n: nat :| n > 0 && Up(t, top, n) == top;
    UpInside(t, top, n - 1, n);
    var child := Up(t, top, n - 1);
    UpLast(t, top, n - 1);
    UpCompose(t, top, n - 1, 1);
    assert Up(t, child, 1) == top;
    UpCompose(t, child, 1, n - 1);
    assert Up(t, child, n) == child;
  }

  /** Calls of the recursion over children, each made inside the one before it. */
  predicate Nested(t: Table, calls: seq<int>) {
    |calls| <= 1 || (calls[1] in t && t[calls[1]].parentId == calls[0] && Nested(t, calls[1..]))
  }

  /** No nesting of calls that starts at this row is deeper than this. */
  ghost predicate NestsAtMost(t: Table, top: int, depth: nat) {
    forall calls :: |calls| > 0 && calls[0] == top && Nested(t, calls) ==> |calls| <= depth
  }

  /** From a row on a cycle there are nested calls to every depth. */
  lemma {:induction false} CycleNests(t: Table, top: int, n: nat) returns (calls: seq<int>)
    requires ValidTable(t) && top in t && OnCycle(t, top)
    ensures |calls| == n + 1 && calls[0] == top && Nested(t, calls)
    decreases n
  {
    hide OnCycle;
    if n == 0 {
      calls := [top];
    } else {
      CycleContinues(t, top);
      var child :| child in t && t[child].parentId == top && OnCycle(t, child);
      var deeper := CycleNests(t, child, n - 1);
      calls := [top] + deeper;
      assert calls[1..] == deeper;
    }
  }

  /** Off a cycle the calls nest at most once per row below. */
  lemma {:induction false} NestingIsBounded(t: Table, top: int, calls: seq<int>)
    requires ValidTable(t) && top in t && !OnCycle(t, top)
    requires |calls| > 0 && calls[0] == top && Nested(t, calls)
    ensures |calls| <= |Descendants(t, top)| + 1
    decreases |calls|
  {
    hide OnCycle, Descendants;
    if |calls| > 1 {
      ChildDescends(t, top, calls[1]);
      NestingIsBounded(t, calls[1], calls[1..]);
    }
  }

  /** The recursion over children ends exactly for the rows that are not on a cycle. */
  lemma RecursionEndsExactly(t: Table, top: int)
    requires ValidTable(t) && top in t
    ensures (exists depth: nat :: NestsAtMost(t, top, depth)) <==> !OnCycle(t, top)
  {
    hide OnCycle, Descendants, Nested;
    if OnCycle(t, top) {
      forall depth: nat ensures !NestsAtMost(t, top, depth) {
        var calls := CycleNests(t, top, depth);
      }
    } else {
      var depth := |Descendants(t, top)| + 1;
      forall calls | |calls| > 0 && calls[0] == top && Nested(t, calls) ensures |calls| <= depth {
        NestingIsBounded(t, top, calls);
      }
      assert NestsAtMost(t, top, depth);
    }
  }

  function Children(rows: seq<Row>, parent: int): (found: seq<Row>)
    ensures forall r :: r in found <==> r in rows && r.parentId == parent
  {
    if rows == [] then []
    else if rows[0].parentId == parent then [rows[0]] + Children(rows[1..], parent)
    else Children(rows[1..], parent)
  }

  /** One of the first n children, or below one of them. */
  ghost predicate UnderSome(t: Table, r: Row, children: seq<Row>, n: nat) {
    exists k :: 0 <= k < n && k < |children| && (r == children[k] || Below(t, r.id, children[k].id))
  }

  ghost predicate RowOf(t: Table, r: Row) {
    r.id in t && t[r.id] == r
  }

  lemma UnderSomeNext(t: Table, r: Row, children: seq<Row>, n: nat)
    requires n < |children|
    ensures UnderSome(t, r, children, n + 1) <==>
              UnderSome(t, r, children, n) || r == children[n] || Below(t, r.id, children[n].id)
  {
    hide Below;
    if UnderSome(t, r, children, n) {
      var k :| 0 <= k < n && (r == children[k] || Below(t, r.id, children[k].id));
      assert 0 <= k < n + 1;
    }
  }

  lemma UnderAllChildren(t: Table, r: Row, top: int, children: seq<Row>)
    requires ValidTable(t) && top in t && RowOf(t, r)
    requires forall c: Row :: c in children <==> RowOf(t, c) && c.parentId == top
    ensures UnderSome(t, r, children, |children|) <==> Below(t, r.id, top)
  {
    hide Below;
    BelowThroughChild(t, r.id, top);
    if UnderSome(t, r, children, |children|) {
      var k :| 0 <= k < |children| && (r == children[k] || Below(t, r.id, children[k].id));
      assert children[k] in children;
    }
    if Below(t, r.id, top) {
      if t[r.id].parentId == top {
        assert r in children;
        var k :| 0 <= k < |children| && children[k] == r;
      } else {
        var c :| c in t && t[c].parentId == top && Below(t, r.id, c);
        assert t[c] in children;
        var k :| 0 <= k < |children| && children[k] == t[c];
      }
    }
  }

  /** The rows found are those at or below the first n children. */
  ghost predicate FoundUnder(t: Table, found: seq<Row>, children: seq<Row>, n: nat) {
    forall r: Row :: r in found <==> RowOf(t, r) && UnderSome(t, r, children, n)
  }

  ghost predicate FoundBelow(t: Table, found: seq<Row>, top: int) {
    forall r: Row :: r in found <==> RowOf(t, r) && Below(t, r.id, top)
  }

  lemma FoundNext(t: Table, found: seq<Row>, below: seq<Row>, children: seq<Row>, i: nat)
    requires i < |children| && RowOf(t, children[i])
    requires FoundUnder(t, found, children, i) && FoundBelow(t, below, children[i].id)
    ensures FoundUnder(t, found + [children[i]] + below, children, i + 1)
  {
    hide Below, UnderSome;
    forall r: Row ensures r in found + [children[i]] + below <==> RowOf(t, r) && UnderSome(t, r, children, i + 1) {
      UnderSomeNext(t, r, children, i);
    }
  }

  lemma FoundAll(t: Table, found: seq<Row>, top: int, children: seq<Row>)
    requires ValidTable(t) && top in t && FoundUnder(t, found, children, |children|)
    requires forall c: Row :: c in children <==> RowOf(t, c) && c.parentId == top
    ensures FoundBelow(t, found, top)
  {
    hide Below, UnderSome;
    forall r: Row | RowOf(t, r) ensures UnderSome(t, r, children, |children|) <==> Below(t, r.id, top) {
      UnderAllChildren(t, r, top, children);
    }
  }

  /** getDescendantDevices: it has no cycle guard, and ends exactly off a cycle. */
  method GetDescendants(t: Table, top: int) returns (found: seq<Row>)
    requires ValidTable(t) && top in t && !OnCycle(t, top)
    ensures FoundBelow(t, found, top)
    decreases |Descendants(t, top)|
  {
    hide ById, UnderSome, Descendants, OnCycle, FoundUnder, FoundBelow;
    found := [];
    ByIdExact(t);
    var children := Children(ById(t), top);
    assert FoundUnder(t, found, children, 0) by { NoneFound(t, children); }
    for i := 0 to |children|
      invariant FoundUnder(t, found, children, i)
    {
      assert children[i] in children;
      ChildDescends(t, top, children[i].id);
      var below := GetDescendants(t, children[i].id);
      FoundNext(t, found, below, children, i);
      found := found + [children[i]] + below;
    }
    FoundAll(t, found, top, children);
  }

  lemma NoneFound(t: Table, children: seq<Row>)
    ensures FoundUnder(t, [], children, 0)
  {
    hide Below;
    NoneUnder(t, children);
  }

  lemma NoneUnder(t: Table, children: seq<Row>)
    ensures forall r: Row :: !UnderSome(t, r, children, 0)
  {
  }

  /** Appends the rows of the table whose id has not been seen. */
  method AddUnseen(ghost t: Table, devices: seq<Row>, more: seq<Row>) returns (all: seq<Row>)
    requires ValidTable(t) && DistinctIds(devices)
    requires forall r :: r in devices || r in more ==> RowOf(t, r)
    ensures DistinctIds(all)
    ensures forall r :: r in all <==> r in devices || r in more
  {
    all := devices;
    for i := 0 to |more|
      invariant DistinctIds(all)
      invariant forall r :: r in all <==> r in devices || r in more[..i]
    {
      var device := more[i];
      assert device in more;
      assert more[..i + 1] == more[..i] + [device];
      var seen := set r | r in all :: r.id;
      if device.id > 0 && device.id !in seen {
        all := all + [device];
      } else {
        var twin :| twin in all && twin.id == device.id;
        assert more[..i] <= more;
        assert twin in devices || twin in more;
        assert twin == device;
      }
    }
    assert more[..|more|] == more;
  }

  /** affected_devices_for_override: each affected device once. */
  method AffectedDevices(db: Database, target: Row) returns (devices: seq<Row>)
    requires db.Valid() && !OnCycle(db.rows, target.id) && target.id in db.rows && db.rows[target.id] == target
    ensures DistinctIds(devices)
    ensures forall r: Row :: r in devices <==> Affected(db, target, r.id) && RowOf(db.rows, r)
  {
    hide Below, ById, Occurrences, FoundBelow, Affected, RowOf;
    var below := GetDescendants(db.rows, target.id);
    var same := Occurrences(ById(db.rows), target.hash, target.subsystem);
    AffectedParts(db, target, below);
    devices := AddUnseen(db.rows, [], [target]);
    devices := AddUnseen(db.rows, devices, below);
    devices := AddUnseen(db.rows, devices, same);
  }

  /** The target, the rows below it and the rows of its identity are the affected ones. */
  lemma AffectedParts(db: Database, target: Row, below: seq<Row>)
    requires db.Valid() && target.id in db.rows && db.rows[target.id] == target && FoundBelow(db.rows, below, target.id)
    ensures var same := Occurrences(ById(db.rows), target.hash, target.subsystem);
            && (forall r: Row :: r == target || r in below || r in same ==> RowOf(db.rows, r))
            && (forall r: Row :: Affected(db, target, r.id) && RowOf(db.rows, r) <==>
                 r == target || r in below || r in same)
  {
    hide Below, ById, Occurrences;
    ByIdExact(db.rows);
    OccurrencesExact(ById(db.rows), target.hash, target.subsystem);
  }

  lemma {:induction false} OccurrencesExact(rows: seq<Row>, hash: string, subsystem: string)
    ensures forall r :: r in Occurrences(rows, hash, subsystem) <==>
              r in rows && r.hash == hash && r.subsystem == subsystem
  {
    if rows != [] {
      OccurrencesExact(rows[1..], hash, subsystem);
      assert forall r :: r in rows <==> r == rows[0] || r in rows[1..];
    }
  }

  // ----- blockers

  predicate Connected(r: Row, bootId: string) {
    bootId != "" && r.bootId == bootId
  }

  datatype Blocker = Blocker(id: int, source: Source)

  /** The written change blocks the device, for that reason. */
  ghost predicate BlockedAfter(db: Database, ov: Override, b: Blocker)
    requires db.Valid()
  {
    b.id in db.rows &&
    Effective(Commit(db, ov), Commit(db, ov).rows[b.id], None, None).level == Blocked &&
    Effective(Commit(db, ov), Commit(db, ov).rows[b.id], None, None).source == b.source
  }

  /** connected_blockers_for_override: exactly the connected affected devices that the written
      change would block. */
  method ConnectedBlockers(db: Database, target: Row, ov: Override, bootId: string) returns (blockers: seq<Blocker>)
    requires db.Valid() && !OnCycle(db.rows, target.id) && target.id in db.rows && db.rows[target.id] == target &&
             ov.deviceId == target.id
    ensures forall b :: b in blockers <==>
              Affected(db, target, b.id) && bootId != "" && db.rows[b.id].bootId == bootId && BlockedAfter(db, ov, b)
  {
    hide Effective, Affected, Commit;
    blockers := [];
    var devices := AffectedDevices(db, target);
    AffectedInTable(db, target);
    for i := 0 to |devices|
      invariant forall b :: b in blockers ==>
                  Affected(db, target, b.id) && Connected(db.rows[b.id], bootId) && BlockedAfter(db, ov, b)
      invariant forall k, b: Blocker ::
                  0 <= k < i && devices[k].id == b.id && Connected(devices[k], bootId) && BlockedAfter(db, ov, b) ==>
                    b in blockers
    {
      assert devices[i] in devices;
      var d := devices[i];
      PreviewEqualsCommit(db, ov, d, None);
      CommitRow(db, ov, d.id);
      if !Connected(d, bootId) {
        continue;
      }
      var after := EvaluateEffective(db, d, Some(ov), None);
      if after.level != Blocked {
        continue;
      }
      blockers := blockers + [Blocker(d.id, after.source)];
    }
    forall b: Blocker | Affected(db, target, b.id) && Connected(db.rows[b.id], bootId) && BlockedAfter(db, ov, b)
      ensures b in blockers
    {
      assert db.rows[b.id] in devices;
      var k :| 0 <= k < |devices| && devices[k] == db.rows[b.id];
    }
  }

  lemma AffectedInTable(db: Database, target: Row)
    ensures forall id :: Affected(db, target, id) ==> id in db.rows
  {
  }

  /** No newly blocked connected device is missing from the blockers: whoever the write blocks,
      and was not blocked before, is affected. */
  lemma BlockersAreComplete(db: Database, ov: Override, id: int)
    requires db.Valid() && ov.deviceId in db.rows && id in db.rows
    requires Effective(Commit(db, ov), Commit(db, ov).rows[id], None, None).level == Blocked
    requires Effective(db, db.rows[id], None, None).level != Blocked
    ensures Affected(db, db.rows[ov.deviceId], id)
  {
    hide Effective;
    PreviewEqualsCommit(db, ov, db.rows[id], None);
    CommitRow(db, ov, id);
    if !Affected(db, db.rows[ov.deviceId], id) {
      UnaffectedKeepsPolicy(db, ov, id);
    }
  }
}
