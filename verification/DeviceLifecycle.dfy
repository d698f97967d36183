/** Transactional removal of a connected device together with everything hanging below it. */
module DeviceLifecycle {
  import opened Common
  import opened DeviceTable
  import opened TreePaths
  import opened PolicyOverride
  import opened DeviceSubtrees
  import opened DeviceStore

  ghost predicate Distinct(ids: seq<int>) {
    forall i, j :: 0 <= i < j < |ids| ==> ids[i] != ids[j]
  }

  lemma {:induction false} ChildrenDistinct(rows: seq<Row>, parent: int)
    requires forall i, j :: 0 <= i < j < |rows| ==> rows[i].id < rows[j].id
    ensures forall i, j :: 0 <= i < j < |Children(rows, parent)| ==>
              Children(rows, parent)[i].id < Children(rows, parent)[j].id
  {
    if rows != [] {
      ChildrenDistinct(rows[1..], parent);
      var rest := Children(rows[1..], parent);
      forall j | 0 <= j < |rest| ensures rows[0].id < rest[j].id {
        assert rest[j] in rest;
        var k :| 0 <= k < |rows[1..]| && rows[1..][k] == rest[j];
      }
    }
  }

  /** getChildDevices */
  function ChildRows(t: Table, parent: int): (found: seq<Row>)
    requires ValidTable(t)
    ensures forall r: Row :: r in found <==> r.id in t && t[r.id] == r && r.parentId == parent
    ensures forall i, j :: 0 <= i < j < |found| ==> found[i].id < found[j].id
  {
    ByIdExact(t);
    ChildrenDistinct(ById(t), parent);
    Children(ById(t), parent)
  }

  /** Everything at or below the current ones among the first n children. */
  ghost function SubtreesOf(t: Table, boot: string, children: seq<Row>, n: nat): set<int>
    requires n <= |children|
  {
    set id | id in Current(t, boot) && UnderChild(t, boot, children, n, id)
  }

  ghost predicate UnderChild(t: Table, boot: string, children: seq<Row>, n: nat, id: int)
    requires n <= |children|
  {
    exists k :: 0 <= k < n && children[k].bootId == boot && id in Subtree(t, boot, children[k].id)
  }

  lemma SubtreesNext(t: Table, boot: string, children: seq<Row>, n: nat)
    requires n < |children|
    ensures SubtreesOf(t, boot, children, n + 1) ==
            SubtreesOf(t, boot, children, n) + (if children[n].bootId == boot then
              Subtree(t, boot, children[n].id) else {})
  {
    SubtreeIsCurrent(t, boot, children[n].id);
    var a, b, m := SubtreesOf(t, boot, children, n + 1), SubtreesOf(t, boot, children, n),
      Subtree(t, boot, children[n].id);
    hide Subtree;
    forall id ensures id in a <==> id in b || (children[n].bootId == boot && id in m) {
      if id in b {
        var k :| 0 <= k < n && children[k].bootId == boot && id in Subtree(t, boot, children[k].id);
        assert UnderChild(t, boot, children, n + 1, id);
      }
      if children[n].bootId == boot && id in m {
        assert UnderChild(t, boot, children, n + 1, id);
      }
    }
  }

  lemma SubtreeIff(t: Table, boot: string, id: int, top: int)
    ensures id in Subtree(t, boot, top) <==> id in Current(t, boot) && Under(Current(t, boot), id, top)
  {
  }

  lemma RowIndex(t: Table, parent: int, id: int) returns (i: nat)
    requires ValidTable(t) && id in t && t[id].parentId == parent
    ensures i < |ChildRows(t, parent)| && ChildRows(t, parent)[i] == t[id]
  {
    hide ChildRows;
    assert t[id] in ChildRows(t, parent);
    i :| 0 <= i < |ChildRows(t, parent)| && ChildRows(t, parent)[i] == t[id];
  }

  lemma ThroughChild(t: Table, boot: string, id: int, x: int, k: int)
    requires ValidTable(t) && id in Current(t, boot) && x in Current(t, boot)
    requires k in Current(t, boot) && t[k].parentId == id && Under(Current(t, boot), x, k)
    ensures UnderChild(t, boot, ChildRows(t, id), |ChildRows(t, id)|, x)
  {
    hide Below, ChildRows, Subtree;
    var i := RowIndex(t, id, k);
    SubtreeIff(t, boot, x, k);
  }

  lemma FromChild(t: Table, boot: string, id: int, x: int) returns (k: int)
    requires ValidTable(t) && UnderChild(t, boot, ChildRows(t, id), |ChildRows(t, id)|, x)
    ensures k in Current(t, boot) && t[k].parentId == id && Under(Current(t, boot), x, k)
  {
    hide Below, ChildRows, Subtree;
    var cs := ChildRows(t, id);
    var i :| 0 <= i < |cs| && cs[i].bootId == boot && x in Subtree(t, boot, cs[i].id);
    assert cs[i] in cs;
    k := cs[i].id;
    SubtreeIff(t, boot, x, k);
  }

  lemma ThroughChildren(t: Table, boot: string, id: int, x: int)
    requires ValidTable(t) && id in Current(t, boot) && x in Current(t, boot)
    ensures var c := Current(t, boot);
            x in SubtreesOf(t, boot, ChildRows(t, id), |ChildRows(t, id)|) <==>
            exists k :: k in c && c[k].parentId == id && Under(c, x, k)
  {
    hide Below, ChildRows, UnderChild, Under;
    var c, cs := Current(t, boot), ChildRows(t, id);
    if UnderChild(t, boot, cs, |cs|, x) {
      var k := FromChild(t, boot, id, x);
      assert k in c && c[k].parentId == id && Under(c, x, k);
    }
    if k :| k in c && c[k].parentId == id && Under(c, x, k) {
      ThroughChild(t, boot, id, x, k);
    }
  }

  lemma SubtreesAll(t: Table, boot: string, id: int)
    requires ValidTable(t) && id in Current(t, boot)
    ensures Subtree(t, boot, id) == {id} + SubtreesOf(t, boot, ChildRows(t, id), |ChildRows(t, id)|)
    ensures OnCycle(Current(t, boot), id) <==> id in SubtreesOf(t, boot, ChildRows(t, id), |ChildRows(t, id)|)
  {
    hide Below, ChildRows, Under, OnCycle, UnderChild;
    var c := Current(t, boot);
    var s, all := Subtree(t, boot, id), SubtreesOf(t, boot, ChildRows(t, id), |ChildRows(t, id)|);
    forall x ensures x in s <==> x in {id} + all {
      if x in c {
        ThroughChildren(t, boot, id, x);
        UnderThroughChild(c, x, id);
      }
    }
    ThroughChildren(t, boot, id, id);
    UnderThroughChild(c, id, id);
  }

  /** Why finding a row of a subtree already seen means the whole walk stands on a cycle. */
  ghost predicate SeenMeansCycle(t: Table, boot: string, id: int, seen: set<int>, root: int) {
    forall x :: x in seen && x in Subtree(t, boot, id) ==> OnCycle(Current(t, boot), root)
  }

  /** A child's subtree meets the row it hangs on only on a cycle, which then passes the top. */
  lemma ParentInChild(t: Table, boot: string, id: int, kid: int, root: int)
    requires ValidTable(t) && id in Current(t, boot) && kid in Current(t, boot) && root in Current(t, boot)
    requires t[kid].parentId == id && id in Subtree(t, boot, root) && id in Subtree(t, boot, kid)
    ensures OnCycle(Current(t, boot), root)
  {
    hide Below;
    var c := Current(t, boot);
    assert c[kid].parentId == id && Under(c, id, kid);
    UnderThroughChild(c, id, id);
    CycleReachesTop(c, id, root);
  }

  lemma SiblingsMeet(t: Table, boot: string, id: int, a: int, b: int, x: int, root: int)
    requires ValidTable(t) && id in Current(t, boot) && a in Current(t, boot) && b in Current(t, boot) &&
             root in Current(t, boot)
    requires a != b && t[a].parentId == id && t[b].parentId == id && id in Subtree(t, boot, root)
    requires x in Subtree(t, boot, a) && x in Subtree(t, boot, b)
    ensures OnCycle(Current(t, boot), root)
  {
    hide Below;
    var c := Current(t, boot);
    SiblingsShare(c, id, a, b, x);
    CycleReachesTop(c, id, root);
  }

  lemma ChildInSubtree(t: Table, boot: string, id: int, kid: int, root: int, x: int)
    requires ValidTable(t) && id in Current(t, boot) && kid in Current(t, boot) && root in Current(t, boot)
    requires t[kid].parentId == id && id in Subtree(t, boot, root)
    ensures kid in Subtree(t, boot, root)
    ensures x in Subtree(t, boot, kid) ==> x in Subtree(t, boot, id)
  {
    hide Below;
    var c := Current(t, boot);
    ChildIsBelow(c, kid, id);
    assert Under(c, kid, id);
    UnderTransitive(c, kid, id, root);
    if x in Subtree(t, boot, kid) {
      UnderTransitive(c, x, kid, id);
    }
  }

  ghost predicate Collected(before: seq<int>, after: seq<int>, what: set<int>) {
    && before <= after
    && Distinct(after[|before|..])
    && Ids(after[|before|..]) == what
  }

  lemma CollectMore(before: seq<int>, middle: seq<int>, after: seq<int>, a: set<int>, b: set<int>)
    requires Collected(before, middle, a) && Collected(middle, after, b) && a !! b
    ensures Collected(before, after, a + b)
  {
    var x, y := middle[|before|..], after[|middle|..];
    assert after[|before|..] == x + y;
    forall i, j | 0 <= i < j < |x + y| ensures (x + y)[i] != (x + y)[j] {
      assert i < |x| ==> x[i] in Ids(x);
      assert j >= |x| ==> y[j - |x|] in Ids(y);
    }
    forall e ensures e in Ids(x + y) <==> e in a + b {
      assert e in x + y <==> e in x || e in y;
      assert e in x <==> e in Ids(x);
      assert e in y <==> e in Ids(y);
    }
  }

  lemma CollectOne(ids: seq<int>, id: int)
    ensures Collected(ids, ids + [id], {id})
  {
    assert (ids + [id])[|ids|..] == [id];
  }

  lemma CurrentIff(t: Table, boot: string, id: int)
    ensures id in Current(t, boot) <==> id in t && t[id].bootId == boot
  {
  }

  /** Where the walk stands after the first n children: the row and their subtrees are seen and
      listed, none of them seen before. */
  ghost predicate Walked(t: Table, boot: string, id: int, children: seq<Row>, n: nat,
                         seen: set<int>, newSeen: set<int>, ids: seq<int>, newIds: seq<int>)
    requires n <= |children|
  {
    var below := SubtreesOf(t, boot, children, n);
    newSeen == seen + {id} + below && below !! seen + {id} && Collected(ids, newIds, {id} + below)
  }

  lemma WalkStarts(t: Table, boot: string, id: int, children: seq<Row>, seen: set<int>, ids: seq<int>)
    ensures Walked(t, boot, id, children, 0, seen, seen + {id}, ids, ids + [id])
  {
    NoSubtrees(t, boot, children);
    CollectOne(ids, id);
    hide SubtreesOf, Collected;
    assert {id} + {} == {id};
  }

  lemma WalkedPast(t: Table, boot: string, id: int, children: seq<Row>, n: nat,
                   seen: set<int>, newSeen: set<int>, ids: seq<int>, newIds: seq<int>)
    requires n < |children| && children[n].bootId != boot
    requires Walked(t, boot, id, children, n, seen, newSeen, ids, newIds)
    ensures Walked(t, boot, id, children, n + 1, seen, newSeen, ids, newIds)
  {
    SubtreesNext(t, boot, children, n);
    hide SubtreesOf, Collected;
    assert SubtreesOf(t, boot, children, n) + {} == SubtreesOf(t, boot, children, n);
  }

  lemma WalkedChild(t: Table, boot: string, id: int, children: seq<Row>, n: nat, seen: set<int>, beforeSeen: set<int>,
                    newSeen: set<int>, ids: seq<int>, beforeIds: seq<int>, newIds: seq<int>)
    requires n < |children| && children[n].bootId == boot
    requires Walked(t, boot, id, children, n, seen, beforeSeen, ids, beforeIds)
    requires Subtree(t, boot, children[n].id) !! beforeSeen && newSeen == beforeSeen + Subtree(t, boot, children[n].id)
    requires Collected(beforeIds, newIds, Subtree(t, boot, children[n].id))
    ensures Walked(t, boot, id, children, n + 1, seen, newSeen, ids, newIds)
  {
    hide SubtreesOf, Collected, Subtree;
    SubtreesNext(t, boot, children, n);
    var below, more := SubtreesOf(t, boot, children, n), Subtree(t, boot, children[n].id);
    CollectMore(ids, beforeIds, newIds, {id} + below, more);
    assert {id} + below + more == {id} + (below + more);
  }

  lemma WalkEnds(t: Table, boot: string, id: int, seen: set<int>, newSeen: set<int>, ids: seq<int>, newIds: seq<int>)
    requires ValidTable(t) && id in Current(t, boot) && id !in seen
    requires Walked(t, boot, id, ChildRows(t, id), |ChildRows(t, id)|, seen, newSeen, ids, newIds)
    ensures !OnCycle(Current(t, boot), id) && Subtree(t, boot, id) !! seen
    ensures newSeen == seen + Subtree(t, boot, id) && Collected(ids, newIds, Subtree(t, boot, id))
  {
    hide SubtreesOf, Collected, Subtree, OnCycle, Current, ChildRows;
    SubtreesAll(t, boot, id);
  }

  lemma SeenAtChild(t: Table, boot: string, id: int, children: seq<Row>, n: nat, before: set<int>, seen: set<int>,
                    ids: seq<int>, newIds: seq<int>, root: int)
    requires ValidTable(t) && n < |children| && children == ChildRows(t, id) && children[n].bootId == boot
    requires root in Current(t, boot) && id in Subtree(t, boot, root)
    requires SeenMeansCycle(t, boot, id, before, root)
    requires Walked(t, boot, id, children, n, before, seen, ids, newIds)
    ensures before <= seen && id in seen
    ensures children[n].id in Current(t, boot) && children[n].id in Subtree(t, boot, root)
    ensures SeenMeansCycle(t, boot, children[n].id, seen, root)
  {
    SubtreeIsCurrent(t, boot, root);
    hide Subtree, OnCycle, ChildRows, Collected;
    var kid := children[n].id;
    assert children[n] in children;
    ChildInSubtree(t, boot, id, kid, root, kid);
    forall x | x in seen && x in Subtree(t, boot, kid) ensures OnCycle(Current(t, boot), root) {
      ChildInSubtree(t, boot, id, kid, root, x);
      if x !in before {
        if x == id {
          ParentInChild(t, boot, id, kid, root);
        } else {
          var k :| 0 <= k < n && children[k].bootId == boot && x in Subtree(t, boot, children[k].id);
          assert children[k] in children;
          SiblingsMeet(t, boot, id, children[k].id, kid, x, root);
        }
      }
    }
  }

  /**
   * The depth-first walk. For a target, with nothing seen yet, it says: the walk succeeds exactly
   * when the target does not reach itself through current links, and then it lists every row of
   * the subtree once.
   */
  method CollectCurrentSubtree(t: Table, boot: string, id: int, seen: set<int>, ids: seq<int>, ghost root: int)
    returns (ok: bool, newSeen: set<int>, newIds: seq<int>)
    requires ValidTable(t)
    requires id in Current(t, boot) ==>
               root in Current(t, boot) && id in Subtree(t, boot, root) && SeenMeansCycle(t, boot, id, seen, root)
    ensures id !in t ==> !ok
    ensures id in t && id !in Current(t, boot) ==> ok == (id !in seen) && newIds == ids
    ensures id in Current(t, boot) && !ok ==> OnCycle(Current(t, boot), root)
    ensures id in Current(t, boot) && ok ==> !OnCycle(Current(t, boot), id) && Subtree(t, boot, id) !! seen
    ensures id in Current(t, boot) && ok ==>
              newSeen == seen + Subtree(t, boot, id) && Collected(ids, newIds, Subtree(t, boot, id))
    decreases |t.Keys - seen|
  {
    hide Current, Below, ById, Children, Subtree, SubtreesOf, OnCycle, ChildRows, Collected;
    CurrentIff(t, boot, id);
    newSeen, newIds := seen, ids;
    if id in seen {
      if id in Current(t, boot) {
        TopInSubtree(t, boot, id);
      }
      return false, newSeen, newIds;
    }
    newSeen := seen + {id};
    if id !in t {
      return false, newSeen, newIds;
    }
    if t[id].bootId != boot {
      return true, newSeen, newIds;
    }
    hide SeenMeansCycle, Walked;
    newIds := ids + [id];
    var children := ChildRows(t, id);
    WalkStarts(t, boot, id, children, seen, ids);
    for n := 0 to |children|
      invariant Walked(t, boot, id, children, n, seen, newSeen, ids, newIds)
    {
      if children[n].bootId == boot {
        ghost var beforeSeen, beforeIds := newSeen, newIds;
        SeenAtChild(t, boot, id, children, n, seen, newSeen, ids, newIds, root);
        Fewer(t.Keys, seen, newSeen, id);
        ok, newSeen, newIds := CollectCurrentSubtree(t, boot, children[n].id, newSeen, newIds, root);
        if !ok {
          return;
        }
        WalkedChild(t, boot, id, children, n, seen, beforeSeen, newSeen, ids, beforeIds, newIds);
      } else {
        WalkedPast(t, boot, id, children, n, seen, newSeen, ids, newIds);
      }
    }
    WalkEnds(t, boot, id, seen, newSeen, ids, newIds);
    ok := true;
  }

  lemma NoSubtrees(t: Table, boot: string, children: seq<Row>)
    ensures SubtreesOf(t, boot, children, 0) == {}
  {
    assert forall id :: !UnderChild(t, boot, children, 0, id);
  }

  lemma Fewer(all: set<int>, seen: set<int>, more: set<int>, id: int)
    requires seen <= more && id in more && id in all && id !in seen
    ensures |all - more| < |all - seen|
  {
    var a, b := all - more, all - seen;
    assert forall x :: x in a ==> x in b;
    assert a <= b;
    assert id in b && id !in a;
    var rest := b - a;
    assert id in rest;
    assert b == a + rest;
    assert |b| == |a| + |rest|;
  }

  // ----- the operations

  datatype RemovalError =
    NoError | BadRequest | BeginFailed | NotFound | CycleDetected | ClearFailed | PruneFailed | EventFailed
    | CommitFailed

  datatype RemovalResult = RemovalResult(ok: bool, alreadyRemoved: bool, deviceId: int, affectedIds: seq<int>,
    error: RemovalError)

  /** The state a successful disconnect leaves: cleared rows, one event, nothing else. */
  ghost function AfterRemoval(c: Content, boot: string, target: int, details: string): Content
    requires boot != "" && target in c.rows
  {
    c.(rows := Disconnected(c.rows, boot, target),
       events := c.events + [DeviceEvent(target, "disconnect", "success", details)])
  }

  predicate IsCurrent(t: Table, boot: string, id: int) {
    id in t && t[id].bootId == boot
  }

  /** What a removal of a device by id may answer, and with which effect. */
  ghost predicate Removal(before: Content, after: Content, boot: string, target: int, details: string, r: RemovalResult)
    requires boot != ""
  {
    if !IsCurrent(before.rows, boot, target) then
      && after == before && r.affectedIds == []
      && (target !in before.rows ==> !r.ok && r.error == NotFound)
      && (target in before.rows ==> r.ok && r.alreadyRemoved && r.error == NoError)
    else if OnCycle(Current(before.rows, boot), target) then
      !r.ok && r.error == CycleDetected
    else
      && r.error != CycleDetected
      && (r.ok ==> && !r.alreadyRemoved && r.deviceId == target
                   && after == AfterRemoval(before, boot, target, details)
                   && Distinct(r.affectedIds) && Ids(r.affectedIds) == Subtree(before.rows, boot, target))
  }

  ghost predicate CurrentCycle(t: Table, boot: string, target: int) {
    IsCurrent(t, boot, target) && OnCycle(Current(t, boot), target)
  }

  /** The virtual parents that go with the target. */
  ghost function Pruned(t: Table, boot: string, target: int): set<int>
    requires boot != ""
  {
    if target in t then Ids(PruneChain(Cleared(t, Subtree(t, boot, target)), boot, t[target].parentId)) else {}
  }

  ghost predicate OneOf(fs: seq<Statement>, ids: set<int>) {
    |fs| == 1 && fs[0].SetBootId? && fs[0].id in ids
  }

  /** Success exactly when no statement failed, the target exists and is on no cycle; every error
      names what went wrong. */
  ghost predicate Named(known: bool, cyclic: bool, cleared: set<int>, pruned: set<int>, fs: seq<Statement>,
                        r: RemovalResult)
  {
    && (r.ok <==> fs == [] && known && !cyclic)
    && (r.error == NoError <==> r.ok)
    && (r.error == NotFound <==> fs == [] && !known)
    && (r.error == CycleDetected <==> fs == [] && cyclic)
    && (r.error == ClearFailed <==> OneOf(fs, cleared))
    && (r.error == PruneFailed <==> OneOf(fs, pruned))
    && (r.error == EventFailed <==> fs == [AddEvent])
    && (r.error == BeginFailed <==> fs == [Begin])
    && (r.error == CommitFailed <==> fs == [Commit])
    && r.error != BadRequest
  }

  /** The answer in terms of the table before and the statements that failed meanwhile. */
  ghost predicate Explained(t: Table, boot: string, target: int, fs: seq<Statement>, r: RemovalResult)
    requires boot != ""
  {
    Named(target in t, CurrentCycle(t, boot, target), Subtree(t, boot, target), Pruned(t, boot, target), fs, r)
  }

  lemma ClearOneMore(t: Table, done: set<int>, id: int)
    requires id in t
    ensures id in Cleared(t, done)
    ensures Cleared(t, done)[id := Cleared(t, done)[id].(bootId := "")] == Cleared(t, done + {id})
  {
    var a := Cleared(t, done)[id := Cleared(t, done)[id].(bootId := "")];
    TablesEqual(a, Cleared(t, done + {id}));
  }

  lemma ClearNothing(t: Table)
    ensures Cleared(t, {}) == t
  {
    TablesEqual(Cleared(t, {}), t);
  }

  lemma TailIds(ids: seq<int>, i: nat)
    requires i < |ids|
    ensures Ids(ids[i..]) == Ids(ids[i + 1..]) + {ids[i]}
  {
    assert ids[i..] == [ids[i]] + ids[i + 1..];
    ConsIds(ids[i], ids[i + 1..]);
  }

  lemma ChildIsCurrent(t: Table, id: int, boot: string, i: nat)
    requires ValidTable(t) && i < |ChildRows(t, id)| && ChildRows(t, id)[i].bootId == boot
    ensures HasCurrentChild(t, id, boot)
  {
    hide ChildRows;
    assert ChildRows(t, id)[i] in ChildRows(t, id);
  }

  lemma NoChildIsCurrent(t: Table, id: int, boot: string)
    requires ValidTable(t) && forall k :: 0 <= k < |ChildRows(t, id)| ==> ChildRows(t, id)[k].bootId != boot
    ensures !HasCurrentChild(t, id, boot)
  {
    hide ChildRows;
    forall k | k in t && t[k].parentId == id ensures t[k].bootId != boot {
      assert t[k] in ChildRows(t, id);
    }
  }

  /** The answers given before anything is written. */
  lemma EarlyAnswers(t: Table, boot: string, target: int, r: RemovalResult)
    requires boot != "" && r == RemovalResult(false, false, target, [], NoError)
    ensures target !in t ==> Explained(t, boot, target, [], r.(error := NotFound))
    ensures target in t && t[target].bootId != boot ==>
              Explained(t, boot, target, [], r.(ok := true, alreadyRemoved := true))
    ensures CurrentCycle(t, boot, target) ==> Explained(t, boot, target, [], r.(error := CycleDetected))
  {
    hide OnCycle, Subtree, Pruned, Current;
  }

  /** The answers given once the subtree is collected. */
  lemma {:induction false} LateAnswers(t: Table, boot: string, target: int, r: RemovalResult)
    requires boot != "" && ValidTable(t) && IsCurrent(t, boot, target) && !OnCycle(Current(t, boot), target)
    requires !r.ok && r.error == NoError
    ensures Pruned(t, boot, target) ==
            Ids(PruneChain(Cleared(t, Subtree(t, boot, target)), boot, t[target].parentId))
    ensures forall id :: id in Subtree(t, boot, target) ==>
              Explained(t, boot, target, [SetBootId(id)], r.(error := ClearFailed))
    ensures forall id :: id in Pruned(t, boot, target) ==>
              Explained(t, boot, target, [SetBootId(id)], r.(error := PruneFailed))
    ensures Explained(t, boot, target, [AddEvent], r.(error := EventFailed))
    ensures Explained(t, boot, target, [], r.(ok := true))
  {
    PrunedApart(t, boot, target);
    hide OnCycle, Subtree, Current, PruneChain, Cleared, Pruned, CurrentCycle;
    assert !CurrentCycle(t, boot, target) by { NoCurrentCycle(t, boot, target); }
    NamedFailures(Subtree(t, boot, target), Pruned(t, boot, target), r);
  }

  lemma NamedFailures(cleared: set<int>, pruned: set<int>, r: RemovalResult)
    requires cleared !! pruned && !r.ok && r.error == NoError
    ensures forall id :: id in cleared ==>
              Named(true, false, cleared, pruned, [SetBootId(id)], r.(error := ClearFailed))
    ensures forall id :: id in pruned ==> Named(true, false, cleared, pruned, [SetBootId(id)], r.(error := PruneFailed))
    ensures Named(true, false, cleared, pruned, [AddEvent], r.(error := EventFailed))
    ensures Named(true, false, cleared, pruned, [], r.(ok := true))
  {
    assert forall id :: [SetBootId(id)][0] == SetBootId(id);
  }

  lemma NoCurrentCycle(t: Table, boot: string, target: int)
    requires !OnCycle(Current(t, boot), target)
    ensures !CurrentCycle(t, boot, target)
  {
  }

  lemma {:induction false} PrunedApart(t: Table, boot: string, target: int)
    requires boot != "" && ValidTable(t) && IsCurrent(t, boot, target)
    ensures Pruned(t, boot, target) ==
            Ids(PruneChain(Cleared(t, Subtree(t, boot, target)), boot, t[target].parentId))
    ensures Subtree(t, boot, target) !! Pruned(t, boot, target)
  {
    CurrentIff(t, boot, target);
    DisconnectExact(t, boot, target);
    hide Subtree, Current, PruneChain, Disconnected, MaximalChain, Cleared;
  }

  /** A transaction that does not begin, or does not commit. */
  lemma TransactionAnswers(t: Table, boot: string, target: int, r: RemovalResult, final: RemovalResult)
    requires boot != ""
    ensures !r.ok && r.error == BeginFailed ==> Explained(t, boot, target, [Begin], r)
    ensures Explained(t, boot, target, [], r) && r.ok && !final.ok && final.error == CommitFailed ==>
              Explained(t, boot, target, [Commit], final)
  {
    hide CurrentCycle, Subtree, Pruned;
  }

  lemma SameAnswer(t: Table, boot: string, target: int, fs: seq<Statement>, r: RemovalResult, final: RemovalResult)
    requires boot != "" && Explained(t, boot, target, fs, r) && final.ok == r.ok && final.error == r.error
    ensures Explained(t, boot, target, fs, final)
    ensures r.ok ==> fs == []
    ensures r.error != BadRequest
  {
    hide CurrentCycle, Subtree, Pruned;
  }

  /** From the removal to the end of its transaction. */
  lemma FinishedAnswer(t: Table, boot: string, target: int, fs: seq<Statement>, r: RemovalResult, final: RemovalResult)
    requires boot != "" && Explained(t, boot, target, fs, r)
    requires if !r.ok then !final.ok && final.error == r.error
             else final == r || (!final.ok && final.error == CommitFailed)
    ensures Explained(t, boot, target, fs + if r.ok && !final.ok then [Commit] else [], final)
    ensures final.error != BadRequest
  {
    hide Explained;
    TransactionAnswers(t, boot, target, r, final);
    SameAnswer(t, boot, target, fs, r, r);
    if r.ok && !final.ok {
      assert [] + [Commit] == [Commit];
    } else {
      assert fs + [] == fs;
      SameAnswer(t, boot, target, fs, r, final);
    }
  }

  class Lifecycle {
    const db: DeviceDb

    constructor (db: DeviceDb)
      ensures this.db == db
    {
      this.db := db;
    }

    method ClearBootIds(ids: seq<int>) returns (ok: bool)
      requires db.Valid() && Ids(ids) <= db.content.rows.Keys
      modifies db
      ensures db.Valid() && db.saved == old(db.saved)
      ensures ok ==> db.content == old(db.content).(rows := Cleared(old(db.content).rows, Ids(ids)))
      ensures if ok then db.failed == old(db.failed)
              else exists id :: id in Ids(ids) && db.failed == old(db.failed) + [SetBootId(id)]
    {
      ghost var start := db.content;
      ClearNothing(start.rows);
      assert ids[|ids|..] == [];
      var i := |ids|;
      while i > 0
        invariant 0 <= i <= |ids| && db.Valid() && db.saved == old(db.saved)
        invariant db.content == start.(rows := Cleared(start.rows, Ids(ids[i..])))
        invariant db.failed == old(db.failed)
      {
        i := i - 1;
        assert ids[i] in Ids(ids);
        ClearOneMore(start.rows, Ids(ids[i + 1..]), ids[i]);
        TailIds(ids, i);
        ok := db.UpdateBootId(ids[i], "");
        if !ok {
          return;
        }
      }
      assert ids[0..] == ids;
      ok := true;
    }

    method HasCurrentBootChild(id: int, boot: string) returns (found: bool)
      requires db.Valid()
      ensures found == HasCurrentChild(db.content.rows, id, boot)
    {
      hide ChildRows, HasCurrentChild;
      var children := ChildRows(db.content.rows, id);
      for i := 0 to |children|
        invariant forall k :: 0 <= k < i ==> children[k].bootId != boot
      {
        if children[i].bootId == boot {
          ChildIsCurrent(db.content.rows, id, boot, i);
          return true;
        }
      }
      found := false;
      NoChildIsCurrent(db.content.rows, id, boot);
    }

    /** Clears virtual ancestors for as long as they have lost their last current child. */
    method PruneEmptyVirtualParents(start: int, boot: string) returns (ok: bool)
      requires db.Valid() && boot != ""
      modifies db
      ensures db.Valid() && db.saved == old(db.saved)
      ensures ok ==>
                var before := old(db.content);
                db.content == before.(rows := Cleared(before.rows, Ids(PruneChain(before.rows, boot, start))))
      ensures if ok then db.failed == old(db.failed)
              else exists id :: id in Ids(PruneChain(old(db.content).rows, boot, start)) &&
                                db.failed == old(db.failed) + [SetBootId(id)]
    {
      hide HasCurrentChild, Current;
      ghost var first := db.content;
      var id := start;
      while true
        invariant db.Valid() && db.saved == old(db.saved)
        invariant db.content == first.(rows := db.content.rows)
        invariant Cleared(first.rows, Ids(PruneChain(first.rows, boot, start))) ==
                  Cleared(db.content.rows, Ids(PruneChain(db.content.rows, boot, id)))
        invariant db.failed == old(db.failed)
        invariant Ids(PruneChain(db.content.rows, boot, id)) <= Ids(PruneChain(first.rows, boot, start))
        decreases |Current(db.content.rows, boot)|
      {
        ghost var rows := db.content.rows;
        var empty := id in db.content.rows && id > 0 && db.content.rows[id].subsystem == VIRTUAL &&
          db.content.rows[id].bootId == boot;
        if empty {
          var occupied := HasCurrentBootChild(id, boot);
          empty := !occupied;
        }
        assert empty == Emptied(rows, id, boot);
        if !empty {
          ClearNothing(rows);
          return true;
        }
        var parent := db.content.rows[id].parentId;
        ClearingShrinks(rows, id, boot);
        PruneUnfold(rows, boot, id);
        ConsIds(id, PruneChain(Cleared(rows, {id}), boot, parent));
        ok := db.UpdateBootId(id, "");
        if !ok {
          return;
        }
        assert db.content.rows == Cleared(rows, {id}) by {
          ClearOneMore(rows, {}, id);
          ClearNothing(rows);
          assert {} + {id} == {id};
        }
        id := parent;
      }
    }

    method DisconnectCurrentSubtreeInTransaction(target: int, boot: string, details: string) returns (r: RemovalResult)
      requires db.Valid() && boot != ""
      modifies db
      ensures db.Valid() && db.saved == old(db.saved)
      ensures Removal(old(db.content), db.content, boot, target, details, r)
      ensures old(db.failed) <= db.failed && r.deviceId == target
      ensures Explained(old(db.content).rows, boot, target, db.failed[|old(db.failed)|..], r)
    {
      hide Current, Subtree, Disconnected, OnCycle, Explained, Pruned;
      r := RemovalResult(false, false, target, [], NoError);
      ghost var before := db.content;
      EarlyAnswers(before.rows, boot, target, r);
      assert db.failed[|old(db.failed)|..] == [];
      if target !in db.content.rows {
        return r.(error := NotFound);
      }
      var row := db.content.rows[target];
      if row.bootId != boot {
        return r.(ok := true, alreadyRemoved := true);
      }
      TargetReady(before.rows, boot, target);
      var collected, seen, ids := CollectCurrentSubtree(db.content.rows, boot, target, {}, [], target);
      if !collected {
        return r.(error := CycleDetected);
      }
      assert ids[0..] == ids;
      r := r.(affectedIds := ids);
      SubtreeIsCurrent(before.rows, boot, target);
      LateAnswers(before.rows, boot, target, r);
      var cleared := ClearBootIds(ids);
      if !cleared {
        ghost var id :| id in Ids(ids) && db.failed == old(db.failed) + [SetBootId(id)];
        assert db.failed[|old(db.failed)|..] == [SetBootId(id)];
        return r.(error := ClearFailed);
      }
      var pruned := PruneEmptyVirtualParents(row.parentId, boot);
      if !pruned {
        ghost var id :| id in Pruned(before.rows, boot, target) && db.failed == old(db.failed) + [SetBootId(id)];
        assert db.failed[|old(db.failed)|..] == [SetBootId(id)];
        return r.(error := PruneFailed);
      }
      assert db.content == before.(rows := Disconnected(before.rows, boot, target)) by {
        DisconnectedIs(before.rows, boot, target);
      }
      var recorded := db.AddDeviceEvent(DeviceEvent(target, "disconnect", "success", details));
      if !recorded {
        assert db.failed[|old(db.failed)|..] == [AddEvent];
        return r.(error := EventFailed);
      }
      r := r.(ok := true);
    }

    method Finish(r: RemovalResult, ghost before: Content) returns (final: RemovalResult)
      requires db.Valid() && db.saved == Some(before)
      modifies db
      ensures db.Valid() && db.saved == None
      ensures r.ok && final.ok ==> final == r && db.content == old(db.content)
      ensures !final.ok ==> db.content == before && final.affectedIds == []
      ensures !r.ok ==> !final.ok && final.error == r.error
      ensures r.ok && !final.ok ==> final.error == CommitFailed && !final.alreadyRemoved
      ensures final.deviceId == r.deviceId
      ensures db.failed == old(db.failed) + if r.ok && !final.ok then [Commit] else []
    {
      final := r;
      if !final.ok {
        db.RollbackTransaction();
        return final.(affectedIds := []);
      }
      var committed := db.CommitTransaction();
      if !committed {
        db.RollbackTransaction();
        final := final.(ok := false, alreadyRemoved := false, error := CommitFailed, affectedIds := []);
      }
    }

    /** All or nothing: either exactly the promised removal, or the database as it was. */
    method DisconnectCurrentSubtree(target: int, boot: string, details: string) returns (r: RemovalResult)
      requires db.Valid() && db.saved == None
      modifies db
      ensures db.Valid() && db.saved == None
      ensures !r.ok ==> db.content == old(db.content) && r.affectedIds == []
      ensures target <= 0 || boot == "" ==> !r.ok
      ensures r.ok ==> Removal(old(db.content), db.content, boot, target, details, r)
      ensures r.deviceId == target && old(db.failed) <= db.failed
      ensures (target <= 0 || boot == "") <==> r.error == BadRequest
      ensures target > 0 && boot != "" ==>
                Explained(old(db.content).rows, boot, target, db.failed[|old(db.failed)|..], r)
    {
      hide OnCycle, AfterRemoval, Explained, Removal;
      r := RemovalResult(false, false, target, [], NoError);
      if target <= 0 || boot == "" {
        return r.(error := BadRequest);
      }
      ghost var before := db.content;
      var began := db.BeginTransaction();
      if !began {
        r := r.(error := BeginFailed);
        TransactionAnswers(before.rows, boot, target, r, r);
        assert db.failed[|old(db.failed)|..] == [Begin];
        return;
      }
      r := DisconnectCurrentSubtreeInTransaction(target, boot, details);
      ghost var removal, fs := r, db.failed[|old(db.failed)|..];
      r := Finish(r, before);
      FinishedAnswer(before.rows, boot, target, fs, removal, r);
      assert db.failed[|old(db.failed)|..] == fs + if removal.ok && !r.ok then [Commit] else [];
    }

    /** Removal by place; a place no current row occupies is already removed. */
    method RemoveCurrentOccurrence(devpath: string, subsystem: string, boot: string)
      returns (r: RemovalResult, target: int)
      requires db.Valid() && db.saved == None
      modifies db
      ensures db.Valid() && db.saved == None
      ensures !r.ok ==> db.content == old(db.content) && r.affectedIds == []
      ensures devpath == "" || subsystem == "" || boot == "" ==> !r.ok
      ensures r.ok && !r.alreadyRemoved ==>
                var t := old(db.content).rows;
                target in t && t[target].devpath == devpath && t[target].subsystem == subsystem &&
                  t[target].bootId == boot
      ensures r.ok && Vacant(old(db.content).rows, devpath, subsystem, boot) ==>
                r.alreadyRemoved && db.content == old(db.content)
      ensures r.ok && !Vacant(old(db.content).rows, devpath, subsystem, boot) ==>
                At(old(db.content).rows, devpath, subsystem, boot, target) && !r.alreadyRemoved &&
                Removal(old(db.content), db.content, boot, target, "device removed", r)
      ensures old(db.failed) <= db.failed
      ensures (devpath == "" || subsystem == "" || boot == "") <==> r.error == BadRequest
      ensures r.error != BadRequest && Vacant(old(db.content).rows, devpath, subsystem, boot) ==>
                NothingToRemove(db.failed[|old(db.failed)|..], r)
      ensures r.error != BadRequest && !Vacant(old(db.content).rows, devpath, subsystem, boot) ==>
                (db.failed == old(db.failed) + [Begin] && r.error == BeginFailed && !r.ok) ||
                (At(old(db.content).rows, devpath, subsystem, boot, target) && r.deviceId == target &&
                 Explained(old(db.content).rows, boot, target, db.failed[|old(db.failed)|..], r))
    {
      hide OnCycle, AfterRemoval, Explained, Removal;
      target := 0;
      r := RemovalResult(false, false, 0, [], NoError);
      if devpath == "" || subsystem == "" || boot == "" {
        return r.(error := BadRequest), target;
      }
      ghost var before := db.content;
      var began := db.BeginTransaction();
      if !began {
        assert db.failed[|old(db.failed)|..] == [Begin];
        return r.(error := BeginFailed), target;
      }
      if exists id :: id in db.content.rows && At(db.content.rows, devpath, subsystem, boot, id) {
        target :| target in db.content.rows && At(db.content.rows, devpath, subsystem, boot, target);
        r := DisconnectCurrentSubtreeInTransaction(target, boot, "device removed");
      } else {
        r := r.(ok := true, alreadyRemoved := true);
      }
      ghost var removal, fs := r, db.failed[|old(db.failed)|..];
      r := Finish(r, before);
      assert db.failed[|old(db.failed)|..] == fs + if removal.ok && !r.ok then [Commit] else [];
      if !Vacant(before.rows, devpath, subsystem, boot) {
        RemovedIsCurrent(before, boot, target, removal);
        FinishedAnswer(before.rows, boot, target, fs, removal, r);
      }
    }
  }

  /** Without a row at the place only the transaction itself can fail. */
  ghost predicate NothingToRemove(fs: seq<Statement>, r: RemovalResult) {
    && (r.ok <==> fs == []) && (r.error == NoError <==> r.ok)
    && (r.error == BeginFailed <==> fs == [Begin]) && (r.error == CommitFailed <==> fs == [Commit])
  }

  /** What a removal writes: one event, and boot ids that become empty; nothing else. */
  lemma RemovalWrites(before: Content, after: Content, boot: string, target: int, details: string, r: RemovalResult)
    requires boot != "" && Removal(before, after, boot, target, details, r) && r.ok && !r.alreadyRemoved
    ensures after.events == before.events + [DeviceEvent(target, "disconnect", "success", details)]
    ensures after.attributes == before.attributes && after.rows.Keys == before.rows.Keys
    ensures forall id :: id in before.rows ==>
              after.rows[id] == before.rows[id] || after.rows[id] == before.rows[id].(bootId := "")
    ensures target in after.rows && after.rows[target].bootId == ""
  {
    hide OnCycle, PruneChain;
    TopInSubtree(before.rows, boot, target);
  }

  /** A current row is never reported as removed already. */
  lemma RemovedIsCurrent(before: Content, boot: string, target: int, r: RemovalResult)
    requires boot != "" && IsCurrent(before.rows, boot, target)
    ensures forall after, details :: Removal(before, after, boot, target, details, r) && r.ok ==> !r.alreadyRemoved
  {
    hide OnCycle, AfterRemoval, Subtree;
  }

  /** The row at a device path in the current boot. */
  predicate At(t: Table, devpath: string, subsystem: string, boot: string, id: int) {
    id in t && t[id].devpath == devpath && t[id].subsystem == subsystem && t[id].bootId == boot
  }

  predicate Vacant(t: Table, devpath: string, subsystem: string, boot: string) {
    forall id :: id in t ==> !At(t, devpath, subsystem, boot, id)
  }

  lemma TargetReady(t: Table, boot: string, target: int)
    requires IsCurrent(t, boot, target)
    ensures target in Current(t, boot) && target in Subtree(t, boot, target)
  {
    TopInSubtree(t, boot, target);
  }

  lemma {:induction false} DisconnectedIs(t: Table, boot: string, target: int)
    requires boot != "" && target in t
    ensures var t1 := Cleared(t, Subtree(t, boot, target));
            Disconnected(t, boot, target) == Cleared(t1, Ids(PruneChain(t1, boot, t[target].parentId)))
  {
  }

  /** Removing a removed device again changes nothing and says so. */
  lemma SecondRemovalIsNoOp(before: Content, middle: Content, after: Content, boot: string, target: int,
                            first: RemovalResult, second: RemovalResult, details: string, again: string)
    requires boot != "" && ValidTable(before.rows)
    requires Removal(before, middle, boot, target, details, first) && first.ok
    requires Removal(middle, after, boot, target, again, second)
    ensures after == middle && second.ok && second.alreadyRemoved && second.affectedIds == []
  {
    if IsCurrent(before.rows, boot, target) {
      hide OnCycle, Disconnected;
      CurrentIff(before.rows, boot, target);
      DisconnectExact(before.rows, boot, target);
    }
  }

  lemma ClearedAt(t: Table, boot: string, target: int, devpath: string, subsystem: string, id: int)
    requires ValidTable(t) && boot != "" && target in Current(t, boot)
    ensures At(Disconnected(t, boot, target), devpath, subsystem, boot, id) <==>
            At(t, devpath, subsystem, boot, id) && !GoesWith(t, boot, target, id)
  {
    DisconnectExact(t, boot, target);
    hide Subtree, PruneChain, Disconnected, MaximalChain, GoesWith;
    if id in t && t[id].bootId == boot {
      ClearsExactly(t, boot, target, id);
    }
  }

  /**
   * Exactly when removal by place leaves the place vacant, so that the next removal finds nothing:
   * every row at that place hangs under the removed one. Rows of a virtual place may instead be
   * parents of it that hold nothing else.
   */
  lemma {:induction false} PlaceVacatedExactly(t: Table, boot: string, target: int, devpath: string, subsystem: string)
    requires ValidTable(t) && boot != "" && At(t, devpath, subsystem, boot, target)
    ensures Vacant(Disconnected(t, boot, target), devpath, subsystem, boot) <==>
            forall id :: At(t, devpath, subsystem, boot, id) ==> GoesWith(t, boot, target, id)
    ensures subsystem != VIRTUAL ==>
            (Vacant(Disconnected(t, boot, target), devpath, subsystem, boot) <==>
             forall id :: At(t, devpath, subsystem, boot, id) ==> Under(Current(t, boot), id, target))
  {
    CurrentIff(t, boot, target);
    hide Disconnected, GoesWith, Under;
    var after := Disconnected(t, boot, target);
    forall id
      ensures At(after, devpath, subsystem, boot, id) <==>
                At(t, devpath, subsystem, boot, id) && !GoesWith(t, boot, target, id)
    {
      ClearedAt(t, boot, target, devpath, subsystem, id);
    }
    if subsystem != VIRTUAL {
      forall id | At(t, devpath, subsystem, boot, id)
        ensures GoesWith(t, boot, target, id) <==> Under(Current(t, boot), id, target)
      {
        DevicesGoUnder(t, boot, target, id);
      }
    }
  }

  /** A row that is not virtual goes only with a row it hangs under. */
  lemma DevicesGoUnder(t: Table, boot: string, target: int, id: int)
    requires id in t && t[id].subsystem != VIRTUAL
    ensures GoesWith(t, boot, target, id) <==> Under(Current(t, boot), id, target)
  {
    hide Under;
    assert forall n: nat :: 0 < n && AllHoldOnly(t, boot, target, n) ==> HoldsOnly(t, boot, target, n);
  }

  /** Two devices of different hash at one path, both of this boot. */
  function Twins(): Table {
    map[1 := Row(1, "root", "/devices", "container", 0, Allowed, false, false, STATIC_BOOT, Inherit),
        2 := Row(2, "a", "/devices/x", "usb", 1, Allowed, false, false, "boot", Inherit),
        3 := Row(3, "b", "/devices/x", "usb", 1, Allowed, false, false, "boot", Inherit)]
  }

  /** After the removal of one twin the place is still taken: removing it again removes the other. */
  lemma TwinStays()
    ensures ValidTable(Twins()) && At(Twins(), "/devices/x", "usb", "boot", 2)
    ensures At(Disconnected(Twins(), "boot", 2), "/devices/x", "usb", "boot", 3)
    ensures !Vacant(Disconnected(Twins(), "boot", 2), "/devices/x", "usb", "boot")
  {
    var t := Twins();
    assert t[3].parentId == 1 && t[2].parentId == 1 && 1 !in Current(t, "boot");
    hide Disconnected;
    assert !Under(Current(t, "boot"), 3, 2) by { RootsApart(Current(t, "boot"), 3, 2); }
    DevicesGoUnder(t, "boot", 2, 3);
    ClearedAt(t, "boot", 2, "/devices/x", "usb", 3);
  }

  /** A row whose parent is not in the table hangs under no other row. */
  lemma {:induction false} RootsApart(c: Table, id: int, top: int)
    requires ValidTable(c) && id in c && c[id].parentId !in c && top != id && top in c
    ensures !Under(c, id, top)
  {
    if Below(c, id, top) {
      var n: nat :| n > 0 && Up(c, id, n) == top;
      assert Up(c, id, n) == Up(c, c[id].parentId, n - 1);
    }
  }
}
