/** What every run of attaches and disconnects keeps of the tree: depth, and occupied virtual rows. */
module TreeRuns {
  import opened Common
  import opened DeviceTable
  import opened TreePaths
  import opened DeviceSubtrees
  import opened DevicePaths
  import opened TreeAttach

  // ----- current links lead one path step up, so they are never cyclic

  /** Each current row lies one path step deeper than the row it hangs on. */
  ghost predicate Leveled(t: Table, boot: string) {
    forall id :: id in t && t[id].bootId == boot && t[id].parentId in t ==>
      Separators(t[id].devpath) == Separators(t[t[id].parentId].devpath) + 1
  }

  /** Rows of no boot are containers: no device and no missing ancestor. */
  ghost predicate ContainersApart(t: Table) {
    forall id :: id in t && t[id].bootId == STATIC_BOOT ==>
      t[id].subsystem != VIRTUAL && !ManagedSubsystem(t[id].subsystem)
  }

  ghost predicate Sound(t: Table, boot: string) {
    ValidTable(t) && Anchored(t, boot) && Leveled(t, boot) && ContainersApart(t) && HasContainers(t, boot)
  }

  /** A write for a managed device or for a missing ancestor of one. */
  predicate ManagedWrite(w: Row) {
    BelowRoot(w.devpath) && (w.subsystem == VIRTUAL || ManagedSubsystem(w.subsystem))
  }

  ghost predicate ManagedWrites(writes: seq<Row>) {
    forall i :: 0 <= i < |writes| ==> ManagedWrite(writes[i])
  }

  lemma {:induction false} OneStepDeeper(path: string)
    requires BelowRoot(path)
    ensures Separators(path) == Separators(ParentPath(path)) + 1
  {
    ParentStaysBelow(path);
    PrefixUntilSlash(path);
  }

  /** A row that is taken over is no container. */
  lemma TakenOverIsNoContainer(t: Table, boot: string, w: Row)
    requires ContainersApart(t) && GoodWrite(t, boot, w) && ManagedWrite(w) && w.id in t
    ensures t[w.id].bootId != STATIC_BOOT
  {
  }

  /** A written row hangs on another one, and is as deep as the current row it takes over. */
  lemma WrittenDepth(t: Table, boot: string, w: Row)
    requires Sound(t, boot) && boot != STATIC_BOOT && GoodWrite(t, boot, w) && ManagedWrite(w)
    ensures w.parentId != w.id
    ensures Separators(w.devpath) == Separators(t[w.parentId].devpath) + 1
    ensures w.id in t && t[w.id].bootId == boot ==> Separators(w.devpath) == Separators(t[w.id].devpath)
  {
    OneStepDeeper(w.devpath);
    if w.id in t {
      TakenOverIsNoContainer(t, boot, w);
    }
    hide Separators, ParentPath;
  }

  /** Containers are found as long as rows of no boot are left alone. */
  lemma StaticRowsStay(t: Table, after: Table, boot: string)
    requires HasContainers(t, boot) && forall id :: id in t && t[id].bootId == STATIC_BOOT ==>
               id in after && after[id] == t[id]
    ensures HasContainers(after, boot)
  {
    var a :| a in t && AtPath(t, ROOT, STATIC_BOOT, a);
    var b :| b in t && AtPath(t, PCI_ROOT, STATIC_BOOT, b);
    assert AtPath(after, ROOT, STATIC_BOOT, a) && AtPath(after, PCI_ROOT, STATIC_BOOT, b);
  }

  lemma WriteKeepsLevels(t: Table, boot: string, w: Row)
    requires Sound(t, boot) && boot != STATIC_BOOT && GoodWrite(t, boot, w) && ManagedWrite(w)
    ensures Leveled(t[w.id := w], boot)
  {
    WrittenDepth(t, boot, w);
    if w.id in t {
      TakenOverIsNoContainer(t, boot, w);
    }
    hide HasContainers, Separators, ParentPath, BelowRoot, ContainersApart, TakesOver, PlainRow;
    var after := t[w.id := w];
    forall id | id in after && after[id].bootId == boot && after[id].parentId in after
      ensures Separators(after[id].devpath) == Separators(after[after[id].parentId].devpath) + 1
    {
      if id != w.id {
        assert after[id] == t[id] && t[id].parentId in t;
      }
    }
  }

  lemma WriteKeepsApart(t: Table, boot: string, w: Row)
    requires ContainersApart(t) && boot != STATIC_BOOT && w.bootId == boot
    ensures ContainersApart(t[w.id := w])
  {
  }

  lemma WriteKeepsSound(t: Table, boot: string, w: Row)
    requires Sound(t, boot) && boot != STATIC_BOOT && GoodWrite(t, boot, w) && ManagedWrite(w)
    ensures Sound(t[w.id := w], boot)
  {
    WriteKeepsLevels(t, boot, w);
    WriteKeepsAnchors(t, boot, w);
    WriteKeepsApart(t, boot, w);
    if w.id in t {
      TakenOverIsNoContainer(t, boot, w);
    }
    StaticRowsStay(t, t[w.id := w], boot);
    hide Leveled, Anchored, ContainersApart, HasContainers;
  }

  lemma {:induction false} WritesKeepSound(t: Table, boot: string, writes: seq<Row>)
    requires Sound(t, boot) && boot != STATIC_BOOT && GoodWrites(t, boot, writes) && ManagedWrites(writes)
    ensures Sound(Applied(t, writes), boot)
    decreases |writes|
  {
    hide Sound, GoodWrite, ManagedWrite;
    if writes != [] {
      WriteKeepsSound(t, boot, writes[0]);
      WritesKeepSound(t[writes[0].id := writes[0]], boot, writes[1..]);
    }
  }

  lemma ClearingKeepsLevels(t: Table, boot: string, ids: set<int>)
    requires boot != "" && Leveled(t, boot) && ContainersApart(t)
    ensures Leveled(Cleared(t, ids), boot) && ContainersApart(Cleared(t, ids))
  {
    hide Separators, ManagedSubsystem;
  }

  /** A disconnect leaves rows of other boots as they are. */
  lemma OtherBootsStay(t: Table, boot: string, target: int, id: int)
    requires ValidTable(t) && boot != "" && target in Current(t, boot) && id in t && t[id].bootId != boot
    ensures id in Disconnected(t, boot, target) && Disconnected(t, boot, target)[id] == t[id]
  {
    DisconnectExact(t, boot, target);
    SubtreeIsCurrent(t, boot, target);
    var t1 := Cleared(t, Subtree(t, boot, target));
    var chain := PruneChain(t1, boot, t[target].parentId);
    hide Disconnected, Subtree, PruneChain;
    assert forall k :: 0 <= k < |chain| ==> t1[chain[k]].bootId == boot;
    assert id !in chain;
  }

  lemma DisconnectKeepsSound(t: Table, boot: string, target: int)
    requires Sound(t, boot) && boot != "" && boot != STATIC_BOOT && target in Current(t, boot)
    ensures Sound(Disconnected(t, boot, target), boot)
  {
    hide Disconnected, Subtree, PruneChain, MaximalChain, Anchored, ValidTable, Leveled, ContainersApart, Cleared,
         HasContainers;
    DisconnectKeepsAnchors(t, boot, target);
    DisconnectKeepsValid(t, boot, target);
    DisconnectExact(t, boot, target);
    var s := Subtree(t, boot, target);
    ClearingKeepsLevels(t, boot, s + Ids(PruneChain(Cleared(t, s), boot, t[target].parentId)));
    var after := Disconnected(t, boot, target);
    forall id | id in t && t[id].bootId == STATIC_BOOT ensures id in after && after[id] == t[id] {
      OtherBootsStay(t, boot, target, id);
    }
    StaticRowsStay(t, after, boot);
  }

  /** Every step up among current rows is one path step up. */
  lemma {:induction false} StepsUp(t: Table, boot: string, id: int, n: nat)
    requires Leveled(t, boot) && id in Current(t, boot) && Up(Current(t, boot), id, n) in Current(t, boot)
    requires ValidTable(t)
    ensures Separators(t[id].devpath) == Separators(t[Up(Current(t, boot), id, n)].devpath) + n
    decreases n
  {
    hide Separators;
    if n > 0 {
      var c := Current(t, boot);
      var p := t[id].parentId;
      assert Up(c, id, n) == Up(c, p, n - 1);
      if n > 1 {
        UpInside(c, p, 0, n - 1);
      }
      StepsUp(t, boot, p, n - 1);
    }
  }

  lemma SoundIsAcyclic(t: Table, boot: string, id: int)
    requires Sound(t, boot) && id in Current(t, boot)
    ensures !OnCycle(Current(t, boot), id)
  {
    if OnCycle(Current(t, boot), id) {
      var n: nat :| n > 0 && Up(Current(t, boot), id, n) == id;
      StepsUp(t, boot, id, n);
    }
  }

  /** What creating a managed path in such a table writes is a managed attach. */
  lemma {:induction false} LaidIsManaged(t: Table, boot: string, path: string, writes: seq<Row>)
    requires BelowRoot(path) && HasContainers(t, boot) && WellLaid(t, boot, path, writes)
    ensures ManagedWrites(writes)
  {
    forall i | 0 <= i < |writes| ensures writes[i].subsystem == VIRTUAL {
      RevivedAreVirtual(t, boot, writes, i);
    }
  }

  lemma {:induction false} RevivedAreVirtual(t: Table, boot: string, writes: seq<Row>, i: nat)
    requires RevivedChain(t, boot, writes) && i < |writes|
    ensures writes[i].subsystem == VIRTUAL
  {
    var n := |writes| - 1;
    if i < n {
      RevivedAreVirtual(t, boot, writes[..n], i);
    }
  }

  /** Attaches of managed devices only. */
  ghost predicate ManagedSteps(steps: seq<Step>) {
    forall i :: 0 <= i < |steps| && steps[i].Attach? ==> ManagedWrites(steps[i].writes)
  }

  /** At the start of a boot no row is current yet. */
  lemma BootStartsSound(t: Table, boot: string)
    requires ValidTable(t) && ContainersApart(t) && HasContainers(t, boot)
    requires forall id :: id in t ==> t[id].bootId != boot
    ensures Sound(t, boot) && NoEmptyVirtual(t, boot)
  {
  }

  /**
   * In every run of attaches below the device root and of disconnects, each current row stays one
   * path step below the row it hangs on, so no current row is ever on a cycle: a removal that
   * reports one was given a table these operations did not write.
   */
  lemma {:induction false} EveryRunIsAcyclic(tables: seq<Table>, steps: seq<Step>, boot: string, n: nat)
    requires boot != "" && boot != STATIC_BOOT && IsRun(tables, steps, boot) && ManagedSteps(steps) && n <= |steps|
    requires Sound(tables[0], boot)
    ensures Sound(tables[n], boot)
    ensures forall id :: id in Current(tables[n], boot) ==> !OnCycle(Current(tables[n], boot), id)
  {
    hide Sound, GoodWrites, Disconnected, OnCycle, Current;
    if n > 0 {
      EveryRunIsAcyclic(tables, steps, boot, n - 1);
      var t, s := tables[n - 1], steps[n - 1];
      match s {
        case Attach(writes) => WritesKeepSound(t, boot, writes);
        case Disconnect(target) => DisconnectKeepsSound(t, boot, target);
      }
    }
    forall id | id in Current(tables[n], boot) ensures !OnCycle(Current(tables[n], boot), id) {
      SoundIsAcyclic(tables[n], boot, id);
    }
  }

  // ----- when an attach keeps every virtual row occupied

  /** A virtual row not current before is empty after it was written, and nothing else loses a child. */
  lemma RevivedIsEmpty(t: Table, boot: string, w: Row)
    requires boot != "" && boot != STATIC_BOOT && Anchored(t, boot) && ContainersApart(t) && GoodWrite(t, boot, w)
    requires w.subsystem == VIRTUAL && (w.id in t ==> t[w.id].bootId != boot)
    requires OnlyEmpty(t, boot, w.parentId)
    ensures OnlyEmpty(t[w.id := w], boot, w.id) && !Occupied(t[w.id := w], boot, w.id)
  {
    var after := t[w.id := w];
    assert w.id in t ==> t[w.id].bootId != STATIC_BOOT;
    assert w.parentId != w.id;
    assert forall k :: k in after && after[k].bootId == boot && k != w.id ==> after[k] == t[k] && t[k].parentId != w.id;
    forall id | id in after && id != w.id ensures Occupied(after, boot, id) {
      if after[id].subsystem == VIRTUAL && after[id].bootId == boot {
        if id == w.parentId {
          assert after[w.id].parentId == id;
        } else {
          assert Occupied(t, boot, id);
          var k :| k in t && t[k].parentId == id && t[k].bootId == boot;
          assert after[k] == t[k];
        }
      }
    }
  }

  lemma {:induction false} AppliedSnoc(t: Table, boot: string, writes: seq<Row>)
    requires writes != [] && GoodWrites(t, boot, writes)
    ensures var n := |writes| - 1;
            && GoodWrites(t, boot, writes[..n]) && GoodWrite(Applied(t, writes[..n]), boot, writes[n])
            && Applied(t, writes) == Applied(t, writes[..n])[writes[n].id := writes[n]]
    decreases |writes|
  {
    hide GoodWrite;
    var n := |writes| - 1;
    if n > 0 {
      var next := t[writes[0].id := writes[0]];
      AppliedSnoc(next, boot, writes[1..]);
      assert writes[1..][..n - 1] == writes[..n][1..];
      assert writes[1..][n - 1] == writes[n];
    }
  }

  lemma KeepsContainersApart(t: Table, boot: string, w: Row)
    requires ContainersApart(t) && boot != STATIC_BOOT && w.bootId == boot
    ensures ContainersApart(t[w.id := w])
  {
  }

  /** Created ancestors leave exactly the last one empty. */
  lemma {:induction false} ChainLeavesOneEmpty(t: Table, boot: string, writes: seq<Row>)
    requires boot != "" && boot != STATIC_BOOT && Anchored(t, boot) && ContainersApart(t) && NoEmptyVirtual(t, boot)
    requires GoodWrites(t, boot, writes) && RevivedChain(t, boot, writes)
    ensures Anchored(Applied(t, writes), boot) && ContainersApart(Applied(t, writes))
    ensures if writes == [] then NoEmptyVirtual(Applied(t, writes), boot)
            else var last := writes[|writes| - 1].id;
                 OnlyEmpty(Applied(t, writes), boot, last) && !Occupied(Applied(t, writes), boot, last)
  {
    hide Anchored, ContainersApart, GoodWrites, GoodWrite, Occupied;
    if writes != [] {
      var n := |writes| - 1;
      var init, w := writes[..n], writes[n];
      AppliedSnoc(t, boot, writes);
      ChainLeavesOneEmpty(t, boot, init);
      var mid := Applied(t, init);
      WriteKeepsAnchors(mid, boot, w);
      assert w.bootId == boot by { WriteIsCurrent(mid, boot, w); }
      KeepsContainersApart(mid, boot, w);
      hide RevivedChain;
      RevivedIsEmpty(mid, boot, w);
    }
  }

  lemma WriteIsCurrent(t: Table, boot: string, w: Row)
    requires GoodWrite(t, boot, w)
    ensures w.bootId == boot
  {
  }

  /** The row written was not the last child of a virtual row it now leaves. */
  predicate LeavesNoneEmpty(t: Table, boot: string, w: Row) {
    w.id in t && t[w.id].bootId == boot ==>
      var v := t[w.id].parentId;
      || v == w.parentId || v == w.id
      || !(v in t && t[v].subsystem == VIRTUAL && t[v].bootId == boot)
      || exists k :: k in t && k != w.id && t[k].parentId == v && t[k].bootId == boot
  }

  lemma OwnWriteKeepsVirtualsExactly(t: Table, boot: string, w: Row)
    requires GoodWrite(t, boot, w) && w.subsystem != VIRTUAL && OnlyEmpty(t, boot, w.parentId)
    ensures NoEmptyVirtual(t[w.id := w], boot) <==> LeavesNoneEmpty(t, boot, w)
  {
    var after := t[w.id := w];
    assert HasCurrentChild(after, w.parentId, boot) by { assert after[w.id].parentId == w.parentId; }
    forall id | id in after && id != w.parentId && id != w.id
      ensures Occupied(after, boot, id) <==>
              (w.id in t && t[w.id].bootId == boot && t[w.id].parentId == id ==> LeavesNoneEmpty(t, boot, w))
    {
      ChildrenAfter(t, boot, w, id);
    }
    if w.id in t && t[w.id].bootId == boot && NoEmptyVirtual(after, boot) {
      var v := t[w.id].parentId;
      assert v in after ==> Occupied(after, boot, v);
    }
  }

  /** What other rows keep of their children. */
  lemma ChildrenAfter(t: Table, boot: string, w: Row, id: int)
    requires w.bootId == boot && id in t && id != w.parentId && id != w.id && Occupied(t, boot, id)
    ensures Occupied(t[w.id := w], boot, id) <==>
            (w.id in t && t[w.id].bootId == boot && t[w.id].parentId == id ==> LeavesNoneEmpty(t, boot, w))
  {
    var after := t[w.id := w];
    assert forall k :: k in after && k != w.id ==> k in t && after[k] == t[k];
    assert after[w.id].parentId != id;
    if t[id].subsystem == VIRTUAL && t[id].bootId == boot {
      var k :| k in t && t[k].parentId == id && t[k].bootId == boot;
      assert k != w.id ==> after[k] == t[k];
      if j :| j in t && j != w.id && t[j].parentId == id && t[j].bootId == boot {
        assert after[j] == t[j];
      }
    }
  }

  /**
   * Exactly when an attach keeps "each current virtual row has a current child". One that fails
   * keeps it if and only if it had no ancestor to create: created ancestors stay behind. One that
   * succeeds keeps it if and only if the row it writes was not the last child of a virtual row it
   * now leaves.
   */
  lemma {:induction false} AttachKeepsVirtualsExactly(t: Table, boot: string, ancestors: seq<Row>, own: seq<Row>)
    requires boot != "" && boot != STATIC_BOOT && Anchored(t, boot) && ContainersApart(t) && NoEmptyVirtual(t, boot)
    requires GoodWrites(t, boot, ancestors) && RevivedChain(t, boot, ancestors)
    requires |own| <= 1 && GoodWrites(Applied(t, ancestors), boot, own)
    requires own != [] ==> own[0].subsystem != VIRTUAL
    requires own != [] && ancestors != [] ==> own[0].parentId == ancestors[|ancestors| - 1].id
    ensures var found := Applied(t, ancestors);
            NoEmptyVirtual(Applied(found, own), boot) <==>
            if own == [] then ancestors == [] else LeavesNoneEmpty(found, boot, own[0])
  {
    hide Anchored, ContainersApart, GoodWrite, Occupied, RevivedChain, LeavesNoneEmpty;
    ChainLeavesOneEmpty(t, boot, ancestors);
    var found := Applied(t, ancestors);
    if own == [] {
      assert Applied(found, own) == found;
      if ancestors != [] {
        LastIsThere(t, boot, ancestors);
      }
    } else {
      assert own[1..] == [] && Applied(found, own) == found[own[0].id := own[0]];
      OwnWriteKeepsVirtualsExactly(found, boot, own[0]);
    }
  }

  lemma {:induction false} LastIsThere(t: Table, boot: string, writes: seq<Row>)
    requires writes != [] && GoodWrites(t, boot, writes)
    ensures writes[|writes| - 1].id in Applied(t, writes)
  {
    AppliedSnoc(t, boot, writes);
  }

  // ----- the same, read off the table before the attach

  /** Created ancestors leave the rows that were current as they are, and are the only new current rows. */
  ghost predicate OnlyAdds(t: Table, boot: string, writes: seq<Row>, found: Table) {
    && (forall k :: k in t && t[k].bootId == boot ==> k in found && found[k] == t[k])
    && (forall k :: k in found && found[k].bootId == boot && !(k in t && t[k].bootId == boot) ==>
          found[k] in writes && found[k].id == k)
    && (forall x :: x in writes ==> x.id in found && found[x.id] == x && x.bootId == boot)
    && (forall x :: x in writes && x.id in t ==> t[x.id].bootId != boot && t[x.id].bootId != STATIC_BOOT)
  }

  lemma AddsOneMore(t: Table, boot: string, init: seq<Row>, mid: Table, w: Row)
    requires OnlyAdds(t, boot, init, mid) && w.bootId == boot && (w.id in mid ==> mid[w.id].bootId != boot)
    requires w.id in t ==> t[w.id].bootId != STATIC_BOOT
    ensures OnlyAdds(t, boot, init + [w], mid[w.id := w])
  {
    var found := mid[w.id := w];
    assert forall x :: x in init + [w] <==> x in init || x == w;
    assert forall x :: x in init ==> x.id != w.id;
  }

  lemma {:induction false} StaticStays(t: Table, boot: string, writes: seq<Row>)
    requires boot != STATIC_BOOT && ContainersApart(t) && GoodWrites(t, boot, writes) && RevivedChain(t, boot, writes)
    ensures ContainersApart(Applied(t, writes))
    ensures forall k :: k in t && t[k].bootId == STATIC_BOOT ==>
              k in Applied(t, writes) && Applied(t, writes)[k] == t[k]
  {
    if writes != [] {
      var n := |writes| - 1;
      var init, w := writes[..n], writes[n];
      AppliedSnoc(t, boot, writes);
      StaticStays(t, boot, init);
      hide Applied, GoodWrites;
      var mid := Applied(t, init);
      assert w.subsystem == VIRTUAL;
      assert w.id in mid ==> mid[w.id].subsystem == VIRTUAL;
    }
  }

  lemma {:induction false} ChainOnlyAdds(t: Table, boot: string, writes: seq<Row>)
    requires boot != STATIC_BOOT && ContainersApart(t) && GoodWrites(t, boot, writes) && RevivedChain(t, boot, writes)
    ensures OnlyAdds(t, boot, writes, Applied(t, writes))
  {
    hide OnlyAdds, ContainersApart;
    if writes == [] {
      NothingAdded(t, boot);
    } else {
      var n := |writes| - 1;
      var init, w := writes[..n], writes[n];
      AppliedSnoc(t, boot, writes);
      ChainOnlyAdds(t, boot, init);
      StaticStays(t, boot, init);
      var mid := Applied(t, init);
      WriteIsCurrent(mid, boot, w);
      NotStatic(mid, boot, w);
      hide Applied, GoodWrites, GoodWrite;
      AddsOneMore(t, boot, init, mid, w);
      assert init + [w] == writes;
    }
  }

  lemma NothingAdded(t: Table, boot: string)
    ensures OnlyAdds(t, boot, [], t)
  {
  }

  lemma NotStatic(t: Table, boot: string, w: Row)
    requires ContainersApart(t) && GoodWrite(t, boot, w) && w.subsystem == VIRTUAL
    ensures w.id in t ==> t[w.id].bootId != STATIC_BOOT
  {
  }

  /** The first created ancestor hangs on the virtual row the device leaves, and so keeps it. */
  predicate AncestorTakesPlace(t: Table, boot: string, ancestors: seq<Row>, w: Row) {
    ancestors != [] && w.id in t && t[w.id].bootId == boot && ancestors[0].parentId == t[w.id].parentId
  }

  /** The device's own row is none of the created ancestors. */
  lemma OwnIsNoAncestor(t: Table, boot: string, ancestors: seq<Row>, found: Table, w: Row)
    requires OnlyAdds(t, boot, ancestors, found) && GoodWrite(found, boot, w) && w.subsystem != VIRTUAL
    requires forall x :: x in ancestors ==> x.subsystem == VIRTUAL && x.devpath != w.devpath
    ensures forall x :: x in ancestors ==> x.id != w.id
  {
  }

  /** The current children of a row that is no created ancestor. */
  lemma ChildrenBefore(t: Table, boot: string, ancestors: seq<Row>, found: Table, v: int, k: int)
    requires OnlyAdds(t, boot, ancestors, found) && forall x :: x in ancestors ==> x.id != v
    requires forall i :: 0 < i < |ancestors| ==> ancestors[i].parentId == ancestors[i - 1].id
    ensures k in found && found[k].bootId == boot && found[k].parentId == v <==>
            (k in t && t[k].bootId == boot && t[k].parentId == v) ||
            (ancestors != [] && k == ancestors[0].id && ancestors[0].parentId == v)
  {
    forall i | 0 < i < |ancestors| ensures ancestors[i].parentId != v {
      assert ancestors[i - 1] in ancestors;
    }
    if k in found && found[k].bootId == boot && found[k].parentId == v && !(k in t && t[k].bootId == boot) {
      var i :| 0 <= i < |ancestors| && ancestors[i] == found[k];
    }
    if ancestors != [] {
      assert ancestors[0] in ancestors;
    }
  }

  lemma LeavingBefore(t: Table, boot: string, ancestors: seq<Row>, found: Table, w: Row)
    requires OnlyAdds(t, boot, ancestors, found) && Anchored(t, boot) && ContainersApart(t) && boot != STATIC_BOOT
    requires forall x :: x in ancestors ==> x.id != w.id
    requires forall i :: 0 < i < |ancestors| ==> ancestors[i].parentId == ancestors[i - 1].id
    ensures LeavesNoneEmpty(found, boot, w) <==>
              LeavesNoneEmpty(t, boot, w) || AncestorTakesPlace(t, boot, ancestors, w)
  {
    assert w.id in found && found[w.id].bootId == boot <==> w.id in t && t[w.id].bootId == boot;
    if w.id in t && t[w.id].bootId == boot {
      assert found[w.id] == t[w.id];
      var v := t[w.id].parentId;
      assert v in t && (t[v].bootId == boot || t[v].bootId == STATIC_BOOT);
      assert forall x :: x in ancestors ==> x.id != v;
      forall k ensures k in found && found[k].bootId == boot && found[k].parentId == v <==>
                       (k in t && t[k].bootId == boot && t[k].parentId == v) ||
                       (ancestors != [] && k == ancestors[0].id && ancestors[0].parentId == v)
      {
        ChildrenBefore(t, boot, ancestors, found, v, k);
      }
      hide OnlyAdds, Anchored, ContainersApart;
      SameVirtual(t, boot, ancestors, found, v);
      if AncestorTakesPlace(t, boot, ancestors, w) {
        assert ancestors[0] in ancestors;
        var k := ancestors[0].id;
        assert k in found && k != w.id && found[k].parentId == v && found[k].bootId == boot;
      }
    }
  }

  lemma SameVirtual(t: Table, boot: string, ancestors: seq<Row>, found: Table, v: int)
    requires OnlyAdds(t, boot, ancestors, found) && ContainersApart(t) && boot != STATIC_BOOT
    requires v in t && (t[v].bootId == boot || t[v].bootId == STATIC_BOOT) && forall x :: x in ancestors ==> x.id != v
    ensures v in found && found[v].subsystem == VIRTUAL && found[v].bootId == boot <==>
            t[v].subsystem == VIRTUAL && t[v].bootId == boot
  {
  }

  lemma {:induction false} ChainLinks(t: Table, boot: string, writes: seq<Row>)
    requires RevivedChain(t, boot, writes)
    ensures forall i :: 0 < i < |writes| ==> writes[i].parentId == writes[i - 1].id
    ensures forall x :: x in writes ==> x.subsystem == VIRTUAL
  {
    if writes != [] {
      var n := |writes| - 1;
      ChainLinks(t, boot, writes[..n]);
      assert forall x :: x in writes <==> x in writes[..n] || x == writes[n];
    }
  }

  /** What `CreateDevice` promises of its ancestors gives what is asked of them below. */
  lemma {:induction false} LaidAbove(t: Table, boot: string, path: string, ancestors: seq<Row>)
    requires BelowRoot(path) && HasContainers(t, boot) && WellLaid(t, boot, ParentPath(path), ancestors)
    requires Found(t, boot, ParentPath(path)) ==> ancestors == []
    ensures RevivedChain(t, boot, ancestors) && forall x :: x in ancestors ==> x.devpath != path
  {
    hide Found, ParentPath, BelowRoot;
    ParentStaysBelow(path);
    if ancestors != [] {
      assert OnTheWay(ParentPath(path), ancestors);
    }
  }

  /**
   * The same exact condition on the table before the call. With the parent row there or created: a
   * failed attach keeps every virtual row occupied if and only if the parent path already had a
   * current row or is a container; a successful one if and only if its row was not the last child
   * of a virtual row it leaves, or the first created ancestor takes its place there.
   */
  lemma {:induction false} AttachKeepsVirtualsBefore(t: Table, boot: string, path: string, ancestors: seq<Row>,
                                                     own: seq<Row>)
    requires boot != "" && boot != STATIC_BOOT && Anchored(t, boot) && ContainersApart(t) && NoEmptyVirtual(t, boot)
    requires GoodWrites(t, boot, ancestors) && RevivedChain(t, boot, ancestors)
    requires ancestors == [] <==> Found(t, boot, ParentPath(path))
    requires |own| <= 1 && GoodWrites(Applied(t, ancestors), boot, own)
    requires own != [] ==> own[0].devpath == path && own[0].subsystem != VIRTUAL
    requires own != [] && ancestors != [] ==> own[0].parentId == ancestors[|ancestors| - 1].id
    requires forall x :: x in ancestors ==> x.devpath != path
    ensures NoEmptyVirtual(Applied(Applied(t, ancestors), own), boot) <==>
            if own == [] then Found(t, boot, ParentPath(path))
            else LeavesNoneEmpty(t, boot, own[0]) || AncestorTakesPlace(t, boot, ancestors, own[0])
  {
    hide Anchored, ContainersApart, Occupied, RevivedChain, LeavesNoneEmpty, Found, OnlyAdds, NoEmptyVirtual;
    AttachKeepsVirtualsExactly(t, boot, ancestors, own);
    if own != [] {
      var found, w := Applied(t, ancestors), own[0];
      assert GoodWrite(found, boot, w);
      hide GoodWrites, GoodWrite, Applied;
      ChainOnlyAdds(t, boot, ancestors);
      ChainLinks(t, boot, ancestors);
      OwnIsNoAncestor(t, boot, ancestors, found, w);
      LeavingBefore(t, boot, ancestors, found, w);
    }
  }

  // ----- a known device keeps its policy

  /** Creating ancestors touches virtual rows only. */
  lemma {:induction false} DevicesStay(t: Table, boot: string, writes: seq<Row>)
    requires GoodWrites(t, boot, writes) && forall x :: x in writes ==> x.subsystem == VIRTUAL
    ensures forall k :: k in t && t[k].subsystem != VIRTUAL ==> k in Applied(t, writes) && Applied(t, writes)[k] == t[k]
    ensures forall k :: k in Applied(t, writes) && Applied(t, writes)[k].subsystem != VIRTUAL ==>
              k in t && Applied(t, writes)[k] == t[k]
  {
    if writes != [] {
      var n := |writes| - 1;
      AppliedSnoc(t, boot, writes);
      DevicesStay(t, boot, writes[..n]);
    }
  }

  /**
   * A device with a known occurrence under its parent is written into that occurrence, which keeps its
   * level and rules; every other row, a virtual one at the path too, stays as the ancestors left it.
   */
  lemma {:induction false} KnownDeviceKeepsControl(t: Table, boot: string, ancestors: seq<Row>, w: Row, path: string,
                                                   k: int)
    requires GoodWrites(t, boot, ancestors) && forall x :: x in ancestors ==> x.subsystem == VIRTUAL
    requires GoodWrite(Applied(t, ancestors), boot, w) && w.subsystem != VIRTUAL
    requires ChosenRow(Applied(t, ancestors), path, w.subsystem, w.hash, w.parentId, w.id)
    requires k in t && IsOccurrence(t[k], w.hash, w.subsystem, w.parentId)
    ensures w.id in t && IsOccurrence(t[w.id], w.hash, w.subsystem, w.parentId)
    ensures var found := Applied(t, ancestors);
            var after := Applied(found, [w]);
            && w.id in after && SameControl(after[w.id], t[w.id])
            && forall id :: id in found && id != w.id ==> id in after && after[id] == found[id]
  {
    DevicesStay(t, boot, ancestors);
    var found := Applied(t, ancestors);
    assert found[k] == t[k];
    assert HasOccurrence(found, w.hash, w.subsystem, w.parentId);
    assert [w][1..] == [] && Applied(found, [w]) == found[w.id := w];
  }

  // ----- the failing inputs

  /** Just the container of all devices. */
  function Bare(): Table {
    map[1 := Row(1, "root", ROOT, "container", 0, Allowed, false, false, STATIC_BOOT, Inherit)]
  }

  const MISSING := Row(2, "virtual", "/devices/a", VIRTUAL, 1, Allowed, false, false, "boot", Inherit)

  lemma JoinedPaths()
    ensures ParentPath("/devices/a") == ROOT && ParentPath("/devices/c") == ROOT
    ensures ParentPath("/devices/a/b") == "/devices/a"
  {
    assert "/devices/a" == ROOT + "/" + "a" && "/devices/c" == ROOT + "/" + "c";
    assert "/devices/a/b" == "/devices/a" + "/" + "b";
    ParentOfJoin(ROOT, "a");
    ParentOfJoin(ROOT, "c");
    ParentOfJoin("/devices/a", "b");
  }

  /** An attach of `/devices/a/b` that created `/devices/a` and then failed. */
  lemma FailedAttachLeavesEmptyVirtual()
    ensures NoEmptyVirtual(Bare(), "boot") && GoodWrites(Bare(), "boot", [MISSING])
    ensures !NoEmptyVirtual(Applied(Bare(), [MISSING]), "boot")
  {
    JoinedPaths();
    hide ParentPath;
    var t, writes := Bare(), [MISSING];
    assert writes[1..] == [] && writes[..0] == [];
    assert GoodWrites(t, "boot", writes) && RevivedChain(t, "boot", writes);
    AttachKeepsVirtualsExactly(t, "boot", writes, []);
  }

  /** A hub with a stick below it. */
  function Plugged(): Table {
    map[1 := Bare()[1],
        2 := Row(2, "hub", "/devices/a", "usb", 1, Allowed, false, false, "boot", Inherit),
        3 := Row(3, "stick", "/devices/a/b", "usb", 2, Allowed, false, false, "boot", Inherit)]
  }

  /** The hub is reported at another path while the stick is still current: the stick keeps a path
      that does not lead through the hub any more. */
  lemma MovedHubLosesLinks()
    ensures LinksMatchPaths(Plugged(), "boot")
    ensures var w := Plugged()[2].(devpath := "/devices/c");
            GoodWrite(Plugged(), "boot", w) && !LinksMatchPaths(Plugged()[2 := w], "boot")
  {
    JoinedPaths();
    hide ParentPath;
    var t := Plugged();
    var w := t[2].(devpath := "/devices/c");
    assert LinksMatchPaths(t, "boot") && GoodWrite(t, "boot", w);
    assert t[3].parentId == 2 && CarriesOthers(t, "boot", 2);
    ReattachKeepsLinksExactly(t, "boot", w);
  }
}
