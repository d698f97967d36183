/** Subtrees of rows connected in the current boot, and what disconnecting one clears. */
module DeviceSubtrees {
  import opened Common
  import opened DeviceTable
  import opened TreePaths
  import opened PolicyOverride

  /** The rows of the current boot, with the links between them. */
  function Current(t: Table, boot: string): (c: Table)
    ensures ValidTable(t) ==> ValidTable(c)
  {
    map id | id in t && t[id].bootId == boot :: t[id]
  }

  /** `id` is `top` or hangs below it through rows of the table. */
  ghost predicate Under(c: Table, id: int, top: int) {
    id == top || Below(c, id, top)
  }

  ghost function Subtree(t: Table, boot: string, top: int): set<int> {
    set id | id in Current(t, boot) && Under(Current(t, boot), id, top)
  }

  // ----- facts about links

  lemma UnderTransitive(c: Table, a: int, b: int, top: int)
    requires ValidTable(c) && Under(c, a, b) && Under(c, b, top) && b in c
    ensures Under(c, a, top)
  {
    hide Below;
    if a != b && b != top {
      BelowTransitive(c, a, b, top);
    }
  }

  lemma ChildIsBelow(c: Table, child: int, top: int)
    requires ValidTable(c) && child in c && top in c && c[child].parentId == top
    ensures Below(c, child, top)
  {
    assert Up(c, child, 1) == Up(c, top, 0) == top;
  }

  lemma CycleReachesTop(c: Table, id: int, top: int)
    requires ValidTable(c) && id in c && top in c && Under(c, id, top) && OnCycle(c, id)
    ensures OnCycle(c, top)
  {
    hide Below;
    if id != top {
      CycleAbove(c, id, top);
    }
  }

  /** Two different children of one row share a descendant only on a cycle. */
  lemma SiblingsShare(c: Table, id: int, a: int, b: int, x: int)
    requires ValidTable(c) && id in c && a in c && b in c && a != b && x in c
    requires c[a].parentId == id && c[b].parentId == id && Under(c, x, a) && Under(c, x, b)
    ensures OnCycle(c, id)
  {
    var m := StepsTo(c, x, a);
    var n := StepsTo(c, x, b);
    if m < n {
      SiblingAbove(c, id, a, b, x, m, n);
    } else {
      SiblingAbove(c, id, b, a, x, n, m);
    }
  }

  lemma StepsTo(c: Table, x: int, top: int) returns (n: nat)
    requires Under(c, x, top)
    ensures Up(c, x, n) == top
  {
    if x == top {
      n := 0;
    } else {
      n :| n > 0 && Up(c, x, n) == top;
    }
  }

  lemma {:induction false} SiblingAbove(c: Table, id: int, a: int, b: int, x: int, m: nat, n: nat)
    requires ValidTable(c) && id in c && a in c && b in c && a != b
    requires c[a].parentId == id && c[b].parentId == id
    requires Up(c, x, m) == a && Up(c, x, n) == b && m <= n
    ensures OnCycle(c, id)
  {
    assert m != n;
    var d := n - m;
    UpCompose(c, x, m, d);
    assert Up(c, a, d) == b;
    assert Up(c, a, d) == Up(c, id, d - 1);
    UpLast(c, id, d - 1);
    assert Up(c, id, d) == id;
  }

  /** A subtree is its top and the subtrees of the children. */
  lemma UnderThroughChild(c: Table, x: int, top: int)
    requires ValidTable(c) && top in c && x in c
    ensures Under(c, x, top) <==> x == top || exists k :: k in c && c[k].parentId == top && Under(c, x, k)
    ensures OnCycle(c, top) <==> exists k :: k in c && c[k].parentId == top && Under(c, top, k)
  {
    hide Below;
    BelowThroughChild(c, x, top);
    BelowThroughChild(c, top, top);
    if x != top && x in c && c[x].parentId == top {
      assert Under(c, x, x);
    }
    if c[top].parentId == top {
      assert Under(c, top, top);
    }
    if k :| k in c && c[k].parentId == top && Under(c, x, k) && x != top {
      if x != k {
        assert Below(c, x, k);
      }
    }
    if k :| k in c && c[k].parentId == top && Under(c, top, k) {
      if top != k {
        assert Below(c, top, k);
      }
    }
  }

  // ----- clearing

  function Cleared(t: Table, ids: set<int>): Table {
    map id | id in t :: if id in ids then t[id].(bootId := "") else t[id]
  }

  lemma ClearedTwice(t: Table, a: set<int>, b: set<int>)
    ensures Cleared(Cleared(t, a), b) == Cleared(t, a + b)
  {
    var x, y := Cleared(Cleared(t, a), b), Cleared(t, a + b);
    assert forall id :: id in x <==> id in y;
    assert forall id :: id in x ==> x[id] == y[id];
  }

  predicate HasCurrentChild(t: Table, id: int, boot: string) {
    exists k :: k in t && t[k].parentId == id && t[k].bootId == boot
  }

  /** A virtual row of the current boot that has lost its last current child. */
  predicate Emptied(t: Table, id: int, boot: string) {
    id in t && id > 0 && t[id].subsystem == VIRTUAL && t[id].bootId == boot && !HasCurrentChild(t, id, boot)
  }

  lemma ClearingShrinks(t: Table, id: int, boot: string)
    requires id in t && t[id].bootId == boot && boot != ""
    ensures Current(Cleared(t, {id}), boot).Keys == Current(t, boot).Keys - {id}
    ensures |Current(Cleared(t, {id}), boot)| < |Current(t, boot)|
  {
    var a, b := Current(Cleared(t, {id}), boot), Current(t, boot);
    assert forall k :: k in a.Keys <==> k in b.Keys - {id};
    assert a.Keys == b.Keys - {id};
    assert id in b.Keys;
  }

  /** The chain the pruning loop clears, starting at a row and going up. */
  ghost function PruneChain(t: Table, boot: string, id: int): seq<int>
    requires boot != ""
    decreases |Current(t, boot)|
  {
    if !Emptied(t, id, boot) then []
    else
      ClearingShrinks(t, id, boot);
      [id] + PruneChain(Cleared(t, {id}), boot, t[id].parentId)
  }

  ghost function Ids(chain: seq<int>): set<int> {
    set id | id in chain
  }

  /** What a successful disconnect leaves behind. */
  ghost function Disconnected(t: Table, boot: string, target: int): Table
    requires boot != "" && target in t
  {
    var t1 := Cleared(t, Subtree(t, boot, target));
    Cleared(t1, Ids(PruneChain(t1, boot, t[target].parentId)))
  }

  lemma SubtreeIsCurrent(t: Table, boot: string, target: int)
    ensures forall id :: id in Subtree(t, boot, target) ==> id in t && t[id].bootId == boot
  {
  }

  /** Whatever hangs on a row of the subtree belongs to the subtree. */
  lemma SubtreeClosed(t: Table, boot: string, target: int, id: int)
    requires ValidTable(t) && target in Current(t, boot) && id in Current(t, boot)
    requires t[id].parentId in Subtree(t, boot, target)
    ensures id in Subtree(t, boot, target)
  {
    var c := Current(t, boot);
    ChildIsBelow(c, id, t[id].parentId);
    UnderTransitive(c, id, t[id].parentId, target);
  }

  /** Only the top of a subtree hangs on a row outside it. */
  lemma SubtreeEntrance(t: Table, boot: string, target: int, id: int)
    requires ValidTable(t) && target in Current(t, boot)
    requires id in Subtree(t, boot, target) && id != target
    ensures t[id].parentId in Subtree(t, boot, target)
  {
    var c := Current(t, boot);
    var n: nat :| n > 0 && Up(c, id, n) == target;
    var p := t[id].parentId;
    assert Up(c, id, n) == Up(c, p, n - 1);
    if n == 1 {
      assert p == target;
    } else {
      UpInside(c, p, 0, n - 1);
      assert Below(c, p, target);
    }
  }

  // ----- the pruned chain

  /**
   * What the pruning loop clears, described without it: a run of consecutive parents, all virtual
   * and current, each left without a current child once those before it are gone, and the row after
   * the last of them must stay.
   */
  ghost predicate MaximalChain(t: Table, boot: string, start: int, chain: seq<int>) {
    && (forall k :: 0 <= k < |chain| ==> chain[k] == Up(t, start, k) && chain[k] in t)
    && (forall k :: 0 <= k < |chain| ==> t[chain[k]].subsystem == VIRTUAL && t[chain[k]].bootId == boot)
    && (forall k, c :: 0 <= k < |chain| && c in t && t[c].bootId == boot && t[c].parentId == chain[k] ==>
         c in chain[..k])
    && !Emptied(Cleared(t, Ids(chain)), Up(t, start, |chain|), boot)
  }

  lemma {:induction false} ClearingKeepsLinks(t: Table, ids: set<int>, start: int, n: nat)
    requires ValidTable(t)
    ensures ValidTable(Cleared(t, ids))
    ensures Up(Cleared(t, ids), start, n) == Up(t, start, n)
    decreases n
  {
    if n > 0 && start in t {
      ClearingKeepsLinks(t, ids, t[start].parentId, n - 1);
    }
  }

  lemma ConsIds(id: int, rest: seq<int>)
    ensures Ids([id] + rest) == {id} + Ids(rest)
  {
    assert forall x :: x in [id] + rest <==> x == id || x in rest;
  }

  lemma {:induction false} ChainIsMaximal(t: Table, boot: string, start: int)
    requires ValidTable(t) && boot != ""
    ensures MaximalChain(t, boot, start, PruneChain(t, boot, start))
    decreases |Current(t, boot)|
  {
    hide Current;
    var chain := PruneChain(t, boot, start);
    if Emptied(t, start, boot) {
      ClearingShrinks(t, start, boot);
      var next := Cleared(t, {start});
      ClearingKeepsLinks(t, {start}, start, 0);
      ChainIsMaximal(next, boot, t[start].parentId);
      ChainStep(t, boot, start, PruneChain(next, boot, t[start].parentId));
    } else {
      assert chain == [];
      assert Cleared(t, Ids(chain)) == t by { TablesEqual(Cleared(t, Ids(chain)), t); }
      assert Up(t, start, 0) == start;
    }
  }

  lemma ChainStep(t: Table, boot: string, start: int, rest: seq<int>)
    requires ValidTable(t) && boot != "" && Emptied(t, start, boot)
    requires MaximalChain(Cleared(t, {start}), boot, t[start].parentId, rest)
    ensures MaximalChain(t, boot, start, [start] + rest)
  {
    EmptiedFacts(t, start, boot);
    hide Emptied;
    var next, chain := Cleared(t, {start}), [start] + rest;
    forall k | 0 <= k < |chain|
      ensures chain[k] == Up(t, start, k) && chain[k] in t && t[chain[k]].subsystem == VIRTUAL &&
              t[chain[k]].bootId == boot
    {
      if k > 0 {
        ClearingKeepsLinks(t, {start}, t[start].parentId, k - 1);
      }
    }
    forall k, c | 0 <= k < |chain| && c in t && t[c].bootId == boot && t[c].parentId == chain[k]
      ensures c in chain[..k]
    {
      ChainChild(t, boot, start, rest, k, c);
    }
    ClearingKeepsLinks(t, {start}, t[start].parentId, |rest|);
    ClearedTwice(t, {start}, Ids(rest));
    ConsIds(start, rest);
    assert Up(t, start, |chain|) == Up(next, t[start].parentId, |rest|);
  }

  lemma EmptiedFacts(t: Table, id: int, boot: string)
    requires Emptied(t, id, boot)
    ensures id in t && t[id].subsystem == VIRTUAL && t[id].bootId == boot && !HasCurrentChild(t, id, boot)
  {
  }

  lemma ChainChild(t: Table, boot: string, start: int, rest: seq<int>, k: nat, c: int)
    requires ValidTable(t) && boot != "" && Emptied(t, start, boot)
    requires MaximalChain(Cleared(t, {start}), boot, t[start].parentId, rest)
    requires k < |[start] + rest| && c in t && t[c].bootId == boot && t[c].parentId == ([start] + rest)[k]
    ensures c in ([start] + rest)[..k]
  {
    var chain := [start] + rest;
    assert t[c].parentId == start ==> HasCurrentChild(t, start, boot);
    if k > 0 {
      assert chain[..k] == [start] + rest[..k - 1];
      assert c != start ==> Cleared(t, {start})[c] == t[c];
    }
  }

  // ----- what every disconnect keeps

  /** Each current row hangs on a current row or on a static container. */
  ghost predicate Anchored(t: Table, boot: string) {
    forall id :: id in t && t[id].bootId == boot ==>
      t[id].parentId in t && (t[t[id].parentId].bootId == boot || t[t[id].parentId].bootId == STATIC_BOOT)
  }

  ghost predicate Occupied(t: Table, boot: string, id: int) {
    id in t && t[id].subsystem == VIRTUAL && t[id].bootId == boot ==> HasCurrentChild(t, id, boot)
  }

  /** Each current virtual row has a current child. */
  ghost predicate NoEmptyVirtual(t: Table, boot: string) {
    forall id :: id in t ==> Occupied(t, boot, id)
  }

  ghost predicate OnlyEmpty(t: Table, boot: string, at: int) {
    forall id :: id in t && id != at ==> Occupied(t, boot, id)
  }

  lemma SubtreeKeepsAnchors(t: Table, boot: string, target: int)
    requires ValidTable(t) && boot != "" && target in Current(t, boot) && Anchored(t, boot)
    ensures Anchored(Cleared(t, Subtree(t, boot, target)), boot)
  {
    hide Below;
    var s := Subtree(t, boot, target);
    var after := Cleared(t, s);
    forall id | id in after && after[id].bootId == boot
      ensures after[id].parentId in after &&
              (after[after[id].parentId].bootId == boot || after[after[id].parentId].bootId == STATIC_BOOT)
    {
      assert id !in s && id in Current(t, boot);
      if t[id].parentId in s {
        SubtreeClosed(t, boot, target, id);
      }
    }
  }

  lemma PruneStepKeepsAnchors(t: Table, boot: string, id: int)
    requires boot != "" && Emptied(t, id, boot) && Anchored(t, boot)
    ensures Anchored(Cleared(t, {id}), boot)
  {
    var after := Cleared(t, {id});
    forall k | k in after && after[k].bootId == boot
      ensures after[k].parentId in after &&
              (after[after[k].parentId].bootId == boot || after[after[k].parentId].bootId == STATIC_BOOT)
    {
      assert k != id && t[k].bootId == boot;
      assert t[k].parentId == id ==> HasCurrentChild(t, id, boot);
    }
  }

  lemma {:induction false} PruneKeepsAnchors(t: Table, boot: string, id: int)
    requires boot != "" && Anchored(t, boot)
    ensures Anchored(Cleared(t, Ids(PruneChain(t, boot, id))), boot)
    decreases |Current(t, boot)|
  {
    hide Current, Anchored;
    if Emptied(t, id, boot) {
      ClearingShrinks(t, id, boot);
      PruneStepKeepsAnchors(t, boot, id);
      var next := Cleared(t, {id});
      PruneKeepsAnchors(next, boot, t[id].parentId);
      PruneUnfold(t, boot, id);
    } else {
      TablesEqual(Cleared(t, Ids([])), t);
    }
  }

  lemma {:induction false} PruneUnfold(t: Table, boot: string, id: int)
    requires boot != "" && Emptied(t, id, boot)
    ensures Cleared(t, Ids(PruneChain(t, boot, id))) ==
            Cleared(Cleared(t, {id}), Ids(PruneChain(Cleared(t, {id}), boot, t[id].parentId)))
  {
    var rest := PruneChain(Cleared(t, {id}), boot, t[id].parentId);
    ConsIds(id, rest);
    ClearedTwice(t, {id}, Ids(rest));
  }

  /** Disconnecting keeps "each current row's parent is current or a static container". */
  lemma DisconnectKeepsAnchors(t: Table, boot: string, target: int)
    requires ValidTable(t) && boot != "" && target in Current(t, boot) && Anchored(t, boot)
    ensures Anchored(Disconnected(t, boot, target), boot)
  {
    hide Anchored;
    SubtreeKeepsAnchors(t, boot, target);
    PruneKeepsAnchors(Cleared(t, Subtree(t, boot, target)), boot, t[target].parentId);
  }

  lemma SubtreeEmptiesOne(t: Table, boot: string, target: int)
    requires ValidTable(t) && boot != "" && target in Current(t, boot) && NoEmptyVirtual(t, boot)
    ensures OnlyEmpty(Cleared(t, Subtree(t, boot, target)), boot, t[target].parentId)
  {
    hide Below;
    var s := Subtree(t, boot, target);
    var after := Cleared(t, s);
    forall id | id in after && id != t[target].parentId && after[id].subsystem == VIRTUAL && after[id].bootId == boot
      ensures HasCurrentChild(after, id, boot)
    {
      assert id !in s && id in Current(t, boot) && Occupied(t, boot, id);
      var k :| k in t && t[k].parentId == id && t[k].bootId == boot;
      if k in s && k != target {
        SubtreeEntrance(t, boot, target, k);
      }
      assert after[k] == t[k];
    }
  }

  lemma PruneStepEmptiesOne(t: Table, boot: string, id: int)
    requires ValidTable(t) && boot != "" && Emptied(t, id, boot) && OnlyEmpty(t, boot, id)
    ensures OnlyEmpty(Cleared(t, {id}), boot, t[id].parentId)
  {
    var after := Cleared(t, {id});
    forall v | v in after && v != t[id].parentId && after[v].subsystem == VIRTUAL && after[v].bootId == boot
      ensures HasCurrentChild(after, v, boot)
    {
      assert v != id && Occupied(t, boot, v);
      var k :| k in t && t[k].parentId == v && t[k].bootId == boot;
      assert after[k] == t[k];
    }
  }

  lemma {:induction false} PruneRestores(t: Table, boot: string, id: int)
    requires ValidTable(t) && boot != "" && OnlyEmpty(t, boot, id)
    ensures NoEmptyVirtual(Cleared(t, Ids(PruneChain(t, boot, id))), boot)
    decreases |Current(t, boot)|
  {
    hide Current;
    if Emptied(t, id, boot) {
      hide OnlyEmpty, NoEmptyVirtual;
      ClearingShrinks(t, id, boot);
      PruneStepEmptiesOne(t, boot, id);
      ClearingKeepsLinks(t, {id}, id, 0);
      PruneRestores(Cleared(t, {id}), boot, t[id].parentId);
      PruneUnfold(t, boot, id);
    } else {
      TablesEqual(Cleared(t, Ids([])), t);
      assert id in t ==> Occupied(t, boot, id);
    }
  }

  /** Disconnecting keeps "each current virtual row has a current child". */
  lemma DisconnectKeepsVirtuals(t: Table, boot: string, target: int)
    requires ValidTable(t) && boot != "" && target in Current(t, boot) && NoEmptyVirtual(t, boot)
    ensures NoEmptyVirtual(Disconnected(t, boot, target), boot)
  {
    hide OnlyEmpty, NoEmptyVirtual;
    var s := Subtree(t, boot, target);
    SubtreeEmptiesOne(t, boot, target);
    ClearingKeepsLinks(t, s, target, 0);
    PruneRestores(Cleared(t, s), boot, t[target].parentId);
  }

  /** Which rows change, and how: only boot ids of current rows, and those become empty. */
  lemma {:induction false} DisconnectExact(t: Table, boot: string, target: int)
    requires ValidTable(t) && boot != "" && target in Current(t, boot)
    ensures var t1 := Cleared(t, Subtree(t, boot, target));
            var chain := PruneChain(t1, boot, t[target].parentId);
            && MaximalChain(t1, boot, t[target].parentId, chain)
            && Ids(chain) !! Subtree(t, boot, target)
            && Disconnected(t, boot, target) == Cleared(t, Subtree(t, boot, target) + Ids(chain))
    ensures Disconnected(t, boot, target).Keys == t.Keys
    ensures Disconnected(t, boot, target)[target].bootId == ""
  {
    var s := Subtree(t, boot, target);
    var t1 := Cleared(t, s);
    ClearingKeepsLinks(t, s, target, 0);
    ChainIsMaximal(t1, boot, t[target].parentId);
    var chain := PruneChain(t1, boot, t[target].parentId);
    ClearedTwice(t, s, Ids(chain));
    hide Subtree;
    assert target in s by { TopInSubtree(t, boot, target); }
    forall id | id in chain ensures id !in s {
      assert t1[id].bootId == boot;
    }
  }

  lemma TopInSubtree(t: Table, boot: string, target: int)
    requires target in Current(t, boot)
    ensures target in Subtree(t, boot, target)
  {
    assert Under(Current(t, boot), target, target);
  }

  // ----- what a disconnect clears, read off the table before it

  /** The n-th parent of the target is a current virtual row, and every current child of it is
      under the target or an earlier parent of it. */
  ghost predicate HoldsOnly(t: Table, boot: string, target: int, n: nat) {
    var v := Up(t, target, n);
    && v in t && t[v].subsystem == VIRTUAL && t[v].bootId == boot
    && forall c :: c in Current(t, boot) && t[c].parentId == v ==>
         Under(Current(t, boot), c, target) || EarlierParent(t, target, n, c)
  }

  ghost predicate EarlierParent(t: Table, target: int, n: nat, id: int) {
    exists j: nat :: 0 < j < n && Up(t, target, j) == id
  }

  ghost predicate AllHoldOnly(t: Table, boot: string, target: int, n: nat) {
    forall m: nat :: 0 < m <= n ==> HoldsOnly(t, boot, target, m)
  }

  /** The row is under the target, or a parent of it that all along holds nothing else. */
  ghost predicate GoesWith(t: Table, boot: string, target: int, id: int) {
    || Under(Current(t, boot), id, target)
    || exists n: nat :: 0 < n && Up(t, target, n) == id && AllHoldOnly(t, boot, target, n)
  }

  lemma {:induction false} ChainRow(t: Table, boot: string, start: int, chain: seq<int>, k: nat)
    requires MaximalChain(t, boot, start, chain) && k < |chain|
    ensures chain[k] == Up(t, start, k) && chain[k] in t && t[chain[k]].subsystem == VIRTUAL &&
            t[chain[k]].bootId == boot
  {
  }

  /** Where a current child of a chain row is, in the walk from `start`. */
  lemma ChainChildAt(t: Table, boot: string, start: int, chain: seq<int>, k: nat, c: int) returns (j: nat)
    requires MaximalChain(t, boot, start, chain) && k < |chain|
    requires c in t && t[c].bootId == boot && t[c].parentId == chain[k]
    ensures j < k && Up(t, start, j) == c
  {
    assert c in chain[..k];
    j :| j < k && chain[..k][j] == c;
  }

  lemma {:induction false} ChainDistinct(t: Table, boot: string, start: int, chain: seq<int>, a: nat, b: nat)
    requires ValidTable(t) && MaximalChain(t, boot, start, chain) && a < b < |chain|
    ensures chain[a] != chain[b]
    decreases a
  {
    hide MaximalChain, Up;
    if chain[a] == chain[b] {
      UpLast(t, start, b - 1);
      ChainRow(t, boot, start, chain, b - 1);
      ChainRow(t, boot, start, chain, b);
      var k := ChainChildAt(t, boot, start, chain, a, chain[b - 1]);
      ChainRow(t, boot, start, chain, k);
      ChainDistinct(t, boot, start, chain, k, b - 1);
    }
  }

  lemma OutsideIsKept(t: Table, boot: string, target: int, c: int)
    requires c in Current(t, boot)
    ensures var t1 := Cleared(t, Subtree(t, boot, target));
            c in t1 && t1[c].parentId == t[c].parentId && t1[c].subsystem == t[c].subsystem &&
            (t1[c].bootId == boot || Under(Current(t, boot), c, target))
  {
    hide Below;
  }

  lemma {:induction false} ChainHoldsOnly(t: Table, boot: string, target: int, chain: seq<int>, k: nat)
    requires ValidTable(t) && boot != "" && target in Current(t, boot)
    requires MaximalChain(Cleared(t, Subtree(t, boot, target)), boot, t[target].parentId, chain)
    requires k < |chain|
    ensures Up(t, target, k + 1) == chain[k] && HoldsOnly(t, boot, target, k + 1)
  {
    var s, start := Subtree(t, boot, target), t[target].parentId;
    var t1 := Cleared(t, s);
    ClearingKeepsLinks(t, s, start, k);
    ChainRow(t1, boot, start, chain, k);
    assert t1[chain[k]].bootId == boot && t[chain[k]].bootId == boot;
    hide Below, MaximalChain, Subtree, Cleared, Under;
    forall c | c in Current(t, boot) && t[c].parentId == chain[k]
      ensures Under(Current(t, boot), c, target) || EarlierParent(t, target, k + 1, c)
    {
      OutsideIsKept(t, boot, target, c);
      if t1[c].bootId == boot {
        var j := ChainChildAt(t1, boot, start, chain, k, c);
        ClearingKeepsLinks(t, s, start, j);
        assert Up(t, target, j + 1) == c;
      }
    }
  }

  /** A walk through current rows is the same in the table of current rows. */
  lemma {:induction false} UpThroughCurrent(t: Table, boot: string, id: int, n: nat)
    requires forall j: nat :: j < n ==> Up(t, id, j) in Current(t, boot)
    ensures Up(Current(t, boot), id, n) == Up(t, id, n)
    decreases n
  {
    if n > 0 {
      assert Up(t, id, 0) in Current(t, boot);
      var p := t[id].parentId;
      forall j: nat | j < n - 1 ensures Up(t, p, j) in Current(t, boot) {
        assert Up(t, p, j) == Up(t, id, j + 1);
      }
      UpThroughCurrent(t, boot, p, n - 1);
    }
  }

  lemma {:induction false} HoldersAreCurrent(t: Table, boot: string, target: int, n: nat, j: nat)
    requires target in Current(t, boot) && AllHoldOnly(t, boot, target, n) && j <= n
    ensures Up(t, target, j) in Current(t, boot)
  {
    if j > 0 {
      assert HoldsOnly(t, boot, target, j);
    }
  }

  /** Once the walk up is back in the subtree it stays there. */
  lemma {:induction false} WalkStaysUnder(t: Table, boot: string, target: int, m: nat, n: nat)
    requires ValidTable(t) && target in Current(t, boot) && 0 < m <= n && AllHoldOnly(t, boot, target, n)
    requires Up(t, target, m) in Subtree(t, boot, target)
    ensures Up(t, target, n) in Subtree(t, boot, target)
    decreases n - m
  {
    hide HoldsOnly, Subtree;
    if m < n {
      var w := Up(t, target, m);
      UpLast(t, target, m);
      HoldersAreCurrent(t, boot, target, n, m);
      if w != target {
        SubtreeEntrance(t, boot, target, w);
      } else {
        assert Up(t, target, m + 1) == t[target].parentId == Up(t, target, 1);
        ParentOnCycle(t, boot, target, m, n);
      }
      WalkStaysUnder(t, boot, target, m + 1, n);
    }
  }

  lemma {:induction false} ParentOnCycle(t: Table, boot: string, target: int, m: nat, n: nat)
    requires ValidTable(t) && target in Current(t, boot) && 0 < m <= n && AllHoldOnly(t, boot, target, n)
    requires Up(t, target, m) == target
    ensures t[target].parentId in Subtree(t, boot, target)
  {
    hide HoldsOnly;
    var p := t[target].parentId;
    assert p == Up(t, target, 1);
    HoldersAreCurrent(t, boot, target, n, 1);
    forall j: nat | j < m - 1 ensures Up(t, p, j) in Current(t, boot) {
      HoldersAreCurrent(t, boot, target, n, j + 1);
      assert Up(t, p, j) == Up(t, target, j + 1);
    }
    UpThroughCurrent(t, boot, p, m - 1);
    assert Up(Current(t, boot), p, m - 1) == target;
  }

  lemma ChildKeepsRow(t: Table, ids: set<int>, v: int, boot: string) returns (c: int)
    requires boot != "" && v in t && v > 0 && v !in ids && t[v].subsystem == VIRTUAL && t[v].bootId == boot
    requires !Emptied(Cleared(t, ids), v, boot)
    ensures c in t && t[c].bootId == boot && t[c].parentId == v && c !in ids
  {
    var after := Cleared(t, ids);
    assert after[v] == t[v];
    c :| c in after && after[c].parentId == v && after[c].bootId == boot;
  }

  lemma ChainEnd(t: Table, boot: string, start: int, chain: seq<int>) returns (c: int)
    requires ValidTable(t) && boot != "" && MaximalChain(t, boot, start, chain)
    requires var v := Up(t, start, |chain|); v in t && t[v].subsystem == VIRTUAL && t[v].bootId == boot && v !in chain
    ensures c in t && t[c].bootId == boot && t[c].parentId == Up(t, start, |chain|) && c !in chain
  {
    var v := Up(t, start, |chain|);
    assert !Emptied(Cleared(t, Ids(chain)), v, boot);
    hide Emptied, Cleared, MaximalChain;
    c := ChildKeepsRow(t, Ids(chain), v, boot);
  }

  lemma {:induction false} HolderRow(t: Table, boot: string, target: int, n: nat)
    requires HoldsOnly(t, boot, target, n)
    ensures Up(t, target, n) in t && t[Up(t, target, n)].subsystem == VIRTUAL && t[Up(t, target, n)].bootId == boot
  {
  }

  lemma {:induction false} HeldGoes(t: Table, boot: string, target: int, n: nat, c: int)
    requires HoldsOnly(t, boot, target, n) && c in t && t[c].bootId == boot && t[c].parentId == Up(t, target, n)
    ensures c in Subtree(t, boot, target) || EarlierParent(t, target, n, c)
  {
    hide Below;
  }

  lemma {:induction false} UpFirst(t: Table, id: int, n: nat)
    requires id in t
    ensures Up(t, id, n + 1) == Up(t, t[id].parentId, n)
  {
  }

  lemma ClearedRow(t: Table, ids: set<int>, id: int, boot: string)
    requires boot != "" && id in t
    ensures id in Cleared(t, ids) && Cleared(t, ids)[id].parentId == t[id].parentId
    ensures Cleared(t, ids)[id].subsystem == t[id].subsystem
    ensures Cleared(t, ids)[id].bootId == boot <==> t[id].bootId == boot && id !in ids
  {
  }

  lemma ClearedKeys(t: Table, ids: set<int>, id: int)
    ensures id in Cleared(t, ids) <==> id in t
  {
  }

  /** The row after the chain: if it holds nothing else either, it is in the subtree. */
  lemma {:induction false} AfterChain(t: Table, boot: string, target: int, chain: seq<int>)
    requires ValidTable(t) && boot != "" && target in t
    requires MaximalChain(Cleared(t, Subtree(t, boot, target)), boot, t[target].parentId, chain)
    requires HoldsOnly(t, boot, target, |chain| + 1)
    ensures Up(t, target, |chain| + 1) in Subtree(t, boot, target)
  {
    hide Subtree, MaximalChain, Cleared, Up, HoldsOnly, Current;
    var s := Subtree(t, boot, target);
    var t1 := Cleared(t, s);
    var start, n := t[target].parentId, |chain|;
    var v := Up(t, target, n + 1);
    HolderRow(t, boot, target, n + 1);
    ClearingKeepsLinks(t, s, start, n);
    UpFirst(t, target, n);
    ClearedRow(t, s, v, boot);
    if v !in s {
      LoopedChain(t1, boot, start, chain, v);
      var c := ChainEnd(t1, boot, start, chain);
      ClearedKeys(t, s, c);
      ClearedRow(t, s, c, boot);
      HeldGoes(t, boot, target, n + 1, c);
      var j: nat :| 0 < j < n + 1 && Up(t, target, j) == c;
      ClearingKeepsLinks(t, s, start, j - 1);
      UpFirst(t, target, j - 1);
      ChainRow(t1, boot, start, chain, j - 1);
    }
  }

  /** The walk does not return from the end of the chain into it. */
  lemma {:induction false} LoopedChain(t: Table, boot: string, start: int, chain: seq<int>, v: int)
    requires ValidTable(t) && MaximalChain(t, boot, start, chain) && v == Up(t, start, |chain|)
    ensures v !in chain
  {
    hide MaximalChain, Up;
    if v in chain {
      var i: nat :| i < |chain| && chain[i] == v;
      var last := |chain| - 1;
      UpLast(t, start, last);
      ChainRow(t, boot, start, chain, last);
      var k := ChainChildAt(t, boot, start, chain, i, chain[last]);
      ChainRow(t, boot, start, chain, k);
      ChainDistinct(t, boot, start, chain, k, last);
    }
  }

  /** A disconnect clears exactly the rows that go with the target. */
  lemma {:induction false} ClearsExactly(t: Table, boot: string, target: int, id: int)
    requires ValidTable(t) && boot != "" && target in Current(t, boot) && id in Current(t, boot)
    ensures Disconnected(t, boot, target)[id].bootId == "" <==> GoesWith(t, boot, target, id)
  {
    DisconnectExact(t, boot, target);
    var s := Subtree(t, boot, target);
    var chain := PruneChain(Cleared(t, s), boot, t[target].parentId);
    assert Disconnected(t, boot, target)[id].bootId == "" <==> id in s || id in chain;
    hide MaximalChain, PruneChain, Disconnected, HoldsOnly, Below;
    if id in chain {
      ChainGoes(t, boot, target, chain, id);
    }
    if GoesWith(t, boot, target, id) && id !in s {
      var n: nat :| 0 < n && Up(t, target, n) == id && AllHoldOnly(t, boot, target, n);
      GoneIsInChain(t, boot, target, chain, n);
    }
  }

  lemma ChainGoes(t: Table, boot: string, target: int, chain: seq<int>, id: int)
    requires ValidTable(t) && boot != "" && target in Current(t, boot) && id in chain
    requires MaximalChain(Cleared(t, Subtree(t, boot, target)), boot, t[target].parentId, chain)
    ensures GoesWith(t, boot, target, id)
  {
    hide MaximalChain, HoldsOnly, Below, Subtree;
    var k: nat :| k < |chain| && chain[k] == id;
    forall m: nat | 0 < m <= k + 1 ensures HoldsOnly(t, boot, target, m) {
      ChainHoldsOnly(t, boot, target, chain, m - 1);
    }
    ChainHoldsOnly(t, boot, target, chain, k);
    assert AllHoldOnly(t, boot, target, k + 1);
  }

  lemma {:induction false} GoneIsInChain(t: Table, boot: string, target: int, chain: seq<int>, n: nat)
    requires ValidTable(t) && boot != "" && target in Current(t, boot)
    requires MaximalChain(Cleared(t, Subtree(t, boot, target)), boot, t[target].parentId, chain)
    requires 0 < n && AllHoldOnly(t, boot, target, n) && Up(t, target, n) !in Subtree(t, boot, target)
    ensures Up(t, target, n) in chain
  {
    hide MaximalChain, HoldsOnly, Subtree;
    if |chain| < n {
      AfterChain(t, boot, target, chain);
      WalkStaysUnder(t, boot, target, |chain| + 1, n);
    } else {
      ChainHoldsOnly(t, boot, target, chain, n - 1);
    }
  }
}
